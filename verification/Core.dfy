/** Info-hashes, peer keys, the peer flag byte and announce events. */
module Core {
  import opened Bytes

  const HASH_LEN: nat := 20

  type InfoHash = h: seq<byte> | |h| == HASH_LEN witness seq(20, _ => 0)
  type PeerId = h: seq<byte> | |h| == HASH_LEN witness seq(20, _ => 0)
  type Ip = a: seq<byte> | |a| == 16 witness seq(16, _ => 0)

  const V4_LEN: nat := 6
  const V6_LEN: nat := 18

  /** A compact peer: address and port. Its length tells its family. */
  type Key = k: seq<byte> | |k| == V4_LEN || |k| == V6_LEN witness seq(6, _ => 0)

  type sixbits = x: int | 0 <= x < 64

  /** The peer flag byte by its bits: `0x80` seeding, `0x40` completed, and the low six, which the
      store carries along without reading them. Masking and or-ing act on each bit alone. */
  datatype Flags = Flags(seeding: bool, completed: bool, others: sixbits)

  /** A bare `completed` is cleared: completing implies seeding. */
  function Sanitize(flags: Flags): Flags {
    if flags.completed && !flags.seeding then flags.(completed := false) else flags
  }

  /** `flags |= stored & COMPLETED`: once completed, always completed. */
  function KeepCompleted(flags: Flags, stored: Flags): Flags {
    flags.(completed := flags.completed || stored.completed)
  }

  datatype Event = NoEvent | Completed | Stopped

  /** The event field of a UDP announce. */
  function EventFromUdp(code: u32): Event {
    match code
    case 1 => Completed
    case 3 => Stopped
    case _ => NoEvent
  }

  /** The peer flags both front ends derive from an announce. */
  function AnnounceFlags(left: u64, completed: bool): Flags {
    Flags(left == 0, completed, 0)
  }

  /** `v4_key` and `v6_key`: the peer as it is listed to others, from the 16-byte source address
      (an IPv4 one in its last four bytes) and the announced port. */
  function PeerKey(ip: Ip, isV4: bool, port: u16): Key {
    (if isV4 then ip[12..16] else ip) + ToBe(2, port)
  }

  /** Whoever is listed can be reached: address and port are read back out of the key. */
  lemma PeerKeyReads(ip: Ip, isV4: bool, port: u16)
    ensures var k := PeerKey(ip, isV4, port);
            && |k| == (if isV4 then V4_LEN else V6_LEN)
            && k[..|k| - 2] == (if isV4 then ip[12..16] else ip)
            && Be16(k[|k| - 2..]) == port
  {
    BeRoundTrips(port, 0, 0);
  }

  /** Completed and stopped are recognised by the codes 1 and 3 alone; every other code is none. */
  lemma EventCodes(code: u32)
    ensures EventFromUdp(code) == Completed <==> code == 1
    ensures EventFromUdp(code) == Stopped <==> code == 3
    ensures EventFromUdp(code) == NoEvent <==> code != 1 && code != 3
  {
  }
}
