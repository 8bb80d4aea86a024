/** Time-windowed connection ids: a keyed MAC of the source address and the window's index, accepted
    in the window it was issued in and in the next. */
module ConnIds {
  import opened Bytes
  import opened Core
  import opened Arith

  /** The MAC is a function of the secret key, the address and the window, and nothing more is known
      of it. */
  datatype ConnId = ConnId(key: seq<byte>, windowSecs: u64, mac: (seq<byte>, Ip, u64) -> u64) {
    ghost predicate Valid() {
      windowSecs >= 1
    }

    function ForWindow(ip: Ip, window: u64): u64 {
      mac(key, ip, window)
    }

    function WindowAt(now: u64): u64
      requires windowSecs >= 1
    {
      DivBounds(now, windowSecs);
      assert now / windowSecs <= now;
      now / windowSecs
    }

    function Generate(ip: Ip, now: u64): u64
      requires windowSecs >= 1
    {
      ForWindow(ip, WindowAt(now))
    }

    predicate Validate(id: u64, ip: Ip, now: u64)
      requires windowSecs >= 1
    {
      var window := WindowAt(now);
      id == ForWindow(ip, window) || (window > 0 && id == ForWindow(ip, window - 1))
    }

    /** The MAC that makes the id of `ip` at `t` is none of those that other windows checked for `who` at
        `now` have. */
    ghost predicate NoCollision(ip: Ip, t: u64, who: Ip, now: u64)
      requires windowSecs >= 1
    {
      QuotientFits(t, windowSecs);
      QuotientFits(now, windowSecs);
      var k, m := t / windowSecs, now / windowSecs;
      && (ip != who || m != k ==> mac(key, who, m) != mac(key, ip, k))
      && (m > 0 && (ip != who || m - 1 != k) ==> mac(key, who, m - 1) != mac(key, ip, k))
    }
  }

  lemma QuotientFits(t: u64, w: u64)
    requires w >= 1
    ensures 0 <= t / w <= t
  {
    DivBounds(t, w);
    ProductMonotone(t / w, 1, w);
  }

  /** An id is the MAC, under the secret key, of the address and the number of the window; it is valid
      exactly if it is that of the current or the previous window of that address. */
  lemma ValidIff(c: ConnId, ip: Ip, now: u64, id: u64)
    requires c.Valid()
    ensures 0 <= now / c.windowSecs <= now && c.Generate(ip, now) == c.mac(c.key, ip, now / c.windowSecs)
    ensures c.Validate(id, ip, now)
            <==> id == c.mac(c.key, ip, now / c.windowSecs)
                 || (now >= c.windowSecs && id == c.mac(c.key, ip, now / c.windowSecs - 1))
  {
    QuotientFits(now, c.windowSecs);
    InWindow(now, c.windowSecs, 0);
  }

  /** A zero window is clamped to one second. */
  function NewConnId(key: seq<byte>, windowSecs: u64, mac: (seq<byte>, Ip, u64) -> u64): (c: ConnId)
    ensures c.Valid() && c.key == key && (windowSecs > 0 ==> c.windowSecs == windowSecs)
  {
    ConnId(key, if windowSecs == 0 then 1 else windowSecs, mac)
  }

  /** The first second at which an id issued at `t` is no longer accepted. */
  function Expiry(c: ConnId, t: u64): nat
    requires c.Valid()
  {
    (t / c.windowSecs + 2) * c.windowSecs
  }

  /** Windows are a grid of multiples: `now` lies in window `k` just when it lies between the two. */
  lemma {:induction false} InWindow(now: nat, w: nat, k: nat)
    requires w > 0
    ensures now / w == k <==> k * w <= now < (k + 1) * w
  {
    DivBounds(now, w);
    assert (k + 1) * w == k * w + w;
    if k * w <= now < (k + 1) * w {
      DivUnique(now, w, k, now - k * w);
    }
  }

  /** Two windows from the start of the one `t` lies in: from when to when. */
  lemma TwoWindows(w: nat, t: nat, now: nat)
    requires w > 0
    ensures t / w * w <= now < (t / w + 2) * w <==> now / w == t / w || now / w == t / w + 1
    ensures t / w * w <= t && t + w < (t / w + 2) * w <= t + 2 * w
  {
    var k := t / w;
    InWindow(t, w, k);
    InWindow(now, w, k);
    InWindow(now, w, k + 1);
    assert (k + 2) * w == (k + 1) * w + w && (k + 1) * w == k * w + w;
  }

  /** An id is accepted from the moment it is issued for at least a whole window. */
  lemma {:induction false} AcceptedForAWindow(c: ConnId, ip: Ip, t: u64, now: u64)
    requires c.Valid() && t <= now <= t + c.windowSecs
    ensures c.Validate(c.Generate(ip, t), ip, now)
  {
    TwoWindows(c.windowSecs, t, now);
    assert c.WindowAt(now) == c.WindowAt(t) || c.WindowAt(now) == c.WindowAt(t) + 1;
  }

  /** Exactly when an id issued for `ip` at `t` is accepted from `who` at `now`, unless the MAC
      collides on the windows checked: from the same address only, from the start of the window it
      was issued in to its expiry, which is more than one window and at most two after `t`. */
  lemma {:induction false} AcceptedIff(c: ConnId, ip: Ip, t: u64, who: Ip, now: u64)
    requires c.Valid() && c.NoCollision(ip, t, who, now)
    ensures c.Validate(c.Generate(ip, t), who, now)
            <==> who == ip && t / c.windowSecs * c.windowSecs <= now < (t / c.windowSecs + 2) * c.windowSecs
    ensures Expiry(c, t) == (t / c.windowSecs + 2) * c.windowSecs
    ensures t + c.windowSecs < Expiry(c, t) <= t + 2 * c.windowSecs
  {
    TwoWindows(c.windowSecs, t, now);
    var k: int, m: int := c.WindowAt(t), c.WindowAt(now);
    assert c.Validate(c.Generate(ip, t), who, now) <==> who == ip && (m == k || m == k + 1);
  }
}
