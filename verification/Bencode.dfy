/** The bencode writer (the "bencoding" section of BEP 3) and the tracker's response bodies, against a
    recursive decoder. */
module Bencode {
  import opened Bytes

  // ---------------------------------------------------------------- values and their encoding

  datatype Value = Int(n: nat) | Str(b: seq<byte>) | List(items: Items) | Dict(entries: Entries)
  datatype Items = NoItems | Item(head: Value, tail: Items)
  datatype Entries = NoEntries | Entry(key: seq<byte>, value: Value, more: Entries)

  const CHAR_I: byte := 105
  const CHAR_L: byte := 108
  const CHAR_D: byte := 100
  const CHAR_E: byte := 101
  const COLON: byte := 58

  function EncInt(n: nat): seq<byte> {
    [CHAR_I] + Decimal(n) + [CHAR_E]
  }

  function EncStr(b: seq<byte>): seq<byte> {
    Decimal(|b|) + [COLON] + b
  }

  function Enc(v: Value): seq<byte> {
    match v
    case Int(n) => EncInt(n)
    case Str(b) => EncStr(b)
    case List(items) => [CHAR_L] + EncItems(items) + [CHAR_E]
    case Dict(entries) => [CHAR_D] + EncEntries(entries) + [CHAR_E]
  }

  function EncItems(items: Items): seq<byte> {
    match items
    case NoItems => []
    case Item(head, tail) => Enc(head) + EncItems(tail)
  }

  function EncEntries(entries: Entries): seq<byte> {
    match entries
    case NoEntries => []
    case Entry(key, value, more) => EncStr(key) + Enc(value) + EncEntries(more)
  }

  // ---------------------------------------------------------------- the decoder

  datatype Read<T> = Got(value: T, rest: seq<byte>) | Bad

  function LeadingDigits(b: seq<byte>): (n: nat)
    ensures n <= |b| && (forall i :: 0 <= i < n ==> IsDigit(b[i])) && (n < |b| ==> !IsDigit(b[n]))
  {
    if b == [] || !IsDigit(b[0]) then 0 else 1 + LeadingDigits(b[1..])
  }

  /** An unsigned number without leading zeros. */
  function ReadUint(b: seq<byte>): (r: Read<nat>)
    ensures r.Got? ==> |r.rest| < |b|
  {
    var n := LeadingDigits(b);
    if n == 0 || Decimal(DigitsValue(b[..n])) != b[..n] then Bad else Got(DigitsValue(b[..n]), b[n..])
  }

  function ReadStr(b: seq<byte>): (r: Read<seq<byte>>)
    ensures r.Got? ==> |r.rest| < |b|
  {
    var r := ReadUint(b);
    if r.Bad? || r.rest == [] || r.rest[0] != COLON || |r.rest| < 1 + r.value then Bad
    else Got(r.rest[1..1 + r.value], r.rest[1 + r.value..])
  }

  /** Reads one value and leaves what follows it. */
  function Decode(b: seq<byte>): (r: Read<Value>)
    ensures r.Got? ==> |r.rest| < |b|
    decreases |b|, 0
  {
    if b == [] then Bad
    else if b[0] == CHAR_I then
      var r := ReadUint(b[1..]);
      if r.Bad? || r.rest == [] || r.rest[0] != CHAR_E then Bad else Got(Int(r.value), r.rest[1..])
    else if b[0] == CHAR_L then
      var r := DecodeItems(b[1..]);
      if r.Bad? then Bad else Got(List(r.value), r.rest)
    else if b[0] == CHAR_D then
      var r := DecodeEntries(b[1..]);
      if r.Bad? then Bad else Got(Dict(r.value), r.rest)
    else
      var r := ReadStr(b);
      if r.Bad? then Bad else Got(Str(r.value), r.rest)
  }

  function DecodeItems(b: seq<byte>): (r: Read<Items>)
    ensures r.Got? ==> |r.rest| < |b|
    decreases |b|, 1
  {
    if b == [] then Bad
    else if b[0] == CHAR_E then Got(NoItems, b[1..])
    else
      var r := Decode(b);
      if r.Bad? then Bad else
        var more := DecodeItems(r.rest);
        if more.Bad? then Bad else Got(Item(r.value, more.value), more.rest)
  }

  function DecodeEntries(b: seq<byte>): (r: Read<Entries>)
    ensures r.Got? ==> |r.rest| < |b|
    decreases |b|, 1
  {
    if b == [] then Bad
    else if b[0] == CHAR_E then Got(NoEntries, b[1..])
    else
      var key := ReadStr(b);
      if key.Bad? then Bad else
        var r := Decode(key.rest);
        if r.Bad? then Bad else
          var more := DecodeEntries(r.rest);
          if more.Bad? then Bad else Got(Entry(key.value, r.value, more.value), more.rest)
  }

  // ---------------------------------------------------------------- round trips

  lemma {:induction false} DigitsStop(digits: seq<byte>, rest: seq<byte>)
    requires forall i :: 0 <= i < |digits| ==> IsDigit(digits[i])
    requires rest == [] || !IsDigit(rest[0])
    ensures LeadingDigits(digits + rest) == |digits|
    decreases |digits|
  {
    if digits == [] {
      assert digits + rest == rest;
    } else {
      assert (digits + rest)[1..] == digits[1..] + rest;
      DigitsStop(digits[1..], rest);
    }
  }

  lemma UintReads(n: nat, rest: seq<byte>)
    requires rest == [] || !IsDigit(rest[0])
    ensures ReadUint(Decimal(n) + rest) == Got(n, rest)
  {
    hide Decimal, DigitsValue;
    DigitsStop(Decimal(n), rest);
    DecimalValue(n);
    assert (Decimal(n) + rest)[..|Decimal(n)|] == Decimal(n);
  }

  lemma StrReads(b: seq<byte>, rest: seq<byte>)
    ensures ReadStr(EncStr(b) + rest) == Got(b, rest)
  {
    hide ReadUint;
    var after := [COLON] + b + rest;
    assert EncStr(b) + rest == Decimal(|b|) + after;
    UintReads(|b|, after);
    assert after[1..1 + |b|] == b && after[1 + |b|..] == rest;
  }

  lemma IntReads(n: nat, rest: seq<byte>)
    ensures Decode(EncInt(n) + rest) == Got(Int(n), rest)
  {
    hide ReadUint;
    var after := [CHAR_E] + rest;
    assert (EncInt(n) + rest)[1..] == Decimal(n) + after;
    UintReads(n, after);
    assert after[1..] == rest;
  }

  /** A value's first byte tells its kind and is never the end mark. */
  lemma FirstByte(v: Value, b: seq<byte>)
    ensures Enc(v) != [] && Enc(v)[0] != CHAR_E
    ensures IsDigit(EncStr(b)[0])
  {
  }

  /** The decoder recovers every value and leaves what follows it untouched. */
  lemma {:induction false} DecodeEnc(v: Value, rest: seq<byte>)
    ensures Decode(Enc(v) + rest) == Got(v, rest)
    decreases v
  {
    hide ReadStr, ReadUint, EncStr, EncInt, Decode, DecodeItems, DecodeEntries, EncItems, EncEntries;
    match v
    case Int(n) => IntReads(n, rest);
    case Str(s) => StrDecodes(s, rest);
    case List(items) =>
      DecodeEncItems(items, rest);
      OpenDecodes(CHAR_L, EncItems(items), rest);
    case Dict(entries) =>
      DecodeEncEntries(entries, rest);
      OpenDecodes(CHAR_D, EncEntries(entries), rest);
  }

  lemma StrDecodes(s: seq<byte>, rest: seq<byte>)
    ensures Decode(EncStr(s) + rest) == Got(Str(s), rest)
  {
    hide ReadStr, ReadUint;
    StrReads(s, rest);
    FirstByte(Str(s), s);
  }

  /** An opening mark is followed by what stands inside. */
  lemma OpenDecodes(mark: byte, inside: seq<byte>, rest: seq<byte>)
    requires mark == CHAR_L || mark == CHAR_D
    ensures var b, r := [mark] + inside + [CHAR_E] + rest, inside + ([CHAR_E] + rest);
            && (mark == CHAR_L ==> Decode(b) == match DecodeItems(r) case Bad => Bad case Got(items, more) => Got(List(items), more))
            && (mark == CHAR_D ==> Decode(b) == match DecodeEntries(r) case Bad => Bad case Got(entries, more) => Got(Dict(entries), more))
  {
    hide DecodeItems, DecodeEntries, ReadStr, ReadUint;
    assert ([mark] + inside + [CHAR_E] + rest)[1..] == inside + ([CHAR_E] + rest);
  }

  lemma {:induction false} DecodeEncItems(items: Items, rest: seq<byte>)
    ensures DecodeItems(EncItems(items) + ([CHAR_E] + rest)) == Got(items, rest)
    decreases items
  {
    hide Enc, Decode;
    var after := [CHAR_E] + rest;
    match items
    case NoItems =>
      assert EncItems(items) + after == after && after[1..] == rest;
    case Item(head, tail) =>
      var b := EncItems(items) + after;
      assert b == Enc(head) + (EncItems(tail) + after);
      FirstByte(head, []);
      DecodeEnc(head, EncItems(tail) + after);
      DecodeEncItems(tail, rest);
  }

  lemma {:induction false} DecodeEncEntries(entries: Entries, rest: seq<byte>)
    ensures DecodeEntries(EncEntries(entries) + ([CHAR_E] + rest)) == Got(entries, rest)
    decreases entries
  {
    hide Enc, Decode, ReadStr, EncStr;
    var after := [CHAR_E] + rest;
    match entries
    case NoEntries =>
      assert EncEntries(entries) + after == after && after[1..] == rest;
    case Entry(key, value, more) =>
      var tail := EncEntries(more) + after;
      var b := EncEntries(entries) + after;
      assert b == EncStr(key) + (Enc(value) + tail);
      FirstByte(value, key);
      StrReads(key, Enc(value) + tail);
      DecodeEnc(value, tail);
      DecodeEncEntries(more, rest);
  }

  lemma UintRead(b: seq<byte>)
    requires ReadUint(b).Got?
    ensures b == Decimal(ReadUint(b).value) + ReadUint(b).rest
  {
  }

  lemma StrRead(b: seq<byte>)
    requires ReadStr(b).Got?
    ensures b == EncStr(ReadStr(b).value) + ReadStr(b).rest
  {
    hide ReadUint;
    UintRead(b);
    var r := ReadUint(b);
    assert r.rest == [COLON] + ReadStr(b).value + ReadStr(b).rest;
  }

  /** The decoder accepts nothing else: what it reads is the encoding of what it returns. */
  lemma {:induction false} EncDecode(b: seq<byte>)
    requires Decode(b).Got?
    ensures b == Enc(Decode(b).value) + Decode(b).rest
    decreases |b|, 0
  {
    hide ReadStr, ReadUint, EncStr, DecodeItems, DecodeEntries, EncItems, EncEntries, Decimal;
    var r := Decode(b);
    if b[0] == CHAR_I {
      UintRead(b[1..]);
      var n := ReadUint(b[1..]);
      assert n.rest == [CHAR_E] + r.rest;
      assert b == [CHAR_I] + b[1..];
    } else if b[0] == CHAR_L {
      EncDecodeItems(b[1..]);
      assert b == [CHAR_L] + b[1..];
    } else if b[0] == CHAR_D {
      EncDecodeEntries(b[1..]);
      assert b == [CHAR_D] + b[1..];
    } else {
      StrRead(b);
    }
  }

  lemma {:induction false} EncDecodeItems(b: seq<byte>)
    requires DecodeItems(b).Got?
    ensures b == EncItems(DecodeItems(b).value) + [CHAR_E] + DecodeItems(b).rest
    decreases |b|, 1
  {
    hide Enc, Decode;
    if b[0] == CHAR_E {
      assert b == [CHAR_E] + b[1..];
    } else {
      EncDecode(b);
      EncDecodeItems(Decode(b).rest);
    }
  }

  lemma {:induction false} EncDecodeEntries(b: seq<byte>)
    requires DecodeEntries(b).Got?
    ensures b == EncEntries(DecodeEntries(b).value) + [CHAR_E] + DecodeEntries(b).rest
    decreases |b|, 1
  {
    hide Enc, Decode, ReadStr, EncStr;
    if b[0] == CHAR_E {
      assert b == [CHAR_E] + b[1..];
    } else {
      StrRead(b);
      EncDecode(ReadStr(b).rest);
      EncDecodeEntries(Decode(ReadStr(b).rest).rest);
    }
  }

  /** Decoding is the exact inverse of encoding: no value has two encodings, none is a prefix of
      another, and everything else is refused. */
  lemma {:induction false} DecodeIff(b: seq<byte>, v: Value, rest: seq<byte>)
    ensures Decode(b) == Got(v, rest) <==> b == Enc(v) + rest
  {
    hide Decode, Enc;
    DecodeEnc(v, rest);
    if Decode(b).Got? {
      EncDecode(b);
    }
  }

  /** The four forms as BEP 3 writes them. */
  lemma Forms(n: nat, b: seq<byte>, items: Items, entries: Entries)
    ensures Enc(Int(n)) == Ascii("i") + Decimal(n) + Ascii("e")
    ensures Enc(Str(b)) == Decimal(|b|) + Ascii(":") + b
    ensures Enc(List(items)) == Ascii("l") + EncItems(items) + Ascii("e")
    ensures Enc(Dict(entries)) == Ascii("d") + EncEntries(entries) + Ascii("e")
  {
    hide Decimal, EncItems, EncEntries;
    assert Ascii("i") == [105] && Ascii("e") == [101] && Ascii(":") == [58] && Ascii("l") == [108] && Ascii("d") == [100];
  }

  /** What stands inside a list and a dictionary: nothing but the encodings, one after the other, a
      dictionary's keys as byte strings. */
  lemma Insides(head: Value, tail: Items, key: seq<byte>, value: Value, more: Entries)
    ensures EncItems(NoItems) == [] && EncItems(Item(head, tail)) == Enc(head) + EncItems(tail)
    ensures EncEntries(NoEntries) == [] && EncEntries(Entry(key, value, more)) == Enc(Str(key)) + Enc(value) + EncEntries(more)
  {
  }

  /** Numbers are written in base ten, most significant digit first. */
  lemma {:induction false} DecimalText(v: nat)
    ensures v < 10 ==> Decimal(v) == [48 + v]
    ensures v >= 10 ==> Decimal(v) == Decimal(v / 10) + [48 + v % 10]
    ensures Decimal(1800) == Ascii("1800") && Decimal(0) == Ascii("0")
  {
    assert Decimal(18) == Decimal(1) + [48 + 8];
    assert Decimal(180) == Decimal(18) + [48];
  }
}
