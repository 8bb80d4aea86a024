/** Machine integers, big-endian fields, decimal text and the growable byte buffer that every
    codec of the tracker writes into. */
module Bytes {

  type byte = x: int | 0 <= x < 0x100
  type u16 = x: int | 0 <= x < 0x1_0000
  type u32 = x: int | 0 <= x < 0x1_0000_0000
  type u64 = x: int | 0 <= x < 0x1_0000_0000_0000_0000
  type i32 = x: int | -0x8000_0000 <= x < 0x8000_0000

  const U16_MAX: u16 := 0xFFFF
  const U32_MAX: u32 := 0xFFFF_FFFF
  const U64_MAX: u64 := 0xFFFF_FFFF_FFFF_FFFF

  datatype Option<+T> = None | Some(value: T)

  function Min(a: int, b: int): int {
    if a <= b then a else b
  }

  /** Rust's `saturating_sub` on an unsigned type. */
  function SatSub(a: nat, b: nat): nat {
    if a <= b then 0 else a - b
  }

  /** Rust's `saturating_add` on `u32`. */
  function SatAdd(a: u32, b: u32): u32 {
    if a + b <= U32_MAX then a + b else U32_MAX
  }

  /** Rust's `saturating_mul` on `u32`. */
  function SatMul(a: u32, b: u32): u32 {
    if 0 <= a * b <= U32_MAX then a * b else U32_MAX
  }

  /** The cast `as u32`, which truncates. */
  function ToU32(n: nat): u32 {
    n % 0x1_0000_0000
  }

  // ---------------------------------------------------------------- big-endian fields

  function Pow256(n: nat): nat {
    if n == 0 then 1 else 256 * Pow256(n - 1)
  }

  lemma FieldSizes()
    ensures Pow256(2) == 0x1_0000
    ensures Pow256(4) == 0x1_0000_0000
    ensures Pow256(8) == 0x1_0000_0000_0000_0000
  {
    assert Pow256(1) == 256 * Pow256(0);
    assert Pow256(3) == 256 * Pow256(2);
    assert Pow256(5) == 256 * Pow256(4);
    assert Pow256(6) == 256 * Pow256(5);
    assert Pow256(7) == 256 * Pow256(6);
  }

  /** The value of a big-endian field. */
  function FromBe(b: seq<byte>): (v: nat)
    ensures v < Pow256(|b|)
  {
    if b == [] then 0 else FromBe(b[..|b| - 1]) * 256 + b[|b| - 1]
  }

  /** The low `n` bytes of `v`, most significant first. */
  function ToBe(n: nat, v: nat): (b: seq<byte>)
    ensures |b| == n
  {
    if n == 0 then [] else ToBe(n - 1, v / 256) + [v % 256]
  }

  lemma {:induction false} FromToBe(n: nat, v: nat)
    requires v < Pow256(n)
    ensures FromBe(ToBe(n, v)) == v
  {
    if n > 0 {
      FromToBe(n - 1, v / 256);
      var b := ToBe(n, v);
      assert b[..|b| - 1] == ToBe(n - 1, v / 256);
    }
  }

  lemma Digit256(q: nat, r: byte)
    ensures (q * 256 + r) / 256 == q && (q * 256 + r) % 256 == r
  {
  }

  lemma {:induction false} ToFromBe(b: seq<byte>)
    ensures ToBe(|b|, FromBe(b)) == b
  {
    if b != [] {
      var front, last := b[..|b| - 1], b[|b| - 1];
      ToFromBe(front);
      assert b == front + [last];
      Digit256(FromBe(front), last);
    }
  }

  function Be16(b: seq<byte>): u16
    requires |b| == 2
  {
    FieldSizes(); FromBe(b)
  }

  function Be32(b: seq<byte>): u32
    requires |b| == 4
  {
    FieldSizes(); FromBe(b)
  }

  function Be64(b: seq<byte>): u64
    requires |b| == 8
  {
    FieldSizes(); FromBe(b)
  }

  lemma BeRoundTrips(a: u16, b: u32, c: u64)
    ensures Be16(ToBe(2, a)) == a && Be32(ToBe(4, b)) == b && Be64(ToBe(8, c)) == c
  {
    FieldSizes();
    FromToBe(2, a);
    FromToBe(4, b);
    FromToBe(8, c);
  }

  /** The first byte of a field is its most significant one. */
  lemma {:induction false} MostSignificantFirst(b: seq<byte>)
    requires b != []
    ensures FromBe(b) == b[0] * Pow256(|b| - 1) + FromBe(b[1..])
  {
    if |b| == 1 {
      assert b[..0] == [] && b[1..] == [];
    } else {
      var front, last := b[..|b| - 1], b[|b| - 1];
      MostSignificantFirst(front);
      assert b[1..][..|b| - 2] == front[1..] && b[1..][|b| - 2] == last;
      assert front[0] == b[0];
      NextPower(b[0], |b| - 1);
    }
  }

  /** Network byte order, written out. */
  lemma {:induction false} BigEndian(b: seq<byte>)
    requires |b| == 4
    ensures Be32(b) == b[0] as int * 0x100_0000 + b[1] as int * 0x1_0000 + b[2] as int * 0x100 + b[3] as int
    ensures Be16(b[2..4]) == b[2] as int * 0x100 + b[3] as int
  {
    hide FromBe, Pow256;
    Pow256Values();
    MostSignificantFirst(b);
    MostSignificantFirst(b[1..]);
    MostSignificantFirst(b[2..4]);
    MostSignificantFirst(b[3..]);
    assert b[1..][1..] == b[2..4] && b[2..4][1..] == b[3..] && b[3..][1..] == [];
    NoField();
  }

  lemma NoField()
    ensures FromBe([]) == 0
  {
  }

  lemma Pow256Values()
    ensures Pow256(0) == 1 && Pow256(1) == 0x100 && Pow256(2) == 0x1_0000 && Pow256(3) == 0x100_0000
    ensures Pow256(4) == 0x1_0000_0000
  {
    FieldSizes();
  }

  /** A 64-bit field is two 32-bit ones. */
  lemma {:induction false} BigEndianHalves(b: seq<byte>)
    requires |b| == 8
    ensures Be64(b) == Be32(b[..4]) * 0x1_0000_0000 + Be32(b[4..])
  {
    FromBeJoined(b[..4], b[4..]);
    assert b == b[..4] + b[4..];
    FieldSizes();
  }

  lemma NextPower(x: nat, n: nat)
    requires n > 0
    ensures x * Pow256(n) == x * Pow256(n - 1) * 256
  {
    var p := Pow256(n - 1);
    assert x * (256 * p) == x * p * 256;
  }

  lemma {:induction false} FromBeJoined(a: seq<byte>, b: seq<byte>)
    ensures FromBe(a + b) == FromBe(a) * Pow256(|b|) + FromBe(b)
    decreases |b|
  {
    if b == [] {
      assert a + b == a;
    } else {
      var front, last := b[..|b| - 1], b[|b| - 1];
      FromBeJoined(a, front);
      assert (a + b)[..|a + b| - 1] == a + front;
      LastByte(a + b);
      LastByte(b);
      NextPower(FromBe(a), |b|);
      hide FromBe, Pow256;
      Carry(FromBe(a) * Pow256(|front|), FromBe(front), last);
    }
  }

  lemma LastByte(b: seq<byte>)
    requires b != []
    ensures FromBe(b) == FromBe(b[..|b| - 1]) * 256 + b[|b| - 1]
  {
  }

  lemma Carry(x: int, y: int, z: int)
    ensures (x + y) * 256 + z == x * 256 + (y * 256 + z)
  {
  }

  // ---------------------------------------------------------------- decimal text

  const DIGIT0: byte := 48

  predicate IsDigit(c: byte) {
    DIGIT0 <= c <= DIGIT0 + 9
  }

  /** The shortest decimal text of `v`, as the integer formatter prints it. */
  function Decimal(v: nat): (s: seq<byte>)
    ensures |s| >= 1 && AllDigits(s)
  {
    if v < 10 then [DIGIT0 + v] else Decimal(v / 10) + [DIGIT0 + v % 10]
  }

  /** The value of a run of digits. */
  function DigitsValue(s: seq<byte>): nat
    requires AllDigits(s)
  {
    if s == [] then 0 else
      DigitsValue(s[..|s| - 1]) * 10 + (s[|s| - 1] - DIGIT0)
  }

  lemma {:induction false} DecimalValue(v: nat)
    ensures DigitsValue(Decimal(v)) == v
  {
    var s := Decimal(v);
    if v < 10 {
      assert s[..0] == [];
    } else {
      DecimalValue(v / 10);
      assert s[..|s| - 1] == Decimal(v / 10);
    }
  }

  predicate AllDigits(s: seq<byte>) {
    forall i :: 0 <= i < |s| ==> IsDigit(s[i])
  }

  /** Rust's unsigned `str::parse`: an optional `+`, at least one digit, nothing else, and a value
      that fits the type. */
  function ParseUnsigned(s: seq<byte>, max: nat): (r: Option<nat>)
    ensures r.Some? ==> r.value <= max
  {
    var digits := if |s| > 0 && s[0] == 43 then s[1..] else s;
    if digits == [] || !AllDigits(digits) then None
    else if DigitsValue(digits) <= max then Some(DigitsValue(digits))
    else None
  }

  /** What is parsed as a number: at least one digit and nothing else, behind a plus or not, of a value
      that fits. */
  lemma {:induction false} ParseUnsignedIff(s: seq<byte>, max: nat, v: nat)
    ensures ParseUnsigned(s, max) == Some(v)
            <==> exists digits: seq<byte> ::
                   && (s == digits || s == [43] + digits) && digits != []
                   && (forall i :: 0 <= i < |digits| ==> 48 <= digits[i] <= 57)
                   && DigitsValue(digits) == v <= max
  {
    hide DigitsValue;
    if ParseUnsigned(s, max) == Some(v) {
      var digits := if |s| > 0 && s[0] == 43 then s[1..] else s;
      assert AllDigits(digits) && (s == digits || s == [43] + digits);
    }
    forall digits: seq<byte> | digits != [] && (forall i :: 0 <= i < |digits| ==> 48 <= digits[i] <= 57)
      ensures AllDigits(digits) && ParseUnsigned(digits, max) == ParseUnsigned([43] + digits, max)
      ensures ParseUnsigned(digits, max) == if DigitsValue(digits) <= max then Some(DigitsValue(digits)) else None
    {
      PlainDigits(digits, max);
    }
  }

  lemma PlainDigits(digits: seq<byte>, max: nat)
    requires digits != [] && forall i :: 0 <= i < |digits| ==> 48 <= digits[i] <= 57
    ensures AllDigits(digits) && ParseUnsigned(digits, max) == ParseUnsigned([43] + digits, max)
    ensures ParseUnsigned(digits, max) == if DigitsValue(digits) <= max then Some(DigitsValue(digits)) else None
  {
    hide DigitsValue;
    assert digits[0] != 43;
    assert ([43] + digits)[1..] == digits;
  }

  /** One more digit behind a number. */
  lemma DigitBehind(s: seq<byte>, c: byte)
    requires AllDigits(s) && IsDigit(c)
    ensures AllDigits(s + [c]) && DigitsValue(s + [c]) == DigitsValue(s) * 10 + (c - 48) && DigitsValue([]) == 0
  {
    assert (s + [c])[..|s|] == s;
  }

  lemma ParseDecimal(v: nat, max: nat)
    ensures ParseUnsigned(Decimal(v), max) == if v <= max then Some(v) else None
  {
    DecimalValue(v);
  }

  // ---------------------------------------------------------------- text

  function CharByte(c: char): byte {
    if c as int < 0x80 then c as int else 63
  }

  /** An ASCII literal as bytes. */
  function Ascii(s: string): (b: seq<byte>)
    ensures |b| == |s| && forall i :: 0 <= i < |s| ==> b[i] == CharByte(s[i])
  {
    seq(|s|, i requires 0 <= i < |s| => CharByte(s[i]))
  }

  /** The order of raw byte strings: `a` before `b`, and not equal. */
  ghost predicate Before(a: seq<byte>, b: seq<byte>) {
    exists n :: FirstDifference(a, b, n)
  }

  predicate FirstDifference(a: seq<byte>, b: seq<byte>, n: int) {
    0 <= n <= |a| && n < |b| && a[..n] == b[..n] && (n < |a| ==> a[n] < b[n])
  }

  lemma BeforeIsStrict(a: seq<byte>)
    ensures !Before(a, a)
  {
    forall n ensures !FirstDifference(a, a, n) {
    }
  }

  // ---------------------------------------------------------------- buffers

  /** A caller-owned growable byte buffer (`Vec<u8>`). */
  class ByteBuf {
    var data: seq<byte>

    constructor ()
      ensures data == []
    {
      data := [];
    }

    method Push(b: byte)
      modifies this
      ensures data == old(data) + [b]
    {
      data := data + [b];
    }

    method Extend(bs: seq<byte>)
      modifies this
      ensures data == old(data) + bs
    {
      data := data + bs;
    }

    method Clear()
      modifies this
      ensures data == []
    {
      data := [];
    }

    /** `resize(n, 0)` */
    method Resize(n: nat)
      modifies this
      ensures |data| == n
      ensures n <= |old(data)| ==> data == old(data)[..n]
      ensures |old(data)| <= n ==> data == old(data) + seq(n - |old(data)|, _ => 0)
    {
      data := if n <= |data| then data[..n] else data + seq(n - |data|, _ => 0);
    }

    /** `out[at..at + bs.len()].copy_from_slice(bs)` */
    method CopyAt(at: nat, bs: seq<byte>)
      requires at + |bs| <= |data|
      modifies this
      ensures data == old(data)[..at] + bs + old(data)[at + |bs|..]
      ensures |data| == |old(data)|
    {
      data := data[..at] + bs + data[at + |bs|..];
    }
  }
}
