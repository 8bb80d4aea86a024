/** Queries of the HTTP front end: percent-encoding (section 2.1 of RFC 3986), splitting at separators
    and `k=v&k=v` pairs, each against what a client prints. */
module HttpQuery {
  import opened Bytes

  const PERCENT: byte := 37
  const AMPERSAND: byte := 38
  const PLUS: byte := 43
  const EQUALS: byte := 61
  const QUESTION: byte := 63
  const SPACE: byte := 32

  // ---------------------------------------------------------------- percent-encoding

  type nibble = x: int | 0 <= x < 16

  function HexVal(c: byte): Option<nibble> {
    if 48 <= c <= 57 then Some(c - 48)
    else if 97 <= c <= 102 then Some(c - 97 + 10)
    else if 65 <= c <= 70 then Some(c - 65 + 10)
    else None
  }

  /** `(h << 4) | l` */
  function HexByte(h: nibble, l: nibble): byte {
    (h as int) * 16 + l as int
  }

  /** What a text decodes to, if its escapes are well-formed. */
  function Decoded(input: seq<byte>): Option<seq<byte>>
    decreases |input|
  {
    if input == [] then Some([])
    else if input[0] == PERCENT then
      if |input| < 3 || HexVal(input[1]).None? || HexVal(input[2]).None? then None
      else Behind([HexByte(HexVal(input[1]).value, HexVal(input[2]).value)], Decoded(input[3..]))
    else Behind([if input[0] == PLUS then SPACE else input[0]], Decoded(input[1..]))
  }

  function Behind(front: seq<byte>, rest: Option<seq<byte>>): Option<seq<byte>> {
    if rest.Some? then Some(front + rest.value) else None
  }

  /** What a text decodes to before its first malformed escape. */
  function Readable(input: seq<byte>): seq<byte>
    decreases |input|
  {
    if input == [] then []
    else if input[0] == PERCENT then
      if |input| < 3 || HexVal(input[1]).None? || HexVal(input[2]).None? then []
      else [HexByte(HexVal(input[1]).value, HexVal(input[2]).value)] + Readable(input[3..])
    else [if input[0] == PLUS then SPACE else input[0]] + Readable(input[1..])
  }

  lemma {:induction false} DecodedIsReadable(input: seq<byte>)
    ensures Decoded(input).Some? ==> Decoded(input).value == Readable(input)
    decreases |input|
  {
    hide HexVal, HexByte;
    if input != [] && input[0] == PERCENT && |input| >= 3 {
      DecodedIsReadable(input[3..]);
    } else if input != [] {
      DecodedIsReadable(input[1..]);
    }
  }

  /** Percent-decodes `input` onto the end of `out`, up to a malformed escape, which makes it false. */
  method PercentDecode(input: seq<byte>, out: ByteBuf) returns (ok: bool)
    modifies out
    ensures ok == Decoded(input).Some?
    ensures ok ==> out.data == old(out.data) + Decoded(input).value
    ensures out.data == old(out.data) + Readable(input)
  {
    hide HexVal, HexByte, Readable;
    DecodedIsReadable(input);
    ghost var start := out.data;
    ghost var done: seq<byte> := [];
    var i := 0;
    StepsLeft(input, done);
    while i < |input|
      invariant i <= |input|
      invariant out.data == start + done
      invariant Decoded(input) == Behind(done, Decoded(input[i..]))
      invariant Readable(input) == done + Readable(input[i..])
    {
      DecodedStep(input, i, done);
      ReadableStep(input, i, done);
      if input[i] == PERCENT {
        if i + 2 >= |input| {
          return false;
        }
        var h, l := HexVal(input[i + 1]), HexVal(input[i + 2]);
        if h.None? || l.None? {
          return false;
        }
        out.Push(HexByte(h.value, l.value));
        done := done + [HexByte(h.value, l.value)];
        i := i + 3;
      } else if input[i] == PLUS {
        out.Push(SPACE);
        done := done + [SPACE];
        i := i + 1;
      } else {
        out.Push(input[i]);
        done := done + [input[i]];
        i := i + 1;
      }
    }
    StepsLeft(input, done);
    ok := true;
  }

  lemma StepsLeft(input: seq<byte>, done: seq<byte>)
    ensures input[0..] == input && input[|input|..] == []
    ensures Behind([], Decoded(input)) == Decoded(input) && [] + Readable(input) == Readable(input)
    ensures Decoded([]) == Some([]) && Readable([]) == [] && done + [] == done
  {
    BehindBehind([], [], Decoded(input));
  }

  /** One turn of the decoder, seen from the whole text. */
  lemma DecodedStep(input: seq<byte>, i: nat, done: seq<byte>)
    requires i < |input| && Decoded(input) == Behind(done, Decoded(input[i..]))
    ensures input[i] != PERCENT ==>
              Decoded(input) == Behind(done + [if input[i] == PLUS then SPACE else input[i]], Decoded(input[i + 1..]))
    ensures input[i] == PERCENT ==>
              if i + 2 >= |input| || HexVal(input[i + 1]).None? || HexVal(input[i + 2]).None? then Decoded(input) == None
              else Decoded(input) == Behind(done + [HexByte(HexVal(input[i + 1]).value, HexVal(input[i + 2]).value)],
                                            Decoded(input[i + 3..]))
  {
    hide HexVal, Behind, HexByte;
    var rest := input[i..];
    DecodedTurn(rest);
    assert rest[1..] == input[i + 1..];
    if input[i] != PERCENT {
      BehindBehind(done, [if input[i] == PLUS then SPACE else input[i]], Decoded(rest[1..]));
    } else if i + 2 < |input| && HexVal(input[i + 1]).Some? && HexVal(input[i + 2]).Some? {
      assert rest[3..] == input[i + 3..];
      BehindBehind(done, [HexByte(HexVal(rest[1]).value, HexVal(rest[2]).value)], Decoded(rest[3..]));
    } else {
      BehindBehind(done, [], None);
    }
  }

  lemma {:induction false} ReadableStep(input: seq<byte>, i: nat, done: seq<byte>)
    requires i < |input| && Readable(input) == done + Readable(input[i..])
    ensures input[i] != PERCENT ==>
              Readable(input) == done + [if input[i] == PLUS then SPACE else input[i]] + Readable(input[i + 1..])
    ensures input[i] == PERCENT ==>
              if i + 2 >= |input| || HexVal(input[i + 1]).None? || HexVal(input[i + 2]).None? then Readable(input) == done
              else Readable(input) == done + [HexByte(HexVal(input[i + 1]).value, HexVal(input[i + 2]).value)] + Readable(input[i + 3..])
  {
    hide HexVal, HexByte;
    var rest := input[i..];
    assert rest[1..] == input[i + 1..];
    if i + 2 < |input| {
      assert rest[3..] == input[i + 3..];
    }
    assert done + [] == done;
  }

  lemma DecodedTurn(rest: seq<byte>)
    requires rest != []
    ensures Decoded(rest) ==
            if rest[0] != PERCENT then Behind([if rest[0] == PLUS then SPACE else rest[0]], Decoded(rest[1..]))
            else if |rest| < 3 || HexVal(rest[1]).None? || HexVal(rest[2]).None? then None
            else Behind([HexByte(HexVal(rest[1]).value, HexVal(rest[2]).value)], Decoded(rest[3..]))
  {
  }

  lemma BehindBehind(a: seq<byte>, b: seq<byte>, rest: Option<seq<byte>>)
    ensures Behind(a, Behind(b, rest)) == Behind(a + b, rest)
    ensures Behind(a, None) == None && Behind([], rest) == rest
  {
    if rest.Some? {
      assert a + (b + rest.value) == a + b + rest.value;
      assert [] + rest.value == rest.value;
    }
  }

  /** How a client may spell one byte: as it stands, a space as a plus, or any byte as an escape in
      hexadecimal digits of either case. */
  datatype Token = Raw(c: byte) | Plus | Escape(high: byte, low: byte)

  predicate TokenOk(t: Token) {
    match t
    case Raw(c) => c != PERCENT && c != PLUS
    case Plus => true
    case Escape(high, low) => HexVal(high).Some? && HexVal(low).Some?
  }

  function TokenText(t: Token): seq<byte> {
    match t
    case Raw(c) => [c]
    case Plus => [PLUS]
    case Escape(high, low) => [PERCENT, high, low]
  }

  function TokenByte(t: Token): byte
    requires TokenOk(t)
  {
    match t
    case Raw(c) => c
    case Plus => SPACE
    case Escape(high, low) => HexByte(HexVal(high).value, HexVal(low).value)
  }

  predicate AllOk(ts: seq<Token>) {
    forall i :: 0 <= i < |ts| ==> TokenOk(ts[i])
  }

  function Text(ts: seq<Token>): seq<byte> {
    if ts == [] then [] else TokenText(ts[0]) + Text(ts[1..])
  }

  function Plain(ts: seq<Token>): (b: seq<byte>)
    requires AllOk(ts)
    ensures |b| == |ts|
  {
    if ts == [] then [] else [TokenByte(ts[0])] + Plain(ts[1..])
  }

  /** Decoding inverts every spelling ... */
  lemma {:induction false} SpellingDecodes(ts: seq<Token>)
    requires AllOk(ts)
    ensures Decoded(Text(ts)) == Some(Plain(ts))
    decreases |ts|
  {
    if ts != [] {
      SpellingDecodes(ts[1..]);
      var text := Text(ts);
      assert text[|TokenText(ts[0])|..] == Text(ts[1..]);
    }
  }

  function Tokens(text: seq<byte>): seq<Token>
    requires Decoded(text).Some?
    decreases |text|
  {
    if text == [] then []
    else if text[0] == PERCENT then [Escape(text[1], text[2])] + Tokens(text[3..])
    else [if text[0] == PLUS then Plus else Raw(text[0])] + Tokens(text[1..])
  }

  /** ... and accepts nothing but spellings. */
  lemma {:induction false} DecodedIsSpelling(text: seq<byte>)
    requires Decoded(text).Some?
    ensures AllOk(Tokens(text)) && Text(Tokens(text)) == text && Plain(Tokens(text)) == Decoded(text).value
    decreases |text|
  {
    hide HexVal, HexByte;
    if text != [] {
      var n := if text[0] == PERCENT then 3 else 1;
      var rest := text[n..];
      DecodedIsSpelling(rest);
      var t := Tokens(text)[0];
      assert Tokens(text) == [t] + Tokens(rest);
      assert TokenText(t) == text[..n];
      assert text == text[..n] + rest;
      TextCons(t, Tokens(rest));
    }
  }

  lemma TextCons(t: Token, ts: seq<Token>)
    ensures Text([t] + ts) == TokenText(t) + Text(ts)
    ensures TokenOk(t) && AllOk(ts) ==> AllOk([t] + ts) && Plain([t] + ts) == [TokenByte(t)] + Plain(ts)
  {
    assert ([t] + ts)[1..] == ts;
  }

  /** The two hexadecimal digits of a byte, in the case asked for. */
  function HexDigit(v: nibble, upper: bool): byte {
    if v < 10 then 48 + v else (if upper then 65 else 97) + v - 10
  }

  /** The spelling that escapes every byte, so that any string of bytes has one. */
  function EscapeAll(b: seq<byte>, upper: bool): seq<Token> {
    if b == [] then [] else [Escape(HexDigit(b[0] / 16, upper), HexDigit(b[0] % 16, upper))] + EscapeAll(b[1..], upper)
  }

  lemma {:induction false} EscapeAllSpells(b: seq<byte>, upper: bool)
    ensures AllOk(EscapeAll(b, upper)) && Plain(EscapeAll(b, upper)) == b
    decreases |b|
  {
    if b != [] {
      EscapeAllSpells(b[1..], upper);
      assert b == [b[0]] + b[1..];
    }
  }

  // ---------------------------------------------------------------- separators

  /** Where `c` first stands in `s`, or the end of `s`. */
  function IndexOf(s: seq<byte>, c: byte): (i: nat)
    ensures i <= |s| && (i < |s| ==> s[i] == c)
    ensures forall k :: 0 <= k < i ==> s[k] != c
  {
    if s == [] || s[0] == c then 0 else IndexOf(s[1..], c) + 1
  }

  /** `split_once(c).unwrap_or((s, ""))` */
  function SplitOnce(s: seq<byte>, c: byte): (seq<byte>, seq<byte>) {
    var i := IndexOf(s, c);
    if i < |s| then (s[..i], s[i + 1..]) else (s, [])
  }

  function Split(s: seq<byte>, c: byte): seq<seq<byte>>
    decreases |s|
  {
    var i := IndexOf(s, c);
    if i < |s| then [s[..i]] + Split(s[i + 1..], c) else [s]
  }

  lemma IndexIs(a: seq<byte>, c: byte, b: seq<byte>)
    requires c !in a
    ensures IndexOf(a + [c] + b, c) == |a| && IndexOf(a, c) == |a|
  {
    var s := a + [c] + b;
    assert s[|a|] == c;
    assert forall k :: 0 <= k < |a| ==> s[k] == a[k] && a[k] in a;
  }

  lemma SplitOnceAt(a: seq<byte>, c: byte, b: seq<byte>)
    requires c !in a
    ensures SplitOnce(a + [c] + b, c) == (a, b) && SplitOnce(a, c) == (a, [])
    ensures Split(a + [c] + b, c) == [a] + Split(b, c) && Split(a, c) == [a]
  {
    IndexIs(a, c, b);
    var s := a + [c] + b;
    assert s[..|a|] == a && s[|a| + 1..] == b;
  }

  // ---------------------------------------------------------------- pairs

  datatype Pair = Pair(key: seq<byte>, raw: seq<byte>)

  function PairsOf(parts: seq<seq<byte>>): seq<Pair> {
    if parts == [] then []
    else if parts[0] == [] then PairsOf(parts[1..])
    else var (k, v) := SplitOnce(parts[0], EQUALS); [Pair(k, v)] + PairsOf(parts[1..])
  }

  /** The pairs of a query, values not yet decoded. */
  function QueryPairs(query: seq<byte>): seq<Pair> {
    PairsOf(Split(query, AMPERSAND))
  }

  /** What a client may put into a query as it stands. */
  predicate PairOk(p: Pair) {
    AMPERSAND !in p.key && EQUALS !in p.key && AMPERSAND !in p.raw
  }

  function PairText(p: Pair): seq<byte> {
    p.key + [EQUALS] + p.raw
  }

  function QueryText(pairs: seq<Pair>): seq<byte> {
    if pairs == [] then []
    else if |pairs| == 1 then PairText(pairs[0])
    else PairText(pairs[0]) + [AMPERSAND] + QueryText(pairs[1..])
  }

  lemma PairReads(p: Pair)
    requires PairOk(p)
    ensures PairText(p) != [] && AMPERSAND !in PairText(p) && SplitOnce(PairText(p), EQUALS) == (p.key, p.raw)
  {
    SplitOnceAt(p.key, EQUALS, p.raw);
  }

  /** A printed query is read back pair by pair. */
  lemma {:induction false} QueryReads(pairs: seq<Pair>)
    requires forall i :: 0 <= i < |pairs| ==> PairOk(pairs[i])
    ensures QueryPairs(QueryText(pairs)) == pairs
    decreases |pairs|
  {
    hide SplitOnce, Split, PairText;
    if pairs == [] {
      SplitOnceAt([], AMPERSAND, []);
      var none: seq<seq<byte>> := [];
      OnePart([], none);
      assert [[]] + none == [[]];
    } else {
      var p, rest := pairs[0], pairs[1..];
      PairReads(p);
      QueryReads(rest);
      SplitOnceAt(PairText(p), AMPERSAND, QueryText(rest));
      if rest == [] {
        OnePart(PairText(p), []);
        assert [PairText(p)] + [] == [PairText(p)];
      } else {
        OnePart(PairText(p), Split(QueryText(rest), AMPERSAND));
      }
    }
  }

  lemma OnePart(part: seq<byte>, rest: seq<seq<byte>>)
    ensures PairsOf([part] + rest) ==
            if part == [] then PairsOf(rest)
            else [Pair(SplitOnce(part, EQUALS).0, SplitOnce(part, EQUALS).1)] + PairsOf(rest)
  {
    assert ([part] + rest)[1..] == rest;
  }

  // ---------------------------------------------------------------- the characters themselves

  /** The three ways of spelling a byte, by the characters of RFC 3986 and of web forms. */
  lemma {:induction false} Spellings(c: byte, high: byte, low: byte, rest: seq<byte>)
    ensures c != CharByte('%') && c != CharByte('+') ==> Decoded([c] + rest) == Behind([c], Decoded(rest))
    ensures Decoded(Ascii("+") + rest) == Behind(Ascii(" "), Decoded(rest))
    ensures Decoded(Ascii("%") + [high, low] + rest) ==
            if HexVal(high).Some? && HexVal(low).Some?
            then Behind([HexVal(high).value as int * 16 + HexVal(low).value as int], Decoded(rest))
            else None
    ensures Decoded([]) == Some([]) && Decoded(Ascii("%")) == None && Decoded(Ascii("%") + [high]) == None
  {
    hide HexVal, Behind;
    assert Ascii("%") == [37] && Ascii("+") == [43] && Ascii(" ") == [32];
    if c != 37 && c != 43 {
      DecodedTurn([c] + rest);
      assert ([c] + rest)[1..] == rest;
    }
    DecodedTurn([43] + rest);
    assert ([43] + rest)[1..] == rest;
    var escape := [37] + [high, low] + rest;
    DecodedTurn(escape);
    assert escape[3..] == rest;
    DecodedTurn([37]);
    DecodedTurn([37] + [high]);
  }

  /** A hexadecimal digit is one of 0 to 9, a to f and A to F, and means its place in them. */
  lemma HexDigits(c: byte)
    ensures HexVal(c).Some? <==> || CharByte('0') <= c <= CharByte('9')
                                 || CharByte('a') <= c <= CharByte('f')
                                 || CharByte('A') <= c <= CharByte('F')
    ensures CharByte('0') <= c <= CharByte('9') ==> HexVal(c) == Some(c - CharByte('0'))
    ensures CharByte('a') <= c <= CharByte('f') ==> HexVal(c) == Some(c - CharByte('a') + 10)
    ensures CharByte('A') <= c <= CharByte('F') ==> HexVal(c) == Some(c - CharByte('A') + 10)
  {
  }

  lemma Separators()
    ensures Ascii("=") == [EQUALS] && Ascii("&") == [AMPERSAND] && Ascii("?") == [QUESTION]
    ensures CharByte('=') == EQUALS && CharByte('&') == AMPERSAND && CharByte('?') == QUESTION
  {
  }

  /** Pairs are parted by `&`, empty ones left out ... */
  lemma {:induction false} PartedByAmpersand(part: seq<byte>, rest: seq<byte>)
    requires CharByte('&') !in part
    ensures QueryPairs(part + Ascii("&") + rest) == QueryPairs(part) + QueryPairs(rest)
    ensures part == [] ==> QueryPairs(part) == []
  {
    hide SplitOnce, Split, Ascii, CharByte;
    Separators();
    SplitOnceAt(part, AMPERSAND, rest);
    OnePart(part, Split(rest, AMPERSAND));
    var none: seq<seq<byte>> := [];
    OnePart(part, none);
    assert [part] + none == [part];
  }

  /** ... and a key ends at the first `=`, if there is one. */
  lemma {:induction false} KeyEndsAtEquals(key: seq<byte>, raw: seq<byte>)
    requires CharByte('&') !in key && CharByte('=') !in key && CharByte('&') !in raw
    ensures QueryPairs(key + Ascii("=") + raw) == [Pair(key, raw)]
    ensures key != [] ==> QueryPairs(key) == [Pair(key, [])]
  {
    hide SplitOnce, Split, Ascii, CharByte;
    Separators();
    var p := key + [EQUALS] + raw;
    SplitOnceAt(key, EQUALS, raw);
    SplitOnceAt(p, AMPERSAND, []);
    SplitOnceAt(key, AMPERSAND, []);
    var none: seq<seq<byte>> := [];
    OnePart(p, none);
    OnePart(key, none);
    assert [p] + none == [p] && [key] + none == [key];
  }
}
