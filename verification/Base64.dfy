/** Base64 per section 4 of RFC 4648, as `Convert.FromBase64String` accepts it:
    white space is skipped, the remaining text must come in groups of four,
    and only the last group may end in one or two `=`. */
module Base64 {
  import opened Wrappers
  import opened Ascii

  /** The characters `Convert.FromBase64String` skips. */
  predicate IsWhitespace(c: char) {
    c == ' ' || c == '\t' || c == '\r' || c == '\n'
  }

  function StripWhitespace(s: string): (r: string)
    ensures forall c :: c in r <==> c in s && !IsWhitespace(c)
    ensures |r| <= |s|
  {
    if s == [] then []
    else if IsWhitespace(s[0]) then StripWhitespace(s[1..])
    else [s[0]] + StripWhitespace(s[1..])
  }

  lemma {:induction false} StripAppend(a: string, b: string)
    ensures StripWhitespace(a + b) == StripWhitespace(a) + StripWhitespace(b)
    decreases |a|
  {
    if a == [] {
      assert a + b == b;
    } else {
      assert (a + b)[0] == a[0] && (a + b)[1..] == a[1..] + b;
      StripAppend(a[1..], b);
    }
  }

  lemma {:induction false} StripNoWhitespace(s: string)
    requires forall c :: c in s ==> !IsWhitespace(c)
    ensures StripWhitespace(s) == s
    decreases |s|
  {
    if s != [] {
      StripNoWhitespace(s[1..]);
      assert [s[0]] + s[1..] == s;
    }
  }

  /** The alphabet character of a six-bit value. */
  function Symbol(n: int): (c: char)
    requires 0 <= n < 64
    ensures IsAlphabet(c) && !IsWhitespace(c) && c != '='
  {
    if n < 26 then ('A' as int + n) as char
    else if n < 52 then ('a' as int + (n - 26)) as char
    else if n < 62 then ('0' as int + (n - 52)) as char
    else if n == 62 then '+'
    else '/'
  }

  predicate IsAlphabet(c: char) {
    ('A' <= c <= 'Z') || ('a' <= c <= 'z') || ('0' <= c <= '9') || c == '+' || c == '/'
  }

  /** The six-bit value of an alphabet character. */
  function SymbolValue(c: char): (v: int)
    requires IsAlphabet(c)
    ensures 0 <= v < 64
  {
    if 'A' <= c <= 'Z' then c as int - 'A' as int
    else if 'a' <= c <= 'z' then c as int - 'a' as int + 26
    else if '0' <= c <= '9' then c as int - '0' as int + 52
    else if c == '+' then 62
    else 63
  }

  lemma SymbolRoundTrip(v: int)
    requires 0 <= v < 64
    ensures SymbolValue(Symbol(v)) == v
  {
  }

  /** The three bytes packed by four six-bit values. */
  function Unpack(v0: int, v1: int, v2: int, v3: int): seq<byte>
    requires 0 <= v0 < 64 && 0 <= v1 < 64 && 0 <= v2 < 64 && 0 <= v3 < 64
  {
    [(v0 * 4 + v1 / 16) as byte, ((v1 % 16) * 16 + v2 / 4) as byte, ((v2 % 4) * 64 + v3) as byte]
  }

  /** Decodes text that holds no white space. It succeeds only on a
      multiple of four symbols, each group giving three bytes, the last
      group one or two bytes fewer when padded. */
  function DecodeStripped(s: string): (r: Option<seq<byte>>)
    ensures r.Some? ==> |s| % 4 == 0 && 3 * (|s| / 4) - 2 <= |r.value| <= 3 * (|s| / 4)
    decreases |s|
  {
    if s == [] then Some([])
    else if |s| < 4 || !IsAlphabet(s[0]) || !IsAlphabet(s[1]) then None
    else
      var v0, v1 := SymbolValue(s[0]), SymbolValue(s[1]);
      if |s| == 4 && s[2] == '=' && s[3] == '=' then Some(Unpack(v0, v1, 0, 0)[..1])
      else if !IsAlphabet(s[2]) then None
      else
        var v2 := SymbolValue(s[2]);
        if |s| == 4 && s[3] == '=' then Some(Unpack(v0, v1, v2, 0)[..2])
        else if !IsAlphabet(s[3]) then None
        else
          match DecodeStripped(s[4..])
          case None => None
          case Some(rest) => Some(Unpack(v0, v1, v2, SymbolValue(s[3])) + rest)
  }

  /** `Convert.FromBase64String(s)`; `None` where it throws `FormatException`,
      as it does whenever the text without white space is not a multiple of
      four characters long. */
  function Decode(s: string): (r: Option<seq<byte>>)
    ensures r.Some? ==> var t := StripWhitespace(s);
      |t| % 4 == 0 && 3 * (|t| / 4) - 2 <= |r.value| <= 3 * (|t| / 4)
  {
    DecodeStripped(StripWhitespace(s))
  }

  /** The four symbols encoding three bytes. */
  function EncodeGroup(b0: byte, b1: byte, b2: byte): (r: string)
    ensures |r| == 4
    ensures forall c :: c in r ==> IsAlphabet(c)
  {
    var Sextets(v0, v1, v2, v3) := Split3(b0, b1, b2);
    [Symbol(v0), Symbol(v1), Symbol(v2), Symbol(v3)]
  }

  datatype Sextets = Sextets(v0: int, v1: int, v2: int, v3: int)

  /** Three bytes cut into four six-bit values, most significant first. */
  function Split3(b0: byte, b1: byte, b2: byte): (s: Sextets)
    ensures 0 <= s.v0 < 64 && 0 <= s.v1 < 64 && 0 <= s.v2 < 64 && 0 <= s.v3 < 64
    ensures Unpack(s.v0, s.v1, s.v2, s.v3) == [b0, b1, b2]
  {
    var x0, x1, x2 := b0 as int, b1 as int, b2 as int;
    var s := Sextets(x0 / 4, (x0 % 4) * 16 + x1 / 16, (x1 % 16) * 4 + x2 / 64, x2 % 64);
    assert s.v1 / 16 == x0 % 4 && s.v1 % 16 == x1 / 16;
    assert s.v2 / 4 == x1 % 16 && s.v2 % 4 == x2 / 64;
    s
  }

  /** `Convert.ToBase64String(b)`: the reference encoder the decoder is checked against. */
  function Encode(b: seq<byte>): (r: string)
    ensures forall c :: c in r ==> IsAlphabet(c) || c == '='
    ensures forall c :: c in r ==> !IsWhitespace(c)
    decreases |b|
  {
    if b == [] then ""
    else if |b| == 1 then EncodeGroup(b[0], 0, 0)[..2] + "=="
    else if |b| == 2 then EncodeGroup(b[0], b[1], 0)[..3] + "="
    else EncodeGroup(b[0], b[1], b[2]) + Encode(b[3..])
  }

  /** A full group in front of more text decodes to its three bytes followed
      by whatever the rest decodes to. */
  lemma DecodeFullGroup(b0: byte, b1: byte, b2: byte, rest: string)
    ensures DecodeStripped(EncodeGroup(b0, b1, b2) + rest) ==
      match DecodeStripped(rest)
      case None => None
      case Some(r) => Some([b0, b1, b2] + r)
  {
    var x := Split3(b0, b1, b2);
    SymbolRoundTrip(x.v0);
    SymbolRoundTrip(x.v1);
    SymbolRoundTrip(x.v2);
    SymbolRoundTrip(x.v3);
    var e := EncodeGroup(b0, b1, b2) + rest;
    assert e[..4] == EncodeGroup(b0, b1, b2) && e[4..] == rest;
  }

  lemma DecodeOneByteTail(b0: byte)
    ensures DecodeStripped(EncodeGroup(b0, 0, 0)[..2] + "==") == Some([b0])
  {
    var x := Split3(b0, 0, 0);
    SymbolRoundTrip(x.v0);
    SymbolRoundTrip(x.v1);
    assert [b0] == Unpack(x.v0, x.v1, 0, 0)[..1];
  }

  lemma DecodeTwoByteTail(b0: byte, b1: byte)
    ensures DecodeStripped(EncodeGroup(b0, b1, 0)[..3] + "=") == Some([b0, b1])
  {
    var x := Split3(b0, b1, 0);
    SymbolRoundTrip(x.v0);
    SymbolRoundTrip(x.v1);
    SymbolRoundTrip(x.v2);
    assert [b0, b1] == Unpack(x.v0, x.v1, x.v2, 0)[..2];
  }

  /** One step of the round trip: a leading group of three bytes. */
  lemma DecodeEncodeStep(b0: byte, b1: byte, b2: byte, t: seq<byte>)
    requires DecodeStripped(Encode(t)) == Some(t)
    ensures DecodeStripped(Encode([b0, b1, b2] + t)) == Some([b0, b1, b2] + t)
  {
    var b := [b0, b1, b2] + t;
    assert b[0] == b0 && b[1] == b1 && b[2] == b2 && b[3..] == t;
    assert Encode(b) == EncodeGroup(b0, b1, b2) + Encode(t);
    DecodeFullGroup(b0, b1, b2, Encode(t));
  }

  lemma FirstGroup(b: seq<byte>)
    requires |b| >= 3
    ensures b == [b[0], b[1], b[2]] + b[3..]
  {
  }

  /** Decoding undoes encoding, for every byte string. */
  lemma {:induction false} DecodeEncode(b: seq<byte>)
    ensures Decode(Encode(b)) == Some(b)
    decreases |b|
  {
    if b == [] {
    } else if |b| == 1 {
      DecodeOneByteTail(b[0]);
      assert b == [b[0]];
    } else if |b| == 2 {
      DecodeTwoByteTail(b[0], b[1]);
      assert b == [b[0], b[1]];
    } else {
      FirstGroup(b);
      DecodeEncode(b[3..]);
      StripNoWhitespace(Encode(b[3..]));
      DecodeEncodeStep(b[0], b[1], b[2], b[3..]);
    }
    StripNoWhitespace(Encode(b));
  }

  lemma {:induction false} StripOnlyWhitespace(s: string)
    requires forall c :: c in s ==> IsWhitespace(c)
    ensures StripWhitespace(s) == []
    decreases |s|
  {
    if s != [] {
      StripOnlyWhitespace(s[1..]);
    }
  }

  /** Encoded text may be broken into lines anywhere: the line breaks are
      white space and do not change what it decodes to. */
  lemma DecodeIgnoresBreaks(a: string, b: string, brk: string)
    requires forall c :: c in brk ==> IsWhitespace(c)
    ensures Decode(a + brk + b) == Decode(a + b)
  {
    StripAppend(a + brk, b);
    StripAppend(a, brk);
    StripAppend(a, b);
    StripOnlyWhitespace(brk);
    assert StripWhitespace(a + brk) == StripWhitespace(a);
  }
}
