/** Decimal text: `int.ToString()`, the `D2` format and `int.TryParse`, for
    ASCII digits. */
module Decimal {
  import opened Wrappers

  predicate IsDigit(c: char) {
    '0' <= c <= '9'
  }

  predicate AllDigits(s: string) {
    forall i :: 0 <= i < |s| ==> IsDigit(s[i])
  }

  function DigitChar(d: nat): (c: char)
    requires d < 10
    ensures IsDigit(c) && c as int - '0' as int == d
  {
    ('0' as int + d) as char
  }

  function DigitValue(c: char): (d: nat)
    requires IsDigit(c)
    ensures d < 10 && DigitChar(d) == c
  {
    c as int - '0' as int
  }

  /** `n.ToString()` for a non-negative `n`: its digits, most significant first. */
  function Digits(n: nat): (s: string)
    ensures |s| >= 1 && AllDigits(s)
    decreases n
  {
    if n < 10 then [DigitChar(n)] else Digits(n / 10) + [DigitChar(n % 10)]
  }

  /** The number a string of digits denotes. */
  function Value(s: string): nat
    requires AllDigits(s)
    decreases |s|
  {
    if s == [] then 0 else Value(s[..|s| - 1]) * 10 + DigitValue(s[|s| - 1])
  }

  /** Reading back the digits of `n` gives `n`. */
  lemma {:induction false} ValueOfDigits(n: nat)
    ensures Value(Digits(n)) == n
    decreases n
  {
    if n >= 10 {
      ValueOfDigits(n / 10);
      var s := Digits(n);
      assert s[..|s| - 1] == Digits(n / 10);
    }
  }

  /** Distinct numbers have distinct decimal texts. */
  lemma DigitsInjective(a: nat, b: nat)
    requires Digits(a) == Digits(b)
    ensures a == b
  {
    ValueOfDigits(a);
    ValueOfDigits(b);
  }

  /** `n.ToString("D2")` for `n < 100`: always two digits, zero-padded. */
  function Pad2(n: nat): (s: string)
    requires n < 100
    ensures |s| == 2 && AllDigits(s) && Value(s) == n
  {
    var s := [DigitChar(n / 10), DigitChar(n % 10)];
    assert s[..1] == [DigitChar(n / 10)] && s[..1][..0] == [];
    assert Value(s[..1]) == n / 10;
    assert Value(s) == (n / 10) * 10 + n % 10;
    s
  }

  const Int32Min: int := -0x8000_0000
  const Int32Max: int := 0x7FFF_FFFF

  predicate IsInt32(n: int) {
    Int32Min <= n <= Int32Max
  }

  /** `int.TryParse(s, out v)`: `None` where it returns false (also for a null
      string), otherwise the parsed value. Accepted text: an optional `-` or `+`
      followed by at least one ASCII digit, denoting a 32-bit value. */
  function TryParseInt(s: Option<string>): (r: Option<int>)
    ensures r.Some? ==> IsInt32(r.value)
    ensures r.Some? ==> s.Some? && |s.value| > 0
  {
    match s
    case None => None
    case Some(t) =>
      var signed := |t| > 0 && (t[0] == '-' || t[0] == '+');
      var body := if signed then t[1..] else t;
      if body == [] || !AllDigits(body) then None
      else
        var v: int := if signed && t[0] == '-' then -(Value(body) as int) else Value(body);
        if IsInt32(v) then Some(v) else None
  }

  /** `n.ToString()` */
  function IntToString(n: int): string {
    if n < 0 then "-" + Digits(-n) else Digits(n)
  }

  /** Every 32-bit value survives printing and parsing. */
  lemma TryParseRoundTrip(n: int)
    requires IsInt32(n)
    ensures TryParseInt(Some(IntToString(n))) == Some(n)
  {
    if n < 0 {
      var s := IntToString(n);
      ValueOfDigits(-n);
      assert s[0] == '-' && s[1..] == Digits(-n);
    } else {
      var d := Digits(n);
      ValueOfDigits(n);
      assert IsDigit(d[0]);
    }
  }

  /** Text holding a character other than a digit (past an optional leading
      sign) never parses. */
  lemma TryParseRejectsNonDigit(t: string, i: nat)
    requires 0 < i < |t| && !IsDigit(t[i])
    ensures TryParseInt(Some(t)) == None
  {
    if |t| > 0 && (t[0] == '-' || t[0] == '+') {
      assert !IsDigit(t[1..][i - 1]);
    }
  }

  /** A leading zero does not change the value. */
  lemma {:induction false} ValueLeadingZero(t: string)
    requires AllDigits(t)
    ensures AllDigits("0" + t) && Value("0" + t) == Value(t)
    decreases |t|
  {
    var z := "0" + t;
    if t != [] {
      ValueLeadingZero(t[..|t| - 1]);
      assert z[..|z| - 1] == "0" + t[..|t| - 1];
    } else {
      assert z[..|z| - 1] == [];
    }
  }

  /** Digits denoting a 32-bit value parse to that value, also behind a `+`. */
  lemma TryParseDigits(t: string)
    requires t != [] && AllDigits(t) && Value(t) <= Int32Max
    ensures TryParseInt(Some(t)) == Some(Value(t) as int)
    ensures TryParseInt(Some("+" + t)) == Some(Value(t) as int)
  {
    assert IsDigit(t[0]);
    assert ("+" + t)[1..] == t;
  }
}
