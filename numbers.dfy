/**
 * The value tokens of the log and the test `is_natural_number`
 * (src/response_times.py:18-28), which accepts a string exactly when
 * Python's `int()` parses it in base 10 and the result is not negative.
 *
 * `int()` is modelled on ASCII: an optional sign, then decimal digits
 * that may be separated by single underscores.
 */
module Numbers {
  import opened Util

  /** The value that marks a probe without a response. */
  const NoResponse: string := "-"

  predicate IsDigit(c: char) {
    '0' <= c <= '9'
  }

  function DigitValue(c: char): (v: nat)
    requires IsDigit(c)
    ensures v < 10
  {
    c as int - '0' as int
  }

  function Digit(v: nat): (c: char)
    requires v < 10
    ensures IsDigit(c) && DigitValue(c) == v
  {
    ('0' as int + v) as char
  }

  /** A digit group as base-10 `int()` reads it: digits, single underscores between them. */
  predicate IsDigitGroup(d: string) {
    && |d| > 0
    && IsDigit(d[0])
    && IsDigit(d[|d| - 1])
    && (forall i :: 0 <= i < |d| ==> IsDigit(d[i]) || d[i] == '_')
    && (forall i :: 0 <= i < |d| - 1 ==> d[i] == '_' ==> d[i + 1] != '_')
  }

  /** The number a digit group denotes; underscores are skipped. */
  function DigitsValue(d: string): nat
    requires forall i :: 0 <= i < |d| ==> IsDigit(d[i]) || d[i] == '_'
  {
    if d == [] then 0
    else
      var last := d[|d| - 1];
      if last == '_' then DigitsValue(d[..|d| - 1])
      else DigitsValue(d[..|d| - 1]) * 10 + DigitValue(last)
  }

  /** Python's `int(s)` in base 10: `None` where it raises `ValueError`. */
  function ParseInt(s: string): Option<int> {
    if |s| > 0 && (s[0] == '+' || s[0] == '-') then
      if IsDigitGroup(s[1..]) then
        var v: int := DigitsValue(s[1..]);
        Some(if s[0] == '-' then -v else v)
      else None
    else if IsDigitGroup(s) then Some(DigitsValue(s))
    else None
  }

  /** `is_natural_number`: `int(s)` succeeds and is not negative. */
  function IsNaturalNumber(s: string): bool {
    match ParseInt(s)
    case Some(v) => v >= 0
    case None => false
  }

  /** The value of a token `IsNaturalNumber` accepts. */
  function NaturalValue(s: string): (v: nat)
    requires IsNaturalNumber(s)
    ensures ParseInt(s) == Some(v)
  {
    ParseInt(s).value
  }

  /** Decimal rendering of a natural number, as Python's `str()`. */
  function NatToString(n: nat): (r: string)
    ensures |r| > 0
    ensures forall i :: 0 <= i < |r| ==> IsDigit(r[i])
  {
    if n < 10 then [Digit(n)] else NatToString(n / 10) + [Digit(n % 10)]
  }

  /** Decimal rendering of an integer, with a leading minus when negative. */
  function IntToString(i: int): (r: string)
    ensures |r| > 0
  {
    if i < 0 then "-" + NatToString(-i) else NatToString(i)
  }

  lemma {:induction false} NatToStringValue(n: nat)
    ensures DigitsValue(NatToString(n)) == n
  {
    var r := NatToString(n);
    if n >= 10 {
      NatToStringValue(n / 10);
      assert r[..|r| - 1] == NatToString(n / 10);
    } else {
      assert r[..|r| - 1] == [];
    }
  }

  /** Every rendered natural number is accepted and reads back as itself. */
  lemma NatRoundTrip(n: nat)
    ensures ParseInt(NatToString(n)) == Some(n)
    ensures IsNaturalNumber(NatToString(n))
  {
    NatToStringValue(n);
  }

  /** A rendered number with a leading minus reads back as its negation. */
  lemma NegatedRoundTrip(n: nat)
    ensures ParseInt("-" + NatToString(n)) == Some(-(n as int))
  {
    var d := NatToString(n);
    var r := "-" + d;
    assert r[0] == '-' && r[1..] == d;
    assert IsDigitGroup(d);
    NatToStringValue(n);
  }

  /** `int(str(i)) == i` for every integer, and the test agrees with the sign. */
  lemma IntRoundTrip(i: int)
    ensures ParseInt(IntToString(i)) == Some(i)
    ensures IsNaturalNumber(IntToString(i)) <==> i >= 0
  {
    if i < 0 {
      NegatedRoundTrip(-i);
    } else {
      NatRoundTrip(i);
    }
  }

  /** A token accepted by `IsNaturalNumber` is never the no-response marker, and
      signs and fractions are judged as `int()` judges them. */
  lemma NaturalNumberCases()
    ensures !IsNaturalNumber(NoResponse)
    ensures IsNaturalNumber("0") && IsNaturalNumber("1")
    ensures !IsNaturalNumber("a") && !IsNaturalNumber("1.0") && !IsNaturalNumber("-1")
    ensures IsNaturalNumber("+7") && IsNaturalNumber("-0") && IsNaturalNumber("1_000")
    ensures !IsNaturalNumber("1__0") && !IsNaturalNumber("_1") && !IsNaturalNumber("")
  {
    assert "1.0"[1] == '.';
    assert "1__0"[1] == '_' && "1__0"[2] == '_';
    assert "-1"[1..] == "1";
    assert "-0"[1..] == "0";
    assert "+7"[1..] == "7";
    assert DigitsValue("1_000") == 1000 by {
      assert "1_000"[..4] == "1_00";
      assert "1_00"[..3] == "1_0";
      assert "1_0"[..2] == "1_";
      assert "1_"[..1] == "1";
      assert "1"[..0] == "";
    }
  }
}
