/**
 * Python's `str(i)` for an integer and `int(s)` for a string of ASCII decimal digits
 * with an optional sign. `str` always produces the canonical form (no leading zeros,
 * no "+", no "-0"); `int` also accepts "+5" and "007".
 */
module Decimal {
  import opened Wrappers
  import opened Exceptions

  predicate IsDigit(c: char) { '0' <= c <= '9' }

  predicate AllDigits(s: string) { forall i :: 0 <= i < |s| ==> IsDigit(s[i]) }

  function DigitValue(c: char): (d: nat)
    requires IsDigit(c)
    ensures d < 10
  {
    c as int - '0' as int
  }

  function DigitChar(d: nat): (c: char)
    requires d < 10
    ensures IsDigit(c) && DigitValue(c) == d
  {
    ('0' as int + d) as char
  }

  /** A non-empty digit string with no superfluous leading zero. */
  predicate CanonicalDigits(d: string) {
    |d| > 0 && AllDigits(d) && (|d| > 1 ==> d[0] != '0')
  }

  /** The strings `str` produces: canonical digits, or "-" and non-zero canonical digits. */
  predicate IsCanonical(s: string) {
    CanonicalDigits(s) || (|s| > 1 && s[0] == '-' && CanonicalDigits(s[1..]) && s[1..] != "0")
  }

  /** The strings `int` accepts: an optional sign followed by at least one digit. */
  predicate IsNumeral(s: string) {
    if |s| > 0 && (s[0] == '-' || s[0] == '+') then |s| > 1 && AllDigits(s[1..])
    else |s| > 0 && AllDigits(s)
  }

  /** The decimal digits of `n`, most significant first. */
  function NatDigits(n: nat): (s: string)
    ensures CanonicalDigits(s)
    ensures s == "0" <==> n == 0
  {
    if n < 10 then [DigitChar(n)] else NatDigits(n / 10) + [DigitChar(n % 10)]
  }

  /** The number a string of digits denotes. */
  function DigitsValue(s: string): nat
    requires AllDigits(s)
  {
    if s == [] then 0 else DigitsValue(s[..|s| - 1]) * 10 + DigitValue(s[|s| - 1])
  }

  /** Python `str(i)`. */
  function Str(i: int): (s: string)
    ensures IsCanonical(s)
    ensures i < 0 <==> s[0] == '-'
  {
    if i < 0 then "-" + NatDigits(-i) else NatDigits(i)
  }

  /** Python `int(s)`, raising ValueError on anything that is not a numeral. */
  function Int(s: string): (r: Result<int, Error>)
    ensures r.Success? <==> IsNumeral(s)
    ensures r.Failure? ==> r.error == ValueError(s)
  {
    if |s| > 1 && (s[0] == '-' || s[0] == '+') && AllDigits(s[1..]) then
      var v: int := DigitsValue(s[1..]);
      Success(if s[0] == '-' then -v else v)
    else if |s| > 0 && AllDigits(s) then
      Success(DigitsValue(s))
    else
      Failure(ValueError(s))
  }

  /** `int` accepts leading zeros, a "+" and "-0", and rejects the empty string and a bare sign. */
  lemma NumeralScenario()
    ensures Int("007") == Success(7) && Int("+5") == Success(5) && Int("-0") == Success(0)
    ensures Int("") == Failure(ValueError("")) && Int("-") == Failure(ValueError("-"))
    // Where the model departs from Python: `int(" 5")` and `int("5 ")` are 5 there,
    // but this model does not strip whitespace and rejects both.
    ensures Int(" 5") == Failure(ValueError(" 5")) && Int("5 ") == Failure(ValueError("5 "))
  {
    assert "007"[..2] == "00" && "00"[..1] == "0" && "0"[..0] == [];
    assert "+5"[1..] == "5" && "5"[..0] == [];
    assert "-0"[1..] == "0";
    assert !IsDigit(" 5"[0]) && !IsDigit("5 "[1]);
  }

  lemma {:induction false} DigitsValueOfNatDigits(n: nat)
    ensures DigitsValue(NatDigits(n)) == n
  {
    var s := NatDigits(n);
    if n >= 10 {
      DigitsValueOfNatDigits(n / 10);
      assert s[..|s| - 1] == NatDigits(n / 10);
    }
  }

  /** A digit string that is canonical and longer than one digit denotes at least 10. */
  lemma {:induction false} CanonicalDigitsBound(d: string)
    requires CanonicalDigits(d)
    ensures |d| > 1 ==> DigitsValue(d) >= 10
    ensures |d| == 1 ==> DigitsValue(d) < 10
    ensures d != "0" ==> DigitsValue(d) >= 1
  {
    if |d| > 2 {
      CanonicalDigitsBound(d[..|d| - 1]);
    } else if |d| == 2 {
      assert d[..1] == [d[0]];
    } else {
      assert d[..0] == [];
    }
  }

  lemma {:induction false} NatDigitsOfDigitsValue(d: string)
    requires CanonicalDigits(d)
    ensures NatDigits(DigitsValue(d)) == d
  {
    var p := d[..|d| - 1];
    var last := d[|d| - 1];
    if |d| == 1 {
      assert p == [];
      assert d == [last];
    } else {
      assert p[0] == d[0];
      CanonicalDigitsBound(p);
      NatDigitsOfDigitsValue(p);
      var n := DigitsValue(d);
      assert n == DigitsValue(p) * 10 + DigitValue(last);
      assert n / 10 == DigitsValue(p) && n % 10 == DigitValue(last);
      assert DigitChar(DigitValue(last)) == last;
      assert d == p + [last];
    }
  }

  /** Round trip: `int(str(i)) == i` for every integer. */
  lemma StrIntRoundTrip(i: int)
    ensures Int(Str(i)) == Success(i)
  {
    if i < 0 {
      DigitsValueOfNatDigits(-i);
      assert Str(i)[1..] == NatDigits(-i);
    } else {
      DigitsValueOfNatDigits(i);
    }
  }

  /** The converse round trip: every canonical string is `str` of the number it denotes. */
  lemma IntStrRoundTrip(s: string)
    requires IsCanonical(s)
    ensures Int(s).Success? && Str(Int(s).value) == s
  {
    if CanonicalDigits(s) {
      NatDigitsOfDigitsValue(s);
    } else {
      var d := s[1..];
      NatDigitsOfDigitsValue(d);
      CanonicalDigitsBound(d);
      var v: int := DigitsValue(d);
      assert Int(s) == Success(-v);
      assert Str(-v) == "-" + d;
      assert s == "-" + d;
    }
  }
}
