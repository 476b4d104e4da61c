/** Decimal numbers as text: the value of a digit string, Python's
    `str(int)` and Python's `int(str)` for base 10 (ASCII digits only). */
module Numbers {
  import opened Wrappers
  import opened Strings

  function DigitValue(c: char): nat
    requires IsDigit(c)
  {
    c as int - '0' as int
  }

  function DigitChar(d: nat): (c: char)
    requires d < 10
    ensures IsDigit(c) && DigitValue(c) == d
  {
    ('0' as int + d) as char
  }

  /** The value of a string of decimal digits; leading zeros are allowed. */
  function DigitsValue(s: string): nat
    requires AllDigits(s)
  {
    if |s| == 0 then 0 else DigitsValue(s[..|s| - 1]) * 10 + DigitValue(s[|s| - 1])
  }

  /** Python's `str(n)` for a natural number. */
  function NatToString(n: nat): (r: string)
    ensures IsDigits(r)
    ensures |r| > 1 ==> r[0] != '0'
  {
    if n < 10 then [DigitChar(n)] else NatToString(n / 10) + [DigitChar(n % 10)]
  }

  /** Python's `str(i)` for any integer. */
  function IntToString(i: int): (r: string)
    ensures |r| > 0
    ensures r[0] == '-' <==> i < 0
  {
    if i < 0 then "-" + NatToString(-i) else NatToString(i)
  }

  /** Reading back a printed natural number gives the number. */
  lemma {:induction false} DigitsValueOfNatToString(n: nat)
    ensures DigitsValue(NatToString(n)) == n
  {
    if n >= 10 {
      DigitsValueOfNatToString(n / 10);
      var s := NatToString(n);
      assert s[..|s| - 1] == NatToString(n / 10);
    }
  }

  /** A digit string with a non-zero leading digit denotes a positive number. */
  lemma {:induction false} LeadingDigitPositive(s: string)
    requires IsDigits(s) && s[0] != '0'
    ensures DigitsValue(s) > 0
    decreases |s|
  {
    if |s| > 1 {
      var init := s[..|s| - 1];
      assert init[0] == s[0];
      LeadingDigitPositive(init);
    }
  }

  /** Printing the value of a digit string without leading zeros gives the
      string back. */
  lemma {:induction false} NatToStringOfDigitsValue(s: string)
    requires IsDigits(s)
    requires |s| > 1 ==> s[0] != '0'
    ensures NatToString(DigitsValue(s)) == s
    decreases |s|
  {
    if |s| > 1 {
      var init := s[..|s| - 1];
      assert init[0] == s[0];
      LeadingDigitPositive(init);
      NatToStringOfDigitsValue(init);
      var n := DigitsValue(s);
      assert n / 10 == DigitsValue(init);
      assert n % 10 == DigitValue(s[|s| - 1]);
      assert init + [s[|s| - 1]] == s;
    }
  }

  /** A digit run as Python's `int()` accepts it: digits, with single
      underscores allowed between two of them. */
  predicate IsUnderscoredDigits(s: string)
    decreases |s|
  {
    && |s| > 0
    && IsDigit(s[0])
    && (|s| == 1 || (if s[1] == '_' then IsUnderscoredDigits(s[2..]) else IsUnderscoredDigits(s[1..])))
  }

  function RemoveUnderscores(s: string): (r: string)
    ensures |r| <= |s|
  {
    if |s| == 0 then ""
    else (if s[0] == '_' then "" else [s[0]]) + RemoveUnderscores(s[1..])
  }

  /** What `int()` accepts reads as a plain digit string once the
      underscores are gone. */
  lemma {:induction false} UnderscoresRemoved(s: string)
    requires IsUnderscoredDigits(s)
    ensures IsDigits(RemoveUnderscores(s))
    decreases |s|
  {
    if |s| > 1 {
      if s[1] == '_' {
        UnderscoresRemoved(s[2..]);
        assert RemoveUnderscores(s[1..]) == RemoveUnderscores(s[2..]);
      } else {
        UnderscoresRemoved(s[1..]);
      }
    }
  }

  /** A plain digit string is accepted as it is. */
  lemma {:induction false} DigitsAccepted(s: string)
    requires IsDigits(s)
    ensures IsUnderscoredDigits(s) && RemoveUnderscores(s) == s
    decreases |s|
  {
    if |s| > 1 {
      assert IsDigits(s[1..]) && s[1] != '_';
      DigitsAccepted(s[1..]);
    }
  }

  /** The unsigned part of Python's `int(str)`. */
  function ParseUnsigned(s: string): (r: Option<nat>)
    ensures r.Some? <==> IsUnderscoredDigits(s)
  {
    if IsUnderscoredDigits(s) then
      UnderscoresRemoved(s);
      Some(DigitsValue(RemoveUnderscores(s)))
    else None
  }

  /** Python's `int(s)` for a base-10 string: surrounding whitespace is
      ignored, one optional sign, then digits with single underscores
      between them. `None` stands for the `ValueError` it raises. */
  function PyInt(s: string): (r: Option<int>)
    ensures r.Some? ==> |Strip(s)| > 0
    ensures r.Some? && r.value < 0 ==> Strip(s)[0] == '-'
  {
    var t := Strip(s);
    if |t| > 0 && (t[0] == '+' || t[0] == '-') then
      match ParseUnsigned(t[1..])
      case None => None
      case Some(n) =>
        var v: int := n;
        if t[0] == '-' then Some(-v) else Some(v)
    else
      match ParseUnsigned(t)
      case None => None
      case Some(n) => Some(n)
  }

  lemma PyIntOfDigits(d: string, n: nat)
    requires IsDigits(d) && ParseUnsigned(d) == Some(n)
    ensures PyInt(d) == Some(n)
  {
    StripNoSpaceEnds(d);
  }

  lemma PyIntOfNegated(d: string, n: nat)
    requires IsDigits(d) && ParseUnsigned(d) == Some(n)
    ensures PyInt("-" + d) == Some(-(n as int))
  {
    var s := "-" + d;
    StripNoSpaceEnds(s);
    assert s[1..] == d;
  }

  /** Python's `int()` reads back what `str()` prints. */
  lemma PyIntOfIntToString(i: int)
    ensures PyInt(IntToString(i)) == Some(i)
  {
    var n: nat := if i < 0 then -i else i;
    var d := NatToString(n);
    DigitsValueOfNatToString(n);
    DigitsAccepted(d);
    if i < 0 {
      PyIntOfNegated(d, n);
    } else {
      PyIntOfDigits(d, n);
    }
  }
}
