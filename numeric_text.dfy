/**
 * `pd.to_numeric(..., errors='coerce')` on one cell: decimal numerals become
 * numbers, anything else becomes missing instead of failing.
 */
module NumericText {
  import opened Wrappers

  predicate IsDigit(c: char)
  {
    '0' <= c <= '9'
  }

  predicate AllDigits(s: string)
  {
    forall i :: 0 <= i < |s| ==> IsDigit(s[i])
  }

  /** The value of a string of decimal digits ("" is 0). */
  function DigitsValue(s: string): nat
    requires AllDigits(s)
  {
    if s == [] then 0 else DigitsValue(s[..|s| - 1]) * 10 + ((s[|s| - 1] as int) - ('0' as int))
  }

  function Pow10(n: nat): (r: nat)
    ensures r >= 1
  {
    if n == 0 then 1 else 10 * Pow10(n - 1)
  }

  /** The position of the first '.', or |s| when there is none. */
  function DotIndex(s: string): (i: nat)
    ensures i <= |s| && (i < |s| ==> s[i] == '.')
    ensures forall j :: 0 <= j < i ==> s[j] != '.'
  {
    if s == [] || s[0] == '.' then 0 else 1 + DotIndex(s[1..])
  }

  /** `ddd`, `ddd.ddd`, `ddd.` or `.ddd`, with at least one digit. */
  function ParseUnsigned(s: string): Option<real>
  {
    var i := DotIndex(s);
    var whole := s[..i];
    var frac := if i < |s| then s[i + 1..] else [];
    if AllDigits(whole) && AllDigits(frac) && |whole| + |frac| > 0 then
      Some(DigitsValue(whole) as real + (DigitsValue(frac) as real) / (Pow10(|frac|) as real))
    else
      None
  }

  /** A cell's numeric value, or None when the text is not a decimal numeral. */
  function ParseNumber(s: string): Option<real>
  {
    if |s| > 0 && (s[0] == '-' || s[0] == '+') then
      match ParseUnsigned(s[1..])
      case None => None
      case Some(v) => Some(if s[0] == '-' then -v else v)
    else
      ParseUnsigned(s)
  }

  // ---------------------------------------------------------------------
  // Rendering numbers as text, the inverse direction

  function DigitChar(d: nat): (c: char)
    requires d < 10
    ensures IsDigit(c) && (c as int) - ('0' as int) == d
  {
    ('0' as int + d) as char
  }

  function ShowNat(n: nat): string
  {
    if n < 10 then [DigitChar(n)] else ShowNat(n / 10) + [DigitChar(n % 10)]
  }

  function ShowInt(n: int): string
  {
    if n < 0 then "-" + ShowNat(-n) else ShowNat(n)
  }

  /** An amount of cents written with two decimals, e.g. -1234 as "-12.34". */
  function ShowCents(c: int): string
  {
    if c < 0 then "-" + ShowCentsMagnitude(-c) else ShowCentsMagnitude(c)
  }

  lemma {:induction false} ShowNatDigits(n: nat)
    ensures |ShowNat(n)| > 0 && AllDigits(ShowNat(n))
    ensures DigitsValue(ShowNat(n)) == n
  {
    if n >= 10 {
      ShowNatDigits(n / 10);
      var s := ShowNat(n);
      assert s[..|s| - 1] == ShowNat(n / 10);
    }
  }

  lemma {:induction false} NoDotInDigits(ds: string)
    requires AllDigits(ds)
    ensures DotIndex(ds) == |ds|
  {
    if ds != [] {
      NoDotInDigits(ds[1..]);
    }
  }

  lemma ParseUnsignedDigits(s: string)
    requires |s| > 0 && AllDigits(s)
    ensures ParseUnsigned(s) == Some(DigitsValue(s) as real)
  {
    NoDotInDigits(s);
    assert s[..|s|] == s;
    assert DigitsValue([]) == 0;
  }

  /** Writing an integer and reading it back gives the integer. */
  lemma ParseShowInt(n: int)
    ensures ParseNumber(ShowInt(n)) == Some(n as real)
  {
    var a := if n < 0 then -n else n;
    ShowNatDigits(a);
    ParseUnsignedDigits(ShowNat(a));
    if n < 0 {
      assert ShowInt(n)[1..] == ShowNat(a);
    }
  }

  /** The unsigned part of ShowCents. */
  function ShowCentsMagnitude(a: nat): string
  {
    ShowNat(a / 100) + "." + [DigitChar(a % 100 / 10), DigitChar(a % 10)]
  }

  lemma TwoDigitsValue(a: nat)
    ensures AllDigits([DigitChar(a % 100 / 10), DigitChar(a % 10)])
    ensures DigitsValue([DigitChar(a % 100 / 10), DigitChar(a % 10)]) == a % 100
  {
    var hi, lo := DigitChar(a % 100 / 10), DigitChar(a % 10);
    var frac := [hi, lo];
    assert frac[..1] == [hi];
    assert [hi][..0] == [];
    assert DigitsValue([hi]) == a % 100 / 10;
    assert DigitsValue(frac) == DigitsValue([hi]) * 10 + a % 10;
    assert a % 100 == (a % 100 / 10) * 10 + a % 10;
  }

  lemma CentsArithmetic(a: nat)
    ensures (a / 100) as real + ((a % 100) as real) / 100.0 == a as real / 100.0
  {
    assert a == 100 * (a / 100) + a % 100;
  }

  lemma ParseCentsMagnitude(a: nat)
    ensures ParseUnsigned(ShowCentsMagnitude(a)) == Some(a as real / 100.0)
  {
    var whole := ShowNat(a / 100);
    var frac := [DigitChar(a % 100 / 10), DigitChar(a % 10)];
    var u := ShowCentsMagnitude(a);
    ShowNatDigits(a / 100);
    assert u == whole + ("." + frac);
    DotAfterDigits(whole, "." + frac);
    var i := DotIndex(u);
    assert i == |whole| && i < |u|;
    assert u[..i] == whole;
    assert u[i + 1..] == frac;
    TwoDigitsValue(a);
    assert AllDigits(whole) && AllDigits(frac) && |frac| == 2;
    assert Pow10(2) == 100;
    var v := DigitsValue(whole) as real + (DigitsValue(frac) as real) / (Pow10(|frac|) as real);
    assert ParseUnsigned(u) == Some(v);
    assert v == (a / 100) as real + ((a % 100) as real) / 100.0;
    CentsArithmetic(a);
  }

  /** Writing an amount with two decimals and reading it back gives the amount. */
  lemma ParseShowCents(c: int)
    ensures ParseNumber(ShowCents(c)) == Some(c as real / 100.0)
  {
    if c < 0 {
      ParseShowNegativeCents(-c);
    } else {
      ParseShowNonNegativeCents(c);
    }
  }

  lemma ParseShowNegativeCents(a: nat)
    requires a > 0
    ensures ParseNumber(ShowCents(-(a as int))) == Some((-(a as int)) as real / 100.0)
  {
    ParseCentsMagnitude(a);
    var s := ShowCents(-(a as int));
    assert s == "-" + ShowCentsMagnitude(a);
    assert s[0] == '-' && s[1..] == ShowCentsMagnitude(a);
    assert ParseNumber(s) == Some(-(a as real / 100.0));
  }

  lemma ParseShowNonNegativeCents(a: nat)
    ensures ParseNumber(ShowCents(a)) == Some(a as real / 100.0)
  {
    ParseCentsMagnitude(a);
    var s := ShowCents(a);
    assert s == ShowCentsMagnitude(a);
    ShowNatDigits(a / 100);
    assert s[0] == ShowNat(a / 100)[0];
    assert s[0] != '-' && s[0] != '+';
  }

  lemma {:induction false} DotAfterDigits(ds: string, rest: string)
    requires AllDigits(ds) && rest != [] && rest[0] == '.'
    ensures DotIndex(ds + rest) == |ds|
  {
    if ds != [] {
      assert (ds + rest)[1..] == ds[1..] + rest;
      DotAfterDigits(ds[1..], rest);
    }
  }

  /** Text holding a character that no numeral uses is coerced to missing. */
  lemma {:induction false} NonNumeralIsMissing(s: string, k: nat)
    requires k < |s| && !IsDigit(s[k]) && s[k] != '.' && s[k] != '-' && s[k] != '+'
    ensures ParseNumber(s) == None
  {
    if |s| > 0 && (s[0] == '-' || s[0] == '+') {
      assert s[1..][k - 1] == s[k];
      UnsignedRejects(s[1..], k - 1);
    } else {
      UnsignedRejects(s, k);
    }
  }

  lemma UnsignedRejects(s: string, k: nat)
    requires k < |s| && !IsDigit(s[k]) && s[k] != '.'
    ensures ParseUnsigned(s) == None
  {
    var i := DotIndex(s);
    if k < i {
      assert s[..i][k] == s[k];
    } else {
      assert s[i + 1..][k - i - 1] == s[k];
    }
  }
}
