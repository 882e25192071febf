/** Score coercion: `clean_numeric` and the part of Python's `float(str)` it relies on. */
module Numeric {
  import opened Wrappers
  import opened Text
  import opened Decimal

  /** A score cell as pandas hands it over: missing (NaN/None), already a number,
      or a string (in a column pandas could not read as numbers). */
  datatype Cell = Blank | Float(x: real) | Str(s: string)

  /** End of the longest `digitpart` that starts at position `i` of `s`: digits, where
      a single underscore may stand between two digits. It is `i` when no digit starts there. */
  function DigitPartEnd(s: string, i: nat): (j: nat)
    requires i <= |s|
    ensures i <= j <= |s|
    ensures j == i <==> i == |s| || !IsDigit(s[i])
    decreases |s| - i
  {
    if i < |s| && IsDigit(s[i]) then
      if i + 2 < |s| && s[i + 1] == '_' && IsDigit(s[i + 2]) then DigitPartEnd(s, i + 2)
      else DigitPartEnd(s, i + 1)
    else i
  }

  /** The number the digits of `s[i..j]` denote, underscores skipped. */
  function DigitsValue(s: string, i: nat, j: nat): nat
    requires i <= j <= |s|
    decreases j
  {
    if j == i then 0
    else if IsDigit(s[j - 1]) then DigitsValue(s, i, j - 1) * 10 + (s[j - 1] as int - '0' as int)
    else DigitsValue(s, i, j - 1)
  }

  /** How many digits `s[i..j]` holds. */
  function DigitCount(s: string, i: nat, j: nat): nat
    requires i <= j <= |s|
    decreases j
  {
    if j == i then 0 else DigitCount(s, i, j - 1) + (if IsDigit(s[j - 1]) then 1 else 0)
  }

  function Scale(m: real, e: int): real {
    if e >= 0 then m * Pow10(e) as real else m / Pow10(-e) as real
  }

  /** Python's unsigned `floatnumber`, read from position `p` of `t` to its end: a
      `digitpart`, optionally followed by `.` and a second `digitpart` (at least one of
      the two present), then optionally `e` or `E`, an optional sign and a `digitpart`.
      The words `nan`, `inf` and `infinity`, which `float` also accepts, hold no digit
      and so give `None` here: they are not finite scores. */
  function ParseNumber(t: string, p: nat): Option<real>
    requires p <= |t|
  {
    var a := DigitPartEnd(t, p);
    var f := if a < |t| && t[a] == '.' then a + 1 else a;
    var b := if f == a then a else DigitPartEnd(t, f);
    var mantissa := DigitsValue(t, p, a) as real + DigitsValue(t, f, b) as real / Pow10(DigitCount(t, f, b)) as real;
    if a == p && b == f then None
    else if b == |t| then Some(mantissa)
    else if t[b] != 'e' && t[b] != 'E' then None
    else
      var q := if b + 1 < |t| && (t[b + 1] == '+' || t[b + 1] == '-') then b + 2 else b + 1;
      var c := DigitPartEnd(t, q);
      if c == q || c < |t| then None
      else Some(Scale(mantissa, if t[q - 1] == '-' then -(DigitsValue(t, q, c) as int) else DigitsValue(t, q, c)))
  }

  /** An optionally signed `floatnumber`, already stripped. */
  function ParseSigned(t: string): Option<real> {
    var p := if |t| > 0 && (t[0] == '+' || t[0] == '-') then 1 else 0;
    match ParseNumber(t, p)
    case None => None
    case Some(v) => Some(if p == 1 && t[0] == '-' then -v else v)
  }

  /** `float(s)` on decimal numerals, read exactly; `None` where it raises
      `ValueError` or reads a NaN or infinity literal. Numerals beyond the double
      range keep their exact value. Surrounding whitespace is ignored, and text
      without a single digit (`nan`, `inf`, `N/A`, `-`, …) is never a number. */
  function ParseFloat(s: string): (r: Option<real>)
    ensures NoDigit(s) ==> r == None
  {
    var t := Strip(s);
    assert NoDigit(s) ==> NoDigit(t);
    NumberNeedsDigit(t, if |t| > 0 && (t[0] == '+' || t[0] == '-') then 1 else 0);
    ParseSigned(t)
  }

  /** `clean_numeric`: never fails; missing values, `''`, `'nan'` and text that is
      not a number become absent, everything else its numeric value. */
  function CleanNumeric(c: Cell): (r: Option<real>)
    ensures c.Blank? ==> r == None
    ensures c.Float? ==> r == Some(c.x)
    ensures c.Str? && (c.s == "" || c.s == "nan") ==> r == None
  {
    match c
    case Blank => None
    case Float(x) => Some(x)
    case Str(s) => if s == "" || s == "nan" then None else ParseFloat(s)
  }

  // ---------------------------------------------------------------- properties

  /** How an integer is written in a CSV cell: an optional minus sign and its digits. */
  function IntText(n: int): (s: string)
    ensures s != [] && !IsSpace(s[0]) && !IsSpace(s[|s| - 1])
  {
    if n < 0 then "-" + Render(-n) else Render(n)
  }

  /** A `digitpart` over the digits from `i` to `j` ends at `j` when nothing
      follows them or what follows is neither a digit nor an underscore. */
  lemma {:induction false} DigitPartEndOfRun(s: string, i: nat, j: nat)
    requires i <= j <= |s| && forall k :: i <= k < j ==> IsDigit(s[k])
    requires j == |s| || (!IsDigit(s[j]) && s[j] != '_')
    ensures DigitPartEnd(s, i) == j
    decreases j - i
  {
    if i < j {
      DigitPartEndOfRun(s, i + 1, j);
    }
  }

  /** Over digits only, every character is counted. */
  lemma {:induction false} DigitCountOfDigits(s: string, i: nat, j: nat)
    requires i <= j <= |s| && forall k :: i <= k < j ==> IsDigit(s[k])
    ensures DigitCount(s, i, j) == j - i
    decreases j
  {
    if j > i {
      DigitCountOfDigits(s, i, j - 1);
    }
  }

  /** Over digits only, the scanned value is the decimal value of the digits. */
  lemma {:induction false} DigitsValueOfDigits(s: string, i: nat, j: nat)
    requires i <= j <= |s| && forall k :: i <= k < j ==> IsDigit(s[k])
    ensures AllDigits(s[i..j]) && DigitsValue(s, i, j) == Value(s[i..j])
    decreases j
  {
    if j > i {
      assert s[i..j][..j - i - 1] == s[i..j - 1];
      DigitsValueOfDigits(s, i, j - 1);
    }
  }

  /** A run of digits from `p` to the end is read as its decimal value. */
  lemma ParseDigitsFrom(t: string, p: nat)
    requires p < |t| && forall k :: p <= k < |t| ==> IsDigit(t[k])
    ensures AllDigits(t[p..]) && ParseNumber(t, p) == Some(Value(t[p..]) as real)
  {
    DigitPartEndOfRun(t, p, |t|);
    DigitsValueOfDigits(t, p, |t|);
    assert t[p..|t|] == t[p..];
  }

  lemma ParseNegativeText(n: int)
    requires n < 0
    ensures ParseSigned(IntText(n)) == Some(n as real)
  {
    var t := IntText(n);
    assert t[1..] == Render(-n);
    ParseDigitsFrom(t, 1);
    ValueOfRender(-n);
  }

  lemma ParseNonNegativeText(n: int)
    requires n >= 0
    ensures ParseSigned(IntText(n)) == Some(n as real)
  {
    var t := IntText(n);
    assert IsDigit(t[0]) && t[0..] == t;
    ParseDigitsFrom(t, 0);
    ValueOfRender(n);
  }

  /** The text of an integer, signed or not, is read back as that integer. */
  lemma ParseIntText(n: int)
    ensures ParseSigned(IntText(n)) == Some(n as real)
  {
    if n < 0 {
      ParseNegativeText(n);
    } else {
      ParseNonNegativeText(n);
    }
  }

  /** A cell holding an integer, padded with any whitespace, is cleaned to that integer. */
  lemma CleanIntegerText(before: string, n: int, after: string)
    requires AllSpace(before) && AllSpace(after)
    ensures CleanNumeric(Str(before + IntText(n) + after)) == Some(n as real)
  {
    var x := IntText(n);
    var s := before + x + after;
    assert s[|before|] == x[0];
    assert x[0] == '-' || IsDigit(x[0]);
    assert s != "" && s != "nan";
    StripAround(before, x, after);
    ParseIntText(n);
  }

  predicate NoDigit(s: string) {
    forall i :: 0 <= i < |s| ==> !IsDigit(s[i])
  }

  /** A number needs a digit in its mantissa. */
  lemma NumberNeedsDigit(t: string, p: nat)
    requires p <= |t|
    ensures NoDigit(t) ==> ParseNumber(t, p) == None
  {
    if NoDigit(t) {
      assert DigitPartEnd(t, p) == p;
      if p < |t| && t[p] == '.' {
        assert DigitPartEnd(t, p + 1) == p + 1;
      }
    }
  }

  /** Text without a single digit is cleaned to absent. */
  lemma CleanNonNumeric(s: string)
    requires NoDigit(s)
    ensures CleanNumeric(Str(s)) == None
  {
  }

  /** The explicit `''` and `'nan'` tests of `clean_numeric` agree with what
      `float` does with those strings: a text cell is absent exactly when it is not
      a finite number. */
  lemma CleanTextIsParse(s: string)
    ensures CleanNumeric(Str(s)) == ParseFloat(s)
  {
  }

  /** Digits from `p`, a point at `n` and digits after it to the end are read as
      the integer part plus the fraction part over a power of ten. */
  lemma NumberWithPoint(t: string, p: nat, n: nat)
    requires p < n < |t| && t[n] == '.'
    requires forall k :: p <= k < |t| && k != n ==> IsDigit(t[k])
    ensures ParseNumber(t, p) ==
      Some(DigitsValue(t, p, n) as real + DigitsValue(t, n + 1, |t|) as real / Pow10(|t| - n - 1) as real)
  {
    DigitPartEndOfRun(t, p, n);
    DigitPartEndOfRun(t, n + 1, |t|);
    DigitCountOfDigits(t, n + 1, |t|);
  }

  /** The decimal number written `whole.frac`, `frac` having `e` digits. */
  function Fraction(whole: nat, frac: nat, e: nat): real {
    whole as real + frac as real / Pow10(e) as real
  }

  /** An unsigned text of digits with a point at `n` is read as its integer part
      plus its fraction part over a power of ten. */
  lemma SignedWithPoint(t: string, n: nat, whole: nat, frac: nat, e: nat)
    requires 0 < n < |t| && t[n] == '.'
    requires forall k :: 0 <= k < |t| && k != n ==> IsDigit(t[k])
    requires whole == DigitsValue(t, 0, n) && frac == DigitsValue(t, n + 1, |t|) && e == |t| - n - 1
    ensures ParseSigned(t) == Some(Fraction(whole, frac, e))
  {
    NumberWithPoint(t, 0, n);
  }

  /** The shape of `a + "." + b`: digits around a single point, each run worth
      its own value. */
  lemma PointedDigits(a: string, b: string)
    requires AllDigits(a) && AllDigits(b)
    ensures var t := a + "." + b;
      && |t| == |a| + |b| + 1 && t[|a|] == '.'
      && (forall k :: 0 <= k < |t| && k != |a| ==> IsDigit(t[k]))
      && DigitsValue(t, 0, |a|) == Value(a)
      && DigitsValue(t, |a| + 1, |t|) == Value(b)
  {
    var t := a + "." + b;
    var n := |a|;
    assert t[0..n] == a && t[n] == '.' && t[n + 1..|t|] == b;
    forall k | 0 <= k < |t| && k != n ensures IsDigit(t[k]) {
      if k < n {
        assert t[k] == a[k];
      } else {
        assert t[k] == b[k - n - 1];
      }
    }
    DigitsValueOfDigits(t, 0, n);
    DigitsValueOfDigits(t, n + 1, |t|);
  }

  /** Digits, a point and (possibly no) further digits are read as the exact
      decimal fraction they denote. */
  lemma ParseDecimalText(a: string, b: string)
    requires a != [] && AllDigits(a) && AllDigits(b)
    ensures ParseSigned(a + "." + b) == Some(Fraction(Value(a), Value(b), |b|))
  {
    PointedDigits(a, b);
    SignedWithPoint(a + "." + b, |a|, Value(a), Value(b), |b|);
  }

  /** A cell holding a decimal fraction, padded with any whitespace, is cleaned
      to the exact value of the fraction (`" 4.25 "` to 4.25, `"3."` to 3). */
  lemma CleanDecimalFraction(before: string, a: string, b: string, after: string)
    requires AllSpace(before) && AllSpace(after)
    requires a != [] && AllDigits(a) && AllDigits(b)
    ensures CleanNumeric(Str(before + a + "." + b + after))
      == Some(Fraction(Value(a), Value(b), |b|))
  {
    var x := a + "." + b;
    var s := before + x + after;
    assert before + a + "." + b + after == s;
    assert s[|before|] == x[0] == a[0];
    assert IsDigit(x[0]);
    assert s != "" && s != "nan";
    assert x[|x| - 1] == '.' || IsDigit(x[|x| - 1]);
    StripAround(before, x, after);
    ParseDecimalText(a, b);
  }
}
