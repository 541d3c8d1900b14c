/**
 * Numbers written as text, as the validation rules read and write them.
 *
 * A textual value is read as a decimal literal with an optional sign, an
 * optional fraction and an optional exponent (`342`, `-3.14`, `3.14e2`,
 * `342.15e-1`, `.5`, `5.`), and its value is the exact rational it denotes.
 * A number is written back as text only where that text is positional
 * digits: the integers of magnitude below 10^21.
 */
module Numbers {
  import opened Wrappers

  predicate IsDigit(c: char) {
    '0' <= c <= '9'
  }

  function DigitValue(c: char): (d: nat)
    requires IsDigit(c)
    ensures d < 10
  {
    (c as int) - ('0' as int)
  }

  function DigitChar(d: nat): (c: char)
    requires d < 10
    ensures IsDigit(c) && DigitValue(c) == d
  {
    (('0' as int) + d) as char
  }

  /** Every character is a decimal digit (vacuously true of the empty text). */
  predicate AllDigits(s: string) {
    forall i | 0 <= i < |s| :: IsDigit(s[i])
  }

  /** The natural number a run of digits denotes, most significant digit first. */
  function DigitsValue(s: string): nat
    requires AllDigits(s)
  {
    if |s| == 0 then 0 else 10 * DigitsValue(s[..|s| - 1]) + DigitValue(s[|s| - 1])
  }

  function Pow10(k: nat): (p: nat)
    ensures p >= 1
  {
    if k == 0 then 1 else 10 * Pow10(k - 1)
  }

  /** 10^k as an exact rational, for an exponent of either sign. */
  function Scale(k: int): (r: real)
    ensures r > 0.0
  {
    if k >= 0 then Pow10(k) as real else 1.0 / (Pow10(-k) as real)
  }

  /** The index of the first `a` or `b` in `s`, or `|s|` when there is none. */
  function FindEither(s: string, a: char, b: char): (i: nat)
    ensures i <= |s|
  {
    if |s| == 0 || s[0] == a || s[0] == b then 0 else 1 + FindEither(s[1..], a, b)
  }

  predicate IsSign(c: char) {
    c == '+' || c == '-'
  }

  /** The exponent after `e`/`E`: an optional sign and at least one digit. */
  function ParseExponent(s: string): Option<int> {
    if |s| > 0 && IsSign(s[0]) then
      if |s| > 1 && AllDigits(s[1..]) then
        var magnitude: int := DigitsValue(s[1..]);
        Some(if s[0] == '-' then -magnitude else magnitude)
      else None
    else if |s| > 0 && AllDigits(s) then Some(DigitsValue(s))
    else None
  }

  /** The digits of a mantissa read as one natural number, and how many of them follow the point. */
  datatype Mantissa = Mantissa(digits: nat, places: nat) {
    /** The number the mantissa denotes under exponent `k`: digits * 10^(k - places). */
    function Value(k: int): real {
      digits as real * Scale(k - places)
    }
  }

  /** Digits, an optional `.` and digits, not both runs empty. */
  function ParseMantissa(m: string): Option<Mantissa> {
    var dot := FindEither(m, '.', '.');
    var whole := m[..dot];
    var fraction := if dot < |m| then m[dot + 1..] else "";
    if AllDigits(whole) && AllDigits(fraction) && |whole| + |fraction| > 0 then
      Some(Mantissa(DigitsValue(whole + fraction), |fraction|))
    else None
  }

  /** An unsigned literal: a mantissa, then optionally `e` or `E` and an exponent. */
  function ParseUnsigned(s: string): Option<real> {
    var e := FindEither(s, 'e', 'E');
    match ParseMantissa(s[..e])
    case None => None
    case Some(m) =>
      match (if e < |s| then ParseExponent(s[e + 1..]) else Some(0))
      case None => None
      case Some(k) => Some(m.Value(k))
  }

  /** The exact value of a decimal literal, or None when the text is not one. */
  function ParseNumber(s: string): Option<real> {
    if |s| > 0 && IsSign(s[0]) then
      match ParseUnsigned(s[1..])
      case None => None
      case Some(x) => Some(if s[0] == '-' then -x else x)
    else ParseUnsigned(s)
  }

  /** The number has no fractional part. */
  predicate IsIntegral(x: real) {
    x.Floor as real == x
  }

  /** Decimal digits of a natural number, without leading zeros. */
  function NatText(n: nat): string {
    if n < 10 then [DigitChar(n)] else NatText(n / 10) + [DigitChar(n % 10)]
  }

  /** Decimal text of an integer, with a leading `-` when negative. */
  function IntText(n: int): string {
    if n < 0 then "-" + NatText(-n) else NatText(n)
  }

  /**
   * The text a number converts to, for the numbers printed positionally as
   * digits: the integers of magnitude below 10^21. Every other number's text
   * has a `.` or an exponent (`3.14`, `1e-7`, `1e+21`), and is not modelled.
   */
  function NumberText(x: real): Option<string> {
    if IsIntegral(x) && -(Pow10(21) as real) < x < Pow10(21) as real then Some(IntText(x.Floor))
    else None
  }

  /** The number n / 10^k, exactly. */
  function DecimalValue(n: int, k: nat): real {
    n as real / Pow10(k) as real
  }

  /** `k` zero digits. */
  function Zeros(k: nat): (z: string)
    ensures |z| == k && AllDigits(z)
  {
    seq(k, _ => '0')
  }

  /** The digits of `n`, with leading zeros so that there are more than `k` of them. */
  function Padded(n: nat, k: nat): (p: string)
    ensures |p| > k
  {
    var digits := NatText(n);
    if |digits| <= k then Zeros(k + 1 - |digits|) + digits else digits
  }

  /**
   * The positional text of n / 10^k with `k` places after the point (no
   * point when `k` is 0), padded with leading zeros so that a digit stands
   * before the point: `DecimalText(314, 2)` is `3.14`, `DecimalText(5, 3)`
   * is `0.005`.
   */
  function DecimalText(n: nat, k: nat): string {
    if k == 0 then NatText(n)
    else
      var padded := Padded(n, k);
      padded[..|padded| - k] + "." + padded[|padded| - k..]
  }

  /** The positional text of n / 10^k, with a leading `-` when n is negative. */
  function SignedDecimalText(n: int, k: nat): string {
    if n < 0 then "-" + DecimalText(-n, k) else DecimalText(n, k)
  }

  // ---------------------------------------------------------------------------
  // Digits and their values

  /** The decimal text of `n` is a non-empty run of digits denoting `n`. */
  lemma {:induction false} NatTextValue(n: nat)
    ensures |NatText(n)| > 0 && AllDigits(NatText(n)) && DigitsValue(NatText(n)) == n
  {
    if n >= 10 {
      NatTextValue(n / 10);
      var t := NatText(n / 10);
      var s := t + [DigitChar(n % 10)];
      assert s[..|s| - 1] == t;
      assert DigitsValue(s) == 10 * (n / 10) + n % 10;
    }
  }

  /** Powers of ten multiply by adding exponents. */
  lemma {:induction false} Pow10Add(a: nat, b: nat)
    ensures Pow10(a + b) == Pow10(a) * Pow10(b)
  {
    if b > 0 {
      Pow10Add(a, b - 1);
      assert Pow10(a + b) == 10 * Pow10(a + b - 1);
    }
  }

  /** One more digit multiplies what precedes it by ten. */
  lemma DigitsValueSnoc(s: string, c: char)
    requires AllDigits(s) && IsDigit(c)
    ensures AllDigits(s + [c])
    ensures DigitsValue(s + [c]) == 10 * DigitsValue(s) + DigitValue(c)
  {
    var t := s + [c];
    assert t[..|t| - 1] == s;
  }

  lemma ShiftLeft(x: int, y: int, p: int, d: int)
    ensures 10 * (x * p + y) + d == x * (10 * p) + (10 * y + d)
  {
  }

  /** Writing the digits of `b` after those of `a` shifts `a` left by `|b|` places. */
  lemma {:induction false} DigitsValueAppend(a: string, b: string)
    requires AllDigits(a) && AllDigits(b)
    ensures AllDigits(a + b)
    ensures DigitsValue(a + b) == DigitsValue(a) * Pow10(|b|) + DigitsValue(b)
  {
    if |b| == 0 {
      assert a + b == a;
    } else {
      var b', c := b[..|b| - 1], b[|b| - 1];
      assert b == b' + [c];
      DigitsValueAppend(a, b');
      assert a + b == (a + b') + [c];
      DigitsValueSnoc(a + b', c);
      DigitsValueSnoc(b', c);
      ShiftLeft(DigitsValue(a), DigitsValue(b'), Pow10(|b'|), DigitValue(c));
    }
  }

  /** A run of `k` digits denotes a number below 10^k. */
  lemma {:induction false} DigitsValueBound(s: string)
    requires AllDigits(s)
    ensures DigitsValue(s) < Pow10(|s|)
  {
    if |s| > 0 {
      DigitsValueBound(s[..|s| - 1]);
    }
  }

  // ---------------------------------------------------------------------------
  // The shapes of a literal

  /** FindEither finds the first `a` or `b`: one stands at the index returned, none before it. */
  lemma {:induction false} FindEitherFinds(s: string, a: char, b: char)
    ensures var i := FindEither(s, a, b);
      (i < |s| ==> s[i] == a || s[i] == b) && forall j | 0 <= j < i :: s[j] != a && s[j] != b
  {
    if |s| > 0 && s[0] != a && s[0] != b {
      FindEitherFinds(s[1..], a, b);
    }
  }

  /** Where neither character occurs, the search runs to the end. */
  lemma {:induction false} FindAbsent(s: string, a: char, b: char)
    requires forall i | 0 <= i < |s| :: s[i] != a && s[i] != b
    ensures FindEither(s, a, b) == |s|
  {
    if |s| > 0 {
      FindAbsent(s[1..], a, b);
    }
  }

  /** A search through a prefix free of both characters continues into what follows it. */
  lemma {:induction false} FindAppend(s: string, t: string, a: char, b: char)
    requires FindEither(s, a, b) == |s|
    ensures FindEither(s + t, a, b) == |s| + FindEither(t, a, b)
  {
    if |s| == 0 {
      assert s + t == t;
    } else {
      assert (s + t)[1..] == s[1..] + t;
      FindAppend(s[1..], t, a, b);
    }
  }

  /** Digits and points only: there is no exponent marker. */
  lemma NoExponentMarker(m: string)
    requires forall i | 0 <= i < |m| :: IsDigit(m[i]) || m[i] == '.'
    ensures FindEither(m, 'e', 'E') == |m|
  {
    FindAbsent(m, 'e', 'E');
  }

  /** A search for characters that are not digits runs through a run of digits. */
  lemma FindPastDigits(s: string, t: string, a: char, b: char)
    requires AllDigits(s) && !IsDigit(a) && !IsDigit(b)
    requires |t| == 0 || t[0] == a || t[0] == b
    ensures FindEither(s + t, a, b) == |s|
  {
    FindAbsent(s, a, b);
    FindAppend(s, t, a, b);
  }

  /** Digits alone form a mantissa with no places after the point. */
  lemma MantissaOfDigits(w: string)
    requires |w| > 0 && AllDigits(w)
    ensures ParseMantissa(w) == Some(Mantissa(DigitsValue(w), 0))
  {
    FindPastDigits(w, "", '.', '.');
    assert w + "" == w && w[..|w|] == w;
  }

  /** Digits, a point and digits: the fraction's digits continue the whole part's. */
  lemma MantissaOfFraction(w: string, f: string)
    requires AllDigits(w) && AllDigits(f) && |w| + |f| > 0
    ensures ParseMantissa(w + "." + f) == Some(Mantissa(DigitsValue(w + f), |f|))
  {
    var m := w + "." + f;
    FindPastDigits(w, "." + f, '.', '.');
    assert w + ("." + f) == m;
    assert m[..|w|] == w && m[|w| + 1..] == f;
  }

  /** Without an exponent the mantissa is scaled down by its places. */
  lemma ParseWithoutExponent(m: string, n: Mantissa)
    requires FindEither(m, 'e', 'E') == |m|
    requires ParseMantissa(m) == Some(n)
    ensures ParseUnsigned(m) == Some(n.Value(0))
  {
    assert m[..|m|] == m;
  }

  /** An `e` or `E` at `e` splits a literal into a mantissa and an exponent. */
  lemma ParseAtMarker(s: string, e: nat, n: Mantissa, k: int)
    requires FindEither(s, 'e', 'E') == e < |s|
    requires ParseMantissa(s[..e]) == Some(n) && ParseExponent(s[e + 1..]) == Some(k)
    ensures ParseUnsigned(s) == Some(n.Value(k))
  {
  }

  /** The marker after a mantissa without one is the first marker, and it separates the mantissa from the exponent. */
  lemma MarkerSplits(m: string, x: string)
    requires FindEither(m, 'e', 'E') == |m|
    ensures var s := m + "e" + x;
            FindEither(s, 'e', 'E') == |m| < |s| && s[..|m|] == m && s[|m| + 1..] == x
  {
    var s := m + "e" + x;
    assert s == m + ("e" + x);
    FindAppend(m, "e" + x, 'e', 'E');
    assert s[..|m|] == m;
    assert s[|m| + 1..] == x;
  }

  /** With an exponent the mantissa is scaled by 10 to the exponent, less its places. */
  lemma ParseWithExponent(m: string, x: string, n: Mantissa, k: int)
    requires FindEither(m, 'e', 'E') == |m|
    requires ParseMantissa(m) == Some(n) && ParseExponent(x) == Some(k)
    ensures ParseUnsigned(m + "e" + x) == Some(n.Value(k))
  {
    MarkerSplits(m, x);
    ParseAtMarker(m + "e" + x, |m|, n, k);
  }

  /** A mantissa with no places after the point denotes its digits under exponent 0. */
  lemma WholeValue(d: nat)
    ensures Mantissa(d, 0).Value(0) == d as real
  {
  }

  /** A literal that does not start with a sign is read unsigned. */
  lemma ParseUnsignedLiteral(s: string)
    requires |s| > 0 ==> !IsSign(s[0])
    ensures ParseNumber(s) == ParseUnsigned(s)
  {
  }

  /** Digits alone: the literal denotes the natural number they spell. */
  lemma ParseDigits(w: string)
    requires |w| > 0 && AllDigits(w)
    ensures ParseUnsigned(w) == Some(DigitsValue(w) as real)
    ensures ParseNumber(w) == Some(DigitsValue(w) as real)
  {
    var n := Mantissa(DigitsValue(w), 0);
    NoExponentMarker(w);
    MantissaOfDigits(w);
    ParseWithoutExponent(w, n);
    WholeValue(DigitsValue(w));
    assert IsDigit(w[0]);
    ParseUnsignedLiteral(w);
  }

  /** Digits, a point and digits, as a literal. */
  lemma ParseFraction(w: string, f: string)
    requires AllDigits(w) && AllDigits(f) && |w| + |f| > 0
    ensures ParseNumber(w + "." + f) == Some(Mantissa(DigitsValue(w + f), |f|).Value(0))
  {
    var m := w + "." + f;
    assert forall i | 0 <= i < |m| :: (i < |w| ==> m[i] == w[i]) && (i > |w| ==> m[i] == f[i - |w| - 1]);
    NoExponentMarker(m);
    MantissaOfFraction(w, f);
    ParseWithoutExponent(m, Mantissa(DigitsValue(w + f), |f|));
    assert |w| == 0 ==> m[0] == '.';
    assert |w| > 0 ==> IsDigit(m[0]);
    ParseUnsignedLiteral(m);
  }

  /** Digits, a point, digits, `e` and an exponent, as a literal. */
  lemma ParseScientific(w: string, f: string, x: string, k: int)
    requires AllDigits(w) && AllDigits(f) && |w| + |f| > 0
    requires ParseExponent(x) == Some(k)
    ensures ParseNumber(w + "." + f + "e" + x) == Some(Mantissa(DigitsValue(w + f), |f|).Value(k))
  {
    var m := w + "." + f;
    assert forall i | 0 <= i < |m| :: (i < |w| ==> m[i] == w[i]) && (i > |w| ==> m[i] == f[i - |w| - 1]);
    NoExponentMarker(m);
    MantissaOfFraction(w, f);
    ParseWithExponent(m, x, Mantissa(DigitsValue(w + f), |f|), k);
    var s := m + "e" + x;
    assert |w| == 0 ==> s[0] == '.';
    assert |w| > 0 ==> s[0] == w[0] && IsDigit(s[0]);
    ParseUnsignedLiteral(s);
  }

  // ---------------------------------------------------------------------------
  // Properties of the parser

  /** The decimal text of every integer reads back as that integer. */
  lemma IntTextRoundTrip(n: int)
    ensures ParseNumber(IntText(n)) == Some(n as real)
  {
    if n < 0 {
      var t := NatText(-n);
      NatTextValue(-n);
      ParseDigits(t);
      assert IntText(n)[1..] == t;
    } else {
      NatTextValue(n);
      ParseDigits(NatText(n));
    }
  }

  /** Where a number is written as digits, reading that text back gives the same number. */
  lemma NumberTextRoundTrip(x: real)
    ensures NumberText(x).Some? ==> ParseNumber(NumberText(x).value) == Some(x)
  {
    if NumberText(x).Some? {
      IntTextRoundTrip(x.Floor);
    }
  }

  /** A whole part plus a proper fraction of it lies strictly between two integers. */
  lemma ProperFraction(d: nat, whole: nat, part: nat, p: nat)
    requires d == whole * p + part && 0 < part < p
    ensures !IsIntegral(d as real * (1.0 / p as real))
  {
    var v := d as real * (1.0 / p as real);
    assert v == whole as real + part as real / p as real;
    assert 0.0 < part as real / p as real < 1.0;
    assert v.Floor == whole;
  }

  /** Under exponent 0 a mantissa with places is its digits divided by 10^places. */
  lemma FractionalValue(d: nat, places: nat)
    requires places != 0
    ensures Mantissa(d, places).Value(0) == d as real * (1.0 / Pow10(places) as real)
  {
    assert Scale(0 - places) == 1.0 / Pow10(places) as real;
  }

  /** A mantissa whose places hold a non-zero proper fraction does not denote an integer. */
  lemma FractionMantissa(d: nat, whole: nat, part: nat, places: nat)
    requires d == whole * Pow10(places) + part && 0 < part < Pow10(places)
    ensures !IsIntegral(Mantissa(d, places).Value(0))
  {
    var p := Pow10(places);
    assert Mantissa(d, places).Value(0) == d as real * (1.0 / p as real) by {
      assert places != 0;
      FractionalValue(d, places);
    }
    assert !IsIntegral(d as real * (1.0 / p as real)) by {
      ProperFraction(d, whole, part, p);
    }
  }

  /** A literal with a non-zero fraction and no exponent never denotes an integer. */
  lemma FractionNotIntegral(w: string, f: string)
    requires AllDigits(w) && AllDigits(f) && DigitsValue(f) > 0
    ensures ParseNumber(w + "." + f).Some?
    ensures !IsIntegral(ParseNumber(w + "." + f).value)
  {
    ParseFraction(w, f);
    DigitsValueAppend(w, f);
    DigitsValueBound(f);
    FractionMantissa(DigitsValue(w + f), DigitsValue(w), DigitsValue(f), |f|);
  }

  // ---------------------------------------------------------------------------
  // Terminating decimals

  /** Leading zeros add nothing to the value of a run of digits. */
  lemma {:induction false} ZerosValue(k: nat)
    ensures DigitsValue(Zeros(k)) == 0
  {
    if k > 0 {
      assert Zeros(k)[..k - 1] == Zeros(k - 1);
      ZerosValue(k - 1);
    }
  }

  /** Padding with zeros keeps the value and leaves more than `k` digits. */
  lemma PaddedValue(n: nat, k: nat)
    ensures AllDigits(Padded(n, k)) && DigitsValue(Padded(n, k)) == n
  {
    var digits := NatText(n);
    NatTextValue(n);
    if |digits| <= k {
      var z := Zeros(k + 1 - |digits|);
      assert Padded(n, k) == z + digits;
      ZerosValue(k + 1 - |digits|);
      DigitsValueAppend(z, digits);
    } else {
      assert Padded(n, k) == digits;
    }
  }

  /** The digits of `DecimalText(n, k)` around its point: a whole part and exactly `k` places that together spell `n`. */
  lemma DecimalTextParts(n: nat, k: nat) returns (w: string, f: string)
    requires k > 0
    ensures DecimalText(n, k) == w + "." + f
    ensures AllDigits(w) && AllDigits(f) && |w| > 0 && |f| == k
    ensures DigitsValue(w + f) == n
  {
    var padded := Padded(n, k);
    PaddedValue(n, k);
    w, f := padded[..|padded| - k], padded[|padded| - k..];
    assert w + f == padded;
  }

  /** A mantissa of `k` places under exponent 0 is its digits over 10^k. */
  lemma PlacesValue(m: nat, k: nat)
    ensures Mantissa(m, k).Value(0) == DecimalValue(m, k)
  {
    if k > 0 {
      FractionalValue(m, k);
    }
  }

  /** Without a sign, the positional text of m / 10^k starts with a digit and reads back as m / 10^k. */
  lemma UnsignedDecimalRoundTrip(m: nat, k: nat)
    ensures |DecimalText(m, k)| > 0 && IsDigit(DecimalText(m, k)[0])
    ensures ParseNumber(DecimalText(m, k)) == Some(DecimalValue(m, k))
  {
    PlacesValue(m, k);
    if k == 0 {
      NatTextValue(m);
      ParseDigits(NatText(m));
    } else {
      var w, f := DecimalTextParts(m, k);
      assert (w + "." + f)[0] == w[0];
      ParseFraction(w, f);
    }
  }

  /** A leading `-` negates what an unsigned literal reads as. */
  lemma ParseNegative(t: string, x: real)
    requires |t| > 0 && !IsSign(t[0]) && ParseNumber(t) == Some(x)
    ensures ParseNumber("-" + t) == Some(-x)
  {
    ParseUnsignedLiteral(t);
    assert ("-" + t)[1..] == t;
  }

  /** Negating the numerator negates the decimal. */
  lemma NegatedDecimal(n: int, k: nat)
    ensures -DecimalValue(-n, k) == DecimalValue(n, k)
  {
  }

  /** The positional text of n / 10^k reads back as n / 10^k. */
  lemma DecimalTextRoundTrip(n: int, k: nat)
    ensures ParseNumber(SignedDecimalText(n, k)) == Some(DecimalValue(n, k))
  {
    if n < 0 {
      var m: nat := -n;
      var x := DecimalValue(m, k);
      assert -x == DecimalValue(n, k) by {
        NegatedDecimal(n, k);
      }
      assert ParseNumber("-" + DecimalText(m, k)) == Some(-x) by {
        UnsignedDecimalRoundTrip(m, k);
        ParseNegative(DecimalText(m, k), x);
      }
      assert SignedDecimalText(n, k) == "-" + DecimalText(m, k);
    } else {
      UnsignedDecimalRoundTrip(n, k);
    }
  }

  /** Dividing q * p + r by p gives q and r / p. */
  lemma QuotientSplit(n: int, q: int, r: int, p: int)
    requires p > 0 && n == q * p + r
    ensures n as real / p as real == q as real + r as real / p as real
  {
    assert n as real == q as real * p as real + r as real;
  }

  /** A whole number plus a proper fraction has that whole number as its floor, and is not whole. */
  lemma WholePlusFraction(q: int, r: int, p: int)
    requires 0 < r < p
    ensures !IsIntegral(q as real + r as real / p as real)
  {
    var x := r as real / p as real;
    assert 0.0 < x < 1.0;
    assert (q as real + x).Floor == q;
  }

  /** n / 10^k is a whole number exactly when 10^k divides n. */
  lemma DecimalIntegral(n: int, k: nat)
    ensures IsIntegral(DecimalValue(n, k)) <==> n % Pow10(k) == 0
  {
    var p := Pow10(k);
    var q, r := n / p, n % p;
    QuotientSplit(n, q, r, p);
    if r == 0 {
      assert DecimalValue(n, k) == q as real;
    } else {
      WholePlusFraction(q, r, p);
    }
  }
}
