/**
 * The rows of the validation test tables, each stated for every
 * description: the validator reports the expected outcome and the
 * description it was configured with. Every rule is configured with kind
 * `IsInteger`, as the tables do; the variant alone picks the check.
 */
module ValidationVectors {
  import opened Wrappers
  import opened Numbers
  import opened Validations

  /** The name the comparison tables give their target. */
  const TargetName := "comparisonTarget"

  function Config(description: string): ValidationConfig {
    ValidationConfig(IsInteger, description)
  }

  /** One run of an integer rule whose resolver returns `x`. */
  function RunInteger(description: string, x: Value): ValidationState {
    GetValidator(IntegerValidation(Config(description), () => x))()
  }

  /** One run of the `^[0-9]+$` rule whose resolver returns `x`. */
  function RunRegex(description: string, x: Value): ValidationState {
    GetValidator(RegexValidation(Config(description), DigitsOnly, () => x))()
  }

  /** One run of a `<=` rule whose resolvers return `x` and, for the target, `y`. */
  function RunAtMost(description: string, x: Value, y: Value): ValidationState {
    GetValidator(LessThanOrEqualsValidation(Config(description), TargetName, () => x, _ => y))()
  }

  /** One run of a `>=` rule whose resolvers return `x` and, for the target, `y`. */
  function RunAtLeast(description: string, x: Value, y: Value): ValidationState {
    GetValidator(GreaterThanOrEqualsValidation(Config(description), TargetName, () => x, _ => y))()
  }

  // ---------------------------------------------------------------------------
  // The literals of the tables, read as numbers

  /** Reads the decimal text of `n`. */
  lemma ReadsAs(s: string, n: nat)
    requires NatText(n) == s
    ensures ParseNumber(s) == Some(n as real)
  {
    NatTextValue(n);
    ParseDigits(s);
  }

  /** Reads a literal `w.f` whose digits `w + f` spell `n`. */
  lemma ReadsAsFraction(s: string, w: string, f: string, n: nat, v: real)
    requires s == w + "." + f && NatText(n) == w + f
    requires AllDigits(w) && AllDigits(f) && |w| + |f| > 0
    requires Mantissa(n, |f|).Value(0) == v
    ensures ParseNumber(s) == Some(v)
  {
    NatTextValue(n);
    ParseFraction(w, f);
  }

  /** Reads a literal `w.fex` whose digits `w + f` spell `n` and whose exponent `x` reads as `k`. */
  lemma ReadsAsScientific(s: string, w: string, f: string, x: string, k: int, n: nat, v: real)
    requires s == w + "." + f + "e" + x && NatText(n) == w + f
    requires AllDigits(w) && AllDigits(f) && |w| + |f| > 0
    requires ParseExponent(x) == Some(k)
    requires Mantissa(n, |f|).Value(k) == v
    ensures ParseNumber(s) == Some(v)
  {
    NatTextValue(n);
    ParseScientific(w, f, x, k);
  }

  /** The decimal text of `n` is a run of digits that denotes `n`. */
  lemma Spelled(s: string, n: nat)
    requires NatText(n) == s
    ensures |s| > 0 && AllDigits(s) && DigitsValue(s) == n
  {
    NatTextValue(n);
  }

  /** Three runs of digits that denote `l`, `m` and `n`, joined, denote `l` shifted past the other two, and so on. */
  lemma DigitsJoined(a: string, b: string, c: string, l: nat, m: nat, n: nat)
    requires AllDigits(a) && DigitsValue(a) == l
    requires AllDigits(b) && DigitsValue(b) == m
    requires AllDigits(c) && DigitsValue(c) == n
    ensures AllDigits(a + b + c)
    ensures DigitsValue(a + b + c) == (l * Pow10(|b|) + m) * Pow10(|c|) + n
  {
    DigitsValueAppend(a, b);
    DigitsValueAppend(a + b, c);
  }

  /** Reads a run of digits `a + b + c`, where the three parts denote `l`, `m` and `n`. */
  lemma ReadsAsJoined(s: string, a: string, b: string, c: string, l: nat, m: nat, n: nat, x: nat)
    requires s == a + b + c && |c| > 0
    requires AllDigits(a) && DigitsValue(a) == l
    requires AllDigits(b) && DigitsValue(b) == m
    requires AllDigits(c) && DigitsValue(c) == n
    requires x == (l * Pow10(|b|) + m) * Pow10(|c|) + n
    ensures ParseNumber(s) == Some(x as real)
  {
    DigitsJoined(a, b, c, l, m, n);
    ParseDigits(s);
  }

  /** The exponents `2` and `-1`. */
  lemma ReadExponents()
    ensures ParseExponent("2") == Some(2) && ParseExponent("-1") == Some(-1)
  {
    NatTextValue(2);
    NatTextValue(1);
    assert NatText(2) == "2" && NatText(1) == "1";
    assert "-1"[1..] == "1";
  }

  /** The three four-digit parts of 342520596781. */
  lemma Parts342520596781()
    ensures AllDigits("3425") && DigitsValue("3425") == 3425
    ensures AllDigits("2059") && DigitsValue("2059") == 2059
    ensures AllDigits("6781") && DigitsValue("6781") == 6781
  {
    Spelled("3425", 3425);
    Spelled("2059", 2059);
    Spelled("6781", 6781);
  }

  lemma Read342520596781()
    ensures ParseNumber("342520596781") == Some(342520596781.0)
  {
    Parts342520596781();
    assert Pow10(4) == 10000;
    ReadsAsJoined("342520596781", "3425", "2059", "6781", 3425, 2059, 6781, 342520596781);
  }

  lemma Read42()
    ensures ParseNumber("42") == Some(42.0)
  {
    ReadsAs("42", 42);
  }

  lemma Read342()
    ensures ParseNumber("342") == Some(342.0)
  {
    ReadsAs("342", 342);
  }

  lemma Read314e2()
    ensures ParseNumber("3.14e2") == Some(314.0)
  {
    ReadExponents();
    ReadsAsScientific("3.14e2", "3", "14", "2", 2, 314, 314.0);
  }

  lemma Read314()
    ensures ParseNumber("3.14") == Some(3.14)
  {
    assert Mantissa(314, 2).Value(0) == 3.14;
    ReadsAsFraction("3.14", "3", "14", 314, 3.14);
  }

  lemma Read34215()
    ensures ParseNumber("342.15") == Some(342.15)
  {
    ReadsAsFraction("342.15", "342", "15", 34215, 342.15);
  }

  lemma Read34215eMinus1()
    ensures ParseNumber("342.15e-1") == Some(34.215)
  {
    ReadExponents();
    ReadsAsScientific("342.15e-1", "342", "15", "-1", -1, 34215, 34.215);
  }

  lemma Read4215eMinus1()
    ensures ParseNumber("42.15e-1") == Some(4.215)
  {
    ReadExponents();
    ReadsAsScientific("42.15e-1", "42", "15", "-1", -1, 4215, 4.215);
  }

  // ---------------------------------------------------------------------------
  // Rows, for any values: what each rule reports once its operands are read

  lemma IntegerRow(d: string, x: Value, expected: bool)
    requires IsIntegerValue(x) == expected
    ensures RunInteger(d, x) == ValidationState(expected, d)
  {
  }

  lemma RegexRow(d: string, x: Value, expected: bool)
    requires MatchesPattern(DigitsOnly, x) == expected
    ensures RunRegex(d, x) == ValidationState(expected, d)
  {
  }

  /** Operands not both text that read as `x` and `y` compare as those numbers. */
  lemma NumericRow(d: string, a: Value, b: Value, x: real, y: real)
    requires !BothText(a, b) && NumericValue(a) == Some(x) && NumericValue(b) == Some(y)
    ensures RunAtMost(d, a, b) == ValidationState(x <= y, d)
    ensures RunAtLeast(d, a, b) == ValidationState(x >= y, d)
  {
  }

  /** Two texts compare as text. */
  lemma TextRow(d: string, s: string, t: string)
    ensures RunAtMost(d, Str(s), Str(t)) == ValidationState(TextOrder.LessOrEqual(s, t), d)
    ensures RunAtLeast(d, Str(s), Str(t)) == ValidationState(TextOrder.LessOrEqual(t, s), d)
  {
  }

  /** An absent operand on either side fails both comparisons. */
  lemma MissingRow(d: string, a: Value, b: Value)
    requires a.Missing? || b.Missing?
    ensures RunAtMost(d, a, b) == ValidationState(false, d)
    ensures RunAtLeast(d, a, b) == ValidationState(false, d)
  {
  }

  // ---------------------------------------------------------------------------
  // IntegerValidation

  lemma IntegerLongDigitText(d: string)
    ensures RunInteger(d, Str("342520596781")) == ValidationState(true, d)
  {
    Read342520596781();
    IntegerRow(d, Str("342520596781"), true);
  }

  lemma IntegerLongDigitNumber(d: string)
    ensures RunInteger(d, Num(342520596781.0)) == ValidationState(true, d)
  {
    IntegerRow(d, Num(342520596781.0), true);
  }

  lemma IntegerFractionText(d: string)
    ensures RunInteger(d, Str("3.14")) == ValidationState(false, d)
  {
    Read314();
    IntegerRow(d, Str("3.14"), false);
  }

  lemma IntegerFractionNumber(d: string)
    ensures RunInteger(d, Num(3.14)) == ValidationState(false, d)
  {
    IntegerRow(d, Num(3.14), false);
  }

  /** The number 3.14 and its text "3.14" are the same decimal, 314 / 10^2, and both fail. */
  lemma IntegerFractionBothWays(d: string)
    ensures SignedDecimalText(314, 2) == "3.14" && DecimalValue(314, 2) == 3.14
    ensures RunInteger(d, Num(3.14)) == RunInteger(d, Str("3.14")) == ValidationState(false, d)
  {
    Decimal314();
    DecimalRuleIgnoresRepresentation(314, 2);
    IntegerRow(d, Num(3.14), false);
  }

  /** 314 / 10^2 is 3.14, written "3.14". */
  lemma Decimal314()
    ensures SignedDecimalText(314, 2) == "3.14" && DecimalValue(314, 2) == 3.14
  {
    assert Padded(314, 2) == "314" by {
      assert NatText(314) == "314";
    }
    assert Pow10(2) == 100;
  }

  lemma IntegerScientificText(d: string)
    ensures RunInteger(d, Str("3.14e2")) == ValidationState(true, d)
  {
    Read314e2();
    IntegerRow(d, Str("3.14e2"), true);
  }

  /** The number literal 3.14e2 is 314. */
  lemma IntegerScientificNumber(d: string)
    ensures RunInteger(d, Num(314.0)) == ValidationState(true, d)
  {
    IntegerRow(d, Num(314.0), true);
  }

  /** undefined, and NaN, which resolves to the same absent value. */
  lemma IntegerMissing(d: string)
    ensures RunInteger(d, Missing) == ValidationState(false, d)
  {
    IntegerRow(d, Missing, false);
  }

  // ---------------------------------------------------------------------------
  // RegexValidation with ^[0-9]+$

  lemma RegexLongDigitText(d: string)
    ensures RunRegex(d, Str("3425205616179816")) == ValidationState(true, d)
  {
    assert DigitsOnlyText("3425205616179816");
    RegexRow(d, Str("3425205616179816"), true);
  }

  /** 10^21, the bound below which numbers convert to plain digits. */
  lemma Pow10Of21()
    ensures Pow10(21) == 1000000000000000000000
  {
    assert Pow10(10) == 10000000000 && Pow10(11) == 100000000000;
    Pow10Add(10, 11);
  }

  lemma RegexLongDigitNumber(d: string)
    ensures RunRegex(d, Num(3425205616179816.0)) == ValidationState(true, d)
  {
    Pow10Of21();
    DigitsOnlyNumbers(3425205616179816.0);
    RegexRow(d, Num(3425205616179816.0), true);
  }

  lemma RegexFractionText(d: string)
    ensures RunRegex(d, Str("3.14")) == ValidationState(false, d)
  {
    assert !IsDigit("3.14"[1]);
    RegexRow(d, Str("3.14"), false);
  }

  /** 3.14 converts to text with a point in it. */
  lemma RegexFractionNumber(d: string)
    ensures RunRegex(d, Num(3.14)) == ValidationState(false, d)
  {
    DigitsOnlyNumbers(3.14);
    RegexRow(d, Num(3.14), false);
  }

  lemma RegexScientificText(d: string)
    ensures RunRegex(d, Str("3.14e2")) == ValidationState(false, d)
  {
    assert !IsDigit("3.14e2"[1]);
    RegexRow(d, Str("3.14e2"), false);
  }

  /** The number literal 3.14e2 is 314, whose text is all digits. */
  lemma RegexScientificNumber(d: string)
    ensures RunRegex(d, Num(314.0)) == ValidationState(true, d)
  {
    DigitsOnlyNumbers(314.0);
    RegexRow(d, Num(314.0), true);
  }

  lemma RegexArbitraryText(d: string)
    ensures RunRegex(d, Str("arbitraryString")) == ValidationState(false, d)
  {
    assert !IsDigit("arbitraryString"[0]);
    RegexRow(d, Str("arbitraryString"), false);
  }

  lemma RegexMissing(d: string)
    ensures RunRegex(d, Missing) == ValidationState(false, d)
  {
    RegexRow(d, Missing, false);
  }

  // ---------------------------------------------------------------------------
  // LessThanOrEqualsValidation

  /** Text against text compares as text: "342" sorts before "42". */
  lemma AtMostIntegerText(d: string)
    ensures RunAtMost(d, Str("342"), Str("42")) == ValidationState(true, d)
  {
    assert TextOrder.LessOrEqual("342", "42");
    TextRow(d, "342", "42");
  }

  /** A number against text, either way round, compares as numbers. */
  lemma AtMostIntegerMixed(d: string)
    ensures RunAtMost(d, Num(342.0), Str("42")) == ValidationState(false, d)
    ensures RunAtMost(d, Str("342"), Num(42.0)) == ValidationState(false, d)
    ensures RunAtMost(d, Num(42.0), Str("342")) == ValidationState(true, d)
    ensures RunAtMost(d, Str("42"), Num(342.0)) == ValidationState(true, d)
    ensures RunAtMost(d, Num(42.0), Str("42")) == ValidationState(true, d)
  {
    Read42();
    Read342();
    NumericRow(d, Num(342.0), Str("42"), 342.0, 42.0);
    NumericRow(d, Str("342"), Num(42.0), 342.0, 42.0);
    NumericRow(d, Num(42.0), Str("342"), 42.0, 342.0);
    NumericRow(d, Str("42"), Num(342.0), 42.0, 342.0);
    NumericRow(d, Num(42.0), Str("42"), 42.0, 42.0);
  }

  /** Numbers compare as numbers. */
  lemma AtMostIntegerNumbers(d: string)
    ensures RunAtMost(d, Num(342.0), Num(42.0)) == ValidationState(false, d)
  {
    NumericRow(d, Num(342.0), Num(42.0), 342.0, 42.0);
  }

  /** Scientific literals as text compare as text. */
  lemma AtMostScientificText(d: string)
    ensures RunAtMost(d, Str("342.15e-1"), Str("42.15e-1")) == ValidationState(true, d)
  {
    assert TextOrder.LessOrEqual("342.15e-1", "42.15e-1");
    TextRow(d, "342.15e-1", "42.15e-1");
  }

  /** A scientific literal as text is read as the number it denotes when the other operand is a number. */
  lemma AtMostScientificMixed(d: string)
    ensures RunAtMost(d, Num(34.215), Str("42.15e-1")) == ValidationState(false, d)
    ensures RunAtMost(d, Str("342.15e-1"), Num(4.215)) == ValidationState(false, d)
  {
    Read4215eMinus1();
    NumericRow(d, Num(34.215), Str("42.15e-1"), 34.215, 4.215);
    Read34215eMinus1();
    NumericRow(d, Str("342.15e-1"), Num(4.215), 34.215, 4.215);
  }

  /** The numbers 342.15e-1 and 42.15e-1. */
  lemma AtMostScientificNumbers(d: string)
    ensures RunAtMost(d, Num(34.215), Num(4.215)) == ValidationState(false, d)
  {
    NumericRow(d, Num(34.215), Num(4.215), 34.215, 4.215);
  }

  /** Equal operands satisfy <= in every combination of text and number. */
  lemma AtMostEqualValues(d: string)
    ensures RunAtMost(d, Str("342.15"), Str("342.15")) == ValidationState(true, d)
    ensures RunAtMost(d, Num(342.15), Str("342.15")) == ValidationState(true, d)
    ensures RunAtMost(d, Str("342.15"), Num(342.15)) == ValidationState(true, d)
    ensures RunAtMost(d, Num(342.15), Num(342.15)) == ValidationState(true, d)
  {
    TextOrder.Reflexive("342.15");
    TextRow(d, "342.15", "342.15");
    Read34215();
    NumericRow(d, Num(342.15), Str("342.15"), 342.15, 342.15);
    NumericRow(d, Str("342.15"), Num(342.15), 342.15, 342.15);
    NumericRow(d, Num(342.15), Num(342.15), 342.15, 342.15);
  }

  /** An absent operand on either side fails the rule. */
  lemma AtMostMissing(d: string)
    ensures RunAtMost(d, Missing, Str("42")) == ValidationState(false, d)
    ensures RunAtMost(d, Missing, Num(42.0)) == ValidationState(false, d)
    ensures RunAtMost(d, Str("42"), Missing) == ValidationState(false, d)
    ensures RunAtMost(d, Num(42.0), Missing) == ValidationState(false, d)
    ensures RunAtMost(d, Missing, Missing) == ValidationState(false, d)
  {
    MissingRow(d, Missing, Str("42"));
    MissingRow(d, Missing, Num(42.0));
    MissingRow(d, Str("42"), Missing);
    MissingRow(d, Num(42.0), Missing);
    MissingRow(d, Missing, Missing);
  }

  // ---------------------------------------------------------------------------
  // GreaterThanOrEqualsValidation

  /** Text against text compares as text: "342" does not sort at or after "42". */
  lemma AtLeastIntegerText(d: string)
    ensures RunAtLeast(d, Str("342"), Str("42")) == ValidationState(false, d)
  {
    assert !TextOrder.LessOrEqual("42", "342");
    TextRow(d, "342", "42");
  }

  /** A number against text, either way round, compares as numbers. */
  lemma AtLeastIntegerMixed(d: string)
    ensures RunAtLeast(d, Num(342.0), Str("42")) == ValidationState(true, d)
    ensures RunAtLeast(d, Str("342"), Num(42.0)) == ValidationState(true, d)
  {
    Read42();
    Read342();
    NumericRow(d, Num(342.0), Str("42"), 342.0, 42.0);
    NumericRow(d, Str("342"), Num(42.0), 342.0, 42.0);
  }

  /** Numbers compare as numbers. */
  lemma AtLeastIntegerNumbers(d: string)
    ensures RunAtLeast(d, Num(342.0), Num(42.0)) == ValidationState(true, d)
  {
    NumericRow(d, Num(342.0), Num(42.0), 342.0, 42.0);
  }

  /** Scientific literals as text compare as text. */
  lemma AtLeastScientificText(d: string)
    ensures RunAtLeast(d, Str("342.15e-1"), Str("42.15e-1")) == ValidationState(false, d)
  {
    assert !TextOrder.LessOrEqual("42.15e-1", "342.15e-1");
    TextRow(d, "342.15e-1", "42.15e-1");
  }

  /** A scientific literal as text is read as the number it denotes when the other operand is a number. */
  lemma AtLeastScientificMixed(d: string)
    ensures RunAtLeast(d, Num(34.215), Str("42.15e-1")) == ValidationState(true, d)
    ensures RunAtLeast(d, Str("342.15e-1"), Num(4.215)) == ValidationState(true, d)
  {
    Read4215eMinus1();
    NumericRow(d, Num(34.215), Str("42.15e-1"), 34.215, 4.215);
    Read34215eMinus1();
    NumericRow(d, Str("342.15e-1"), Num(4.215), 34.215, 4.215);
  }

  /** The numbers 342.15e-1 and 42.15e-1. */
  lemma AtLeastScientificNumbers(d: string)
    ensures RunAtLeast(d, Num(34.215), Num(4.215)) == ValidationState(true, d)
  {
    NumericRow(d, Num(34.215), Num(4.215), 34.215, 4.215);
  }

  /** Equal operands satisfy >= in every combination of text and number. */
  lemma AtLeastEqualValues(d: string)
    ensures RunAtLeast(d, Str("342.15"), Str("342.15")) == ValidationState(true, d)
    ensures RunAtLeast(d, Num(342.15), Str("342.15")) == ValidationState(true, d)
    ensures RunAtLeast(d, Str("342.15"), Num(342.15)) == ValidationState(true, d)
    ensures RunAtLeast(d, Num(342.15), Num(342.15)) == ValidationState(true, d)
  {
    TextOrder.Reflexive("342.15");
    TextRow(d, "342.15", "342.15");
    Read34215();
    NumericRow(d, Num(342.15), Str("342.15"), 342.15, 342.15);
    NumericRow(d, Str("342.15"), Num(342.15), 342.15, 342.15);
    NumericRow(d, Num(342.15), Num(342.15), 342.15, 342.15);
  }

  /** An absent operand on either side fails the rule. */
  lemma AtLeastMissing(d: string)
    ensures RunAtLeast(d, Missing, Str("42")) == ValidationState(false, d)
    ensures RunAtLeast(d, Missing, Num(42.0)) == ValidationState(false, d)
    ensures RunAtLeast(d, Str("42"), Missing) == ValidationState(false, d)
    ensures RunAtLeast(d, Num(42.0), Missing) == ValidationState(false, d)
    ensures RunAtLeast(d, Missing, Missing) == ValidationState(false, d)
  {
    MissingRow(d, Missing, Str("42"));
    MissingRow(d, Missing, Num(42.0));
    MissingRow(d, Str("42"), Missing);
    MissingRow(d, Num(42.0), Missing);
    MissingRow(d, Missing, Missing);
  }
}
