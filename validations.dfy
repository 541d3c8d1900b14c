/**
 * The validation rules of the resource-deployment extension: a rule is
 * built from a configuration and one or two resolvers, and `GetValidator`
 * hands back a zero-argument validator that resolves the current value(s),
 * applies the rule and reports `{valid, message}`.
 *
 * Resolvers are asynchronous in the extension; here they are plain functions
 * and the validator runs synchronously.
 */
module Validations {
  import opened Wrappers
  import opened Numbers
  import TextOrder

  /** A value a rule checks: text, a number, or absent (`undefined`, and also a NaN number). */
  datatype Value = Str(text: string) | Num(number: real) | Missing

  datatype ValidationType = IsInteger | Regex | LessThanOrEqualsTo | GreaterThanOrEqualsTo

  /** What every rule is configured with; `description` is reported whatever the outcome. */
  datatype ValidationConfig = ValidationConfig(kind: ValidationType, description: string)

  /** The patterns a regex rule can be given: only `^[0-9]+$`, one or more digits and nothing else. */
  datatype Pattern = DigitsOnly

  datatype ValidationState = ValidationState(valid: bool, message: string)

  /**
   * The four rules. Which check runs is decided by the variant, never by
   * `config.kind`. `valueOf` resolves the value to check; a comparison also
   * resolves its `target` by name through `targetOf`.
   */
  datatype Validation =
    | IntegerValidation(config: ValidationConfig, valueOf: () -> Value)
    | RegexValidation(config: ValidationConfig, regex: Pattern, valueOf: () -> Value)
    | LessThanOrEqualsValidation(config: ValidationConfig, target: string,
                                 valueOf: () -> Value, targetOf: string -> Value)
    | GreaterThanOrEqualsValidation(config: ValidationConfig, target: string,
                                    valueOf: () -> Value, targetOf: string -> Value)

  /** The number a value denotes: a number as it is, text read as a decimal literal. */
  function NumericValue(v: Value): Option<real> {
    match v
    case Num(x) => Some(x)
    case Str(t) => ParseNumber(t)
    case Missing => None
  }

  /** The integer rule: the value denotes a number with no fractional part. */
  predicate IsIntegerValue(v: Value) {
    match NumericValue(v)
    case Some(x) => IsIntegral(x)
    case None => false
  }

  /** `^[0-9]+$`: at least one character, every one a digit. */
  predicate DigitsOnlyText(s: string) {
    |s| > 0 && AllDigits(s)
  }

  /**
   * The text a pattern is tested against: text verbatim, a number as it
   * converts to text. A number whose text is not modelled (`NumberText` is
   * None) has a `.` or an exponent in it, so no digits-only pattern matches it.
   */
  function RegexSubject(v: Value): Option<string> {
    match v
    case Str(t) => Some(t)
    case Num(x) => NumberText(x)
    case Missing => None
  }

  /** The regex rule. */
  predicate MatchesPattern(p: Pattern, v: Value) {
    match RegexSubject(v)
    case Some(t) => (match p case DigitsOnly => DigitsOnlyText(t))
    case None => false
  }

  /** Text against text is compared as text; any other pair is compared as numbers. */
  predicate BothText(a: Value, b: Value) {
    a.Str? && b.Str?
  }

  /** `a <= b`: absent or unreadable operands make it false. */
  predicate AtMost(a: Value, b: Value) {
    if BothText(a, b) then TextOrder.LessOrEqual(a.text, b.text)
    else match (NumericValue(a), NumericValue(b))
      case (Some(x), Some(y)) => x <= y
      case _ => false
  }

  /** `a >= b`: absent or unreadable operands make it false. */
  predicate AtLeast(a: Value, b: Value) {
    if BothText(a, b) then TextOrder.LessOrEqual(b.text, a.text)
    else match (NumericValue(a), NumericValue(b))
      case (Some(x), Some(y)) => x >= y
      case _ => false
  }

  /** Whether the rule holds for what its resolvers return now. */
  predicate Holds(v: Validation) {
    match v
    case IntegerValidation(_, valueOf) => IsIntegerValue(valueOf())
    case RegexValidation(_, p, valueOf) => MatchesPattern(p, valueOf())
    case LessThanOrEqualsValidation(_, target, valueOf, targetOf) => AtMost(valueOf(), targetOf(target))
    case GreaterThanOrEqualsValidation(_, target, valueOf, targetOf) => AtLeast(valueOf(), targetOf(target))
  }

  /**
   * The validator of a rule: each call resolves afresh and reports whether
   * the rule holds, with the configured description as the message in
   * either case.
   */
  function GetValidator(v: Validation): (validator: () -> ValidationState)
    ensures validator().valid == Holds(v)
    ensures validator().message == v.config.description
  {
    () => ValidationState(Holds(v), v.config.description)
  }

  // ---------------------------------------------------------------------------
  // Properties of the rules

  /** No rule holds of an absent value, nor a comparison of an absent target. */
  lemma AbsentNeverValid(v: Validation)
    requires v.valueOf() == Missing || (!v.IntegerValidation? && !v.RegexValidation? && v.targetOf(v.target) == Missing)
    ensures !GetValidator(v)().valid
  {
  }

  /** A run of digits passes both the integer rule and the digits-only pattern. */
  lemma DigitTextPassesBoth(s: string)
    requires DigitsOnlyText(s)
    ensures IsIntegerValue(Str(s)) && MatchesPattern(DigitsOnly, Str(s))
  {
    ParseDigits(s);
  }

  /** Digits, a point and a non-zero fraction fail both the integer rule and the digits-only pattern. */
  lemma FractionTextFailsBoth(w: string, f: string)
    requires AllDigits(w) && AllDigits(f) && DigitsValue(f) > 0
    ensures !IsIntegerValue(Str(w + "." + f)) && !MatchesPattern(DigitsOnly, Str(w + "." + f))
  {
    FractionNotIntegral(w, f);
    assert (w + "." + f)[|w|] == '.';
  }

  /** A number and the text it converts to pass or fail the integer rule together. */
  lemma IntegerRuleIgnoresRepresentation(x: real)
    requires NumberText(x).Some?
    ensures IsIntegerValue(Num(x)) == IsIntegerValue(Str(NumberText(x).value))
  {
    NumberTextRoundTrip(x);
  }

  /**
   * A terminating decimal n / 10^k and its positional text pass or fail the
   * integer rule together, and both pass exactly when 10^k divides n: the
   * number 3.14 and the text "3.14" both fail.
   */
  lemma DecimalRuleIgnoresRepresentation(n: int, k: nat)
    ensures IsIntegerValue(Num(DecimalValue(n, k))) == IsIntegerValue(Str(SignedDecimalText(n, k)))
    ensures IsIntegerValue(Num(DecimalValue(n, k))) <==> n % Pow10(k) == 0
  {
    DecimalTextRoundTrip(n, k);
    DecimalIntegral(n, k);
  }

  /** A number matches the digits-only pattern exactly when it is a whole number from 0 up to, not including, 10^21. */
  lemma DigitsOnlyNumbers(x: real)
    ensures MatchesPattern(DigitsOnly, Num(x)) <==> IsIntegral(x) && 0.0 <= x < Pow10(21) as real
  {
    if IsIntegral(x) && -(Pow10(21) as real) < x < Pow10(21) as real {
      if x < 0.0 {
        assert IntText(x.Floor)[0] == '-';
      } else {
        NatTextValue(x.Floor);
      }
    }
  }

  /** `>=` is `<=` with the operands swapped, in both modes. */
  lemma AtLeastIsConverse(a: Value, b: Value)
    ensures AtLeast(a, b) == AtMost(b, a)
  {
  }

  /** Two operands denote the same thing: equal text, or (in the numeric mode) the same number. */
  predicate SameUnderMode(a: Value, b: Value) {
    if BothText(a, b) then a.text == b.text
    else NumericValue(a).Some? && NumericValue(a) == NumericValue(b)
  }

  /** Both operands are present and, unless both are text, readable as numbers. */
  predicate Comparable(a: Value, b: Value) {
    BothText(a, b) || (NumericValue(a).Some? && NumericValue(b).Some?)
  }

  /** Operands that denote the same thing satisfy both `<=` and `>=`, and only those do. */
  lemma BothDirectionsIffSame(a: Value, b: Value)
    ensures AtMost(a, b) && AtLeast(a, b) <==> SameUnderMode(a, b)
  {
    if BothText(a, b) {
      TextOrder.Reflexive(a.text);
      if AtMost(a, b) && AtLeast(a, b) {
        TextOrder.AntiSymmetric(a.text, b.text);
      }
    }
  }

  /** Comparable operands are ordered one way or the other; anything else fails both ways. */
  lemma ComparableIffOrdered(a: Value, b: Value)
    ensures AtMost(a, b) || AtLeast(a, b) <==> Comparable(a, b)
  {
    if BothText(a, b) {
      TextOrder.Total(a.text, b.text);
    }
  }

  /** `<=` is transitive while all three pairs compare in one mode: among texts, as among numbers. */
  lemma AtMostTransitiveWithinMode(a: Value, b: Value, c: Value)
    requires AtMost(a, b) && AtMost(b, c)
    requires BothText(a, b) == BothText(b, c) == BothText(a, c)
    ensures AtMost(a, c)
  {
    if BothText(a, b) {
      TextOrder.Transitive(a.text, b.text, c.text);
    } else {
      var x, y, z := NumericValue(a).value, NumericValue(b).value, NumericValue(c).value;
      assert x <= y <= z;
    }
  }

  /** Across modes `<=` is not transitive: "5" <= 10 and 10 <= "20" as numbers, but "5" sorts after "20" as text. */
  lemma AtMostNotTransitiveAcrossModes()
    ensures AtMost(Str("5"), Num(10.0)) && AtMost(Num(10.0), Str("20"))
    ensures !AtMost(Str("5"), Str("20"))
  {
    assert NatText(5) == "5" && NatText(20) == "20";
    NatTextValue(5);
    NatTextValue(20);
    ParseDigits("5");
    ParseDigits("20");
  }
}
