/** The three slot validators of the portfolio intent: `valid_age`,
    `valid_investment` and `valid_risk_level`. Each maps the raw slot value to
    a validation result. */
module Validators {
  import opened Basics
  import opened Text
  import opened Numbers
  import opened Lex

  const AgeSlot := "age"
  const InvestmentSlot := "investmentAmount"
  const RiskSlot := "riskLevel"

  const MinimumAge := 0
  const MaximumAge := 65
  const MinimumAmount := 5000
  const ValidRiskLevels: seq<string> := ["none", "low", "medium", "high"]

  /** `f"{x}"` for an optional string: Python prints `None` as "None". */
  function ShowOptional(x: Option<string>): string {
    match x
    case None => "None"
    case Some(s) => s
  }

  /** `f"{x}"` for what `parse_int` returns; the float NaN prints as "nan". */
  function ShowNumber(x: Number): string {
    match x
    case NaN => "nan"
    case Int(n) => Show(n)
  }

  /** `sep.join(xs)`. */
  function Join(sep: string, xs: seq<string>): string {
    if |xs| == 0 then "" else if |xs| == 1 then xs[0] else xs[0] + sep + Join(sep, xs[1..])
  }

  function AgeMessage(shown: string): string {
    shown + " is not a suported age.  Age must be > " + Show(MinimumAge)
    + " and < " + Show(MaximumAge) + "." + " Please enter a valid age."
  }

  function InvestmentMessage(shown: string): string {
    shown + " is not a suported investment amount.  Investment amount must be >= "
    + Show(MinimumAmount) + "." + " Please enter a valid investment amount."
  }

  function RiskMessage(shown: string): string {
    shown + " is not a valid risk level.  Select one of the following: "
    + Join(",", ValidRiskLevels) + " Please enter a valid risk level."
  }

  /** The shape every validator result has: a valid result names no slot and
      carries no message; an invalid one names `slot` and carries a plain-text
      message. */
  predicate WellShaped(r: ValidationResult, slot: string) {
    if r.isValid then r.violatedSlot.None? && r.message.None?
    else r.violatedSlot == Some(slot) && r.message.Some? && r.message.value.contentType == PlainText
  }

  /** The ages the handler lets through: a present age that `int()` reads as a
      number in the closed interval [0, 65], or one it cannot read at all. */
  ghost predicate AgeAccepted(age: Option<string>) {
    age.Some? && (ParseInt(age.value).NaN? || MinimumAge <= ParseInt(age.value).value <= MaximumAge)
  }

  /** The amounts the handler lets through: at least 5000, or unreadable. */
  ghost predicate InvestmentAccepted(amount: Option<string>) {
    amount.Some? && (ParseInt(amount.value).NaN? || ParseInt(amount.value).value >= MinimumAmount)
  }

  /** `valid_age`. */
  function ValidAge(age: Option<string>): (r: ValidationResult)
    ensures r.isValid <==> AgeAccepted(age)
    ensures WellShaped(r, AgeSlot)
  {
    match age
    case None => BuildValidationResult(false, Some(AgeSlot), Some(AgeMessage("None")))
    case Some(s) =>
      var n := ParseInt(s);
      if Equal(n, NaN) || Less(n, MinimumAge) || Greater(n, MaximumAge) then
        BuildValidationResult(false, Some(AgeSlot), Some(AgeMessage(ShowNumber(n))))
      else
        BuildValidationResult(true, None, None)
  }

  /** `valid_investment`. */
  function ValidInvestment(amount: Option<string>): (r: ValidationResult)
    ensures r.isValid <==> InvestmentAccepted(amount)
    ensures WellShaped(r, InvestmentSlot)
  {
    match amount
    case None => BuildValidationResult(false, Some(InvestmentSlot), Some(InvestmentMessage("None")))
    case Some(s) =>
      var n := ParseInt(s);
      if Equal(n, NaN) || Less(n, MinimumAmount) then
        BuildValidationResult(false, Some(InvestmentSlot), Some(InvestmentMessage(ShowNumber(n))))
      else
        BuildValidationResult(true, None, None)
  }

  /** `valid_risk_level`: valid exactly when the level is present and spells
      none, low, medium or high in any mix of upper and lower case. */
  function ValidRiskLevel(risk: Option<string>): (r: ValidationResult)
    ensures r.isValid <==>
              risk.Some? && exists level :: level in ValidRiskLevels && CaseVariant(risk.value, level)
    ensures WellShaped(r, RiskSlot)
  {
    if risk.None? then
      BuildValidationResult(false, Some(RiskSlot), Some(RiskMessage(ShowOptional(risk))))
    else
      LowerIsLevelIffCaseVariant(risk.value);
      if Lower(risk.value) !in ValidRiskLevels then
        BuildValidationResult(false, Some(RiskSlot), Some(RiskMessage(ShowOptional(risk))))
      else
        BuildValidationResult(true, None, None)
  }

  /** The lower-cased form of `s` is one of the levels exactly when `s` is a
      case variant of one of them. */
  lemma LowerIsLevelIffCaseVariant(s: string)
    ensures Lower(s) in ValidRiskLevels <==> exists level :: level in ValidRiskLevels && CaseVariant(s, level)
  {
    forall level | level in ValidRiskLevels
      ensures Lower(s) == level <==> CaseVariant(s, level)
    {
      LowerMatchesCaseVariant(s, level);
    }
  }

  /** For an age written as an integer, acceptance is the closed interval
      [0, 65], although the message text announces "> 0 and < 65". */
  lemma AgeAcceptedIffInRange(n: int)
    ensures ValidAge(Some(Show(n))).isValid <==> MinimumAge <= n <= MaximumAge
  {
    ParseShowRoundTrip(n);
  }

  /** Both ends of the age interval are accepted; one step outside is not. */
  lemma AgeBoundsInclusive()
    ensures ValidAge(Some("0")).isValid && ValidAge(Some("65")).isValid
    ensures !ValidAge(Some("-1")).isValid && !ValidAge(Some("66")).isValid
    ensures !ValidAge(None).isValid
  {
    assert Show(0) == "0";
    assert Show(65) == "65";
    assert Show(-1) == "-1";
    assert Show(66) == "66";
    AgeAcceptedIffInRange(0);
    AgeAcceptedIffInRange(65);
    AgeAcceptedIffInRange(-1);
    AgeAcceptedIffInRange(66);
  }

  /** An age holding a character outside the modelled `int()` alphabet (an
      ASCII digit, sign, underscore or ASCII whitespace), a letter say, parses
      to NaN, and NaN passes every comparison the validator makes. */
  lemma NonNumericAgeAccepted(s: string, i: int)
    requires 0 <= i < |s| && !IsNumeralChar(s[i])
    ensures ValidAge(Some(s)).isValid
  {
  }

  /** For an amount written as an integer, acceptance is `n >= 5000`. */
  lemma InvestmentAcceptedIffAtLeastMinimum(n: int)
    ensures ValidInvestment(Some(Show(n))).isValid <==> n >= MinimumAmount
  {
    ParseShowRoundTrip(n);
  }

  /** Exactly 5000 is accepted, 4999 and a missing amount are not. */
  lemma InvestmentBoundInclusive()
    ensures ValidInvestment(Some("5000")).isValid
    ensures !ValidInvestment(Some("4999")).isValid
    ensures !ValidInvestment(None).isValid
  {
    assert Show(5000) == "5000";
    assert Show(4999) == "4999";
    InvestmentAcceptedIffAtLeastMinimum(5000);
    InvestmentAcceptedIffAtLeastMinimum(4999);
  }

  /** An amount holding a character outside the modelled `int()` alphabet is
      accepted, like such an age. */
  lemma NonNumericInvestmentAccepted(s: string, i: int)
    requires 0 <= i < |s| && !IsNumeralChar(s[i])
    ensures ValidInvestment(Some(s)).isValid
  {
  }
}
