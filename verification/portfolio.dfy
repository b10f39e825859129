/** The intent handler `recommend_portfolio` and the intent dispatcher. */
module Portfolio {
  import opened Basics
  import opened Text
  import opened Numbers
  import opened Lex
  import opened Validators
  import opened Recommendation

  const DialogCodeHook := "DialogCodeHook"
  const Fulfilled := "Fulfilled"
  const SupportedIntent := "recommendPortfolio"
  const FirstNameSlot := "firstName"

  /** The fields of the incoming event the handler reads:
      `currentIntent.name`, `invocationSource`, `currentIntent.slots` and
      `sessionAttributes`. */
  datatype Request = Request(
    intentName: string,
    invocationSource: string,
    slots: Slots,
    sessionAttributes: SessionAttributes)

  /** The exception `dispatch` raises for an intent it does not serve. */
  datatype DispatchError = UnsupportedIntent(message: string)

  /** The handler reads all four slots up front; the service always sends them,
      filled or not. */
  predicate HasPortfolioSlots(slots: Slots) {
    FirstNameSlot in slots && AgeSlot in slots && InvestmentSlot in slots && RiskSlot in slots
  }

  /** The requests `recommend_portfolio` answers without raising: the four slots
      are there, and fulfilment is only asked for with a risk level present
      (it lower-cases it). */
  predicate Handles(req: Request) {
    && HasPortfolioSlots(req.slots)
    && (req.invocationSource != DialogCodeHook ==> req.slots[RiskSlot].Some?)
  }

  /** The validator results of the dialog branch, in the order they are run. */
  function DialogChecks(req: Request): (checks: seq<ValidationResult>)
    requires HasPortfolioSlots(req.slots)
    ensures |checks| == 3
    ensures WellShaped(checks[0], AgeSlot)
    ensures WellShaped(checks[1], InvestmentSlot)
    ensures WellShaped(checks[2], RiskSlot)
  {
    [ValidAge(req.slots[AgeSlot]), ValidInvestment(req.slots[InvestmentSlot]),
     ValidRiskLevel(req.slots[RiskSlot])]
  }

  /** The position of the first invalid result, or `|rs|` when all are valid. */
  function FirstInvalid(rs: seq<ValidationResult>): (k: nat)
    ensures k <= |rs|
    ensures forall j :: 0 <= j < k ==> rs[j].isValid
    ensures k < |rs| ==> !rs[k].isValid
  {
    if |rs| == 0 then 0
    else if !rs[0].isValid then 0
    else 1 + FirstInvalid(rs[1..])
  }

  /** The closing message text of the fulfilment branch. */
  function ClosingContent(firstName: Option<string>, risk: string, recommendation: string): string {
    ShowOptional(firstName) + ", based on your " + risk
    + " risk tolerance, we recommend the following portfolio \n            "
    + recommendation + "\n            "
  }

  /** The closing message names the user (or "None"), the risk level as given,
      and the recommended allocation. */
  lemma ClosingContentMentions(firstName: Option<string>, risk: string, recommendation: string)
    ensures var content := ClosingContent(firstName, risk, recommendation);
            && Contains(content, recommendation)
            && Contains(content, ShowOptional(firstName))
            && Contains(content, risk)
  {
    var name := ShowOptional(firstName);
    var lead := ", based on your ";
    var middle := " risk tolerance, we recommend the following portfolio \n            ";
    var tail := "\n            ";
    var content := ClosingContent(firstName, risk, recommendation);
    assert content == (name + lead + risk + middle) + recommendation + tail;
    assert content == (name + lead) + risk + (middle + recommendation + tail);
    assert content == "" + name + (lead + risk + middle + recommendation + tail);
    ContainsMiddle(name + lead + risk + middle, recommendation, tail);
    ContainsMiddle(name + lead, risk, middle + recommendation + tail);
    ContainsMiddle("", name, lead + risk + middle + recommendation + tail);
  }

  /** `recommend_portfolio`. Session attributes always come back unchanged.
      In the dialog branch the response elicits the slot of the first failing
      validator, with that validator's message and the slots as they came in,
      and delegates when every validator passes. Otherwise the response closes
      the intent as fulfilled with a plain-text message naming the user, the
      risk level and the recommended allocation. */
  function RecommendPortfolio(req: Request): (r: Response)
    requires Handles(req)
    ensures r.sessionAttributes == req.sessionAttributes
    ensures req.invocationSource == DialogCodeHook ==>
              var checks := DialogChecks(req);
              var k := FirstInvalid(checks);
              && (k < |checks| ==>
                    r.dialogAction == ElicitSlot(req.intentName, req.slots,
                                                 checks[k].violatedSlot.value, checks[k].message.value))
              && (k == |checks| ==> r.dialogAction == Delegate(req.slots))
    ensures req.invocationSource != DialogCodeHook ==>
              var risk := req.slots[RiskSlot].value;
              && r.dialogAction.Close?
              && r.dialogAction.fulfillmentState == Fulfilled
              && r.dialogAction.message.contentType == PlainText
              && Contains(r.dialogAction.message.content, GetInvestmentRecommendation(risk))
              && Contains(r.dialogAction.message.content, ShowOptional(req.slots[FirstNameSlot]))
              && Contains(r.dialogAction.message.content, risk)
  {
    var firstName := req.slots[FirstNameSlot];
    var age := req.slots[AgeSlot];
    var investmentAmount := req.slots[InvestmentSlot];
    var riskLevel := req.slots[RiskSlot];
    if req.invocationSource == DialogCodeHook then
      var ageResult := ValidAge(age);
      if !ageResult.isValid then
        ElicitSlotResponse(req.sessionAttributes, req.intentName, req.slots,
                           ageResult.violatedSlot.value, ageResult.message.value)
      else
        var investmentResult := ValidInvestment(investmentAmount);
        if !investmentResult.isValid then
          ElicitSlotResponse(req.sessionAttributes, req.intentName, req.slots,
                             investmentResult.violatedSlot.value, investmentResult.message.value)
        else
          var riskResult := ValidRiskLevel(riskLevel);
          if !riskResult.isValid then
            ElicitSlotResponse(req.sessionAttributes, req.intentName, req.slots,
                               riskResult.violatedSlot.value, riskResult.message.value)
          else
            DelegateResponse(req.sessionAttributes, req.slots)
    else
      var recommendation := GetInvestmentRecommendation(riskLevel.value);
      ClosingContentMentions(firstName, riskLevel.value, recommendation);
      CloseResponse(req.sessionAttributes, Fulfilled,
                    Message(PlainText, ClosingContent(firstName, riskLevel.value, recommendation)))
  }

  /** `dispatch`: only the portfolio intent is served; any other intent name
      raises an exception whose message names it. */
  function Dispatch(req: Request): (r: Result<Response, DispatchError>)
    requires req.intentName == SupportedIntent ==> Handles(req)
    ensures r.Success? <==> req.intentName == SupportedIntent
    ensures r.Success? ==> r.value == RecommendPortfolio(req)
    ensures r.Failure? ==> r.error.message == "Intent with name " + req.intentName + " not supported"
  {
    if req.intentName == SupportedIntent then Success(RecommendPortfolio(req))
    else Failure(UnsupportedIntent("Intent with name " + req.intentName + " not supported"))
  }

  /** The dialog branch names the slots in the order age, investment amount,
      risk level: each is elicited exactly when it is the first to fail. */
  lemma DialogElicitsFirstFailure(req: Request)
    requires Handles(req) && req.invocationSource == DialogCodeHook
    ensures var r := RecommendPortfolio(req);
            var age := ValidAge(req.slots[AgeSlot]);
            var amount := ValidInvestment(req.slots[InvestmentSlot]);
            var risk := ValidRiskLevel(req.slots[RiskSlot]);
            && (!age.isValid ==> r.dialogAction.ElicitSlot? && r.dialogAction.slotToElicit == AgeSlot)
            && (age.isValid && !amount.isValid ==>
                  r.dialogAction.ElicitSlot? && r.dialogAction.slotToElicit == InvestmentSlot)
            && (age.isValid && amount.isValid && !risk.isValid ==>
                  r.dialogAction.ElicitSlot? && r.dialogAction.slotToElicit == RiskSlot)
            && (r.dialogAction.Delegate? <==> age.isValid && amount.isValid && risk.isValid)
  {
    var checks := DialogChecks(req);
    var k := FirstInvalid(checks);
    assert checks[0] == ValidAge(req.slots[AgeSlot]);
    assert checks[1] == ValidInvestment(req.slots[InvestmentSlot]);
    assert checks[2] == ValidRiskLevel(req.slots[RiskSlot]);
  }

  /** Once the age fails, the later validators are not consulted: two dialog
      requests with the same failing age get the same slot to elicit and the
      same message, whatever their other slots hold. */
  lemma AgeFailureIgnoresLaterSlots(req1: Request, req2: Request)
    requires Handles(req1) && Handles(req2)
    requires req1.invocationSource == DialogCodeHook && req2.invocationSource == DialogCodeHook
    requires req1.slots[AgeSlot] == req2.slots[AgeSlot]
    requires !ValidAge(req1.slots[AgeSlot]).isValid
    ensures RecommendPortfolio(req1).dialogAction.ElicitSlot?
    ensures RecommendPortfolio(req2).dialogAction.ElicitSlot?
    ensures RecommendPortfolio(req1).dialogAction.slotToElicit
         == RecommendPortfolio(req2).dialogAction.slotToElicit
    ensures RecommendPortfolio(req1).dialogAction.message
         == RecommendPortfolio(req2).dialogAction.message
  {
    assert FirstInvalid(DialogChecks(req1)) == 0;
    assert FirstInvalid(DialogChecks(req2)) == 0;
  }

  /** Age 30, amount 10000 and risk "Medium" in the dialog phase are all
      accepted: the response delegates with the slots unchanged. */
  lemma ScenarioAllValidDelegates(slots: Slots, attributes: SessionAttributes)
    requires HasPortfolioSlots(slots)
    requires slots[AgeSlot] == Some("30") && slots[InvestmentSlot] == Some("10000")
    requires slots[RiskSlot] == Some("Medium")
    ensures RecommendPortfolio(Request(SupportedIntent, DialogCodeHook, slots, attributes))
         == Response(attributes, Delegate(slots))
  {
    var req := Request(SupportedIntent, DialogCodeHook, slots, attributes);
    ScenarioSlotsValid();
    DialogElicitsFirstFailure(req);
  }

  /** The slot values of the all-valid scenario each pass their validator. */
  lemma ScenarioSlotsValid()
    ensures ValidAge(Some("30")).isValid
    ensures ValidInvestment(Some("10000")).isValid
    ensures ValidRiskLevel(Some("Medium")).isValid
  {
    assert Show(30) == "30";
    AgeAcceptedIffInRange(30);
    ScenarioAmountValid();
    assert Lower("Medium") == "medium";
  }

  /** The amount "10000" is the printed form of 10000, which is at least 5000. */
  lemma ScenarioAmountValid()
    ensures ValidInvestment(Some("10000")).isValid
  {
    assert ShowNat(10) == "10";
    assert ShowNat(100) == ShowNat(10) + "0";
    assert ShowNat(1000) == ShowNat(100) + "0";
    assert ShowNat(10000) == ShowNat(1000) + "0";
    assert Show(10000) == "10000";
    InvestmentAcceptedIffAtLeastMinimum(10000);
  }

  /** Age 70 in the dialog phase is refused: the age slot is elicited again. */
  lemma ScenarioAgeTooHigh(slots: Slots, attributes: SessionAttributes)
    requires HasPortfolioSlots(slots) && slots[AgeSlot] == Some("70")
    ensures var r := RecommendPortfolio(Request(SupportedIntent, DialogCodeHook, slots, attributes));
            r.dialogAction.ElicitSlot? && r.dialogAction.slotToElicit == AgeSlot
            && r.dialogAction.slots == slots && r.sessionAttributes == attributes
  {
    var req := Request(SupportedIntent, DialogCodeHook, slots, attributes);
    assert Show(70) == "70";
    AgeAcceptedIffInRange(70);
    DialogElicitsFirstFailure(req);
  }

  /** Fulfilment with risk "medium" closes the intent with the 40/60 allocation
      in the message. */
  lemma ScenarioFulfilment(slots: Slots, attributes: SessionAttributes)
    requires HasPortfolioSlots(slots) && slots[RiskSlot] == Some("medium")
    ensures var r := RecommendPortfolio(Request(SupportedIntent, "FulfillmentCodeHook", slots, attributes));
            r.dialogAction.Close? && r.dialogAction.fulfillmentState == Fulfilled
            && Contains(r.dialogAction.message.content, "40% bonds (AGG), 60% equities (SPY)")
  {
    assert Lower("medium") == "medium";
  }

  /** Any intent name other than `recommendPortfolio` is refused with an error
      and no response. */
  lemma ScenarioUnknownIntent(slots: Slots, source: string, attributes: SessionAttributes)
    ensures Dispatch(Request("unknown", source, slots, attributes))
         == Failure(UnsupportedIntent("Intent with name " + "unknown" + " not supported"))
  {
    assert "unknown"[0] != SupportedIntent[0];
  }
}
