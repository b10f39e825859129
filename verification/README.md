# Retirement advisor bot: validation and fulfilment callback

A Dafny model of the Lambda callback behind the `recommendPortfolio` intent of
a Lex chat bot (`Lambda/lambda_func_ex.py`). The bot collects four slots:
`firstName`, `age`, `investmentAmount` and `riskLevel`. The callback is invoked
in two phases, and the `invocationSource` field says which:

- **Dialog code hook** (`"DialogCodeHook"`). The callback runs three validators
  in a fixed order: age, then investment amount, then risk level. The first one
  that fails produces an *ElicitSlot* response. It names the failing slot and
  carries that validator's plain-text message, the intent name, the slots and
  the session attributes as they came in. When all three pass, the response is
  *Delegate*, with the slots and session attributes unchanged.
- **Fulfilment** (any other source). Validation is skipped. The risk level,
  ignoring case, selects one of four fixed bond/equity allocations. The response
  is *Close* with state `"Fulfilled"` and a plain-text message that contains
  the allocation.

`dispatch` serves only the intent name `recommendPortfolio`. Any other name
raises an exception.

Modules, one per concern of the handler file:

- `Basics`: `Option` for unfilled slots, `Result` for the dispatcher's exception.
- `Text`: ASCII `str.lower()`, the whitespace stripping done by `int()`, and
  substring containment.
- `Numbers`: `parse_int`, meaning `int()` on a string with NaN on failure. Also
  Python's comparisons against NaN, and `str()` of an int.
- `Lex`: the validation-result record and the three response shapes.
- `Validators`: `valid_age`, `valid_investment`, `valid_risk_level`.
- `Recommendation`: `get_investment_recommendation`.
- `Portfolio`: `recommend_portfolio` and `dispatch`.

## What the code does, as opposed to what its text says

The model follows the code wherever the code and its own prose disagree:

- **Age bounds are inclusive.** The assignment text (lines 97-99) and the age
  message (line 129) say "> 0 and < 65". The code rejects only `age < 0` and
  `age > 65` (lines 112-113 and 124). Ages 0 and 65 are therefore accepted:
  see `AgeAcceptedIffInRange` and `AgeBoundsInclusive`.
- **Unparseable numbers pass validation.** When `int()` fails, `parse_int`
  returns NaN. The test `age == float("nan")` is false even for NaN, and so are
  `NaN < 0` and `NaN > 65`. So an age or amount such as `"thirty"` is reported
  as valid: see `NonNumericAgeAccepted` and `NonNumericInvestmentAccepted`. The
  model represents NaN as the `Number.NaN` case. It gives `Less`, `Greater` and
  `Equal` the IEEE meaning, under which every comparison with NaN is false.
- **The recommendation falls back to all bonds.** Any level other than low,
  medium or high maps to the "none" allocation. After validation the fallback
  is reached only by "none" itself (`ValidatedLevelHasEntry`).

The messages are modelled with their exact text, including the typo
"suported", the doubled spaces and the newlines and indentation of the closing
message.

## Model

| member | source | states |
|---|---|---|
| `Numbers.ParseShowRoundTrip` | Lambda/lambda_func_ex.py:14-22 | `parse_int` reads every printed integer back as itself: `int(str(n)) == n`, negative numbers included (on runtimes with CPython's digit limit, only for n of at most 4300 digits) |
| `Numbers.ParseInt` | Lambda/lambda_func_ex.py:14-22 | if `parse_int` yields an int, every character of the input is an ASCII digit, sign, underscore or ASCII whitespace, so any other character yields NaN; a stripped plain decimal literal yields its value |
| `Numbers.ParseIgnoresSurroundingSpace` | Lambda/lambda_func_ex.py:18-19 | for every string, adding whitespace before and after it does not change what `int()` makes of it |
| `Numbers.ParseSigned` | Lambda/lambda_func_ex.py:18-19 | for every decimal literal d, `int("-" + d)` is minus its value and `int("+" + d)` is its value |
| `Numbers.ParseUnderscoreIgnored` | Lambda/lambda_func_ex.py:18-19 | for every two decimal literals a and b, `a_b` is accepted and parses to the same value as `ab` |
| `Numbers.ParseRejectsDoubleUnderscore` | Lambda/lambda_func_ex.py:18-22 | for every string, two adjacent underscores anywhere make `parse_int` return NaN |
| `Numbers.ParseWhitespaceExample` | Lambda/lambda_func_ex.py:18-19 | example: `" 42\n"` parses as 42 |
| `Numbers.ParseSignUnderscoreExample` | Lambda/lambda_func_ex.py:18-19 | example: `"+1_000"` parses as 1000 |
| `Numbers.ParseRejectsMalformed` | Lambda/lambda_func_ex.py:18-22 | examples: `"1__000"`, `"_1"`, the empty string, `"-"` and `"+"` all make `parse_int` return NaN |
| `Text.Strip` | Lambda/lambda_func_ex.py:19 | the stripped string is a contiguous slice of the input, everything cut off is whitespace, and the slice neither starts nor ends with whitespace |
| `Text.Lower` | Lambda/lambda_func_ex.py:164 | the model's ASCII `lower()` keeps the length and lower-cases each character in place |
| `Text.LowerMatchesCaseVariant` | Lambda/lambda_func_ex.py:164 | for a word without capitals, `s.lower() == t` holds exactly when `s` spells `t` in some mix of upper and lower case |
| `Lex.BuildValidationResult` | Lambda/lambda_func_ex.py:25-36 | keeps `isValid` and `violatedSlot`; the message is present exactly when content is given, and then it is plain text with that content |
| `Lex.ElicitSlotResponse` | Lambda/lambda_func_ex.py:47-61 | an ElicitSlot action that carries the session attributes, intent name, slots, slot to elicit and message as given |
| `Lex.DelegateResponse` | Lambda/lambda_func_ex.py:64-72 | a Delegate action that carries the session attributes and slots as given |
| `Lex.CloseResponse` | Lambda/lambda_func_ex.py:75-89 | a Close action that carries the session attributes, fulfilment state and message as given |
| `Validators.ValidAge` | Lambda/lambda_func_ex.py:117-138 | valid exactly when the age is present and either unparseable or an int in the closed range [0, 65]; a valid result has no slot and no message; an invalid one names `age` and has a plain-text message |
| `Validators.AgeAcceptedIffInRange` | Lambda/lambda_func_ex.py:112-125 | an age written as the integer n is accepted if and only if 0 <= n <= 65 (on runtimes with CPython's digit limit, only for n of at most 4300 digits) |
| `Validators.AgeBoundsInclusive` | Lambda/lambda_func_ex.py:112-125 | ages "0" and "65" are accepted; "-1", "66" and a missing age are refused |
| `Validators.NonNumericAgeAccepted` | Lambda/lambda_func_ex.py:123-125 | an age containing a character outside the modelled `int()` alphabet (ASCII digit, sign, underscore, ASCII whitespace), a letter say, is reported as valid |
| `Validators.ValidInvestment` | Lambda/lambda_func_ex.py:140-161 | valid exactly when the amount is present and either unparseable or at least 5000; the result shape is the same as for age, with slot `investmentAmount` |
| `Validators.InvestmentAcceptedIffAtLeastMinimum` | Lambda/lambda_func_ex.py:143-148 | an amount written as the integer n is accepted if and only if n >= 5000 (on runtimes with CPython's digit limit, only for n of at most 4300 digits) |
| `Validators.InvestmentBoundInclusive` | Lambda/lambda_func_ex.py:143-148 | "5000" is accepted; "4999" and a missing amount are refused |
| `Validators.NonNumericInvestmentAccepted` | Lambda/lambda_func_ex.py:146-148 | an amount containing a character outside the modelled `int()` alphabet is reported as valid |
| `Validators.ValidRiskLevel` | Lambda/lambda_func_ex.py:163-175 | valid if and only if the risk level is present and spells none, low, medium or high in any mix of case; a valid result has no slot and no message; an invalid one names `riskLevel` and has a plain-text message |
| `Validators.LowerIsLevelIffCaseVariant` | Lambda/lambda_func_ex.py:164 | `s.lower()` is in the list of valid levels exactly when `s` is a case variant of one of them |
| `Recommendation.GetInvestmentRecommendation` | Lambda/lambda_func_ex.py:177-192 | the allocation is the table entry for the lower-cased level, or the "none" entry when the table has none; the lookup is total and always yields one of the four allocations |
| `Recommendation.AllocationsCoverValidLevels` | Lambda/lambda_func_ex.py:177-192 | the allocation table has an entry for exactly the four levels the risk validator accepts |
| `Recommendation.RecommendationIgnoresCase` | Lambda/lambda_func_ex.py:184-192 | every case variant of a level gets the same allocation as the level itself |
| `Recommendation.RecommendationOfLowered` | Lambda/lambda_func_ex.py:184 | the allocation depends only on the lower-cased level |
| `Recommendation.ValidatedLevelHasEntry` | Lambda/lambda_func_ex.py:184-192 | a level the validator accepts has its own table entry, so the fallback decides nothing after validation |
| `Recommendation.RecommendationTable` | Lambda/lambda_func_ex.py:184-192 | none gives 100/0, Low gives 60/40, MEDIUM gives 40/60 and high gives 20/80, as bonds/equities |
| `Recommendation.RecommendationFallback` | Lambda/lambda_func_ex.py:185 | an unknown level ("extreme") gives the all-bonds default |
| `Portfolio.DialogChecks` | Lambda/lambda_func_ex.py:220-242 | the three validator results of the dialog branch, in order, each of the validator's shape |
| `Portfolio.FirstInvalid` | Lambda/lambda_func_ex.py:220-251 | the position of the first invalid result: all earlier results are valid, and the one at that position is not (or all are valid) |
| `Portfolio.ClosingContentMentions` | Lambda/lambda_func_ex.py:270-272 | the closing message contains the first name (or "None"), the risk level as given and the recommendation |
| `Portfolio.RecommendPortfolio` | Lambda/lambda_func_ex.py:195-274 | session attributes pass through; in the dialog branch the first failing validator's slot and message are elicited, with the intent name and slots unchanged, or Delegate with unchanged slots when all pass; otherwise a Fulfilled Close with a plain-text message containing the recommendation, the first name and the risk level |
| `Portfolio.DialogElicitsFirstFailure` | Lambda/lambda_func_ex.py:213-258 | age is elicited when it fails; investment amount when age passes and it fails; risk level when both earlier ones pass and it fails; Delegate if and only if all three pass |
| `Portfolio.AgeFailureIgnoresLaterSlots` | Lambda/lambda_func_ex.py:220-229 | once the age fails, the other slots have no influence on the slot elicited or on the message |
| `Portfolio.ScenarioAllValidDelegates` | Lambda/lambda_func_ex.py:213-258 | age 30, amount 10000 and risk "Medium" in the dialog phase give Delegate with the slots and attributes unchanged |
| `Portfolio.ScenarioAgeTooHigh` | Lambda/lambda_func_ex.py:220-229 | age 70 in the dialog phase elicits `age` again, with slots and attributes unchanged |
| `Portfolio.ScenarioFulfilment` | Lambda/lambda_func_ex.py:260-274 | fulfilment with risk "medium" closes as Fulfilled, and the message contains "40% bonds (AGG), 60% equities (SPY)" |
| `Portfolio.Dispatch` | Lambda/lambda_func_ex.py:278-290 | succeeds if and only if the intent is `recommendPortfolio`, and then returns the portfolio handler's response; any other name fails with "Intent with name ... not supported" |
| `Portfolio.ScenarioUnknownIntent` | Lambda/lambda_func_ex.py:287-290 | the intent name "unknown" yields the error and no response |

## Left out

- Logging (lines 6-11, every `logger` call, and the `logging.error` call on line 21): an observability side effect with no functional content.
- `lambda_handler` and the `json.dumps` of the event (lines 294-300): runtime plumbing. The model starts at `dispatch`, with the event already decoded into a typed `Request`.
- `get_slots` (lines 40-44) is the map lookup `req.slots[...]`. It is not a separate member.
- Missing slot keys: the handler reads all four slots unconditionally, and a missing key raises `KeyError`. `RecommendPortfolio` requires that the keys exist, because the bot service always sends every slot of the intent.
- Fulfilment with no risk level: `.lower()` on `None` raises. `RecommendPortfolio` requires a present risk level outside the dialog phase.
- `Numbers.ParseInt`: accepts ASCII whitespace (space, tab, newline, carriage return, vertical tab, form feed), an optional sign, and ASCII digits with single underscores between digits. Python's `int()` also accepts other Unicode whitespace and Unicode decimal digits (`int("٧٠") == 70`). The model reads those as NaN, and so accepts them in validation where Python may reject them: `NonNumericAgeAccepted` and `NonNumericInvestmentAccepted` are about the modelled alphabet only.
- `Numbers.ParseInt`: has no digit limit. CPython 3.11, and the 3.7.14 to 3.10.7 security releases, make `int()` raise `ValueError` on a base-10 literal of more than 4300 digits, with leading zeros counted. The limit can be changed through `PYTHONINTMAXSTRDIGITS` or `sys.set_int_max_str_digits`. `parse_int` turns that error into NaN, so on those runtimes an over-long literal is accepted as an age or an amount, for example `"0"*4300 + "70"`. The model parses it as its value instead: 70, which is refused, or, for `"1" + "0"*4300`, an amount that is accepted either way. The limit depends on the Python version and configuration, so the model leaves it out. The same caveat applies to `ParseShowRoundTrip`, `AgeAcceptedIffInRange` and `InvestmentAcceptedIffAtLeastMinimum`, because on those runtimes `str(n)` also raises beyond 4300 digits.
- `Numbers.ParseShowRoundTrip`: holds on runtimes with CPython's digit limit only for integers of at most 4300 digits, because beyond that `str(n)` raises.
- `Validators.AgeAcceptedIffInRange`: holds on runtimes with CPython's digit limit only for integers of at most 4300 digits. A longer literal is NaN there, and so is accepted.
- `Validators.InvestmentAcceptedIffAtLeastMinimum`: holds on runtimes with CPython's digit limit only for integers of at most 4300 digits. A longer literal is NaN there, and so is accepted.
- `Text.Lower`: lower-cases ASCII letters only and keeps the length. Python's `str.lower()` also maps non-ASCII letters, and can lengthen a string (`"İ".lower()` has two code points). No non-ASCII character lower-cases to one of none, low, medium or high, so the validity test and the lookup are unaffected. The lowered string is never echoed, as both messages print the risk level as given, so no output differs.
- The float NaN value itself is the `NaN` case of `Number`, and its text is "nan". That text is never shown, because NaN is never rejected.
- The unused `datetime` and `relativedelta` imports, the assignment docstring (lines 92-109) and the page-footer text after the code (lines 301-315), which is not code.
