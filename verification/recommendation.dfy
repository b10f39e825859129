/** `get_investment_recommendation`: the risk level, ignoring case, picks one
    of four fixed bond/equity allocations. */
module Recommendation {
  import opened Basics
  import opened Text
  import opened Validators

  const AllBonds := "100% bonds (AGG), 0% equities (SPY)"
  const MostlyBonds := "60% bonds (AGG), 40% equities (SPY)"
  const MostlyEquities := "40% bonds (AGG), 60% equities (SPY)"
  const AggressiveEquities := "20% bonds (AGG), 80% equities (SPY)"

  /** The allocation table the bot is meant to follow, one entry per risk level. */
  const Allocations: map<string, string> :=
    map["none" := AllBonds, "low" := MostlyBonds, "medium" := MostlyEquities, "high" := AggressiveEquities]

  /** `get_investment_recommendation`: the table entry for the lower-cased risk
      level, and the "none" allocation for every level the table lacks. */
  function GetInvestmentRecommendation(risk: string): (r: string)
    ensures Lower(risk) in Allocations ==> r == Allocations[Lower(risk)]
    ensures Lower(risk) !in Allocations ==> r == Allocations["none"]
    ensures r in Allocations.Values
  {
    var level := Lower(risk);
    if level == "low" then MostlyBonds
    else if level == "medium" then MostlyEquities
    else if level == "high" then AggressiveEquities
    else AllBonds
  }

  /** The table has an entry for exactly the levels the risk validator accepts. */
  lemma AllocationsCoverValidLevels()
    ensures forall level :: level in Allocations <==> level in ValidRiskLevels
  {
  }

  /** Any spelling of a level in any mix of cases gets that level's allocation. */
  lemma RecommendationIgnoresCase(s: string, level: string)
    requires NoCapitals(level) && CaseVariant(s, level)
    ensures GetInvestmentRecommendation(s) == GetInvestmentRecommendation(level)
  {
    LowerMatchesCaseVariant(s, level);
    LowerMatchesCaseVariant(level, level);
  }

  /** After validation the fallback is never what decides the answer: every
      accepted risk level has its own table entry. */
  lemma ValidatedLevelHasEntry(risk: string)
    requires ValidRiskLevel(Some(risk)).isValid
    ensures Lower(risk) in Allocations
    ensures GetInvestmentRecommendation(risk) == Allocations[Lower(risk)]
  {
    AllocationsCoverValidLevels();
  }

  /** The four allocations, whatever the case of the level's spelling. */
  lemma RecommendationTable()
    ensures GetInvestmentRecommendation("none") == AllBonds
    ensures GetInvestmentRecommendation("Low") == MostlyBonds
    ensures GetInvestmentRecommendation("MEDIUM") == MostlyEquities
    ensures GetInvestmentRecommendation("high") == AggressiveEquities
  {
    assert Lower("none") == "none";
    RecommendationOfLowered("none");
    assert Lower("Low") == "low";
    RecommendationOfLowered("Low");
    assert Lower("MEDIUM") == "medium";
    RecommendationOfLowered("MEDIUM");
    assert Lower("high") == "high";
    RecommendationOfLowered("high");
  }

  /** A level outside the table gets the all-bonds allocation. */
  lemma RecommendationFallback()
    ensures GetInvestmentRecommendation("extreme") == AllBonds
  {
    assert Lower("extreme") == "extreme";
    RecommendationOfLowered("extreme");
  }

  /** The recommendation depends on the lower-cased level only. */
  lemma RecommendationOfLowered(s: string)
    ensures GetInvestmentRecommendation(s) == GetInvestmentRecommendation(Lower(s))
  {
    LowerIdempotent(s);
  }
}
