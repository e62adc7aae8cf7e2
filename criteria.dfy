/** The per-year promotion thresholds of src/config/criteria.ts. */
module Criteria {
  import opened Types

  /** No more than 4 final grades below 4, average at least 4, total deficit at most 2. */
  const Year1Criteria := PromotionCriteria(4.0, 4.0, 2.0)
  const Year2Criteria := PromotionCriteria(4.0, 4.0, 2.0)
  const Year3Criteria := PromotionCriteria(4.0, 4.0, 2.0)

  /** `getCriteriaForYear`: total over the three years. Every year's record
      allows at most 4 failures, needs an average of 4 and allows a deficit of
      2; maxFailures is a non-negative whole number, maxDeficit non-negative. */
  function GetCriteriaForYear(year: Year): (c: PromotionCriteria)
    ensures c.maxFailures == 4.0 && c.minAverage == 4.0 && c.maxDeficit == 2.0
    ensures c.maxFailures >= 0.0 && c.maxFailures.Floor as real == c.maxFailures && c.maxDeficit >= 0.0
    ensures year == 1 ==> c == Year1Criteria
    ensures year == 2 ==> c == Year2Criteria
    ensures year == 3 ==> c == Year3Criteria
  {
    match year
    case 1 => Year1Criteria
    case 2 => Year2Criteria
    case 3 => Year3Criteria
  }
}
