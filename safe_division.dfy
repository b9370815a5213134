/**
 * Guarded division (`safe_div`, src/cleaning_pipeline.py:32-37) and the
 * value-level facts about the ratios the cleaning script derives with it.
 * Arithmetic is exact: IEEE rounding is not modelled and NaN is `None`.
 */
module SafeDivision {
  import opened Wrappers

  /**
   * `safe_div(num, den)`: missing (NaN) exactly when the denominator is 0,
   * otherwise the quotient, i.e. the number that multiplied by `den` gives `num`.
   */
  function SafeDiv(num: real, den: real): (r: Option<real>)
    ensures r.None? <==> den == 0.0
    ensures r.Some? ==> r.value * den == num
  {
    if den == 0.0 then None else Some(num / den)
  }

  /** The quotient is the only value that satisfies `q * den == num`. */
  lemma SafeDivUnique(num: real, den: real, q: real)
    requires q * den == num && den != 0.0
    ensures SafeDiv(num, den) == Some(q)
  {
    assert q == (q * den) / den;
  }

  /** A non-negative part divided by a whole that contains it lies in [0, 1]. */
  lemma PartOfWholeInUnit(part: real, whole: real)
    requires 0.0 <= part <= whole
    ensures SafeDiv(part, whole).Some? ==> 0.0 <= SafeDiv(part, whole).value <= 1.0
  {
  }

  /**
   * `cancellation_rate` (lines 93-95): cancelled flights over all handled
   * flights, whose count is arr_flights + arr_cancelled + arr_diverted.
   */
  function CancellationRate(flights: real, cancelled: real, diverted: real): Option<real> {
    SafeDiv(cancelled, flights + cancelled + diverted)
  }

  /**
   * With non-negative counts the cancellation rate is missing only when all
   * three counts are 0, and otherwise lies in [0, 1] because its denominator
   * contains its numerator.
   */
  lemma CancellationRateInUnit(flights: real, cancelled: real, diverted: real)
    requires 0.0 <= flights && 0.0 <= cancelled && 0.0 <= diverted
    ensures CancellationRate(flights, cancelled, diverted).None? <==> flights == cancelled == diverted == 0.0
    ensures CancellationRate(flights, cancelled, diverted).Some? ==>
              0.0 <= CancellationRate(flights, cancelled, diverted).value <= 1.0
  {
    PartOfWholeInUnit(cancelled, flights + cancelled + diverted);
  }

  /**
   * The denominator includes cancelled and diverted flights: a row with no
   * completed arrivals but some cancellations has rate 1, not a missing value.
   */
  lemma CancellationRateAllCancelled(cancelled: real)
    requires cancelled > 0.0
    ensures CancellationRate(0.0, cancelled, 0.0) == Some(1.0)
  {
    SafeDivUnique(cancelled, cancelled, 1.0);
  }
}
