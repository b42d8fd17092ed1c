/**
 * The decision policy: the score decides approval and raises the requested
 * interest rate to a floor that depends on the score band.
 */
module Policy {

  /** Whether the loan is approved, and the rate it is offered at. */
  datatype Terms = Terms(approved: bool, correctedRate: real)

  /**
   * Above 50 the rate stands; above 30 it is raised to at least 12; above 10
   * to at least 16; at 10 or below the loan is rejected at the requested rate.
   */
  function Decide(score: real, requestedRate: real): (terms: Terms)
    ensures terms.approved <==> score > 10.0
    ensures terms.correctedRate >= requestedRate
    ensures terms.correctedRate in {requestedRate, 12.0, 16.0}
    ensures !terms.approved ==> terms.correctedRate == requestedRate
  {
    if score > 50.0 then Terms(true, requestedRate)
    else if 30.0 < score <= 50.0 then Terms(true, if requestedRate < 12.0 then 12.0 else requestedRate)
    else if 10.0 < score <= 30.0 then Terms(true, if requestedRate < 16.0 then 16.0 else requestedRate)
    else Terms(false, requestedRate)
  }

  function Max(x: real, y: real): real {
    if x >= y then x else y
  }

  /** The corrected rate band by band, as the larger of the requested rate and the band's floor. */
  lemma DecideBands(score: real, requestedRate: real)
    ensures score > 50.0 ==> Decide(score, requestedRate).correctedRate == requestedRate
    ensures 30.0 < score <= 50.0 ==> Decide(score, requestedRate).correctedRate == Max(requestedRate, 12.0)
    ensures 10.0 < score <= 30.0 ==> Decide(score, requestedRate).correctedRate == Max(requestedRate, 16.0)
  {
  }

  /**
   * Among approved scores, a higher score never earns a higher corrected
   * rate. (A rejected score reports the requested rate, which may be lower.)
   */
  lemma DecideMonotone(lower: real, higher: real, requestedRate: real)
    requires 10.0 < lower <= higher
    ensures Decide(lower, requestedRate).correctedRate >= Decide(higher, requestedRate).correctedRate
  {
  }
}
