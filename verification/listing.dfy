/** What the loan listing derives from a stored loan. */
module Listing {

  /** Installments still to pay: the tenure less those paid on time, never below zero. */
  function RepaymentsLeft(tenure: int, emisPaidOnTime: int): (left: int)
    ensures left >= 0
    ensures left >= tenure - emisPaidOnTime
    ensures left == 0 || left == tenure - emisPaidOnTime
  {
    if tenure - emisPaidOnTime > 0 then tenure - emisPaidOnTime else 0
  }
}
