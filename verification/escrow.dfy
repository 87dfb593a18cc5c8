/** What the job views can see of the escrow ledger and the delay registry.
    Their operations (locking, releasing, creating and reviewing delay
    reports) are defined outside the model; a view receives each one's
    outcome as a `Step`: a failure, or the table as the operation left it. */
module Escrow {
  import opened Market

  datatype TxKind = InitialDeposit | RemainingDeposit | InitialRelease | FinalRelease | PlatformFee | Refund

  datatype TxStatus = Locked | Released | Refunded

  /** One escrow transaction row, as far as the views and reports read it;
      `amountUsdc` is in USDC cents. */
  datatype EscrowTx = EscrowTx(job: JobId, kind: TxKind, status: TxStatus, amountUsdc: int)

  /** `EscrowTransaction.objects.filter(job=j, transaction_type=kind, status=status).exists()` */
  predicate HasTx(ledger: seq<EscrowTx>, j: JobId, kind: TxKind, status: TxStatus) {
    exists i :: 0 <= i < |ledger| && ledger[i].job == j && ledger[i].kind == kind && ledger[i].status == status
  }

  /** The outcome of an operation whose definition lies outside the model. */
  datatype Step<T> = Fails | Succeeds(next: T)

  datatype DelayStatus = Pending | Accepted | Rejected

  /** One delay-registry row as the review view reads it. */
  datatype DelayEntry = DelayEntry(bid: BidId, status: DelayStatus)
}
