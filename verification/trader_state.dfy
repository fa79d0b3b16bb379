/**
 The collaborator types the state reducer works with: a trader's account
 snapshot, the status its validation yields, and the transaction result the
 reducer emits. Their Java classes live outside the reducer's file; only the
 parts the reducer touches are modelled here.
 */
module TraderModel {

  /** A value that may be absent; stands for a Java reference that may be null. */
  datatype Option<+T> = None | Some(value: T) {

    /** The carried value, or `default` when absent. */
    function GetOr(default: T): T
    {
      match this
      case Some(v) => v
      case None => default
    }
  }

  /** One trader's account: coins, shares, bailouts received, monkeys fed.
      Coins are a double in the program and a `real` here. */
  datatype TraderState = TraderState(coins: real, shares: int, bailouts: int, fedMonkeys: int)

  /** The state of a trader that has no record yet (`TraderState.init()`),
      taken to be all zero. */
  const Init := TraderState(0.0, 0, 0, 0)

  /** Outcome of `TraderState.validate()`. The reducer only distinguishes
      ACCEPTED from the rest; every other constant of the enumeration is a
      `Rejected` carrying that constant's name. */
  datatype TxnResultType = Accepted | Rejected(reason: string)

  /** What the reducer emits per update: the updater's transaction id, the
      name of its type, the state that is kept, and the validation status. */
  datatype TxnResult = TxnResult(txnId: string, kind: string, state: TraderState, status: TxnResultType)
}
