/**
 The reducer used as a fold: each trader's updates are applied in order, the
 kept state of one update being the prior state of the next.
 */
module Ledger {
  import opened TraderModel
  import opened StateUpdater

  /** The state after applying `updates` in order to `s`. Whatever the
      validation policy, the bailout counter never goes down and grows by at
      most two per update (the update's own flag and one compensation). */
  function Replay(validate: TraderState -> TxnResultType, s: TraderState, updates: seq<Updater>): (r: TraderState)
    decreases |updates|
    ensures s.bailouts <= r.bailouts <= s.bailouts + 2 * |updates|
  {
    if |updates| == 0 then s
    else Replay(validate, Update(validate, updates[0], Some(s)).state, updates[1..])
  }

  /** Replaying two batches one after the other is replaying their
      concatenation: the fold can be resumed from any kept state. */
  lemma {:induction false} ReplayConcat(validate: TraderState -> TxnResultType, s: TraderState, xs: seq<Updater>, ys: seq<Updater>)
    ensures Replay(validate, s, xs + ys) == Replay(validate, Replay(validate, s, xs), ys)
    decreases |xs|
  {
    if |xs| == 0 {
      assert xs + ys == ys;
    } else {
      var next := Update(validate, xs[0], Some(s)).state;
      assert (xs + ys)[1..] == xs[1..] + ys;
      ReplayConcat(validate, next, xs[1..], ys);
    }
  }

  /** Updates that are all refused leave the account exactly as it was. */
  lemma {:induction false} RejectedUpdatesLeaveStateUnchanged(validate: TraderState -> TxnResultType, s: TraderState, updates: seq<Updater>)
    requires forall i :: 0 <= i < |updates| ==> validate(Settle(validate, updates[i], s)) != Accepted
    ensures Replay(validate, s, updates) == s
    decreases |updates|
  {
    if |updates| > 0 {
      assert Update(validate, updates[0], Some(s)).state == s;
      assert forall i :: 0 <= i < |updates[1..]| ==> validate(Settle(validate, updates[1..][i], s)) != Accepted by {
        forall i | 0 <= i < |updates[1..]|
          ensures validate(Settle(validate, updates[1..][i], s)) != Accepted
        {
          assert updates[1..][i] == updates[i + 1];
        }
      }
      RejectedUpdatesLeaveStateUnchanged(validate, s, updates[1..]);
    }
  }
}
