/**
 The per-trader state reducer. An updater carries an additive diff; `Update`
 folds it into the trader's prior state, pays a fixed bailout when the result
 is insolvent, asks the state to validate itself, and keeps either the whole
 new state or the prior one. The three `From...` functions turn a market order,
 an investment and a feeding action into updaters.
 */
module StateUpdater {
  import opened TraderModel

  /** The kinds of update. RETURN is declared by the program but never built
      nor treated specially: it flows through `Update` like any non-BAILOUT kind. */
  datatype UpdaterType = Market | Invest | Feed | Bailout | Return {

    /** The enum constant's name, as `Type.name()` yields it. */
    function Name(): string {
      match this
      case Market => "MARKET"
      case Invest => "INVEST"
      case Feed => "FEED"
      case Bailout => "BAILOUT"
      case Return => "RETURN"
    }
  }

  /** An update event. The wall-clock timestamp the program stamps on it is
      not modelled; `fedMonkeys` is the diff to the fed-monkey counter. */
  datatype Updater = Updater(
    txnId: string,
    kind: UpdaterType,
    coinsDiff: real,
    sharesDiff: int,
    addBailout: bool,
    fedMonkeys: int)

  /** The one compensating transaction: +10 coins, +5 shares, one more bailout. */
  const BailoutUpdater := Updater("bailout", Bailout, 10.0, 5, true, 0)

  /** The state with the updater's diff added field by field: each counter
      moves by exactly its diff, and the bailout counter by one when the
      updater asks for a bailout and not at all otherwise. */
  function ApplyDiff(s: TraderState, u: Updater): (r: TraderState)
    ensures r.coins - s.coins == u.coinsDiff
    ensures r.shares - s.shares == u.sharesDiff
    ensures r.fedMonkeys - s.fedMonkeys == u.fedMonkeys
    ensures u.addBailout <==> r.bailouts == s.bailouts + 1
    ensures !u.addBailout <==> r.bailouts == s.bailouts
  {
    TraderState(
      s.coins + u.coinsDiff,
      s.shares + u.sharesDiff,
      s.bailouts + (if u.addBailout then 1 else 0),
      s.fedMonkeys + u.fedMonkeys)
  }

  /** At most one coin, or no shares left. */
  predicate Insolvent(s: TraderState) {
    s.coins <= 1.0 || s.shares <= 0
  }

  /** Whether the reducer pays a bailout on the post-diff candidate `c`. */
  predicate NeedsBailout(u: Updater, c: TraderState) {
    !u.kind.Bailout? && Insolvent(c)
  }

  /** The reducer as the program writes it: the bailout is a recursive
      `Update` with `BailoutUpdater`, whose own kind keeps it from recursing
      again. The outcome is described by the two-phase reading `Settle`: the
      status is the validation of the settled state, and the kept state is the
      settled state when accepted and the (defaulted) prior state otherwise. */
  function Update(validate: TraderState -> TxnResultType, u: Updater, prior: Option<TraderState>): (r: TxnResult)
    decreases if u.kind.Bailout? then 0 else 1
    ensures r.txnId == u.txnId && r.kind == u.kind.Name()
    ensures r.status == validate(Settle(validate, u, prior.GetOr(Init)))
    ensures r.status == Accepted ==> r.state == Settle(validate, u, prior.GetOr(Init))
    ensures r.status != Accepted ==> r.state == prior.GetOr(Init)
  {
    var state := prior.GetOr(Init);
    var newState := ApplyDiff(state, u);
    var newState' := if !u.kind.Bailout? && (newState.coins <= 1.0 || newState.shares <= 0)
      then Update(validate, BailoutUpdater, Some(newState)).state
      else newState;
    var status := validate(newState');
    var keptState := if status == Accepted then newState' else state;
    TxnResult(u.txnId, u.kind.Name(), keptState, status)
  }

  /** The reducer as a two-phase pipeline, without recursion: add the diff,
      then, if a bailout is due, add the bailout diff provided the bailed-out
      state validates, else keep the candidate as it is. */
  function Settle(validate: TraderState -> TxnResultType, u: Updater, s: TraderState): TraderState {
    var c := ApplyDiff(s, u);
    if NeedsBailout(u, c) then Compensate(validate, c) else c
  }

  /** The state the inner bailout call hands back for candidate `c`. */
  function Compensate(validate: TraderState -> TxnResultType, c: TraderState): TraderState {
    var b := ApplyDiff(c, BailoutUpdater);
    if validate(b) == Accepted then b else c
  }

  /** A domain market order. The signs come from the order's type (buy or
      sell), whose definition is not part of this model. */
  datatype MarketOrder = MarketOrder(txnId: string, coinSign: int, shareSign: int, shares: int)

  /** A domain investment of `invested` coins. */
  datatype Investment = Investment(txnId: string, invested: real)

  /** A domain feeding action: `monkeys` shares are fed to monkeys. */
  datatype FeedMonkeys = FeedMonkeys(txnId: string, monkeys: int)

  /** The updater for a market order executed at `sharePrice`: the order's
      signed share count moves shares, and the same count at the price, with
      the coin sign, moves coins. */
  function FromMarketOrder(order: MarketOrder, sharePrice: real): (u: Updater)
    ensures u.txnId == order.txnId && u.kind == Market
    ensures !u.addBailout && u.fedMonkeys == 0
    ensures u.sharesDiff == order.shareSign * order.shares
    ensures u.coinsDiff == order.coinSign as real * (order.shares as real * sharePrice)
  {
    Updater(
      order.txnId,
      Market,
      (order.coinSign * order.shares) as real * sharePrice,
      order.shareSign * order.shares,
      false,
      0)
  }

  /** The updater for an investment: it only takes coins away. */
  function FromInvestment(investment: Investment): (u: Updater)
    ensures u.txnId == investment.txnId && u.kind == Invest
    ensures !u.addBailout && u.sharesDiff == 0 && u.fedMonkeys == 0
    ensures u.coinsDiff == -investment.invested
  {
    Updater(investment.txnId, Invest, -1.0 * investment.invested, 0, false, 0)
  }

  /** The updater for a feeding action: the fed monkeys are taken from the
      shares one for one. */
  function FromFeedMonkeys(feed: FeedMonkeys): (u: Updater)
    ensures u.txnId == feed.txnId && u.kind == Feed
    ensures !u.addBailout && u.coinsDiff == 0.0
    ensures u.fedMonkeys == feed.monkeys && u.sharesDiff == -u.fedMonkeys
  {
    Updater(feed.txnId, Feed, 0.0, -1 * feed.monkeys, false, feed.monkeys)
  }
}
