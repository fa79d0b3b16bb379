/**
 Properties of the reducer `StateUpdater.Update` and of the three updater
 constructors, stated for every validation policy `validate`.
 */
module UpdaterProperties {
  import opened TraderModel
  import opened StateUpdater

  /** An absent prior state behaves exactly as the initial state, and a
      rejected update on an absent state keeps the initial state. */
  lemma AbsentStateIsInit(validate: TraderState -> TxnResultType, u: Updater)
    ensures Update(validate, u, None) == Update(validate, u, Some(Init))
    ensures Update(validate, u, None).status != Accepted ==> Update(validate, u, None).state == Init
  {
  }

  /** The settled state is the bailed-out candidate (+10 coins, +5 shares,
      +1 bailout, fed monkeys unchanged) exactly when the updater is not a
      bailout, the candidate has at most one coin or no shares, and the inner
      validation accepts the bailed-out state; otherwise it is the candidate. */
  lemma SettleCases(validate: TraderState -> TxnResultType, u: Updater, s: TraderState)
    ensures var c := ApplyDiff(s, u);
      var b := TraderState(c.coins + 10.0, c.shares + 5, c.bailouts + 1, c.fedMonkeys);
      Settle(validate, u, s) ==
        if !u.kind.Bailout? && (c.coins <= 1.0 || c.shares <= 0) && validate(b) == Accepted then b else c
  {
  }

  /** The bailout updater can never trigger another bailout, whatever the
      state, so compensation is at most one pass deep; on any state it adds
      10 coins, 5 shares and one bailout and leaves the fed monkeys alone. */
  lemma BailoutUpdaterIsTerminal(c: TraderState)
    ensures BailoutUpdater.kind.Bailout? && BailoutUpdater.txnId == "bailout"
    ensures !NeedsBailout(BailoutUpdater, c)
    ensures ApplyDiff(c, BailoutUpdater) == TraderState(c.coins + 10.0, c.shares + 5, c.bailouts + 1, c.fedMonkeys)
    ensures Settle(c0 => Accepted, BailoutUpdater, c) == ApplyDiff(c, BailoutUpdater)
  {
  }

  /** Applying any BAILOUT-typed updater never compensates: the outcome is
      its plain diff when that validates, and the prior state otherwise. */
  lemma BailoutKindNeverCompensates(validate: TraderState -> TxnResultType, u: Updater, s: TraderState)
    requires u.kind.Bailout?
    ensures var r := Update(validate, u, Some(s));
      var c := ApplyDiff(s, u);
      && r.status == validate(c)
      && r.state == (if validate(c) == Accepted then c else s)
  {
  }

  /** The kept state is never an intermediate one: it is the prior state or
      the fully settled state, and the prior one exactly when rejected. */
  lemma KeptStateIsPriorOrSettled(validate: TraderState -> TxnResultType, u: Updater, s: TraderState)
    ensures var r := Update(validate, u, Some(s));
      && (r.state == s || r.state == Settle(validate, u, s))
      && (r.status != Accepted ==> r.state == s)
  {
  }

  /** The whole result of one update: the updater's id and type name, the
      validation of the settled state as status, and the settled state or the
      prior one according to that status. */
  lemma UpdateOutcome(validate: TraderState -> TxnResultType, u: Updater, s: TraderState)
    ensures var settled := Settle(validate, u, s);
      Update(validate, u, Some(s)) ==
        TxnResult(u.txnId, u.kind.Name(), if validate(settled) == Accepted then settled else s, validate(settled))
  {
  }

  /** A bailout paid on behalf of an update that is then rejected is
      discarded with it: the prior state comes back unchanged. */
  lemma RejectedUpdateDiscardsBailout(validate: TraderState -> TxnResultType, u: Updater, s: TraderState)
    requires NeedsBailout(u, ApplyDiff(s, u))
    requires validate(Compensate(validate, ApplyDiff(s, u))) != Accepted
    ensures Update(validate, u, Some(s)).state == s
  {
  }

  /** When the inner validation rejects the bailed-out state, the bailout is
      silently dropped, yet the outer call validates the uncompensated
      candidate a second time and may commit it, insolvent as it is. */
  lemma DroppedBailoutStillCommits(validate: TraderState -> TxnResultType, u: Updater, s: TraderState)
    requires NeedsBailout(u, ApplyDiff(s, u))
    requires validate(ApplyDiff(ApplyDiff(s, u), BailoutUpdater)) != Accepted
    requires validate(ApplyDiff(s, u)) == Accepted
    ensures var r := Update(validate, u, Some(s));
      && r.status == Accepted
      && r.state == ApplyDiff(s, u)
      && Insolvent(r.state)
  {
  }

  /** A concrete run of that path: an investment of 10 on 5 coins under a
      policy that refuses any bailout commits the account at -5 coins. */
  lemma DroppedBailoutExample()
    ensures var validate := (t: TraderState) => if t.bailouts == 0 then Accepted else Rejected("NO_BAILOUT");
      Update(validate, FromInvestment(Investment("t1", 10.0)), Some(TraderState(5.0, 10, 0, 0)))
        == TxnResult("t1", "INVEST", TraderState(-5.0, 10, 0, 0), Accepted)
  {
  }

  /** One update adds at most two bailouts (its own flag and one
      compensation) and never removes any. */
  lemma UpdateBailoutsBounds(validate: TraderState -> TxnResultType, u: Updater, s: TraderState)
    ensures var r := Update(validate, u, Some(s));
      s.bailouts <= r.state.bailouts <= s.bailouts + 2
    ensures !u.addBailout ==> Update(validate, u, Some(s)).state.bailouts <= s.bailouts + 1
  {
  }

  /** A market trade whose coin sign is opposite to its share sign (a buy
      or a sell) preserves the account's worth at the trade price. */
  lemma MarketTradeKeepsWorth(order: MarketOrder, sharePrice: real, s: TraderState)
    requires order.coinSign == -order.shareSign
    ensures var c := ApplyDiff(s, FromMarketOrder(order, sharePrice));
      c.coins + c.shares as real * sharePrice == s.coins + s.shares as real * sharePrice
    ensures ApplyDiff(s, FromMarketOrder(order, sharePrice)).bailouts == s.bailouts
  {
  }

  /** A buy (coin sign -1, share sign +1) adds the ordered shares and pays
      their price in coins; nothing else changes. */
  lemma BuyAddsShares(order: MarketOrder, sharePrice: real, s: TraderState)
    requires order.coinSign == -1 && order.shareSign == 1
    ensures ApplyDiff(s, FromMarketOrder(order, sharePrice))
      == s.(coins := s.coins - order.shares as real * sharePrice, shares := s.shares + order.shares)
  {
  }

  /** A sell (coin sign +1, share sign -1) removes the ordered shares and
      earns their price in coins; nothing else changes. */
  lemma SellRemovesShares(order: MarketOrder, sharePrice: real, s: TraderState)
    requires order.coinSign == 1 && order.shareSign == -1
    ensures ApplyDiff(s, FromMarketOrder(order, sharePrice))
      == s.(coins := s.coins + order.shares as real * sharePrice, shares := s.shares - order.shares)
  {
  }

  /** An investment only moves coins: the candidate is the state with
      `invested` fewer coins. */
  lemma InvestmentOnlyTakesCoins(investment: Investment, s: TraderState)
    ensures ApplyDiff(s, FromInvestment(investment)) == s.(coins := s.coins - investment.invested)
  {
  }

  /** A bailout after an investment gives back 10 coins on top of what is
      left, 5 more shares and one more bailout. */
  lemma InvestmentThenBailout(investment: Investment, s: TraderState)
    ensures ApplyDiff(ApplyDiff(s, FromInvestment(investment)), BailoutUpdater)
      == TraderState(s.coins - investment.invested + 10.0, s.shares + 5, s.bailouts + 1, s.fedMonkeys)
  {
    InvestmentOnlyTakesCoins(investment, s);
  }

  /** Feeding moves exactly the fed monkeys from the shares to the fed-monkey
      counter; coins and bailouts are untouched. */
  lemma FeedMovesSharesToMonkeys(feed: FeedMonkeys, s: TraderState)
    ensures ApplyDiff(s, FromFeedMonkeys(feed))
      == s.(shares := s.shares - feed.monkeys, fedMonkeys := s.fedMonkeys + feed.monkeys)
  {
  }

  /** Feeding turns shares into fed monkeys one for one: their sum only
      changes by the five shares of a bailout that was kept. */
  lemma FeedingConservesStock(validate: TraderState -> TxnResultType, feed: FeedMonkeys, s: TraderState)
    ensures var c := ApplyDiff(s, FromFeedMonkeys(feed));
      c.shares + c.fedMonkeys == s.shares + s.fedMonkeys && c.coins == s.coins
    ensures var r := Update(validate, FromFeedMonkeys(feed), Some(s));
      r.state.shares + r.state.fedMonkeys == s.shares + s.fedMonkeys + 5 * (r.state.bailouts - s.bailouts)
  {
  }

  /** The name in the result identifies the updater's type. */
  lemma NameIdentifiesType(a: UpdaterType, b: UpdaterType)
    ensures a.Name() == b.Name() <==> a == b
  {
  }

  /** An investment that leaves more than one coin and some shares needs no
      bailout: when the state with `invested` fewer coins validates, it is
      committed as is. */
  lemma SolventInvestmentCommits(validate: TraderState -> TxnResultType, investment: Investment, s: TraderState)
    requires !Insolvent(s.(coins := s.coins - investment.invested))
    requires validate(s.(coins := s.coins - investment.invested)) == Accepted
    ensures Update(validate, FromInvestment(investment), Some(s))
      == TxnResult(investment.txnId, Invest.Name(), s.(coins := s.coins - investment.invested), Accepted)
  {
    var u := FromInvestment(investment);
    var c := ApplyDiff(s, u);
    InvestmentOnlyTakesCoins(investment, s);
    assert !NeedsBailout(u, c);
    assert Settle(validate, u, s) == c;
    UpdateOutcome(validate, u, s);
  }

  /** An investment that leaves at most one coin (or no shares) is bailed
      out: +10 coins, +5 shares, +1 bailout, committed as one unit when the
      bailed-out state validates. */
  lemma InsolventInvestmentBailedOut(validate: TraderState -> TxnResultType, investment: Investment, s: TraderState)
    requires Insolvent(s.(coins := s.coins - investment.invested))
    requires validate(TraderState(s.coins - investment.invested + 10.0, s.shares + 5, s.bailouts + 1, s.fedMonkeys)) == Accepted
    ensures Update(validate, FromInvestment(investment), Some(s))
      == TxnResult(investment.txnId, Invest.Name(),
                   TraderState(s.coins - investment.invested + 10.0, s.shares + 5, s.bailouts + 1, s.fedMonkeys), Accepted)
  {
    var u := FromInvestment(investment);
    var c := ApplyDiff(s, u);
    InvestmentOnlyTakesCoins(investment, s);
    var b := ApplyDiff(c, BailoutUpdater);
    InvestmentThenBailout(investment, s);
    assert NeedsBailout(u, c);
    assert Compensate(validate, c) == b;
    assert Settle(validate, u, s) == b;
    UpdateOutcome(validate, u, s);
  }

  /** The same investment when the bailed-out state is refused: the bailout
      is dropped, the uncompensated candidate is validated again, and only
      when that is refused too does the account stay as it was. */
  lemma InsolventInvestmentRollsBack(validate: TraderState -> TxnResultType, investment: Investment, s: TraderState, reason: string)
    requires Insolvent(s.(coins := s.coins - investment.invested))
    requires validate(TraderState(s.coins - investment.invested + 10.0, s.shares + 5, s.bailouts + 1, s.fedMonkeys)) != Accepted
    requires validate(s.(coins := s.coins - investment.invested)) == Rejected(reason)
    ensures Update(validate, FromInvestment(investment), Some(s))
      == TxnResult(investment.txnId, Invest.Name(), s, Rejected(reason))
  {
    var u := FromInvestment(investment);
    var c := ApplyDiff(s, u);
    InvestmentOnlyTakesCoins(investment, s);
    var b := ApplyDiff(c, BailoutUpdater);
    InvestmentThenBailout(investment, s);
    assert NeedsBailout(u, c);
    assert Compensate(validate, c) == c;
    assert Settle(validate, u, s) == c;
    UpdateOutcome(validate, u, s);
  }

  /** Feeding the last shares leaves none, so a bailout is paid on top of
      the feeding when the result validates. */
  lemma FeedingLastSharesBailedOut(validate: TraderState -> TxnResultType, feed: FeedMonkeys, s: TraderState)
    requires s.shares - feed.monkeys <= 0
    requires validate(TraderState(s.coins + 10.0, s.shares - feed.monkeys + 5, s.bailouts + 1, s.fedMonkeys + feed.monkeys)) == Accepted
    ensures Update(validate, FromFeedMonkeys(feed), Some(s))
      == TxnResult(feed.txnId, Feed.Name(),
                   TraderState(s.coins + 10.0, s.shares - feed.monkeys + 5, s.bailouts + 1, s.fedMonkeys + feed.monkeys), Accepted)
  {
  }
}
