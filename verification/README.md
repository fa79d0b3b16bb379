# Trader state reducer

A Dafny model of the per-trader state reducer of the Monkonomy trading game
(`TraderStateUpdater`). A trader's account holds coins, shares, a bailout
counter and a fed-monkey counter. Each update event carries an additive diff.
`update` folds one event into the prior account state:

1. An absent state becomes the initial state.
2. The diff is added field by field.
3. If the event is not itself a bailout and the result has at most one coin or
   no shares, the fixed bailout updater (+10 coins, +5 shares, +1 bailout) is
   applied through a recursive `update` call.
4. The state validates itself.
5. The whole new state is kept when the status is ACCEPTED, and the prior
   state otherwise.

Three constructors turn a market order at a price, an investment and a
feeding action into update events.

Files:

- `trader_state.dfy` (module `TraderModel`): the account state, the
  initial state `Init`, the validation status and the transaction result.
- `trader_state_updater.dfy` (module `StateUpdater`): the updater types,
  `BailoutUpdater`, the reducer `Update` written with the same recursive
  self-call as the program, a two-phase reading `Settle`/`Compensate` of
  it (add the diff, then maybe add the bailout) that `Update`'s contract is
  stated against, and the three constructors.
- `updater_properties.dfy` (module `UpdaterProperties`): lemmas about the
  reducer's branches and the constructors, for every validation policy.
- `ledger.dfy` (module `Ledger`): the reducer used as a fold over a
  trader's ordered updates.

`TraderState.validate()` is a parameter `validate: TraderState -> TxnResultType`:
a deterministic function of the four fields. Its status is `Accepted` or
`Rejected(reason)`, where `reason` names any other constant of the status
enumeration.

When the bailed-out state fails validation, the inner `update` returns its
input, which is the uncompensated candidate. The outer call then validates
that candidate a second time, so validation can run twice per update:

- The update commits, without its bailout, whenever the uncompensated
  candidate validates (`UpdaterProperties.DroppedBailoutStillCommits`,
  with a concrete instance in `UpdaterProperties.DroppedBailoutExample`).
- It is rolled back, bailout included, only when the outer validation
  refuses too (`UpdaterProperties.RejectedUpdateDiscardsBailout`). Refusing
  the bailed-out state alone does not roll it back.

`BAILOUT_UPDATER` is the constant `StateUpdater.BailoutUpdater`, and
`Type.name()` is `UpdaterType.Name`. Both are plain values: what the model
relies on about them is stated by `UpdaterProperties.BailoutUpdaterIsTerminal`
(the bailout's fields and effect) and `UpdaterProperties.NameIdentifiesType`
(distinct types have distinct names).

The bailout is at most one call deep: `Update` decreases from any
non-BAILOUT updater to the BAILOUT one, and the bailout updater never needs a
bailout itself (`UpdaterProperties.BailoutUpdaterIsTerminal`).

## Model

| member | source | states |
|---|---|---|
| StateUpdater.Update | monkonomy-kafkastreams-serverapp/src/main/java/io/monkeypatch/mktd6/server/model/TraderStateUpdater.java:105-126 | the result carries the updater's txnId and type name; its status is the validation of the settled state (candidate plus a bailout that was paid and accepted); the kept state is that settled state when ACCEPTED and the (defaulted) prior state otherwise; its `decreases` shows the bailout call is the only nesting and never nests further |
| StateUpdater.ApplyDiff | monkonomy-kafkastreams-serverapp/src/main/java/io/monkeypatch/mktd6/server/model/TraderStateUpdater.java:109-114 | each of coins, shares and fed monkeys moves by exactly the updater's diff; the bailout counter grows by one exactly when the updater asks for a bailout and is unchanged exactly when it does not |
| StateUpdater.FromMarketOrder | monkonomy-kafkastreams-serverapp/src/main/java/io/monkeypatch/mktd6/server/model/TraderStateUpdater.java:128-136 | a market order becomes a MARKET updater with the order's txnId, no bailout flag, no fed monkeys, a share diff of share sign times shares and a coin diff of coin sign times shares times price |
| StateUpdater.FromInvestment | monkonomy-kafkastreams-serverapp/src/main/java/io/monkeypatch/mktd6/server/model/TraderStateUpdater.java:138-146 | an investment becomes an INVEST updater with the investment's txnId whose only diff is minus the invested coins, with no bailout flag |
| StateUpdater.FromFeedMonkeys | monkonomy-kafkastreams-serverapp/src/main/java/io/monkeypatch/mktd6/server/model/TraderStateUpdater.java:148-156 | a feeding action becomes a FEED updater with the action's txnId that feeds exactly the action's monkeys, takes as many shares, changes no coins and asks no bailout |
| UpdaterProperties.AbsentStateIsInit | monkonomy-kafkastreams-serverapp/src/main/java/io/monkeypatch/mktd6/server/model/TraderStateUpdater.java:106-108 | an absent prior state behaves exactly as the initial state, which is also the rollback target |
| UpdaterProperties.SettleCases | monkonomy-kafkastreams-serverapp/src/main/java/io/monkeypatch/mktd6/server/model/TraderStateUpdater.java:117-119 | the settled state is the candidate +10 coins, +5 shares, +1 bailout exactly when the updater is not BAILOUT, the candidate has coins <= 1 or shares <= 0, and the bailed-out state validates; otherwise it is the unchanged candidate |
| UpdaterProperties.BailoutUpdaterIsTerminal | monkonomy-kafkastreams-serverapp/src/main/java/io/monkeypatch/mktd6/server/model/TraderStateUpdater.java:17-17 | the bailout updater is of type BAILOUT with id "bailout", adds 10 coins, 5 shares and one bailout to any state, and never triggers a further bailout, so compensation is one call deep |
| UpdaterProperties.BailoutKindNeverCompensates | monkonomy-kafkastreams-serverapp/src/main/java/io/monkeypatch/mktd6/server/model/TraderStateUpdater.java:117-124 | a BAILOUT-typed updater is never compensated: it commits its plain diff if that validates, else keeps the prior state |
| UpdaterProperties.KeptStateIsPriorOrSettled | monkonomy-kafkastreams-serverapp/src/main/java/io/monkeypatch/mktd6/server/model/TraderStateUpdater.java:121-124 | no intermediate state is ever returned: the kept state is the prior state or the settled state, and the prior state whenever the status is not ACCEPTED |
| UpdaterProperties.UpdateOutcome | monkonomy-kafkastreams-serverapp/src/main/java/io/monkeypatch/mktd6/server/model/TraderStateUpdater.java:121-125 | the whole result of one update on a present state: txnId, type name, the settled or prior state as the status decides, and the status of the settled state |
| UpdaterProperties.RejectedUpdateDiscardsBailout | monkonomy-kafkastreams-serverapp/src/main/java/io/monkeypatch/mktd6/server/model/TraderStateUpdater.java:117-124 | a bailout paid for an update whose outer validation then refuses is discarded with it: the prior state comes back |
| UpdaterProperties.DroppedBailoutStillCommits | monkonomy-kafkastreams-serverapp/src/main/java/io/monkeypatch/mktd6/server/model/TraderStateUpdater.java:117-124 | when the bailed-out state is refused but the uncompensated candidate validates, the update commits that insolvent candidate as ACCEPTED |
| UpdaterProperties.DroppedBailoutExample | monkonomy-kafkastreams-serverapp/src/main/java/io/monkeypatch/mktd6/server/model/TraderStateUpdater.java:117-124 | a concrete run of that path: investing 10 of 5 coins under a policy refusing any bailout commits the account at -5 coins |
| UpdaterProperties.UpdateBailoutsBounds | monkonomy-kafkastreams-serverapp/src/main/java/io/monkeypatch/mktd6/server/model/TraderStateUpdater.java:109-124 | one update never lowers the bailout counter and raises it by at most two, or by at most one without the updater's own flag |
| UpdaterProperties.MarketTradeKeepsWorth | monkonomy-kafkastreams-serverapp/src/main/java/io/monkeypatch/mktd6/server/model/TraderStateUpdater.java:128-136 | a trade whose coin sign is opposite to its share sign preserves coins + shares * price and the bailout counter |
| UpdaterProperties.BuyAddsShares | monkonomy-kafkastreams-serverapp/src/main/java/io/monkeypatch/mktd6/server/model/TraderStateUpdater.java:128-136 | a buy adds the ordered shares and takes their price in coins, and changes nothing else |
| UpdaterProperties.SellRemovesShares | monkonomy-kafkastreams-serverapp/src/main/java/io/monkeypatch/mktd6/server/model/TraderStateUpdater.java:128-136 | a sell removes the ordered shares and adds their price in coins, and changes nothing else |
| UpdaterProperties.InvestmentOnlyTakesCoins | monkonomy-kafkastreams-serverapp/src/main/java/io/monkeypatch/mktd6/server/model/TraderStateUpdater.java:138-146 | an investment's candidate is the prior state with exactly the invested amount fewer coins |
| UpdaterProperties.InvestmentThenBailout | monkonomy-kafkastreams-serverapp/src/main/java/io/monkeypatch/mktd6/server/model/TraderStateUpdater.java:138-146 | an investment followed by the bailout diff leaves the invested amount fewer coins plus 10, 5 more shares and one more bailout |
| UpdaterProperties.FeedMovesSharesToMonkeys | monkonomy-kafkastreams-serverapp/src/main/java/io/monkeypatch/mktd6/server/model/TraderStateUpdater.java:148-156 | feeding moves exactly the fed monkeys from the shares to the fed-monkey counter and changes nothing else |
| UpdaterProperties.FeedingConservesStock | monkonomy-kafkastreams-serverapp/src/main/java/io/monkeypatch/mktd6/server/model/TraderStateUpdater.java:148-156 | feeding preserves coins and shares + fed monkeys in the candidate; after the reducer that sum changes only by 5 per bailout kept |
| UpdaterProperties.NameIdentifiesType | monkonomy-kafkastreams-serverapp/src/main/java/io/monkeypatch/mktd6/server/model/TraderStateUpdater.java:19-25 | the type name put in the result identifies the updater's type: two types have the same name exactly when they are equal |
| UpdaterProperties.SolventInvestmentCommits | monkonomy-kafkastreams-serverapp/src/main/java/io/monkeypatch/mktd6/server/model/TraderStateUpdater.java:105-126 | an investment leaving more than one coin and some shares pays no bailout and commits the state with fewer coins when that validates |
| UpdaterProperties.InsolventInvestmentBailedOut | monkonomy-kafkastreams-serverapp/src/main/java/io/monkeypatch/mktd6/server/model/TraderStateUpdater.java:105-126 | an investment leaving at most one coin or no shares is bailed out (+10 coins, +5 shares, +1 bailout) and committed as one unit when the bailed-out state validates |
| UpdaterProperties.InsolventInvestmentRollsBack | monkonomy-kafkastreams-serverapp/src/main/java/io/monkeypatch/mktd6/server/model/TraderStateUpdater.java:105-126 | the same investment keeps the prior state, with the reason of the refusal, only when both the bailed-out and the uncompensated candidates are refused |
| UpdaterProperties.FeedingLastSharesBailedOut | monkonomy-kafkastreams-serverapp/src/main/java/io/monkeypatch/mktd6/server/model/TraderStateUpdater.java:105-126 | feeding that leaves no shares is bailed out on top of the feeding and committed when the bailed-out state validates |
| Ledger.Replay | monkonomy-kafkastreams-serverapp/src/main/java/io/monkeypatch/mktd6/server/model/TraderStateUpdater.java:105-126 | folding updates in order, each kept state being the next prior state, never lowers the bailout counter and raises it by at most two per update |
| Ledger.ReplayConcat | monkonomy-kafkastreams-serverapp/src/main/java/io/monkeypatch/mktd6/server/model/TraderStateUpdater.java:105-126 | folding two batches one after the other equals folding their concatenation |
| Ledger.RejectedUpdatesLeaveStateUnchanged | monkonomy-kafkastreams-serverapp/src/main/java/io/monkeypatch/mktd6/server/model/TraderStateUpdater.java:121-124 | a sequence of updates that are all refused leaves the account exactly as it was |

## Left out

- `ServerTopics.java`: Kafka topic names and serde wiring, with no behaviour to model.
- The nested `Serde` class and the JSON-creator constructor: serialisation is delegated to libraries that are not part of this model.
- The `time` field and the constructor that stamps `DateTime.now(UTC)`: a wall-clock side effect that the reducer never reads. Updaters carry no timestamp.
- Floating point: coins, `coinsDiff` and the share price are `real`. IEEE double rounding of the sums and of the price product is not covered.
- Java `int` overflow: shares, bailouts and fed monkeys, and the products in the market constructor, are unbounded integers. The field types of `TraderState` are not part of this model.
- The bodies of `TraderState.validate()` and `TraderState.init()`: `validate` is a parameter, and `init()` is taken as the all-zero constant `Init`.
- The market order's type and its `getCoinSign()`/`getShareSign()`: the signs are plain integers on the order.
- The RETURN type gets no behaviour of its own, because the program defines none. It goes through `Update` like any other non-BAILOUT type.
- The Kafka stream topology that feeds updates per trader in order is not part of this model. `Ledger.Replay` is the fold it performs.
