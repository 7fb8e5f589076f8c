/** The exchange's logs and the rows the indexer derives from them. */
module Store {

  /** The unique key of a log; every mirrored row carries it. */
  datatype LogKey = LogKey(tx: string, index: nat)

  /** Who emitted a log. The service follows one exchange and one oracle. */
  datatype Source = Exchange | Oracle | Other

  /**
   * A decoded event. Enum-valued fields hold the number on the wire; the row
   * stores the matching name, and a number with no name cannot be bound.
   */
  datatype Event =
    | OrderPlaced(orderId: nat, owner: string, market: nat, side: nat, orderType: nat, tif: nat,
                  size: nat, price: nat, trigger: nat, reduceOnly: bool, userOrderId: nat, maxTs: nat)
    | OrderFilled(takerOrder: nat, taker: string, maker: string, market: nat, takerSide: nat,
                  size: nat, price: nat, makerOrder: nat, takerFee: nat, makerFee: int)
    | OrderCancelled(orderId: nat)
    | OrderTriggered(orderId: nat)
    | PositionChanged(account: string, market: nat, sizeBefore: int, sizeAfter: int,
                      entryPrice: nat, realizedDelta: int, fundingPaid: int)
    | FundingUpdated(market: nat, rateBps: int, cumulativeIndex: int, fundingTime: nat, samples: nat)
    | Liquidated(account: string, market: nat, liquidator: string, sizeClosed: nat, price: nat,
                 liquidatorFee: nat, badDebt: nat, insuranceUsed: nat)
    | MarketStatusChanged(market: nat, status: nat)
    | AccountInitialized(account: string)
    | Deposited(account: string, amount: nat)
    | Withdrawn(account: string, amount: nat)
    | PriceSet(market: nat, price: nat, publishTime: nat)
    | NotMirrored  // AutoDeleveraged, AdminTransferred, Settled: known topics with no row of their own

  /** What decoding a log gives: no topic the service knows, a known topic with bad data, or an event. */
  datatype Body = Unknown | Malformed | Known(event: Event)

  datatype Log = Log(tx: string, index: nat, block: nat, source: Source, body: Body) {
    function Key(): LogKey { LogKey(tx, index) }
  }

  datatype OrderStatus = Pending | Open | Filled | Cancelled

  datatype OrderRow = OrderRow(owner: string, market: nat, side: nat, orderType: nat, tif: nat, size: nat,
                               filled: nat, price: nat, trigger: nat, reduceOnly: bool, userOrderId: nat,
                               maxTs: nat, status: OrderStatus, placedBlock: nat, placed: LogKey, updatedBlock: nat)
  datatype TradeRow = TradeRow(block: nat, market: nat, taker: string, maker: string, takerOrder: nat,
                               makerOrder: nat, takerSide: nat, size: nat, price: nat, takerFee: nat, makerFee: int)
  datatype PositionRow = PositionRow(size: int, entryPrice: nat, realizedPnl: int, fundingPaid: int,
                                     updatedBlock: nat, updatedTx: string)
  datatype PositionEventRow = PositionEventRow(block: nat, account: string, market: nat, sizeBefore: int,
                                               sizeAfter: int, entryPrice: nat, realizedDelta: int, fundingPaid: int)
  datatype FundingRow = FundingRow(block: nat, market: nat, rateBps: int, cumulativeIndex: int,
                                   fundingTime: nat, samples: nat)
  datatype LiquidationRow = LiquidationRow(block: nat, account: string, market: nat, liquidator: string,
                                           sizeClosed: nat, price: nat, liquidatorFee: nat, badDebt: nat,
                                           insuranceUsed: nat)
  datatype AccountRow = AccountRow(createdBlock: nat, deposits: nat, withdrawals: nat)
  datatype MarketRow = MarketRow(symbol: string, status: nat, tickSize: nat, stepSize: nat, minNotional: nat,
                                 maxLeverage: nat, makerFeeBps: int, takerFeeBps: nat, maxBasisBps: nat,
                                 updatedBlock: nat)
  datatype IndexRow = IndexRow(price: nat, publishTime: nat, block: nat)

  datatype PositionKey = PositionKey(account: string, market: nat)

  /** The tables that hold nothing but the fold of the followed logs. */
  datatype Derived = Derived(
    orders: map<nat, OrderRow>,
    trades: map<LogKey, TradeRow>,
    positions: map<PositionKey, PositionRow>,
    positionEvents: map<LogKey, PositionEventRow>,
    funding: map<LogKey, FundingRow>,
    liquidations: map<LogKey, LiquidationRow>,
    accounts: map<string, AccountRow>,
    applied: map<LogKey, nat>)

  /** The tables that are also seeded from the contract's getters. */
  datatype Seeded = Seeded(markets: map<nat, MarketRow>, index: map<nat, IndexRow>)

  const EMPTY := Derived(map[], map[], map[], map[], map[], map[], map[], map[])
  const UNSEEDED := Seeded(map[], map[])

  const SIDES := 2
  const ORDER_TYPES := 5
  const TIFS := 4
  const MARKET_STATUSES := 4

  // ---------------------------------------------------------------- one table at a time

  function NewOrder(log: Log, ev: Event): OrderRow
    requires ev.OrderPlaced?
  {
    OrderRow(ev.owner, ev.market, ev.side, ev.orderType, ev.tif, ev.size, 0, ev.price, ev.trigger, ev.reduceOnly,
             ev.userOrderId, ev.maxTs, if 2 <= ev.orderType <= 4 then Pending else Open,
             log.block, log.Key(), log.block)
  }

  /** The row's primary key or its UNIQUE (placed_tx, placed_log) is already there, so INSERT OR IGNORE skips it. */
  predicate PlacementConflicts(orders: map<nat, OrderRow>, orderId: nat, key: LogKey) {
    orderId in orders || exists o | o in orders :: orders[o].placed == key
  }

  function Fill(orders: map<nat, OrderRow>, orderId: nat, size: nat, block: nat): map<nat, OrderRow> {
    if orderId !in orders then orders
    else
      var row := orders[orderId];
      var filled := row.filled + size;
      orders[orderId := row.(filled := filled,
                             status := if filled == row.size then Filled else row.status,
                             updatedBlock := block)]
  }

  function SetStatus(orders: map<nat, OrderRow>, orderId: nat, status: OrderStatus, block: nat): map<nat, OrderRow> {
    if orderId !in orders then orders
    else orders[orderId := orders[orderId].(status := status, updatedBlock := block)]
  }

  function OrdersAfter(orders: map<nat, OrderRow>, log: Log, ev: Event): map<nat, OrderRow> {
    match ev
    case OrderPlaced(id, _, _, _, _, _, _, _, _, _, _, _) =>
      if PlacementConflicts(orders, id, log.Key()) then orders else orders[id := NewOrder(log, ev)]
    case OrderFilled(takerOrder, _, _, _, _, size, _, makerOrder, _, _) =>
      var once := Fill(orders, takerOrder, size, log.block);
      if makerOrder != 0 then Fill(once, makerOrder, size, log.block) else once
    case OrderCancelled(id) => SetStatus(orders, id, Cancelled, log.block)
    case OrderTriggered(id) => SetStatus(orders, id, Open, log.block)
    case _ => orders
  }

  /** A fill of size 0 breaks the table's CHECK, and INSERT OR IGNORE skips the row. */
  function TradesAfter(trades: map<LogKey, TradeRow>, log: Log, ev: Event): map<LogKey, TradeRow> {
    if ev.OrderFilled? && ev.size != 0 && log.Key() !in trades then
      trades[log.Key() := TradeRow(log.block, ev.market, ev.taker, ev.maker, ev.takerOrder, ev.makerOrder,
                                   ev.takerSide, ev.size, ev.price, ev.takerFee, ev.makerFee)]
    else trades
  }

  function PositionsAfter(positions: map<PositionKey, PositionRow>, log: Log, ev: Event)
    : map<PositionKey, PositionRow>
  {
    if !ev.PositionChanged? then positions
    else
      var pk := PositionKey(ev.account, ev.market);
      var realized := (if pk in positions then positions[pk].realizedPnl else 0) + ev.realizedDelta;
      var paid := (if pk in positions then positions[pk].fundingPaid else 0) + ev.fundingPaid;
      positions[pk := PositionRow(ev.sizeAfter, ev.entryPrice, realized, paid, log.block, log.tx)]
  }

  function PositionEventsAfter(rows: map<LogKey, PositionEventRow>, log: Log, ev: Event)
    : map<LogKey, PositionEventRow>
  {
    if ev.PositionChanged? && log.Key() !in rows then
      rows[log.Key() := PositionEventRow(log.block, ev.account, ev.market, ev.sizeBefore, ev.sizeAfter,
                                         ev.entryPrice, ev.realizedDelta, ev.fundingPaid)]
    else rows
  }

  function FundingAfter(rows: map<LogKey, FundingRow>, log: Log, ev: Event): map<LogKey, FundingRow> {
    if ev.FundingUpdated? && log.Key() !in rows then
      rows[log.Key() := FundingRow(log.block, ev.market, ev.rateBps, ev.cumulativeIndex, ev.fundingTime, ev.samples)]
    else rows
  }

  function LiquidationsAfter(rows: map<LogKey, LiquidationRow>, log: Log, ev: Event): map<LogKey, LiquidationRow> {
    if ev.Liquidated? && log.Key() !in rows then
      rows[log.Key() := LiquidationRow(log.block, ev.account, ev.market, ev.liquidator, ev.sizeClosed, ev.price,
                                       ev.liquidatorFee, ev.badDebt, ev.insuranceUsed)]
    else rows
  }

  function OpenAccount(accounts: map<string, AccountRow>, account: string, block: nat): map<string, AccountRow> {
    if account in accounts then accounts else accounts[account := AccountRow(block, 0, 0)]
  }

  function AccountsAfter(accounts: map<string, AccountRow>, log: Log, ev: Event): map<string, AccountRow> {
    match ev
    case AccountInitialized(a) => OpenAccount(accounts, a, log.block)
    case Deposited(a, amount) =>
      var rows := OpenAccount(accounts, a, log.block);
      rows[a := rows[a].(deposits := rows[a].deposits + amount)]
    case Withdrawn(a, amount) =>
      var rows := OpenAccount(accounts, a, log.block);
      rows[a := rows[a].(withdrawals := rows[a].withdrawals + amount)]
    case _ => accounts
  }

  // ---------------------------------------------------------------- one log

  /** PriceSet must come from the oracle and everything else from the exchange. */
  predicate FromExpectedSource(log: Log)
    requires log.body.Known?
  {
    log.source == if log.body.event.PriceSet? then Oracle else Exchange
  }

  /** The log carries an event this store has not applied yet. */
  predicate Fresh(d: Derived, log: Log) {
    log.body.Known? && FromExpectedSource(log) && log.Key() !in d.applied
  }

  /** Every table after one event, the applied_logs mark aside. */
  function DerivedAfter(d: Derived, log: Log, ev: Event): Derived {
    Derived(OrdersAfter(d.orders, log, ev),
            TradesAfter(d.trades, log, ev),
            PositionsAfter(d.positions, log, ev),
            PositionEventsAfter(d.positionEvents, log, ev),
            FundingAfter(d.funding, log, ev),
            LiquidationsAfter(d.liquidations, log, ev),
            AccountsAfter(d.accounts, log, ev),
            d.applied)
  }

  function SeededAfter(s: Seeded, log: Log, ev: Event): Seeded {
    match ev
    case MarketStatusChanged(m, status) =>
      if m !in s.markets then s
      else s.(markets := s.markets[m := s.markets[m].(status := status, updatedBlock := log.block)])
    case PriceSet(m, price, time) => s.(index := s.index[m := IndexRow(price, time, log.block)])
    case _ => s
  }

  function ApplyDerived(d: Derived, log: Log): Derived {
    if !Fresh(d, log) then d
    else DerivedAfter(d.(applied := d.applied[log.Key() := log.block]), log, log.body.event)
  }

  function ApplySeeded(d: Derived, s: Seeded, log: Log): Seeded {
    if !Fresh(d, log) then s else SeededAfter(s, log, log.body.event)
  }

  /** A value with no name, or a row whose foreign key has no parent: the statement throws. */
  predicate Rejects(d: Derived, markets: set<nat>, log: Log, ev: Event) {
    match ev
    case OrderPlaced(id, _, m, side, orderType, tif, _, _, _, _, _, _) =>
      side >= SIDES || orderType >= ORDER_TYPES || tif >= TIFS
      || (!PlacementConflicts(d.orders, id, log.Key()) && m !in markets)
    case OrderFilled(takerOrder, _, _, m, side, size, _, _, _, _) =>
      side >= SIDES
      || (size != 0 && log.Key() !in d.trades && (m !in markets || takerOrder !in d.orders))
    case PositionChanged(_, m, _, _, _, _, _) => m !in markets
    case FundingUpdated(m, _, _, _, _) => log.Key() !in d.funding && m !in markets
    case Liquidated(_, m, _, _, _, _, _, _) => log.Key() !in d.liquidations && m !in markets
    case MarketStatusChanged(_, status) => status >= MARKET_STATUSES
    case PriceSet(m, _, _) => m !in markets
    case _ => false
  }

  predicate Throws(d: Derived, markets: set<nat>, log: Log) {
    log.body.Malformed? || (Fresh(d, log) && Rejects(d, markets, log, log.body.event))
  }

  // ---------------------------------------------------------------- a run of logs

  /** The rows a store holds once it has applied `logs` in order, starting from `d`. */
  function FoldFrom(d: Derived, logs: seq<Log>): Derived {
    if logs == [] then d else ApplyDerived(FoldFrom(d, logs[..|logs| - 1]), logs[|logs| - 1])
  }

  function Fold(logs: seq<Log>): Derived { FoldFrom(EMPTY, logs) }

  function SeededFrom(d: Derived, s: Seeded, logs: seq<Log>): Seeded {
    if logs == [] then s
    else
      var n := |logs| - 1;
      ApplySeeded(FoldFrom(d, logs[..n]), SeededFrom(d, s, logs[..n]), logs[n])
  }

  /** Some log of the run throws when its turn comes. */
  predicate AnyThrows(d: Derived, markets: set<nat>, logs: seq<Log>) {
    exists i :: 0 <= i < |logs| && ThrowsAt(d, markets, logs, i)
  }

  predicate ThrowsAt(d: Derived, markets: set<nat>, logs: seq<Log>, i: nat)
    requires i < |logs|
  {
    Throws(FoldFrom(d, logs[..i]), markets, logs[i])
  }

  lemma {:induction false} FoldConcat(d: Derived, a: seq<Log>, b: seq<Log>)
    ensures FoldFrom(d, a + b) == FoldFrom(FoldFrom(d, a), b)
  {
    if b == [] {
      assert a + b == a;
    } else {
      var n := |b| - 1;
      assert (a + b)[..|a + b| - 1] == a + b[..n];
      FoldConcat(d, a, b[..n]);
    }
  }

  lemma {:induction false} SeededConcat(d: Derived, s: Seeded, a: seq<Log>, b: seq<Log>)
    ensures SeededFrom(d, s, a + b) == SeededFrom(FoldFrom(d, a), SeededFrom(d, s, a), b)
  {
    hide ApplyDerived, ApplySeeded, FoldFrom;
    if b == [] {
      assert a + b == a;
    } else {
      var n := |b| - 1;
      assert (a + b)[..|a + b| - 1] == a + b[..n];
      SeededConcat(d, s, a, b[..n]);
      FoldConcat(d, a, b[..n]);
    }
  }

  // ---------------------------------------------------------------- replay

  /** Applying the log again changes nothing. */
  predicate Covered(d: Derived, log: Log) { !Fresh(d, log) }

  lemma {:induction false} AppliedGrows(d: Derived, logs: seq<Log>)
    ensures d.applied.Keys <= FoldFrom(d, logs).applied.Keys
  {
    if logs != [] {
      AppliedGrows(d, logs[..|logs| - 1]);
    }
  }

  lemma {:induction false} FoldCovers(d: Derived, logs: seq<Log>)
    ensures forall log :: log in logs ==> Covered(FoldFrom(d, logs), log)
  {
    if logs != [] {
      var n := |logs| - 1;
      assert logs == logs[..n] + [logs[n]];
      FoldCovers(d, logs[..n]);
    }
  }

  /** Idempotence by (tx_hash, log_index): a replayed run of covered logs leaves every table as it was. */
  lemma {:induction false} ReplayIsNoOp(d: Derived, s: Seeded, logs: seq<Log>)
    requires forall log :: log in logs ==> Covered(d, log)
    ensures FoldFrom(d, logs) == d && SeededFrom(d, s, logs) == s
  {
    if logs != [] {
      var n := |logs| - 1;
      assert logs[n] in logs && forall log :: log in logs[..n] ==> log in logs;
      ReplayIsNoOp(d, s, logs[..n]);
    }
  }

  /** Replaying what is already covered and then going on is the same as only going on. */
  lemma {:induction false} ReplayThenContinue(d: Derived, s: Seeded, seen: seq<Log>, more: seq<Log>)
    requires forall log :: log in seen ==> Covered(d, log)
    ensures FoldFrom(d, seen + more) == FoldFrom(d, more)
    ensures SeededFrom(d, s, seen + more) == SeededFrom(d, s, more)
  {
    if more == [] {
      assert seen + more == seen;
      ReplayIsNoOp(d, s, seen);
    } else {
      var n := |more| - 1;
      assert (seen + more)[..|seen + more| - 1] == seen + more[..n];
      ReplayThenContinue(d, s, seen, more[..n]);
    }
  }

  /** The applied_logs table never holds a key no log of the run carries. */
  lemma {:induction false} AppliedKeysComeFromLogs(d: Derived, logs: seq<Log>, k: LogKey)
    requires k in FoldFrom(d, logs).applied && k !in d.applied
    ensures exists log :: log in logs && log.Key() == k
  {
    var n := |logs| - 1;
    if k in FoldFrom(d, logs[..n]).applied {
      AppliedKeysComeFromLogs(d, logs[..n], k);
    } else {
      assert logs[n].Key() == k;
    }
  }
}
