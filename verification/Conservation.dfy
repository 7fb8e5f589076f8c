/** What the tables say about each other, in every store a run of logs can produce. */
module Conservation {
  import opened Store
  import opened Chain
  import opened Indexing
  import opened Runs
  import opened Hazards
  import opened Sums

  /** Mirrored rows are keyed by logs that applied_logs already lists. */
  ghost predicate KeysApplied(d: Derived) {
    d.trades.Keys <= d.applied.Keys && d.positionEvents.Keys <= d.applied.Keys
  }

  lemma StepTables(d: Derived, log: Log)
    ensures var after := ApplyDerived(d, log);
            if Fresh(d, log) then
              after.orders == OrdersAfter(d.orders, log, log.body.event)
              && after.trades == TradesAfter(d.trades, log, log.body.event)
              && after.positions == PositionsAfter(d.positions, log, log.body.event)
              && after.positionEvents == PositionEventsAfter(d.positionEvents, log, log.body.event)
              && after.applied == d.applied[log.Key() := log.block]
            else after == d
  {
  }

  lemma {:induction false} FoldKeysApplied(logs: seq<Log>)
    ensures KeysApplied(Fold(logs))
  {
    hide ApplyDerived;
    if logs != [] {
      var n := |logs| - 1;
      FoldKeysApplied(logs[..n]);
      StepTables(Fold(logs[..n]), logs[n]);
    }
  }

  // ---------------------------------------------------------------- orders against trades

  /** What one trade adds to an order: its size once as taker and once as maker; maker 0 is the backstop. */
  function Share(row: TradeRow, o: nat): nat {
    (if row.takerOrder == o then row.size else 0) + (if row.makerOrder == o && o != 0 then row.size else 0)
  }

  ghost function Shares(trades: map<LogKey, TradeRow>, o: nat): map<LogKey, int> {
    map k | k in trades :: Share(trades[k], o)
  }

  predicate Names(row: TradeRow, o: nat) { row.takerOrder == o || (row.makerOrder == o && o != 0) }

  /** The trades table as it stood when order `o` was inserted (now, if it never was). */
  ghost function TradesBefore(logs: seq<Log>, o: nat): map<LogKey, TradeRow> {
    if logs == [] then map[]
    else
      var n := |logs| - 1;
      if o in Fold(logs[..n]).orders then TradesBefore(logs[..n], o) else Fold(logs[..n]).trades
  }

  /** One fill adds the same amount to an order's row and to its share of the trades. */
  lemma FillMatchesShare(orders: map<nat, OrderRow>, trades: map<LogKey, TradeRow>, log: Log, o: nat)
    requires log.body.Known? && log.body.event.OrderFilled? && log.Key() !in trades && o in orders
    ensures var ev := log.body.event;
            o in OrdersAfter(orders, log, ev)
            && OrdersAfter(orders, log, ev)[o].filled - orders[o].filled
               == Sum(Shares(TradesAfter(trades, log, ev), o)) - Sum(Shares(trades, o))
  {
    var ev := log.body.event;
    var after := TradesAfter(trades, log, ev);
    if ev.size != 0 {
      assert Shares(after, o) == Shares(trades, o)[log.Key() := Share(after[log.Key()], o)];
      SumInsert(Shares(trades, o), log.Key(), Share(after[log.Key()], o));
    }
  }

  lemma OtherEventsKeepFills(orders: map<nat, OrderRow>, log: Log, ev: Event, o: nat)
    requires !ev.OrderFilled? && o in orders
    ensures o in OrdersAfter(orders, log, ev) && OrdersAfter(orders, log, ev)[o].filled == orders[o].filled
  {
  }

  lemma NewOrdersAreUnfilled(orders: map<nat, OrderRow>, log: Log, ev: Event, o: nat)
    requires o !in orders && o in OrdersAfter(orders, log, ev)
    ensures ev.OrderPlaced? && OrdersAfter(orders, log, ev)[o].filled == 0
  {
  }

  /** `filled` is the size of every trade naming the order, less what was traded before the order was there. */
  lemma {:induction false} FilledLaw(logs: seq<Log>, o: nat)
    requires o in Fold(logs).orders
    ensures Fold(logs).orders[o].filled + Sum(Shares(TradesBefore(logs, o), o)) == Sum(Shares(Fold(logs).trades, o))
  {
    hide ApplyDerived, OrdersAfter;
    var n := |logs| - 1;
    var d, log := Fold(logs[..n]), logs[n];
    StepTables(d, log);
    FoldKeysApplied(logs[..n]);
    if o in d.orders {
      FilledLaw(logs[..n], o);
      if Fresh(d, log) {
        if log.body.event.OrderFilled? {
          FillMatchesShare(d.orders, d.trades, log, o);
        } else {
          OtherEventsKeepFills(d.orders, log, log.body.event, o);
        }
      }
    } else {
      NewOrdersAreUnfilled(d.orders, log, log.body.event, o);
    }
  }

  ghost predicate Positive(trades: map<LogKey, TradeRow>) { forall k :: k in trades ==> trades[k].size > 0 }

  lemma {:induction false} TradesArePositive(logs: seq<Log>)
    ensures Positive(Fold(logs).trades)
  {
    hide ApplyDerived;
    if logs != [] {
      TradesArePositive(logs[..|logs| - 1]);
      StepTables(Fold(logs[..|logs| - 1]), logs[|logs| - 1]);
    }
  }

  lemma {:induction false} TradesBeforeArePositive(logs: seq<Log>, o: nat)
    ensures Positive(TradesBefore(logs, o))
  {
    if logs != [] {
      TradesBeforeArePositive(logs[..|logs| - 1], o);
      TradesArePositive(logs[..|logs| - 1]);
    }
  }

  /** The column equals the sum exactly when no trade named the order before it was placed. */
  lemma FilledIsSumOfTradesIff(logs: seq<Log>, o: nat)
    requires o in Fold(logs).orders
    ensures Fold(logs).orders[o].filled == Sum(Shares(Fold(logs).trades, o))
            <==> forall k :: k in TradesBefore(logs, o) ==> !Names(TradesBefore(logs, o)[k], o)
  {
    hide FoldFrom;
    FilledLaw(logs, o);
    TradesBeforeArePositive(logs, o);
    var early := TradesBefore(logs, o);
    SumIsZeroIff(Shares(early, o));
    assert forall k :: k in early ==> (Shares(early, o)[k] == 0 <==> !Names(early[k], o));
  }

  /** The log is a fill that names the order. */
  predicate FillNames(log: Log, o: nat) {
    Mirrored(log) && log.body.event.OrderFilled?
    && (log.body.event.takerOrder == o || (log.body.event.makerOrder == o && o != 0))
  }

  predicate Places(log: Log, o: nat) { Mirrored(log) && log.body.event.OrderPlaced? && log.body.event.orderId == o }

  ghost predicate PlacementFirst(logs: seq<Log>) {
    forall i, j, o: nat :: 0 <= i < j < |logs| && Places(logs[j], o) ==> !FillNames(logs[i], o)
  }

  lemma {:induction false} UntradedUntilFilled(logs: seq<Log>, o: nat)
    requires forall i :: 0 <= i < |logs| ==> !FillNames(logs[i], o)
    ensures forall k :: k in Fold(logs).trades ==> !Names(Fold(logs).trades[k], o)
  {
    hide ApplyDerived;
    if logs != [] {
      var n := |logs| - 1;
      UntradedUntilFilled(logs[..n], o);
      StepTables(Fold(logs[..n]), logs[n]);
    }
  }

  lemma {:induction false} NothingTradedBefore(logs: seq<Log>, o: nat)
    requires PlacementFirst(logs) && o in Fold(logs).orders
    ensures forall k :: k in TradesBefore(logs, o) ==> !Names(TradesBefore(logs, o)[k], o)
  {
    hide ApplyDerived, OrdersAfter, FillNames, Names;
    var n := |logs| - 1;
    var d := Fold(logs[..n]);
    StepTables(d, logs[n]);
    if o in d.orders {
      NothingTradedBefore(logs[..n], o);
    } else {
      PlacedByThisLog(d, logs[n], o);
      UntradedUntilFilled(logs[..n], o);
    }
  }

  lemma PlacedByThisLog(d: Derived, log: Log, o: nat)
    requires Fresh(d, log) && o !in d.orders && o in OrdersAfter(d.orders, log, log.body.event)
    ensures Places(log, o)
  {
  }

  /** On a chain that places orders before it fills them, every `filled` is the sum of the trades naming the order. */
  lemma FilledIsSumOfTrades(logs: seq<Log>, o: nat)
    requires PlacementFirst(logs) && o in Fold(logs).orders
    ensures Fold(logs).orders[o].filled == Sum(Shares(Fold(logs).trades, o))
  {
    NothingTradedBefore(logs, o);
    FilledIsSumOfTradesIff(logs, o);
  }

  /** A taker's order, its fill against maker order 2, and only then the placement of order 2. */
  const TAKER := Log("0xt1", 0, 1, Exchange, Known(OrderPlaced(1, "0xaa", 0, 0, 1, 0, 5, 9, 0, false, 0, 0)))
  const FILL := Log("0xt2", 0, 2, Exchange, Known(OrderFilled(1, "0xaa", "0xbb", 0, 0, 5, 9, 2, 0, 0)))
  const MAKER := Log("0xt3", 0, 3, Exchange, Known(OrderPlaced(2, "0xbb", 0, 1, 1, 0, 8, 9, 0, false, 0, 0)))

  lemma AfterTaker()
    ensures var d := Fold([TAKER]);
            && !Throws(EMPTY, {0}, TAKER) && d.orders.Keys == {1} && d.trades == map[]
            && d.applied.Keys == {TAKER.Key()} && d.orders[1].placed == TAKER.Key()
  {
    OneFolded(EMPTY, UNSEEDED, {0}, TAKER);
  }

  lemma AfterFill()
    ensures var d := Fold([TAKER, FILL]);
            && !Throws(Fold([TAKER]), {0}, FILL) && 2 !in d.orders
            && d.applied.Keys == {TAKER.Key(), FILL.Key()} && d.trades.Keys == {FILL.Key()}
            && d.trades[FILL.Key()].makerOrder == 2
            && forall o :: o in d.orders ==> d.orders[o].placed == TAKER.Key()
  {
    AfterTaker();
    StepTables(Fold([TAKER]), FILL);
    assert [TAKER, FILL][..1] == [TAKER];
    OrdersOfFill(Fold([TAKER]).orders);
  }

  lemma OrdersOfFill(orders: map<nat, OrderRow>)
    requires 2 !in orders && forall o :: o in orders ==> orders[o].placed == TAKER.Key() && o == 1
    ensures var after := OrdersAfter(orders, FILL, FILL.body.event);
            2 !in after && forall o :: o in after ==> after[o].placed == TAKER.Key()
  {
  }

  lemma MakerIsAccepted()
    ensures !AnyThrows(EMPTY, {0}, [TAKER, FILL, MAKER])
  {
    hide Throws, Fold, FoldFrom;
    var logs := [TAKER, FILL, MAKER];
    assert logs[..0] == [] && logs[..1] == [TAKER] && logs[..2] == [TAKER, FILL];
    AfterTaker();
    AfterFill();
    MakerIsPlaced(Fold(logs[..2]));
    FoldsFromEmpty(logs);
    UnthrownPrefixes(logs);
  }

  lemma FoldsFromEmpty(logs: seq<Log>)
    ensures FoldFrom(EMPTY, []) == EMPTY
    ensures forall i :: 0 <= i <= |logs| ==> FoldFrom(EMPTY, logs[..i]) == Fold(logs[..i])
  {
  }

  /** An instance that nothing rejects: the maker's order never learns of the fill. */
  lemma MakerFilledBeforePlacement()
    ensures var logs := [TAKER, FILL, MAKER];
            && !AnyThrows(EMPTY, {0}, logs) && UniqueKeys(logs) && StrictlyOrdered(logs)
            && 2 in Fold(logs).orders && Fold(logs).orders[2].filled != Sum(Shares(Fold(logs).trades, 2))
  {
    hide Throws, Fold, FoldFrom, Sum, Shares, AnyThrows, TradesBefore;
    var logs := [TAKER, FILL, MAKER];
    MakerIsAccepted();
    assert logs[..2] == [TAKER, FILL];
    AfterFill();
    MakerIsPlaced(Fold(logs[..2]));
    LastOfFold(logs, 2);
    FilledIsSumOfTradesIff(logs, 2);
    assert Names(TradesBefore(logs, 2)[FILL.Key()], 2);
  }

  lemma MakerIsPlaced(d: Derived)
    requires 2 !in d.orders && MAKER.Key() !in d.applied
    requires forall o :: o in d.orders ==> d.orders[o].placed != MAKER.Key()
    ensures !Throws(d, {0}, MAKER) && 2 in ApplyDerived(d, MAKER).orders
  {
  }

  lemma UnthrownPrefixes(logs: seq<Log>)
    requires forall i :: 0 <= i < |logs| ==> !Throws(FoldFrom(EMPTY, logs[..i]), {0}, logs[i])
    ensures !AnyThrows(EMPTY, {0}, logs)
  {
    hide FoldFrom, Throws;
  }

  lemma {:induction false} LastOfFold(logs: seq<Log>, o: nat)
    requires logs != [] && o !in Fold(logs[..|logs| - 1]).orders
    ensures Fold(logs) == ApplyDerived(Fold(logs[..|logs| - 1]), logs[|logs| - 1])
    ensures TradesBefore(logs, o) == Fold(logs[..|logs| - 1]).trades
  {
    hide ApplyDerived;
  }

  // ---------------------------------------------------------------- positions against their events

  predicate OfPosition(row: PositionEventRow, pk: PositionKey) { row.account == pk.account && row.market == pk.market }

  ghost function RealizedBy(rows: map<LogKey, PositionEventRow>, pk: PositionKey): map<LogKey, int> {
    map k | k in rows :: if OfPosition(rows[k], pk) then rows[k].realizedDelta else 0
  }

  ghost function FundingBy(rows: map<LogKey, PositionEventRow>, pk: PositionKey): map<LogKey, int> {
    map k | k in rows :: if OfPosition(rows[k], pk) then rows[k].fundingPaid else 0
  }

  ghost predicate TotalsMatch(d: Derived, pk: PositionKey) {
    && (if pk in d.positions then d.positions[pk].realizedPnl else 0) == Sum(RealizedBy(d.positionEvents, pk))
    && (if pk in d.positions then d.positions[pk].fundingPaid else 0) == Sum(FundingBy(d.positionEvents, pk))
  }

  lemma TotalsStep(d: Derived, log: Log, pk: PositionKey)
    requires KeysApplied(d) && TotalsMatch(d, pk)
    ensures TotalsMatch(ApplyDerived(d, log), pk)
  {
    hide ApplyDerived, Sum;
    StepTables(d, log);
    if Fresh(d, log) && log.body.event.PositionChanged? {
      EventSumsGrow(d.positionEvents, log, pk);
    }
  }

  lemma EventSumsGrow(rows: map<LogKey, PositionEventRow>, log: Log, pk: PositionKey)
    requires log.body.Known? && log.body.event.PositionChanged? && log.Key() !in rows
    ensures var ev := log.body.event;
            var after, mine := PositionEventsAfter(rows, log, ev), pk == PositionKey(ev.account, ev.market);
            && Sum(RealizedBy(after, pk)) == Sum(RealizedBy(rows, pk)) + (if mine then ev.realizedDelta else 0)
            && Sum(FundingBy(after, pk)) == Sum(FundingBy(rows, pk)) + (if mine then ev.fundingPaid else 0)
  {
    hide Sum;
    var ev, k := log.body.event, log.Key();
    var after, mine := PositionEventsAfter(rows, log, ev), pk == PositionKey(ev.account, ev.market);
    var realized, funding := if mine then ev.realizedDelta else 0, if mine then ev.fundingPaid else 0;
    assert RealizedBy(after, pk) == RealizedBy(rows, pk)[k := realized];
    assert FundingBy(after, pk) == FundingBy(rows, pk)[k := funding];
    SumInsert(RealizedBy(rows, pk), k, realized);
    SumInsert(FundingBy(rows, pk), k, funding);
  }

  /** Realized PnL and funding are the sums over the position's events, for every run of logs whatever. */
  lemma {:induction false} PositionTotalsAreSums(logs: seq<Log>, pk: PositionKey)
    ensures TotalsMatch(Fold(logs), pk)
  {
    hide ApplyDerived;
    if logs == [] {
      assert RealizedBy(map[], pk) == map[] && FundingBy(map[], pk) == map[];
    } else {
      var n := |logs| - 1;
      PositionTotalsAreSums(logs[..n], pk);
      FoldKeysApplied(logs[..n]);
      TotalsStep(Fold(logs[..n]), logs[n], pk);
    }
  }

  /** Where an event row stands in the chain's order, given the key it is stored under. */
  predicate NotAfter(block: nat, index: nat, log: Log) {
    block < log.block || (block == log.block && index <= log.index)
  }

  lemma {:induction false} EventsComeFromLogs(logs: seq<Log>, k: LogKey)
    requires k in Fold(logs).positionEvents
    ensures exists log :: log in logs && log.Key() == k && Fold(logs).positionEvents[k].block == log.block
  {
    hide ApplyDerived;
    var n := |logs| - 1;
    StepTables(Fold(logs[..n]), logs[n]);
    if k in Fold(logs[..n]).positionEvents {
      EventsComeFromLogs(logs[..n], k);
      var log :| log in logs[..n] && log.Key() == k && Fold(logs[..n]).positionEvents[k].block == log.block;
      assert log in logs;
    } else {
      assert logs[n] in logs;
    }
  }

  /** Event `k` carries the position's current size and entry, and no event of the position comes later. */
  ghost predicate IsLatest(d: Derived, pk: PositionKey, k: LogKey) {
    && pk in d.positions && k in d.positionEvents && OfPosition(d.positionEvents[k], pk)
    && d.positions[pk].size == d.positionEvents[k].sizeAfter
    && d.positions[pk].entryPrice == d.positionEvents[k].entryPrice
    && forall j :: j in d.positionEvents && OfPosition(d.positionEvents[j], pk) ==>
         d.positionEvents[j].block < d.positionEvents[k].block
         || (d.positionEvents[j].block == d.positionEvents[k].block && j.index <= k.index)
  }

  lemma EventsAreNotAfterLast(logs: seq<Log>)
    requires logs != [] && StrictlyOrdered(logs)
    ensures forall j :: j in Fold(logs).positionEvents ==>
              NotAfter(Fold(logs).positionEvents[j].block, j.index, logs[|logs| - 1])
  {
    hide FoldFrom;
    forall j | j in Fold(logs).positionEvents
      ensures NotAfter(Fold(logs).positionEvents[j].block, j.index, logs[|logs| - 1])
    {
      EventsComeFromLogs(logs, j);
    }
  }

  /** A position's size and entry price are those of its latest event in (block, log) order. */
  lemma {:induction false} PositionShowsLatestEvent(logs: seq<Log>, pk: PositionKey) returns (k: LogKey)
    requires StrictlyOrdered(logs) && pk in Fold(logs).positions
    ensures IsLatest(Fold(logs), pk, k)
  {
    hide ApplyDerived;
    var n := |logs| - 1;
    var d, log := Fold(logs[..n]), logs[n];
    StepTables(d, log);
    FoldKeysApplied(logs[..n]);
    if Fresh(d, log) && log.body.event.PositionChanged?
       && pk == PositionKey(log.body.event.account, log.body.event.market) {
      k := log.Key();
      EventsAreNotAfterLast(logs);
    } else {
      k := PositionShowsLatestEvent(logs[..n], pk);
    }
  }

  // ---------------------------------------------------------------- open interest

  ghost function Sizes(positions: map<PositionKey, PositionRow>, m: nat): map<PositionKey, int> {
    map pk | pk in positions :: if pk.market == m then positions[pk].size else 0
  }

  /** The two sums of the open interest query. */
  ghost function Longs(positions: map<PositionKey, PositionRow>, m: nat): map<PositionKey, int> {
    map pk | pk in positions :: if pk.market == m && positions[pk].size > 0 then positions[pk].size else 0
  }

  ghost function Shorts(positions: map<PositionKey, PositionRow>, m: nat): map<PositionKey, int> {
    map pk | pk in positions :: if pk.market == m && positions[pk].size < 0 then -positions[pk].size else 0
  }

  lemma NetIsLongMinusShort(positions: map<PositionKey, PositionRow>, m: nat)
    ensures Sum(Longs(positions, m)) - Sum(Shorts(positions, m)) == Sum(Sizes(positions, m))
  {
    SumOfDifferences(Longs(positions, m), Shorts(positions, m), Sizes(positions, m));
  }

  function SizeOf(d: Derived, pk: PositionKey): int { if pk in d.positions then d.positions[pk].size else 0 }

  /** A position event starts from the size the store already holds. */
  predicate SizeChains(d: Derived, log: Log) {
    Mirrored(log) && log.body.event.PositionChanged? ==>
      log.body.event.sizeBefore == SizeOf(d, PositionKey(log.body.event.account, log.body.event.market))
  }

  ghost predicate Chained(logs: seq<Log>) {
    forall i :: 0 <= i < |logs| ==> SizeChains(Fold(logs[..i]), logs[i])
  }

  function Delta(log: Log, m: nat): int {
    if Mirrored(log) && log.body.event.PositionChanged? && log.body.event.market == m then
      log.body.event.sizeAfter - log.body.event.sizeBefore
    else 0
  }

  ghost function Deltas(logs: seq<Log>, m: nat): int {
    if logs == [] then 0 else Deltas(logs[..|logs| - 1], m) + Delta(logs[|logs| - 1], m)
  }

  lemma {:induction false} DeltasConcat(a: seq<Log>, b: seq<Log>, m: nat)
    ensures Deltas(a + b, m) == Deltas(a, m) + Deltas(b, m)
  {
    if b == [] {
      assert a + b == a;
    } else {
      var n := |b| - 1;
      assert (a + b)[..|a + b| - 1] == a + b[..n];
      DeltasConcat(a, b[..n], m);
    }
  }

  lemma NetStep(d: Derived, log: Log, m: nat)
    requires SizeChains(d, log) && (Mirrored(log) ==> Fresh(d, log))
    ensures Sum(Sizes(ApplyDerived(d, log).positions, m)) == Sum(Sizes(d.positions, m)) + Delta(log, m)
  {
    hide ApplyDerived;
    StepTables(d, log);
    if Fresh(d, log) && log.body.event.PositionChanged? {
      var ev := log.body.event;
      var pk := PositionKey(ev.account, ev.market);
      var now := if ev.market == m then ev.sizeAfter else 0;
      assert Sizes(PositionsAfter(d.positions, log, ev), m) == Sizes(d.positions, m)[pk := now];
      if pk in d.positions {
        SumReplace(Sizes(d.positions, m), pk, now);
      } else {
        SumInsert(Sizes(d.positions, m), pk, now);
      }
    }
  }

  lemma UniqueKeysAreFresh(logs: seq<Log>, n: nat)
    requires UniqueKeys(logs) && n < |logs| && Mirrored(logs[n])
    ensures Fresh(Fold(logs[..n]), logs[n])
  {
    hide FoldFrom;
    if logs[n].Key() in Fold(logs[..n]).applied {
      AppliedKeysComeFromLogs(EMPTY, logs[..n], logs[n].Key());
    }
  }

  lemma {:induction false} NetIsSumOfDeltas(logs: seq<Log>, m: nat)
    requires UniqueKeys(logs) && Chained(logs)
    ensures Sum(Sizes(Fold(logs).positions, m)) == Deltas(logs, m)
  {
    hide ApplyDerived, Fresh, Mirrored;
    if logs == [] {
      assert Sizes(map[], m) == map[];
    } else {
      var n := |logs| - 1;
      assert forall i :: 0 <= i < n ==> logs[..n][..i] == logs[..i];
      NetIsSumOfDeltas(logs[..n], m);
      assert SizeChains(Fold(logs[..n]), logs[n]);
      if Mirrored(logs[n]) {
        UniqueKeysAreFresh(logs, n);
      }
      NetStep(Fold(logs[..n]), logs[n], m);
    }
  }

  /** Within every block, what the market's positions gain they also lose. */
  ghost predicate BlocksCancel(c: Blocks, hi: nat, m: nat)
    requires hi <= |c|
  {
    forall b :: 0 <= b < hi ==> Deltas(Followed(c[b].logs), m) == 0
  }

  lemma {:induction false} CancelledBlocksSumToZero(c: Blocks, hi: nat, m: nat)
    requires hi <= |c| && BlocksCancel(c, hi, m)
    ensures Deltas(Logs(c, 0, hi), m) == 0
  {
    if hi > 0 {
      CancelledBlocksSumToZero(c, hi - 1, m);
      DeltasConcat(Logs(c, 0, hi - 1), Followed(c[hi - 1].logs), m);
    }
  }

  /** In every reachable store, long and short open interest of such a market are equal. */
  lemma OpenInterestBalances(w: World, m: nat)
    requires Invariant(w)
    requires var logs := Logs(w.synced, 0, w.high + 1);
             UniqueKeys(logs) && Chained(logs) && BlocksCancel(w.synced, w.high + 1, m)
    ensures Sum(Longs(w.db.d.positions, m)) == Sum(Shorts(w.db.d.positions, m))
  {
    hide Logs, Fold, UniqueKeys, Chained, Detected, HashAt, WellFormed;
    NetIsLongMinusShort(w.db.d.positions, m);
    NetIsSumOfDeltas(Logs(w.synced, 0, w.high + 1), m);
    CancelledBlocksSumToZero(w.synced, w.high + 1, m);
  }

  /** In every reachable store, orders agree with trades and positions with their events. */
  lemma ReachableRowsAgree(w: World, o: nat, pk: PositionKey)
    requires Invariant(w) && PlacementFirst(Logs(w.synced, 0, w.high + 1))
    ensures o in w.db.d.orders ==> w.db.d.orders[o].filled == Sum(Shares(w.db.d.trades, o))
    ensures TotalsMatch(w.db.d, pk)
    ensures pk in w.db.d.positions ==> exists k :: IsLatest(w.db.d, pk, k)
  {
    hide Fold, Logs, PlacementFirst, TotalsMatch, IsLatest, Detected, HashAt;
    var logs := Logs(w.synced, 0, w.high + 1);
    if o in w.db.d.orders {
      FilledIsSumOfTrades(logs, o);
    }
    PositionTotalsAreSums(logs, pk);
    LogsOrdered(w.synced, 0, w.high + 1);
    if pk in w.db.d.positions {
      var k := PositionShowsLatestEvent(logs, pk);
    }
  }
}
