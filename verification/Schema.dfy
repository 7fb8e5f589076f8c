/** The constraints of the tables: what they let the store hold, and that they decide exactly when a log throws. */
module Schema {
  import opened Store
  import opened Chain
  import opened Indexing
  import opened AnyRuns
  import Columns

  /** No two orders come from one log. */
  ghost predicate OrdersMeet(orders: map<nat, OrderRow>, markets: set<nat>) {
    && (forall o :: o in orders ==>
          var row := orders[o]; row.side < 2 && row.orderType < 5 && row.tif < 4 && row.market in markets)
    && (forall a, b :: a in orders && b in orders && orders[a].placed == orders[b].placed ==> a == b)
  }

  ghost predicate TradesMeet(trades: map<LogKey, TradeRow>, orders: set<nat>, markets: set<nat>) {
    forall k :: k in trades ==>
      var row := trades[k];
      row.takerSide < 2 && row.size != 0 && row.market in markets && row.takerOrder in orders
  }

  /** Every row names its enum values, is not empty where the table says so, and has the parents it refers to. */
  ghost predicate Meets(d: Derived, markets: set<nat>, index: set<nat>) {
    && OrdersMeet(d.orders, markets) && TradesMeet(d.trades, d.orders.Keys, markets)
    && (forall pk :: pk in d.positions ==> pk.market in markets)
    && (forall k :: k in d.funding ==> d.funding[k].market in markets)
    && (forall k :: k in d.liquidations ==> d.liquidations[k].market in markets)
    && index <= markets
  }

  /** A value on the wire with no name to bind: two sides, five order types, four times in force, four statuses. */
  predicate Unnamed(ev: Event) {
    match ev
    case OrderPlaced(_, _, _, side, orderType, tif, _, _, _, _, _, _) => side >= 2 || orderType >= 5 || tif >= 4
    case OrderFilled(_, _, _, _, takerSide, _, _, _, _, _) => takerSide >= 2
    case MarketStatusChanged(_, status) => status >= 4
    case _ => false
  }

  ghost predicate StoreMeets(d: Derived, s: Seeded) { Meets(d, s.markets.Keys, s.index.Keys) }

  lemma SeededStep(d: Derived, s: Seeded, log: Log)
    ensures ApplySeeded(d, s, log).markets.Keys == s.markets.Keys
    ensures ApplySeeded(d, s, log).index.Keys
            == s.index.Keys + if Fresh(d, log) && log.body.event.PriceSet? then {log.body.event.market} else {}
  {
  }

  /**
   * Over a store that meets its constraints, a log throws exactly when its data
   * is malformed, or it is new and either has a value with no name or would
   * leave a store that breaks a constraint.
   */
  lemma ThrowsIffTheRowsWouldNotMeet(d: Derived, s: Seeded, log: Log)
    requires StoreMeets(d, s)
    ensures Throws(d, s.markets.Keys, log)
            <==> log.body.Malformed?
                 || (Fresh(d, log) && (Unnamed(log.body.event)
                                       || !StoreMeets(ApplyDerived(d, log), ApplySeeded(d, s, log))))
  {
    hide ApplyDerived, ApplySeeded, Rejects, Meets, Unnamed;
    SeededStep(d, s, log);
    if Fresh(d, log) {
      Columns.TablesStep(d, log);
      var prices := if log.body.event.PriceSet? then {log.body.event.market} else {};
      RejectsIff(d, ApplyDerived(d, log), s.markets.Keys, s.index.Keys, prices, log, log.body.event);
    }
  }

  lemma RejectsIff(d: Derived, after: Derived, markets: set<nat>, index: set<nat>, prices: set<nat>, log: Log,
                   ev: Event)
    requires Meets(d, markets, index) && prices == if ev.PriceSet? then {ev.market} else {}
    requires after.orders == OrdersAfter(d.orders, log, ev) && after.trades == TradesAfter(d.trades, log, ev)
    requires after.positions == PositionsAfter(d.positions, log, ev)
    requires after.funding == FundingAfter(d.funding, log, ev)
    requires after.liquidations == LiquidationsAfter(d.liquidations, log, ev)
    ensures Rejects(d, markets, log, ev) <==> Unnamed(ev) || !Meets(after, markets, index + prices)
  {
    if ev.OrderPlaced? {
      PlacementRejectedIff(d, after, markets, index, log, ev);
    } else if ev.OrderFilled? {
      FillRejectedIff(d, after, markets, index, log, ev);
    } else {
      hide OrdersAfter;
      OrdersKeep(d.orders, log, ev);
      KeyedRejectedIff(d, after, markets, index, prices, log, ev);
    }
  }

  /** The orders are the same ones, but for status, fill and block. */
  ghost predicate SameOrders(a: map<nat, OrderRow>, b: map<nat, OrderRow>) {
    a.Keys == b.Keys
    && forall o :: o in a ==>
         b[o].(filled := a[o].filled, status := a[o].status, updatedBlock := a[o].updatedBlock) == a[o]
  }

  lemma FillKeeps(orders: map<nat, OrderRow>, o: nat, size: nat, block: nat)
    ensures SameOrders(orders, Fill(orders, o, size, block))
  {
  }

  lemma SameTwice(a: map<nat, OrderRow>, b: map<nat, OrderRow>, c: map<nat, OrderRow>)
    requires SameOrders(a, b) && SameOrders(b, c)
    ensures SameOrders(a, c)
  {
    forall o | o in a
      ensures c[o].(filled := a[o].filled, status := a[o].status, updatedBlock := a[o].updatedBlock) == a[o]
    {
      assert o in b && o in c;
    }
  }

  /** Only a placement makes a new order, and nothing but its status, fill and block ever changes. */
  lemma OrdersKeep(orders: map<nat, OrderRow>, log: Log, ev: Event)
    requires !ev.OrderPlaced?
    ensures SameOrders(orders, OrdersAfter(orders, log, ev))
  {
    if ev.OrderFilled? {
      hide Fill, SameOrders;
      var once := Fill(orders, ev.takerOrder, ev.size, log.block);
      FillKeeps(orders, ev.takerOrder, ev.size, log.block);
      FillKeeps(once, ev.makerOrder, ev.size, log.block);
      SameTwice(orders, once, Fill(once, ev.makerOrder, ev.size, log.block));
    }
  }

  lemma SameOrdersMeet(a: map<nat, OrderRow>, b: map<nat, OrderRow>, markets: set<nat>)
    requires SameOrders(a, b)
    ensures a.Keys == b.Keys && (OrdersMeet(a, markets) <==> OrdersMeet(b, markets))
  {
  }

  lemma PlacementRejectedIff(d: Derived, after: Derived, markets: set<nat>, index: set<nat>, log: Log, ev: Event)
    requires ev.OrderPlaced? && Meets(d, markets, index)
    requires after.orders == OrdersAfter(d.orders, log, ev) && after.trades == d.trades
    requires after.positions == d.positions && after.funding == d.funding && after.liquidations == d.liquidations
    ensures Rejects(d, markets, log, ev) <==> Unnamed(ev) || !Meets(after, markets, index + {})
  {
    assert index + {} == index;
    if !PlacementConflicts(d.orders, ev.orderId, log.Key()) {
      assert after.orders[ev.orderId].market == ev.market;
    }
  }

  lemma FillRejectedIff(d: Derived, after: Derived, markets: set<nat>, index: set<nat>, log: Log, ev: Event)
    requires ev.OrderFilled? && Meets(d, markets, index)
    requires after.orders == OrdersAfter(d.orders, log, ev) && after.trades == TradesAfter(d.trades, log, ev)
    requires after.positions == d.positions && after.funding == d.funding && after.liquidations == d.liquidations
    ensures Rejects(d, markets, log, ev) <==> Unnamed(ev) || !Meets(after, markets, index + {})
  {
    assert index + {} == index;
    OrdersKeep(d.orders, log, ev);
    SameOrdersMeet(d.orders, after.orders, markets);
    hide OrdersAfter, OrdersMeet, SameOrders;
    if ev.size != 0 && log.Key() !in d.trades {
      assert after.trades[log.Key()].market == ev.market;
    }
  }

  lemma KeyedRejectedIff(d: Derived, after: Derived, markets: set<nat>, index: set<nat>, prices: set<nat>, log: Log,
                         ev: Event)
    requires !ev.OrderPlaced? && !ev.OrderFilled? && Meets(d, markets, index)
    requires prices == if ev.PriceSet? then {ev.market} else {}
    requires SameOrders(d.orders, after.orders)
    requires after.trades == d.trades && after.positions == PositionsAfter(d.positions, log, ev)
    requires after.funding == FundingAfter(d.funding, log, ev)
    requires after.liquidations == LiquidationsAfter(d.liquidations, log, ev)
    ensures Rejects(d, markets, log, ev) <==> Unnamed(ev) || !Meets(after, markets, index + prices)
  {
    SameOrdersMeet(d.orders, after.orders, markets);
    hide OrdersMeet, TradesMeet, SameOrders;
    var k := log.Key();
    match ev
    case PositionChanged(a, m, _, _, _, _, _) => assert PositionKey(a, m) in after.positions;
    case FundingUpdated(m, _, _, _, _) => assert k !in d.funding ==> after.funding[k].market == m;
    case Liquidated(_, m, _, _, _, _, _, _) => assert k !in d.liquidations ==> after.liquidations[k].market == m;
    case PriceSet(m, _, _) => assert m in index + prices;
    case _ =>
  }

  // ---------------------------------------------------------------- over every run

  /** What does not throw leaves a store that meets its constraints. */
  lemma {:induction false} CommitMeets(d: Derived, s: Seeded, logs: seq<Log>)
    requires StoreMeets(d, s) && !AnyThrows(d, s.markets.Keys, logs)
    ensures StoreMeets(FoldFrom(d, logs), SeededFrom(d, s, logs))
    ensures SeededFrom(d, s, logs).markets.Keys == s.markets.Keys
  {
    hide ApplyDerived, ApplySeeded, Throws, StoreMeets;
    if logs != [] {
      var n := |logs| - 1;
      assert forall i :: 0 <= i < n ==> logs[..n][..i] == logs[..i];
      forall i: nat | i < n ensures !ThrowsAt(d, s.markets.Keys, logs[..n], i) {
        assert !ThrowsAt(d, s.markets.Keys, logs, i);
      }
      CommitMeets(d, s, logs[..n]);
      assert !ThrowsAt(d, s.markets.Keys, logs, n);
      var mid, seeded := FoldFrom(d, logs[..n]), SeededFrom(d, s, logs[..n]);
      ThrowsIffTheRowsWouldNotMeet(mid, seeded, logs[n]);
      SeededStep(mid, seeded, logs[n]);
      if !Fresh(mid, logs[n]) {
        StaleLog(mid, seeded, logs[n]);
      }
    }
  }

  lemma StaleLog(d: Derived, s: Seeded, log: Log)
    requires !Fresh(d, log)
    ensures ApplyDerived(d, log) == d && ApplySeeded(d, s, log) == s
  {
  }

  /** Seeding puts each market in before its price, so wherever it stops the store meets its constraints. */
  lemma {:induction false} SeedingMeets(d: Derived, s: Seeded, getters: seq<MarketGetter>, block: nat, n: nat)
    requires n <= 2 * |getters| && StoreMeets(d, s)
    ensures StoreMeets(d, SeedFirst(s, getters, block, n))
    ensures n % 2 == 1 ==> (n - 1) / 2 in SeedFirst(s, getters, block, n).markets
  {
    if n > 0 {
      SeedingMeets(d, s, getters, block, n - 1);
    }
  }

  lemma ReseededMeets(db: Db, c: Blocks, fault: Fault)
    requires c != [] && StoreMeets(db.d, db.s)
    ensures StoreMeets(Reseeded(db, c, fault).d, Reseeded(db, c, fault).s)
  {
    hide SeedFirst, StoreMeets;
    var getters := c[|c| - 1].getters;
    SeedingMeets(db.d, db.s, getters, |c| - 1, if StopsSeeding(c, fault) then fault.after else 2 * |getters|);
  }

  lemma EmptyMeets()
    ensures StoreMeets(EMPTY, UNSEEDED)
  {
  }

  lemma CheckMeets(db: Db, n: Node)
    requires n.seed != [] && StoreMeets(db.d, db.s)
    ensures var checked := AfterCheck(db, n).0; StoreMeets(checked.d, checked.s)
  {
    hide Reseeded, StoreMeets, HashAt;
    EmptyMeets();
    ReseededMeets(Emptied(db), n.seed, n.fault);
  }

  lemma SyncMeets(db: Db, maxRange: nat, n: Node)
    requires n.seed != [] && db.st.lastBlock >= -1 && maxRange >= 1 && StoreMeets(db.d, db.s)
    ensures var after := SyncResult(db, maxRange, n).0; StoreMeets(after.d, after.s)
  {
    hide AfterCheck, StoreMeets, FoldFrom, SeededFrom, AnyThrows, Sort, HashAt;
    CheckMeets(db, n);
    var checked := AfterCheck(db, n).0;
    if !AnyThrows(checked.d, checked.s.markets.Keys, Sort(n.answer)) {
      CommitMeets(checked.d, checked.s, Sort(n.answer));
    }
  }

  /** Whatever the chain, the faults and the operators do, every row of the store meets its constraints. */
  lemma {:induction false} RowsMeetTheSchemaOnEveryRun(t: Trail, calls: seq<Call>, end: Trail)
    requires StoreMeets(t.db.d, t.db.s) && Reaches(t, calls, end)
    ensures StoreMeets(end.db.d, end.db.s)
    decreases |calls|
  {
    hide StoreMeets, SyncResult, Answers, Reseeded, HashAt;
    if calls != [] {
      match calls[0] {
        case Sync(maxRange, n) => SyncMeets(t.db, maxRange, n);
        case Restart(c, fault) => ReseededMeets(t.db, c, fault);
        case _ =>
      }
      RowsMeetTheSchemaOnEveryRun(AfterCall(t, calls[0]), calls[1..], end);
    }
  }

  lemma FreshStoreMeetsTheSchema(exchange: string, chainId: nat, genesis: Digest, calls: seq<Call>, end: Trail)
    requires Reaches(Opened(exchange, chainId, genesis), calls, end)
    ensures StoreMeets(end.db.d, end.db.s)
  {
    hide StoreMeets;
    EmptyMeets();
    RowsMeetTheSchemaOnEveryRun(Opened(exchange, chainId, genesis), calls, end);
  }
}
