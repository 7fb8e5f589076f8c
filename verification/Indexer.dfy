/** The indexer: exchange and oracle logs into rows, one transaction per block range. */
module Indexing {
  import opened Options
  import opened Store
  import opened Chain

  /** The single row of indexer_state; the clock column is left out. */
  datatype StateRow = StateRow(exchange: string, chainId: nat, genesis: Digest, lastBlock: int,
                               lastHash: Option<Digest>, paused: bool, rebuilds: nat)

  datatype Db = Db(d: Derived, s: Seeded, st: StateRow)

  /** The RPC or transaction that fails during one call, if any. */
  datatype Fault = NoFault | HeadFails | BlockFails | RebuildFails | SeedFails(after: nat) | LogsFails | TipFails

  /**
   * The node as one `sync` meets it: the chain it has when each RPC is served,
   * the order in which it lists the logs, and what goes wrong.
   */
  datatype Node = Node(head: Blocks, block: Blocks, seed: Blocks, logs: Blocks, tip: Blocks,
                       answer: seq<Log>, fault: Fault)

  /** A node whose chain does not move during the call. */
  function Steady(c: Blocks, answer: seq<Log>, fault: Fault): Node { Node(c, c, c, c, c, answer, fault) }

  datatype Outcome = Paused | Idle | Failed | Advanced(from: nat, to: nat, logs: nat)

  function FreshDb(exchange: string, chainId: nat, genesis: Digest): Db {
    Db(EMPTY, UNSEEDED, StateRow(exchange, chainId, genesis, -1, None, false, 0))
  }

  // ---------------------------------------------------------------- what each call does to the store

  function UpsertMarket(s: Seeded, i: nat, g: MarketGetter, block: nat): Seeded {
    s.(markets := s.markets[i := MarketRow(g.symbol, g.status, g.tickSize, g.stepSize, g.minNotional, g.maxLeverage,
                                           g.makerFeeBps, g.takerFeeBps, g.maxBasisBps, block)])
  }

  function UpsertIndex(s: Seeded, i: nat, g: MarketGetter, block: nat): Seeded {
    s.(index := s.index[i := IndexRow(g.price, g.publishTime, block)])
  }

  /** The seeded tables after the first `n` of seedMarkets' statements: a market, its index, the next market, ... */
  function SeedFirst(s: Seeded, getters: seq<MarketGetter>, block: nat, n: nat): Seeded
    requires n <= 2 * |getters|
  {
    if n == 0 then s
    else
      var before := SeedFirst(s, getters, block, n - 1);
      var i := (n - 1) / 2;
      if n % 2 == 1 then UpsertMarket(before, i, getters[i], block) else UpsertIndex(before, i, getters[i], block)
  }

  function SeedAll(s: Seeded, c: Blocks): Seeded
    requires c != []
  {
    SeedFirst(s, c[|c| - 1].getters, |c| - 1, 2 * |c[|c| - 1].getters|)
  }

  predicate StopsSeeding(c: Blocks, fault: Fault)
    requires c != []
  {
    fault.SeedFails? && fault.after < 2 * |c[|c| - 1].getters|
  }

  /** The store after seedMarkets, whole or cut short. */
  function Reseeded(db: Db, c: Blocks, fault: Fault): Db
    requires c != []
  {
    if StopsSeeding(c, fault) then db.(s := SeedFirst(db.s, c[|c| - 1].getters, |c| - 1, fault.after))
    else db.(s := SeedAll(db.s, c))
  }

  /** Every derived row dropped, block and hash forgotten, one more rebuild counted. */
  function Emptied(db: Db): Db {
    Db(EMPTY, UNSEEDED, db.st.(lastBlock := -1, lastHash := None, rebuilds := db.st.rebuilds + 1))
  }

  predicate HashKept(st: StateRow) { st.lastBlock >= 0 && st.lastHash.Some? }

  /** The chain no longer has the last indexed block: it is gone, or another block stands at its height. */
  predicate Mismatch(st: StateRow, c: Blocks)
    requires HashKept(st)
  {
    st.lastBlock >= |c| || HashAt(c, st.lastBlock) != st.lastHash.value
  }

  /** A reorg the next unpaused `sync` will notice. */
  predicate Detected(st: StateRow, c: Blocks) { HashKept(st) && Mismatch(st, c) }

  /** The reorg check of `sync`, with the rebuild it may start; the flag says the call goes on. */
  function AfterCheck(db: Db, n: Node): (Db, bool)
    requires n.seed != []
  {
    if !HashKept(db.st) then (db, true)
    else if n.fault.BlockFails? then (db, false)
    else if !Mismatch(db.st, n.block) then (db, true)
    else if n.fault.RebuildFails? then (db, false)
    else (Reseeded(Emptied(db), n.seed, n.fault), !StopsSeeding(n.seed, n.fault))
  }

  function RangeEnd(lastBlock: int, head: Blocks, maxRange: nat): int {
    Min(|head| - 1, lastBlock + maxRange)
  }

  /** One range applied and its end recorded, in one transaction; None when it is rolled back. */
  function Committed(db: Db, to: nat, logs: seq<Log>, n: Node): Option<Db> {
    if AnyThrows(db.d, db.s.markets.Keys, logs) || n.fault.TipFails? then None
    else
      Some(Db(FoldFrom(db.d, logs), SeededFrom(db.d, db.s, logs),
              db.st.(lastBlock := to, lastHash := if to < |n.tip| then Some(HashAt(n.tip, to)) else None)))
  }

  function SyncResult(db: Db, maxRange: nat, n: Node): (Db, Outcome)
    requires n.seed != [] && db.st.lastBlock >= -1 && maxRange >= 1
  {
    if db.st.paused then (db, Paused)
    else if n.fault.HeadFails? then (db, Failed)
    else
      var (checked, goesOn) := AfterCheck(db, n);
      var from := checked.st.lastBlock + 1;
      var to := RangeEnd(checked.st.lastBlock, n.head, maxRange);
      if !goesOn then (checked, Failed)
      else if |n.head| - 1 <= checked.st.lastBlock then (checked, Idle)
      else if n.fault.LogsFails? then (checked, Failed)
      else
        var logs := Sort(n.answer);
        match Committed(checked, to, logs, n)
        case None => (checked, Failed)
        case Some(after) => (after, Advanced(from, to, |logs|))
  }

  /** The node lists exactly the followed logs of the range it is asked for, in any order. */
  predicate Answers(db: Db, maxRange: nat, n: Node)
    requires n.seed != []
  {
    var st := AfterCheck(db, n).0.st;
    st.lastBlock >= -1 &&
    multiset(n.answer) == multiset(RangeLogs(n.logs, st.lastBlock + 1, RangeEnd(st.lastBlock, n.head, maxRange)))
  }

  // ---------------------------------------------------------------- the service

  class Indexer {
    const exchange: string
    const chainId: nat
    var db: Db
    /** indexer_state holds its one row; until `Init` has written it, db.st means nothing. */
    var hasRow: bool

    /** `stored` is what an earlier process left in the file, if one did. */
    constructor (exchange: string, chainId: nat, stored: Option<Db>)
      ensures this.exchange == exchange && this.chainId == chainId && hasRow == stored.Some?
      ensures db == if stored.Some? then stored.value else FreshDb(exchange, chainId, Root)
    {
      this.exchange := exchange;
      this.chainId := chainId;
      db := if stored.Some? then stored.value else FreshDb(exchange, chainId, Root);
      hasRow := stored.Some?;
    }

    /**
     * A new file is bound to this exchange, chain id and block 0. A store
     * follows one exchange on one chain instance for its whole life: any other
     * node or exchange is refused.
     */
    method Init(nodeChainId: nat, c: Blocks, fault: Fault) returns (ok: bool)
      requires c != []
      modifies this
      ensures nodeChainId != chainId ==> !ok && db == old(db) && hasRow == old(hasRow)
      ensures nodeChainId == chainId ==>
                hasRow &&
                var bound := if old(hasRow) then old(db)
                             else old(db).(st := FreshDb(exchange, chainId, HashAt(c, 0)).st);
                var same := bound.st.exchange == exchange && bound.st.genesis == HashAt(c, 0);
                db == (if same then Reseeded(bound, c, fault) else bound) && ok == (same && !StopsSeeding(c, fault))
    {
      if nodeChainId != chainId {
        return false;
      }
      if !hasRow {
        db := db.(st := FreshDb(exchange, chainId, HashAt(c, 0)).st);
        hasRow := true;
      }
      if db.st.exchange != exchange || db.st.genesis != HashAt(c, 0) {
        return false;
      }
      ok := SeedMarkets(c, fault);
    }

    /** Upserts one market and one index price at a time; nothing undoes the first ones when a later RPC fails. */
    method SeedMarkets(c: Blocks, fault: Fault) returns (ok: bool)
      requires c != []
      modifies this`db
      ensures db == Reseeded(old(db), c, fault) && ok == !StopsSeeding(c, fault)
    {
      var getters, block := c[|c| - 1].getters, |c| - 1;
      for i := 0 to |getters|
        invariant db.d == old(db.d) && db.st == old(db.st)
        invariant db.s == SeedFirst(old(db.s), getters, block, 2 * i)
        invariant fault.SeedFails? ==> 2 * i <= fault.after
      {
        if fault.SeedFails? && fault.after == 2 * i {
          return false;
        }
        db := db.(s := UpsertMarket(db.s, i, getters[i], block));
        assert db.s == SeedFirst(old(db.s), getters, block, 2 * i + 1);
        if fault.SeedFails? && fault.after == 2 * i + 1 {
          return false;
        }
        db := db.(s := UpsertIndex(db.s, i, getters[i], block));
        assert db.s == SeedFirst(old(db.s), getters, block, 2 * i + 2);
      }
      return true;
    }

    method SetPaused(flag: bool)
      modifies this`db
      ensures db == old(db).(st := old(db).st.(paused := flag))
    {
      db := db.(st := db.st.(paused := flag));
    }

    /** Forgets the blocks above `block` and the hash, but no row. */
    method RewindTo(block: int)
      modifies this`db
      ensures db == old(db).(st := old(db).st.(lastBlock := block, lastHash := None))
    {
      db := db.(st := db.st.(lastBlock := block, lastHash := None));
    }

    method Rebuild(n: Node) returns (ok: bool)
      requires n.seed != [] && HashKept(db.st) && Mismatch(db.st, n.block) && !n.fault.BlockFails?
      modifies this`db
      ensures (db, ok) == AfterCheck(old(db), n)
    {
      var begun := db;
      db := db.(d := EMPTY, s := UNSEEDED);
      db := db.(st := db.st.(lastBlock := -1, lastHash := None));
      if n.fault.RebuildFails? {
        db := begun;
        return false;
      }
      db := db.(st := db.st.(rebuilds := db.st.rebuilds + 1));
      ok := SeedMarkets(n.seed, n.fault);
    }

    /**
     * One log, statement by statement. A false answer is a throw: the caller's
     * transaction is rolled back, so the half-applied rows do not matter.
     */
    method Apply(log: Log) returns (ok: bool)
      modifies this`db
      ensures ok <==> !Throws(old(db.d), old(db.s.markets.Keys), log)
      ensures db.st == old(db.st) && db.s.markets.Keys == old(db.s.markets.Keys)
      ensures ok ==> db.d == ApplyDerived(old(db.d), log) && db.s == ApplySeeded(old(db.d), old(db.s), log)
    {
      if log.body.Unknown? { return true; }
      if log.body.Malformed? { return false; }
      var ev := log.body.event;
      if !FromExpectedSource(log) { return true; }
      var key := log.Key();
      if key in db.d.applied { return true; }
      db := db.(d := db.d.(applied := db.d.applied[key := log.block]));
      ok := Mirror(log, ev);
    }

    /** The statements of one event's case, run once its key has been marked. */
    method Mirror(log: Log, ev: Event) returns (ok: bool)
      modifies this`db
      ensures ok == !Rejects(old(db.d), old(db.s.markets.Keys), log, ev)
      ensures db.st == old(db.st) && db.s.markets.Keys == old(db.s.markets.Keys)
      ensures ok ==> db.d == DerivedAfter(old(db.d), log, ev) && db.s == SeededAfter(old(db.s), log, ev)
    {
      match ev {
        case OrderPlaced(_, _, _, _, _, _, _, _, _, _, _, _) => ok := PlaceOrder(log, ev);
        case OrderFilled(_, _, _, _, _, _, _, _, _, _) => ok := RecordFill(log, ev);
        case OrderCancelled(id) =>
          db := db.(d := db.d.(orders := SetStatus(db.d.orders, id, Cancelled, log.block)));
          ok := true;
        case OrderTriggered(id) =>
          db := db.(d := db.d.(orders := SetStatus(db.d.orders, id, Open, log.block)));
          ok := true;
        case PositionChanged(_, _, _, _, _, _, _) => ok := ChangePosition(log, ev);
        case FundingUpdated(_, _, _, _, _) => ok := RecordFunding(log, ev);
        case Liquidated(_, _, _, _, _, _, _, _) => ok := RecordLiquidation(log, ev);
        case MarketStatusChanged(_, _) => ok := ChangeMarketStatus(log, ev);
        case AccountInitialized(a) =>
          db := db.(d := db.d.(accounts := OpenAccount(db.d.accounts, a, log.block)));
          ok := true;
        case Deposited(a, amount) => MoveFunds(a, amount, 0, log.block); ok := true;
        case Withdrawn(a, amount) => MoveFunds(a, 0, amount, log.block); ok := true;
        case PriceSet(m, price, publishTime) =>
          if m !in db.s.markets { return false; }
          db := db.(s := db.s.(index := db.s.index[m := IndexRow(price, publishTime, log.block)]));
          ok := true;
        case NotMirrored => ok := true;
      }
    }

    method PlaceOrder(log: Log, ev: Event) returns (ok: bool)
      requires ev.OrderPlaced?
      modifies this`db
      ensures ok == !Rejects(old(db.d), old(db.s.markets.Keys), log, ev)
      ensures if ok then db == old(db).(d := old(db.d).(orders := OrdersAfter(old(db.d.orders), log, ev)))
              else db == old(db)
    {
      if ev.side >= SIDES || ev.orderType >= ORDER_TYPES || ev.tif >= TIFS { return false; }
      if PlacementConflicts(db.d.orders, ev.orderId, log.Key()) { return true; }
      if ev.market !in db.s.markets { return false; }
      db := db.(d := db.d.(orders := db.d.orders[ev.orderId := NewOrder(log, ev)]));
      return true;
    }

    method RecordFill(log: Log, ev: Event) returns (ok: bool)
      requires ev.OrderFilled?
      modifies this`db
      ensures ok == !Rejects(old(db.d), old(db.s.markets.Keys), log, ev)
      ensures db.st == old(db.st) && db.s == old(db.s)
      ensures ok ==> db.d == old(db.d).(trades := TradesAfter(old(db.d.trades), log, ev),
                                        orders := OrdersAfter(old(db.d.orders), log, ev))
    {
      if ev.takerSide >= SIDES { return false; }
      if ev.size != 0 && log.Key() !in db.d.trades {
        if ev.market !in db.s.markets || ev.takerOrder !in db.d.orders { return false; }
        var row := TradeRow(log.block, ev.market, ev.taker, ev.maker, ev.takerOrder, ev.makerOrder, ev.takerSide,
                            ev.size, ev.price, ev.takerFee, ev.makerFee);
        db := db.(d := db.d.(trades := db.d.trades[log.Key() := row]));
      }
      FillOrder(ev.takerOrder, ev.size, log.block);
      if ev.makerOrder != 0 {
        FillOrder(ev.makerOrder, ev.size, log.block);
      }
      return true;
    }

    method ChangePosition(log: Log, ev: Event) returns (ok: bool)
      requires ev.PositionChanged?
      modifies this`db
      ensures ok == !Rejects(old(db.d), old(db.s.markets.Keys), log, ev)
      ensures db.st == old(db.st) && db.s == old(db.s)
      ensures ok ==> db.d == old(db.d).(positionEvents := PositionEventsAfter(old(db.d.positionEvents), log, ev),
                                        positions := PositionsAfter(old(db.d.positions), log, ev))
    {
      if log.Key() !in db.d.positionEvents {
        var row := PositionEventRow(log.block, ev.account, ev.market, ev.sizeBefore, ev.sizeAfter, ev.entryPrice,
                                    ev.realizedDelta, ev.fundingPaid);
        db := db.(d := db.d.(positionEvents := db.d.positionEvents[log.Key() := row]));
      }
      if ev.market !in db.s.markets { return false; }
      var pk := PositionKey(ev.account, ev.market);
      var realized, funding := ev.realizedDelta, ev.fundingPaid;
      if pk in db.d.positions {
        realized := db.d.positions[pk].realizedPnl + realized;
        funding := db.d.positions[pk].fundingPaid + funding;
      }
      var row := PositionRow(ev.sizeAfter, ev.entryPrice, realized, funding, log.block, log.tx);
      db := db.(d := db.d.(positions := db.d.positions[pk := row]));
      return true;
    }

    method RecordFunding(log: Log, ev: Event) returns (ok: bool)
      requires ev.FundingUpdated?
      modifies this`db
      ensures ok == !Rejects(old(db.d), old(db.s.markets.Keys), log, ev)
      ensures if ok then db == old(db).(d := old(db.d).(funding := FundingAfter(old(db.d.funding), log, ev)))
              else db == old(db)
    {
      if log.Key() in db.d.funding { return true; }
      if ev.market !in db.s.markets { return false; }
      var row := FundingRow(log.block, ev.market, ev.rateBps, ev.cumulativeIndex, ev.fundingTime, ev.samples);
      db := db.(d := db.d.(funding := db.d.funding[log.Key() := row]));
      return true;
    }

    method RecordLiquidation(log: Log, ev: Event) returns (ok: bool)
      requires ev.Liquidated?
      modifies this`db
      ensures ok == !Rejects(old(db.d), old(db.s.markets.Keys), log, ev)
      ensures if ok then db == old(db).(d := old(db.d).(
                  liquidations := LiquidationsAfter(old(db.d.liquidations), log, ev)))
              else db == old(db)
    {
      if log.Key() in db.d.liquidations { return true; }
      if ev.market !in db.s.markets { return false; }
      var row := LiquidationRow(log.block, ev.account, ev.market, ev.liquidator, ev.sizeClosed, ev.price,
                                ev.liquidatorFee, ev.badDebt, ev.insuranceUsed);
      db := db.(d := db.d.(liquidations := db.d.liquidations[log.Key() := row]));
      return true;
    }

    method ChangeMarketStatus(log: Log, ev: Event) returns (ok: bool)
      requires ev.MarketStatusChanged?
      modifies this`db
      ensures ok == (ev.status < MARKET_STATUSES)
      ensures db.d == old(db.d) && db.st == old(db.st) && db.s.index == old(db.s.index)
      ensures var m, was := ev.market, old(db.s.markets);
              db.s.markets == if ok && m in was
                              then was[m := was[m].(status := ev.status, updatedBlock := log.block)] else was
    {
      if ev.status >= MARKET_STATUSES { return false; }
      if ev.market in db.s.markets {
        var row := db.s.markets[ev.market].(status := ev.status, updatedBlock := log.block);
        db := db.(s := db.s.(markets := db.s.markets[ev.market := row]));
      }
      return true;
    }

    /** Creates the account on first sight and adds to its running totals. */
    method MoveFunds(account: string, deposited: nat, withdrawn: nat, block: nat)
      modifies this`db
      ensures db.st == old(db.st) && db.s == old(db.s)
      ensures var rows := OpenAccount(old(db.d.accounts), account, block);
              db.d == old(db.d).(accounts := rows[account := rows[account].(
                  deposits := rows[account].deposits + deposited,
                  withdrawals := rows[account].withdrawals + withdrawn)])
    {
      db := db.(d := db.d.(accounts := OpenAccount(db.d.accounts, account, block)));
      var row := db.d.accounts[account];
      row := row.(deposits := row.deposits + deposited, withdrawals := row.withdrawals + withdrawn);
      db := db.(d := db.d.(accounts := db.d.accounts[account := row]));
    }

    /** Adds a fill to an order the store has; an order placed before it started following is skipped. */
    method FillOrder(orderId: nat, size: nat, block: nat)
      modifies this`db
      ensures db == old(db).(d := old(db).d.(orders := Fill(old(db).d.orders, orderId, size, block)))
    {
      if orderId !in db.d.orders { return; }
      var row := db.d.orders[orderId];
      row := row.(filled := row.filled + size, updatedBlock := block);
      if row.filled == row.size {
        row := row.(status := Filled);
      }
      db := db.(d := db.d.(orders := db.d.orders[orderId := row]));
    }

    /** Rebuilds when another block, or none, stands where the recorded one stood. */
    method CheckReorg(n: Node) returns (goesOn: bool)
      requires n.seed != []
      modifies this`db
      ensures (db, goesOn) == AfterCheck(old(db), n)
    {
      goesOn := true;
      if db.st.lastBlock >= 0 && db.st.lastHash.Some? {
        if n.fault.BlockFails? { return false; }
        if Mismatch(db.st, n.block) {
          goesOn := Rebuild(n);
        }
      }
    }

    method Sync(maxRange: nat, n: Node) returns (outcome: Outcome)
      requires n.seed != [] && db.st.lastBlock >= -1 && maxRange >= 1 && Answers(db, maxRange, n)
      modifies this`db
      ensures (db, outcome) == SyncResult(old(db), maxRange, n)
    {
      hide FoldFrom, SeededFrom, AnyThrows, Committed, AfterCheck, Sort, HashAt, SeedFirst;
      if db.st.paused { return Paused; }
      if n.fault.HeadFails? { return Failed; }
      var head := |n.head| - 1;

      var goesOn := CheckReorg(n);
      if !goesOn { return Failed; }
      if head <= db.st.lastBlock { return Idle; }

      var from := db.st.lastBlock + 1;
      var to := Min(head, from + maxRange - 1);
      if n.fault.LogsFails? { return Failed; }
      var logs := Sort(n.answer);

      var committed := CommitRange(to, logs, n);
      if !committed { return Failed; }
      return Advanced(from, to, |logs|);
    }

    /** BEGIN .. COMMIT: every log of the range and the new last block, or nothing. */
    method CommitRange(to: nat, logs: seq<Log>, n: Node) returns (ok: bool)
      modifies this`db
      ensures ok == Committed(old(db), to, logs, n).Some?
      ensures db == if ok then Committed(old(db), to, logs, n).value else old(db)
    {
      var begun := db;
      var i := 0;
      while i < |logs|
        invariant 0 <= i <= |logs|
        invariant db.d == FoldFrom(begun.d, logs[..i]) && db.s == SeededFrom(begun.d, begun.s, logs[..i])
        invariant db.st == begun.st && db.s.markets.Keys == begun.s.markets.Keys
        invariant forall k :: 0 <= k < i ==> !ThrowsAt(begun.d, begun.s.markets.Keys, logs, k)
      {
        var applied := Apply(logs[i]);
        assert logs[..i + 1][..i] == logs[..i] && logs[..i + 1][i] == logs[i];
        if !applied {
          assert ThrowsAt(begun.d, begun.s.markets.Keys, logs, i);
          db := begun;
          return false;
        }
        i := i + 1;
      }
      assert logs[..i] == logs;
      if n.fault.TipFails? {
        db := begun;
        return false;
      }
      db := db.(st := db.st.(lastBlock := to, lastHash := if to < |n.tip| then Some(HashAt(n.tip, to)) else None));
      return true;
    }
  }
}
