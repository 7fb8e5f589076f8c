/**
 * Every column of every table, told by the logs alone: which log a row comes
 * from, what it copies from it, and what later logs make of it.
 */
module Columns {
  import opened Options
  import opened Store
  import opened Chain
  import opened Hazards
  import opened Indexing
  import opened Runs
  import opened Conservation
  import Rows

  /** A mirrored log of a history is new when its turn comes, and its key has no row anywhere. */
  lemma NextIsNew(logs: seq<Log>)
    requires logs != [] && UniqueKeys(logs)
    ensures var n := |logs| - 1;
            var d, log := Fold(logs[..n]), logs[n];
            && Fold(logs) == ApplyDerived(d, log) && UniqueKeys(logs[..n])
            && (Mirrored(log) <==> Fresh(d, log)) && Rows.Grounded(d) && log.Key() !in d.applied
  {
    hide ApplyDerived, Rows.Grounded;
    var n := |logs| - 1;
    if Mirrored(logs[n]) {
      UniqueKeysAreFresh(logs, n);
    }
    if logs[n].Key() in Fold(logs[..n]).applied {
      AppliedKeysComeFromLogs(EMPTY, logs[..n], logs[n].Key());
    }
    Rows.NothingIsGrounded(logs[..n]);
  }

  /** What one more log does to each table, and that one that is not new does nothing. */
  lemma TablesStep(d: Derived, log: Log)
    ensures !Fresh(d, log) ==> ApplyDerived(d, log) == d
    ensures Fresh(d, log) ==>
              var after, ev := ApplyDerived(d, log), log.body.event;
              && after.orders == OrdersAfter(d.orders, log, ev) && after.accounts == AccountsAfter(d.accounts, log, ev)
              && after.trades == TradesAfter(d.trades, log, ev) && after.funding == FundingAfter(d.funding, log, ev)
              && after.positions == PositionsAfter(d.positions, log, ev)
              && after.positionEvents == PositionEventsAfter(d.positionEvents, log, ev)
              && after.liquidations == LiquidationsAfter(d.liquidations, log, ev)
              && after.applied == d.applied[log.Key() := log.block]
  {
  }

  lemma InEmpty()
    ensures Fold([]) == EMPTY
  {
  }

  // ---------------------------------------------------------------- applied_logs

  /** A topic the service knows, from the one contract that may emit it: the oracle for PriceSet, else the exchange. */
  predicate IsOurs(log: Log) {
    log.body.Known? && (if log.body.event.PriceSet? then log.source.Oracle? else log.source.Exchange?)
  }

  /** applied_logs lists exactly those logs, each with its block. */
  lemma {:induction false} MarksAreOurLogs(logs: seq<Log>, log: Log)
    requires UniqueKeys(logs) && log in logs
    ensures LogKey(log.tx, log.index) in Fold(logs).applied <==> IsOurs(log)
    ensures IsOurs(log) ==> Fold(logs).applied[LogKey(log.tx, log.index)] == log.block
  {
    hide ApplyDerived, FoldFrom;
    var n := |logs| - 1;
    NextIsNew(logs);
    TablesStep(Fold(logs[..n]), logs[n]);
    var i :| 0 <= i < |logs| && logs[i] == log;
    if i < n {
      assert logs[..n][i] == log;
      assert logs[i].Key() != logs[n].Key();
      MarksAreOurLogs(logs[..n], log);
    }
  }

  // ---------------------------------------------------------------- orders

  /** The first placement of the order; later ones under the same id are ignored. */
  ghost function PlacementOf(logs: seq<Log>, o: nat): (r: Option<Log>)
    ensures r.Some? ==> Places(r.value, o) && r.value in logs
  {
    if logs == [] then None
    else
      var n := |logs| - 1;
      var before := PlacementOf(logs[..n], o);
      if before.Some? then before else if Places(logs[n], o) then Some(logs[n]) else None
  }

  function Taken(log: Log, o: nat): nat {
    if Mirrored(log) && log.body.event.OrderFilled? && log.body.event.takerOrder == o then log.body.event.size else 0
  }

  /** Maker 0 is the liquidity backstop and no order. */
  function Made(log: Log, o: nat): nat {
    if Mirrored(log) && log.body.event.OrderFilled? && log.body.event.makerOrder == o != 0 then log.body.event.size
    else 0
  }

  /** What fills have added to the order since it was placed. */
  ghost function FilledBy(logs: seq<Log>, o: nat): nat {
    if logs == [] then 0
    else
      var n := |logs| - 1;
      if PlacementOf(logs[..n], o).None? then 0
      else FilledBy(logs[..n], o) + Taken(logs[n], o) + Made(logs[n], o)
  }

  /** The fill brings the order to exactly its size, as taker or then as maker. */
  ghost predicate Completes(before: seq<Log>, log: Log, o: nat)
    requires PlacementOf(before, o).Some?
  {
    FillNames(log, o) &&
    var size, filled := PlacementOf(before, o).value.body.event.size, FilledBy(before, o);
    || (log.body.event.takerOrder == o && filled + log.body.event.size == size)
    || (log.body.event.makerOrder == o != 0 && filled + Taken(log, o) + log.body.event.size == size)
  }

  /** The log cancels, triggers or completes an order already placed. */
  ghost predicate Decides(before: seq<Log>, log: Log, o: nat) {
    PlacementOf(before, o).Some? && Mirrored(log) &&
    match log.body.event
    case OrderCancelled(id) => id == o
    case OrderTriggered(id) => id == o
    case OrderFilled(_, _, _, _, _, _, _, _, _, _) => Completes(before, log, o)
    case _ => false
  }

  /** The log writes the row of an order already placed, at least its updated_block. */
  ghost predicate Updates(before: seq<Log>, log: Log, o: nat) {
    PlacementOf(before, o).Some?
    && (FillNames(log, o) || (Mirrored(log) && ((log.body.event.OrderCancelled? && log.body.event.orderId == o)
                                                || (log.body.event.OrderTriggered? && log.body.event.orderId == o))))
  }

  ghost function LastDecision(logs: seq<Log>, o: nat): (r: Option<Log>)
    ensures r.Some? ==> Mirrored(r.value)
  {
    if logs == [] then None
    else
      var n := |logs| - 1;
      if Decides(logs[..n], logs[n], o) then Some(logs[n]) else LastDecision(logs[..n], o)
  }

  ghost function LastUpdate(logs: seq<Log>, o: nat): Option<Log> {
    if logs == [] then None
    else
      var n := |logs| - 1;
      if Updates(logs[..n], logs[n], o) then Some(logs[n]) else LastUpdate(logs[..n], o)
  }

  ghost function StatusOf(logs: seq<Log>, o: nat): OrderStatus
    requires PlacementOf(logs, o).Some?
  {
    var placement, decision := PlacementOf(logs, o).value.body.event, LastDecision(logs, o);
    if decision.Some? then
      match decision.value.body.event
      case OrderCancelled(_) => Cancelled
      case OrderTriggered(_) => Open
      case _ => Filled
    else if placement.orderType == 2 || placement.orderType == 3 || placement.orderType == 4 then Pending
    else Open
  }

  /** The row is the placement's, with what later logs made of three columns. */
  ghost predicate IsOrderRow(row: OrderRow, logs: seq<Log>, o: nat)
    requires PlacementOf(logs, o).Some?
  {
    var log := PlacementOf(logs, o).value;
    var ev := log.body.event;
    && row.owner == ev.owner && row.market == ev.market && row.side == ev.side && row.orderType == ev.orderType
    && row.tif == ev.tif && row.size == ev.size && row.price == ev.price && row.trigger == ev.trigger
    && row.reduceOnly == ev.reduceOnly && row.userOrderId == ev.userOrderId && row.maxTs == ev.maxTs
    && row.placedBlock == log.block && row.placed == LogKey(log.tx, log.index)
    && row.filled == FilledBy(logs, o) && row.status == StatusOf(logs, o)
    && row.updatedBlock == (if LastUpdate(logs, o).Some? then LastUpdate(logs, o).value.block else log.block)
  }

  ghost predicate OrderTold(d: Derived, logs: seq<Log>, o: nat) {
    && (o in d.orders <==> PlacementOf(logs, o).Some?)
    && (o in d.orders ==> IsOrderRow(d.orders[o], logs, o))
  }

  lemma OrderToldStep(d: Derived, logs: seq<Log>, o: nat)
    requires logs != [] && OrderTold(d, logs[..|logs| - 1], o)
    requires forall x :: x in d.orders ==> d.orders[x].placed != logs[|logs| - 1].Key()
    requires Mirrored(logs[|logs| - 1]) <==> Fresh(d, logs[|logs| - 1])
    ensures OrderTold(ApplyDerived(d, logs[|logs| - 1]), logs, o)
  {
    hide *;
    var log := logs[|logs| - 1];
    TablesStep(d, log);
    if !Mirrored(log) {
      QuietForOrders(d, d, logs, o);
    } else {
      var after := ApplyDerived(d, log);
      MirroredIsKnown(log);
      match log.body.event
      case OrderPlaced(_, _, _, _, _, _, _, _, _, _, _, _) => PlacedStep(d, after, logs, o);
      case OrderFilled(_, _, _, _, _, _, _, _, _, _) => FilledStep(d, after, logs, o);
      case OrderCancelled(_) => ToldStatusStep(d, after, logs, o);
      case OrderTriggered(_) => ToldStatusStep(d, after, logs, o);
      case _ =>
        OtherOrders(d.orders, log);
        QuietForOrders(d, after, logs, o);
    }
  }

  lemma MirroredIsKnown(log: Log)
    requires Mirrored(log)
    ensures log.body.Known?
  {
  }

  lemma OtherOrders(orders: map<nat, OrderRow>, log: Log)
    requires log.body.Known?
    ensures var ev := log.body.event;
            !ev.OrderPlaced? && !ev.OrderFilled? && !ev.OrderCancelled? && !ev.OrderTriggered?
            ==> OrdersAfter(orders, log, ev) == orders
  {
  }

  /** A log that is no order's leaves the row, and all that is said of it, alone. */
  lemma QuietForOrders(d: Derived, after: Derived, logs: seq<Log>, o: nat)
    requires logs != [] && OrderTold(d, logs[..|logs| - 1], o) && after.orders == d.orders
    requires var log := logs[|logs| - 1];
             Mirrored(log) ==> var ev := log.body.event;
               !ev.OrderPlaced? && !ev.OrderFilled? && !ev.OrderCancelled? && !ev.OrderTriggered?
    ensures OrderTold(after, logs, o)
  {
  }

  lemma PlacedStep(d: Derived, after: Derived, logs: seq<Log>, o: nat)
    requires logs != [] && OrderTold(d, logs[..|logs| - 1], o)
    requires forall x :: x in d.orders ==> d.orders[x].placed != logs[|logs| - 1].Key()
    requires var log := logs[|logs| - 1];
             Mirrored(log) && log.body.event.OrderPlaced? && after.orders == OrdersAfter(d.orders, log, log.body.event)
    ensures OrderTold(after, logs, o)
  {
    if PlacementOf(logs[..|logs| - 1], o).None? {
      Unplaced(logs[..|logs| - 1], o);
    }
  }

  lemma ToldStatusStep(d: Derived, after: Derived, logs: seq<Log>, o: nat)
    requires logs != [] && OrderTold(d, logs[..|logs| - 1], o)
    requires var log := logs[|logs| - 1];
             Mirrored(log) && (log.body.event.OrderCancelled? || log.body.event.OrderTriggered?)
             && after.orders == OrdersAfter(d.orders, log, log.body.event)
    ensures OrderTold(after, logs, o)
  {
  }

  /** A fill adds what it takes and what it makes, flips the status when either step meets the size, and no more. */
  lemma FillOf(orders: map<nat, OrderRow>, log: Log, o: nat)
    requires Mirrored(log) && log.body.event.OrderFilled?
    ensures var after, ev := OrdersAfter(orders, log, log.body.event), log.body.event;
            && (o in after <==> o in orders)
            && (o in orders ==>
                  var row, filled := orders[o], orders[o].filled + Taken(log, o) + Made(log, o);
                  var full := (ev.takerOrder == o && row.filled + ev.size == row.size)
                              || (ev.makerOrder == o != 0 && row.filled + Taken(log, o) + ev.size == row.size);
                  after[o] == if FillNames(log, o)
                              then row.(filled := filled, status := if full then Filled else row.status,
                                        updatedBlock := log.block)
                              else row)
  {
  }

  lemma FilledStep(d: Derived, after: Derived, logs: seq<Log>, o: nat)
    requires logs != [] && OrderTold(d, logs[..|logs| - 1], o)
    requires var log := logs[|logs| - 1];
             Mirrored(log) && log.body.event.OrderFilled? && after.orders == OrdersAfter(d.orders, log, log.body.event)
    ensures OrderTold(after, logs, o)
  {
    FillOf(d.orders, logs[|logs| - 1], o);
    hide OrdersAfter, Taken, Made;
    if PlacementOf(logs[..|logs| - 1], o).None? {
      Unplaced(logs[..|logs| - 1], o);
    }
  }

  lemma {:induction false} Unplaced(logs: seq<Log>, o: nat)
    requires PlacementOf(logs, o).None?
    ensures FilledBy(logs, o) == 0 && LastDecision(logs, o).None? && LastUpdate(logs, o).None?
  {
    if logs != [] {
      Unplaced(logs[..|logs| - 1], o);
    }
  }

  /**
   * An order has a row if and only if it was placed, and the row's columns are
   * the first placement's, with `filled`, `status` and `updated_block` as the
   * logs after it make them.
   */
  lemma {:induction false} OrderRowsFollowTheLogs(logs: seq<Log>, o: nat)
    requires UniqueKeys(logs)
    ensures o in Fold(logs).orders <==> PlacementOf(logs, o).Some?
    ensures o in Fold(logs).orders ==> IsOrderRow(Fold(logs).orders[o], logs, o)
  {
    hide FoldFrom, UniqueKeys, IsOrderRow, ApplyDerived;
    if logs == [] {
      InEmpty();
    } else {
      var n := |logs| - 1;
      NextIsNew(logs);
      OrderRowsFollowTheLogs(logs[..n], o);
      OrderToldStep(Fold(logs[..n]), logs, o);
    }
  }

  lemma {:induction false} LastDecisionAt(logs: seq<Log>, o: nat, i: nat)
    requires i < |logs| && Decides(logs[..i], logs[i], o)
    requires forall j :: i < j < |logs| ==> !Decides(logs[..j], logs[j], o)
    ensures LastDecision(logs, o) == Some(logs[i])
  {
    hide Decides;
    var n := |logs| - 1;
    if i < n {
      assert forall j :: 0 <= j < n ==> logs[..n][..j] == logs[..j] && logs[..n][j] == logs[j];
      LastDecisionAt(logs[..n], o, i);
    }
  }

  lemma {:induction false} NoDecision(logs: seq<Log>, o: nat)
    requires forall j :: 0 <= j < |logs| ==> !Decides(logs[..j], logs[j], o)
    ensures LastDecision(logs, o).None?
  {
    hide Decides;
    if logs != [] {
      var n := |logs| - 1;
      assert forall j :: 0 <= j < n ==> logs[..n][..j] == logs[..j] && logs[..n][j] == logs[j];
      NoDecision(logs[..n], o);
    }
  }

  /** The last log that decides an order's status says what it is. */
  lemma StatusIsTheLastDecision(logs: seq<Log>, o: nat, i: nat)
    requires UniqueKeys(logs) && i < |logs| && Decides(logs[..i], logs[i], o)
    requires forall j :: i < j < |logs| ==> !Decides(logs[..j], logs[j], o)
    ensures o in Fold(logs).orders
    ensures logs[i].body.event.OrderCancelled? ==> Fold(logs).orders[o].status == Cancelled
    ensures logs[i].body.event.OrderTriggered? ==> Fold(logs).orders[o].status == Open
    ensures logs[i].body.event.OrderFilled? ==> Fold(logs).orders[o].status == Filled
  {
    hide FoldFrom, Fold, UniqueKeys;
    LastDecisionAt(logs, o, i);
    PlacementStays(logs, o, i);
    OrderRowsFollowTheLogs(logs, o);
  }

  lemma {:induction false} PlacementStays(logs: seq<Log>, o: nat, i: nat)
    requires i <= |logs| && PlacementOf(logs[..i], o).Some?
    ensures PlacementOf(logs, o) == PlacementOf(logs[..i], o)
  {
    if i == |logs| {
      assert logs[..i] == logs;
    } else {
      var n := |logs| - 1;
      assert logs[..n][..i] == logs[..i];
      PlacementStays(logs[..n], o, i);
    }
  }

  /** An order nothing has decided is as it was placed: Pending if it waits for a trigger, else Open. */
  lemma UndecidedOrders(logs: seq<Log>, o: nat)
    requires UniqueKeys(logs) && o in Fold(logs).orders
    requires forall j :: 0 <= j < |logs| ==> !Decides(logs[..j], logs[j], o)
    ensures PlacementOf(logs, o).Some?
    ensures Fold(logs).orders[o].status
            == if 2 <= PlacementOf(logs, o).value.body.event.orderType <= 4 then Pending else Open
  {
    hide FoldFrom, Fold, UniqueKeys;
    NoDecision(logs, o);
    OrderRowsFollowTheLogs(logs, o);
  }

  // ---------------------------------------------------------------- accounts

  predicate NamesAccount(log: Log, a: string) {
    Mirrored(log) && (log.body.event.AccountInitialized? || log.body.event.Deposited? || log.body.event.Withdrawn?)
    && log.body.event.account == a
  }

  ghost function FirstSight(logs: seq<Log>, a: string): Option<Log> {
    if logs == [] then None
    else
      var n := |logs| - 1;
      var before := FirstSight(logs[..n], a);
      if before.Some? then before else if NamesAccount(logs[n], a) then Some(logs[n]) else None
  }

  ghost function DepositedTo(logs: seq<Log>, a: string): nat {
    if logs == [] then 0
    else
      var n := |logs| - 1;
      DepositedTo(logs[..n], a)
      + (if NamesAccount(logs[n], a) && logs[n].body.event.Deposited? then logs[n].body.event.amount else 0)
  }

  ghost function WithdrawnFrom(logs: seq<Log>, a: string): nat {
    if logs == [] then 0
    else
      var n := |logs| - 1;
      WithdrawnFrom(logs[..n], a)
      + (if NamesAccount(logs[n], a) && logs[n].body.event.Withdrawn? then logs[n].body.event.amount else 0)
  }

  ghost predicate AccountTold(d: Derived, logs: seq<Log>, a: string) {
    && (a in d.accounts <==> FirstSight(logs, a).Some?)
    && (if a in d.accounts
        then d.accounts[a] == AccountRow(FirstSight(logs, a).value.block, DepositedTo(logs, a), WithdrawnFrom(logs, a))
        else DepositedTo(logs, a) == WithdrawnFrom(logs, a) == 0)
  }

  /** An account's row dates from the first log naming it, and its totals are the sums of what moved since. */
  lemma {:induction false} AccountTotalsAreSums(logs: seq<Log>, a: string)
    requires UniqueKeys(logs)
    ensures AccountTold(Fold(logs), logs, a)
  {
    hide FoldFrom, UniqueKeys, ApplyDerived, Rows.Grounded;
    if logs == [] {
      InEmpty();
    } else {
      var n := |logs| - 1;
      NextIsNew(logs);
      TablesStep(Fold(logs[..n]), logs[n]);
      AccountTotalsAreSums(logs[..n], a);
    }
  }

  // ---------------------------------------------------------------- rows under a log's own key

  /** The log's key has exactly the rows its event calls for, each a copy of the event's fields. */
  ghost predicate KeyTold(d: Derived, log: Log) {
    var k, ours := LogKey(log.tx, log.index), IsOurs(log);
    && (k in d.trades <==> ours && log.body.event.OrderFilled? && log.body.event.size != 0)
    && (k in d.positionEvents <==> ours && log.body.event.PositionChanged?)
    && (k in d.funding <==> ours && log.body.event.FundingUpdated?)
    && (k in d.liquidations <==> ours && log.body.event.Liquidated?)
    && (k in d.trades ==>
          var row, ev := d.trades[k], log.body.event;
          && row.block == log.block && row.market == ev.market && row.taker == ev.taker && row.maker == ev.maker
          && row.takerOrder == ev.takerOrder && row.makerOrder == ev.makerOrder && row.takerSide == ev.takerSide
          && row.size == ev.size && row.price == ev.price && row.takerFee == ev.takerFee && row.makerFee == ev.makerFee)
    && (k in d.positionEvents ==>
          var row, ev := d.positionEvents[k], log.body.event;
          && row.block == log.block && row.account == ev.account && row.market == ev.market
          && row.sizeBefore == ev.sizeBefore && row.sizeAfter == ev.sizeAfter && row.entryPrice == ev.entryPrice
          && row.realizedDelta == ev.realizedDelta && row.fundingPaid == ev.fundingPaid)
    && (k in d.funding ==>
          var row, ev := d.funding[k], log.body.event;
          && row.block == log.block && row.market == ev.market && row.rateBps == ev.rateBps
          && row.cumulativeIndex == ev.cumulativeIndex && row.fundingTime == ev.fundingTime
          && row.samples == ev.samples)
    && (k in d.liquidations ==>
          var row, ev := d.liquidations[k], log.body.event;
          && row.block == log.block && row.account == ev.account && row.market == ev.market
          && row.liquidator == ev.liquidator && row.sizeClosed == ev.sizeClosed && row.price == ev.price
          && row.liquidatorFee == ev.liquidatorFee && row.badDebt == ev.badDebt
          && row.insuranceUsed == ev.insuranceUsed)
  }

  lemma KeyOfNext(d: Derived, log: Log)
    requires Rows.Grounded(d) && log.Key() !in d.applied && (Mirrored(log) <==> Fresh(d, log))
    ensures KeyTold(ApplyDerived(d, log), log)
  {
    hide ApplyDerived;
    TablesStep(d, log);
  }

  lemma OtherKeysStay(d: Derived, log: Log, k: LogKey)
    requires k != log.Key() && (Mirrored(log) <==> Fresh(d, log))
    ensures var after := ApplyDerived(d, log);
            && (k in after.trades <==> k in d.trades) && (k in d.trades ==> after.trades[k] == d.trades[k])
            && (k in after.funding <==> k in d.funding) && (k in d.funding ==> after.funding[k] == d.funding[k])
            && (k in after.positionEvents <==> k in d.positionEvents)
            && (k in d.positionEvents ==> after.positionEvents[k] == d.positionEvents[k])
            && (k in after.liquidations <==> k in d.liquidations)
            && (k in d.liquidations ==> after.liquidations[k] == d.liquidations[k])
  {
    hide ApplyDerived;
    TablesStep(d, log);
  }

  /** Trades, position events, funding and liquidations: one row per log that calls for it, with the log's fields. */
  lemma {:induction false} KeyedRowsCopyTheirLogs(logs: seq<Log>, log: Log)
    requires UniqueKeys(logs) && log in logs
    ensures KeyTold(Fold(logs), log)
  {
    hide FoldFrom, ApplyDerived, KeyTold, Rows.Grounded;
    var n := |logs| - 1;
    NextIsNew(logs);
    var i :| 0 <= i < |logs| && logs[i] == log;
    if i < n {
      assert logs[..n][i] == log && logs[i].Key() != logs[n].Key();
      KeyedRowsCopyTheirLogs(logs[..n], log);
      OtherKeysStay(Fold(logs[..n]), logs[n], log.Key());
      KeyToldElsewhere(Fold(logs[..n]), Fold(logs), log);
    } else {
      KeyOfNext(Fold(logs[..n]), log);
    }
  }

  lemma KeyToldElsewhere(d: Derived, after: Derived, log: Log)
    requires KeyTold(d, log)
    requires var k := log.Key();
             && (k in after.trades <==> k in d.trades) && (k in d.trades ==> after.trades[k] == d.trades[k])
             && (k in after.funding <==> k in d.funding) && (k in d.funding ==> after.funding[k] == d.funding[k])
             && (k in after.positionEvents <==> k in d.positionEvents)
             && (k in d.positionEvents ==> after.positionEvents[k] == d.positionEvents[k])
             && (k in after.liquidations <==> k in d.liquidations)
             && (k in d.liquidations ==> after.liquidations[k] == d.liquidations[k])
    ensures KeyTold(after, log)
  {
  }

  /** And no row stands under a key that no log of the history carries. */
  lemma RowsComeFromLogs(logs: seq<Log>, k: LogKey)
    requires forall log :: log in logs ==> log.Key() != k
    ensures k !in Fold(logs).trades && k !in Fold(logs).positionEvents && k !in Fold(logs).funding
    ensures k !in Fold(logs).liquidations && k !in Fold(logs).applied
  {
    hide FoldFrom;
    Rows.NothingIsGrounded(logs);
    if k in Fold(logs).applied {
      AppliedKeysComeFromLogs(EMPTY, logs, k);
    }
  }

  /** INSERT OR IGNORE: in any store at all, no log rewrites a row that stands under a log's key. */
  lemma KeyedRowsAreNeverRewritten(d: Derived, log: Log, k: LogKey)
    ensures var after := ApplyDerived(d, log);
            && (k in d.applied ==> k in after.applied && after.applied[k] == d.applied[k])
            && (k in d.trades ==> k in after.trades && after.trades[k] == d.trades[k])
            && (k in d.positionEvents ==> k in after.positionEvents && after.positionEvents[k] == d.positionEvents[k])
            && (k in d.funding ==> k in after.funding && after.funding[k] == d.funding[k])
            && (k in d.liquidations ==> k in after.liquidations && after.liquidations[k] == d.liquidations[k])
  {
    hide ApplyDerived, OrdersAfter, PositionsAfter, AccountsAfter;
    TablesStep(d, log);
  }

  // ---------------------------------------------------------------- positions

  predicate ChangesPosition(log: Log, pk: PositionKey) {
    Mirrored(log) && log.body.event.PositionChanged? && log.body.event.account == pk.account
    && log.body.event.market == pk.market
  }

  ghost function LastChange(logs: seq<Log>, pk: PositionKey): (r: Option<Log>)
    ensures r.Some? ==> ChangesPosition(r.value, pk)
  {
    if logs == [] then None
    else
      var n := |logs| - 1;
      if ChangesPosition(logs[n], pk) then Some(logs[n]) else LastChange(logs[..n], pk)
  }

  ghost function Realized(logs: seq<Log>, pk: PositionKey): int {
    if logs == [] then 0
    else
      var n := |logs| - 1;
      Realized(logs[..n], pk) + (if ChangesPosition(logs[n], pk) then logs[n].body.event.realizedDelta else 0)
  }

  ghost function FundingPaid(logs: seq<Log>, pk: PositionKey): int {
    if logs == [] then 0
    else
      var n := |logs| - 1;
      FundingPaid(logs[..n], pk) + (if ChangesPosition(logs[n], pk) then logs[n].body.event.fundingPaid else 0)
  }

  ghost predicate PositionTold(d: Derived, logs: seq<Log>, pk: PositionKey) {
    && (pk in d.positions <==> LastChange(logs, pk).Some?)
    && (pk !in d.positions ==> Realized(logs, pk) == FundingPaid(logs, pk) == 0)
    && (pk in d.positions ==>
          var row, log := d.positions[pk], LastChange(logs, pk).value;
          && row.size == log.body.event.sizeAfter && row.entryPrice == log.body.event.entryPrice
          && row.updatedBlock == log.block && row.updatedTx == log.tx
          && row.realizedPnl == Realized(logs, pk) && row.fundingPaid == FundingPaid(logs, pk))
  }

  /** A position's row is its last change, with realized PnL and funding summed over all of them. */
  lemma {:induction false} PositionRowsFollowTheLogs(logs: seq<Log>, pk: PositionKey)
    requires UniqueKeys(logs)
    ensures PositionTold(Fold(logs), logs, pk)
  {
    hide FoldFrom, UniqueKeys, ApplyDerived, Rows.Grounded;
    if logs == [] {
      InEmpty();
    } else {
      var n := |logs| - 1;
      NextIsNew(logs);
      TablesStep(Fold(logs[..n]), logs[n]);
      PositionRowsFollowTheLogs(logs[..n], pk);
    }
  }

  // ---------------------------------------------------------------- markets and index prices

  predicate SetsPrice(log: Log, m: nat) { Mirrored(log) && log.body.event.PriceSet? && log.body.event.market == m }

  predicate SetsStatus(log: Log, m: nat) {
    Mirrored(log) && log.body.event.MarketStatusChanged? && log.body.event.market == m
  }

  ghost function LastPriceLog(logs: seq<Log>, m: nat): (r: Option<Log>)
    ensures r.Some? ==> SetsPrice(r.value, m)
  {
    if logs == [] then None
    else if SetsPrice(logs[|logs| - 1], m) then Some(logs[|logs| - 1]) else LastPriceLog(logs[..|logs| - 1], m)
  }

  ghost function LastStatusLog(logs: seq<Log>, m: nat): (r: Option<Log>)
    ensures r.Some? ==> SetsStatus(r.value, m)
  {
    if logs == [] then None
    else if SetsStatus(logs[|logs| - 1], m) then Some(logs[|logs| - 1]) else LastStatusLog(logs[..|logs| - 1], m)
  }

  /** What seeding left, with the last price of the added logs, and their last status on a market that is there. */
  ghost predicate SeededTold(s: Seeded, after: Seeded, logs: seq<Log>, m: nat) {
    && (m in after.index <==> m in s.index || LastPriceLog(logs, m).Some?)
    && (m in after.index ==>
          if LastPriceLog(logs, m).Some? then
            var log := LastPriceLog(logs, m).value;
            after.index[m] == IndexRow(log.body.event.price, log.body.event.publishTime, log.block)
          else after.index[m] == s.index[m])
    && (m in after.markets <==> m in s.markets)
    && (m in s.markets ==>
          if LastStatusLog(logs, m).Some? then
            var log := LastStatusLog(logs, m).value;
            after.markets[m] == s.markets[m].(status := log.body.event.status, updatedBlock := log.block)
          else after.markets[m] == s.markets[m])
  }

  lemma SeededToldStep(s: Seeded, mid: Seeded, d: Derived, logs: seq<Log>, m: nat)
    requires logs != [] && SeededTold(s, mid, logs[..|logs| - 1], m)
    requires Mirrored(logs[|logs| - 1]) <==> Fresh(d, logs[|logs| - 1])
    ensures SeededTold(s, ApplySeeded(d, mid, logs[|logs| - 1]), logs, m)
  {
  }

  lemma {:induction false} SeededRowsFollowTheLogs(done: seq<Log>, s: Seeded, added: seq<Log>, m: nat)
    requires UniqueKeys(done + added)
    ensures SeededTold(s, SeededFrom(Fold(done), s, added), added, m)
  {
    hide FoldFrom, ApplyDerived, ApplySeeded, SeededTold, Rows.Grounded, UniqueKeys;
    if added == [] {
      NothingAdded(s, m);
    } else {
      var n, all := |added| - 1, done + added;
      assert all[..|all| - 1] == done + added[..n] && all[|all| - 1] == added[n];
      NextIsNew(all);
      FoldConcat(EMPTY, done, added[..n]);
      SeededRowsFollowTheLogs(done, s, added[..n], m);
      SeededToldStep(s, SeededFrom(Fold(done), s, added[..n]), Fold(done + added[..n]), added, m);
    }
  }

  lemma NothingAdded(s: Seeded, m: nat)
    ensures SeededTold(s, s, [], m)
  {
  }

  // ---------------------------------------------------------------- seeding

  /** The first n of seedMarkets' statements: which rows are then the getters', and which are as before. */
  lemma {:induction false} SeedingCopiesTheGetters(s: Seeded, getters: seq<MarketGetter>, block: nat, n: nat, m: nat)
    requires n <= 2 * |getters|
    ensures var after := SeedFirst(s, getters, block, n);
            && (if 2 * m + 1 <= n then
                  m in after.markets &&
                  var row, g := after.markets[m], getters[m];
                  && row.symbol == g.symbol && row.status == g.status && row.tickSize == g.tickSize
                  && row.stepSize == g.stepSize && row.minNotional == g.minNotional
                  && row.maxLeverage == g.maxLeverage && row.makerFeeBps == g.makerFeeBps
                  && row.takerFeeBps == g.takerFeeBps && row.maxBasisBps == g.maxBasisBps && row.updatedBlock == block
                else (m in after.markets <==> m in s.markets) && (m in s.markets ==> after.markets[m] == s.markets[m]))
            && (if 2 * m + 2 <= n then
                  m in after.index && after.index[m] == IndexRow(getters[m].price, getters[m].publishTime, block)
                else (m in after.index <==> m in s.index) && (m in s.index ==> after.index[m] == s.index[m]))
  {
    if n > 0 {
      SeedingCopiesTheGetters(s, getters, block, n - 1, m);
    }
  }

  // ---------------------------------------------------------------- in every reachable store

  /** All of this holds of every store a run of the indexer leads to, with the logs it has applied. */
  lemma ReachableColumns(w: World, o: nat, a: string, pk: PositionKey, log: Log)
    requires Invariant(w) && UniqueKeys(Logs(w.synced, 0, w.high + 1)) && log in Logs(w.synced, 0, w.high + 1)
    ensures var logs := Logs(w.synced, 0, w.high + 1);
            && OrderTold(w.db.d, logs, o) && AccountTold(w.db.d, logs, a) && PositionTold(w.db.d, logs, pk)
            && KeyTold(w.db.d, log)
  {
    hide Logs, Fold, UniqueKeys, IsOrderRow, AccountTold, PositionTold, KeyTold, HashAt, Detected, WellFormed;
    var logs := Logs(w.synced, 0, w.high + 1);
    OrderRowsFollowTheLogs(logs, o);
    AccountTotalsAreSums(logs, a);
    PositionRowsFollowTheLogs(logs, pk);
    KeyedRowsCopyTheirLogs(logs, log);
  }
}
