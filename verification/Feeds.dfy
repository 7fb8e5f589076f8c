/** The trades and liquidations routes over a store that keeps growing. */
module Feeds {
  import opened Options
  import opened Store
  import opened Chain
  import opened Indexing
  import opened Runs
  import opened Conservation
  import opened Paging
  import opened Hazards
  import Columns

  datatype Feed = TradeFeed | LiquidationFeed
  datatype Cell = Cell(block: nat, market: nat)

  /** What the paging query reads of a table's rows. */
  ghost function Cells(f: Feed, d: Derived): map<LogKey, Cell> {
    match f
    case TradeFeed => map k | k in d.trades :: Cell(d.trades[k].block, d.trades[k].market)
    case LiquidationFeed => map k | k in d.liquidations :: Cell(d.liquidations[k].block, d.liquidations[k].market)
  }

  ghost function RowAt(k: LogKey, c: Cell): Row { Row(k.tx, Position(c.block, k.index), c.market) }

  ghost function RowsOf(cells: map<LogKey, Cell>): set<Row> { set k | k in cells :: RowAt(k, cells[k]) }

  ghost function Table(f: Feed, d: Derived): set<Row> { RowsOf(Cells(f, d)) }

  /** The log is one the route lists: a fill of some size, or a liquidation. */
  predicate IsListed(f: Feed, log: Log) {
    Columns.IsOurs(log) &&
    match f
    case TradeFeed => log.body.event.OrderFilled? && log.body.event.size != 0
    case LiquidationFeed => log.body.event.Liquidated?
  }

  /** Each route lists its own logs, at their block, index and market, and nothing else. */
  lemma RoutesListTheirLogs(f: Feed, logs: seq<Log>, r: Row)
    requires UniqueKeys(logs)
    ensures r in Table(f, Fold(logs))
            <==> exists log :: log in logs && IsListed(f, log)
                               && r == Row(log.tx, Position(log.block, log.index), log.body.event.market)
  {
    hide FoldFrom, Fold, UniqueKeys;
    forall log | log in logs && IsListed(f, log)
      ensures Row(log.tx, Position(log.block, log.index), log.body.event.market) in Table(f, Fold(logs))
    {
      Columns.KeyedRowsCopyTheirLogs(logs, log);
      assert log.Key() in Cells(f, Fold(logs));
    }
    if r in Table(f, Fold(logs)) {
      var k :| k in Cells(f, Fold(logs)) && r == RowAt(k, Cells(f, Fold(logs))[k]);
      if forall log :: log in logs ==> log.Key() != k {
        Columns.RowsComeFromLogs(logs, k);
      }
      var log :| log in logs && log.Key() == k;
      Columns.KeyedRowsCopyTheirLogs(logs, log);
    }
  }

  lemma RowsOfInsert(cells: map<LogKey, Cell>, k: LogKey, c: Cell)
    requires k !in cells
    ensures RowsOf(cells[k := c]) == RowsOf(cells) + {RowAt(k, c)}
  {
    var after := cells[k := c];
    forall r | r in RowsOf(cells) + {RowAt(k, c)} ensures r in RowsOf(after) {
      if r == RowAt(k, c) {
        assert after[k] == c;
      } else {
        var j :| j in cells && r == RowAt(j, cells[j]);
        assert after[j] == cells[j];
      }
    }
  }

  /** A log adds at most one row, under its own key and block. */
  lemma CellsStep(f: Feed, d: Derived, log: Log)
    ensures var before, after := Cells(f, d), Cells(f, ApplyDerived(d, log));
            after == before || exists m :: after == before[log.Key() := Cell(log.block, m)]
  {
    hide OrdersAfter, PositionsAfter, AccountsAfter, FundingAfter, PositionEventsAfter;
    var before, after := Cells(f, d), Cells(f, ApplyDerived(d, log));
    if Fresh(d, log) && (log.body.event.OrderFilled? || log.body.event.Liquidated?) {
      var m := log.body.event.market;
      assert after == before || after == before[log.Key() := Cell(log.block, m)];
    }
  }

  lemma {:induction false} RowsAreNotAfterLast(f: Feed, logs: seq<Log>)
    requires logs != [] && StrictlyOrdered(logs)
    ensures forall r :: r in Table(f, Fold(logs)) ==> NotAfter(r.at.block, r.at.log, logs[|logs| - 1])
  {
    hide ApplyDerived, Cells;
    var n := |logs| - 1;
    CellsStep(f, Fold(logs[..n]), logs[n]);
    if n > 0 {
      assert Before(logs[n - 1], logs[n]);
      RowsAreNotAfterLast(f, logs[..n]);
    } else {
      EmptyTable(f);
    }
    var before := Cells(f, Fold(logs[..n]));
    forall k | k in before ensures NotAfter(before[k].block, k.index, logs[n]) {
      assert RowAt(k, before[k]) in Table(f, Fold(logs[..n]));
    }
  }

  lemma EmptyTable(f: Feed)
    ensures Cells(f, Fold([])) == map[] && Table(f, Fold([])) == {}
  {
  }

  /** The next log leaves the table alone or adds one row newer than every other. */
  lemma TableStep(f: Feed, logs: seq<Log>)
    requires logs != [] && StrictlyOrdered(logs)
    ensures var n := |logs| - 1;
            var before, after := Table(f, Fold(logs[..n])), Table(f, Fold(logs));
            after == before || exists r :: after == before + {r} && forall x :: x in before ==> Newer(r.at, x.at)
  {
    hide ApplyDerived, Cells, RowsOf;
    var n := |logs| - 1;
    var d, log := Fold(logs[..n]), logs[n];
    CellsStep(f, d, log);
    var before, after := Cells(f, d), Cells(f, Fold(logs));
    if after != before {
      var m :| after == before[log.Key() := Cell(log.block, m)];
      var r := RowAt(log.Key(), Cell(log.block, m));
      OlderThanNext(f, logs);
      KeysAreOlder(f, logs);
      RowsOfInsert(before, log.Key(), Cell(log.block, m));
      assert Table(f, Fold(logs)) == Table(f, d) + {r};
    }
  }

  lemma OlderThanNext(f: Feed, logs: seq<Log>)
    requires logs != [] && StrictlyOrdered(logs)
    ensures var last := logs[|logs| - 1];
            forall x :: x in Table(f, Fold(logs[..|logs| - 1])) ==> Newer(Position(last.block, last.index), x.at)
  {
    hide ApplyDerived, Cells, Table;
    var n := |logs| - 1;
    if n > 0 {
      assert Before(logs[n - 1], logs[n]);
      RowsAreNotAfterLast(f, logs[..n]);
    } else {
      EmptyTable(f);
    }
  }

  /** A key that already has a row is skipped, so a table that changed gained a new key. */
  lemma KeysAreOlder(f: Feed, logs: seq<Log>)
    requires logs != [] && StrictlyOrdered(logs)
    ensures var n := |logs| - 1;
            Cells(f, Fold(logs)) != Cells(f, Fold(logs[..n])) ==> logs[n].Key() !in Cells(f, Fold(logs[..n]))
  {
    hide OrdersAfter, PositionsAfter, AccountsAfter, FundingAfter, PositionEventsAfter, FoldFrom;
    var n := |logs| - 1;
    var d, log := Fold(logs[..n]), logs[n];
    FoldLast(logs);
    if Fresh(d, log) && log.Key() in Cells(f, d) {
      assert Cells(f, ApplyDerived(d, log)) == Cells(f, d);
    }
  }

  lemma FoldLast(logs: seq<Log>)
    requires logs != []
    ensures Fold(logs) == ApplyDerived(Fold(logs[..|logs| - 1]), logs[|logs| - 1])
  {
    hide ApplyDerived;
  }

  /** On logs in chain order, (block, log) identifies a row of either table. */
  lemma {:induction false} PlacesAreUnique(f: Feed, logs: seq<Log>)
    requires StrictlyOrdered(logs)
    ensures UniquePlaces(Table(f, Fold(logs)))
  {
    hide FoldFrom, Table;
    if logs == [] {
      EmptyTable(f);
    } else {
      PlacesAreUnique(f, logs[..|logs| - 1]);
      TableStep(f, logs);
    }
  }

  /** More logs in chain order only add rows newer than everything there. */
  lemma {:induction false} TableGrowsByNewer(f: Feed, a: seq<Log>, b: seq<Log>)
    requires StrictlyOrdered(a + b)
    ensures GrowsByNewer(Table(f, Fold(a)), Table(f, Fold(a + b)))
  {
    hide FoldFrom, Table;
    if b == [] {
      assert a + b == a;
    } else {
      var n := |b| - 1;
      assert (a + b)[..|a + b| - 1] == a + b[..n];
      TableGrowsByNewer(f, a, b[..n]);
      TableStep(f, a + b);
    }
  }

  /** The visits of a client: at each, the indexer has applied some prefix of one chain, never a shorter one. */
  ghost function VisitsOf(f: Feed, c: Blocks, heights: seq<nat>, limits: seq<nat>): seq<Visit>
    requires |heights| == |limits| && forall i :: 0 <= i < |heights| ==> heights[i] <= |c|
  {
    seq(|heights|, i requires 0 <= i < |heights| => Visit(Table(f, Fold(Logs(c, 0, heights[i]))), limits[i]))
  }

  /**
   * Paging through the live store while it follows a chain: all matching rows
   * of the first visit come back once each, newest first.
   */
  lemma StoreWalkIsExact(f: Feed, c: Blocks, heights: seq<nat>, limits: seq<nat>, market: Option<nat>)
    requires WellFormed(c) && |heights| == |limits| && heights != []
    requires forall i :: 0 <= i < |heights| ==> heights[i] <= |c| && limits[i] >= 1
    requires forall i :: 0 <= i < |heights| - 1 ==> heights[i] <= heights[i + 1]
    requires TotalLimit(VisitsOf(f, c, heights, limits))
             > |Matching(Table(f, Fold(Logs(c, 0, heights[0]))), market, None)|
    ensures var vs := VisitsOf(f, c, heights, limits);
            && Visits(vs) && var rows := Walk(vs, market, None);
            && Descending(rows) && |rows| == |Matching(vs[0].table, market, None)|
            && forall r :: r in rows <==> r in vs[0].table && (market.None? || r.market == market.value)
  {
    hide FoldFrom, Table, Logs, Walk, Matching, TotalLimit, UniquePlaces, GrowsByNewer;
    var vs := VisitsOf(f, c, heights, limits);
    forall i | 0 <= i < |vs| ensures UniquePlaces(vs[i].table) {
      LogsOrdered(c, 0, heights[i]);
      PlacesAreUnique(f, Logs(c, 0, heights[i]));
    }
    forall i | 0 <= i < |vs| - 1 ensures GrowsByNewer(vs[i].table, vs[i + 1].table) {
      LogsSplit(c, 0, heights[i], heights[i + 1]);
      LogsOrdered(c, 0, heights[i + 1]);
      TableGrowsByNewer(f, Logs(c, 0, heights[i]), Logs(c, heights[i], heights[i + 1]));
    }
    CursorWalkIsExact(vs, market);
  }

  // ---------------------------------------------------------------- between the pages, anything but a rebuild

  lemma AgreeTrans(a: Blocks, b: Blocks, c: Blocks, high: int, low: int)
    requires Agree(a, b, high) && Agree(b, c, low) && low <= high
    ensures Agree(a, c, low)
  {
    if low >= 0 {
      assert a[..low + 1] == a[..high + 1][..low + 1] && b[..low + 1] == b[..high + 1][..low + 1];
    }
  }

  /** A step that does not rebuild keeps the blocks already applied and may apply more. */
  lemma StepExtends(w: World, s: Step)
    requires Invariant(w) && Allowed(w, s)
    ensures Next(w, s).db.st.rebuilds >= w.db.st.rebuilds
    ensures Next(w, s).db.st.rebuilds == w.db.st.rebuilds ==>
              w.high <= Next(w, s).high && Agree(Next(w, s).synced, w.synced, w.high)
  {
    hide FoldFrom, SeededFrom, AnyThrows, Sort, RangeLogs, Logs, HashAt, SeedFirst, SeedAll, Answers, Chain.WellFormed;
    if s.SyncOnce? {
      CheckedRows(w, Steady(w.chain, s.answer, s.fault));
    }
  }

  lemma {:induction false} RunExtends(w: World, steps: seq<Step>, end: World)
    requires Invariant(w) && Leads(w, steps, end)
    ensures end.db.st.rebuilds >= w.db.st.rebuilds
    ensures end.db.st.rebuilds == w.db.st.rebuilds ==> w.high <= end.high && Agree(end.synced, w.synced, w.high)
    decreases |steps|
  {
    hide Invariant, Next, Agree;
    if steps != [] {
      StepKeepsInvariant(w, steps[0]);
      StepExtends(w, steps[0]);
      RunExtends(Next(w, steps[0]), steps[1..], end);
      if end.db.st.rebuilds == w.db.st.rebuilds {
        AgreeTrans(end.synced, Next(w, steps[0]).synced, w.synced, Next(w, steps[0]).high, w.high);
      }
    } else {
      AgreesWithItself(w);
    }
  }

  lemma AgreesWithItself(w: World)
    requires Invariant(w)
    ensures Agree(w.synced, w.synced, w.high)
  {
    hide Logs, FoldFrom;
  }

  /** The worlds in which a client asks for its pages, each reached from the one before without a rebuild. */
  ghost predicate Asks(worlds: seq<World>, runs: seq<seq<Step>>) {
    && |worlds| == |runs| + 1 && Invariant(worlds[0])
    && (forall i :: 0 <= i < |runs| ==>
          Leads(worlds[i], runs[i], worlds[i + 1]) && worlds[i + 1].db.st.rebuilds == worlds[i].db.st.rebuilds)
  }

  lemma {:induction false} AskedWorldsAreInvariant(worlds: seq<World>, runs: seq<seq<Step>>, i: nat)
    requires Asks(worlds, runs) && i < |worlds|
    ensures Invariant(worlds[i])
  {
    if i > 0 {
      AskedWorldsAreInvariant(worlds, runs, i - 1);
      RowsAreTheFoldOnEveryRun(worlds[i - 1], runs[i - 1], worlds[i]);
    }
  }

  lemma LiveTableIsUnique(f: Feed, w: World)
    requires Invariant(w)
    ensures UniquePlaces(Table(f, w.db.d))
  {
    hide FoldFrom, Table, Logs, UniquePlaces;
    LogsOrdered(w.synced, 0, w.high + 1);
    PlacesAreUnique(f, Logs(w.synced, 0, w.high + 1));
  }

  lemma LiveTableGrows(f: Feed, w: World, steps: seq<Step>, end: World)
    requires Invariant(w) && Leads(w, steps, end) && end.db.st.rebuilds == w.db.st.rebuilds
    ensures GrowsByNewer(Table(f, w.db.d), Table(f, end.db.d))
  {
    hide FoldFrom, Table, Logs, GrowsByNewer, Leads, Fold;
    RunExtends(w, steps, end);
    RowsAreTheFoldOnEveryRun(w, steps, end);
    LogsOfEqualPrefixes(end.synced, w.synced, 0, w.high + 1);
    LogsSplit(end.synced, 0, w.high + 1, end.high + 1);
    LogsOrdered(end.synced, 0, end.high + 1);
    TableGrowsByNewer(f, Logs(end.synced, 0, w.high + 1), Logs(end.synced, w.high + 1, end.high + 1));
  }

  ghost function LiveVisits(f: Feed, worlds: seq<World>, limits: seq<nat>): seq<Visit>
    requires |worlds| == |limits|
  {
    seq(|worlds|, i requires 0 <= i < |worlds| => Visit(Table(f, worlds[i].db.d), limits[i]))
  }

  /**
   * Paging through the live service: between two pages any syncs, failures,
   * pauses, restarts, rewinds, replays and chain moves may happen, short of a
   * rebuild, and still every matching row of the first page's table comes back
   * exactly once, newest first.
   */
  lemma LiveWalkIsExact(f: Feed, worlds: seq<World>, runs: seq<seq<Step>>, limits: seq<nat>, market: Option<nat>)
    requires Asks(worlds, runs) && |limits| == |worlds| && forall i :: 0 <= i < |limits| ==> limits[i] >= 1
    requires TotalLimit(LiveVisits(f, worlds, limits)) > |Matching(Table(f, worlds[0].db.d), market, None)|
    ensures var vs := LiveVisits(f, worlds, limits);
            && Visits(vs) && var rows := Walk(vs, market, None);
            && Descending(rows) && |rows| == |Matching(vs[0].table, market, None)|
            && forall r :: r in rows <==> r in vs[0].table && (market.None? || r.market == market.value)
  {
    hide FoldFrom, Table, Logs, Walk, Matching, TotalLimit, UniquePlaces, GrowsByNewer, Invariant, Leads;
    var vs := LiveVisits(f, worlds, limits);
    forall i: nat | i < |vs| ensures UniquePlaces(vs[i].table) {
      AskedWorldsAreInvariant(worlds, runs, i);
      LiveTableIsUnique(f, worlds[i]);
    }
    forall i: nat | i < |vs| - 1 ensures GrowsByNewer(vs[i].table, vs[i + 1].table) {
      AskedWorldsAreInvariant(worlds, runs, i);
      LiveTableGrows(f, worlds[i], runs[i], worlds[i + 1]);
    }
    CursorWalkIsExact(vs, market);
  }
}
