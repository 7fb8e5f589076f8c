/** Waiting for the store to reach the chain head, and what its index prices and marks are worth then. */
module CaughtUp {
  import opened Options
  import opened Store
  import opened Chain
  import opened Indexing
  import opened Runs
  import opened Convergence
  import opened Hazards
  import opened Conservation

  // ---------------------------------------------------------------- waitCaughtUp

  /** One look at node and store: the head, the state row if any, the head block's hash if any, and the time. */
  datatype Poll = Poll(head: nat, state: Option<StateRow>, block: Option<Digest>, elapsed: nat)

  predicate Level(p: Poll) {
    p.state.Some? && p.state.value.lastBlock == p.head && p.block.Some? && p.state.value.lastHash == p.block
  }

  /** Polls until store and node agree on the head block, or the time is up. */
  method WaitCaughtUp(polls: seq<Poll>, timeout: nat) returns (caughtUp: bool, at: nat)
    requires exists i :: 0 <= i < |polls| && polls[i].elapsed > timeout
    ensures at < |polls| && caughtUp == Level(polls[at])
    ensures forall i :: 0 <= i < at ==> !Level(polls[i]) && polls[i].elapsed <= timeout
    ensures !caughtUp ==> polls[at].elapsed > timeout
  {
    at := 0;
    while true
      invariant at < |polls|
      invariant forall i :: 0 <= i < at ==> !Level(polls[i]) && polls[i].elapsed <= timeout
      decreases |polls| - at
    {
      var p := polls[at];
      if p.state.Some? && p.state.value.lastBlock == p.head {
        if p.block.Some? && p.state.value.lastHash == p.block {
          return true, at;
        }
      }
      if p.elapsed > timeout {
        return false, at;
      }
      at := at + 1;
    }
  }

  /** What a poll sees of a world, when the chain does not move between its reads. */
  function PollOf(w: World, elapsed: nat): Poll
    requires w.chain != []
  {
    Poll(|w.chain| - 1, Some(w.db.st), Some(HashAt(w.chain, |w.chain| - 1)), elapsed)
  }

  /** A store reported level with the chain holds exactly the rows of the whole chain. */
  lemma LevelMeansCanonical(w: World, elapsed: nat)
    requires Invariant(w) && Level(PollOf(w, elapsed))
    ensures w.high == |w.chain| - 1 && !Detected(w.db.st, w.chain)
    ensures w.db.d == Fold(Logs(w.chain, 0, |w.chain|))
  {
    hide Fold, Logs;
    RowsAtHead(w);
  }

  /** A rewind to the head itself leaves no hash, and clean syncs never bring it back while the chain stands still. */
  lemma RewoundToHeadNeverLevels(w: World, maxRange: nat, answer: seq<Log>, elapsed: nat)
    requires Invariant(w) && w.db.st.lastBlock == |w.chain| - 1 && w.db.st.lastHash.None?
    requires Allowed(w, SyncOnce(maxRange, answer, NoFault))
    ensures AfterSync(w, maxRange, Steady(w.chain, answer, NoFault)) == w && !Level(PollOf(w, elapsed))
  {
    hide Fold, Logs, FoldFrom, HashAt, RangeLogs;
    IdleAtHead(w, maxRange, Steady(w.chain, answer, NoFault));
  }

  // ---------------------------------------------------------------- index prices

  predicate Prices(log: Log, m: nat) { Mirrored(log) && log.body.event.PriceSet? && log.body.event.market == m }

  /** The price of the last PriceSet for the market, if there is one. */
  ghost function LastPrice(logs: seq<Log>, m: nat): Option<nat> {
    if logs == [] then None
    else if Prices(logs[|logs| - 1], m) then Some(logs[|logs| - 1].body.event.price)
    else LastPrice(logs[..|logs| - 1], m)
  }

  ghost function PriceAt(c: Blocks, level: int, m: nat): Option<nat>
    requires -1 <= level < |c|
  {
    LastPrice(Logs(c, 0, level + 1), m)
  }

  lemma {:induction false} LastPriceConcat(a: seq<Log>, b: seq<Log>, m: nat)
    ensures LastPrice(a + b, m) == if LastPrice(b, m).Some? then LastPrice(b, m) else LastPrice(a, m)
  {
    if b == [] {
      assert a + b == a;
    } else {
      assert (a + b)[..|a + b| - 1] == a + b[..|b| - 1];
      LastPriceConcat(a, b[..|b| - 1], m);
    }
  }

  /** The getters of every block quote what the chain's PriceSet logs say; block logs have their own keys. */
  ghost predicate Coherent(c: Blocks, m: nat) {
    && UniqueKeys(Logs(c, 0, |c|))
    && forall b :: 0 <= b < |c| && PriceAt(c, b, m).Some? ==>
         m < |c[b].getters| && c[b].getters[m].price == PriceAt(c, b, m).value
  }

  ghost predicate Quotes(s: Seeded, m: nat, price: Option<nat>) {
    price.Some? ==> m in s.index && s.index[m].price == price.value
  }

  /** No block above this one has left a mark on the store. */
  ghost function Top(w: World): int { Higher(w.high, w.seeded) }

  ghost predicate QuotesLevel(w: World, level: int, m: nat) {
    -1 <= w.high <= level <= Top(w) < |w.chain| && Quotes(w.db.s, m, PriceAt(w.chain, level, m))
  }

  /**
   * Unless a rebuild is due, the index row is the chain's price as of some
   * block between the newest applied one and the head of the last seeding.
   */
  ghost predicate IndexInvariant(w: World, m: nat) {
    Coherent(w.chain, m) && (Detected(w.db.st, w.chain) || exists level :: QuotesLevel(w, level, m))
  }

  /** A reorg that the hash check does not notice must leave the seeded heads alone too. */
  ghost predicate PriceSafe(w: World, s: Step, m: nat) {
    s.ChainMoves? ==>
      Coherent(s.next, m)
      && (Detected(w.db.st, s.next) || (!Detected(w.db.st, w.chain) && Agree(s.next, w.chain, Top(w))))
  }

  /** After the logs `added` the row shows their last price, or what it showed before. */
  lemma {:induction false} IndexAfter(done: seq<Log>, added: seq<Log>, s: Seeded, m: nat)
    requires UniqueKeys(done + added)
    ensures var after := SeededFrom(Fold(done), s, added);
            if LastPrice(added, m).Some? then m in after.index && after.index[m].price == LastPrice(added, m).value
            else (m in after.index <==> m in s.index) && (m in s.index ==> after.index[m] == s.index[m])
  {
    hide FoldFrom, ApplyDerived, Fresh, FromExpectedSource;
    if added != [] {
      var n := |added| - 1;
      var all := done + added;
      assert all[..|all| - 1] == done + added[..n] && all[|all| - 1] == added[n];
      IndexAfter(done, added[..n], s, m);
      FoldConcat(EMPTY, done, added[..n]);
      if Mirrored(added[n]) {
        UniqueKeysAreFresh(all, |all| - 1);
      }
      IndexStepOfLog(Fold(done + added[..n]), SeededFrom(Fold(done), s, added[..n]), added[n], m);
    }
  }

  lemma IndexStepOfLog(d: Derived, s: Seeded, log: Log, m: nat)
    requires Mirrored(log) ==> Fresh(d, log)
    ensures var after := ApplySeeded(d, s, log);
            if Prices(log, m) then m in after.index && after.index[m].price == log.body.event.price
            else (m in after.index <==> m in s.index) && (m in s.index ==> after.index[m] == s.index[m])
  {
  }

  /** A committed range carries the row from one level to another. */
  lemma CommitQuotes(c: Blocks, high: int, last: int, level: int, to: nat, s: Seeded, m: nat) returns (now: int)
    requires -1 <= last <= high <= level < |c| && last < to < |c| && UniqueKeys(Logs(c, 0, |c|))
    requires Quotes(s, m, PriceAt(c, level, m))
    ensures Higher(high, to) <= now <= Higher(level, to)
    ensures Quotes(SeededFrom(Fold(Logs(c, 0, high + 1)), s, Logs(c, last + 1, to + 1)), m, PriceAt(c, now, m))
  {
    hide FoldFrom, Fold, Logs, LastPrice, ApplySeeded;
    RangeAfterReplay(c, high, last, to, s);
    if to <= high {
      return level;
    }
    var done, added := Logs(c, 0, high + 1), Logs(c, high + 1, to + 1);
    LogsSplit(c, 0, high + 1, to + 1);
    LogsSplit(c, 0, to + 1, |c|);
    assert done + added == Logs(c, 0, |c|)[..|done + added|];
    IndexAfter(done, added, s, m);
    LastPriceConcat(done, added, m);
    if LastPrice(added, m).None? && level < to {
      LogsSplit(c, high + 1, level + 1, to + 1);
      LogsSplit(c, 0, high + 1, level + 1);
      LastPriceConcat(Logs(c, high + 1, level + 1), Logs(c, level + 1, to + 1), m);
      LastPriceConcat(done, Logs(c, high + 1, level + 1), m);
    }
    now := if LastPrice(added, m).None? && level >= to then level else to;
  }

  lemma {:induction false} SeedFirstIndex(s: Seeded, getters: seq<MarketGetter>, block: nat, n: nat, m: nat)
    requires n <= 2 * |getters|
    ensures var after := SeedFirst(s, getters, block, n);
            if 2 * m + 2 <= n then m in after.index && after.index[m].price == getters[m].price
            else (m in after.index <==> m in s.index) && (m in s.index ==> after.index[m] == s.index[m])
  {
    if n > 0 {
      SeedFirstIndex(s, getters, block, n - 1, m);
    }
  }

  /** Seeding, whole or cut short, leaves the row at its old level or brings it to the head. */
  lemma SeedingQuotes(db: Db, c: Blocks, fault: Fault, level: int, m: nat) returns (now: int)
    requires Coherent(c, m) && c != [] && -1 <= level < |c| && Quotes(db.s, m, PriceAt(c, level, m))
    ensures now == level || now == |c| - 1
    ensures Quotes(Reseeded(db, c, fault).s, m, PriceAt(c, now, m))
  {
    hide SeedFirst, PriceAt;
    var head := c[|c| - 1].getters;
    var n := if StopsSeeding(c, fault) then fault.after else 2 * |head|;
    SeedFirstIndex(db.s, head, |c| - 1, n, m);
    assert Reseeded(db, c, fault).s == SeedFirst(db.s, head, |c| - 1, n);
    now := if 2 * m + 2 <= n then |c| - 1 else level;
  }

  lemma PriceAtOfEqualPrefixes(a: Blocks, b: Blocks, top: int, level: int, m: nat)
    requires Agree(a, b, top) && -1 <= level <= top < |a| && top < |b|
    ensures PriceAt(a, level, m) == PriceAt(b, level, m)
  {
    hide Logs;
    if level >= 0 {
      assert a[..level + 1] == a[..top + 1][..level + 1] == b[..top + 1][..level + 1] == b[..level + 1];
    }
    LogsOfEqualPrefixes(a, b, 0, level + 1);
  }

  lemma IndexAdvance(w: World, maxRange: nat, n: Node, checked: Db, high: int, level: int, m: nat)
    requires Invariant(w) && Coherent(w.chain, m) && n.tip == w.chain
    requires -1 <= checked.st.lastBlock <= high <= level < |w.chain|
    requires checked.d == Fold(Logs(w.chain, 0, high + 1)) && Quotes(checked.s, m, PriceAt(w.chain, level, m))
    requires var to := RangeEnd(checked.st.lastBlock, w.chain, maxRange);
             && checked.st.lastBlock < to < |w.chain|
             && multiset(n.answer) == multiset(RangeLogs(w.chain, checked.st.lastBlock + 1, to))
             && Committed(checked, to, Sort(n.answer), n).Some?
    ensures var to := RangeEnd(checked.st.lastBlock, w.chain, maxRange);
            exists now :: Higher(high, to) <= now <= Higher(level, to)
                          && Quotes(Committed(checked, to, Sort(n.answer), n).value.s, m, PriceAt(w.chain, now, m))
  {
    hide FoldFrom, SeededFrom, Logs, Sort, RangeLogs, AnyThrows, HashAt, Detected, PriceAt, Quotes, Fold, WellFormed;
    var to := RangeEnd(checked.st.lastBlock, w.chain, maxRange);
    CommittedShape(checked, to, Sort(n.answer), n);
    SyncRangeIsCanonical(w.chain, n.answer, checked.st.lastBlock + 1, to);
    var now := CommitQuotes(w.chain, high, checked.st.lastBlock, level, to, checked.s, m);
  }

  lemma SyncKeepsIndex(w: World, maxRange: nat, answer: seq<Log>, fault: Fault, m: nat)
    requires Invariant(w) && IndexInvariant(w, m) && Allowed(w, SyncOnce(maxRange, answer, fault))
    ensures IndexInvariant(AfterSync(w, maxRange, Steady(w.chain, answer, fault)), m)
  {
    hide FoldFrom, SeededFrom, Logs, Sort, RangeLogs, AnyThrows, HashAt, PriceAt, Fold, SeedAll, SeedFirst, Coherent;
    var n := Steady(w.chain, answer, fault);
    var (db, outcome) := SyncResult(w.db, maxRange, n);
    if outcome.Advanced? {
      AdvanceKeepsIndex(w, maxRange, answer, fault, m);
    } else if db.st.rebuilds != w.db.st.rebuilds {
      assert AfterSync(w, maxRange, n) == World(w.chain, db, w.chain, -1, |w.chain| - 1);
      UnpricedFromNothing(w.chain, m);
      assert QuotesLevel(AfterSync(w, maxRange, n), -1, m);
    } else {
      CheckedRows(w, n);
      assert AfterSync(w, maxRange, n) == w;
    }
  }

  lemma UnpricedFromNothing(c: Blocks, m: nat)
    ensures PriceAt(c, -1, m).None?
  {
  }

  lemma AdvanceKeepsIndex(w: World, maxRange: nat, answer: seq<Log>, fault: Fault, m: nat)
    requires Invariant(w) && IndexInvariant(w, m) && Allowed(w, SyncOnce(maxRange, answer, fault))
    requires SyncResult(w.db, maxRange, Steady(w.chain, answer, fault)).1.Advanced?
    ensures IndexInvariant(AfterSync(w, maxRange, Steady(w.chain, answer, fault)), m)
  {
    hide FoldFrom, SeededFrom, Logs, Sort, RangeLogs, AnyThrows, HashAt, PriceAt, Fold, SeedAll, SeedFirst, Committed,
         SyncResult;
    var n := Steady(w.chain, answer, fault);
    AdvancedShape(w.db, maxRange, n);
    CheckedRows(w, n);
    var checked := AfterCheck(w.db, n).0;
    var high, level := -1, -1;
    UnpricedFromNothing(w.chain, m);
    if checked.st.rebuilds == w.db.st.rebuilds {
      high := w.high;
      level :| QuotesLevel(w, level, m);
    }
    IndexAdvance(w, maxRange, n, checked, high, level, m);
    var to := RangeEnd(checked.st.lastBlock, w.chain, maxRange);
    var now :| Higher(high, to) <= now <= Higher(level, to)
               && Quotes(Committed(checked, to, Sort(n.answer), n).value.s, m, PriceAt(w.chain, now, m));
    AdvancedWorld(w, maxRange, n);
    assert QuotesLevel(AfterSync(w, maxRange, n), now, m);
  }

  /** The world after a committed sync, spelled out. */
  lemma AdvancedWorld(w: World, maxRange: nat, n: Node)
    requires n.seed != [] && w.db.st.lastBlock >= -1 && maxRange >= 1 && SyncResult(w.db, maxRange, n).1.Advanced?
    ensures var (checked, goesOn) := AfterCheck(w.db, n);
            var to, after := RangeEnd(checked.st.lastBlock, n.head, maxRange), AfterSync(w, maxRange, n);
            && after.chain == w.chain && after.db == SyncResult(w.db, maxRange, n).0
            && after.db.st.rebuilds == checked.st.rebuilds
            && (if checked.st.rebuilds == w.db.st.rebuilds
                then after.high == Higher(w.high, to) && after.seeded == w.seeded
                else after.high == Higher(-1, to) && after.seeded == |n.seed| - 1)
  {
    hide FoldFrom, SeededFrom, Logs, Sort, RangeLogs, AnyThrows, HashAt, Fold, SeedAll, SeedFirst;
  }

  lemma StepKeepsIndex(w: World, s: Step, m: nat)
    requires Invariant(w) && IndexInvariant(w, m) && Allowed(w, s) && PriceSafe(w, s, m)
    ensures IndexInvariant(Next(w, s), m)
  {
    hide FoldFrom, Logs, RangeLogs, HashAt, PriceAt, Fold, SeedFirst, AfterSync, Quotes, Coherent, SeedAll;
    match s
    case SyncOnce(maxRange, answer, fault) => SyncKeepsIndex(w, maxRange, answer, fault, m);
    case ChainMoves(next) =>
      if !Detected(w.db.st, next) {
        var level :| QuotesLevel(w, level, m);
        PriceAtOfEqualPrefixes(next, w.chain, Top(w), level, m);
        assert QuotesLevel(w.(chain := next), level, m);
      }
    case Pause(flag) =>
      if !Detected(w.db.st, w.chain) {
        var level :| QuotesLevel(w, level, m);
        assert QuotesLevel(Next(w, s), level, m);
      }
    case Restart(fault) =>
      if !Detected(w.db.st, w.chain) && w.db.st.genesis == HashAt(w.chain, 0) {
        var level :| QuotesLevel(w, level, m);
        var now := SeedingQuotes(w.db, w.chain, fault, level, m);
        assert QuotesLevel(Next(w, s), now, m);
      }
    case Rewind(block) =>
      if HashKept(w.db.st) {
        RewindSeesTheChain(w);
      }
      var level :| QuotesLevel(w, level, m);
      assert QuotesLevel(Next(w, s), level, m);
  }

  /** Where a rewind is allowed, the hash check has nothing to report. */
  lemma RewindSeesTheChain(w: World)
    requires Invariant(w) && HashKept(w.db.st) && Agree(w.chain, w.synced, w.high)
    ensures !Detected(w.db.st, w.chain)
  {
    hide Fold, Logs, HashAt;
    ReorgDetectionIsExact(w, w.chain);
    var last := w.db.st.lastBlock;
    assert w.chain[..last + 1] == w.chain[..w.high + 1][..last + 1] == w.synced[..w.high + 1][..last + 1];
  }

  /** The steps of a run are all price-safe. */
  ghost predicate SafeRun(w: World, steps: seq<Step>, m: nat)
    decreases |steps|
  {
    steps == [] || (w.chain != [] && w.db.st.lastBlock >= -1 && Allowed(w, steps[0]) && PriceSafe(w, steps[0], m)
                    && SafeRun(Next(w, steps[0]), steps[1..], m))
  }

  lemma {:induction false} IndexOnEveryRun(w: World, steps: seq<Step>, end: World, m: nat)
    requires Invariant(w) && IndexInvariant(w, m) && Leads(w, steps, end) && SafeRun(w, steps, m)
    ensures Invariant(end) && IndexInvariant(end, m)
    decreases |steps|
  {
    hide Next, Allowed, Invariant, IndexInvariant, PriceSafe;
    if steps != [] {
      StepKeepsInvariant(w, steps[0]);
      StepKeepsIndex(w, steps[0], m);
      IndexOnEveryRun(Next(w, steps[0]), steps[1..], end, m);
    }
  }

  lemma StartIndex(chain: Blocks, exchange: string, chainId: nat, m: nat)
    requires WellFormed(chain) && Coherent(chain, m)
    ensures IndexInvariant(Start(chain, exchange, chainId), m)
  {
    hide Coherent, HashAt;
    UnpricedFromNothing(chain, m);
    assert QuotesLevel(Start(chain, exchange, chainId), -1, m);
  }

  /** From an empty store: whatever the run, the index row is the chain's price at some block the store has seen. */
  lemma FreshStoreIndexOnEveryRun(chain: Blocks, exchange: string, chainId: nat, steps: seq<Step>, end: World, m: nat)
    requires WellFormed(chain) && Coherent(chain, m)
    requires Leads(Start(chain, exchange, chainId), steps, end) && SafeRun(Start(chain, exchange, chainId), steps, m)
    ensures Invariant(end) && IndexInvariant(end, m)
  {
    hide IndexInvariant, Coherent, Leads, SafeRun, HashAt;
    StartIsInvariant(chain, exchange, chainId);
    StartIndex(chain, exchange, chainId, m);
    IndexOnEveryRun(Start(chain, exchange, chainId), steps, end, m);
  }

  /** A level store shows the chain's last index price, once there is one. */
  lemma LevelIndexIsLastPrice(w: World, elapsed: nat, m: nat)
    requires Invariant(w) && IndexInvariant(w, m) && Level(PollOf(w, elapsed))
    ensures Quotes(w.db.s, m, LastPrice(Logs(w.chain, 0, |w.chain|), m))
  {
    hide Fold, Logs, LastPrice;
    LevelMeansCanonical(w, elapsed);
  }

  /**
   * A reorg above the rows that the hash check cannot see, and then any number
   * of syncs: the index row is the new chain's price exactly when the blocks
   * added set a price themselves or the row, read at whatever head, was already
   * right at the old rows' height. A price seeded from blocks since reverted
   * fails this.
   */
  lemma SeededPriceAfterUnseenReorg(w: World, next: Blocks, dbs: seq<Db>, m: nat)
    requires Holds(w) && Agree(next, w.synced, w.high) && AdvancesAll(dbs, next) && dbs[0] == w.db
    requires w.high < dbs[|dbs| - 1].st.lastBlock && UniqueKeys(Logs(next, 0, |next|))
    ensures var after := dbs[|dbs| - 1];
            && -1 <= w.high < after.st.lastBlock < |next|
            && (Quotes(after.s, m, PriceAt(next, after.st.lastBlock, m))
                <==> LastPrice(Logs(next, w.high + 1, after.st.lastBlock + 1), m).Some?
                     || Quotes(w.db.s, m, PriceAt(next, w.high, m)))
  {
    hide FoldFrom, SeededFrom, Fold, Logs, LastPrice, AdvancesAll, UniqueKeys, HashAt, WellFormed, Detected;
    AdvancesAddUp(dbs, next);
    LogsOfEqualPrefixes(next, w.synced, 0, w.high + 1);
    PriceAfterRange(next, w.high, w.db.st.lastBlock, dbs[|dbs| - 1].st.lastBlock, w.db.s, m);
  }

  lemma PriceAfterRange(c: Blocks, high: int, last: int, to: nat, s: Seeded, m: nat)
    requires -1 <= last <= high < to < |c| && UniqueKeys(Logs(c, 0, |c|))
    ensures Quotes(SeededFrom(Fold(Logs(c, 0, high + 1)), s, Logs(c, last + 1, to + 1)), m, PriceAt(c, to, m))
            <==> LastPrice(Logs(c, high + 1, to + 1), m).Some? || Quotes(s, m, PriceAt(c, high, m))
  {
    hide FoldFrom, Fold, Logs, LastPrice, ApplySeeded;
    RangeAfterReplay(c, high, last, to, s);
    var done, added := Logs(c, 0, high + 1), Logs(c, high + 1, to + 1);
    LogsSplit(c, 0, high + 1, to + 1);
    LogsSplit(c, 0, to + 1, |c|);
    assert done + added == Logs(c, 0, |c|)[..|done + added|];
    IndexAfter(done, added, s, m);
    LastPriceConcat(done, added, m);
  }

  /** A chain that sets a price in block 1 and another in block 2, and the chain it becomes when block 2 is reverted. */
  const FIFTY := Log("0xp1", 0, 1, Oracle, Known(PriceSet(0, 50, 1)))
  const SIXTY := Log("0xp2", 0, 2, Oracle, Known(PriceSet(0, 60, 2)))
  const AT_FIFTY := MarketGetter("ETH", 0, 1, 1, 0, 10, 0, 0, 100, 50, 1)
  const AT_SIXTY := AT_FIFTY.(price := 60, publishTime := 2)
  const PRICED := [GENESIS, Block([FIFTY], [AT_FIFTY], 1), Block([SIXTY], [AT_SIXTY], 2)]
  const REVERTED := [GENESIS, Block([FIFTY], [AT_FIFTY], 1), Block([], [AT_FIFTY], 3)]

  lemma PricedLogs()
    ensures WellFormed(PRICED) && WellFormed(REVERTED) && Agree(REVERTED, PRICED, 1)
    ensures Logs(PRICED, 0, 2) == Logs(REVERTED, 0, 2) == Logs(REVERTED, 0, 3) == [FIFTY] && Logs(REVERTED, 2, 3) == []
    ensures UniqueKeys([FIFTY]) && LastPrice([FIFTY], 0) == Some(50)
  {
    OneFollowed(FIFTY);
    LogsStep(PRICED, 0, 1);
    LogsStep(PRICED, 0, 2);
    LogsStep(REVERTED, 0, 1);
    LogsStep(REVERTED, 0, 2);
    LogsStep(REVERTED, 0, 3);
    LogsStep(REVERTED, 2, 3);
    assert PRICED[..2] == REVERTED[..2];
  }

  /** Synced to block 1, restarted while the head was block 2. */
  ghost function SeededAhead(): World {
    var w := SyncedTo(PRICED, 1);
    w.(db := w.db.(s := SeedAll(UNSEEDED, PRICED)), seeded := 2)
  }

  lemma SeededAheadAtSixty()
    ensures var s := SeedAll(UNSEEDED, PRICED); 0 in s.index && s.index[0].price == 60
  {
    SeedFirstIndex(UNSEEDED, [AT_SIXTY], 2, 2, 0);
  }

  /** An instance: block 2 is reverted unnoticed, and after the next sync the store still quotes its price. */
  lemma RevertedPriceStays()
    ensures var w, next := SeededAhead(), REVERTED;
            var after := AtHead(w.db, next);
            && Holds(w) && Agree(next, w.synced, w.high) && AdvancesAll([w.db, after], next)
            && w.high < after.st.lastBlock && UniqueKeys(Logs(next, 0, |next|))
            && PriceAt(next, 2, 0) == Some(50) && 0 in after.s.index && after.s.index[0].price == 60
  {
    hide Logs, Fold, FoldFrom, SeededFrom, AnyThrows, Advances, WellFormed, SeedAll, LastPrice, UniqueKeys;
    var w, next := SeededAhead(), REVERTED;
    PricedLogs();
    SeededAheadAtSixty();
    SyncedToIsInvariant(PRICED, 1);
    HashCommitsToPrefix(PRICED, next, 1);
    OneFolded(w.db.d, w.db.s, w.db.s.markets.Keys, FIFTY);
    OneSyncReachesHead(w.db, next);
    assert AdvancesAll([w.db, AtHead(w.db, next)], next);
  }
}
