/** Whole runs of the indexer against a chain that grows, reverts and regrows. */
module Runs {
  import opened Options
  import opened Store
  import opened Chain
  import opened Indexing

  /**
   * The node's chain, the store, and three things only the proof knows: the
   * chain the rows were last synced from, the highest block ever applied from
   * it, and the head at which the markets were last read from the contract.
   */
  datatype World = World(chain: Blocks, db: Db, synced: Blocks, high: int, seeded: int)

  datatype Step =
    | ChainMoves(next: Blocks)
    | SyncOnce(maxRange: nat, answer: seq<Log>, fault: Fault)
    | Pause(flag: bool)
    | Restart(fault: Fault)
    | Rewind(block: int)

  ghost function Start(chain: Blocks, exchange: string, chainId: nat): World
    requires chain != []
  {
    World(chain, FreshDb(exchange, chainId, HashAt(chain, 0)), chain, -1, -1)
  }

  /** Either the next unpaused sync rebuilds, or the chain still has everything the rows were built from. */
  ghost predicate Traceable(w: World) {
    Detected(w.db.st, w.chain) || Agree(w.chain, w.synced, w.high)
  }

  ghost predicate Invariant(w: World) {
    var st := w.db.st;
    && WellFormed(w.chain) && WellFormed(w.synced)
    && -1 <= st.lastBlock <= w.high < |w.synced|
    && (st.lastHash.Some? ==> st.lastBlock >= 0 && st.lastHash.value == HashAt(w.synced, st.lastBlock))
    && w.db.d == Fold(Logs(w.synced, 0, w.high + 1))
    && Traceable(w)
  }

  /**
   * What the code relies on: the chain stands still during one sync, a rewind
   * goes no higher than what was applied, and neither a reorg nor a rewind
   * lands where the hash check cannot see the blocks that changed.
   */
  ghost predicate Allowed(w: World, s: Step)
    requires w.chain != []
  {
    match s
    case ChainMoves(next) => WellFormed(next) && Traceable(w.(chain := next))
    case SyncOnce(maxRange, answer, fault) => maxRange >= 1 && Answers(w.db, maxRange, Steady(w.chain, answer, fault))
    case Pause(_) => true
    case Restart(_) => true
    case Rewind(block) => -1 <= block <= w.high && Agree(w.chain, w.synced, w.high)
  }

  ghost function AfterSync(w: World, maxRange: nat, n: Node): World
    requires n.seed != [] && w.db.st.lastBlock >= -1 && maxRange >= 1
  {
    var (db, outcome) := SyncResult(w.db, maxRange, n);
    var kept := if db.st.rebuilds == w.db.st.rebuilds then w.high else -1;
    var seeded := if db.st.rebuilds == w.db.st.rebuilds then w.seeded else |n.seed| - 1;
    if outcome.Advanced? then World(w.chain, db, w.chain, Higher(kept, outcome.to), seeded)
    else if db.st.rebuilds == w.db.st.rebuilds then w.(db := db)
    else World(w.chain, db, w.chain, kept, seeded)
  }

  /** A restart on a chain with another block 0 is refused: it leaves the store as it is. */
  ghost function Next(w: World, s: Step): World
    requires w.chain != [] && w.db.st.lastBlock >= -1 && Allowed(w, s)
  {
    match s
    case ChainMoves(next) => w.(chain := next)
    case SyncOnce(maxRange, answer, fault) => AfterSync(w, maxRange, Steady(w.chain, answer, fault))
    case Pause(flag) => w.(db := w.db.(st := w.db.st.(paused := flag)))
    case Restart(fault) =>
      if w.db.st.genesis != HashAt(w.chain, 0) then w
      else w.(db := Reseeded(w.db, w.chain, fault), seeded := |w.chain| - 1)
    case Rewind(block) => w.(db := w.db.(st := w.db.st.(lastBlock := block, lastHash := None)))
  }

  /** `end` is where the allowed steps lead from `w`. */
  ghost predicate Leads(w: World, steps: seq<Step>, end: World)
    decreases |steps|
  {
    if steps == [] then w == end
    else
      w.chain != [] && w.db.st.lastBlock >= -1 && Allowed(w, steps[0]) && Leads(Next(w, steps[0]), steps[1..], end)
  }

  // ---------------------------------------------------------------- one sync

  /** A kept hash that still matches vouches for the whole prefix below it, and only a changed prefix fails it. */
  lemma ReorgDetectionIsExact(w: World, c: Blocks)
    requires Invariant(w) && HashKept(w.db.st)
    ensures !Detected(w.db.st, c) <==> Agree(c, w.synced, w.db.st.lastBlock)
  {
    if w.db.st.lastBlock < |c| {
      HashCommitsToPrefix(c, w.synced, w.db.st.lastBlock);
    }
  }

  /** Outside a replay the chain may do anything at all. */
  lemma AnyReorgIsAllowedOutsideReplay(w: World, next: Blocks)
    requires Invariant(w) && WellFormed(next)
    requires w.db.st.lastBlock == w.high && (w.high >= 0 ==> w.db.st.lastHash.Some?)
    ensures Allowed(w, ChainMoves(next))
  {
    if w.high >= 0 {
      ReorgDetectionIsExact(w, next);
    }
  }

  lemma SyncRangeIsCanonical(c: Blocks, answer: seq<Log>, lo: nat, to: nat)
    requires WellFormed(c) && lo <= to < |c|
    requires multiset(answer) == multiset(RangeLogs(c, lo, to))
    ensures Sort(answer) == Logs(c, lo, to + 1)
  {
    LogsOrdered(c, lo, to + 1);
    SortRecoversChainOrder(answer, Logs(c, lo, to + 1));
  }

  /** Applying blocks last + 1 .. to over rows that already hold 0 .. high gives 0 .. max(high, to). */
  lemma RangeExtendsFold(c: Blocks, high: int, last: int, to: nat)
    requires -1 <= last <= high < |c| && last < to < |c|
    ensures FoldFrom(Fold(Logs(c, 0, high + 1)), Logs(c, last + 1, to + 1))
            == Fold(Logs(c, 0, if high < to then to + 1 else high + 1))
  {
    hide ApplyDerived, ApplySeeded, Logs;
    RangeAfterReplay(c, high, last, to, UNSEEDED);
    if high < to {
      LogsSplit(c, 0, high + 1, to + 1);
      FoldConcat(EMPTY, Logs(c, 0, high + 1), Logs(c, high + 1, to + 1));
    }
  }

  /** The replayed part of a range does nothing; only the blocks above `high` count. */
  lemma RangeAfterReplay(c: Blocks, high: int, last: int, to: nat, s: Seeded)
    requires -1 <= last <= high < |c| && last < to < |c|
    ensures var d, range := Fold(Logs(c, 0, high + 1)), Logs(c, last + 1, to + 1);
            var added := if high < to then Logs(c, high + 1, to + 1) else [];
            FoldFrom(d, range) == FoldFrom(d, added) && SeededFrom(d, s, range) == SeededFrom(d, s, added)
  {
    hide ApplyDerived, ApplySeeded, FoldFrom, SeededFrom;
    var done := Logs(c, 0, high + 1);
    var d := Fold(done);
    var mid := if high < to then high + 1 else to + 1;
    LogsSplit(c, 0, last + 1, high + 1);
    LogsSplit(c, last + 1, mid, high + 1);
    LogsSplit(c, last + 1, mid, to + 1);
    FoldCovers(EMPTY, done);
    var seen := Logs(c, last + 1, mid);
    forall log | log in seen ensures Covered(d, log) {
      assert log in done;
    }
    ReplayThenContinue(d, s, seen, Logs(c, mid, to + 1));
  }

  ghost function Higher(high: int, to: int): int { if high < to then to else high }

  /** Rows, block and hash as a commit leaves them, on a chain that stood still. */
  lemma CommittedRowsAreInvariant(c: Blocks, last: int, high: int, to: nat, db: Db, seeded: int)
    requires WellFormed(c) && -1 <= last <= high < |c| && last < to < |c|
    requires db.d == FoldFrom(Fold(Logs(c, 0, high + 1)), Logs(c, last + 1, to + 1))
    requires db.st.lastBlock == to && db.st.lastHash == Some(HashAt(c, to))
    ensures Invariant(World(c, db, c, Higher(high, to), seeded))
  {
    hide FoldFrom, Logs, HashAt;
    RangeExtendsFold(c, high, last, to);
  }

  /** The store as it stands after the reorg check, and the high-water mark that goes with it. */
  lemma CheckedRows(w: World, n: Node)
    requires Invariant(w) && n.seed == n.block == w.chain
    ensures var (checked, goesOn) := AfterCheck(w.db, n);
            var high := if checked.st.rebuilds == w.db.st.rebuilds then w.high else -1;
            && -1 <= checked.st.lastBlock <= high
            && (goesOn ==> high < |w.chain| && checked.d == Fold(Logs(w.chain, 0, high + 1)))
            && (high == w.high && checked.st.rebuilds == w.db.st.rebuilds ==> checked == w.db)
            && (high != w.high || checked.st.rebuilds != w.db.st.rebuilds ==>
                  high == -1 && checked.d == EMPTY && checked.st.lastBlock == -1 && checked.st.lastHash.None?)
            && (checked.st.rebuilds == w.db.st.rebuilds + 1 <==> Detected(w.db.st, w.chain) && checked != w.db)
  {
    hide SeedFirst, SeedAll, ApplyDerived, Followed, HashAt;
    if !Detected(w.db.st, w.chain) {
      LogsOfEqualPrefixes(w.chain, w.synced, 0, w.high + 1);
    }
  }

  lemma CommittedShape(db: Db, to: nat, logs: seq<Log>, n: Node)
    requires to < |n.tip| && Committed(db, to, logs, n).Some?
    ensures var after := Committed(db, to, logs, n).value;
            after.d == FoldFrom(db.d, logs) && after.s == SeededFrom(db.d, db.s, logs)
            && after.st == db.st.(lastBlock := to, lastHash := Some(HashAt(n.tip, to)))
  {
  }

  /** What `Advanced` says about the call: the check passed and the range committed. */
  lemma AdvancedShape(db: Db, maxRange: nat, n: Node)
    requires n.seed != [] && db.st.lastBlock >= -1 && maxRange >= 1
    requires SyncResult(db, maxRange, n).1.Advanced?
    ensures var (checked, goesOn) := AfterCheck(db, n);
            var to := RangeEnd(checked.st.lastBlock, n.head, maxRange);
            && goesOn && !db.st.paused && checked.st.lastBlock >= -1
            && checked.st.lastBlock < to < |n.head|
            && SyncResult(db, maxRange, n).1.to == to
            && Committed(checked, to, Sort(n.answer), n) == Some(SyncResult(db, maxRange, n).0)
  {
  }

  lemma AdvanceKeepsInvariant(w: World, maxRange: nat, answer: seq<Log>, fault: Fault)
    requires Invariant(w) && Allowed(w, SyncOnce(maxRange, answer, fault))
    requires SyncResult(w.db, maxRange, Steady(w.chain, answer, fault)).1.Advanced?
    ensures Invariant(AfterSync(w, maxRange, Steady(w.chain, answer, fault)))
  {
    hide FoldFrom, SeededFrom, AnyThrows, Sort, RangeLogs, HashAt;
    var n := Steady(w.chain, answer, fault);
    AdvancedShape(w.db, maxRange, n);
    CheckedRows(w, n);
    var after := SyncResult(w.db, maxRange, n).0;
    var checked := AfterCheck(w.db, n).0;
    AdvanceFrom(w, checked, if checked.st.rebuilds == w.db.st.rebuilds then w.high else -1,
                RangeEnd(checked.st.lastBlock, w.chain, maxRange), n, after,
                if checked.st.rebuilds == w.db.st.rebuilds then w.seeded else |w.chain| - 1);
  }

  lemma AdvanceFrom(w: World, checked: Db, high: int, to: nat, n: Node, after: Db, seeded: int)
    requires WellFormed(w.chain) && n.tip == w.chain && -1 <= checked.st.lastBlock <= high < |w.chain|
    requires checked.st.lastBlock < to < |w.chain|
    requires checked.d == Fold(Logs(w.chain, 0, high + 1))
    requires multiset(n.answer) == multiset(RangeLogs(w.chain, checked.st.lastBlock + 1, to))
    requires Committed(checked, to, Sort(n.answer), n) == Some(after)
    ensures Invariant(World(w.chain, after, w.chain, Higher(high, to), seeded))
    ensures after.st.rebuilds == checked.st.rebuilds && after.st.paused == checked.st.paused
    ensures after.st.lastBlock == to && after.st.lastHash == Some(HashAt(w.chain, to))
    ensures after.s == SeededFrom(checked.d, checked.s, Logs(w.chain, checked.st.lastBlock + 1, to + 1))
  {
    hide *;
    SyncRangeIsCanonical(w.chain, n.answer, checked.st.lastBlock + 1, to);
    CommittedShape(checked, to, Sort(n.answer), n);
    CommittedRowsAreInvariant(w.chain, checked.st.lastBlock, high, to, after, seeded);
  }

  lemma SyncKeepsInvariant(w: World, maxRange: nat, answer: seq<Log>, fault: Fault)
    requires Invariant(w) && Allowed(w, SyncOnce(maxRange, answer, fault))
    ensures Invariant(AfterSync(w, maxRange, Steady(w.chain, answer, fault)))
  {
    var n := Steady(w.chain, answer, fault);
    if SyncResult(w.db, maxRange, n).1.Advanced? {
      AdvanceKeepsInvariant(w, maxRange, answer, fault);
    } else if !w.db.st.paused && !fault.HeadFails? {
      CheckedRows(w, n);
    }
  }

  // ---------------------------------------------------------------- every run

  lemma StartIsInvariant(chain: Blocks, exchange: string, chainId: nat)
    requires WellFormed(chain)
    ensures Invariant(Start(chain, exchange, chainId))
  {
  }

  lemma StepKeepsInvariant(w: World, s: Step)
    requires Invariant(w) && Allowed(w, s)
    ensures Invariant(Next(w, s))
  {
    if s.SyncOnce? {
      SyncKeepsInvariant(w, s.maxRange, s.answer, s.fault);
    }
  }

  /** Over every run, the rows are the fold of the followed logs of blocks 0 .. high of the chain last synced. */
  lemma {:induction false} RowsAreTheFoldOnEveryRun(w: World, steps: seq<Step>, end: World)
    requires Invariant(w) && Leads(w, steps, end)
    ensures Invariant(end)
    decreases |steps|
  {
    if steps != [] {
      StepKeepsInvariant(w, steps[0]);
      RowsAreTheFoldOnEveryRun(Next(w, steps[0]), steps[1..], end);
    }
  }

  /** From an empty store: the rows equal the fold, and the recorded block is never above what was applied. */
  lemma FreshStoreRunsStayExact(chain: Blocks, exchange: string, chainId: nat, steps: seq<Step>, end: World)
    requires WellFormed(chain) && Leads(Start(chain, exchange, chainId), steps, end)
    ensures -1 <= end.db.st.lastBlock <= end.high < |end.synced|
    ensures end.db.d == Fold(Logs(end.synced, 0, end.high + 1))
    ensures !Detected(end.db.st, end.chain) ==> Agree(end.chain, end.synced, end.high)
  {
    StartIsInvariant(chain, exchange, chainId);
    RowsAreTheFoldOnEveryRun(Start(chain, exchange, chainId), steps, end);
  }
}
