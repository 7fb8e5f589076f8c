/** What one sync answers and leaves behind: paused, failing at any RPC, with or without a reorg; and a paused store. */
module Faults {
  import opened Options
  import opened Store
  import opened Chain
  import opened Indexing
  import opened Runs

  // ---------------------------------------------------------------- paused

  /** A sync answers `Paused` if and only if the store is, whatever the node does, and then touches nothing. */
  lemma PausedIffFrozen(db: Db, maxRange: nat, n: Node)
    requires n.seed != [] && db.st.lastBlock >= -1 && maxRange >= 1
    ensures SyncResult(db, maxRange, n).1 == Paused <==> db.st.paused
    ensures db.st.paused ==> SyncResult(db, maxRange, n).0 == db
  {
    hide AfterCheck, Committed, Sort;
  }

  predicate KeepsPaused(s: Step) { s.ChainMoves? || s.SyncOnce? || (s.Pause? && s.flag) }

  /** While it is paused the store stays as it is, through any chain moves, reorgs, syncs and faults. */
  lemma {:induction false} PausedStoreIsFrozen(w: World, steps: seq<Step>, end: World)
    requires Leads(w, steps, end) && w.db.st.paused && forall i :: 0 <= i < |steps| ==> KeepsPaused(steps[i])
    ensures end.db == w.db
    decreases |steps|
  {
    hide AfterCheck, Committed, Sort, HashAt, Answers, Traceable;
    if steps != [] {
      PausedStoreIsFrozen(Next(w, steps[0]), steps[1..], end);
    }
  }

  // ---------------------------------------------------------------- without a reorg

  /** Some RPC that this sync makes fails. */
  predicate Interrupted(db: Db, n: Node) {
    n.fault.HeadFails? || (n.fault.BlockFails? && db.st.lastBlock >= 0 && db.st.lastHash.Some?)
    || n.fault.LogsFails? || n.fault.TipFails?
  }

  /**
   * A sync that meets no reorg either commits the whole range or changes
   * nothing; it commits exactly when it is not paused, the head is above the
   * last block, no RPC fails and no log throws. What it records is the last
   * block of the range and the hash the node then gives for it, if it has one.
   */
  lemma CommitsIffNothingIsInTheWay(db: Db, maxRange: nat, n: Node)
    requires n.seed != [] && db.st.lastBlock >= -1 && maxRange >= 1 && !Detected(db.st, n.block)
    ensures var (after, outcome) := SyncResult(db, maxRange, n);
            var head, logs := |n.head| - 1, Sort(n.answer);
            var to := if head < db.st.lastBlock + maxRange then head else db.st.lastBlock + maxRange;
            if !db.st.paused && head > db.st.lastBlock && !Interrupted(db, n)
               && !AnyThrows(db.d, db.s.markets.Keys, logs) then
              && outcome == Advanced(db.st.lastBlock + 1, to, |n.answer|)
              && after.d == FoldFrom(db.d, logs) && after.s == SeededFrom(db.d, db.s, logs)
              && after.st == db.st.(lastBlock := to, lastHash := if to < |n.tip| then Some(HashAt(n.tip, to)) else None)
            else after == db && !outcome.Advanced?
  {
    hide FoldFrom, SeededFrom, AnyThrows, Sort, HashAt, SeedFirst;
    SortKeepsLength(n.answer);
  }

  lemma SortKeepsLength(logs: seq<Log>)
    ensures |Sort(logs)| == |logs|
  {
    hide Sort;
    SameLength(Sort(logs), logs);
  }

  /** And when nothing is new it is idle; when something fails it says so. */
  lemma IdleIffNothingNew(db: Db, maxRange: nat, n: Node)
    requires n.seed != [] && db.st.lastBlock >= -1 && maxRange >= 1 && !Detected(db.st, n.block) && !db.st.paused
    ensures SyncResult(db, maxRange, n).1.Idle?
            <==> |n.head| - 1 <= db.st.lastBlock && !n.fault.HeadFails?
                 && !(n.fault.BlockFails? && db.st.lastBlock >= 0 && db.st.lastHash.Some?)
  {
    hide FoldFrom, SeededFrom, AnyThrows, Sort, HashAt, SeedFirst;
  }

  // ---------------------------------------------------------------- with a reorg

  /** Every derived and seeded row gone, nothing indexed, one more rebuild counted, the rest as it was. */
  predicate StartsOver(db: Db, after: Db) {
    && after.d == EMPTY
    && after.st == db.st.(lastBlock := -1, lastHash := None, rebuilds := db.st.rebuilds + 1)
  }

  /**
   * A sync that meets a reorg leaves the store alone if it is paused or the
   * head, the block or the emptying fails; otherwise the store starts over,
   * with the markets read again from nothing up to the failing statement, and
   * then at most one range from block 0 is added.
   */
  lemma ReorgStartsOver(db: Db, maxRange: nat, n: Node)
    requires n.seed != [] && db.st.lastBlock >= -1 && maxRange >= 1 && Detected(db.st, n.block)
    ensures var (after, outcome) := SyncResult(db, maxRange, n);
            var head, logs := |n.head| - 1, Sort(n.answer);
            var getters, block := n.seed[|n.seed| - 1].getters, |n.seed| - 1;
            var stops := n.fault.SeedFails? && n.fault.after < 2 * |getters|;
            var seeded := SeedFirst(UNSEEDED, getters, block, if stops then n.fault.after else 2 * |getters|);
            if db.st.paused || n.fault.HeadFails? || n.fault.BlockFails? || n.fault.RebuildFails? then
              after == db && !outcome.Advanced?
            else if !stops && head >= 0 && !n.fault.LogsFails? && !n.fault.TipFails?
                    && !AnyThrows(EMPTY, seeded.markets.Keys, logs) then
              var to := if head < maxRange - 1 then head else maxRange - 1;
              && outcome == Advanced(0, to, |n.answer|) && after.st.rebuilds == db.st.rebuilds + 1
              && after.d == FoldFrom(EMPTY, logs) && after.s == SeededFrom(EMPTY, seeded, logs)
              && after.st.lastBlock == to
            else StartsOver(db, after) && after.s == seeded && !outcome.Advanced?
  {
    hide FoldFrom, SeededFrom, AnyThrows, Sort, HashAt, SeedFirst;
    SortKeepsLength(n.answer);
  }

  // ---------------------------------------------------------------- a new store

  lemma NeverEmpty(c: Blocks)
    requires WellFormed(c)
    ensures c != []
  {
  }

  /** A new store is empty and running: its first clean sync reads from block 0 and counts no rebuild. */
  lemma NewStoreReadsFromBlockZero(chain: Blocks, exchange: string, chainId: nat, maxRange: nat, answer: seq<Log>)
    requires WellFormed(chain) && maxRange >= 1
    requires multiset(answer) == multiset(RangeLogs(chain, 0, RangeEnd(-1, chain, maxRange)))
    requires !AnyThrows(EMPTY, {}, Logs(chain, 0, RangeEnd(-1, chain, maxRange) + 1))
    ensures var (after, outcome) := SyncResult(FreshDb(exchange, chainId, HashAt(chain, 0)), maxRange,
                                               Steady(chain, answer, NoFault));
            var to := if |chain| < maxRange then |chain| - 1 else maxRange - 1;
            && outcome == Advanced(0, to, |answer|) && after.d == Fold(Logs(chain, 0, to + 1))
            && after.st == StateRow(exchange, chainId, HashAt(chain, 0), to, Some(HashAt(chain, to)), false, 0)
  {
    hide FoldFrom, SeededFrom, AnyThrows, Sort, HashAt, SeedFirst, Logs, RangeLogs, SyncResult, WellFormed;
    NeverEmpty(chain);
    var db := FreshDb(exchange, chainId, HashAt(chain, 0));
    assert db.s.markets.Keys == {};
    SyncRangeIsCanonical(chain, answer, 0, RangeEnd(-1, chain, maxRange));
    CommitsIffNothingIsInTheWay(db, maxRange, Steady(chain, answer, NoFault));
  }
}
