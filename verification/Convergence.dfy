/** Where repeated syncs end: at the head, with the rows of the whole chain, whatever the chunks. */
module Convergence {
  import opened Options
  import opened Store
  import opened Chain
  import opened Indexing
  import opened Runs

  ghost predicate CleanSyncs(steps: seq<Step>) {
    forall i :: 0 <= i < |steps| ==> steps[i].SyncOnce? && steps[i].fault.NoFault?
  }

  /** Every followed log of the chain applies when its turn comes, given these markets. */
  ghost predicate Applies(c: Blocks, markets: set<nat>) {
    !AnyThrows(EMPTY, markets, Logs(c, 0, |c|))
  }

  /** The store has these markets, or will have them once it has rebuilt. */
  ghost predicate HasMarkets(w: World, markets: set<nat>)
    requires w.chain != []
  {
    markets <= (if Detected(w.db.st, w.chain) then SeedAll(UNSEEDED, w.chain) else w.db.s).markets.Keys
  }

  // ---------------------------------------------------------------- nothing throws on the way

  lemma {:induction false} FoldOfSlice(whole: seq<Log>, p: nat, h: nat, j: nat)
    requires p <= h <= j <= |whole|
    ensures FoldFrom(Fold(whole[..h]), whole[p..j]) == Fold(whole[..j])
  {
    hide ApplyDerived, FoldFrom, Covered, Fresh;
    var d := Fold(whole[..h]);
    FoldCovers(EMPTY, whole[..h]);
    forall log | log in whole[p..h] ensures Covered(d, log) {
      assert log in whole[..h];
    }
    ReplayThenContinue(d, UNSEEDED, whole[p..h], whole[h..j]);
    assert whole[p..j] == whole[p..h] + whole[h..j];
    FoldConcat(EMPTY, whole[..h], whole[h..j]);
    assert whole[..j] == whole[..h] + whole[h..j];
  }

  lemma StaysCovered(d: Derived, logs: seq<Log>, log: Log)
    requires Covered(d, log)
    ensures Covered(FoldFrom(d, logs), log)
  {
    AppliedGrows(d, logs);
  }

  lemma MoreMarketsThrowLess(d: Derived, markets: set<nat>, wider: set<nat>, log: Log)
    requires markets <= wider && Throws(d, wider, log)
    ensures Throws(d, markets, log)
  {
  }

  /** If the whole run applies from an empty store, any slice applies over a store that already holds a prefix. */
  lemma SliceDoesNotThrow(whole: seq<Log>, markets: set<nat>, wider: set<nat>, p: nat, h: nat, q: nat)
    requires !AnyThrows(EMPTY, markets, whole) && markets <= wider
    requires p <= h <= |whole| && p <= q <= |whole|
    ensures !AnyThrows(Fold(whole[..h]), wider, whole[p..q])
  {
    var d := Fold(whole[..h]);
    forall i | 0 <= i < q - p ensures !ThrowsAt(d, wider, whole[p..q], i) {
      StepDoesNotThrow(whole, markets, wider, p, h, q, i);
    }
  }

  lemma StepDoesNotThrow(whole: seq<Log>, markets: set<nat>, wider: set<nat>, p: nat, h: nat, q: nat, i: nat)
    requires !AnyThrows(EMPTY, markets, whole) && markets <= wider
    requires p <= h <= |whole| && p <= q <= |whole| && i < q - p
    ensures !ThrowsAt(Fold(whole[..h]), wider, whole[p..q], i)
  {
    hide ApplyDerived, FoldFrom, Rejects;
    var d, j := Fold(whole[..h]), p + i;
    assert !ThrowsAt(EMPTY, markets, whole, j);
    assert whole[p..q][..i] == whole[p..j] && whole[p..q][i] == whole[j];
    if j < h {
      FoldCovers(EMPTY, whole[..h]);
      assert whole[j] in whole[..h];
      StaysCovered(d, whole[p..j], whole[j]);
    } else {
      FoldOfSlice(whole, p, h, j);
      if Throws(Fold(whole[..j]), wider, whole[j]) {
        MoreMarketsThrowLess(Fold(whole[..j]), markets, wider, whole[j]);
      }
    }
  }

  lemma RangeDoesNotThrow(c: Blocks, markets: set<nat>, wider: set<nat>, last: int, high: int, to: nat)
    requires Applies(c, markets) && markets <= wider
    requires -1 <= last <= high < |c| && last < to < |c|
    ensures !AnyThrows(Fold(Logs(c, 0, high + 1)), wider, Logs(c, last + 1, to + 1))
  {
    hide AnyThrows, Fold, Logs;
    var whole := Logs(c, 0, |c|);
    LogsSplit(c, 0, last + 1, high + 1);
    LogsSplit(c, 0, high + 1, |c|);
    LogsSplit(c, 0, last + 1, to + 1);
    LogsSplit(c, 0, to + 1, |c|);
    var p, h, q := |Logs(c, 0, last + 1)|, |Logs(c, 0, high + 1)|, |Logs(c, 0, to + 1)|;
    assert whole[..h] == Logs(c, 0, high + 1);
    assert whole[..q] == Logs(c, 0, to + 1);
    assert whole[p..q] == whole[..q][p..] == Logs(c, last + 1, to + 1);
    SliceDoesNotThrow(whole, markets, wider, p, h, q);
  }

  lemma {:induction false} SeededKeepsMarkets(d: Derived, s: Seeded, logs: seq<Log>)
    ensures SeededFrom(d, s, logs).markets.Keys == s.markets.Keys
  {
    if logs != [] {
      SeededKeepsMarkets(d, s, logs[..|logs| - 1]);
    }
  }

  // ---------------------------------------------------------------- one clean sync

  ghost function Base(w: World): int { if Detected(w.db.st, w.chain) then -1 else w.db.st.lastBlock }

  /** The store a clean sync works from: rebuilt and re-seeded if the hash failed, untouched otherwise. */
  lemma CleanCheck(w: World, n: Node)
    requires Invariant(w) && n.seed == n.block == w.chain && n.fault.NoFault?
    ensures AfterCheck(w.db, n) == (if Detected(w.db.st, w.chain) then Emptied(w.db).(s := SeedAll(UNSEEDED, w.chain))
                                    else w.db, true)
  {
  }

  lemma CleanCommit(w: World, checked: Db, high: int, to: nat, n: Node, markets: set<nat>)
    requires WellFormed(w.chain) && n.tip == w.chain && n.fault.NoFault?
    requires -1 <= checked.st.lastBlock <= high < |w.chain| && checked.st.lastBlock < to < |w.chain|
    requires checked.d == Fold(Logs(w.chain, 0, high + 1))
    requires multiset(n.answer) == multiset(RangeLogs(w.chain, checked.st.lastBlock + 1, to))
    requires Applies(w.chain, markets) && markets <= checked.s.markets.Keys
    ensures var after := Committed(checked, to, Sort(n.answer), n);
            after.Some? && after.value.st == checked.st.(lastBlock := to, lastHash := Some(HashAt(w.chain, to)))
            && after.value.s.markets.Keys == checked.s.markets.Keys
  {
    hide FoldFrom, SeededFrom, AnyThrows, HashAt, Fold, Logs, Sort, RangeLogs, WellFormed;
    SyncRangeIsCanonical(w.chain, n.answer, checked.st.lastBlock + 1, to);
    RangeDoesNotThrow(w.chain, markets, checked.s.markets.Keys, checked.st.lastBlock, high, to);
    SeededKeepsMarkets(checked.d, checked.s, Logs(w.chain, checked.st.lastBlock + 1, to + 1));
  }

  /** A clean sync moves at least one block towards the head, rebuilding once if the hash no longer matches. */
  lemma CleanSyncProgress(w: World, maxRange: nat, answer: seq<Log>, markets: set<nat>)
    requires Invariant(w) && Allowed(w, SyncOnce(maxRange, answer, NoFault)) && !w.db.st.paused
    requires Applies(w.chain, markets) && HasMarkets(w, markets)
    ensures var after := AfterSync(w, maxRange, Steady(w.chain, answer, NoFault));
            var head := |w.chain| - 1;
            && Invariant(after) && after.chain == w.chain && !after.db.st.paused
            && !Detected(after.db.st, w.chain) && HasMarkets(after, markets)
            && Base(w) <= head
            && after.db.st.rebuilds == w.db.st.rebuilds + (if Detected(w.db.st, w.chain) then 1 else 0)
            && after.db.st.lastBlock == (if Base(w) < head then Min(head, Base(w) + maxRange) else Base(w))
            && (after.db.st.lastHash.Some? <==> Base(w) < head || w.db.st.lastHash.Some?)
  {
    hide FoldFrom, SeededFrom, AnyThrows, HashAt, Fold, Logs, Sort, RangeLogs, Committed, SeedAll, Applies;
    var n := Steady(w.chain, answer, NoFault);
    SyncKeepsInvariant(w, maxRange, answer, NoFault);
    CleanCheck(w, n);
    CheckedRows(w, n);
    var checked := AfterCheck(w.db, n).0;
    var high := if checked.st.rebuilds == w.db.st.rebuilds then w.high else -1;
    if |w.chain| - 1 > checked.st.lastBlock {
      CleanCommit(w, checked, high, RangeEnd(checked.st.lastBlock, w.chain, maxRange), n, markets);
      MatchingHashIsNotDetected(AfterSync(w, maxRange, n));
    }
  }

  lemma MatchingHashIsNotDetected(w: World)
    requires Invariant(w) && w.synced == w.chain
    ensures !Detected(w.db.st, w.chain)
  {
  }

  // ---------------------------------------------------------------- many of them

  lemma {:induction false} QuietProgress(w: World, steps: seq<Step>, end: World, markets: set<nat>)
    requires Invariant(w) && Leads(w, steps, end) && CleanSyncs(steps) && !w.db.st.paused
    requires Applies(w.chain, markets) && HasMarkets(w, markets) && !Detected(w.db.st, w.chain)
    ensures Invariant(end) && end.chain == w.chain && !Detected(end.db.st, end.chain)
    ensures end.db.st.rebuilds == w.db.st.rebuilds && end.db.st.lastBlock <= |w.chain| - 1
    ensures end.db.st.lastBlock >= Min(|w.chain| - 1, w.db.st.lastBlock + |steps|)
    ensures w.db.st.lastHash.Some? ==> end.db.st.lastHash.Some?
    ensures end.db.st.lastBlock > w.db.st.lastBlock ==> end.db.st.lastHash.Some?
    ensures w.db.st.lastBlock == |w.chain| - 1 ==> end.db.st.lastHash == w.db.st.lastHash
    decreases |steps|
  {
    hide AfterSync, Applies, HasMarkets, Fold, Logs;
    if steps != [] {
      var s := steps[0];
      CleanSyncProgress(w, s.maxRange, s.answer, markets);
      IdleAtHead(w, s.maxRange, Steady(w.chain, s.answer, NoFault));
      QuietProgress(Next(w, s), steps[1..], end, markets);
    }
  }

  lemma IdleAtHead(w: World, maxRange: nat, n: Node)
    requires Invariant(w) && n.fault.NoFault? && n.head == n.block == n.seed == w.chain && maxRange >= 1
    requires !Detected(w.db.st, w.chain)
    ensures w.db.st.lastBlock == |w.chain| - 1 ==> AfterSync(w, maxRange, n) == w
  {
  }

  /** Clean syncs of a live store, at least one for each block of a chain whose logs all apply. */
  ghost predicate EnoughSyncs(w: World, steps: seq<Step>, end: World, markets: set<nat>) {
    Invariant(w) && Leads(w, steps, end) && CleanSyncs(steps) && !w.db.st.paused
    && Applies(w.chain, markets) && HasMarkets(w, markets) && |steps| >= |w.chain|
  }

  lemma FirstOfEnough(w: World, steps: seq<Step>, end: World, markets: set<nat>)
    requires EnoughSyncs(w, steps, end, markets)
    ensures steps != [] && steps[0].SyncOnce? && steps[0].fault.NoFault? && Allowed(w, steps[0])
    ensures w.chain != [] && w.db.st.lastBlock >= -1 && steps[0].maxRange >= 1
    ensures Leads(AfterSync(w, steps[0].maxRange, Steady(w.chain, steps[0].answer, NoFault)), steps[1..], end)
    ensures CleanSyncs(steps[1..])
  {
    hide AfterSync, Applies, HasMarkets, Fold, HashAt, Logs;
  }

  /**
   * On a chain that stands still, enough clean syncs of any sizes end at the
   * head with the rows of the whole chain, after at most one rebuild. The hash
   * is recorded too, unless the store was rewound to the very head.
   */
  lemma Converges(w: World, steps: seq<Step>, end: World, markets: set<nat>)
    requires EnoughSyncs(w, steps, end, markets)
    ensures end.chain == w.chain && end.db.st.lastBlock == end.high == |w.chain| - 1
    ensures end.db.d == Fold(Logs(w.chain, 0, |w.chain|))
    ensures end.db.st.rebuilds == w.db.st.rebuilds + (if Detected(w.db.st, w.chain) then 1 else 0)
    ensures end.db.st.lastHash == Some(HashAt(w.chain, |w.chain| - 1))
            <==> Base(w) < |w.chain| - 1 || w.db.st.lastHash.Some?
  {
    hide AfterSync, Applies, HasMarkets, Fold, HashAt, Logs, Leads, CleanSyncs, Detected, Allowed;
    FirstOfEnough(w, steps, end, markets);
    var s := steps[0];
    CleanSyncProgress(w, s.maxRange, s.answer, markets);
    var next := AfterSync(w, s.maxRange, Steady(w.chain, s.answer, NoFault));
    QuietProgress(next, steps[1..], end, markets);
    RowsAtHead(end);
  }

  /** Rows traceable to the chain, recorded up to its head, are the rows of the whole chain. */
  lemma RowsAtHead(w: World)
    requires Invariant(w) && !Detected(w.db.st, w.chain) && w.db.st.lastBlock == |w.chain| - 1
    ensures w.high == |w.chain| - 1 && w.db.d == Fold(Logs(w.chain, 0, |w.chain|))
    ensures w.db.st.lastHash.Some? ==> w.db.st.lastHash.value == HashAt(w.chain, |w.chain| - 1)
  {
    hide Fold, Logs;
    LogsOfEqualPrefixes(w.chain, w.synced, 0, w.high + 1);
    if w.db.st.lastHash.Some? {
      HashCommitsToPrefix(w.chain, w.synced, w.high);
    }
  }

  /** Neither the chunk sizes, nor the order logs are listed in, nor the history of the store shows in the rows. */
  lemma HistoryDoesNotShow(a: World, aSteps: seq<Step>, aEnd: World, b: World, bSteps: seq<Step>, bEnd: World,
                           markets: set<nat>)
    requires EnoughSyncs(a, aSteps, aEnd, markets) && EnoughSyncs(b, bSteps, bEnd, markets) && a.chain == b.chain
    ensures aEnd.db.d == bEnd.db.d && aEnd.db.st.lastBlock == bEnd.db.st.lastBlock
  {
    hide *;
    Converges(a, aSteps, aEnd, markets);
    Converges(b, bSteps, bEnd, markets);
  }

  // ---------------------------------------------------------------- rewinding

  ghost predicate ReplaySteps(steps: seq<Step>) {
    forall i :: 0 <= i < |steps| ==> steps[i].SyncOnce? || steps[i].Pause?
  }

  /** One sync below the high-water mark, clean or not, changes no table but indexer_state. */
  lemma ReplayedSync(w: World, maxRange: nat, answer: seq<Log>, fault: Fault)
    requires Invariant(w) && Allowed(w, SyncOnce(maxRange, answer, fault)) && !Detected(w.db.st, w.chain)
    ensures var after := AfterSync(w, maxRange, Steady(w.chain, answer, fault));
            && Invariant(after) && after.chain == w.chain && !Detected(after.db.st, w.chain)
            && after.db.st.lastBlock >= w.db.st.lastBlock && after.db.st.rebuilds == w.db.st.rebuilds
            && after.high >= w.high
            && (after.db.st.lastBlock <= w.high ==>
                  after.db.d == w.db.d && after.db.s == w.db.s && after.high == w.high)
  {
    hide FoldFrom, SeededFrom, AnyThrows, HashAt, Fold, Logs, Sort, RangeLogs, SeedAll, Committed;
    var n := Steady(w.chain, answer, fault);
    SyncKeepsInvariant(w, maxRange, answer, fault);
    if SyncResult(w.db, maxRange, n).1.Advanced? {
      AdvancedShape(w.db, maxRange, n);
      MatchingHashIsNotDetected(AfterSync(w, maxRange, n));
      ReplayedCommit(w, RangeEnd(w.db.st.lastBlock, w.chain, maxRange), n, SyncResult(w.db, maxRange, n).0);
    }
  }

  lemma ReplayedCommit(w: World, to: nat, n: Node, after: Db)
    requires Invariant(w) && !Detected(w.db.st, w.chain) && n.tip == w.chain
    requires w.db.st.lastBlock < to < |w.chain|
    requires multiset(n.answer) == multiset(RangeLogs(w.chain, w.db.st.lastBlock + 1, to))
    requires Committed(w.db, to, Sort(n.answer), n) == Some(after)
    ensures after.st == w.db.st.(lastBlock := to, lastHash := Some(HashAt(w.chain, to)))
    ensures to <= w.high ==> after.d == w.db.d && after.s == w.db.s
  {
    hide ApplyDerived, ApplySeeded, AnyThrows, HashAt, Logs, Sort, RangeLogs, WellFormed;
    SyncRangeIsCanonical(w.chain, n.answer, w.db.st.lastBlock + 1, to);
    CommittedShape(w.db, to, Sort(n.answer), n);
    LogsOfEqualPrefixes(w.chain, w.synced, 0, w.high + 1);
    RangeAfterReplay(w.chain, w.high, w.db.st.lastBlock, to, w.db.s);
  }

  lemma {:induction false} ReplayRun(w: World, steps: seq<Step>, end: World)
    requires Invariant(w) && Leads(w, steps, end) && ReplaySteps(steps) && !Detected(w.db.st, w.chain)
    ensures Invariant(end) && end.db.st.lastBlock >= w.db.st.lastBlock && end.high >= w.high
    ensures end.db.st.lastBlock <= w.high ==>
              end.db.d == w.db.d && end.db.s == w.db.s && end.db.st.rebuilds == w.db.st.rebuilds
    decreases |steps|
  {
    hide AfterSync, Fold, Logs, HashAt;
    if steps != [] {
      var s := steps[0];
      if s.SyncOnce? {
        ReplayedSync(w, s.maxRange, s.answer, s.fault);
      } else {
        StepKeepsInvariant(w, s);
      }
      ReplayRun(Next(w, s), steps[1..], end);
    }
  }

  /** Rewinding and syncing back up leaves every table but indexer_state exactly as it was. */
  lemma ReplayAfterRewindIsNoOp(w: World, block: int, steps: seq<Step>, end: World)
    requires Invariant(w) && Allowed(w, Rewind(block)) && ReplaySteps(steps)
    requires Leads(Next(w, Rewind(block)), steps, end)
    ensures end.db.st.lastBlock >= block
    ensures end.db.st.lastBlock <= w.high ==>
              end.db.d == w.db.d && end.db.s == w.db.s && end.db.st.rebuilds == w.db.st.rebuilds
  {
    hide Fold, Logs, HashAt;
    StepKeepsInvariant(w, Rewind(block));
    ReplayRun(Next(w, Rewind(block)), steps, end);
  }
}
