/** A rebuild commits before the markets are read again: what becomes of the store when that read fails. */
module Reseeding {
  import opened Options
  import opened Store
  import opened Chain
  import opened Indexing
  import opened Runs
  import opened Convergence
  import opened Hazards
  import opened CaughtUp

  /** A reorg and a failing read empty the store and leave the markets of the statements that still ran. */
  lemma FailedReseedIsReachable(w: World, maxRange: nat, answer: seq<Log>, k: nat)
    requires Invariant(w) && Detected(w.db.st, w.chain) && !w.db.st.paused
    requires StopsSeeding(w.chain, SeedFails(k)) && Allowed(w, SyncOnce(maxRange, answer, SeedFails(k)))
    ensures var after, head := AfterSync(w, maxRange, Steady(w.chain, answer, SeedFails(k))), |w.chain| - 1;
            && Invariant(after) && after.chain == w.chain && after.high == -1 && !after.db.st.paused
            && after.db.st.lastBlock == -1 && after.db.st.lastHash.None? && after.db.d == EMPTY
            && after.db.s == SeedFirst(UNSEEDED, w.chain[head].getters, head, k)
  {
    hide FoldFrom, AnyThrows, Sort, RangeLogs, Logs, HashAt, SeedFirst, SeedAll, WellFormed;
    SyncKeepsInvariant(w, maxRange, answer, SeedFails(k));
  }

  /** A clean sync of a live store changes nothing if and only if it is at the head or its range throws. */
  lemma CleanSyncSticksIff(w: World, maxRange: nat, answer: seq<Log>)
    requires Invariant(w) && !Detected(w.db.st, w.chain) && !w.db.st.paused
    requires Allowed(w, SyncOnce(maxRange, answer, NoFault))
    ensures var to := RangeEnd(w.db.st.lastBlock, w.chain, maxRange);
            && -1 <= w.db.st.lastBlock < |w.chain| && w.db.st.lastBlock <= to < |w.chain|
            && (AfterSync(w, maxRange, Steady(w.chain, answer, NoFault)) == w
                <==> w.db.st.lastBlock == |w.chain| - 1
                     || AnyThrows(w.db.d, w.db.s.markets.Keys, Logs(w.chain, w.db.st.lastBlock + 1, to + 1)))
  {
    hide FoldFrom, SeededFrom, AnyThrows, Sort, RangeLogs, Logs, HashAt, WellFormed;
    var n := Steady(w.chain, answer, NoFault);
    var to := RangeEnd(w.db.st.lastBlock, w.chain, maxRange);
    CleanCheck(w, n);
    if w.db.st.lastBlock < |w.chain| - 1 {
      SyncRangeIsCanonical(w.chain, answer, w.db.st.lastBlock + 1, to);
    }
  }

  // ---------------------------------------------------------------- when syncs alone recover

  lemma {:induction false} ThrowsConcat(d: Derived, markets: set<nat>, a: seq<Log>, b: seq<Log>)
    ensures AnyThrows(d, markets, a + b) <==> AnyThrows(d, markets, a) || AnyThrows(FoldFrom(d, a), markets, b)
  {
    hide FoldFrom, Throws;
    forall i: nat | i < |a| ensures ThrowsAt(d, markets, a + b, i) == ThrowsAt(d, markets, a, i) {
      assert (a + b)[..i] == a[..i];
    }
    forall i: nat | i < |b|
      ensures ThrowsAt(d, markets, a + b, |a| + i) == ThrowsAt(FoldFrom(d, a), markets, b, i)
    {
      assert (a + b)[..|a| + i] == a + b[..i];
      FoldConcat(d, a, b[..i]);
    }
    if i :| 0 <= i < |a + b| && ThrowsAt(d, markets, a + b, i) && i >= |a| {
      assert ThrowsAt(FoldFrom(d, a), markets, b, i - |a|);
    }
  }

  /** What the store holds could have been applied with the markets it has. */
  ghost predicate AppliedWith(c: Blocks, high: int, markets: set<nat>)
    requires -1 <= high < |c|
  {
    !AnyThrows(EMPTY, markets, Logs(c, 0, high + 1))
  }

  lemma ReplayedBlocksDoNothing(c: Blocks, high: int, last: int)
    requires -1 <= last <= high < |c|
    ensures var d := Fold(Logs(c, 0, high + 1)); FoldFrom(d, Logs(c, last + 1, high + 1)) == d
  {
    hide FoldFrom, Logs, Covered;
    var done, seen := Logs(c, 0, high + 1), Logs(c, last + 1, high + 1);
    LogsSplit(c, 0, last + 1, high + 1);
    FoldCovers(EMPTY, done);
    assert forall log :: log in seen ==> log in done;
    ReplayIsNoOp(Fold(done), UNSEEDED, seen);
  }

  lemma CommittedRangeApplied(c: Blocks, high: int, last: int, to: nat, markets: set<nat>)
    requires -1 <= last <= high < |c| && last < to < |c| && AppliedWith(c, high, markets)
    requires !AnyThrows(Fold(Logs(c, 0, high + 1)), markets, Logs(c, last + 1, to + 1))
    ensures AppliedWith(c, Higher(high, to), markets)
  {
    if high < to {
      hide AnyThrows, FoldFrom, Logs;
      LogsSplit(c, 0, high + 1, to + 1);
      LogsSplit(c, last + 1, high + 1, to + 1);
      ReplayedBlocksDoNothing(c, high, last);
      ThrowsConcat(Fold(Logs(c, 0, high + 1)), markets, Logs(c, last + 1, high + 1), Logs(c, high + 1, to + 1));
      ThrowsConcat(EMPTY, markets, Logs(c, 0, high + 1), Logs(c, high + 1, to + 1));
    }
  }

  function FirstIds(n: nat): set<nat> { if n == 0 then {} else FirstIds(n - 1) + {n - 1} }

  /** The markets the contract's getters list at the head. */
  function Listed(c: Blocks): set<nat>
    requires c != []
  {
    FirstIds(|c[|c| - 1].getters|)
  }

  lemma {:induction false} SeedFirstMarkets(s: Seeded, getters: seq<MarketGetter>, block: nat, n: nat)
    requires n <= 2 * |getters|
    ensures SeedFirst(s, getters, block, n).markets.Keys == s.markets.Keys + FirstIds((n + 1) / 2)
  {
    if n > 0 {
      SeedFirstMarkets(s, getters, block, n - 1);
    }
  }

  lemma {:induction false} MoreMarketsApply(d: Derived, markets: set<nat>, wider: set<nat>, logs: seq<Log>)
    requires markets <= wider && !AnyThrows(d, markets, logs)
    ensures !AnyThrows(d, wider, logs)
  {
    hide FoldFrom, Throws;
    forall i: nat | i < |logs| ensures !ThrowsAt(d, wider, logs, i) {
      assert !ThrowsAt(d, markets, logs, i);
      if Throws(FoldFrom(d, logs[..i]), wider, logs[i]) {
        MoreMarketsThrowLess(FoldFrom(d, logs[..i]), markets, wider, logs[i]);
      }
    }
  }

  /** The rows could have been applied with the markets the store has. */
  ghost predicate CouldApply(w: World) {
    Invariant(w) && AppliedWith(w.synced, w.high, w.db.s.markets.Keys)
  }

  /** The markets the store has, or will have once it has rebuilt. */
  ghost function MarketsAhead(w: World): set<nat>
    requires w.chain != []
  {
    (if Detected(w.db.st, w.chain) then SeedAll(UNSEEDED, w.chain) else w.db.s).markets.Keys
  }

  /** The store as it stands after the check can apply what it holds. */
  lemma CheckedCouldApply(w: World, n: Node)
    requires CouldApply(w) && n.seed == n.block == w.chain
    ensures var (checked, goesOn) := AfterCheck(w.db, n);
            var high := if checked.st.rebuilds == w.db.st.rebuilds then w.high else -1;
            goesOn ==> -1 <= high < |w.chain| && AppliedWith(w.chain, high, checked.s.markets.Keys)
  {
    hide AnyThrows, Logs, SeedFirst, SeedAll, Fold;
    CheckedRows(w, n);
    if !Detected(w.db.st, w.chain) {
      LogsOfEqualPrefixes(w.chain, w.synced, 0, w.high + 1);
    }
    NothingThrowsInNothing(AfterCheck(w.db, n).0.s.markets.Keys, w.chain);
  }

  lemma NothingThrowsInNothing(markets: set<nat>, c: Blocks)
    ensures AppliedWith(c, -1, markets)
  {
  }

  /** A committed range over such a store leaves such a store, with the same markets. */
  lemma AdvanceCouldApply(c: Blocks, checked: Db, high: int, to: nat, n: Node, after: Db)
    requires WellFormed(c) && n.tip == c && -1 <= checked.st.lastBlock <= high < |c|
    requires checked.st.lastBlock < to < |c| && checked.d == Fold(Logs(c, 0, high + 1))
    requires AppliedWith(c, high, checked.s.markets.Keys)
    requires multiset(n.answer) == multiset(RangeLogs(c, checked.st.lastBlock + 1, to))
    requires Committed(checked, to, Sort(n.answer), n) == Some(after)
    ensures AppliedWith(c, Higher(high, to), after.s.markets.Keys)
    ensures after.s.markets.Keys == checked.s.markets.Keys && after.st.paused == checked.st.paused
  {
    hide FoldFrom, Fold, SeededFrom, AnyThrows, Sort, RangeLogs, Logs, HashAt, WellFormed, AppliedWith;
    SyncRangeIsCanonical(c, n.answer, checked.st.lastBlock + 1, to);
    SeededKeepsMarkets(checked.d, checked.s, Logs(c, checked.st.lastBlock + 1, to + 1));
    CommittedRangeApplied(c, high, checked.st.lastBlock, to, checked.s.markets.Keys);
  }

  /** A sync that advanced: its markets are those of the store it worked from. */
  lemma AdvancedCouldApply(w: World, maxRange: nat, n: Node)
    requires CouldApply(w) && maxRange >= 1 && n == Steady(w.chain, n.answer, n.fault)
    requires w.chain != [] && w.db.st.lastBlock >= -1 && Answers(w.db, maxRange, n)
    requires SyncResult(w.db, maxRange, n).1.Advanced?
    ensures CouldApply(AfterSync(w, maxRange, n))
    ensures AfterSync(w, maxRange, n).db.s.markets.Keys == AfterCheck(w.db, n).0.s.markets.Keys
    ensures !Detected(AfterSync(w, maxRange, n).db.st, w.chain)
    ensures AfterSync(w, maxRange, n).db.st.paused == w.db.st.paused
  {
    hide FoldFrom, SeededFrom, AnyThrows, Sort, RangeLogs, Logs, HashAt, WellFormed, AppliedWith, Committed, Fold,
      SeedAll, SeedFirst, SyncResult, Invariant, Detected;
    SyncKeepsInvariant(w, maxRange, n.answer, n.fault);
    AdvancedShape(w.db, maxRange, n);
    AdvancedWorld(w, maxRange, n);
    CheckedRows(w, n);
    CheckedCouldApply(w, n);
    InvariantParts(w);
    MatchingHashIsNotDetected(AfterSync(w, maxRange, n));
    var checked := AfterCheck(w.db, n).0;
    AdvanceCouldApply(w.chain, checked, if checked.st.rebuilds == w.db.st.rebuilds then w.high else -1,
                      RangeEnd(checked.st.lastBlock, w.chain, maxRange), n, SyncResult(w.db, maxRange, n).0);
  }

  lemma InvariantParts(w: World)
    requires Invariant(w)
    ensures WellFormed(w.chain) && WellFormed(w.synced) && -1 <= w.db.st.lastBlock <= w.high < |w.synced|
    ensures w.chain != []
  {
  }

  lemma SyncCouldApply(w: World, maxRange: nat, answer: seq<Log>, fault: Fault)
    requires CouldApply(w) && Allowed(w, SyncOnce(maxRange, answer, fault))
    ensures CouldApply(AfterSync(w, maxRange, Steady(w.chain, answer, fault)))
  {
    hide FoldFrom, SeededFrom, AnyThrows, Sort, RangeLogs, Logs, HashAt, Committed, Fold, SeedAll, SeedFirst;
    var n := Steady(w.chain, answer, fault);
    if SyncResult(w.db, maxRange, n).1.Advanced? {
      AdvancedCouldApply(w, maxRange, n);
    } else {
      SyncKeepsInvariant(w, maxRange, answer, fault);
      CheckedRows(w, n);
      NothingThrowsInNothing(AfterSync(w, maxRange, n).db.s.markets.Keys, w.chain);
    }
  }

  lemma StepCouldApply(w: World, s: Step)
    requires CouldApply(w) && Allowed(w, s)
    ensures CouldApply(Next(w, s))
  {
    hide FoldFrom, AnyThrows, RangeLogs, Logs, HashAt, Fold, SeedFirst, AfterSync;
    StepKeepsInvariant(w, s);
    if s.SyncOnce? {
      SyncCouldApply(w, s.maxRange, s.answer, s.fault);
    } else if s.Restart? && w.db.st.genesis == HashAt(w.chain, 0) {
      var getters, head := w.chain[|w.chain| - 1].getters, |w.chain| - 1;
      SeedFirstMarkets(w.db.s, getters, head, if StopsSeeding(w.chain, s.fault) then s.fault.after else 2 * |getters|);
      MoreMarketsApply(EMPTY, w.db.s.markets.Keys, Next(w, s).db.s.markets.Keys, Logs(w.synced, 0, w.high + 1));
    }
  }

  /** Over every run, what the rows hold could have been applied with the markets the store has at its end. */
  lemma {:induction false} MarketsCoverTheRowsOnEveryRun(w: World, steps: seq<Step>, end: World)
    requires CouldApply(w) && Leads(w, steps, end)
    ensures CouldApply(end)
    decreases |steps|
  {
    hide AppliedWith, Next, Allowed, Invariant;
    if steps != [] {
      InvariantParts(w);
      StepCouldApply(w, steps[0]);
      MarketsCoverTheRowsOnEveryRun(Next(w, steps[0]), steps[1..], end);
    }
  }

  /** Clean syncs go on from a store whose markets cover its rows, and a rebuild gives it those of the head. */
  lemma CleanSyncGoesLive(w: World, maxRange: nat, answer: seq<Log>)
    requires CouldApply(w) && !w.db.st.paused && Allowed(w, SyncOnce(maxRange, answer, NoFault))
    ensures var after := AfterSync(w, maxRange, Steady(w.chain, answer, NoFault));
            && CouldApply(after) && after.chain == w.chain && w.chain != [] && !after.db.st.paused
            && !Detected(after.db.st, w.chain) && after.db.s.markets.Keys == MarketsAhead(w)
  {
    hide FoldFrom, SeededFrom, AnyThrows, Sort, RangeLogs, Logs, HashAt, Committed, Fold, SeedAll, SeedFirst,
      AppliedWith;
    var n := Steady(w.chain, answer, NoFault);
    SyncCouldApply(w, maxRange, answer, NoFault);
    CleanCheck(w, n);
    if SyncResult(w.db, maxRange, n).1.Advanced? {
      AdvancedCouldApply(w, maxRange, n);
    }
  }

  lemma {:induction false} CleanRunStaysLive(w: World, steps: seq<Step>, end: World)
    requires CouldApply(w) && !w.db.st.paused && Leads(w, steps, end) && CleanSyncs(steps)
    ensures CouldApply(end) && end.chain == w.chain && w.chain != []
    ensures if steps == [] then end == w
            else !Detected(end.db.st, w.chain) && end.db.s.markets.Keys == MarketsAhead(w)
    decreases |steps|
  {
    hide AfterSync, AppliedWith, Invariant, Detected, SeedAll;
    InvariantParts(w);
    if steps != [] {
      CleanSyncGoesLive(w, steps[0].maxRange, steps[0].answer);
      CleanRunStaysLive(Next(w, steps[0]), steps[1..], end);
    }
  }

  lemma HeldToTheHead(w: World)
    requires CouldApply(w) && !Detected(w.db.st, w.chain) && w.db.st.lastBlock == |w.chain| - 1
    ensures Applies(w.chain, w.db.s.markets.Keys)
  {
    hide AnyThrows, Logs, Fold;
    RowsAtHead(w);
    LogsOfEqualPrefixes(w.chain, w.synced, 0, w.high + 1);
  }

  /**
   * On a chain that stands still, at least as many clean syncs as it has blocks
   * bring the store to the head if and only if every log of the chain applies
   * with the markets the store has, or will have once it has rebuilt.
   */
  lemma SyncsRecoverIff(w: World, steps: seq<Step>, end: World)
    requires CouldApply(w) && !w.db.st.paused && Leads(w, steps, end) && CleanSyncs(steps) && |steps| >= |w.chain|
    ensures w.chain != []
    ensures end.db.st.lastBlock == |w.chain| - 1 <==> Applies(w.chain, MarketsAhead(w))
  {
    hide FoldFrom, AnyThrows, Logs, HashAt, WellFormed, Leads, CleanSyncs, AppliedWith, Applies, SeedAll;
    CleanRunStaysLive(w, steps, end);
    if Applies(w.chain, MarketsAhead(w)) {
      Converges(w, steps, end, MarketsAhead(w));
    } else if end.db.st.lastBlock == |w.chain| - 1 {
      HeldToTheHead(end);
      assert false;
    }
  }

  /** The markets the first k statements of seeding leave. */
  ghost function SeededBy(c: Blocks, k: nat): set<nat>
    requires c != [] && k <= 2 * |c[|c| - 1].getters|
  {
    SeedFirst(UNSEEDED, c[|c| - 1].getters, |c| - 1, k).markets.Keys
  }

  /** A rebuild whose seeding failed at its k-th statement, and the world it left. */
  ghost predicate FailsToReseed(w: World, maxRange: nat, answer: seq<Log>, k: nat, stuck: World) {
    && Invariant(w) && Detected(w.db.st, w.chain) && !w.db.st.paused
    && StopsSeeding(w.chain, SeedFails(k)) && Allowed(w, SyncOnce(maxRange, answer, SeedFails(k)))
    && stuck == Next(w, SyncOnce(maxRange, answer, SeedFails(k)))
  }

  /** From there, syncs alone recover if and only if the chain's logs need no market beyond those seeded. */
  lemma FailedReseedRecoversIff(w: World, maxRange: nat, answer: seq<Log>, k: nat, stuck: World, steps: seq<Step>,
                                end: World)
    requires FailsToReseed(w, maxRange, answer, k, stuck)
    requires Leads(stuck, steps, end) && CleanSyncs(steps) && |steps| >= |w.chain|
    ensures w.chain != [] && k <= 2 * |w.chain[|w.chain| - 1].getters|
    ensures end.db.st.lastBlock == |w.chain| - 1 <==> Applies(w.chain, SeededBy(w.chain, k))
  {
    hide Leads, CleanSyncs, Applies, AppliedWith, SeedFirst, SeedAll, AfterSync, FoldFrom, HashAt, Logs;
    FailedReseedIsReachable(w, maxRange, answer, k);
    NothingThrowsInNothing(stuck.db.s.markets.Keys, stuck.synced);
    SyncsRecoverIff(stuck, steps, end);
  }

  // ---------------------------------------------------------------- when a restart recovers

  /** Reading all markets again adds those the contract lists. */
  lemma RestartAddsListed(w: World)
    requires Invariant(w) && w.db.st.genesis == HashAt(w.chain, 0)
    ensures var after := Next(w, Restart(NoFault));
            && after.chain == w.chain && after.db.st == w.db.st
            && MarketsAhead(after) == MarketsAhead(w) + Listed(w.chain)
  {
    hide FoldFrom, Logs, HashAt, SeedFirst, Mismatch;
    var getters, head := w.chain[|w.chain| - 1].getters, |w.chain| - 1;
    SeedFirstMarkets(w.db.s, getters, head, 2 * |getters|);
    SeedFirstMarkets(UNSEEDED, getters, head, 2 * |getters|);
  }

  /**
   * After a restart that reads all markets again, enough clean syncs reach the
   * head if and only if every log of the chain applies with the markets the
   * store had and those the contract lists.
   */
  lemma RestartRecoversIff(w: World, steps: seq<Step>, end: World)
    requires CouldApply(w) && !w.db.st.paused && w.db.st.genesis == HashAt(w.chain, 0)
    requires Leads(Next(w, Restart(NoFault)), steps, end) && CleanSyncs(steps) && |steps| >= |w.chain|
    ensures w.chain != []
    ensures end.db.st.lastBlock == |w.chain| - 1 <==> Applies(w.chain, MarketsAhead(w) + Listed(w.chain))
  {
    hide FoldFrom, AnyThrows, Logs, HashAt, Leads, CleanSyncs, Applies, AppliedWith, SeedFirst, WellFormed, Listed,
      Invariant, Next, MarketsAhead;
    InvariantParts(w);
    RestartAddsListed(w);
    StepCouldApply(w, Restart(NoFault));
    SyncsRecoverIff(Next(w, Restart(NoFault)), steps, end);
  }

  // ---------------------------------------------------------------- every store a run leads to

  lemma StartCouldApply(chain: Blocks, exchange: string, chainId: nat)
    requires WellFormed(chain)
    ensures CouldApply(Start(chain, exchange, chainId))
  {
    hide AppliedWith;
    StartIsInvariant(chain, exchange, chainId);
    NothingThrowsInNothing(UNSEEDED.markets.Keys, chain);
  }

  /** From an empty store through any run to an unpaused one: clean syncs reach the head on the same condition. */
  lemma ReachedStoreRecoversIff(chain: Blocks, exchange: string, chainId: nat, history: seq<Step>, w: World,
                                steps: seq<Step>, end: World)
    requires WellFormed(chain) && Leads(Start(chain, exchange, chainId), history, w) && !w.db.st.paused
    requires Leads(w, steps, end) && CleanSyncs(steps) && |steps| >= |w.chain|
    ensures w.chain != []
    ensures end.db.st.lastBlock == |w.chain| - 1 <==> Applies(w.chain, MarketsAhead(w))
  {
    hide AppliedWith, Leads, Invariant, CleanSyncs, Applies, MarketsAhead, HashAt;
    StartCouldApply(chain, exchange, chainId);
    MarketsCoverTheRowsOnEveryRun(Start(chain, exchange, chainId), history, w);
    SyncsRecoverIff(w, steps, end);
  }

  /** Both cases of these conditions occur: one price set on the chain is enough to need the market. */
  lemma OnePriceNeedsItsMarket()
    ensures !Applies(REVERTED, {}) && Applies(REVERTED, {0})
  {
    hide FoldFrom, Logs, AnyThrows, LastPrice, UniqueKeys, WellFormed;
    PricedLogs();
    OneFolded(EMPTY, UNSEEDED, {}, FIFTY);
    OneFolded(EMPTY, UNSEEDED, {0}, FIFTY);
  }
}
