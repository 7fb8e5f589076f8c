/** What each of the indexer's working assumptions is for: what the store holds when one is broken. */
module Hazards {
  import opened Options
  import opened Store
  import opened Chain
  import opened Indexing
  import opened Runs

  /** The log is one the service marks in applied_logs. */
  predicate Mirrored(log: Log) { log.body.Known? && FromExpectedSource(log) }

  ghost function Keys(logs: seq<Log>): set<LogKey> {
    set log | log in logs && Mirrored(log) :: log.Key()
  }

  /** No two logs share (tx_hash, log_index), as on any real chain. */
  ghost predicate UniqueKeys(logs: seq<Log>) {
    forall i, j :: 0 <= i < j < |logs| ==> logs[i].Key() != logs[j].Key()
  }

  /** applied_logs holds exactly the keys of the mirrored logs that were folded in. */
  lemma {:induction false} AppliedIsKeys(d: Derived, logs: seq<Log>)
    ensures FoldFrom(d, logs).applied.Keys == d.applied.Keys + Keys(logs)
  {
    hide ApplyDerived, Mirrored;
    if logs != [] {
      var n := |logs| - 1;
      AppliedIsKeys(d, logs[..n]);
      ApplyMarks(FoldFrom(d, logs[..n]), logs[n]);
      assert logs == logs[..n] + [logs[n]];
      KeysConcat(logs[..n], [logs[n]]);
    }
  }

  lemma ApplyMarks(d: Derived, log: Log)
    ensures ApplyDerived(d, log).applied.Keys == d.applied.Keys + Keys([log])
  {
    hide DerivedAfter;
    if log.body.Known? {
      MarkIsKept(d.(applied := d.applied[log.Key() := log.block]), log);
    }
    assert Mirrored(log) ==> log in [log] && log.Key() in Keys([log]);
  }

  lemma MarkIsKept(d: Derived, log: Log)
    requires log.body.Known?
    ensures DerivedAfter(d, log, log.body.event).applied == d.applied
  {
  }

  lemma KeysConcat(a: seq<Log>, b: seq<Log>)
    ensures Keys(a + b) == Keys(a) + Keys(b)
  {
    forall k | k in Keys(a) + Keys(b) ensures k in Keys(a + b) {
      if k in Keys(a) {
        var log :| log in a && Mirrored(log) && log.Key() == k;
        assert log in a + b;
      } else {
        var log :| log in b && Mirrored(log) && log.Key() == k;
        assert log in a + b;
      }
    }
  }

  lemma {:induction false} UnmirroredLogsDoNothing(d: Derived, logs: seq<Log>)
    requires forall log :: log in logs ==> !Mirrored(log)
    ensures FoldFrom(d, logs) == d
  {
    if logs != [] {
      var n := |logs| - 1;
      assert logs[n] in logs && forall log :: log in logs[..n] ==> log in logs;
      UnmirroredLogsDoNothing(d, logs[..n]);
    }
  }

  lemma QuietCheck(db: Db, c: Blocks, n: Node)
    requires c != [] && n.seed == n.block == c && n.fault.NoFault? && !Detected(db.st, c)
    ensures AfterCheck(db, n) == (db, true)
  {
  }

  /**
   * One sync of at least one block, on a chain that stands still and that the
   * hash check does not object to, leaves the store `after`.
   */
  ghost predicate AdvancesBy(db: Db, c: Blocks, maxRange: nat, n: Node, after: Db) {
    && c != [] && n == Steady(c, n.answer, NoFault) && db.st.lastBlock >= -1 && maxRange >= 1
    && Answers(db, maxRange, n)
    && SyncResult(db, maxRange, n).1.Advanced? && SyncResult(db, maxRange, n).0 == after
  }

  ghost predicate Advances(db: Db, c: Blocks, after: Db) {
    WellFormed(c) && !Detected(db.st, c) && exists maxRange, n :: AdvancesBy(db, c, maxRange, n, after)
  }

  lemma AdvancesByParts(db: Db, c: Blocks, maxRange: nat, n: Node, after: Db)
    requires AdvancesBy(db, c, maxRange, n, after) && !Detected(db.st, c)
    ensures c != [] && db.st.lastBlock >= -1 && maxRange >= 1
    ensures n.head == n.block == n.seed == n.logs == n.tip == c && n.fault.NoFault?
    ensures SyncResult(db, maxRange, n).1.Advanced? && SyncResult(db, maxRange, n).0 == after
    ensures multiset(n.answer)
            == multiset(RangeLogs(c, db.st.lastBlock + 1, RangeEnd(db.st.lastBlock, c, maxRange)))
  {
    hide SyncResult, RangeLogs, RangeEnd, Detected;
    QuietCheck(db, c, n);
  }

  /** A committed sync that saw no reorg adds exactly the chain's own logs of its range. */
  lemma AdvanceWithoutRebuild(db: Db, c: Blocks, after: Db)
    requires Advances(db, c, after)
    ensures var to := after.st.lastBlock;
            && -1 <= db.st.lastBlock < to < |c|
            && after.d == FoldFrom(db.d, Logs(c, db.st.lastBlock + 1, to + 1))
            && after.s == SeededFrom(db.d, db.s, Logs(c, db.st.lastBlock + 1, to + 1))
            && after.st == db.st.(lastBlock := to, lastHash := Some(HashAt(c, to)))
            && !Detected(after.st, c)
  {
    hide AdvancesBy, WellFormed, Detected, Logs, FoldFrom, SeededFrom, HashAt;
    var maxRange, n :| AdvancesBy(db, c, maxRange, n, after);
    AdvanceShape(db, c, maxRange, n, after);
  }

  lemma AdvanceShape(db: Db, c: Blocks, maxRange: nat, n: Node, after: Db)
    requires WellFormed(c) && !Detected(db.st, c) && AdvancesBy(db, c, maxRange, n, after)
    ensures var to := after.st.lastBlock;
            && -1 <= db.st.lastBlock < to < |c|
            && after.d == FoldFrom(db.d, Logs(c, db.st.lastBlock + 1, to + 1))
            && after.s == SeededFrom(db.d, db.s, Logs(c, db.st.lastBlock + 1, to + 1))
            && after.st == db.st.(lastBlock := to, lastHash := Some(HashAt(c, to)))
            && !Detected(after.st, c)
  {
    hide *;
    AdvancesByParts(db, c, maxRange, n, after);
    MatchingHash(db.st, c);
    QuietCheck(db, c, n);
    AdvancedShape(db, maxRange, n);
    var to := RangeEnd(db.st.lastBlock, n.head, maxRange);
    CommittedShape(db, to, Sort(n.answer), n);
    SyncRangeIsCanonical(c, n.answer, db.st.lastBlock + 1, to);
  }

  lemma MatchingHash(st: StateRow, c: Blocks)
    ensures forall to: nat :: to < |c| ==> !Detected(st.(lastBlock := to, lastHash := Some(HashAt(c, to))), c)
  {
  }

  /** A run of such syncs, by the stores it goes through; syncs that changed nothing are not listed. */
  ghost predicate AdvancesAll(dbs: seq<Db>, c: Blocks) {
    |dbs| >= 2 && forall i :: 0 <= i < |dbs| - 1 ==> Advances(dbs[i], c, dbs[i + 1])
  }

  /** Together they add exactly the chain's own logs of all their blocks. */
  lemma {:induction false} AdvancesAddUp(dbs: seq<Db>, c: Blocks)
    requires AdvancesAll(dbs, c)
    ensures |dbs| >= 2
    ensures var first, last := dbs[0], dbs[|dbs| - 1];
            && -1 <= first.st.lastBlock < last.st.lastBlock < |c| && !Detected(last.st, c)
            && last.d == FoldFrom(first.d, Logs(c, first.st.lastBlock + 1, last.st.lastBlock + 1))
            && last.s == SeededFrom(first.d, first.s, Logs(c, first.st.lastBlock + 1, last.st.lastBlock + 1))
  {
    hide Advances, FoldFrom, SeededFrom, Logs, Detected;
    var n := |dbs| - 1;
    assert Advances(dbs[n - 1], c, dbs[n]);
    AdvanceWithoutRebuild(dbs[n - 1], c, dbs[n]);
    if n > 1 {
      AdvancesAddUp(dbs[..n], c);
      var from, mid, to := dbs[0].st.lastBlock, dbs[n - 1].st.lastBlock, dbs[n].st.lastBlock;
      LogsSplit(c, from + 1, mid + 1, to + 1);
      FoldConcat(dbs[0].d, Logs(c, from + 1, mid + 1), Logs(c, mid + 1, to + 1));
      SeededConcat(dbs[0].d, dbs[0].s, Logs(c, from + 1, mid + 1), Logs(c, mid + 1, to + 1));
    }
  }

  /** The store a committed sync up to the head leaves. */
  ghost function AtHead(db: Db, c: Blocks): Db
    requires c != [] && -1 <= db.st.lastBlock < |c|
  {
    var range := Logs(c, db.st.lastBlock + 1, |c|);
    Db(FoldFrom(db.d, range), SeededFrom(db.d, db.s, range),
       db.st.(lastBlock := |c| - 1, lastHash := Some(HashAt(c, |c| - 1))))
  }

  lemma RangeToHead(c: Blocks, last: int)
    requires -1 <= last < |c| - 1
    ensures RangeEnd(last, c, |c|) == |c| - 1
    ensures RangeLogs(c, last + 1, |c| - 1) == Logs(c, last + 1, |c|)
  {
    hide Logs;
  }

  lemma CommitToHead(db: Db, c: Blocks, n: Node)
    requires n.tip == c && n.fault.NoFault? && -1 <= db.st.lastBlock < |c| - 1
    requires !AnyThrows(db.d, db.s.markets.Keys, Logs(c, db.st.lastBlock + 1, |c|))
    ensures Committed(db, |c| - 1, Logs(c, db.st.lastBlock + 1, |c|), n) == Some(AtHead(db, c))
  {
    hide FoldFrom, SeededFrom, AnyThrows, HashAt, Logs;
  }

  lemma SyncOfRange(db: Db, maxRange: nat, n: Node, to: nat, after: Db)
    requires n.seed != [] && db.st.lastBlock >= -1 && maxRange >= 1 && !db.st.paused && n.fault.NoFault?
    requires AfterCheck(db, n) == (db, true) && RangeEnd(db.st.lastBlock, n.head, maxRange) == to
    requires |n.head| - 1 > db.st.lastBlock && Committed(db, to, Sort(n.answer), n) == Some(after)
    ensures SyncResult(db, maxRange, n).0 == after && SyncResult(db, maxRange, n).1.Advanced?
  {
    hide AfterCheck, Committed, Sort;
  }

  /** A live store below the head, with nothing to throw above it, can always be brought to the head by one sync. */
  lemma OneSyncReachesHead(db: Db, c: Blocks)
    requires WellFormed(c) && !Detected(db.st, c) && !db.st.paused && -1 <= db.st.lastBlock < |c| - 1
    requires !AnyThrows(db.d, db.s.markets.Keys, Logs(c, db.st.lastBlock + 1, |c|))
    ensures Advances(db, c, AtHead(db, c))
  {
    hide FoldFrom, SeededFrom, AnyThrows, Sort, HashAt, Logs, SyncResult, AfterCheck, Committed, RangeLogs, AtHead,
      WellFormed, Detected, RangeEnd;
    var range := Logs(c, db.st.lastBlock + 1, |c|);
    var n := Steady(c, range, NoFault);
    QuietCheck(db, c, n);
    RangeToHead(c, db.st.lastBlock);
    SyncRangeIsCanonical(c, range, db.st.lastBlock + 1, |c| - 1);
    CommitToHead(db, c, n);
    SyncOfRange(db, |c|, n, |c| - 1, AtHead(db, c));
    assert AdvancesBy(db, c, |c|, n, AtHead(db, c));
  }

  // ---------------------------------------------------------------- rewinding forward

  /** Skipping `gap` between `done` and `more` keeps the fold exactly when the gap mirrors nothing. */
  lemma SkippingIsSafeIff(done: seq<Log>, gap: seq<Log>, more: seq<Log>)
    requires UniqueKeys(done + gap + more)
    ensures FoldFrom(Fold(done), more) == Fold(done + gap + more) <==> Keys(gap) == {}
  {
    hide ApplyDerived, FoldFrom;
    FoldConcat(EMPTY, done + gap, more);
    FoldConcat(EMPTY, done, gap);
    if Keys(gap) == {} {
      forall log | log in gap ensures !Mirrored(log) {
        assert Mirrored(log) ==> log.Key() in Keys(gap);
      }
      UnmirroredLogsDoNothing(Fold(done), gap);
    } else {
      var k :| k in Keys(gap);
      GapKeyIsMissing(done, gap, more, k);
      AppliedIsKeys(EMPTY, done);
      AppliedIsKeys(Fold(done), more);
      AppliedIsKeys(EMPTY, done + gap + more);
      KeysConcat(done + gap, more);
      KeysConcat(done, gap);
    }
  }

  lemma GapKeyIsMissing(done: seq<Log>, gap: seq<Log>, more: seq<Log>, k: LogKey)
    requires UniqueKeys(done + gap + more) && k in Keys(gap)
    ensures k !in Keys(done) && k !in Keys(more)
  {
    var all := done + gap + more;
    var log :| log in gap && log.Key() == k;
    var g :| 0 <= g < |gap| && gap[g] == log;
    assert all[|done| + g].Key() == k;
    forall i | 0 <= i < |done| ensures done[i].Key() != k {
      assert all[i] == done[i];
    }
    forall i | 0 <= i < |more| ensures more[i].Key() != k {
      assert all[|done| + |gap| + i] == more[i];
    }
  }

  ghost function Rewound(db: Db, block: int): Db { db.(st := db.st.(lastBlock := block, lastHash := None)) }

  /**
   * `rewindTo` a block above everything applied, then any number of syncs: the
   * rows are the chain's exactly when the blocks jumped over mirror no log.
   */
  lemma ForwardRewindIsSafeIffNothingIsSkipped(w: World, block: nat, dbs: seq<Db>)
    requires Invariant(w) && Agree(w.chain, w.synced, w.high) && w.high < block
    requires UniqueKeys(Logs(w.chain, 0, |w.chain|)) && AdvancesAll(dbs, w.chain) && dbs[0] == Rewound(w.db, block)
    ensures var after := dbs[|dbs| - 1];
            && block < after.st.lastBlock < |w.chain|
            && (after.d == Fold(Logs(w.chain, 0, after.st.lastBlock + 1))
                <==> Keys(Logs(w.chain, w.high + 1, block + 1)) == {})
  {
    hide FoldFrom, Fold, AdvancesAll, HashAt, Keys, UniqueKeys, Logs, WellFormed, Detected;
    AdvancesAddUp(dbs, w.chain);
    LogsOfEqualPrefixes(w.chain, w.synced, 0, w.high + 1);
    SkippedBlocks(w.chain, w.high, block, dbs[|dbs| - 1].st.lastBlock);
  }

  lemma SkippedBlocks(c: Blocks, high: int, block: nat, to: nat)
    requires -1 <= high < block < to < |c| && UniqueKeys(Logs(c, 0, |c|))
    ensures FoldFrom(Fold(Logs(c, 0, high + 1)), Logs(c, block + 1, to + 1)) == Fold(Logs(c, 0, to + 1))
            <==> Keys(Logs(c, high + 1, block + 1)) == {}
  {
    hide FoldFrom, Fold, Logs, Keys;
    var done, gap, more := Logs(c, 0, high + 1), Logs(c, high + 1, block + 1), Logs(c, block + 1, to + 1);
    LogsSplit(c, 0, high + 1, block + 1);
    LogsSplit(c, 0, block + 1, to + 1);
    LogsSplit(c, 0, to + 1, |c|);
    assert done + gap + more == Logs(c, 0, |c|)[..|done + gap + more|];
    SkippingIsSafeIff(done, gap, more);
  }

  /** A chain whose block 1 opens an account and whose block 2 is empty. */
  const GENESIS := Block([], [], 0)
  const OPENED := Log("0xt1", 0, 1, Exchange, Known(AccountInitialized("0xaa")))
  const OPENED_IN_ONE := [GENESIS, Block([OPENED], [], 1), Block([], [], 2)]

  lemma {:induction false} LogsStep(c: Blocks, lo: nat, hi: nat)
    requires lo < hi <= |c|
    ensures Logs(c, lo, hi) == Logs(c, lo, hi - 1) + Followed(c[hi - 1].logs)
    ensures Logs(c, lo, lo) == []
  {
  }

  lemma OneFollowed(log: Log)
    ensures Followed([]) == []
    ensures log.source != Other ==> Followed([log]) == [log]
  {
    assert [log][..0] == [];
  }

  lemma OneFolded(d: Derived, s: Seeded, markets: set<nat>, log: Log)
    ensures FoldFrom(d, [log]) == ApplyDerived(d, log) && SeededFrom(d, s, [log]) == ApplySeeded(d, s, log)
    ensures AnyThrows(d, markets, [log]) <==> Throws(d, markets, log)
    ensures FoldFrom(d, []) == d && SeededFrom(d, s, []) == s && !AnyThrows(d, markets, [])
  {
    hide ApplyDerived, ApplySeeded, Throws;
    assert [log][..0] == [];
    if Throws(d, markets, log) {
      assert ThrowsAt(d, markets, [log], 0);
    }
  }

  ghost function SyncedTo(c: Blocks, height: nat): World
    requires height < |c|
  {
    World(c, Db(Fold(Logs(c, 0, height + 1)), UNSEEDED,
                FreshDb("0xex", 31337, HashAt(c, 0)).st.(lastBlock := height, lastHash := Some(HashAt(c, height)))),
          c, height, -1)
  }

  lemma SyncedToIsInvariant(c: Blocks, height: nat)
    requires WellFormed(c) && height < |c|
    ensures Invariant(SyncedTo(c, height)) && !Detected(SyncedTo(c, height).db.st, c)
  {
    hide FoldFrom, Logs, HashAt;
  }

  lemma OpenedInOneLogs()
    ensures var c := OPENED_IN_ONE; WellFormed(c) && Logs(c, 0, 1) == [] && Logs(c, 1, 2) == [OPENED]
    ensures var c := OPENED_IN_ONE; Logs(c, 0, 3) == [OPENED] && Logs(c, 2, 3) == [] && UniqueKeys(Logs(c, 0, 3))
  {
    var c := OPENED_IN_ONE;
    OneFollowed(OPENED);
    LogsStep(c, 0, 1);
    LogsStep(c, 0, 2);
    LogsStep(c, 0, 3);
    LogsStep(c, 1, 2);
    LogsStep(c, 2, 3);
  }

  lemma SkippedRows()
    ensures Fold([]) == EMPTY && FoldFrom(EMPTY, []) == EMPTY && !AnyThrows(EMPTY, {}, [])
    ensures "0xaa" in Fold([OPENED]).accounts
  {
    OneFolded(EMPTY, UNSEEDED, {}, OPENED);
  }

  /** An instance: synced to block 0, rewound to block 1, then synced: the account of block 1 is missing for good. */
  lemma ForwardRewindLosesAnAccount()
    ensures var w := SyncedTo(OPENED_IN_ONE, 0);
            var after := AtHead(Rewound(w.db, 1), OPENED_IN_ONE);
            && Invariant(w) && Agree(w.chain, w.synced, w.high) && w.high < 1
            && UniqueKeys(Logs(w.chain, 0, |w.chain|)) && AdvancesAll([Rewound(w.db, 1), after], w.chain)
            && "0xaa" !in after.d.accounts && "0xaa" in Fold(Logs(OPENED_IN_ONE, 0, 3)).accounts
  {
    hide Logs, Fold, FoldFrom, SeededFrom, AnyThrows, HashAt, Advances, WellFormed;
    var c, w := OPENED_IN_ONE, SyncedTo(OPENED_IN_ONE, 0);
    OpenedInOneLogs();
    SkippedRows();
    SyncedToIsInvariant(c, 0);
    assert w.db.s.markets.Keys == {};
    OneSyncReachesHead(Rewound(w.db, 1), c);
    assert AdvancesAll([Rewound(w.db, 1), AtHead(Rewound(w.db, 1), c)], c);
  }

  // ---------------------------------------------------------------- a reorg the hash check cannot see

  /** The rows are those of blocks 0 .. high of `synced`, whatever the chain has become since. */
  ghost predicate Holds(w: World) {
    && WellFormed(w.synced) && -1 <= w.db.st.lastBlock <= w.high < |w.synced|
    && w.db.d == Fold(Logs(w.synced, 0, w.high + 1))
  }

  /**
   * The chain has become `c`, which shares with the old one the blocks up to
   * `fork` and perhaps no more, and the kept hash does not show it: it was
   * nulled by a rewind, or stands below the blocks that changed. The service
   * then syncs back to where it was, or to the head if that is lower.
   */
  ghost predicate SyncsBack(w: World, c: Blocks, fork: int, dbs: seq<Db>) {
    && Holds(w) && -1 <= fork <= w.db.st.lastBlock && Agree(c, w.synced, fork) && AdvancesAll(dbs, c)
    && dbs[0] == w.db && (dbs[|dbs| - 1].st.lastBlock >= w.high || dbs[|dbs| - 1].st.lastBlock == |c| - 1)
  }

  /** The logs of the blocks above the fork that are gone from the chain. */
  ghost function Lost(w: World, fork: int): seq<Log>
    requires -1 <= fork <= w.high < |w.synced|
  {
    Logs(w.synced, fork + 1, w.high + 1)
  }

  /** The new chain's logs of the blocks above the fork that count as indexed and are never read. */
  ghost function Unread(w: World, c: Blocks, fork: int): seq<Log>
    requires -1 <= fork <= w.db.st.lastBlock < |c|
  {
    Logs(c, fork + 1, w.db.st.lastBlock + 1)
  }

  /** The new chain's logs that the syncs up to `to` read. */
  ghost function Read(w: World, c: Blocks, to: int): seq<Log>
    requires -1 <= w.db.st.lastBlock <= to < |c|
  {
    Logs(c, w.db.st.lastBlock + 1, to + 1)
  }

  /** The logs of both chains up to the fork. */
  ghost function Shared(c: Blocks, fork: int): seq<Log>
    requires -1 <= fork < |c|
  {
    Logs(c, 0, fork + 1)
  }

  /** What the syncs leave, and what they should have left, over what the two chains share. */
  lemma SyncedBackRows(w: World, c: Blocks, fork: int, dbs: seq<Db>)
    requires SyncsBack(w, c, fork, dbs)
    ensures |dbs| >= 2
    ensures var after := dbs[|dbs| - 1];
            && -1 <= fork <= w.db.st.lastBlock <= w.high < |w.synced| && w.db.st.lastBlock < after.st.lastBlock < |c|
            && !Detected(after.st, c)
            && after.d == FoldFrom(Fold(Shared(c, fork) + Lost(w, fork)), Read(w, c, after.st.lastBlock))
            && Logs(c, 0, after.st.lastBlock + 1)
               == Shared(c, fork) + (Unread(w, c, fork) + Read(w, c, after.st.lastBlock))
            && Logs(w.synced, 0, w.high + 1) == Shared(c, fork) + Lost(w, fork)
  {
    hide *;
    SyncsBackParts(w, c, fork, dbs);
    AdvancesAddUp(dbs, c);
    ChangedLogs(w, c, fork, dbs[|dbs| - 1].st.lastBlock);
  }

  lemma SyncsBackParts(w: World, c: Blocks, fork: int, dbs: seq<Db>)
    requires SyncsBack(w, c, fork, dbs)
    ensures -1 <= fork <= w.db.st.lastBlock <= w.high < |w.synced| && Agree(c, w.synced, fork)
    ensures w.db.d == Fold(Logs(w.synced, 0, w.high + 1))
    ensures AdvancesAll(dbs, c) && |dbs| >= 2 && dbs[0] == w.db
  {
    hide Logs, FoldFrom, WellFormed, Agree, Advances;
  }

  lemma ChangedLogs(w: World, c: Blocks, fork: int, to: int)
    requires -1 <= fork <= w.db.st.lastBlock <= w.high < |w.synced| && w.db.st.lastBlock < to < |c|
    requires Agree(c, w.synced, fork)
    ensures Logs(w.synced, 0, w.high + 1) == Shared(c, fork) + Lost(w, fork)
    ensures Logs(c, 0, to + 1) == Shared(c, fork) + (Unread(w, c, fork) + Read(w, c, to))
    ensures Read(w, c, to) == Logs(c, w.db.st.lastBlock + 1, to + 1)
  {
    hide Logs;
    LogsOfEqualPrefixes(c, w.synced, 0, fork + 1);
    LogsSplit(w.synced, 0, fork + 1, w.high + 1);
    LogsSplit(c, 0, fork + 1, to + 1);
    LogsSplit(c, fork + 1, w.db.st.lastBlock + 1, to + 1);
  }

  /**
   * After that, applied_logs has the new chain's keys exactly when every log
   * that was lost is on the new chain too and every log that was never read
   * had been marked before or is read under the same key after all; what it
   * means for the other tables is the subject of HiddenReorgs.
   */
  lemma AppliedKeysAgreeIffNothingIsLost(w: World, c: Blocks, fork: int, dbs: seq<Db>)
    requires SyncsBack(w, c, fork, dbs)
    ensures var after := dbs[|dbs| - 1];
            && -1 <= fork <= w.db.st.lastBlock <= w.high < |w.synced| && w.db.st.lastBlock < after.st.lastBlock < |c|
            && (after.d.applied.Keys == Fold(Logs(c, 0, after.st.lastBlock + 1)).applied.Keys
                <==> && Keys(Lost(w, fork)) <= Keys(Logs(c, 0, after.st.lastBlock + 1))
                     && Keys(Unread(w, c, fork))
                        <= Keys(Logs(w.synced, 0, w.high + 1)) + Keys(Read(w, c, after.st.lastBlock)))
  {
    hide FoldFrom, Fold, Keys, Logs, SyncsBack, Lost, Unread, Read, Shared;
    SyncedBackRows(w, c, fork, dbs);
    KeysOfBoth(Shared(c, fork), Lost(w, fork), Unread(w, c, fork), Read(w, c, dbs[|dbs| - 1].st.lastBlock));
  }

  lemma KeysOfBoth(done: seq<Log>, lost: seq<Log>, unread: seq<Log>, read: seq<Log>)
    ensures FoldFrom(Fold(done + lost), read).applied.Keys == Fold(done + (unread + read)).applied.Keys
            <==> Keys(lost) <= Keys(done + (unread + read)) && Keys(unread) <= Keys(done + lost) + Keys(read)
  {
    hide FoldFrom, Keys;
    KeysConcat(done, lost);
    KeysConcat(done, unread + read);
    KeysConcat(unread, read);
    AppliedIsKeys(EMPTY, done + lost);
    AppliedIsKeys(Fold(done + lost), read);
    AppliedIsKeys(EMPTY, done + (unread + read));
  }

  // ---------------------------------------------------------------- a chain that moves during one sync

  const WITH_ACCOUNT := [GENESIS, Block([OPENED], [], 1)]
  const WITHOUT_ACCOUNT := [GENESIS, Block([], [], 1)]

  /** A two-block instance: the store reports itself level with a chain that never opened the account it lists. */
  lemma ChainMustStandStillDuringSync(exchange: string, chainId: nat)
    ensures var n := Node(WITH_ACCOUNT, WITH_ACCOUNT, WITH_ACCOUNT, WITH_ACCOUNT, WITHOUT_ACCOUNT, [OPENED], NoFault);
            var after := SyncResult(Start(WITH_ACCOUNT, exchange, chainId).db, 2000, n).0;
            after.st.lastBlock == 1 && after.st.lastHash == Some(HashAt(WITHOUT_ACCOUNT, 1))
            && "0xaa" in after.d.accounts && "0xaa" !in Fold(Logs(WITHOUT_ACCOUNT, 0, 2)).accounts
  {
    var db := Start(WITH_ACCOUNT, exchange, chainId).db;
    assert Sort([OPENED]) == Insert([], OPENED) == [OPENED];
    assert FoldFrom(EMPTY, [OPENED]) == ApplyDerived(FoldFrom(EMPTY, []), OPENED);
    assert !ThrowsAt(db.d, db.s.markets.Keys, [OPENED], 0);
    assert Logs(WITHOUT_ACCOUNT, 0, 1) == Logs(WITHOUT_ACCOUNT, 0, 0) + Followed(GENESIS.logs) == [];
    assert Logs(WITHOUT_ACCOUNT, 0, 2) == Logs(WITHOUT_ACCOUNT, 0, 1) + Followed([]) == [];
  }
}
