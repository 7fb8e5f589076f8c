/** What the rows are worth after a reorg the hash check cannot see, and after a chain that moved during a sync. */
module HiddenReorgs {
  import opened Options
  import opened Store
  import opened Chain
  import opened Indexing
  import opened Runs
  import opened Hazards
  import opened Rows

  // ---------------------------------------------------------------- between two syncs

  /** On every disturbed row the lost logs and then those read end where the new chain's own logs end. */
  ghost predicate IsHarmless(w: World, c: Blocks, fork: int, to: nat)
    requires -1 <= fork <= w.db.st.lastBlock <= w.high < |w.synced| && w.db.st.lastBlock < to < |c|
  {
    RowsReplay(Shared(c, fork), Lost(w, fork), Unread(w, c, fork), Read(w, c, to))
  }

  lemma PrefixHasUniqueKeys(c: Blocks, hi: nat)
    requires hi <= |c| && UniqueKeys(Logs(c, 0, |c|))
    ensures UniqueKeys(Logs(c, 0, hi))
  {
    hide Logs;
    LogsSplit(c, 0, hi, |c|);
    var all := Logs(c, 0, |c|);
    assert forall i :: 0 <= i < |Logs(c, 0, hi)| ==> all[i] == Logs(c, 0, hi)[i];
  }

  ghost predicate KeysAreUnique(w: World, c: Blocks)
    requires -1 <= w.high < |w.synced|
  {
    UniqueKeys(Logs(w.synced, 0, w.high + 1)) && UniqueKeys(Logs(c, 0, |c|))
  }

  /**
   * Once the service has synced back after a reorg it could not see, however
   * deep, every table is the new chain's if and only if, on each row that a
   * lost log, an unread log or a namesake of a lost log writes, the lost logs
   * followed by those read end where the new chain's own logs end.
   */
  lemma HiddenReorgIsHarmlessIff(w: World, c: Blocks, fork: int, dbs: seq<Db>)
    requires SyncsBack(w, c, fork, dbs) && KeysAreUnique(w, c)
    ensures var after := dbs[|dbs| - 1];
            && -1 <= fork <= w.db.st.lastBlock <= w.high < |w.synced| && w.db.st.lastBlock < after.st.lastBlock < |c|
            && (after.d == Fold(Logs(c, 0, after.st.lastBlock + 1)) <==> IsHarmless(w, c, fork, after.st.lastBlock))
  {
    hide FoldFrom, Fold, Logs, SyncsBack, RowsReplay, UniqueKeys, Lost, Unread, Read, Shared;
    SyncedBackRows(w, c, fork, dbs);
    var to := dbs[|dbs| - 1].st.lastBlock;
    PrefixHasUniqueKeys(c, to + 1);
    RowsAgreeIff(Shared(c, fork), Lost(w, fork), Unread(w, c, fork), Read(w, c, to));
  }

  /**
   * Enough for that: the blocks never read mirror nothing new, and what the
   * lost blocks mirrored is what the new ones mirror first.
   */
  lemma HarmlessIfMirroredFirst(w: World, c: Blocks, fork: int, dbs: seq<Db>)
    requires SyncsBack(w, c, fork, dbs)
    ensures var after := dbs[|dbs| - 1];
            && -1 <= fork <= w.db.st.lastBlock <= w.high < |w.synced| && w.db.st.lastBlock < after.st.lastBlock < |c|
            && ((forall log :: log in Unread(w, c, fork) ==> Covered(w.db.d, log))
                && MirroredOf(Lost(w, fork)) <= MirroredOf(Unread(w, c, fork) + Read(w, c, after.st.lastBlock))
                ==> after.d == Fold(Logs(c, 0, after.st.lastBlock + 1)))
  {
    hide FoldFrom, Fold, Logs, SyncsBack, MirroredOf, Covered, Lost, Unread, Read, Shared;
    SyncsBackParts(w, c, fork, dbs);
    SyncedBackRows(w, c, fork, dbs);
    var unread, read := Unread(w, c, fork), Read(w, c, dbs[|dbs| - 1].st.lastBlock);
    if && (forall log :: log in unread ==> Covered(w.db.d, log))
       && MirroredOf(Lost(w, fork)) <= MirroredOf(unread + read)
    {
      ReplayThenContinue(w.db.d, UNSEEDED, unread, read);
      PrefixIsEnough(Shared(c, fork), Lost(w, fork), unread + read);
    }
  }

  /** So a replay of a chain that has not changed always is harmless. */
  lemma PlainReplayIsHarmless(w: World, fork: int, dbs: seq<Db>)
    requires SyncsBack(w, w.chain, fork, dbs) && Agree(w.chain, w.synced, w.high) && KeysAreUnique(w, w.chain)
    ensures -1 <= fork <= w.db.st.lastBlock <= w.high < |w.synced|
    ensures w.db.st.lastBlock < dbs[|dbs| - 1].st.lastBlock < |w.chain|
    ensures IsHarmless(w, w.chain, fork, dbs[|dbs| - 1].st.lastBlock)
  {
    hide FoldFrom, Fold, SyncsBack, Logs, IsHarmless, UniqueKeys;
    HiddenReorgIsHarmlessIff(w, w.chain, fork, dbs);
    PlainReplayIsExact(w, fork, dbs);
  }

  lemma PlainReplayIsExact(w: World, fork: int, dbs: seq<Db>)
    requires SyncsBack(w, w.chain, fork, dbs) && Agree(w.chain, w.synced, w.high)
    ensures w.high <= dbs[|dbs| - 1].st.lastBlock < |w.chain|
    ensures dbs[|dbs| - 1].d == Fold(Logs(w.chain, 0, dbs[|dbs| - 1].st.lastBlock + 1))
  {
    hide FoldFrom, Fold, AdvancesAll, Logs, WellFormed, Detected;
    AdvancesAddUp(dbs, w.chain);
    LogsOfEqualPrefixes(w.chain, w.synced, 0, w.high + 1);
    RangeExtendsFold(w.chain, w.high, w.db.st.lastBlock, dbs[|dbs| - 1].st.lastBlock);
  }

  /** Needed for that: every log the lost blocks mirrored is on the new chain, in the same block. */
  lemma HarmlessOnlyIfNothingMoved(w: World, c: Blocks, fork: int, dbs: seq<Db>, log: Log)
    requires SyncsBack(w, c, fork, dbs) && KeysAreUnique(w, c)
    requires -1 <= fork <= w.high < |w.synced| && log in Lost(w, fork) && Mirrored(log)
    ensures var after := dbs[|dbs| - 1];
            && fork <= w.db.st.lastBlock < after.st.lastBlock < |c|
            && (after.d == Fold(Logs(c, 0, after.st.lastBlock + 1))
                ==> StaysInBlock(log, Logs(c, fork + 1, after.st.lastBlock + 1)))
  {
    hide FoldFrom, Fold, Logs, SyncsBack, Mirrored, StaysInBlock, UniqueKeys;
    SyncedBackRows(w, c, fork, dbs);
    var to := dbs[|dbs| - 1].st.lastBlock;
    LogsSplit(c, fork + 1, w.db.st.lastBlock + 1, to + 1);
    if dbs[|dbs| - 1].d == Fold(Logs(c, 0, to + 1)) {
      NothingMovedIfRowsAgree(Shared(c, fork), Lost(w, fork), Unread(w, c, fork), Read(w, c, to), log);
    }
  }

  /** Needed too: every log of the blocks never read had been mirrored from the old chain, in the same block. */
  lemma HarmlessOnlyIfNothingMissed(w: World, c: Blocks, fork: int, dbs: seq<Db>, log: Log)
    requires SyncsBack(w, c, fork, dbs) && KeysAreUnique(w, c)
    requires -1 <= fork <= w.db.st.lastBlock <= w.high < |w.synced| && w.db.st.lastBlock < |c|
    requires log in Unread(w, c, fork) && Mirrored(log)
    ensures var after := dbs[|dbs| - 1];
            && w.db.st.lastBlock < after.st.lastBlock < |c|
            && (after.d == Fold(Logs(c, 0, after.st.lastBlock + 1)) ==> StaysInBlock(log, Lost(w, fork)))
  {
    hide FoldFrom, Fold, Logs, SyncsBack, Mirrored, StaysInBlock, UniqueKeys;
    SyncedBackRows(w, c, fork, dbs);
    var to := dbs[|dbs| - 1].st.lastBlock;
    PrefixHasUniqueKeys(c, to + 1);
    if dbs[|dbs| - 1].d == Fold(Logs(c, 0, to + 1)) {
      NothingMissedIfRowsAgree(Shared(c, fork), Lost(w, fork), Unread(w, c, fork), Read(w, c, to), log);
    }
  }

  /** An instance: the transaction that opened the account was mined again one block later. */
  const MOVED := Log("0xt1", 0, 2, Exchange, Known(AccountInitialized("0xaa")))
  const OPENED_LATER := [GENESIS, Block([], [], 1), Block([MOVED], [], 2)]

  ghost function RewoundBelowAccount(): World {
    var w := SyncedTo(WITH_ACCOUNT, 1);
    w.(db := Rewound(w.db, 0))
  }

  lemma MovedLogs()
    ensures WellFormed(OPENED_LATER) && WellFormed(WITH_ACCOUNT)
    ensures Logs(WITH_ACCOUNT, 0, 2) == Logs(WITH_ACCOUNT, 1, 2) == [OPENED]
    ensures Logs(OPENED_LATER, 0, 3) == Logs(OPENED_LATER, 1, 3) == [MOVED]
    ensures UniqueKeys([OPENED]) && UniqueKeys([MOVED])
  {
    var a, b := WITH_ACCOUNT, OPENED_LATER;
    OneFollowed(OPENED);
    OneFollowed(MOVED);
    LogsStep(a, 0, 1);
    LogsStep(a, 0, 2);
    LogsStep(a, 1, 2);
    LogsStep(b, 0, 1);
    LogsStep(b, 0, 2);
    LogsStep(b, 0, 3);
    LogsStep(b, 1, 2);
    LogsStep(b, 1, 3);
  }

  lemma MovedRows()
    ensures var early, late := Fold([OPENED]), Fold([MOVED]);
            && FoldFrom(early, [MOVED]) == early && !AnyThrows(early, {}, [MOVED])
            && early.applied.Keys == late.applied.Keys
            && "0xaa" in early.accounts && early.accounts["0xaa"].createdBlock == 1
            && "0xaa" in late.accounts && late.accounts["0xaa"].createdBlock == 2
  {
    OneFolded(EMPTY, UNSEEDED, {}, OPENED);
    OneFolded(EMPTY, UNSEEDED, {}, MOVED);
    OneFolded(Fold([OPENED]), UNSEEDED, {}, MOVED);
  }

  /** No key is lost, and still the account keeps the block it was opened in on the chain that is gone. */
  lemma MovedTransactionKeepsItsOldBlock()
    ensures var w, c := RewoundBelowAccount(), OPENED_LATER;
            var after := AtHead(w.db, c);
            && SyncsBack(w, c, 0, [w.db, after]) && KeysAreUnique(w, c)
            && after.d.applied.Keys == Fold(Logs(c, 0, 3)).applied.Keys
            && "0xaa" in after.d.accounts && after.d.accounts["0xaa"].createdBlock == 1
            && "0xaa" in Fold(Logs(c, 0, 3)).accounts && Fold(Logs(c, 0, 3)).accounts["0xaa"].createdBlock == 2
  {
    hide Logs, Fold, FoldFrom, SeededFrom, AnyThrows, HashAt, Advances, WellFormed;
    var w, c := RewoundBelowAccount(), OPENED_LATER;
    MovedLogs();
    MovedRows();
    SyncedToIsInvariant(WITH_ACCOUNT, 1);
    assert c[..1] == WITH_ACCOUNT[..1] == [GENESIS];
    assert w.db.s.markets.Keys == {};
    OneSyncReachesHead(w.db, c);
    assert AdvancesAll([w.db, AtHead(w.db, c)], c);
  }

  /** The chain forgot the account and was rebuilt from block 1 on, while the store stood rewound to block 1. */
  const FORGOTTEN := [GENESIS, Block([], [], 7), Block([], [], 8), Block([], [], 9)]

  ghost function RewoundAboveFork(): World {
    var w := SyncedTo(OPENED_IN_ONE, 2);
    w.(db := Rewound(w.db, 1))
  }

  lemma ForgottenLogs()
    ensures var c := FORGOTTEN; WellFormed(c) && Logs(c, 0, 1) == Logs(c, 0, 4) == Logs(c, 2, 4) == []
  {
    OneFollowed(OPENED);
    LogsStep(FORGOTTEN, 0, 1);
    LogsStep(FORGOTTEN, 0, 2);
    LogsStep(FORGOTTEN, 0, 3);
    LogsStep(FORGOTTEN, 0, 4);
    LogsStep(FORGOTTEN, 2, 3);
    LogsStep(FORGOTTEN, 2, 4);
  }

  /** An instance below the rewound block: the store is at the head and lists an account the chain never opened. */
  lemma ForgottenAccountStays()
    ensures var w, c := RewoundAboveFork(), FORGOTTEN;
            var after := AtHead(w.db, c);
            && SyncsBack(w, c, 0, [w.db, after]) && KeysAreUnique(w, c) && !Agree(c, w.synced, w.db.st.lastBlock)
            && "0xaa" in after.d.accounts && Fold(Logs(c, 0, 4)).accounts == map[]
  {
    hide Logs, Fold, FoldFrom, SeededFrom, AnyThrows, HashAt, Advances, WellFormed;
    var w, c := RewoundAboveFork(), FORGOTTEN;
    OpenedInOneLogs();
    ForgottenLogs();
    SkippedRows();
    SyncedToIsInvariant(OPENED_IN_ONE, 2);
    OneFolded(w.db.d, w.db.s, {}, OPENED);
    assert c[..1] == OPENED_IN_ONE[..1] == [GENESIS];
    assert c[..2][1] != OPENED_IN_ONE[..2][1];
    assert w.db.s.markets.Keys == {};
    OneSyncReachesHead(w.db, c);
    assert AdvancesAll([w.db, AtHead(w.db, c)], c);
  }

  // ---------------------------------------------------------------- during one sync

  /** A call whose logs come from the store's own chain and whose tip comes from another one. */
  ghost predicate MovesBeforeTip(w: World, b: Blocks, maxRange: nat, n: Node, to: nat) {
    && Invariant(w) && !Detected(w.db.st, w.chain) && WellFormed(b) && maxRange >= 1
    && n == Node(w.chain, w.chain, w.chain, w.chain, b, n.answer, NoFault) && Answers(w.db, maxRange, n)
    && SyncResult(w.db, maxRange, n).1.Advanced? && to == RangeEnd(w.db.st.lastBlock, w.chain, maxRange) < |b|
  }

  /**
   * The logs come from one chain and the tip's hash from another: the store
   * then holds the first chain's rows under the second chain's hash, and no
   * later check can tell.
   */
  lemma LogsAndTipFromDifferentChains(w: World, b: Blocks, maxRange: nat, n: Node, to: nat)
    requires MovesBeforeTip(w, b, maxRange, n, to)
    ensures w.high < |w.chain| && w.db.st.lastBlock < to < |w.chain| && to < |b|
    ensures var after := SyncResult(w.db, maxRange, n).0;
            && after.d == Fold(Logs(w.chain, 0, Higher(w.high, to) + 1))
            && after.st.lastBlock == to && after.st.lastHash == Some(HashAt(b, to)) && !Detected(after.st, b)
  {
    hide AnyThrows, Sort, RangeLogs, Logs, SeededFrom, FoldFrom, HashAt;
    QuietCheck(w.db, w.chain, n);
    AdvancedShape(w.db, maxRange, n);
    CommittedShape(w.db, to, Sort(n.answer), n);
    SyncRangeIsCanonical(w.chain, n.answer, w.db.st.lastBlock + 1, to);
    LogsOfEqualPrefixes(w.chain, w.synced, 0, w.high + 1);
    RangeExtendsFold(w.chain, w.high, w.db.st.lastBlock, to);
  }

  /**
   * The rows are the second chain's all the same if and only if, above any
   * block the two chains share, both chains' logs end at the same rows.
   */
  lemma MovedTipIsHarmlessIff(w: World, b: Blocks, maxRange: nat, n: Node, to: nat, fork: int)
    requires MovesBeforeTip(w, b, maxRange, n, to) && -1 <= fork <= to && Agree(w.chain, b, fork)
    requires UniqueKeys(Logs(w.chain, 0, |w.chain|)) && UniqueKeys(Logs(b, 0, |b|))
    ensures w.high < |w.chain| && to < |w.chain| && to < |b|
    ensures SyncResult(w.db, maxRange, n).0.d == Fold(Logs(b, 0, to + 1))
            <==> SameReplay(Logs(b, 0, fork + 1), Logs(w.chain, fork + 1, Higher(w.high, to) + 1),
                            Logs(b, fork + 1, to + 1))
  {
    hide FoldFrom, Fold, Logs, WellFormed, Detected, UniqueKeys, SyncResult, SameReplay, MovesBeforeTip;
    LogsAndTipFromDifferentChains(w, b, maxRange, n, to);
    var top := Higher(w.high, to);
    LogsOfEqualPrefixes(w.chain, b, 0, fork + 1);
    LogsSplit(w.chain, 0, fork + 1, top + 1);
    LogsSplit(b, 0, fork + 1, to + 1);
    PrefixHasUniqueKeys(w.chain, top + 1);
    PrefixHasUniqueKeys(b, to + 1);
    HistoriesAgreeIff(Logs(b, 0, fork + 1), Logs(w.chain, fork + 1, top + 1), Logs(b, fork + 1, to + 1));
  }

  /** Enough for that: both chains mirror the same logs above the fork. */
  lemma MovedTipIsHarmlessIfMirroredAlike(w: World, b: Blocks, maxRange: nat, n: Node, to: nat, fork: int)
    requires MovesBeforeTip(w, b, maxRange, n, to) && -1 <= fork <= to && Agree(w.chain, b, fork)
    ensures w.high < |w.chain| && to < |w.chain| && to < |b|
    ensures MirroredOf(Logs(w.chain, fork + 1, Higher(w.high, to) + 1)) == MirroredOf(Logs(b, fork + 1, to + 1))
            ==> SyncResult(w.db, maxRange, n).0.d == Fold(Logs(b, 0, to + 1))
  {
    hide FoldFrom, Fold, Logs, WellFormed, Detected, SyncResult, MovesBeforeTip, MirroredOf;
    LogsAndTipFromDifferentChains(w, b, maxRange, n, to);
    var top := Higher(w.high, to);
    LogsOfEqualPrefixes(w.chain, b, 0, fork + 1);
    LogsSplit(w.chain, 0, fork + 1, top + 1);
    LogsSplit(b, 0, fork + 1, to + 1);
    if MirroredOf(Logs(w.chain, fork + 1, top + 1)) == MirroredOf(Logs(b, fork + 1, to + 1)) {
      MirroredAlike(Logs(b, 0, fork + 1), Logs(w.chain, fork + 1, top + 1), Logs(b, fork + 1, to + 1));
    }
  }

  /** Needed for that: above the fork both mirror the same transactions' logs, in the same blocks and order. */
  lemma MovedTipIsHarmlessOnlyIfMarkedAlike(w: World, b: Blocks, maxRange: nat, n: Node, to: nat, fork: int)
    requires MovesBeforeTip(w, b, maxRange, n, to) && -1 <= fork <= to && Agree(w.chain, b, fork)
    requires UniqueKeys(Logs(w.chain, 0, |w.chain|)) && UniqueKeys(Logs(b, 0, |b|))
    ensures w.high < |w.chain| && to < |w.chain| && to < |b|
    ensures SyncResult(w.db, maxRange, n).0.d == Fold(Logs(b, 0, to + 1))
            ==> Marks(Logs(w.chain, fork + 1, Higher(w.high, to) + 1)) == Marks(Logs(b, fork + 1, to + 1))
  {
    hide FoldFrom, Fold, Logs, WellFormed, Detected, SyncResult, MovesBeforeTip, Marks, UniqueKeys;
    LogsAndTipFromDifferentChains(w, b, maxRange, n, to);
    ChainsAreWellFormed(w, b, maxRange, n, to);
    var top := Higher(w.high, to);
    LogsOfEqualPrefixes(w.chain, b, 0, fork + 1);
    LogsSplit(w.chain, 0, fork + 1, top + 1);
    LogsSplit(b, 0, fork + 1, to + 1);
    PrefixHasUniqueKeys(w.chain, top + 1);
    PrefixHasUniqueKeys(b, to + 1);
    LogsOrdered(w.chain, fork + 1, top + 1);
    LogsOrdered(b, fork + 1, to + 1);
    if SyncResult(w.db, maxRange, n).0.d == Fold(Logs(b, 0, to + 1)) {
      MarkedAlike(Logs(b, 0, fork + 1), Logs(w.chain, fork + 1, top + 1), Logs(b, fork + 1, to + 1));
    }
  }

  lemma ChainsAreWellFormed(w: World, b: Blocks, maxRange: nat, n: Node, to: nat)
    requires MovesBeforeTip(w, b, maxRange, n, to)
    ensures WellFormed(w.chain) && WellFormed(b)
    ensures n.seed != [] && w.db.st.lastBlock >= -1 && maxRange >= 1
  {
  }
}
