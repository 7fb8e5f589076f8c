/**
 * Runs with no working assumption at all: chains that change between calls and
 * between the RPCs of one call, rewinds to any block at any time. The rows are
 * a fold even then; the question is of which logs.
 */
module AnyRuns {
  import opened Store
  import opened Chain
  import opened Indexing
  import opened Runs
  import opened Hazards
  import opened Rows

  /** The store, and the logs it has read since it was last emptied. */
  datatype Trail = Trail(db: Db, read: seq<Log>)

  datatype Call =
    | Sync(maxRange: nat, node: Node)
    | SetPaused(flag: bool)
    | Restart(chain: Blocks, fault: Fault)
    | RewindTo(block: int)

  ghost function Opened(exchange: string, chainId: nat, genesis: Digest): Trail {
    Trail(FreshDb(exchange, chainId, genesis), [])
  }

  /** All that is asked: RPCs answer from some chain each, and a rewind is to -1 or above, as its route checks. */
  ghost predicate Served(t: Trail, call: Call) {
    match call
    case Sync(maxRange, n) => maxRange >= 1 && n.seed != [] && WellFormed(n.logs) && Answers(t.db, maxRange, n)
    case SetPaused(_) => true
    case Restart(c, _) => c != []
    case RewindTo(block) => block >= -1
  }

  ghost function AfterCall(t: Trail, call: Call): Trail
    requires t.db.st.lastBlock >= -1 && Served(t, call)
  {
    match call
    case Sync(maxRange, n) =>
      var (db, outcome) := SyncResult(t.db, maxRange, n);
      var kept := if db.st.rebuilds == t.db.st.rebuilds then t.read else [];
      Trail(db, if outcome.Advanced? then kept + RangeLogs(n.logs, outcome.from, outcome.to) else kept)
    case SetPaused(flag) => t.(db := t.db.(st := t.db.st.(paused := flag)))
    case Restart(c, fault) => if t.db.st.genesis != HashAt(c, 0) then t else t.(db := Reseeded(t.db, c, fault))
    case RewindTo(block) => t.(db := Rewound(t.db, block))
  }

  ghost predicate Reaches(t: Trail, calls: seq<Call>, end: Trail)
    decreases |calls|
  {
    if calls == [] then t == end
    else t.db.st.lastBlock >= -1 && Served(t, calls[0]) && Reaches(AfterCall(t, calls[0]), calls[1..], end)
  }

  ghost predicate FoldsWhatItRead(t: Trail) { t.db.st.lastBlock >= -1 && t.db.d == Fold(t.read) }

  /** Whichever chain answers for a range, and in whatever order, sorting gives that chain's own order. */
  lemma AnswerSorts(c: Blocks, answer: seq<Log>, from: nat, to: int)
    requires WellFormed(c) && multiset(answer) == multiset(RangeLogs(c, from, to))
    ensures Sort(answer) == RangeLogs(c, from, to)
  {
    hide WellFormed, Sort, Logs;
    if from <= Min(to + 1, |c|) {
      LogsOrdered(c, from, Min(to + 1, |c|));
    }
    SortRecoversChainOrder(answer, RangeLogs(c, from, to));
  }

  lemma CheckKeepsTheFold(t: Trail, n: Node)
    requires FoldsWhatItRead(t) && n.seed != []
    ensures var checked := AfterCheck(t.db, n).0;
            && checked.d == Fold(if checked.st.rebuilds == t.db.st.rebuilds then t.read else [])
            && checked.st.lastBlock >= -1
  {
    hide SeedAll, SeedFirst, HashAt, ApplyDerived;
  }

  lemma SyncKeepsTheFold(t: Trail, maxRange: nat, n: Node)
    requires FoldsWhatItRead(t) && Served(t, Sync(maxRange, n))
    ensures FoldsWhatItRead(AfterCall(t, Sync(maxRange, n)))
  {
    hide FoldFrom, SeededFrom, AnyThrows, Sort, RangeLogs, HashAt, AfterCheck, WellFormed;
    CheckKeepsTheFold(t, n);
    var checked := AfterCheck(t.db, n).0;
    var kept := if checked.st.rebuilds == t.db.st.rebuilds then t.read else [];
    var range := RangeLogs(n.logs, checked.st.lastBlock + 1, RangeEnd(checked.st.lastBlock, n.head, maxRange));
    AnswerSorts(n.logs, n.answer, checked.st.lastBlock + 1, RangeEnd(checked.st.lastBlock, n.head, maxRange));
    FoldConcat(EMPTY, kept, range);
    if SyncResult(t.db, maxRange, n).1.Advanced? {
      AdvancedRows(t.db, maxRange, n);
    }
  }

  lemma AdvancedRows(db: Db, maxRange: nat, n: Node)
    requires n.seed != [] && db.st.lastBlock >= -1 && maxRange >= 1 && SyncResult(db, maxRange, n).1.Advanced?
    ensures var checked, (after, outcome) := AfterCheck(db, n).0, SyncResult(db, maxRange, n);
            && outcome.from == checked.st.lastBlock + 1
            && outcome.to == RangeEnd(checked.st.lastBlock, n.head, maxRange)
            && after.d == FoldFrom(checked.d, Sort(n.answer)) && after.st.rebuilds == checked.st.rebuilds
            && after.st.lastBlock == outcome.to
  {
    hide FoldFrom, SeededFrom, AnyThrows, Sort, HashAt, AfterCheck;
  }

  /** Over every run of any calls: the rows are the fold of exactly the logs read since the last rebuild, in order. */
  lemma {:induction false} RowsFoldWhatWasRead(t: Trail, calls: seq<Call>, end: Trail)
    requires FoldsWhatItRead(t) && Reaches(t, calls, end)
    ensures FoldsWhatItRead(end)
    decreases |calls|
  {
    if calls != [] {
      if calls[0].Sync? {
        SyncKeepsTheFold(t, calls[0].maxRange, calls[0].node);
      }
      hide Served;
      RowsFoldWhatWasRead(AfterCall(t, calls[0]), calls[1..], end);
    }
  }

  // ---------------------------------------------------------------- when two folds are the same tables

  /** The logs that changed something when their turn came: the first of each mirrored key. */
  ghost function Firsts(logs: seq<Log>): seq<Log> {
    if logs == [] then []
    else
      var n := |logs| - 1;
      if Mirrored(logs[n]) && logs[n].Key() !in Keys(logs[..n]) then Firsts(logs[..n]) + [logs[n]]
      else Firsts(logs[..n])
  }

  lemma {:induction false} FirstsAreAll(logs: seq<Log>)
    ensures Fold(Firsts(logs)) == Fold(logs) && Keys(Firsts(logs)) == Keys(logs) && MirroredOnce(Firsts(logs))
    ensures forall log :: log in Firsts(logs) ==> log in logs
  {
    hide ApplyDerived, Mirrored, Keys, MirroredOnce;
    if logs == [] {
      OnceInNothing();
    } else {
      var n := |logs| - 1;
      var before, last := Firsts(logs[..n]), logs[n];
      FirstsAreAll(logs[..n]);
      assert logs == logs[..n] + [last];
      KeysConcat(logs[..n], [last]);
      KeysConcat(before, [last]);
      KeysOfOne(last);
      FoldConcat(EMPTY, before, [last]);
      FoldOne(Fold(before), last);
      AppliedIsKeys(EMPTY, before);
      RepeatDoesNothing(Fold(before), last);
      OneMoreOnce(before, last);
    }
  }

  lemma OnceInNothing()
    ensures MirroredOnce([]) && EMPTY.applied.Keys == {}
  {
  }

  lemma FoldOne(d: Derived, log: Log)
    ensures FoldFrom(d, [log]) == ApplyDerived(d, log)
  {
    hide ApplyDerived;
    assert [log][..0] == [];
  }

  lemma KeysOfOne(log: Log)
    ensures Keys([log]) == if Mirrored(log) then {log.Key()} else {}
  {
    assert log in [log];
  }

  lemma RepeatDoesNothing(d: Derived, log: Log)
    ensures !(Mirrored(log) && log.Key() !in d.applied) ==> ApplyDerived(d, log) == d
  {
    hide DerivedAfter;
  }

  lemma OneMoreOnce(before: seq<Log>, last: Log)
    requires MirroredOnce(before)
    ensures last.Key() !in Keys(before) ==> MirroredOnce(before + [last])
  {
    hide Mirrored;
    assert forall log :: log in before && Mirrored(log) ==> log.Key() in Keys(before);
  }

  /** Each row is the replay of the first logs of each key. */
  lemma RowOfFold(logs: seq<Log>, e: Entity)
    ensures Only(Fold(logs), e) == Replay(Only(EMPTY, e), e, Firsts(logs))
  {
    hide FoldFrom, Only, Replay, Firsts, MirroredOnce;
    FirstsAreAll(logs);
    NothingIsGrounded([]);
    EmptyFold();
    FoldIsLocal(EMPTY, Firsts(logs), e);
  }

  lemma EmptyFold()
    ensures Fold([]) == EMPTY
  {
  }

  /** Any two lists of logs leave the same tables if and only if they do so row by row, where either wrote. */
  lemma FoldsAgreeIff(a: seq<Log>, b: seq<Log>)
    ensures Fold(a) == Fold(b)
            <==> forall e :: TouchedBy(a + b, e) ==>
                   Replay(Only(EMPTY, e), e, Firsts(a)) == Replay(Only(EMPTY, e), e, Firsts(b))
  {
    hide FoldFrom, Fold, Only, Replay, Firsts, Touches;
    FirstsAreAll(a);
    FirstsAreAll(b);
    forall e ensures Only(Fold(a), e) == Only(Fold(b), e)
                     <==> (TouchedBy(a + b, e) ==>
                             Replay(Only(EMPTY, e), e, Firsts(a)) == Replay(Only(EMPTY, e), e, Firsts(b)))
    {
      RowOfFold(a, e);
      RowOfFold(b, e);
      if !TouchedBy(a + b, e) {
        UntouchedReplay(Only(EMPTY, e), e, Firsts(a));
        UntouchedReplay(Only(EMPTY, e), e, Firsts(b));
      }
    }
    if forall e :: TouchedBy(a + b, e) ==>
         Replay(Only(EMPTY, e), e, Firsts(a)) == Replay(Only(EMPTY, e), e, Firsts(b))
    {
      SameRows(Fold(a), Fold(b));
    }
  }

  lemma {:induction false} UniqueLogsAreFirsts(logs: seq<Log>)
    requires UniqueKeys(logs)
    ensures Firsts(logs) == MirroredOf(logs)
  {
    if logs != [] {
      hide Mirrored;
      var n := |logs| - 1;
      UniqueLogsAreFirsts(logs[..n]);
      assert forall log :: log in logs[..n] ==> log.Key() != logs[n].Key();
    }
  }

  /**
   * After any run at all, the rows are those of blocks 0 .. to of a chain if
   * and only if, on each row, the logs read, the first of each key, end where
   * the chain's own mirrored logs end.
   */
  lemma RowsAreTheChainsIff(exchange: string, chainId: nat, genesis: Digest, calls: seq<Call>, end: Trail,
                            c: Blocks, to: int)
    requires Reaches(Opened(exchange, chainId, genesis), calls, end)
    requires -1 <= to < |c| && UniqueKeys(Logs(c, 0, to + 1))
    ensures var chain := Logs(c, 0, to + 1);
            end.db.d == Fold(chain)
            <==> forall e :: TouchedBy(end.read + chain, e) ==>
                   Replay(Only(EMPTY, e), e, Firsts(end.read)) == Replay(Only(EMPTY, e), e, MirroredOf(chain))
  {
    hide FoldFrom, Only, Replay, Firsts, Reaches, Logs, UniqueKeys, MirroredOf, TouchedBy;
    EmptyFold();
    RowsFoldWhatWasRead(Opened(exchange, chainId, genesis), calls, end);
    FoldsAgreeIff(end.read, Logs(c, 0, to + 1));
    UniqueLogsAreFirsts(Logs(c, 0, to + 1));
  }

  /** Needed for that: each mirrored log of the chain was read in its block, and what counted is on it in its block. */
  lemma RightRowsNeedEveryLog(read: seq<Log>, chain: seq<Log>, log: Log)
    requires UniqueKeys(chain) && Fold(read) == Fold(chain) && Mirrored(log)
    ensures log in chain ==> StaysInBlock(log, read)
    ensures log in Firsts(read) ==> StaysInBlock(log, chain)
  {
    hide FoldFrom, Mirrored, Firsts, UniqueKeys;
    EmptyFold();
    FirstsAreAll(read);
    assert [] + chain == chain;
    if log in chain {
      MarkOfLost([], chain, log);
      MarksComeFromLogs(EMPTY, read, log.Key());
    }
    if log in Firsts(read) {
      MarkOfFirst(Firsts(read), log);
      MarksComeFromLogs(EMPTY, chain, log.Key());
    }
  }

  lemma MarkOfFirst(logs: seq<Log>, log: Log)
    requires MirroredOnce(logs) && log in logs && Mirrored(log)
    ensures log.Key() in Fold(logs).applied && Fold(logs).applied[log.Key()] == log.block
  {
    hide FoldFrom, Mirrored;
    var k := log.Key();
    AppliedIsKeys(EMPTY, logs);
    MarksComeFromLogs(EMPTY, logs, k);
    var same :| same in logs && Mirrored(same) && same.Key() == k && same.block == Fold(logs).applied[k];
    var i :| 0 <= i < |logs| && logs[i] == log;
    var j :| 0 <= j < |logs| && logs[j] == same;
    assert i == j;
  }

  // ---------------------------------------------------------------- runs that keep the assumptions are such runs

  ghost function CallOf(w: World, s: Step): Call
    requires !s.ChainMoves?
  {
    match s
    case SyncOnce(maxRange, answer, fault) => Sync(maxRange, Steady(w.chain, answer, fault))
    case Pause(flag) => SetPaused(flag)
    case Restart(fault) => Call.Restart(w.chain, fault)
    case Rewind(block) => RewindTo(block)
  }

  lemma StepIsACall(w: World, s: Step, read: seq<Log>)
    requires Invariant(w) && Allowed(w, s) && !s.ChainMoves?
    ensures Served(Trail(w.db, read), CallOf(w, s))
    ensures AfterCall(Trail(w.db, read), CallOf(w, s)).db == Next(w, s).db
  {
    hide Fold, Logs, RangeLogs, HashAt, SyncResult, Sort;
  }

  /** What `Runs` says of the store's runs is said of some of these. */
  lemma {:induction false} RunsAreSuchRuns(w: World, steps: seq<Step>, end: World, read: seq<Log>)
    returns (calls: seq<Call>, endRead: seq<Log>)
    requires Invariant(w) && Leads(w, steps, end)
    ensures Reaches(Trail(w.db, read), calls, Trail(end.db, endRead))
    decreases |steps|
  {
    hide Fold, Logs, HashAt, AfterSync, Allowed, AfterCall, Served;
    if steps == [] {
      return [], read;
    }
    var s := steps[0];
    StepKeepsInvariant(w, s);
    if s.ChainMoves? {
      calls, endRead := RunsAreSuchRuns(Next(w, s), steps[1..], end, read);
    } else {
      StepIsACall(w, s, read);
      var next := AfterCall(Trail(w.db, read), CallOf(w, s));
      var rest;
      rest, endRead := RunsAreSuchRuns(Next(w, s), steps[1..], end, next.read);
      calls := [CallOf(w, s)] + rest;
      assert calls[1..] == rest;
    }
  }
}
