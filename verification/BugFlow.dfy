/** Failing assertions become tracked issues: the queue reader, the upsert, and one whole run of the flow. */
module BugFlow {
  import opened Options
  import Decimal

  datatype Severity = High | Medium | Low

  datatype Status = Passed | Failed | Blocked

  datatype Outcome = Pass | Fail | Unobservable

  datatype Assertion = Assertion(id: string, outcome: Outcome, description: string, detail: Option<string>)

  /** One line of the queue; of the time stamp only the order is used. */
  datatype Record = Record(caseId: string, ts: int, moduleName: string, title: string, priority: string,
                           status: Status, assertions: seq<Assertion>)

  datatype Problem = Problem(signature: string, title: string, moduleName: string, severity: Severity,
                             caseId: string, detail: string)

  datatype Issue = Issue(id: string, signature: string, title: string, moduleName: string, detail: string,
                         severity: Severity, relatedCases: seq<string>)

  datatype Db = Db(nextId: nat, issues: seq<Issue>)

  datatype Action = Created | Attached | Unchanged

  datatype Tally = Tally(created: nat, attached: nat, same: nat)

  /** The hash of module, assertion id and normalised detail: any function of these will do. */
  type Signer = (string, Assertion) -> string

  // ---------------------------------------------------------------- the queue

  /** The place of a case in the Map's insertion order. */
  function PlaceOf(records: seq<Record>, caseId: string): (r: Option<nat>)
    ensures r.Some? ==> r.value < |records| && records[r.value].caseId == caseId
    ensures r.None? ==> forall i :: 0 <= i < |records| ==> records[i].caseId != caseId
  {
    if records == [] then None
    else if records[|records| - 1].caseId == caseId then Some(|records| - 1)
    else PlaceOf(records[..|records| - 1], caseId)
  }

  function Placed(records: seq<Record>, entry: Record): seq<Record> {
    var at := PlaceOf(records, entry.caseId);
    if at.None? then records + [entry]
    else if entry.ts > records[at.value].ts then records[at.value := entry]
    else records
  }

  function Latest(queue: seq<Record>): seq<Record> {
    if queue == [] then [] else Placed(Latest(queue[..|queue| - 1]), queue[|queue| - 1])
  }

  method LatestByCase(queue: seq<Record>) returns (records: seq<Record>)
    ensures records == Latest(queue)
  {
    records := [];
    for i := 0 to |queue|
      invariant records == Latest(queue[..i])
    {
      assert queue[..i + 1][..i] == queue[..i];
      records := Placed(records, queue[i]);
    }
    assert queue[..|queue|] == queue;
  }

  ghost predicate IsLatest(queue: seq<Record>, r: Record) {
    r in queue && forall e :: e in queue && e.caseId == r.caseId ==> e.ts <= r.ts
  }

  /** One record per case of the queue, each a latest one of its case. */
  ghost predicate Collapses(queue: seq<Record>, records: seq<Record>) {
    && (forall i, j :: 0 <= i < j < |records| ==> records[i].caseId != records[j].caseId)
    && (forall r :: r in records ==> IsLatest(queue, r))
    && (forall e :: e in queue ==> PlaceOf(records, e.caseId).Some?)
  }

  lemma {:induction false} LatestCollapses(queue: seq<Record>)
    ensures Collapses(queue, Latest(queue))
  {
    hide Collapses, Placed;
    if queue == [] {
      NothingCollapses();
    } else {
      LatestCollapses(queue[..|queue| - 1]);
      PlacedCollapses(queue[..|queue| - 1], Latest(queue[..|queue| - 1]), queue[|queue| - 1]);
      assert queue == queue[..|queue| - 1] + [queue[|queue| - 1]];
    }
  }

  lemma NothingCollapses()
    ensures Collapses([], [])
  {
  }

  lemma PlacedCollapses(queue: seq<Record>, records: seq<Record>, entry: Record)
    requires Collapses(queue, records)
    ensures Collapses(queue + [entry], Placed(records, entry))
  {
    var after := Placed(records, entry);
    forall e | e in queue + [entry] ensures PlaceOf(after, e.caseId).Some? {
      if e in queue {
        var k := PlaceOf(records, e.caseId).value;
        assert after[k].caseId == e.caseId;
      } else if PlaceOf(records, e.caseId).Some? {
        assert after[PlaceOf(records, e.caseId).value].caseId == e.caseId;
      } else {
        assert after[|records|].caseId == e.caseId;
      }
    }
    forall r | r in after ensures IsLatest(queue + [entry], r) {
      PlacedIsLatest(queue, records, entry, r);
    }
  }

  lemma PlacedIsLatest(queue: seq<Record>, records: seq<Record>, entry: Record, r: Record)
    requires Collapses(queue, records) && r in Placed(records, entry)
    ensures IsLatest(queue + [entry], r)
  {
    var at := PlaceOf(records, entry.caseId);
    var k :| 0 <= k < |Placed(records, entry)| && Placed(records, entry)[k] == r;
    if k < |records| {
      assert IsLatest(queue, records[k]);
    }
    if at.None? && r == entry {
      forall e | e in queue ensures e.caseId != entry.caseId {
        assert PlaceOf(records, e.caseId).Some?;
      }
    }
  }

  /** No case has two different records with one time stamp. */
  ghost predicate StampsTell(queue: seq<Record>) {
    forall a, b :: a in queue && b in queue && a.caseId == b.caseId && a.ts == b.ts ==> a == b
  }

  /** When time stamps tell a case's records apart, the kept records are exactly the latest ones. */
  lemma KeptIffLatest(queue: seq<Record>, r: Record)
    requires StampsTell(queue)
    ensures r in Latest(queue) <==> IsLatest(queue, r)
  {
    hide Latest;
    LatestCollapses(queue);
    if IsLatest(queue, r) {
      var kept := Latest(queue)[PlaceOf(Latest(queue), r.caseId).value];
      assert kept in Latest(queue) && IsLatest(queue, kept);
    }
  }

  /** A latest record of its case, and the first of those in the file. */
  ghost predicate IsFirstLatest(queue: seq<Record>, k: nat)
    requires k < |queue|
  {
    && (forall j :: 0 <= j < |queue| && queue[j].caseId == queue[k].caseId ==> queue[j].ts <= queue[k].ts)
    && (forall j :: 0 <= j < k && queue[j].caseId == queue[k].caseId ==> queue[j].ts < queue[k].ts)
  }

  /** The cases of the queue, in the order in which they first appear. */
  function CasesInOrder(queue: seq<Record>): seq<string> {
    if queue == [] then []
    else
      var before, last := CasesInOrder(queue[..|queue| - 1]), queue[|queue| - 1].caseId;
      if last in before then before else before + [last]
  }

  ghost predicate IsKept(queue: seq<Record>, r: Record) {
    exists k :: 0 <= k < |queue| && queue[k] == r && IsFirstLatest(queue, k)
  }

  ghost predicate KeptInOrder(queue: seq<Record>, records: seq<Record>) {
    && |records| == |CasesInOrder(queue)|
    && forall p :: 0 <= p < |records| ==> records[p].caseId == CasesInOrder(queue)[p] && IsKept(queue, records[p])
  }

  /** One record per case in the order of first appearance, each the first of its case's latest. */
  lemma {:induction false} RecordsAreKeptInOrder(queue: seq<Record>)
    ensures KeptInOrder(queue, Latest(queue))
  {
    hide KeptInOrder, Placed, Collapses;
    if queue == [] {
      NothingKept();
    } else {
      var n := |queue| - 1;
      RecordsAreKeptInOrder(queue[..n]);
      LatestCollapses(queue[..n]);
      KeptStep(queue, Latest(queue[..n]));
    }
  }

  lemma NothingKept()
    ensures KeptInOrder([], [])
  {
  }

  lemma KeptStep(queue: seq<Record>, records: seq<Record>)
    requires queue != [] && KeptInOrder(queue[..|queue| - 1], records) && Collapses(queue[..|queue| - 1], records)
    ensures KeptInOrder(queue, Placed(records, queue[|queue| - 1]))
  {
    hide *;
    var n := |queue| - 1;
    var entry := queue[n];
    assert queue == queue[..n] + [entry];
    KeptParts(queue[..n], records);
    CasesStep(queue[..n], entry, records);
    forall p: nat | p < |records| ensures IsKept(queue, records[p]) || PlaceOf(records, entry.caseId) == Some(p) {
      OnlyPlace(queue[..n], records, p, entry.caseId);
      if records[p].caseId != entry.caseId {
        OtherCase(queue[..n], entry, records[p]);
      }
    }
    var at := PlaceOf(records, entry.caseId);
    if at.None? {
      Unseen(queue[..n], records, entry.caseId);
      FirstOfItsCase(queue[..n], entry);
    } else {
      NotEarlier(queue[..n], entry, records[at.value]);
    }
    PlacedIsKept(queue, records, entry);
  }

  lemma KeptParts(queue: seq<Record>, records: seq<Record>)
    requires KeptInOrder(queue, records)
    ensures |records| == |CasesInOrder(queue)|
    ensures forall p :: 0 <= p < |records| ==> records[p].caseId == CasesInOrder(queue)[p] && IsKept(queue, records[p])
  {
  }

  lemma PlacedIsKept(queue: seq<Record>, records: seq<Record>, entry: Record)
    requires var at, cases := PlaceOf(records, entry.caseId), CasesInOrder(queue);
             && |cases| == |records| + (if at.None? then 1 else 0)
             && (forall p :: 0 <= p < |records| ==> records[p].caseId == cases[p])
             && (forall p: nat :: p < |records| ==> IsKept(queue, records[p]) || at == Some(p))
             && (if at.None? then cases[|records|] == entry.caseId && IsKept(queue, entry)
                 else IsKept(queue, if entry.ts > records[at.value].ts then entry else records[at.value]))
    ensures KeptInOrder(queue, Placed(records, entry))
  {
    hide PlaceOf, IsKept, CasesInOrder;
  }

  lemma CasesStep(queue: seq<Record>, entry: Record, records: seq<Record>)
    requires |records| == |CasesInOrder(queue)|
    requires forall p :: 0 <= p < |records| ==> records[p].caseId == CasesInOrder(queue)[p]
    ensures CasesInOrder(queue + [entry])
            == if PlaceOf(records, entry.caseId).Some? then CasesInOrder(queue)
               else CasesInOrder(queue) + [entry.caseId]
  {
    hide PlaceOf;
    var before, at := CasesInOrder(queue), PlaceOf(records, entry.caseId);
    assert (queue + [entry])[..|queue|] == queue;
    if at.Some? {
      assert before[at.value] == records[at.value].caseId;
    }
  }

  /** The last record is the first of its case. */
  lemma FirstOfItsCase(queue: seq<Record>, entry: Record)
    requires forall j :: 0 <= j < |queue| ==> queue[j].caseId != entry.caseId
    ensures IsKept(queue + [entry], entry)
  {
    assert IsFirstLatest(queue + [entry], |queue|);
  }

  /** The last record against the kept one of its case: strictly later, or not. */
  lemma NotEarlier(queue: seq<Record>, entry: Record, kept: Record)
    requires IsKept(queue, kept) && kept.caseId == entry.caseId
    ensures IsKept(queue + [entry], if entry.ts > kept.ts then entry else kept)
  {
    var k :| 0 <= k < |queue| && queue[k] == kept && IsFirstLatest(queue, k);
    assert IsFirstLatest(queue + [entry], if entry.ts > kept.ts then |queue| else k);
  }

  lemma OtherCase(queue: seq<Record>, entry: Record, kept: Record)
    requires IsKept(queue, kept) && kept.caseId != entry.caseId
    ensures IsKept(queue + [entry], kept)
  {
    var k :| 0 <= k < |queue| && queue[k] == kept && IsFirstLatest(queue, k);
    assert IsFirstLatest(queue + [entry], k);
  }

  /** Cases do not repeat among the records, so a case's place is the place of any record of it. */
  lemma OnlyPlace(queue: seq<Record>, records: seq<Record>, p: nat, caseId: string)
    requires Collapses(queue, records) && p < |records|
    ensures records[p].caseId == caseId ==> PlaceOf(records, caseId) == Some(p)
  {
    hide PlaceOf;
  }

  lemma Unseen(queue: seq<Record>, records: seq<Record>, caseId: string)
    requires Collapses(queue, records) && PlaceOf(records, caseId).None?
    ensures forall j :: 0 <= j < |queue| ==> queue[j].caseId != caseId
  {
    hide PlaceOf;
    forall j | 0 <= j < |queue| ensures queue[j].caseId != caseId {
      assert queue[j] in queue;
    }
  }

  // ---------------------------------------------------------------- problems

  function SeverityFor(r: Record): Severity {
    if r.priority == "High" then High else if r.priority == "Low" then Low else Medium
  }

  function ProblemOf(sign: Signer, r: Record, a: Assertion): Problem {
    Problem(sign(r.moduleName, a), "[" + r.moduleName + "] " + a.description + " does not hold", r.moduleName,
            SeverityFor(r), r.caseId,
            "Expected: " + a.description + "\nObserved: "
            + (if a.detail.Some? && a.detail.value != "" then a.detail.value else "no detail recorded")
            + "\nSurfaced by case " + r.caseId + " (" + r.title + ")\nAssertion: " + a.id)
  }

  function ProblemsIn(sign: Signer, r: Record, assertions: seq<Assertion>): seq<Problem> {
    if assertions == [] then []
    else
      var a := assertions[|assertions| - 1];
      ProblemsIn(sign, r, assertions[..|assertions| - 1]) + if a.outcome.Fail? then [ProblemOf(sign, r, a)] else []
  }

  function ProblemsFrom(sign: Signer, r: Record): seq<Problem> { ProblemsIn(sign, r, r.assertions) }

  function Failing(records: seq<Record>): seq<Record> {
    if records == [] then []
    else Failing(records[..|records| - 1])
         + if records[|records| - 1].status.Failed? then [records[|records| - 1]] else []
  }

  function AllProblems(sign: Signer, records: seq<Record>): seq<Problem> {
    if records == [] then []
    else AllProblems(sign, records[..|records| - 1]) + ProblemsFrom(sign, records[|records| - 1])
  }

  /** The record failed, and one of its failed assertions is this problem. */
  ghost predicate Surfaces(sign: Signer, r: Record, p: Problem) {
    r.status.Failed? && exists a :: a in r.assertions && a.outcome.Fail? && p == ProblemOf(sign, r, a)
  }

  /** Exactly the failed assertions of the failing records are filed; passed and blocked ones never are. */
  lemma {:induction false} OnlyFailuresAreFiled(sign: Signer, records: seq<Record>, p: Problem)
    ensures p in AllProblems(sign, Failing(records)) <==> exists r :: r in records && Surfaces(sign, r, p)
  {
    hide ProblemsIn, ProblemsFrom, Surfaces;
    if records != [] {
      var n := |records| - 1;
      OnlyFailuresAreFiled(sign, records[..n], p);
      RecordSurfaces(sign, records[n], p);
      OneMoreFailing(sign, records);
      assert records == records[..n] + [records[n]];
    }
  }

  lemma {:induction false} OneMoreFailing(sign: Signer, records: seq<Record>)
    requires records != []
    ensures var n := |records| - 1;
            AllProblems(sign, Failing(records))
            == AllProblems(sign, Failing(records[..n]))
               + if records[n].status.Failed? then ProblemsFrom(sign, records[n]) else []
  {
    hide ProblemsFrom;
    var before, last := Failing(records[..|records| - 1]), records[|records| - 1];
    assert Failing(records) == before + if last.status.Failed? then [last] else [];
    if last.status.Failed? {
      OneMoreRecord(sign, before, last);
    } else {
      assert Failing(records) == before;
    }
  }

  lemma {:induction false} OneMoreRecord(sign: Signer, before: seq<Record>, r: Record)
    ensures AllProblems(sign, before + [r]) == AllProblems(sign, before) + ProblemsFrom(sign, r)
  {
    hide ProblemsIn;
    assert (before + [r])[..|before|] == before;
  }

  lemma RecordSurfaces(sign: Signer, r: Record, p: Problem)
    ensures Surfaces(sign, r, p) <==> r.status.Failed? && p in ProblemsFrom(sign, r)
  {
    FailuresOf(sign, r, r.assertions, p);
  }

  lemma {:induction false} FailuresOf(sign: Signer, r: Record, assertions: seq<Assertion>, p: Problem)
    ensures p in ProblemsIn(sign, r, assertions) <==>
            exists a :: a in assertions && a.outcome.Fail? && p == ProblemOf(sign, r, a)
  {
    if assertions != [] {
      var n := |assertions| - 1;
      FailuresOf(sign, r, assertions[..n], p);
      assert assertions == assertions[..n] + [assertions[n]];
    }
  }

  lemma {:induction false} AssertionsInOrder(sign: Signer, r: Record, a: seq<Assertion>, b: seq<Assertion>)
    ensures ProblemsIn(sign, r, a + b) == ProblemsIn(sign, r, a) + ProblemsIn(sign, r, b)
  {
    hide ProblemOf;
    if b == [] {
      assert a + b == a;
    } else {
      assert (a + b)[..|a + b| - 1] == a + b[..|b| - 1];
      AssertionsInOrder(sign, r, a, b[..|b| - 1]);
    }
  }

  /** Problems are filed record by record and assertion by assertion, in the order listed, one for each failure. */
  lemma {:induction false} FiledInOrder(sign: Signer, a: seq<Record>, r: Record, xs: seq<Assertion>, x: Assertion,
                                        ys: seq<Assertion>)
    requires r.assertions == xs + [x] + ys
    ensures AllProblems(sign, Failing(a + [r]))
            == AllProblems(sign, Failing(a))
               + if r.status.Failed? then
                   ProblemsIn(sign, r, xs) + (if x.outcome.Fail? then [ProblemOf(sign, r, x)] else [])
                   + ProblemsIn(sign, r, ys)
                 else []
    ensures AllProblems(sign, Failing([])) == [] && ProblemsIn(sign, r, []) == []
  {
    hide ProblemOf, AllProblems;
    assert (a + [r])[..|a|] == a;
    OneMoreFailing(sign, a + [r]);
    AssertionsInOrder(sign, r, xs + [x], ys);
    AssertionsInOrder(sign, r, xs, [x]);
    OneAssertion(sign, r, x);
    NoProblems(sign);
  }

  lemma OneAssertion(sign: Signer, r: Record, x: Assertion)
    ensures ProblemsIn(sign, r, [x]) == if x.outcome.Fail? then [ProblemOf(sign, r, x)] else []
  {
    hide ProblemOf;
    assert [x][..0] == [];
  }

  lemma NoProblems(sign: Signer)
    ensures AllProblems(sign, Failing([])) == []
  {
  }

  // ---------------------------------------------------------------- the tracker

  /** The first issue with a signature. */
  function Find(issues: seq<Issue>, signature: string): (r: Option<nat>)
    ensures r.Some? ==> r.value < |issues| && issues[r.value].signature == signature
    ensures r.Some? ==> forall i :: 0 <= i < r.value ==> issues[i].signature != signature
    ensures r.None? ==> forall i :: 0 <= i < |issues| ==> issues[i].signature != signature
  {
    if issues == [] then None
    else
      var before := Find(issues[..|issues| - 1], signature);
      if before.Some? then before
      else if issues[|issues| - 1].signature == signature then Some(|issues| - 1)
      else None
  }

  function IdOf(n: nat): string { "B" + Decimal.Spell(n) }

  function NewIssue(nextId: nat, p: Problem): Issue {
    Issue(IdOf(nextId), p.signature, p.title, p.moduleName, p.detail, p.severity, [p.caseId])
  }

  function Upserted(db: Db, p: Problem): (Db, Action) {
    var at := Find(db.issues, p.signature);
    if at.None? then (Db(db.nextId + 1, db.issues + [NewIssue(db.nextId, p)]), Created)
    else
      var issue := db.issues[at.value];
      if p.caseId in issue.relatedCases then (db, Unchanged)
      else (db.(issues := db.issues[at.value := issue.(relatedCases := issue.relatedCases + [p.caseId])]), Attached)
  }

  function UpsertAll(db: Db, ps: seq<Problem>): Db {
    if ps == [] then db else Upserted(UpsertAll(db, ps[..|ps| - 1]), ps[|ps| - 1]).0
  }

  function Bump(t: Tally, action: Action): Tally {
    match action
    case Created => t.(created := t.created + 1)
    case Attached => t.(attached := t.attached + 1)
    case Unchanged => t.(same := t.same + 1)
  }

  function TallyOf(db: Db, ps: seq<Problem>): Tally {
    if ps == [] then Tally(0, 0, 0)
    else Bump(TallyOf(db, ps[..|ps| - 1]), Upserted(UpsertAll(db, ps[..|ps| - 1]), ps[|ps| - 1]).1)
  }

  class Tracker {
    /** The JSON file. */
    var store: Db

    /** Creates the issue, or attaches the case to the one that exists; an unchanged issue is not saved. */
    method Upsert(p: Problem) returns (action: Action, issue: Issue)
      modifies this
      ensures (store, action) == Upserted(old(store), p)
      ensures issue in store.issues && issue.signature == p.signature && p.caseId in issue.relatedCases
    {
      var db := store;
      var at := 0;
      while at < |db.issues| && db.issues[at].signature != p.signature
        invariant at <= |db.issues|
        invariant forall i :: 0 <= i < at ==> db.issues[i].signature != p.signature
      {
        at := at + 1;
      }
      if at < |db.issues| {
        var existing := db.issues[at];
        if p.caseId in existing.relatedCases {
          return Unchanged, existing;
        }
        existing := existing.(relatedCases := existing.relatedCases + [p.caseId]);
        db := db.(issues := db.issues[at := existing]);
        store := db;
        assert store.issues[at] == existing && existing.relatedCases[|existing.relatedCases| - 1] == p.caseId;
        return Attached, existing;
      }
      issue := NewIssue(db.nextId, p);
      db := Db(db.nextId + 1, db.issues + [issue]);
      store := db;
      assert store.issues[|store.issues| - 1] == issue;
      return Created, issue;
    }
  }

  lemma LatestIsEmptyIff(queue: seq<Record>)
    ensures Latest(queue) == [] <==> queue == []
  {
  }

  lemma FiledIs(sign: Signer, queue: seq<Record>)
    ensures Filed(sign, queue) == AllProblems(sign, Failing(Latest(queue)))
  {
  }

  lemma NothingDone(sign: Signer, db: Db)
    ensures Failing([]) == [] && AllProblems(sign, []) == []
    ensures UpsertAll(db, []) == db && TallyOf(db, []) == Tally(0, 0, 0)
  {
  }

  lemma {:induction false} OneMoreProblem(db: Db, before: seq<Problem>, p: Problem)
    ensures UpsertAll(db, before + [p]) == Upserted(UpsertAll(db, before), p).0
    ensures TallyOf(db, before + [p]) == Bump(TallyOf(db, before), Upserted(UpsertAll(db, before), p).1)
  {
    hide Upserted, Bump;
    assert (before + [p])[..|before|] == before;
  }

  /** What a run over this queue files. */
  function Filed(sign: Signer, queue: seq<Record>): seq<Problem> { AllProblems(sign, Failing(Latest(queue))) }

  /** One run over the queue; an empty one stops it before anything is filed. */
  method RunFlow(sign: Signer, tracker: Tracker, queue: seq<Record>) returns (ok: bool, tally: Tally)
    modifies tracker
    ensures ok <==> queue != []
    ensures tracker.store == UpsertAll(old(tracker.store), Filed(sign, queue))
    ensures tally == TallyOf(old(tracker.store), Filed(sign, queue))
  {
    hide *;
    var records := LatestByCase(queue);
    LatestIsEmptyIff(queue);
    FiledIs(sign, queue);
    var failing := Failing(records);
    tally := Tally(0, 0, 0);
    ghost var start := tracker.store;
    NothingDone(sign, start);
    if records == [] {
      return false, tally;
    }
    assert failing[..0] == [];
    for i := 0 to |failing|
      invariant tracker.store == UpsertAll(start, AllProblems(sign, failing[..i]))
      invariant tally == TallyOf(start, AllProblems(sign, failing[..i]))
    {
      OneMoreRecord(sign, failing[..i], failing[i]);
      assert failing[..i + 1] == failing[..i] + [failing[i]];
      ghost var done := AllProblems(sign, failing[..i]);
      var problems := ProblemsFrom(sign, failing[i]);
      assert done + problems[..0] == done;
      for j := 0 to |problems|
        invariant tracker.store == UpsertAll(start, done + problems[..j])
        invariant tally == TallyOf(start, done + problems[..j])
      {
        OneMoreProblem(start, done + problems[..j], problems[j]);
        assert done + problems[..j + 1] == done + problems[..j] + [problems[j]];
        var action, issue := tracker.Upsert(problems[j]);
        tally := Bump(tally, action);
      }
      assert problems[..|problems|] == problems;
    }
    assert failing[..|failing|] == failing;
    return true, tally;
  }

  /** The ticket a failed assertion opens, word for word. */
  lemma NewTicketTells(db: Db, sign: Signer, r: Record, a: Assertion)
    requires Find(db.issues, sign(r.moduleName, a)).None?
    ensures var (after, action) := Upserted(db, ProblemOf(sign, r, a));
            var seen := if a.detail.Some? && |a.detail.value| > 0 then a.detail.value else "no detail recorded";
            && action == Created && after.nextId == db.nextId + 1 && |after.issues| == |db.issues| + 1
            && after.issues[..|db.issues|] == db.issues
            && var ticket := after.issues[|db.issues|];
            && ticket.id == "B" + Decimal.Spell(db.nextId) && ticket.signature == sign(r.moduleName, a)
            && ticket.title == "[" + r.moduleName + "] " + a.description + " does not hold"
            && ticket.moduleName == r.moduleName && ticket.relatedCases == [r.caseId]
            && (ticket.severity == High <==> r.priority == "High") && (ticket.severity == Low <==> r.priority == "Low")
            && ticket.detail
               == "Expected: " + a.description + "\nObserved: " + seen + "\nSurfaced by case " + r.caseId
                  + " (" + r.title + ")\nAssertion: " + a.id
  {
    hide Find;
  }

  // ---------------------------------------------------------------- what a run records

  /** The cases an issue with this signature affects. */
  function CasesOf(db: Db, signature: string): set<string> {
    var at := Find(db.issues, signature);
    if at.None? then {} else set c | c in db.issues[at.value].relatedCases
  }

  function SurfacedBy(ps: seq<Problem>, signature: string): set<string> {
    set p | p in ps && p.signature == signature :: p.caseId
  }

  predicate Recorded(db: Db, p: Problem) { p.caseId in CasesOf(db, p.signature) }

  lemma FoundAt(issues: seq<Issue>, signature: string, at: nat)
    requires at < |issues| && issues[at].signature == signature
    requires forall i :: 0 <= i < at ==> issues[i].signature != signature
    ensures Find(issues, signature) == Some(at)
  {
  }

  lemma UpsertRecords(db: Db, p: Problem, signature: string)
    ensures CasesOf(Upserted(db, p).0, signature)
            == CasesOf(db, signature) + if signature == p.signature then {p.caseId} else {}
  {
    hide Find;
    var after, at, was := Upserted(db, p).0, Find(db.issues, p.signature), Find(db.issues, signature);
    if was.Some? {
      FoundAt(after.issues, signature, was.value);
      var before, now := db.issues[was.value].relatedCases, after.issues[was.value].relatedCases;
      assert now == before || (signature == p.signature && now == before + [p.caseId]);
    } else if signature == p.signature {
      FoundAt(after.issues, signature, |db.issues|);
      assert after.issues[|db.issues|].relatedCases == [p.caseId];
    } else {
      NotFound(after.issues, signature);
    }
  }

  lemma NotFound(issues: seq<Issue>, signature: string)
    requires forall i :: 0 <= i < |issues| ==> issues[i].signature != signature
    ensures Find(issues, signature).None?
  {
    hide Find;
  }

  lemma UpsertIsNoOpIff(db: Db, p: Problem)
    ensures Recorded(db, p) <==> Upserted(db, p) == (db, Unchanged)
    ensures Upserted(db, p).1.Unchanged? <==> Upserted(db, p).0 == db
  {
    var at := Find(db.issues, p.signature);
    if at.Some? && p.caseId !in db.issues[at.value].relatedCases {
      assert |Upserted(db, p).0.issues[at.value].relatedCases| == |db.issues[at.value].relatedCases| + 1;
    }
  }

  /** A run adds to each signature's cases exactly the cases that surfaced it, and loses none. */
  lemma {:induction false} RunRecordsWhatSurfaced(db: Db, ps: seq<Problem>, signature: string)
    ensures CasesOf(UpsertAll(db, ps), signature) == CasesOf(db, signature) + SurfacedBy(ps, signature)
  {
    hide Upserted, CasesOf;
    if ps != [] {
      var n := |ps| - 1;
      RunRecordsWhatSurfaced(db, ps[..n], signature);
      UpsertRecords(UpsertAll(db, ps[..n]), ps[n], signature);
      assert ps == ps[..n] + [ps[n]];
    }
  }

  lemma {:induction false} RecordedRunIsNoOp(db: Db, ps: seq<Problem>)
    requires forall p :: p in ps ==> Recorded(db, p)
    ensures UpsertAll(db, ps) == db && TallyOf(db, ps) == Tally(0, 0, |ps|)
  {
    hide Upserted, Recorded;
    if ps != [] {
      RecordedRunIsNoOp(db, ps[..|ps| - 1]);
      UpsertIsNoOpIff(db, ps[|ps| - 1]);
    }
  }

  /** From any store at all: a second run over the same problems changes nothing and reports only unchanged. */
  lemma SecondRunIsNoOp(db: Db, ps: seq<Problem>)
    ensures var first := UpsertAll(db, ps);
            UpsertAll(first, ps) == first && TallyOf(first, ps) == Tally(0, 0, |ps|)
  {
    hide UpsertAll, TallyOf, CasesOf;
    forall p | p in ps ensures Recorded(UpsertAll(db, ps), p) {
      RunRecordsWhatSurfaced(db, ps, p.signature);
    }
    RecordedRunIsNoOp(UpsertAll(db, ps), ps);
  }

  /** The cases of every signature depend on which problems were filed, not on their order or number. */
  lemma OrderDoesNotMatter(db: Db, ps: seq<Problem>, qs: seq<Problem>, signature: string)
    requires forall p :: p in ps <==> p in qs
    ensures CasesOf(UpsertAll(db, ps), signature) == CasesOf(UpsertAll(db, qs), signature)
  {
    RunRecordsWhatSurfaced(db, ps, signature);
    RunRecordsWhatSurfaced(db, qs, signature);
  }

  /**
   * The order of the queue's lines does not matter either, as long as time
   * stamps tell the records of one case apart.
   */
  lemma QueueOrderDoesNotMatter(sign: Signer, db: Db, one: seq<Record>, other: seq<Record>, signature: string)
    requires StampsTell(one) && forall r :: r in one <==> r in other
    ensures CasesOf(UpsertAll(db, Filed(sign, one)), signature) == CasesOf(UpsertAll(db, Filed(sign, other)), signature)
  {
    hide CasesOf, UpsertAll, Latest, Failing, AllProblems, Surfaces;
    forall r ensures r in Latest(one) <==> r in Latest(other) {
      KeptIffLatest(one, r);
      KeptIffLatest(other, r);
    }
    forall p ensures p in Filed(sign, one) <==> p in Filed(sign, other) {
      OnlyFailuresAreFiled(sign, Latest(one), p);
      OnlyFailuresAreFiled(sign, Latest(other), p);
    }
    OrderDoesNotMatter(db, Filed(sign, one), Filed(sign, other), signature);
  }

  // ---------------------------------------------------------------- the shape of the store

  predicate NoRepeats(s: seq<string>) { forall i, j :: 0 <= i < j < |s| ==> s[i] != s[j] }

  /** Signatures and ids are distinct, ids come from below nextId, and related cases do not repeat. */
  ghost predicate WellFormed(db: Db) {
    && (forall i, j :: 0 <= i < j < |db.issues| ==>
          db.issues[i].signature != db.issues[j].signature && db.issues[i].id != db.issues[j].id)
    && (forall i :: 0 <= i < |db.issues| ==> IssuedBelow(db.issues[i].id, db.nextId))
    && (forall i :: 0 <= i < |db.issues| ==> NoRepeats(db.issues[i].relatedCases))
  }

  ghost predicate IssuedBelow(id: string, bound: nat) { exists n: nat :: n < bound && id == IdOf(n) }

  /** Issues keep their place and everything but their cases, and cases are only added at the end. */
  ghost predicate Grows(db: Db, later: Db) {
    && db.nextId <= later.nextId && |db.issues| <= |later.issues|
    && forall i :: 0 <= i < |db.issues| ==>
         && later.issues[i].(relatedCases := db.issues[i].relatedCases) == db.issues[i]
         && db.issues[i].relatedCases <= later.issues[i].relatedCases
  }

  lemma IdsDiffer(m: nat, n: nat)
    requires IdOf(m) == IdOf(n)
    ensures m == n
  {
    assert IdOf(m)[1..] == Decimal.Spell(m) && IdOf(n)[1..] == Decimal.Spell(n);
    Decimal.ValueOfSpell(m);
    Decimal.ValueOfSpell(n);
  }

  lemma NextIdIsFree(db: Db, i: nat)
    requires i < |db.issues| && IssuedBelow(db.issues[i].id, db.nextId)
    ensures db.issues[i].id != IdOf(db.nextId) && IssuedBelow(db.issues[i].id, db.nextId + 1)
  {
    hide IdOf;
    var n: nat :| n < db.nextId && db.issues[i].id == IdOf(n);
    if IdOf(n) == IdOf(db.nextId) {
      IdsDiffer(n, db.nextId);
    }
  }

  lemma JustIssued(n: nat)
    ensures IssuedBelow(IdOf(n), n + 1)
  {
  }

  lemma UpsertKeepsShape(db: Db, p: Problem)
    requires WellFormed(db)
    ensures WellFormed(Upserted(db, p).0) && Grows(db, Upserted(db, p).0)
  {
    hide IssuedBelow;
    var after := Upserted(db, p).0;
    if Find(db.issues, p.signature).None? {
      forall i: nat | i < |db.issues|
        ensures db.issues[i].id != IdOf(db.nextId) && IssuedBelow(db.issues[i].id, after.nextId)
      {
        NextIdIsFree(db, i);
      }
      JustIssued(db.nextId);
    }
  }

  /** At every step of a run the store stays well formed and nothing recorded is lost or rewritten. */
  lemma {:induction false} RunKeepsShape(db: Db, ps: seq<Problem>)
    requires WellFormed(db)
    ensures WellFormed(UpsertAll(db, ps)) && Grows(db, UpsertAll(db, ps))
  {
    hide Upserted, WellFormed;
    if ps != [] {
      RunKeepsShape(db, ps[..|ps| - 1]);
      UpsertKeepsShape(UpsertAll(db, ps[..|ps| - 1]), ps[|ps| - 1]);
    }
  }

  // ---------------------------------------------------------------- tickets are bugs

  function SignaturesOf(issues: seq<Issue>): set<string> { set i | i in issues :: i.signature }

  function SignaturesIn(ps: seq<Problem>): set<string> { set p | p in ps :: p.signature }

  lemma UpsertSignatures(db: Db, p: Problem)
    ensures SignaturesOf(Upserted(db, p).0.issues) == SignaturesOf(db.issues) + {p.signature}
  {
    var after, at := Upserted(db, p).0, Find(db.issues, p.signature);
    forall s ensures s in SignaturesOf(after.issues) <==> s in SignaturesOf(db.issues) || s == p.signature {
      if s in SignaturesOf(db.issues) || (s == p.signature && at.Some?) {
        var i :| 0 <= i < |db.issues| && db.issues[i].signature == s;
        assert after.issues[i] in after.issues && after.issues[i].signature == s;
      } else if s == p.signature {
        assert NewIssue(db.nextId, p) in after.issues;
      }
    }
  }

  lemma {:induction false} RunSignatures(db: Db, ps: seq<Problem>)
    ensures SignaturesOf(UpsertAll(db, ps).issues) == SignaturesOf(db.issues) + SignaturesIn(ps)
  {
    hide Upserted, SignaturesOf;
    if ps != [] {
      RunSignatures(db, ps[..|ps| - 1]);
      UpsertSignatures(UpsertAll(db, ps[..|ps| - 1]), ps[|ps| - 1]);
      assert ps == ps[..|ps| - 1] + [ps[|ps| - 1]];
    }
  }

  lemma {:induction false} OneIssuePerSignature(issues: seq<Issue>)
    requires forall i, j :: 0 <= i < j < |issues| ==> issues[i].signature != issues[j].signature
    ensures |issues| == |SignaturesOf(issues)|
  {
    if issues != [] {
      var n := |issues| - 1;
      OneIssuePerSignature(issues[..n]);
      assert issues == issues[..n] + [issues[n]];
      assert SignaturesOf(issues) == SignaturesOf(issues[..n]) + {issues[n].signature};
    }
  }

  /** After any run the tracker holds one issue for each distinct problem ever surfaced: tickets are bugs. */
  lemma TicketsAreBugs(db: Db, ps: seq<Problem>)
    requires WellFormed(db)
    ensures |UpsertAll(db, ps).issues| == |SignaturesOf(db.issues) + SignaturesIn(ps)|
  {
    hide UpsertAll, SignaturesOf, SignaturesIn, IssuedBelow;
    RunKeepsShape(db, ps);
    RunSignatures(db, ps);
    OneIssuePerSignature(UpsertAll(db, ps).issues);
  }

  // ---------------------------------------------------------------- the tally

  function Attachments(issues: seq<Issue>): nat {
    if issues == [] then 0 else Attachments(issues[..|issues| - 1]) + |issues[|issues| - 1].relatedCases|
  }

  lemma {:induction false} AttachOneMore(issues: seq<Issue>, at: nat, issue: Issue)
    requires at < |issues|
    ensures Attachments(issues[at := issue]) + |issues[at].relatedCases| == Attachments(issues) + |issue.relatedCases|
  {
    var n := |issues| - 1;
    var after := issues[at := issue];
    if at == n {
      assert after[..n] == issues[..n];
    } else {
      assert after[..n] == issues[..n][at := issue];
      AttachOneMore(issues[..n], at, issue);
    }
  }

  /** The tally is the change of the store: issues opened, cases attached, and the rest already recorded. */
  lemma {:induction false} TallyCountsTheChange(db: Db, ps: seq<Problem>)
    ensures var after, t := UpsertAll(db, ps), TallyOf(db, ps);
            && t.created + |db.issues| == |after.issues| && t.created + db.nextId == after.nextId
            && t.created + t.attached + Attachments(db.issues) == Attachments(after.issues)
            && t.created + t.attached + t.same == |ps|
  {
    hide Upserted, Attachments;
    if ps != [] {
      TallyCountsTheChange(db, ps[..|ps| - 1]);
      CountOneMore(UpsertAll(db, ps[..|ps| - 1]), ps[|ps| - 1]);
    }
  }

  lemma CountOneMore(db: Db, p: Problem)
    ensures var (after, action) := Upserted(db, p);
            && |after.issues| == after.nextId - db.nextId + |db.issues|
            && after.nextId == db.nextId + (if action.Created? then 1 else 0)
            && Attachments(after.issues) == Attachments(db.issues) + (if action.Unchanged? then 0 else 1)
  {
    var after, at := Upserted(db, p).0, Find(db.issues, p.signature);
    if at.Some? {
      if p.caseId !in db.issues[at.value].relatedCases {
        AttachOneMore(db.issues, at.value, after.issues[at.value]);
      }
    } else {
      assert after.issues[..|db.issues|] == db.issues;
    }
  }

  // ---------------------------------------------------------------- who writes the ticket

  function FirstWith(ps: seq<Problem>, signature: string): Option<Problem> {
    if ps == [] then None
    else
      var before := FirstWith(ps[..|ps| - 1], signature);
      if before.None? && ps[|ps| - 1].signature == signature then Some(ps[|ps| - 1]) else before
  }

  /** The problem's text is the issue's. */
  predicate Describes(p: Problem, i: Issue) {
    i.title == p.title && i.moduleName == p.moduleName && i.detail == p.detail && i.severity == p.severity
  }

  lemma UpsertKeepsText(db: Db, p: Problem, signature: string, q: Problem)
    requires var at := Find(db.issues, signature); at.Some? ==> Describes(q, db.issues[at.value])
    requires Find(db.issues, signature).None? && p.signature == signature ==> q == p
    ensures Find(Upserted(db, p).0.issues, signature).Some?
            <==> Find(db.issues, signature).Some? || p.signature == signature
    ensures var at := Find(Upserted(db, p).0.issues, signature);
            at.Some? ==> Describes(q, Upserted(db, p).0.issues[at.value])
  {
    var after, was := Upserted(db, p).0, Find(db.issues, signature);
    if was.Some? {
      FoundAt(after.issues, signature, was.value);
    } else if p.signature == signature {
      FoundAt(after.issues, signature, |db.issues|);
    }
  }

  /** A new issue is described by the first problem that surfaced it; later ones only attach their cases. */
  lemma {:induction false} FirstProblemDescribes(db: Db, ps: seq<Problem>, signature: string)
    requires Find(db.issues, signature).None?
    ensures var at := Find(UpsertAll(db, ps).issues, signature);
            && (at.Some? <==> FirstWith(ps, signature).Some?)
            && (at.Some? ==> Describes(FirstWith(ps, signature).value, UpsertAll(db, ps).issues[at.value]))
  {
    hide Upserted, Find, Describes;
    if ps != [] {
      var n := |ps| - 1;
      FirstProblemDescribes(db, ps[..n], signature);
      var first := FirstWith(ps, signature);
      UpsertKeepsText(UpsertAll(db, ps[..n]), ps[n], signature, if first.Some? then first.value else ps[n]);
    }
  }
}
