/** A chain of blocks with parent-committing hashes, and the logs a node answers for a range of it. */
module Chain {
  import opened Store

  /** What the contract's getters answer for one market, and the oracle's price for it. */
  datatype MarketGetter = MarketGetter(symbol: string, status: nat, tickSize: nat, stepSize: nat, minNotional: nat,
                                       maxLeverage: nat, makerFeeBps: int, takerFeeBps: nat, maxBasisBps: nat,
                                       price: nat, publishTime: nat)

  /** `salt` stands for the header fields that tell two blocks with the same logs apart. */
  datatype Block = Block(logs: seq<Log>, getters: seq<MarketGetter>, salt: nat)

  type Blocks = seq<Block>

  /** A collision-free hash that commits to the parent: the term itself. */
  datatype Digest = Root | Digest(parent: Digest, block: Block)

  function HashAt(c: Blocks, n: nat): Digest
    requires n < |c|
  {
    Digest(if n == 0 then Root else HashAt(c, n - 1), c[n])
  }

  /** Equal hashes at one height mean equal chains up to that height, and the other way round. */
  lemma {:induction false} HashCommitsToPrefix(a: Blocks, b: Blocks, n: nat)
    requires n < |a| && n < |b|
    ensures HashAt(a, n) == HashAt(b, n) <==> a[..n + 1] == b[..n + 1]
  {
    if n == 0 {
      assert a[..1] == [a[0]] && b[..1] == [b[0]];
    } else {
      HashCommitsToPrefix(a, b, n - 1);
      assert a[..n + 1] == a[..n] + [a[n]] && b[..n + 1] == b[..n] + [b[n]];
      assert a[..n + 1] == b[..n + 1] ==> a[..n] == a[..n + 1][..n] == b[..n + 1][..n] == b[..n];
    }
  }

  /** The two chains share every block up to and including `n`; -1 asks for nothing. */
  predicate Agree(a: Blocks, b: Blocks, n: int) {
    n < 0 || (n < |a| && n < |b| && a[..n + 1] == b[..n + 1])
  }

  // ---------------------------------------------------------------- log order

  predicate Before(a: Log, b: Log) {
    a.block < b.block || (a.block == b.block && a.index < b.index)
  }

  predicate StrictlyOrdered(logs: seq<Log>) {
    forall i, j :: 0 <= i < j < |logs| ==> Before(logs[i], logs[j])
  }

  /** A node's chain: never empty, and each block numbers its own logs. */
  predicate WellFormed(c: Blocks) {
    c != [] && forall b :: 0 <= b < |c| ==> NumbersItsLogs(c[b].logs, b)
  }

  predicate NumbersItsLogs(logs: seq<Log>, block: nat) {
    StrictlyOrdered(logs) && forall i :: 0 <= i < |logs| ==> logs[i].block == block
  }

  /** The logs eth_getLogs selects by address. */
  function Followed(logs: seq<Log>): seq<Log> {
    if logs == [] then []
    else
      var rest := Followed(logs[..|logs| - 1]);
      if logs[|logs| - 1].source == Other then rest else rest + [logs[|logs| - 1]]
  }

  /** The followed logs of blocks lo .. hi - 1, in chain order. */
  function Logs(c: Blocks, lo: nat, hi: nat): seq<Log>
    requires lo <= hi <= |c|
  {
    if lo == hi then [] else Logs(c, lo, hi - 1) + Followed(c[hi - 1].logs)
  }

  function Min(a: int, b: int): int { if a <= b then a else b }

  /** What a node answers for fromBlock .. toBlock, whatever part of it the chain still has. */
  function RangeLogs(c: Blocks, from: nat, to: int): seq<Log> {
    var hi := Min(to + 1, |c|);
    if from <= hi then Logs(c, from, hi) else []
  }

  lemma {:induction false} FollowedKeepsOrder(logs: seq<Log>, block: nat)
    requires NumbersItsLogs(logs, block)
    ensures NumbersItsLogs(Followed(logs), block)
    ensures forall log :: log in Followed(logs) ==> log in logs
  {
    if logs != [] {
      var n := |logs| - 1;
      FollowedKeepsOrder(logs[..n], block);
      var rest := Followed(logs[..n]);
      forall i | 0 <= i < |rest| ensures Before(rest[i], logs[n]) {
        assert rest[i] in logs[..n];
        var k :| 0 <= k < n && logs[k] == rest[i];
      }
    }
  }

  lemma {:induction false} FollowedAre(logs: seq<Log>, log: Log)
    ensures log in Followed(logs) <==> log in logs && log.source != Other
  {
    if logs != [] {
      var n := |logs| - 1;
      FollowedAre(logs[..n], log);
      assert logs == logs[..n] + [logs[n]];
    }
  }

  /** A range's logs are exactly those its blocks hold from the exchange or the oracle. */
  lemma {:induction false} LogsAre(c: Blocks, lo: nat, hi: nat, log: Log)
    requires lo <= hi <= |c|
    ensures log in Logs(c, lo, hi)
            <==> (log.source == Exchange || log.source == Oracle) && exists b :: lo <= b < hi && log in c[b].logs
  {
    hide Followed;
    if lo < hi {
      LogsAre(c, lo, hi - 1, log);
      FollowedAre(c[hi - 1].logs, log);
    }
  }

  lemma ConcatOrdered(a: seq<Log>, b: seq<Log>)
    requires StrictlyOrdered(a) && StrictlyOrdered(b) && forall x, y :: x in a && y in b ==> Before(x, y)
    ensures StrictlyOrdered(a + b)
  {
  }

  lemma {:induction false} LogsOrdered(c: Blocks, lo: nat, hi: nat)
    requires WellFormed(c) && lo <= hi <= |c|
    ensures StrictlyOrdered(Logs(c, lo, hi))
    ensures forall i :: 0 <= i < |Logs(c, lo, hi)| ==> lo <= Logs(c, lo, hi)[i].block < hi
  {
    if lo < hi {
      hide Followed, StrictlyOrdered;
      LogsOrdered(c, lo, hi - 1);
      FollowedKeepsOrder(c[hi - 1].logs, hi - 1);
      ConcatOrdered(Logs(c, lo, hi - 1), Followed(c[hi - 1].logs));
    }
  }

  lemma {:induction false} LogsSplit(c: Blocks, lo: nat, mid: nat, hi: nat)
    requires lo <= mid <= hi <= |c|
    ensures Logs(c, lo, hi) == Logs(c, lo, mid) + Logs(c, mid, hi)
  {
    if mid < hi {
      LogsSplit(c, lo, mid, hi - 1);
    }
  }

  lemma {:induction false} LogsOfEqualPrefixes(a: Blocks, b: Blocks, lo: nat, hi: nat)
    requires lo <= hi <= |a| && hi <= |b| && a[..hi] == b[..hi]
    ensures Logs(a, lo, hi) == Logs(b, lo, hi)
  {
    if lo < hi {
      assert a[..hi - 1] == a[..hi][..hi - 1] == b[..hi][..hi - 1] == b[..hi - 1];
      assert a[hi - 1] == a[..hi][hi - 1] == b[..hi][hi - 1] == b[hi - 1];
      LogsOfEqualPrefixes(a, b, lo, hi - 1);
    }
  }

  // ---------------------------------------------------------------- sorting an answer

  /** Stable insertion by (block, log index), the comparator `sync` hands to Array.sort. */
  function Insert(sorted: seq<Log>, log: Log): (r: seq<Log>)
    ensures multiset(r) == multiset(sorted) + multiset{log}
  {
    if sorted == [] then [log]
    else
      var n := |sorted| - 1;
      assert sorted == sorted[..n] + [sorted[n]];
      if Before(log, sorted[n]) then Insert(sorted[..n], log) + [sorted[n]] else sorted + [log]
  }

  function Sort(logs: seq<Log>): (r: seq<Log>)
    ensures multiset(r) == multiset(logs)
  {
    if logs == [] then []
    else
      var n := |logs| - 1;
      assert logs == logs[..n] + [logs[n]];
      Insert(Sort(logs[..n]), logs[n])
  }

  predicate Sorted(logs: seq<Log>) {
    forall i, j :: 0 <= i < j < |logs| ==> !Before(logs[j], logs[i])
  }

  lemma InsertedElements(sorted: seq<Log>, log: Log, x: Log)
    requires x in Insert(sorted, log)
    ensures x in sorted || x == log
  {
    hide Insert;
    assert x in multiset(Insert(sorted, log));
  }

  lemma AppendSorts(sorted: seq<Log>, last: Log)
    requires Sorted(sorted) && forall x :: x in sorted ==> !Before(last, x)
    ensures Sorted(sorted + [last])
  {
  }

  lemma {:induction false} InsertSorts(sorted: seq<Log>, log: Log)
    requires Sorted(sorted)
    ensures Sorted(Insert(sorted, log))
  {
    if sorted == [] {
    } else if Before(log, sorted[|sorted| - 1]) {
      var n := |sorted| - 1;
      InsertSorts(sorted[..n], log);
      forall x | x in Insert(sorted[..n], log) ensures !Before(sorted[n], x) {
        InsertedElements(sorted[..n], log, x);
      }
      hide Sorted;
      AppendSorts(Insert(sorted[..n], log), sorted[n]);
    } else {
      LastIsLatest(sorted, log);
      hide Sorted;
      AppendSorts(sorted, log);
    }
  }

  lemma LastIsLatest(sorted: seq<Log>, log: Log)
    requires Sorted(sorted) && sorted != [] && !Before(log, sorted[|sorted| - 1])
    ensures forall x :: x in sorted ==> !Before(log, x)
  {
    forall x | x in sorted ensures !Before(log, x) {
      var k :| 0 <= k < |sorted| && sorted[k] == x;
      assert k < |sorted| - 1 ==> !Before(sorted[|sorted| - 1], sorted[k]);
    }
  }

  lemma {:induction false} SortSorts(logs: seq<Log>)
    ensures Sorted(Sort(logs))
  {
    if logs != [] {
      SortSorts(logs[..|logs| - 1]);
      InsertSorts(Sort(logs[..|logs| - 1]), logs[|logs| - 1]);
    }
  }

  lemma {:induction false} SortedIsUnique(s: seq<Log>, t: seq<Log>)
    requires Sorted(s) && StrictlyOrdered(t) && multiset(s) == multiset(t)
    ensures s == t
  {
    SameLength(s, t);
    if t != [] {
      var n := |t| - 1;
      SameLast(s, t, n);
      DropLast(s, n);
      DropLast(t, n);
      SortedIsUnique(s[..n], t[..n]);
      assert s == s[..n] + [s[n]] && t == t[..n] + [t[n]];
    }
  }

  lemma SameLength(s: seq<Log>, t: seq<Log>)
    requires multiset(s) == multiset(t)
    ensures |s| == |t|
  {
    assert |s| == |multiset(s)| == |multiset(t)| == |t|;
  }

  lemma DropLast(s: seq<Log>, n: nat)
    requires |s| == n + 1
    ensures multiset(s[..n]) == multiset(s) - multiset{s[n]}
  {
    assert s == s[..n] + [s[n]];
  }

  lemma SameLast(s: seq<Log>, t: seq<Log>, n: nat)
    requires Sorted(s) && StrictlyOrdered(t) && multiset(s) == multiset(t) && |s| == |t| == n + 1
    ensures s[n] == t[n]
  {
    assert s[n] in multiset(t) && t[n] in multiset(s);
    var k :| 0 <= k <= n && t[k] == s[n];
    var j :| 0 <= j <= n && s[j] == t[n];
    LastIsGreatest(t, n, k);
    LastIsNotBefore(s, n, j);
  }

  lemma LastIsGreatest(t: seq<Log>, n: nat, k: nat)
    requires StrictlyOrdered(t) && |t| == n + 1 && k <= n
    ensures k == n || Before(t[k], t[n])
  {
  }

  lemma LastIsNotBefore(s: seq<Log>, n: nat, j: nat)
    requires Sorted(s) && |s| == n + 1 && j <= n
    ensures !Before(s[n], s[j])
  {
  }

  /** In whatever order a node lists a range, sorting gives the chain's own order. */
  lemma SortRecoversChainOrder(answer: seq<Log>, canonical: seq<Log>)
    requires StrictlyOrdered(canonical) && multiset(answer) == multiset(canonical)
    ensures Sort(answer) == canonical
  {
    SortSorts(answer);
    SortedIsUnique(Sort(answer), canonical);
  }
}
