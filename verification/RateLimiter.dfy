/** The fixed-window rate limiter, one bucket per client. */
module RateLimiter {
  import opened Options

  datatype Bucket = Bucket(start: nat, count: nat)
  datatype Hit = Hit(client: string, now: nat)
  datatype Verdict = Admitted(remaining: nat, resetIn: nat) | Refused(retryAfter: nat)

  function CeilDiv(a: nat, b: nat): nat
    requires b > 0
  {
    (a + b - 1) / b
  }

  datatype Limits = Limits(limit: nat, windowMs: nat) {

    /** The client's bucket after one more request at `now`. */
    function Touched(b: Option<Bucket>, now: nat): Bucket {
      if b.None? || now - b.value.start >= windowMs then Bucket(now, 1) else b.value.(count := b.value.count + 1)
    }

    /** The client's bucket after a history of requests from anyone. */
    function BucketOf(hits: seq<Hit>, client: string): Option<Bucket> {
      if hits == [] then None
      else
        var before, last := BucketOf(hits[..|hits| - 1], client), hits[|hits| - 1];
        if last.client == client then Some(Touched(before, last.now)) else before
    }

    predicate Admits(hits: seq<Hit>, h: Hit) { Touched(BucketOf(hits, h.client), h.now).count <= limit }

    /** The answer to a request after a history of requests from anyone. */
    function Answer(hits: seq<Hit>, h: Hit): Verdict {
      var b := Touched(BucketOf(hits, h.client), h.now);
      var resetIn := if b.start + windowMs > h.now then CeilDiv(b.start + windowMs - h.now, 1000) else 0;
      if Admits(hits, h) then Admitted(limit - b.count, resetIn) else Refused(resetIn)
    }

    /** How many of a client's requests in [lo, hi) were made, and how many were admitted. */
    function Requests(hits: seq<Hit>, client: string, lo: int, hi: int): nat {
      if hits == [] then 0
      else
        var last := hits[|hits| - 1];
        Requests(hits[..|hits| - 1], client, lo, hi) + (if last.client == client && lo <= last.now < hi then 1 else 0)
    }

    function AdmittedIn(hits: seq<Hit>, client: string, lo: int, hi: int): nat {
      if hits == [] then 0
      else
        var before, last := hits[..|hits| - 1], hits[|hits| - 1];
        AdmittedIn(before, client, lo, hi)
        + (if last.client == client && lo <= last.now < hi && Admits(before, last) then 1 else 0)
    }
  }

  class Limiter {
    const limits: Limits
    var buckets: map<string, Bucket>
    ghost var hits: seq<Hit>

    ghost predicate Valid()
      reads this
    {
      (forall i, j :: 0 <= i < j < |hits| ==> hits[i].now <= hits[j].now)
      && forall c: string :: limits.BucketOf(hits, c) == (if c in buckets then Some(buckets[c]) else None)
    }

    constructor (limits: Limits)
      ensures Valid() && hits == [] && this.limits == limits
    {
      this.limits := limits;
      buckets := map[];
      hits := [];
    }

    /** One request. The clock is the caller's and never runs backwards. */
    method Check(client: string, now: nat) returns (v: Verdict)
      requires Valid() && (hits != [] ==> hits[|hits| - 1].now <= now)
      modifies this
      ensures Valid() && hits == old(hits) + [Hit(client, now)]
      ensures v == limits.Answer(old(hits), Hit(client, now))
    {
      var b: Bucket;
      if client !in buckets || now - buckets[client].start >= limits.windowMs {
        b := Bucket(now, 0);
      } else {
        b := buckets[client];
      }
      b := b.(count := b.count + 1);
      buckets := buckets[client := b];
      assert (hits + [Hit(client, now)])[..|hits|] == hits;
      hits := hits + [Hit(client, now)];
      var left := b.start + limits.windowMs - now;
      var resetIn := if left > 0 then CeilDiv(left, 1000) else 0;
      if b.count > limits.limit {
        return Refused(resetIn);
      }
      return Admitted(limits.limit - b.count, resetIn);
    }
  }

  ghost predicate Ordered(hits: seq<Hit>) { forall i, j :: 0 <= i < j < |hits| ==> hits[i].now <= hits[j].now }

  // ---------------------------------------------------------------- clients do not affect each other

  function Only(hits: seq<Hit>, client: string): seq<Hit> {
    if hits == [] then []
    else
      var rest, last := Only(hits[..|hits| - 1], client), hits[|hits| - 1];
      if last.client == client then rest + [last] else rest
  }

  /** A client's bucket is what its own requests alone would have made it. */
  lemma {:induction false} ClientsAreIndependent(l: Limits, hits: seq<Hit>, client: string)
    ensures l.BucketOf(hits, client) == l.BucketOf(Only(hits, client), client)
  {
    if hits != [] {
      var rest, last := Only(hits[..|hits| - 1], client), hits[|hits| - 1];
      ClientsAreIndependent(l, hits[..|hits| - 1], client);
      assert (rest + [last])[..|rest|] == rest;
    }
  }

  // ---------------------------------------------------------------- how many get through

  function Least(a: nat, b: nat): nat { if a <= b then a else b }

  lemma {:induction false} BucketIsPast(l: Limits, hits: seq<Hit>, client: string)
    requires Ordered(hits) && l.BucketOf(hits, client).Some?
    ensures hits != [] && l.BucketOf(hits, client).value.start <= hits[|hits| - 1].now
    ensures l.BucketOf(hits, client).value.count >= 1
  {
    if hits[|hits| - 1].client != client {
      BucketIsPast(l, hits[..|hits| - 1], client);
    } else if l.BucketOf(hits[..|hits| - 1], client).Some? {
      BucketIsPast(l, hits[..|hits| - 1], client);
    }
  }

  /** What an interval of window length can hold, by where the current bucket started. */
  ghost predicate Spread(l: Limits, hits: seq<Hit>, client: string, t: int) {
    var n, b := l.AdmittedIn(hits, client, t, t + l.windowMs), l.BucketOf(hits, client);
    if b.None? then n == 0
    else if b.value.start < t then n <= Least(b.value.count, l.limit)
    else if b.value.start < t + l.windowMs then n <= l.limit + Least(b.value.count, l.limit)
    else n <= 2 * l.limit
  }

  lemma {:induction false} SpreadHolds(l: Limits, hits: seq<Hit>, client: string, t: int)
    requires Ordered(hits)
    ensures Spread(l, hits, client, t)
  {
    if hits != [] {
      var before := hits[..|hits| - 1];
      if hits[|hits| - 1].now < t {
        NothingBefore(l, hits, client, t);
      }
      SpreadHolds(l, before, client, t);
      if l.BucketOf(before, client).Some? {
        BucketIsPast(l, before, client);
      }
    }
  }

  /** At most twice the limit in any half-open interval as long as the window. */
  lemma AtMostTwiceTheLimit(l: Limits, hits: seq<Hit>, client: string, t: int)
    requires Ordered(hits)
    ensures l.AdmittedIn(hits, client, t, t + l.windowMs) <= 2 * l.limit
  {
    SpreadHolds(l, hits, client, t);
  }

  /** A request that opens a new bucket. */
  predicate Opens(l: Limits, before: seq<Hit>, h: Hit) {
    var b := l.BucketOf(before, h.client);
    b.None? || h.now - b.value.start >= l.windowMs
  }

  lemma {:induction false} NothingYet(l: Limits, before: seq<Hit>, h: Hit)
    requires Ordered(before + [h]) && Opens(l, before, h) && l.windowMs > 0
    ensures l.Requests(before, h.client, h.now, h.now + l.windowMs) == 0
    ensures l.AdmittedIn(before, h.client, h.now, h.now + l.windowMs) == 0
  {
    if before != [] {
      var n := |before| - 1;
      var last := before[n];
      assert (before + [h])[n] == last && (before + [h])[n + 1] == h;
      OrderedPrefix(before, [h]);
      if last.client == h.client {
        LastBucketIsOld(l, before, h);
      }
      if last.now >= h.now {
        if last.client != h.client {
          assert Ordered(before[..n] + [h]) by { DropBeforeLast(before, h); }
          NothingYet(l, before[..n], h);
        }
      } else {
        NothingBefore(l, before, h.client, h.now);
      }
    }
  }

  lemma OrderedPrefix(a: seq<Hit>, b: seq<Hit>)
    requires Ordered(a + b)
    ensures Ordered(a)
  {
    assert forall i :: 0 <= i < |a| ==> (a + b)[i] == a[i];
  }

  lemma DropBeforeLast(before: seq<Hit>, h: Hit)
    requires Ordered(before + [h]) && before != []
    ensures Ordered(before[..|before| - 1] + [h])
  {
    var n := |before| - 1;
    var all, short := before + [h], before[..n] + [h];
    forall i, j | 0 <= i < j < |short| ensures short[i].now <= short[j].now {
      assert short[i] == all[i] && short[j] == (if j < n then all[j] else all[n + 1]);
    }
  }

  /** The bucket of a client whose request was the last one covers that request. */
  lemma LastBucketIsOld(l: Limits, before: seq<Hit>, h: Hit)
    requires before != [] && before[|before| - 1].client == h.client && Ordered(before) && l.windowMs > 0
    requires Opens(l, before, h)
    ensures before[|before| - 1].now < h.now
  {
    BucketCovers(l, before, h.client);
  }

  lemma BucketCovers(l: Limits, hits: seq<Hit>, client: string)
    requires hits != [] && hits[|hits| - 1].client == client && Ordered(hits) && l.windowMs > 0
    ensures l.BucketOf(hits, client).Some? && hits[|hits| - 1].now - l.BucketOf(hits, client).value.start < l.windowMs
  {
  }

  lemma {:induction false} NothingBefore(l: Limits, hits: seq<Hit>, client: string, t: int)
    requires Ordered(hits) && (hits != [] ==> hits[|hits| - 1].now < t)
    ensures l.Requests(hits, client, t, t + l.windowMs) == 0 && l.AdmittedIn(hits, client, t, t + l.windowMs) == 0
  {
    if |hits| > 1 {
      assert hits[|hits| - 2].now <= hits[|hits| - 1].now;
    }
    if hits != [] {
      NothingBefore(l, hits[..|hits| - 1], client, t);
    }
  }

  ghost predicate WindowState(l: Limits, hits: seq<Hit>, h: Hit) {
    var made := l.Requests(hits, h.client, h.now, h.now + l.windowMs);
    var b := l.BucketOf(hits, h.client);
    && b.Some? && b.value.start >= h.now
    && (b.value.start < h.now + l.windowMs ==> b.value.start == h.now && b.value.count == made)
    && l.AdmittedIn(hits, h.client, h.now, h.now + l.windowMs) == Least(made, l.limit)
  }

  lemma {:induction false} WindowOpens(l: Limits, before: seq<Hit>, h: Hit)
    requires Ordered(before + [h]) && Opens(l, before, h) && l.windowMs > 0
    ensures WindowState(l, before + [h], h)
  {
    hide Ordered;
    var hits := before + [h];
    assert hits[..|hits| - 1] == before && hits[|hits| - 1] == h;
    NothingYet(l, before, h);
    assert l.BucketOf(hits, h.client) == Some(Bucket(h.now, 1));
    assert l.Requests(hits, h.client, h.now, h.now + l.windowMs) == 1;
  }

  lemma OrderedSteps(before: seq<Hit>, h: Hit, more: seq<Hit>)
    requires Ordered(before + [h] + more) && more != []
    ensures Ordered(before + [h] + more[..|more| - 1]) && h.now <= more[|more| - 1].now
  {
    var hits, n := before + [h] + more, |more| - 1;
    assert hits[..|hits| - 1] == before + [h] + more[..n];
    assert hits[|before|] == h && hits[|hits| - 1] == more[n];
  }

  /** From the request that opens a bucket on: either the bucket is still current, or its window is over. */
  lemma {:induction false} WindowCount(l: Limits, before: seq<Hit>, h: Hit, more: seq<Hit>)
    requires Ordered(before + [h] + more) && Opens(l, before, h) && l.windowMs > 0
    ensures WindowState(l, before + [h] + more, h)
  {
    hide Ordered, Opens, WindowState;
    var hits := before + [h] + more;
    if more == [] {
      assert hits == before + [h];
      WindowOpens(l, before, h);
    } else {
      var n := |more| - 1;
      assert hits[..|hits| - 1] == before + [h] + more[..n] && hits[|hits| - 1] == more[n];
      OrderedSteps(before, h, more);
      WindowCount(l, before, h, more[..n]);
      WindowStep(l, before + [h] + more[..n], hits, more[n], h);
    }
  }

  /** One more request in or after the window that `h` opened. */
  lemma WindowStep(l: Limits, was: seq<Hit>, hits: seq<Hit>, last: Hit, h: Hit)
    requires hits != [] && hits[..|hits| - 1] == was && hits[|hits| - 1] == last && Ordered(hits) && h.now <= last.now
    requires WindowState(l, was, h) && l.windowMs > 0
    ensures WindowState(l, hits, h)
  {
    assert Ordered(was);
    BucketIsPast(l, was, h.client);
    assert hits[|hits| - 2] == was[|was| - 1];
  }

  /** Of the requests made in a window, exactly the first `limit` are admitted. */
  lemma WindowAdmitsExactlyTheLimit(l: Limits, before: seq<Hit>, h: Hit, more: seq<Hit>)
    requires Ordered(before + [h] + more) && Opens(l, before, h) && l.windowMs > 0
    ensures var hits := before + [h] + more;
            l.AdmittedIn(hits, h.client, h.now, h.now + l.windowMs)
            == Least(l.Requests(hits, h.client, h.now, h.now + l.windowMs), l.limit)
  {
    WindowCount(l, before, h, more);
  }

  // ---------------------------------------------------------------- what a refusal promises

  ghost function RetryAfter(l: Limits, hits: seq<Hit>, h: Hit): int {
    var b := l.Touched(l.BucketOf(hits, h.client), h.now);
    if b.start + l.windowMs > h.now then CeilDiv(b.start + l.windowMs - h.now, 1000) else 0
  }

  /** A refusal asks for at least a second, and after that long the client's next request is admitted. */
  lemma RetryAfterIsEnough(l: Limits, hits: seq<Hit>, h: Hit, others: seq<Hit>, next: Hit)
    requires l.limit >= 1 && !l.Admits(hits, h) && next.client == h.client
    requires forall i :: 0 <= i < |others| ==> others[i].client != h.client
    requires next.now >= h.now + 1000 * RetryAfter(l, hits, h)
    ensures RetryAfter(l, hits, h) >= 1
    ensures l.Admits(hits + [h] + others, next)
  {
    OthersDoNotMatter(l, hits + [h], others, h.client);
    assert (hits + [h])[..|hits|] == hits;
    CeilCovers(l.Touched(l.BucketOf(hits, h.client), h.now).start + l.windowMs - h.now);
  }

  /** Nor does it ask for a second too many: one less would not cover what is left of the window. */
  lemma RetryAfterIsLeast(l: Limits, hits: seq<Hit>, h: Hit)
    requires Ordered(hits + [h]) && l.windowMs > 0
    ensures var left := l.Touched(l.BucketOf(hits, h.client), h.now).start + l.windowMs - h.now;
            && 0 < left <= l.windowMs
            && 1000 * (RetryAfter(l, hits, h) - 1) < left <= 1000 * RetryAfter(l, hits, h)
  {
    var b := l.BucketOf(hits, h.client);
    if b.Some? {
      OrderedPrefix(hits, [h]);
      BucketIsPast(l, hits, h.client);
      assert (hits + [h])[|hits| - 1] == hits[|hits| - 1] && (hits + [h])[|hits|] == h;
    }
  }

  /** One request in words: the window it falls in, how many came before it there, and the answer that follows. */
  lemma AnswerCountsTheWindow(l: Limits, before: seq<Hit>, first: Hit, more: seq<Hit>, now: nat)
    requires Ordered(before + [first] + more + [Hit(first.client, now)]) && Opens(l, before, first) && l.windowMs > 0
    requires now < first.now + l.windowMs
    ensures var hits := before + [first] + more;
            var made := l.Requests(hits, first.client, first.now, first.now + l.windowMs);
            var left := first.now + l.windowMs - now;
            match l.Answer(hits, Hit(first.client, now))
            case Admitted(remaining, resetIn) =>
              made + 1 <= l.limit && remaining == l.limit - (made + 1)
              && 1000 * (resetIn - 1) < left <= 1000 * resetIn
            case Refused(retryAfter) =>
              made + 1 > l.limit && 1000 * (retryAfter - 1) < left <= 1000 * retryAfter
  {
    hide Ordered, Opens;
    var hits := before + [first] + more;
    OrderedPrefix(hits, [Hit(first.client, now)]);
    WindowCount(l, before, first, more);
    LastIsNotBefore(hits, Hit(first.client, now));
    BucketIsPast(l, hits, first.client);
  }

  /** A request that opens a window is the first in it. */
  lemma OpeningRequestIsTheFirst(l: Limits, before: seq<Hit>, h: Hit)
    requires Opens(l, before, h) && l.windowMs > 0
    ensures match l.Answer(before, h)
            case Admitted(remaining, resetIn) =>
              l.limit >= 1 && remaining == l.limit - 1 && 1000 * (resetIn - 1) < l.windowMs <= 1000 * resetIn
            case Refused(retryAfter) =>
              l.limit == 0 && 1000 * (retryAfter - 1) < l.windowMs <= 1000 * retryAfter
  {
  }

  /** Any other request falls in the window that some earlier request of its client opened. */
  lemma {:induction false} OthersFallInAWindow(l: Limits, hits: seq<Hit>, h: Hit) returns (k: nat)
    requires !Opens(l, hits, h)
    ensures k < |hits| && hits[k].client == h.client && Opens(l, hits[..k], hits[k])
    ensures l.BucketOf(hits, h.client).value.start == hits[k].now && h.now < hits[k].now + l.windowMs
  {
    var n := |hits| - 1;
    if hits[n].client == h.client && Opens(l, hits[..n], hits[n]) {
      k := n;
    } else {
      k := OthersFallInAWindow(l, hits[..n], Hit(h.client, if hits[n].client == h.client then hits[n].now else h.now));
      assert hits[..n][..k] == hits[..k];
    }
  }

  lemma LastIsNotBefore(hits: seq<Hit>, h: Hit)
    requires Ordered(hits + [h]) && hits != []
    ensures hits[|hits| - 1].now <= h.now
  {
    assert (hits + [h])[|hits| - 1] == hits[|hits| - 1] && (hits + [h])[|hits|] == h;
  }

  lemma CeilCovers(left: int)
    ensures left > 0 ==> 1000 * CeilDiv(left, 1000) >= left && CeilDiv(left, 1000) >= 1
  {
  }

  lemma {:induction false} OthersDoNotMatter(l: Limits, hits: seq<Hit>, others: seq<Hit>, client: string)
    requires forall i :: 0 <= i < |others| ==> others[i].client != client
    ensures l.BucketOf(hits + others, client) == l.BucketOf(hits, client)
  {
    if others == [] {
      assert hits + others == hits;
    } else {
      var n := |others| - 1;
      assert (hits + others)[..|hits + others| - 1] == hits + others[..n];
      OthersDoNotMatter(l, hits, others[..n], client);
    }
  }
}
