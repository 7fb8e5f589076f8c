/** Keyset pagination over (block, log): the cursor, one page, and a client's walk over a growing table. */
module Paging {
  import opened Options
  import opened Decimal

  // ---------------------------------------------------------------- the cursor and the limit

  datatype Position = Position(block: nat, log: nat)

  /** The text inside the base64url wrapping. */
  function CursorOf(p: Position): string { Spell(p.block) + ":" + Spell(p.log) }

  /** The place of the first colon, or the end of the text. */
  function ColonIn(s: string): (i: nat)
    ensures i <= |s| && (forall k :: 0 <= k < i ==> s[k] != ':') && (i < |s| ==> s[i] == ':')
  {
    if s == [] || s[0] == ':' then 0 else 1 + ColonIn(s[1..])
  }

  /** The pattern digits, colon, digits; anything else is malformed. */
  function ParseCursor(raw: string): Option<Position> {
    var i := ColonIn(raw);
    if 0 < i < |raw| - 1 && AllDigits(raw[..i]) && AllDigits(raw[i + 1..]) then
      Some(Position(Value(raw[..i]), Value(raw[i + 1..])))
    else None
  }

  lemma ColonAfterDigits(a: string, b: string)
    requires AllDigits(a)
    ensures ColonIn(a + ":" + b) == |a|
  {
    var s := a + ":" + b;
    assert s[|a|] == ':' && forall k :: 0 <= k < |a| ==> s[k] == a[k];
  }

  /** A cursor brings back exactly the pair it was made from. */
  lemma CursorRoundTrip(p: Position)
    ensures ParseCursor(CursorOf(p)) == Some(p)
  {
    var a, b := Spell(p.block), Spell(p.log);
    ColonAfterDigits(a, b);
    assert (a + ":" + b)[..|a|] == a && (a + ":" + b)[|a| + 1..] == b;
    ValueOfSpell(p.block);
    ValueOfSpell(p.log);
  }

  /** Every accepted text is two digit strings around one colon, read as numbers; nothing else is accepted. */
  lemma AcceptedCursors(raw: string, p: Position)
    ensures ParseCursor(raw) == Some(p) <==>
            exists a, b :: a != [] && b != [] && AllDigits(a) && AllDigits(b) && raw == a + ":" + b
                           && p == Position(Value(a), Value(b))
  {
    if ParseCursor(raw) == Some(p) {
      var i := ColonIn(raw);
      assert raw == raw[..i] + ":" + raw[i + 1..];
    }
    forall a, b | a != [] && b != [] && AllDigits(a) && AllDigits(b) && raw == a + ":" + b
                  && p == Position(Value(a), Value(b))
      ensures ParseCursor(raw) == Some(p)
    {
      ColonAfterDigits(a, b);
      assert raw[..|a|] == a && raw[|a| + 1..] == b;
    }
  }

  /** What `Number(query.limit)` gave: no parameter, a whole number, or anything else. */
  datatype LimitText = Absent | Whole(n: int) | NotWhole
  datatype Params = BadLimit | BadCursor | Params(limit: nat, after: Option<Position>)

  const DEFAULT_LIMIT := 50
  const MAX_LIMIT := 100

  function PageParams(limit: LimitText, cursor: Option<string>): (p: Params)
    ensures p.BadLimit? <==> limit.NotWhole? || (limit.Whole? && limit.n < 1)
    ensures p.BadCursor? <==> !p.BadLimit? && cursor.Some? && ParseCursor(cursor.value).None?
    ensures p.Params? ==> p.limit == match limit
                                      case Absent => 50
                                      case Whole(n) => if n <= 100 then n else 100
                                      case NotWhole => 0
    ensures p.Params? ==> p.after == if cursor.None? then None else ParseCursor(cursor.value)
  {
    var wanted := match limit case Absent => DEFAULT_LIMIT case Whole(n) => n case NotWhole => 0;
    if wanted < 1 then BadLimit
    else
      var capped := if wanted > MAX_LIMIT then MAX_LIMIT else wanted;
      if cursor.None? then Params(capped, None)
      else
        match ParseCursor(cursor.value)
        case None => BadCursor
        case Some(p) => Params(capped, Some(p))
  }

  // ---------------------------------------------------------------- one page

  /** A row of trades or liquidations, by what the query looks at. */
  datatype Row = Row(tx: string, at: Position, market: nat)

  predicate Newer(a: Position, b: Position) { b.block < a.block || (b.block == a.block && b.log < a.log) }

  ghost predicate UniquePlaces(t: set<Row>) { forall a, b :: a in t && b in t && a.at == b.at ==> a == b }

  /** The WHERE clause: one market or all of them, and strictly before the cursor if there is one. */
  ghost function Matching(t: set<Row>, market: Option<nat>, after: Option<Position>): set<Row> {
    set r | r in t && (market.None? || r.market == market.value) && (after.None? || Newer(after.value, r.at))
  }

  ghost predicate IsNewest(t: set<Row>, r: Row) { r in t && forall x :: x in t ==> x == r || Newer(r.at, x.at) }

  lemma {:induction false} NewestExists(t: set<Row>)
    requires t != {} && UniquePlaces(t)
    ensures exists r :: IsNewest(t, r)
    decreases |t|
  {
    var x :| x in t;
    if t == {x} {
      assert IsNewest(t, x);
    } else {
      NewestExists(t - {x});
      var r :| IsNewest(t - {x}, r);
      assert IsNewest(t, if Newer(r.at, x.at) then r else x);
    }
  }

  ghost function Newest(t: set<Row>): (r: Row)
    requires t != {} && UniquePlaces(t)
    ensures IsNewest(t, r)
  {
    NewestExists(t);
    var r :| IsNewest(t, r);
    r
  }

  /** ORDER BY block DESC, log DESC LIMIT n. */
  ghost function Top(t: set<Row>, n: nat): (page: seq<Row>)
    requires UniquePlaces(t)
    ensures |page| == (if n <= |t| then n else |t|)
    ensures forall r :: r in page ==> r in t
    decreases n
  {
    if n == 0 || t == {} then []
    else
      var r := Newest(t);
      assert |t - {r}| == |t| - 1;
      [r] + Top(t - {r}, n - 1)
  }

  /** All of it, newest first. */
  ghost function Listing(t: set<Row>): seq<Row>
    requires UniquePlaces(t)
  {
    Top(t, |t|)
  }

  ghost predicate Descending(s: seq<Row>) { forall i, j :: 0 <= i < j < |s| ==> Newer(s[i].at, s[j].at) }

  /** A listing has every row of the table exactly once, in strictly descending order. */
  lemma {:induction false} ListingIsExact(t: set<Row>)
    requires UniquePlaces(t)
    ensures Descending(Listing(t)) && |Listing(t)| == |t|
    ensures forall r :: r in Listing(t) <==> r in t
    decreases |t|
  {
    if t != {} {
      var r := Newest(t);
      assert |t - {r}| == |t| - 1;
      ListingIsExact(t - {r});
      assert Listing(t) == [r] + Listing(t - {r});
    }
  }

  ghost function Below(t: set<Row>, p: Position): set<Row> { set r | r in t && Newer(p, r.at) }

  /** One step of both listings: the newest row first. */
  lemma TopStep(t: set<Row>, n: nat)
    requires UniquePlaces(t) && t != {} && n > 0
    ensures var rest := t - {Newest(t)};
            |rest| == |t| - 1 && Top(t, n) == [Newest(t)] + Top(rest, n - 1)
            && Listing(t) == [Newest(t)] + Listing(rest)
  {
  }

  lemma BelowNewest(t: set<Row>)
    requires UniquePlaces(t) && t != {}
    ensures Below(t, Newest(t).at) == t - {Newest(t)}
  {
  }

  lemma BelowLaterRow(t: set<Row>, x: Row)
    requires UniquePlaces(t) && x in t && x != Newest(t)
    ensures Below(t, x.at) == Below(t - {Newest(t)}, x.at)
  {
  }

  /** A full page, then the listing of what lies below its last row, is the whole listing. */
  lemma {:induction false} PageThenRest(t: set<Row>, n: nat)
    requires UniquePlaces(t) && 1 <= n <= |t|
    ensures var page := Top(t, n);
            Listing(t) == page + Listing(Below(t, page[n - 1].at)) && |Below(t, page[n - 1].at)| == |t| - n
    decreases n
  {
    hide Below, Listing, Top;
    var first := Newest(t);
    var rest := t - {first};
    TopStep(t, n);
    if n == 1 {
      NoRows(rest);
      BelowNewest(t);
    } else {
      PageThenRest(rest, n - 1);
      var page := Top(rest, n - 1);
      assert page[n - 2] in rest && Top(t, n)[n - 1] == page[n - 2];
      BelowLaterRow(t, page[n - 2]);
      BelowIsUnique(rest, page[n - 2].at);
      var below := Listing(Below(rest, page[n - 2].at));
      assert [first] + (page + below) == [first] + page + below;
    }
  }

  lemma BelowIsUnique(t: set<Row>, p: Position)
    requires UniquePlaces(t)
    ensures UniquePlaces(Below(t, p))
  {
  }

  lemma NoRows(t: set<Row>)
    requires UniquePlaces(t)
    ensures Top(t, 0) == []
  {
  }

  // ---------------------------------------------------------------- a walk over a growing table

  /** One request: the table as it is then, and the limit asked for. */
  datatype Visit = Visit(table: set<Row>, limit: nat)

  ghost function Page(v: Visit, market: Option<nat>, after: Option<Position>): seq<Row>
    requires UniquePlaces(v.table)
  {
    Top(Matching(v.table, market, after), v.limit)
  }

  /** The response carries a next cursor exactly when the page is as long as the limit. */
  ghost function NextCursor(page: seq<Row>, limit: nat): Option<string> {
    if |page| == limit && limit > 0 then Some(CursorOf(page[|page| - 1].at)) else None
  }

  /** Rows are only added, each newer than everything already there. */
  ghost predicate GrowsByNewer(a: set<Row>, b: set<Row>) {
    a <= b && forall x, y :: x in b && x !in a && y in a ==> Newer(x.at, y.at)
  }

  ghost predicate Visits(vs: seq<Visit>) {
    && (forall i :: 0 <= i < |vs| ==> UniquePlaces(vs[i].table) && vs[i].limit >= 1)
    && (forall i :: 0 <= i < |vs| - 1 ==> GrowsByNewer(vs[i].table, vs[i + 1].table))
  }

  /** The rows a client collects by following next cursors until there is none, or until the visits run out. */
  ghost function Walk(vs: seq<Visit>, market: Option<nat>, after: Option<Position>): seq<Row>
    requires Visits(vs)
  {
    if vs == [] then []
    else
      var page := Page(vs[0], market, after);
      match NextCursor(page, vs[0].limit)
      case None => page
      case Some(cursor) => page + Walk(vs[1..], market, ParseCursor(cursor))
  }

  ghost predicate Finishes(vs: seq<Visit>, market: Option<nat>, after: Option<Position>)
    requires Visits(vs)
  {
    vs != [] &&
    var page := Page(vs[0], market, after);
    match NextCursor(page, vs[0].limit)
    case None => true
    case Some(cursor) => Finishes(vs[1..], market, ParseCursor(cursor))
  }

  ghost function TotalLimit(vs: seq<Visit>): nat { if vs == [] then 0 else vs[0].limit + TotalLimit(vs[1..]) }

  /** What lies below a row of the older table is the same in the newer one. */
  lemma BelowIsFixed(a: set<Row>, b: set<Row>, market: Option<nat>, after: Option<Position>, x: Row)
    requires GrowsByNewer(a, b) && x in Matching(a, market, after)
    ensures Matching(b, market, Some(x.at)) == Below(Matching(a, market, after), x.at)
  {
    forall r | r in Matching(b, market, Some(x.at)) ensures r in a {
      assert r !in a ==> Newer(r.at, x.at);
    }
  }

  /** The step of the walk: its first page, and the state it leaves the rest in. */
  lemma WalkStep(vs: seq<Visit>, market: Option<nat>, after: Option<Position>)
    requires Visits(vs) && vs != []
    ensures var all, page := Matching(vs[0].table, market, after), Page(vs[0], market, after);
            UniquePlaces(all) &&
            if vs[0].limit <= |all| then
              var at := page[|page| - 1].at;
              && NextCursor(page, vs[0].limit).Some?
              && ParseCursor(NextCursor(page, vs[0].limit).value) == Some(at)
              && Listing(all) == page + Listing(Below(all, at))
              && |Below(all, at)| == |all| - vs[0].limit
              && (|vs| > 1 ==> Matching(vs[1].table, market, Some(at)) == Below(all, at))
            else NextCursor(page, vs[0].limit).None? && page == Listing(all)
  {
    hide Top, Listing, ParseCursor, CursorOf, Below;
    var all, n := Matching(vs[0].table, market, after), vs[0].limit;
    if n <= |all| {
      PageThenRest(all, n);
      var last := Top(all, n)[n - 1];
      CursorRoundTrip(last.at);
      if |vs| > 1 {
        BelowIsFixed(vs[0].table, vs[1].table, market, after, last);
      }
    } else {
      TopBeyondEnd(all, n);
    }
  }

  lemma {:induction false} TopBeyondEnd(t: set<Row>, n: nat)
    requires UniquePlaces(t) && n >= |t|
    ensures Top(t, n) == Listing(t)
    decreases n
  {
    if t != {} {
      var r := Newest(t);
      assert |t - {r}| == |t| - 1;
      TopBeyondEnd(t - {r}, n - 1);
    }
  }

  /** A finished walk returns the first page's table, filtered, and nothing that was added meanwhile. */
  lemma {:induction false} WalkReturnsFirstSnapshot(vs: seq<Visit>, market: Option<nat>, after: Option<Position>)
    requires Visits(vs) && Finishes(vs, market, after)
    ensures Walk(vs, market, after) == Listing(Matching(vs[0].table, market, after))
    decreases |vs|
  {
    hide Top, Matching, ParseCursor, CursorOf, Below;
    WalkStep(vs, market, after);
    var all := Matching(vs[0].table, market, after);
    if vs[0].limit <= |all| {
      var at := Page(vs[0], market, after)[vs[0].limit - 1].at;
      WalkReturnsFirstSnapshot(vs[1..], market, Some(at));
    }
  }

  /** The walk ends: once the limits asked for add up to more than there is to return, the last page was short. */
  lemma {:induction false} WalkTerminates(vs: seq<Visit>, market: Option<nat>, after: Option<Position>)
    requires Visits(vs) && vs != [] && TotalLimit(vs) > |Matching(vs[0].table, market, after)|
    ensures Finishes(vs, market, after)
    decreases |vs|
  {
    hide Top, Matching, ParseCursor, CursorOf, Below;
    WalkStep(vs, market, after);
    var all := Matching(vs[0].table, market, after);
    if vs[0].limit <= |all| {
      var at := Page(vs[0], market, after)[vs[0].limit - 1].at;
      WalkTerminates(vs[1..], market, Some(at));
    }
  }

  /**
   * Every row of the first page's table that matches the filter comes back
   * exactly once, in strictly descending order, whatever limits each request
   * uses and whatever newer rows arrive between requests.
   */
  lemma CursorWalkIsExact(vs: seq<Visit>, market: Option<nat>)
    requires Visits(vs) && vs != [] && TotalLimit(vs) > |Matching(vs[0].table, market, None)|
    ensures var rows := Walk(vs, market, None);
            && Descending(rows) && |rows| == |Matching(vs[0].table, market, None)|
            && forall r :: r in rows <==> r in vs[0].table && (market.None? || r.market == market.value)
  {
    hide Walk, Finishes, Top, Listing;
    WalkTerminates(vs, market, None);
    WalkReturnsFirstSnapshot(vs, market, None);
    ListingIsExact(Matching(vs[0].table, market, None));
  }
}
