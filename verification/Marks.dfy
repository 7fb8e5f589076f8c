/** The mark price derived from rows: the last trade, held to the index plus or minus the market's basis. */
module Marks {
  import opened Options
  import opened Store
  import opened Chain
  import opened Indexing
  import opened Runs
  import opened Hazards
  import opened Paging
  import opened Feeds
  import opened CaughtUp

  const BPS := 10000

  /** BigInt division: towards zero. */
  function TruncDiv(a: int, b: nat): int
    requires b > 0
  {
    if a >= 0 then a / b else -((-a) / b)
  }

  function Low(index: nat, basis: nat): int { TruncDiv(index * (BPS - basis), BPS) }
  function High(index: nat, basis: nat): int { TruncDiv(index * (BPS + basis), BPS) }

  function Clamp(p: int, lo: int, hi: int): int { if p < lo then lo else if p > hi then hi else p }

  /** The single row of ORDER BY block DESC, log DESC LIMIT 1 for a market. */
  ghost predicate IsLastTrade(d: Derived, m: nat, k: LogKey) {
    k in d.trades && d.trades[k].market == m &&
    forall j :: j in d.trades && d.trades[j].market == m && j != k ==>
      Newer(Position(d.trades[k].block, k.index), Position(d.trades[j].block, j.index))
  }

  ghost function LastTrade(d: Derived, m: nat): Option<TradeRow> {
    if exists k :: IsLastTrade(d, m, k) then
      var k :| IsLastTrade(d, m, k);
      Some(d.trades[k])
    else None
  }

  ghost function MarkOf(d: Derived, s: Seeded, m: nat): Option<int> {
    if m !in s.markets || m !in s.index then None
    else
      var index, basis := s.index[m].price, s.markets[m].maxBasisBps;
      match LastTrade(d, m)
      case None => Some(index)
      case Some(row) => Some(Clamp(row.price, Low(index, basis), High(index, basis)))
  }

  predicate Trades(log: Log, m: nat) {
    Mirrored(log) && log.body.event.OrderFilled? && log.body.event.market == m && log.body.event.size != 0
  }

  /** The last fill of the market in chain order. */
  ghost function LastFill(logs: seq<Log>, m: nat): (r: Option<Log>)
    ensures r.Some? ==> Trades(r.value, m)
  {
    if logs == [] then None
    else if Trades(logs[|logs| - 1], m) then Some(logs[|logs| - 1])
    else LastFill(logs[..|logs| - 1], m)
  }

  lemma TradeStep(d: Derived, log: Log, m: nat)
    requires Mirrored(log) ==> Fresh(d, log)
    requires log.Key() !in d.trades
    ensures var after := ApplyDerived(d, log).trades;
            after == d.trades
            || (Mirrored(log) && log.body.event.OrderFilled? && log.body.event.size != 0
                && exists row: TradeRow :: after == d.trades[log.Key() := row] && row.block == log.block
                     && row.market == log.body.event.market && row.price == log.body.event.price)
    ensures Trades(log, m) ==> log.Key() in ApplyDerived(d, log).trades
  {
    hide ApplyDerived, OrdersAfter, PositionsAfter, PositionEventsAfter;
    Conservation.StepTables(d, log);
    if Mirrored(log) && log.body.event.OrderFilled? && log.body.event.size != 0 {
      var after := ApplyDerived(d, log).trades;
      assert after == d.trades[log.Key() := after[log.Key()]];
    }
  }

  lemma NewKey(logs: seq<Log>, n: nat)
    requires UniqueKeys(logs) && n < |logs|
    ensures logs[n].Key() !in Fold(logs[..n]).trades
  {
    hide FoldFrom;
    Conservation.FoldKeysApplied(logs[..n]);
    if logs[n].Key() in Fold(logs[..n]).applied {
      AppliedKeysComeFromLogs(EMPTY, logs[..n], logs[n].Key());
    }
  }

  /** The trades table answers with the last fill of the log, and with nothing when there was none. */
  lemma {:induction false} LastTradeIsLastFill(logs: seq<Log>, m: nat)
    requires StrictlyOrdered(logs) && UniqueKeys(logs)
    ensures var d, fill := Fold(logs), LastFill(logs, m);
            if fill.Some? then
              IsLastTrade(d, m, fill.value.Key())
              && d.trades[fill.value.Key()].price == fill.value.body.event.price
            else forall k :: k in d.trades ==> d.trades[k].market != m
  {
    hide ApplyDerived, Mirrored, Fresh;
    if logs != [] {
      var n := |logs| - 1;
      var d, log := Fold(logs[..n]), logs[n];
      LastTradeIsLastFill(logs[..n], m);
      NewKey(logs, n);
      if Mirrored(log) {
        Conservation.UniqueKeysAreFresh(logs, n);
      }
      TradeStep(d, log, m);
      OlderThanNext(TradeFeed, logs);
      forall k | k in d.trades ensures Newer(Position(log.block, log.index), Position(d.trades[k].block, k.index)) {
        TradeIsInTable(d, k);
      }
    }
  }

  lemma TradeIsInTable(d: Derived, k: LogKey)
    requires k in d.trades
    ensures Row(k.tx, Position(d.trades[k].block, k.index), d.trades[k].market) in Table(TradeFeed, d)
  {
    assert k in Cells(TradeFeed, d);
  }

  lemma OneLastTrade(d: Derived, m: nat, k: LogKey)
    requires IsLastTrade(d, m, k)
    ensures LastTrade(d, m) == Some(d.trades[k])
  {
  }

  // ---------------------------------------------------------------- the band, by what it means

  /** `lo` is the index less the basis, in units of 1/10000 and rounded towards zero. */
  predicate IsLow(lo: int, index: nat, basis: nat) {
    if basis <= 10000 then 10000 * lo <= index * (10000 - basis) < 10000 * (lo + 1)
    else 10000 * (-lo) <= index * (basis - 10000) < 10000 * (-lo + 1)
  }

  predicate IsHigh(hi: int, index: nat, basis: nat) {
    10000 * hi <= index * (10000 + basis) < 10000 * (hi + 1)
  }

  /** The price itself inside the band, and the band's nearer end outside it. */
  predicate IsHeld(mark: int, p: int, lo: int, hi: int) {
    (lo <= p <= hi ==> mark == p) && (p < lo ==> mark == lo) && (p > hi ==> mark == hi)
  }

  lemma TruncIs(a: int, q: int)
    ensures a >= 0 ==> (q == TruncDiv(a, 10000) <==> 10000 * q <= a < 10000 * (q + 1))
    ensures a <= 0 ==> (q == TruncDiv(a, 10000) <==> 10000 * (-q) <= -a < 10000 * (-q + 1))
  {
  }

  lemma Product(a: nat, b: int, c: int)
    requires b <= c
    ensures a * b <= a * c && (b >= 0 ==> a * b >= 0) && a * (-b) == -(a * b)
  {
  }

  lemma BandIs(index: nat, basis: nat, lo: int, hi: int)
    ensures IsLow(lo, index, basis) <==> lo == Low(index, basis)
    ensures IsHigh(hi, index, basis) <==> hi == High(index, basis)
  {
    hide TruncDiv;
    Product(index, 10000 - basis, 10000 + basis);
    Product(index, 10000 + basis, 10000 + basis);
    Product(index, basis - 10000, 10000 + basis);
    assert -(basis - 10000) == 10000 - basis;
    TruncIs(index * (10000 - basis), lo);
    TruncIs(index * (10000 + basis), hi);
  }

  lemma BandIsOrdered(index: nat, basis: nat, lo: int, hi: int)
    requires IsLow(lo, index, basis) && IsHigh(hi, index, basis)
    ensures lo <= hi
  {
    Product(index, 10000 - basis, 10000 + basis);
    Product(index, 10000 + basis, 10000 + basis);
    Product(index, basis - 10000, 10000 + basis);
    Ends(index * (10000 - basis), index * (basis - 10000), index * (10000 + basis), basis <= 10000, lo, hi);
  }

  lemma Ends(down: int, over: int, up: int, narrow: bool, lo: int, hi: int)
    requires down <= up && up >= 0 && (!narrow ==> over >= 0) && 10000 * hi <= up < 10000 * (hi + 1)
    requires if narrow then 10000 * lo <= down < 10000 * (lo + 1) else 10000 * (-lo) <= over < 10000 * (-lo + 1)
    ensures lo <= hi
  {
  }

  /** A market's mark from its rows: none without an index row, the index without a trade, else the held price. */
  lemma MarkFromRows(d: Derived, s: Seeded, m: nat, k: LogKey, lo: int, hi: int)
    ensures MarkOf(d, s, m).None? <==> m !in s.markets || m !in s.index
    ensures m in s.markets && m in s.index && (forall j :: j in d.trades ==> d.trades[j].market != m)
            ==> MarkOf(d, s, m) == Some(s.index[m].price)
    ensures m in s.markets && m in s.index && IsLastTrade(d, m, k)
            && IsLow(lo, s.index[m].price, s.markets[m].maxBasisBps)
            && IsHigh(hi, s.index[m].price, s.markets[m].maxBasisBps)
            ==> var mark := MarkOf(d, s, m).value; IsHeld(mark, d.trades[k].price, lo, hi) && lo <= mark <= hi
  {
    hide Low, High, IsLow, IsHigh;
    if m in s.markets && m in s.index && IsLastTrade(d, m, k) {
      var index, basis := s.index[m].price, s.markets[m].maxBasisBps;
      OneLastTrade(d, m, k);
      BandIs(index, basis, lo, hi);
      if IsLow(lo, index, basis) && IsHigh(hi, index, basis) {
        BandIsOrdered(index, basis, lo, hi);
      }
    }
  }

  /**
   * Level with the chain, the mark is the contract's rule on the chain's own
   * logs: the last fill's price held to the last index price plus or minus the
   * basis, or the index price when nothing was filled.
   */
  lemma MarkIsTheChainsRule(w: World, elapsed: nat, m: nat, lo: int, hi: int)
    requires Invariant(w) && IndexInvariant(w, m) && Level(PollOf(w, elapsed)) && m in w.db.s.markets
    requires LastPrice(Logs(w.chain, 0, |w.chain|), m).Some?
    requires IsLow(lo, LastPrice(Logs(w.chain, 0, |w.chain|), m).value, w.db.s.markets[m].maxBasisBps)
    requires IsHigh(hi, LastPrice(Logs(w.chain, 0, |w.chain|), m).value, w.db.s.markets[m].maxBasisBps)
    ensures MarkOf(w.db.d, w.db.s, m).Some?
    ensures var logs, mark := Logs(w.chain, 0, |w.chain|), MarkOf(w.db.d, w.db.s, m).value;
            var fill := LastFill(logs, m);
            if fill.None? then mark == LastPrice(logs, m).value
            else IsHeld(mark, fill.value.body.event.price, lo, hi) && lo <= mark <= hi
  {
    hide FoldFrom, Logs, LastPrice, HashAt, UniqueKeys, StrictlyOrdered, IsLow, IsHigh, PriceAt, Detected, MarkOf,
      IsHeld, LastTrade;
    var logs := Logs(w.chain, 0, |w.chain|);
    LevelIndexIsLastPrice(w, elapsed, m);
    LevelMeansCanonical(w, elapsed);
    LogsOrdered(w.chain, 0, |w.chain|);
    LastTradeIsLastFill(logs, m);
    var fill := LastFill(logs, m);
    MarkFromRows(w.db.d, w.db.s, m, if fill.Some? then fill.value.Key() else LogKey("", 0), lo, hi);
  }
}
