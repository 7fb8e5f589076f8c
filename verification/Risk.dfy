/** The bot's risk gate: round first, then check, then decide; and what a bot that obeys it can end up holding. */
module Risk {
  import opened Options
  import Units
  import opened Remainders

  datatype Spec = Spec(tick: int, step: int, minNotional: int)

  datatype Side = Buy | Sell

  /** Only Limit, StopLimit and PostOnly orders carry a price of their own. */
  datatype OrderType = Market | Limit | StopMarket | StopLimit | TakeProfit | PostOnly {
    predicate IsPriced() { Limit? || StopLimit? || PostOnly? }
  }

  datatype Order = Order(market: string, side: Side, size: int, price: int, orderType: OrderType,
                         reduceOnly: bool, id: Option<nat>)

  datatype Reason = UnknownMarket | KillSwitch | ZeroSize | MaxOrderSize | MaxPosition | NoPrice | BelowMinNotional

  datatype Decision =
    | Refused(reason: Reason)
    | Duplicate
    | DryRun(size: int, price: int)
    | Send(size: int, price: int)
  {
    /** The gate let the order through and has used up its id. */
    predicate Cleared() { DryRun? || Send? }
  }

  datatype Config = Config(specs: map<string, Spec>, maxOrderSize: int, maxPositionSize: int, dryRun: bool)

  /** BigInt remainder: the sign of the dividend. */
  function Rem(a: int, b: int): int
    requires b > 0
  {
    if a >= 0 then a % b else -((-a) % b)
  }

  function FloorTo(value: int, unit: int): int { if unit > 0 then value - Rem(value, unit) else value }

  function Abs(n: int): int { if n < 0 then -n else n }

  function RoundedSize(c: Config, o: Order): int
    requires o.market in c.specs
  {
    FloorTo(o.size, c.specs[o.market].step)
  }

  function RoundedPrice(c: Config, o: Order): int
    requires o.market in c.specs
  {
    if o.orderType.IsPriced() then FloorTo(o.price, c.specs[o.market].tick) else 0
  }

  /** The price the notional is sized at. */
  function Reference(c: Config, o: Order, refPrice: int): int
    requires o.market in c.specs
  {
    if o.orderType.IsPriced() then RoundedPrice(c, o) else refPrice
  }

  /** Why the order may not be placed with this position, or None. */
  function Objection(c: Config, o: Order, position: int, refPrice: int): Option<Reason>
    requires o.market in c.specs
  {
    var size, reference := RoundedSize(c, o), Reference(c, o, refPrice);
    if size <= 0 then Some(ZeroSize)
    else if size > c.maxOrderSize then Some(MaxOrderSize)
    else if !o.reduceOnly && Abs(position) + size > c.maxPositionSize then Some(MaxPosition)
    else if reference <= 0 then Some(NoPrice)
    else if Units.Notional(size, reference) < c.specs[o.market].minNotional then Some(BelowMinNotional)
    else None
  }

  /** The whole decision, given the kill switch and the ids already used. */
  function Decide(c: Config, killed: bool, seen: set<nat>, o: Order, position: int, refPrice: int): Decision {
    if o.market !in c.specs then Refused(UnknownMarket)
    else if killed then Refused(KillSwitch)
    else if o.id.Some? && o.id.value in seen then Duplicate
    else
      var why := Objection(c, o, position, refPrice);
      if why.Some? then Refused(why.value)
      else if c.dryRun then DryRun(RoundedSize(c, o), RoundedPrice(c, o))
      else Send(RoundedSize(c, o), RoundedPrice(c, o))
  }

  function SeenAfter(seen: set<nat>, o: Order, d: Decision): set<nat> {
    if d.Cleared() && o.id.Some? then seen + {o.id.value} else seen
  }

  class RiskEngine {
    const config: Config
    var killSwitch: bool
    var seen: set<nat>

    constructor (config: Config, killSwitch: bool)
      ensures this.config == config && this.killSwitch == killSwitch && seen == {}
    {
      this.config := config;
      this.killSwitch := killSwitch;
      seen := {};
    }

    method SetKillSwitch(on: bool)
      modifies this`killSwitch
      ensures killSwitch == on
    {
      killSwitch := on;
    }

    method Plan(o: Order, position: int, refPrice: int) returns (d: Decision)
      modifies this`seen
      ensures d == Decide(config, killSwitch, old(seen), o, position, refPrice)
      ensures seen == SeenAfter(old(seen), o, d)
    {
      if o.market !in config.specs { return Refused(UnknownMarket); }
      var spec := config.specs[o.market];
      if killSwitch { return Refused(KillSwitch); }
      if o.id.Some? && o.id.value in seen { return Duplicate; }

      var size := FloorTo(o.size, spec.step);
      if size <= 0 { return Refused(ZeroSize); }
      var price := if o.orderType.IsPriced() then FloorTo(o.price, spec.tick) else 0;
      if size > config.maxOrderSize { return Refused(MaxOrderSize); }
      if !o.reduceOnly {
        var have := if position < 0 then -position else position;
        if have + size > config.maxPositionSize { return Refused(MaxPosition); }
      }
      var reference := if o.orderType.IsPriced() then price else refPrice;
      if reference <= 0 { return Refused(NoPrice); }
      var notional := Units.Notional(size, reference);
      if notional < spec.minNotional { return Refused(BelowMinNotional); }

      if o.id.Some? {
        seen := seen + {o.id.value};
      }
      return if config.dryRun then DryRun(size, price) else Send(size, price);
    }
  }

  // ---------------------------------------------------------------- one cleared order

  lemma FloorIsMultiple(value: int, unit: int)
    requires unit > 0
    ensures FloorTo(value, unit) % unit == 0
    ensures value >= 0 ==> 0 <= value - FloorTo(value, unit) < unit
    ensures value >= 0 <==> FloorTo(value, unit) >= 0 && FloorTo(value, unit) <= value
    ensures value < 0 ==> FloorTo(value, unit) <= 0
  {
    if value >= 0 {
      MultipleOf(value, unit);
      NonNegative(value, unit);
    } else {
      MultipleOf(-value, unit);
      NegatedMultiple(-value - (-value) % unit, unit);
      NonNegative(-value, unit);
    }
  }

  lemma NonNegative(value: int, unit: int)
    requires unit > 0 && value >= 0
    ensures value % unit <= value
  {
    DivMod(value, unit);
    if value / unit >= 1 {
      MulAtLeast(unit, value / unit);
    }
  }

  /** Rounding a rounded amount changes nothing. */
  lemma FloorIsStable(value: int, unit: int)
    ensures FloorTo(FloorTo(value, unit), unit) == FloorTo(value, unit)
  {
    if unit > 0 {
      FloorIsMultiple(value, unit);
      var f := FloorTo(value, unit);
      if f < 0 {
        NegatedMultiple(f, unit);
      }
    }
  }

  /** The amount rounded down to the unit; a unit of 0 leaves it alone. */
  predicate RoundsTo(value: int, unit: int, r: int) {
    if unit > 0 then r % unit == 0 && r <= value < r + unit else r == value
  }

  lemma FloorRoundsDown(value: int, unit: int, r: int)
    requires r > 0
    ensures FloorTo(value, unit) == r <==> RoundsTo(value, unit, r)
  {
    if unit > 0 {
      FloorIsMultiple(value, unit);
      if RoundsTo(value, unit, r) {
        DivMod(r, unit);
        DivMod(value, unit);
        QuotientIsUnique(unit, r / unit, value - r, value / unit, value % unit);
      }
    }
  }

  predicate CarriesPrice(t: OrderType) {
    match t
    case Limit => true
    case StopLimit => true
    case PostOnly => true
    case Market => false
    case StopMarket => false
    case TakeProfit => false
  }

  /** What a placed order must satisfy: on step, on tick, within the caps, at or above the minimum, its id unused. */
  predicate Legal(c: Config, killed: bool, seen: set<nat>, o: Order, position: int, refPrice: int, size: int,
                  price: int)
  {
    && o.market in c.specs && !killed && (o.id.Some? ==> o.id.value !in seen)
    && var spec, reference := c.specs[o.market], if CarriesPrice(o.orderType) then price else refPrice;
    && RoundsTo(o.size, spec.step, size) && 0 < size <= c.maxOrderSize
    && (if CarriesPrice(o.orderType) then RoundsTo(o.price, spec.tick, price) else price == 0)
    && (!o.reduceOnly ==> (if position < 0 then -position else position) + size <= c.maxPositionSize)
    && reference > 0 && size * reference >= spec.minNotional * 10000000000
  }

  /** An order is cleared at a size and a price exactly when they are its own rounded down and the result is legal. */
  lemma ClearedIffLegal(c: Config, killed: bool, seen: set<nat>, o: Order, position: int, refPrice: int,
                        size: int, price: int)
    ensures var d := Decide(c, killed, seen, o, position, refPrice);
            d.Cleared() && d.size == size && d.price == price
            <==> Legal(c, killed, seen, o, position, refPrice, size, price)
  {
    if o.market in c.specs {
      hide FloorTo, RoundsTo;
      var spec := c.specs[o.market];
      if size > 0 {
        FloorRoundsDown(o.size, spec.step, size);
      }
      if o.orderType.IsPriced() && price > 0 {
        FloorRoundsDown(o.price, spec.tick, price);
      }
    }
  }

  /** A cleared order goes out unless the engine runs dry, and in a dry run never does. */
  lemma SentIffLegalAndLive(c: Config, killed: bool, seen: set<nat>, o: Order, position: int, refPrice: int,
                            size: int, price: int)
    ensures var d, legal := Decide(c, killed, seen, o, position, refPrice),
                            Legal(c, killed, seen, o, position, refPrice, size, price);
            && (d == Send(size, price) <==> legal && !c.dryRun)
            && (d == DryRun(size, price) <==> legal && c.dryRun)
  {
    hide Legal;
    ClearedIffLegal(c, killed, seen, o, position, refPrice, size, price);
    var d := Decide(c, killed, seen, o, position, refPrice);
    if d.Cleared() {
      ClearedIffLegal(c, killed, seen, o, position, refPrice, d.size, d.price);
    }
  }

  // ---------------------------------------------------------------- every other answer

  /** Rounds to nothing. */
  predicate Tiny(value: int, unit: int) { if unit > 0 then value < unit else value <= 0 }

  lemma TinyIff(value: int, unit: int)
    ensures Tiny(value, unit) <==> FloorTo(value, unit) <= 0
  {
    if unit > 0 {
      FloorIsMultiple(value, unit);
      if value >= 0 && FloorTo(value, unit) > 0 {
        MultipleIsWhole(FloorTo(value, unit), unit);
      }
    }
  }

  lemma MultipleIsWhole(r: int, unit: int)
    requires unit > 0 && r % unit == 0 && r > 0
    ensures r >= unit
  {
    DivMod(r, unit);
  }

  /** The order reaches the checks of its amounts. */
  predicate Admitted(c: Config, killed: bool, seen: set<nat>, o: Order) {
    o.market in c.specs && !killed && (o.id.Some? ==> o.id.value !in seen)
  }

  /** What the amounts are checked with: the rounded size, and the rounded price or the reference price. */
  predicate AmountsAre(c: Config, o: Order, refPrice: int, size: int, reference: int)
    requires o.market in c.specs
  {
    var spec := c.specs[o.market];
    && (if Tiny(o.size, spec.step) then size == 0 else size > 0 && RoundsTo(o.size, spec.step, size))
    && (if !CarriesPrice(o.orderType) then reference == refPrice
        else if Tiny(o.price, spec.tick) then reference == 0
        else reference > 0 && RoundsTo(o.price, spec.tick, reference))
  }

  lemma AmountsTell(c: Config, o: Order, refPrice: int, size: int, reference: int)
    requires o.market in c.specs && AmountsAre(c, o, refPrice, size, reference)
    ensures if size > 0 then RoundedSize(c, o) == size else RoundedSize(c, o) <= 0 && size == 0
    ensures if reference > 0 then Reference(c, o, refPrice) == reference else Reference(c, o, refPrice) <= 0
  {
    hide FloorTo, RoundsTo, Tiny;
    var spec := c.specs[o.market];
    TinyIff(o.size, spec.step);
    TinyIff(o.price, spec.tick);
    if size > 0 {
      FloorRoundsDown(o.size, spec.step, size);
    }
    if o.orderType.IsPriced() && reference > 0 {
      FloorRoundsDown(o.price, spec.tick, reference);
    }
  }

  /** When the engine does not know the market, is stopped, or has acted on the id before. */
  lemma TurnedAwayIff(c: Config, killed: bool, seen: set<nat>, o: Order, position: int, refPrice: int)
    ensures var d := Decide(c, killed, seen, o, position, refPrice);
            && (d == Refused(UnknownMarket) <==> o.market !in c.specs)
            && (d == Refused(KillSwitch) <==> o.market in c.specs && killed)
            && (d == Duplicate <==> o.market in c.specs && !killed && o.id.Some? && o.id.value in seen)
  {
    hide FloorTo;
  }

  /** Each refusal of the amounts, exactly: the first of the five conditions that holds. */
  lemma RefusedIff(c: Config, killed: bool, seen: set<nat>, o: Order, position: int, refPrice: int, size: int,
                   reference: int)
    requires Admitted(c, killed, seen, o) && AmountsAre(c, o, refPrice, size, reference)
    ensures var d, have := Decide(c, killed, seen, o, position, refPrice), if position < 0 then -position else position;
            var small, big := size == 0, size > c.maxOrderSize;
            var over := !o.reduceOnly && have + size > c.maxPositionSize;
            var low := size * reference < c.specs[o.market].minNotional * 10000000000;
            && (d == Refused(ZeroSize) <==> small)
            && (d == Refused(MaxOrderSize) <==> !small && big)
            && (d == Refused(MaxPosition) <==> !small && !big && over)
            && (d == Refused(NoPrice) <==> !small && !big && !over && reference <= 0)
            && (d == Refused(BelowMinNotional) <==> !small && !big && !over && reference > 0 && low)
            && (d.Cleared() <==> !small && !big && !over && reference > 0 && !low)
  {
    hide AmountsAre, RoundedSize, Reference, RoundedPrice;
    AmountsTell(c, o, refPrice, size, reference);
    if size > 0 && reference > 0 {
      BelowIff(size, reference, c.specs[o.market].minNotional);
    }
  }

  lemma BelowIff(size: nat, reference: nat, least: int)
    ensures Units.Notional(size, reference) < least <==> size * reference < least * 10000000000
  {
  }

  /** Planning the rounded order again, without its id, clears the same size and price. */
  lemma ReplanningIsAFixedPoint(c: Config, killed: bool, seen: set<nat>, again: set<nat>, o: Order, position: int,
                                refPrice: int)
    requires Decide(c, killed, seen, o, position, refPrice).Cleared()
    ensures var d := Decide(c, killed, seen, o, position, refPrice);
            Decide(c, killed, again, o.(size := d.size, price := d.price, id := None), position, refPrice) == d
  {
    FloorIsStable(o.size, c.specs[o.market].step);
    FloorIsStable(o.price, c.specs[o.market].tick);
  }

  // ---------------------------------------------------------------- over every run

  datatype Call = PlanCall(o: Order, position: int, refPrice: int) | KillCall(on: bool)

  datatype Engine = Engine(killed: bool, seen: set<nat>)

  function After(c: Config, e: Engine, calls: seq<Call>): Engine {
    if calls == [] then e
    else
      var before := After(c, e, calls[..|calls| - 1]);
      match calls[|calls| - 1]
      case KillCall(on) => before.(killed := on)
      case PlanCall(o, position, refPrice) =>
        before.(seen := SeenAfter(before.seen, o, Decide(c, before.killed, before.seen, o, position, refPrice)))
  }

  predicate ClearedAt(c: Config, e: Engine, calls: seq<Call>, i: nat, id: nat)
    requires i < |calls|
  {
    var before := After(c, e, calls[..i]);
    calls[i].PlanCall? && calls[i].o.id == Some(id)
    && Decide(c, before.killed, before.seen, calls[i].o, calls[i].position, calls[i].refPrice).Cleared()
  }

  /** The used ids are those used at the start and those of the orders cleared since: a refusal uses none. */
  lemma {:induction false} SeenIsWhatWasCleared(c: Config, e: Engine, calls: seq<Call>, id: nat)
    ensures id in After(c, e, calls).seen
            <==> id in e.seen || exists i :: 0 <= i < |calls| && ClearedAt(c, e, calls, i, id)
  {
    if calls != [] {
      var n := |calls| - 1;
      SeenIsWhatWasCleared(c, e, calls[..n], id);
      forall i | 0 <= i < n ensures ClearedAt(c, e, calls, i, id) == ClearedAt(c, e, calls[..n], i, id) {
        assert calls[..n][..i] == calls[..i];
      }
      if ClearedAt(c, e, calls, n, id) {
        assert id in After(c, e, calls).seen;
      }
    }
  }

  /** No id is cleared twice, whatever calls and kill switches come between. */
  lemma EachIdClearsAtMostOnce(c: Config, e: Engine, calls: seq<Call>, i: nat, j: nat, id: nat)
    requires i < j < |calls|
    ensures !(ClearedAt(c, e, calls, i, id) && ClearedAt(c, e, calls, j, id))
  {
    SeenIsWhatWasCleared(c, e, calls[..j], id);
    assert calls[..j][..i] == calls[..i];
    assert ClearedAt(c, e, calls, i, id) ==> ClearedAt(c, e, calls[..j], i, id);
  }

  /** In a dry run no call of any run sends anything, whatever is planned and switched between. */
  lemma DryRunsNeverSend(c: Config, e: Engine, calls: seq<Call>, i: nat)
    requires c.dryRun && i < |calls| && calls[i].PlanCall?
    ensures var before := After(c, e, calls[..i]);
            !Decide(c, before.killed, before.seen, calls[i].o, calls[i].position, calls[i].refPrice).Send?
  {
    hide After;
    var before := After(c, e, calls[..i]);
    var d := Decide(c, before.killed, before.seen, calls[i].o, calls[i].position, calls[i].refPrice);
    if d.Send? {
      SentIffLegalAndLive(c, before.killed, before.seen, calls[i].o, calls[i].position, calls[i].refPrice, d.size,
                          d.price);
    }
  }

  /** While the kill switch is on every call is refused or finds no market, and no id is used. */
  lemma {:induction false} KilledEngineClearsNothing(c: Config, e: Engine, calls: seq<Call>)
    requires e.killed && forall i :: 0 <= i < |calls| ==> calls[i].KillCall? ==> calls[i].on
    ensures After(c, e, calls) == e
  {
    hide Objection;
    if calls != [] {
      KilledEngineClearsNothing(c, e, calls[..|calls| - 1]);
    }
  }

  // ---------------------------------------------------------------- what the position can become

  /** One order planned against the position as it is, and the part of it that fills before the next is planned. */
  datatype Trade = Trade(o: Order, refPrice: int, filled: int)

  /** The position once a cleared order has filled; nothing else moves it. */
  function Settled(c: Config, killed: bool, seen: set<nat>, position: int, t: Trade): int {
    if !Decide(c, killed, seen, t.o, position, t.refPrice).Cleared() then position
    else if t.o.side.Buy? then position + t.filled
    else position - t.filled
  }

  /** Fills never exceed the cleared size, and a reduce-only fill only shrinks the position. */
  predicate FillsFairly(c: Config, killed: bool, seen: set<nat>, position: int, t: Trade) {
    var d := Decide(c, killed, seen, t.o, position, t.refPrice);
    d.Cleared() ==>
      0 <= t.filled <= d.size
      && (t.o.reduceOnly ==> Abs(Settled(c, killed, seen, position, t)) <= Abs(position))
  }

  /** The position after a run of trades settled one at a time; the switch and the used ids may be anything. */
  function PositionAfter(c: Config, gates: seq<Engine>, position: int, trades: seq<Trade>): int
    requires |gates| == |trades|
  {
    if trades == [] then position
    else
      var n := |trades| - 1;
      Settled(c, gates[n].killed, gates[n].seen, PositionAfter(c, gates[..n], position, trades[..n]), trades[n])
  }

  ghost predicate AllFillFairly(c: Config, gates: seq<Engine>, position: int, trades: seq<Trade>)
    requires |gates| == |trades|
  {
    forall i :: 0 <= i < |trades| ==>
      FillsFairly(c, gates[i].killed, gates[i].seen, PositionAfter(c, gates[..i], position, trades[..i]), trades[i])
  }

  /** The position never leaves the larger of what it was and the cap. */
  lemma {:induction false} PositionStaysCapped(c: Config, gates: seq<Engine>, position: int, trades: seq<Trade>)
    requires |gates| == |trades| && AllFillFairly(c, gates, position, trades)
    ensures Abs(PositionAfter(c, gates, position, trades)) <= Abs(position)
            || Abs(PositionAfter(c, gates, position, trades)) <= c.maxPositionSize
  {
    if trades != [] {
      var n := |trades| - 1;
      forall i | 0 <= i < n
        ensures FillsFairly(c, gates[i].killed, gates[i].seen,
                            PositionAfter(c, gates[..n][..i], position, trades[..n][..i]), trades[i])
      {
        assert gates[..n][..i] == gates[..i] && trades[..n][..i] == trades[..i];
      }
      PositionStaysCapped(c, gates[..n], position, trades[..n]);
      var before := PositionAfter(c, gates[..n], position, trades[..n]);
      assert FillsFairly(c, gates[n].killed, gates[n].seen, before, trades[n]);
      OneTradeStaysCapped(c, gates[n], before, trades[n]);
    }
  }

  lemma OneTradeStaysCapped(c: Config, e: Engine, position: int, t: Trade)
    requires FillsFairly(c, e.killed, e.seen, position, t)
    ensures Abs(Settled(c, e.killed, e.seen, position, t)) <= Abs(position)
            || Abs(Settled(c, e.killed, e.seen, position, t)) <= c.maxPositionSize
  {
    var d := Decide(c, e.killed, e.seen, t.o, position, t.refPrice);
    if d.Cleared() {
      hide Decide;
      ClearedIffLegal(c, e.killed, e.seen, t.o, position, t.refPrice, d.size, d.price);
    }
  }

  /** Why fills must settle one at a time: two orders planned against the same flat position pass the gate together. */
  lemma PlanningAheadBreaksTheCap(o: Order, cap: int)
    requires o.market == "ETH" && o.side.Buy? && o.orderType.Limit? && o.size == cap && o.price == 10000000000
    requires o.id.None? && !o.reduceOnly && cap >= 1
    ensures var c := Config(map["ETH" := Spec(1, 1, 0)], cap, cap, false);
            var d := Decide(c, false, {}, o, 0, 0);
            d == Send(cap, o.price) && Abs(d.size + d.size) > c.maxPositionSize
  {
    var c := Config(map["ETH" := Spec(1, 1, 0)], cap, cap, false);
    assert FloorTo(o.size, 1) == o.size && FloorTo(o.price, 1) == o.price;
  }
}
