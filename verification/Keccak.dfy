/**
 * The permutation and the hash as the program runs them: 25 BigInt lanes
 * rewritten in place, round by round and block by block.
 */
module Keccak {
  import opened Bits

  const MASK: nat := 0xFFFF_FFFF_FFFF_FFFF

  const ROUND_CONSTANTS: seq<nat> := [
    0x0000000000000001, 0x0000000000008082, 0x800000000000808a, 0x8000000080008000,
    0x000000000000808b, 0x0000000080000001, 0x8000000080008081, 0x8000000000008009,
    0x000000000000008a, 0x0000000000000088, 0x0000000080008009, 0x000000008000000a,
    0x000000008000808b, 0x800000000000008b, 0x8000000000008089, 0x8000000000008003,
    0x8000000000008002, 0x8000000000000080, 0x000000000000800a, 0x800000008000000a,
    0x8000000080008081, 0x8000000000008080, 0x0000000080000001, 0x8000000080008008]

  /** Rotation offsets, lane index x + 5 * y. */
  const ROTATION: seq<nat> := [
    0, 1, 62, 28, 27,
    36, 44, 6, 55, 20,
    3, 10, 43, 25, 39,
    41, 45, 15, 21, 8,
    18, 2, 61, 56, 14]

  type Lanes = s: seq<nat> | |s| == 25 witness seq(25, _ => 0)

  function Rotl64(value: nat, shift: nat): nat
    requires shift < 64
  {
    if shift == 0 then And(value, MASK) else And(Or(Shl(value, shift), Shr(value, 64 - shift)), MASK)
  }

  // ---------------------------------------------------------------- places

  /** The coordinates of a place. */
  function X(i: nat): nat { i % 5 }

  function Y(i: nat): nat { i / 5 }

  lemma Place(x: nat, y: nat)
    requires x < 5
    ensures X(x + 5 * y) == x && Y(x + 5 * y) == y
  {
  }

  lemma PlacesAreCoordinates()
    ensures forall i :: 0 <= i < 25 ==> X(i) < 5 && Y(i) < 5 && i == X(i) + 5 * Y(i)
  {
  }

  /** Where pi puts a lane, and where it takes one from. */
  function Target(x: nat, y: nat): nat { y + 5 * ((2 * x + 3 * y) % 5) }

  function Origin(i: nat): nat { (X(i) + 3 * Y(i)) % 5 + 5 * X(i) }

  lemma ModFive(x: nat, y: int, k: int)
    requires x < 5 && y == x + 5 * k
    ensures y % 5 == x
  {
  }

  /** Rho and pi send the 25 places to 25 places, and Origin undoes it. */
  lemma OriginOfTarget(x: nat, y: nat)
    requires x < 5 && y < 5
    ensures Target(x, y) < 25 && Origin(Target(x, y)) == x + 5 * y
  {
    hide X, Y;
    var m, q := (2 * x + 3 * y) % 5, (2 * x + 3 * y) / 5;
    Place(y, m);
    ModFive(x, y + 3 * m, x + 2 * y - 3 * q);
  }

  lemma TargetOfOrigin(i: nat)
    requires i < 25
    ensures Origin(i) < 25 && Target(X(Origin(i)), Y(Origin(i))) == i
  {
    hide X, Y;
    PlacesAreCoordinates();
    var m, q := (X(i) + 3 * Y(i)) % 5, (X(i) + 3 * Y(i)) / 5;
    Place(m, X(i));
    ModFive(Y(i), 2 * m + 3 * X(i), X(i) + Y(i) - 2 * q);
  }

  // ---------------------------------------------------------------- the step mappings, lane by lane

  function Column(a: Lanes, x: nat): nat
    requires x < 5
  {
    Xor(Xor(Xor(Xor(a[x], a[x + 5]), a[x + 10]), a[x + 15]), a[x + 20])
  }

  function Effect(a: Lanes, x: nat): nat
    requires x < 5
  {
    Xor(Column(a, (x + 4) % 5), Rotl64(Column(a, (x + 1) % 5), 1))
  }

  function ThetaLane(a: Lanes, i: nat): nat
    requires i < 25
  {
    Xor(a[i], Effect(a, X(i)))
  }

  function RhoPiLane(a: Lanes, i: nat): nat
    requires i < 25
  {
    TargetOfOrigin(i);
    Rotl64(a[Origin(i)], ROTATION[Origin(i)])
  }

  function ChiLane(b: Lanes, i: nat): nat
    requires i < 25
  {
    PlacesAreCoordinates();
    Xor(b[i], And(And(Not(b[(X(i) + 1) % 5 + 5 * Y(i)]), b[(X(i) + 2) % 5 + 5 * Y(i)]), MASK))
  }

  function Theta(a: Lanes): Lanes { seq(25, i requires 0 <= i < 25 => ThetaLane(a, i)) }

  function RhoPi(a: Lanes): Lanes { seq(25, i requires 0 <= i < 25 => RhoPiLane(a, i)) }

  function Chi(b: Lanes): Lanes { seq(25, i requires 0 <= i < 25 => ChiLane(b, i)) }

  function Iota(a: Lanes, round: nat): Lanes
    requires round < 24
  {
    a[0 := Xor(a[0], ROUND_CONSTANTS[round])]
  }

  function Round(a: Lanes, round: nat): Lanes
    requires round < 24
  {
    Iota(Chi(RhoPi(Theta(a))), round)
  }

  function Rounds(a: Lanes, n: nat): Lanes
    requires n <= 24
  {
    if n == 0 then a else Round(Rounds(a, n - 1), n - 1)
  }

  // ---------------------------------------------------------------- in place

  /** The places before a column and row, in the order the nested loops visit them. */
  predicate Visited(i: nat, x: nat, y: nat) { X(i) < x || (X(i) == x && Y(i) < y) }

  lemma VisitedAtStart(x: nat)
    ensures forall i :: 0 <= i < 25 ==> (Visited(i, x, 0) <==> X(i) < x)
    ensures forall i :: 0 <= i < 25 ==> (Visited(i, x, 5) <==> X(i) < x + 1)
    ensures forall i :: 0 <= i < 25 ==> X(i) < 5
  {
  }

  lemma VisitedNext(x: nat, y: nat)
    requires x < 5 && y < 5
    ensures x + 5 * y < 25 && !Visited(x + 5 * y, x, y)
    ensures forall i :: 0 <= i < 25 ==> (Visited(i, x, y + 1) <==> Visited(i, x, y) || i == x + 5 * y)
  {
    hide X, Y;
    PlacesAreCoordinates();
    Place(x, y);
  }

  method ThetaInPlace(lanes: array<nat>)
    requires lanes.Length == 25
    modifies lanes
    ensures lanes[..] == Theta(old(lanes[..]))
  {
    hide Effect, Column, X, Y, Visited, Xor, Rotl64;
    ghost var a: Lanes := lanes[..];
    var c := new nat[5];
    for x := 0 to 5
      invariant lanes[..] == a
      invariant forall i :: 0 <= i < x ==> c[i] == Column(a, i)
    {
      ColumnIs(a, x);
      c[x] := Xor(Xor(Xor(Xor(lanes[x], lanes[x + 5]), lanes[x + 10]), lanes[x + 15]), lanes[x + 20]);
    }
    VisitedAtStart(0);
    for x := 0 to 5
      invariant forall i :: 0 <= i < 25 ==> lanes[i] == if X(i) < x then ThetaLane(a, i) else a[i]
      invariant forall i :: 0 <= i < 5 ==> c[i] == Column(a, i)
    {
      var d := Xor(c[(x + 4) % 5], Rotl64(c[(x + 1) % 5], 1));
      EffectIs(a, x);
      VisitedAtStart(x);
      for y := 0 to 5
        invariant forall i :: 0 <= i < 25 ==> lanes[i] == if Visited(i, x, y) then ThetaLane(a, i) else a[i]
        invariant forall i :: 0 <= i < 5 ==> c[i] == Column(a, i)
      {
        Place(x, y);
        VisitedNext(x, y);
        lanes[x + 5 * y] := Xor(lanes[x + 5 * y], d);
      }
    }
    VisitedAtStart(5);
  }

  lemma ColumnIs(a: Lanes, x: nat)
    requires x < 5
    ensures Column(a, x) == Xor(Xor(Xor(Xor(a[x], a[x + 5]), a[x + 10]), a[x + 15]), a[x + 20])
  {
  }

  lemma EffectIs(a: Lanes, x: nat)
    requires x < 5
    ensures Effect(a, x) == Xor(Column(a, (x + 4) % 5), Rotl64(Column(a, (x + 1) % 5), 1))
  {
  }

  lemma OriginNext(x: nat, y: nat)
    requires x < 5 && y < 5
    ensures Target(x, y) < 25 && Origin(Target(x, y)) == x + 5 * y < 25
    ensures forall i :: 0 <= i < 25 ==> Origin(i) < 25
    ensures forall i :: 0 <= i < 25 ==>
              (Visited(Origin(i), x, y + 1) <==> Visited(Origin(i), x, y) || i == Target(x, y))
  {
    hide X, Y, Origin, Target, Visited;
    VisitedNext(x, y);
    OriginOfTarget(x, y);
    Place(x, y);
    forall i: nat | i < 25
      ensures Origin(i) < 25
      ensures Visited(Origin(i), x, y + 1) <==> Visited(Origin(i), x, y) || i == Target(x, y)
    {
      TargetOfOrigin(i);
    }
  }

  lemma OriginsVisited(x: nat)
    ensures forall i :: 0 <= i < 25 ==> Origin(i) < 25 && X(Origin(i)) < 5
    ensures forall i :: 0 <= i < 25 ==> (Visited(Origin(i), x, 0) <==> X(Origin(i)) < x)
    ensures forall i :: 0 <= i < 25 ==> (Visited(Origin(i), x, 5) <==> X(Origin(i)) < x + 1)
  {
    hide X, Y, Origin, Visited;
    VisitedAtStart(x);
    forall i: nat | i < 25 ensures Origin(i) < 25 {
      TargetOfOrigin(i);
    }
  }

  method RhoPiInto(lanes: array<nat>, b: array<nat>)
    requires lanes.Length == 25 && b.Length == 25 && lanes != b
    modifies b
    ensures b[..] == RhoPi(lanes[..])
  {
    hide Rotl64, X, Y, Visited, Origin;
    ghost var a: Lanes := lanes[..];
    OriginsVisited(0);
    for x := 0 to 5
      invariant lanes[..] == a
      invariant forall i :: 0 <= i < 25 && X(Origin(i)) < x ==> b[i] == RhoPiLane(a, i)
    {
      OriginsVisited(x);
      for y := 0 to 5
        invariant lanes[..] == a
        invariant forall i :: 0 <= i < 25 && Visited(Origin(i), x, y) ==> b[i] == RhoPiLane(a, i)
      {
        OriginNext(x, y);
        b[y + 5 * ((2 * x + 3 * y) % 5)] := Rotl64(lanes[x + 5 * y], ROTATION[x + 5 * y]);
      }
    }
    OriginsVisited(5);
  }

  method ChiInto(b: array<nat>, lanes: array<nat>)
    requires lanes.Length == 25 && b.Length == 25 && lanes != b
    modifies lanes
    ensures lanes[..] == Chi(b[..])
  {
    hide ChiLane, X, Y, Visited, Xor, And, Not;
    ghost var from: Lanes := b[..];
    VisitedAtStart(0);
    for x := 0 to 5
      invariant b[..] == from
      invariant forall i :: 0 <= i < 25 && X(i) < x ==> lanes[i] == ChiLane(from, i)
    {
      VisitedAtStart(x);
      for y := 0 to 5
        invariant b[..] == from
        invariant forall i :: 0 <= i < 25 && Visited(i, x, y) ==> lanes[i] == ChiLane(from, i)
      {
        VisitedNext(x, y);
        ChiLaneIs(from, x, y);
        lanes[x + 5 * y] :=
          Xor(b[x + 5 * y], And(And(Not(b[(x + 1) % 5 + 5 * y]), b[(x + 2) % 5 + 5 * y]), MASK));
      }
    }
    VisitedAtStart(5);
  }

  lemma ChiLaneIs(b: Lanes, x: nat, y: nat)
    requires x < 5 && y < 5
    ensures ChiLane(b, x + 5 * y)
            == Xor(b[x + 5 * y], And(And(Not(b[(x + 1) % 5 + 5 * y]), b[(x + 2) % 5 + 5 * y]), MASK))
  {
    hide X, Y, Xor, And, Not;
    Place(x, y);
  }

  /** The permutation, in place on 25 lanes. */
  method Permute(lanes: array<nat>)
    requires lanes.Length == 25
    modifies lanes
    ensures lanes[..] == Rounds(old(lanes[..]), 24)
  {
    hide Theta, RhoPi, Chi;
    ghost var a: Lanes := lanes[..];
    for round := 0 to 24
      invariant lanes[..] == Rounds(a, round)
    {
      ThetaInPlace(lanes);
      var b := new nat[25];
      RhoPiInto(lanes, b);
      ChiInto(b, lanes);
      lanes[0] := Xor(lanes[0], ROUND_CONSTANTS[round]);
    }
  }
}
