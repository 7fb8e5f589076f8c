/**
 * KECCAK-f[1600] as FIPS 202 defines it, bit by bit on a 5 by 5 by 64 array
 * (sections 3.2 and 3.3), and the proof that the lanes compute it.
 */
module KeccakStandard {
  import opened Bits
  import opened Keccak

  /** A[x, y, z]; only x, y < 5 and z < 64 matter. */
  type Cube = (nat, nat, nat) -> bool

  // ---------------------------------------------------------------- section 3.2

  predicate Parity(a: Cube, x: nat, z: nat) {
    (((a(x, 0, z) != a(x, 1, z)) != a(x, 2, z)) != a(x, 3, z)) != a(x, 4, z)
  }

  predicate EffectBit(a: Cube, x: nat, z: nat) {
    Parity(a, (x + 4) % 5, z) != Parity(a, (x + 1) % 5, (z + 63) % 64)
  }

  function ThetaBits(a: Cube): Cube { (x: nat, y: nat, z: nat) => a(x, y, z) != EffectBit(a, x, z) }

  /** The walk of Algorithm 2: (1, 0), then (x, y) becomes (y, 2x + 3y). */
  function Walk(t: nat): (nat, nat) {
    if t == 0 then (1, 0) else var (x, y) := Walk(t - 1); (y, (2 * x + 3 * y) % 5)
  }

  function Triangle(t: nat): nat { (t + 1) * (t + 2) / 2 }

  /** The rotation of a lane: (t + 1)(t + 2) / 2 for the step t of the walk that reaches it, none at the origin. */
  function OffsetFrom(x: nat, y: nat, t: nat): nat
    decreases 24 - t
  {
    if t >= 24 then 0 else if Walk(t) == (x, y) then Triangle(t) else OffsetFrom(x, y, t + 1)
  }

  function RhoBits(a: Cube): Cube { (x: nat, y: nat, z: nat) => a(x, y, (z - OffsetFrom(x, y, 0)) % 64) }

  function PiFrom(x: nat, y: nat): nat { (x + 3 * y) % 5 }

  function PiBits(a: Cube): Cube { (x: nat, y: nat, z: nat) => a(PiFrom(x, y), x, z) }

  function ChiBits(a: Cube): Cube {
    (x: nat, y: nat, z: nat) => a(x, y, z) != (!a((x + 1) % 5, y, z) && a((x + 2) % 5, y, z))
  }

  /** The shift register of Algorithm 5, after some steps. */
  datatype Register = Register(r0: bool, r1: bool, r2: bool, r3: bool, r4: bool, r5: bool, r6: bool, r7: bool)

  function Shifted(r: Register): Register {
    Register(r.r7, r.r0, r.r1, r.r2, r.r3 != r.r7, r.r4 != r.r7, r.r5 != r.r7, r.r6)
  }

  function RegisterAt(t: nat): Register {
    if t == 0 then Register(true, false, false, false, false, false, false, false) else Shifted(RegisterAt(t - 1))
  }

  predicate RoundBit(t: nat) { RegisterAt(t % 255).r0 }

  /** RC[2^j - 1] = rc(j + 7 * round) for j = 0 .. 6, and 0 elsewhere. */
  predicate ConstantBit(round: nat, z: nat) {
    exists j: nat :: j <= 6 && z == Pow2(j) - 1 && RoundBit(j + 7 * round)
  }

  function IotaBits(a: Cube, round: nat): Cube {
    (x: nat, y: nat, z: nat) => a(x, y, z) != (x == 0 && y == 0 && ConstantBit(round, z))
  }

  // ---------------------------------------------------------------- section 3.3

  function RoundBits(a: Cube, round: nat): Cube { IotaBits(ChiBits(PiBits(RhoBits(ThetaBits(a)))), round) }

  function RoundsBits(a: Cube, n: nat): Cube { if n == 0 then a else RoundBits(RoundsBits(a, n - 1), n - 1) }

  // ---------------------------------------------------------------- lanes show bits

  /** The lanes hold the array: lane x + 5y, bit z. */
  ghost predicate Shows(a: Lanes, c: Cube) {
    forall x: nat, y: nat, z: nat :: x < 5 && y < 5 && z < 64 ==> c(x, y, z) == Bit(a[x + 5 * y], z)
  }

  ghost predicate Narrow(a: Lanes) { forall i :: 0 <= i < 25 ==> a[i] <= MASK }

  lemma ShownBit(a: Lanes, c: Cube, x: nat, y: nat, z: nat)
    requires Narrow(a) && Shows(a, c) && x < 5 && y < 5 && z < 64
    ensures a[x + 5 * y] <= MASK && c(x, y, z) == Bit(a[x + 5 * y], z)
  {
    hide Bit;
  }

  lemma MaskIsOnes()
    ensures MASK == Pow2(64) - 1
  {
    assert Pow2(4) == 16;
    hide Pow2;
    PowSum(4, 4);
    assert Pow2(8) == 256;
    PowSum(8, 8);
    assert Pow2(16) == 0x1_0000;
    PowSum(16, 16);
    assert Pow2(32) == 0x1_0000_0000;
    PowSum(32, 32);
  }

  lemma NarrowBit(v: nat, z: nat)
    requires v <= MASK && z >= 64
    ensures !Bit(v, z)
  {
    MaskIsOnes();
    HighBit(v, 64, z);
  }

  lemma NarrowIfNoBit(v: nat)
    requires forall z: nat :: z >= 64 ==> !Bit(v, z)
    ensures v <= MASK
  {
    MaskIsOnes();
    BelowIfNoHighBit(v, 64);
  }

  lemma MaskBit(v: int, z: nat)
    ensures Bit(And(v, MASK), z) == (z < 64 && Bit(v, z))
  {
    hide Bit, And;
    MaskIsOnes();
    OnesBit(64, z);
    AndBit(v, MASK, z);
  }

  lemma MaskedIsNarrow(v: int)
    ensures And(v, MASK) <= MASK
  {
    hide *;
    forall z: nat | z >= 64 ensures !Bit(And(v, MASK), z) {
      MaskBit(v, z);
    }
    NarrowIfNoBit(And(v, MASK));
  }

  lemma XorIsNarrow(a: nat, b: nat)
    requires a <= MASK && b <= MASK
    ensures Xor(a, b) <= MASK
  {
    hide *;
    forall z: nat | z >= 64 ensures !Bit(Xor(a, b), z) {
      XorBit(a, b, z);
      NarrowBit(a, z);
      NarrowBit(b, z);
    }
    NarrowIfNoBit(Xor(a, b));
  }

  /** Rotation moves bit z - shift to bit z, and always leaves 64 bits. */
  lemma RotlBit(value: nat, shift: nat, z: nat)
    requires shift < 64 && value <= MASK && z < 64
    ensures Rotl64(value, shift) <= MASK && Bit(Rotl64(value, shift), z) == Bit(value, (z - shift) % 64)
  {
    hide Bit, And, Or, Shl, Shr;
    if shift == 0 {
      MaskBit(value, z);
      MaskedIsNarrow(value);
    } else {
      MaskedIsNarrow(Or(Shl(value, shift), Shr(value, 64 - shift)));
      MaskBit(Or(Shl(value, shift), Shr(value, 64 - shift)), z);
      OrBit(Shl(value, shift), Shr(value, 64 - shift), z);
      ShlBit(value, shift, z);
      ShrBit(value, 64 - shift, z);
      if z >= shift {
        NarrowBit(value, z + 64 - shift);
      }
    }
  }

  // ---------------------------------------------------------------- theta

  lemma ColumnShows(a: Lanes, c: Cube, x: nat, z: nat)
    requires Shows(a, c) && x < 5 && z < 64
    ensures Bit(Column(a, x), z) == Parity(c, x, z)
  {
    hide Bit, Xor;
    var p := Xor(a[x], a[x + 5]);
    var q := Xor(p, a[x + 10]);
    var r := Xor(q, a[x + 15]);
    XorBit(a[x], a[x + 5], z);
    XorBit(p, a[x + 10], z);
    XorBit(q, a[x + 15], z);
    XorBit(r, a[x + 20], z);
    assert c(x, 0, z) == Bit(a[x + 5 * 0], z) && c(x, 1, z) == Bit(a[x + 5 * 1], z);
    assert c(x, 2, z) == Bit(a[x + 5 * 2], z) && c(x, 3, z) == Bit(a[x + 5 * 3], z);
    assert c(x, 4, z) == Bit(a[x + 5 * 4], z);
  }

  lemma ColumnIsNarrow(a: Lanes, x: nat)
    requires Narrow(a) && x < 5
    ensures Column(a, x) <= MASK
  {
    hide Xor;
    XorIsNarrow(a[x], a[x + 5]);
    XorIsNarrow(Xor(a[x], a[x + 5]), a[x + 10]);
    XorIsNarrow(Xor(Xor(a[x], a[x + 5]), a[x + 10]), a[x + 15]);
    XorIsNarrow(Xor(Xor(Xor(a[x], a[x + 5]), a[x + 10]), a[x + 15]), a[x + 20]);
  }

  lemma EffectShows(a: Lanes, c: Cube, x: nat, z: nat)
    requires Narrow(a) && Shows(a, c) && x < 5 && z < 64
    ensures Effect(a, x) <= MASK && Bit(Effect(a, x), z) == EffectBit(c, x, z)
  {
    hide Bit, Xor, Column, Parity, Shows, Narrow, Rotl64;
    var left, right := Column(a, (x + 4) % 5), Column(a, (x + 1) % 5);
    ColumnShows(a, c, (x + 4) % 5, z);
    ColumnShows(a, c, (x + 1) % 5, (z + 63) % 64);
    ColumnIsNarrow(a, (x + 4) % 5);
    ColumnIsNarrow(a, (x + 1) % 5);
    RotlBit(right, 1, z);
    assert (z - 1) % 64 == (z + 63) % 64;
    XorBit(left, Rotl64(right, 1), z);
    XorIsNarrow(left, Rotl64(right, 1));
  }

  lemma ThetaShows(a: Lanes, c: Cube)
    requires Narrow(a) && Shows(a, c)
    ensures Narrow(Theta(a)) && Shows(Theta(a), ThetaBits(c))
  {
    hide Bit, Xor, Effect, EffectBit, X, Y;
    PlacesAreCoordinates();
    forall i: nat | i < 25 ensures Theta(a)[i] <= MASK {
      EffectShows(a, c, X(i), 0);
      XorIsNarrow(a[i], Effect(a, X(i)));
    }
    forall x: nat, y: nat, z: nat | x < 5 && y < 5 && z < 64
      ensures ThetaBits(c)(x, y, z) == Bit(Theta(a)[x + 5 * y], z)
    {
      Place(x, y);
      EffectShows(a, c, x, z);
      XorBit(a[x + 5 * y], Effect(a, x), z);
    }
  }

  // ---------------------------------------------------------------- rho and pi

  /** The 24 steps of the walk: each place but the origin once. */
  lemma WalkIs()
    ensures Walk(0) == (1, 0) && Walk(1) == (0, 2) && Walk(2) == (2, 1) && Walk(3) == (1, 2)
    ensures Walk(4) == (2, 3) && Walk(5) == (3, 3) && Walk(6) == (3, 0) && Walk(7) == (0, 1)
    ensures Walk(8) == (1, 3) && Walk(9) == (3, 1) && Walk(10) == (1, 4) && Walk(11) == (4, 4)
    ensures Walk(12) == (4, 0) && Walk(13) == (0, 3) && Walk(14) == (3, 4) && Walk(15) == (4, 3)
    ensures Walk(16) == (3, 2) && Walk(17) == (2, 2) && Walk(18) == (2, 0) && Walk(19) == (0, 4)
    ensures Walk(20) == (4, 2) && Walk(21) == (2, 4) && Walk(22) == (4, 1) && Walk(23) == (1, 1)
  {
  }

  lemma TrianglesAre()
    ensures Triangle(0) == 1 && Triangle(1) == 3 && Triangle(2) == 6 && Triangle(3) == 10
    ensures Triangle(4) == 15 && Triangle(5) == 21 && Triangle(6) == 28 && Triangle(7) == 36
    ensures Triangle(8) == 45 && Triangle(9) == 55 && Triangle(10) == 66 && Triangle(11) == 78
    ensures Triangle(12) == 91 && Triangle(13) == 105 && Triangle(14) == 120 && Triangle(15) == 136
    ensures Triangle(16) == 153 && Triangle(17) == 171 && Triangle(18) == 190 && Triangle(19) == 210
    ensures Triangle(20) == 231 && Triangle(21) == 253 && Triangle(22) == 276 && Triangle(23) == 300
  {
  }

  lemma EarlyWalkRotates(t: nat)
    requires t < 12
    ensures var (x, y) := Walk(t); x < 5 && y < 5 && ROTATION[x + 5 * y] == Triangle(t) % 64
  {
    hide Walk, Triangle;
    WalkIs();
    TrianglesAre();
  }

  lemma LateWalkRotates(t: nat)
    requires 12 <= t < 24
    ensures var (x, y) := Walk(t); x < 5 && y < 5 && ROTATION[x + 5 * y] == Triangle(t) % 64
  {
    hide Walk, Triangle;
    WalkIs();
    TrianglesAre();
  }

  lemma WalkRotates(t: nat)
    requires t < 24
    ensures var (x, y) := Walk(t); x < 5 && y < 5 && ROTATION[x + 5 * y] == Triangle(t) % 64
  {
    hide Walk, Triangle;
    if t < 12 {
      EarlyWalkRotates(t);
    } else {
      LateWalkRotates(t);
    }
  }

  lemma {:induction false} OffsetIsFound(x: nat, y: nat, from: nat, t: nat)
    requires x < 5 && y < 5 && from <= t < 24 && Walk(t) == (x, y)
    ensures OffsetFrom(x, y, from) % 64 == ROTATION[x + 5 * y]
    decreases t - from
  {
    hide Walk;
    WalkRotates(from);
    if Walk(from) != (x, y) {
      OffsetIsFound(x, y, from + 1, t);
    }
  }

  /** The step of the walk that reaches each place. */
  const STEP: seq<nat> := [
    24, 0, 18, 6, 12,
    7, 23, 2, 9, 22,
    1, 3, 17, 16, 20,
    13, 8, 4, 5, 15,
    19, 10, 21, 14, 11]

  /** The code's table is the standard's walk, modulo the lane length. */
  lemma OffsetsAgree(x: nat, y: nat)
    requires x < 5 && y < 5
    ensures OffsetFrom(x, y, 0) % 64 == ROTATION[x + 5 * y]
  {
    hide Walk, OffsetFrom;
    if x == 0 && y == 0 {
      OriginIsNotReached(0);
    } else {
      StepReaches(x, y);
      OffsetIsFound(x, y, 0, STEP[x + 5 * y]);
    }
  }

  lemma StepReaches(x: nat, y: nat)
    requires x < 5 && y < 5 && x + y > 0
    ensures STEP[x + 5 * y] < 24 && Walk(STEP[x + 5 * y]) == (x, y)
  {
    hide Walk;
    WalkIs();
  }

  lemma {:induction false} OriginIsNotReached(t: nat)
    ensures OffsetFrom(0, 0, t) == 0
    decreases 24 - t
  {
    hide Walk;
    if t < 24 {
      WalkIs();
      OriginIsNotReached(t + 1);
    }
  }

  lemma SameRotation(z: nat, offset: nat)
    ensures (z - offset) % 64 == (z - offset % 64) % 64
  {
    var q := offset / 64;
    assert z - offset % 64 == z - offset + 64 * q;
  }

  lemma RotatedLane(a: Lanes, c: Cube, x: nat, y: nat, z: nat)
    requires Narrow(a) && Shows(a, c) && x < 5 && y < 5 && z < 64
    ensures Rotl64(a[x + 5 * y], ROTATION[x + 5 * y]) <= MASK
    ensures RhoBits(c)(x, y, z) == Bit(Rotl64(a[x + 5 * y], ROTATION[x + 5 * y]), z)
  {
    hide Bit, Rotl64, OffsetFrom, Narrow, Shows;
    OffsetsAgree(x, y);
    var k := ROTATION[x + 5 * y];
    ShownBit(a, c, x, y, (z - k) % 64);
    RotlBit(a[x + 5 * y], k, z);
    SameRotation(z, OffsetFrom(x, y, 0));
  }

  lemma PiBitIs(c: Cube, x: nat, y: nat, z: nat)
    ensures PiBits(c)(x, y, z) == c(PiFrom(x, y), x, z)
    ensures PiFrom(x, y) < 5
  {
    hide PiFrom;
    PiFromIsColumn(x, y);
  }

  lemma PiFromIsColumn(x: nat, y: nat)
    ensures PiFrom(x, y) < 5
  {
  }

  lemma RhoPiLaneIs(a: Lanes, x: nat, y: nat)
    requires x < 5 && y < 5
    ensures PiFrom(x, y) < 5
    ensures RhoPiLane(a, x + 5 * y) == Rotl64(a[PiFrom(x, y) + 5 * x], ROTATION[PiFrom(x, y) + 5 * x])
  {
    hide Rotl64, X, Y;
    Place(x, y);
  }

  lemma RhoPiLaneShows(a: Lanes, c: Cube, x: nat, y: nat, z: nat)
    requires Narrow(a) && Shows(a, c) && x < 5 && y < 5 && z < 64
    ensures RhoPiLane(a, x + 5 * y) <= MASK
    ensures PiBits(RhoBits(c))(x, y, z) == Bit(RhoPiLane(a, x + 5 * y), z)
  {
    hide *;
    RhoPiLaneIs(a, x, y);
    PiBitIs(RhoBits(c), x, y, z);
    RotatedLane(a, c, PiFrom(x, y), x, z);
  }

  lemma RhoPiShows(a: Lanes, c: Cube)
    requires Narrow(a) && Shows(a, c)
    ensures Narrow(RhoPi(a)) && Shows(RhoPi(a), PiBits(RhoBits(c)))
  {
    hide Bit, RhoPiLane, X, Y, RhoBits, PiBits;
    PlacesAreCoordinates();
    forall i: nat | i < 25 ensures RhoPiLane(a, i) <= MASK {
      RhoPiLaneShows(a, c, X(i), Y(i), 0);
    }
    forall x: nat, y: nat, z: nat | x < 5 && y < 5 && z < 64
      ensures PiBits(RhoBits(c))(x, y, z) == Bit(RhoPi(a)[x + 5 * y], z)
    {
      RhoPiLaneShows(a, c, x, y, z);
    }
  }

  // ---------------------------------------------------------------- chi

  lemma ChiWordShows(b: nat, b1: nat, b2: nat, z: nat)
    requires b <= MASK && z < 64
    ensures Xor(b, And(And(Not(b1), b2), MASK)) <= MASK
    ensures Bit(Xor(b, And(And(Not(b1), b2), MASK)), z) == (Bit(b, z) != (!Bit(b1, z) && Bit(b2, z)))
  {
    hide Bit, Xor, And, Not;
    NotBit(b1, z);
    AndBit(Not(b1), b2, z);
    MaskBit(And(Not(b1), b2), z);
    MaskedIsNarrow(And(Not(b1), b2));
    XorBit(b, And(And(Not(b1), b2), MASK), z);
    XorIsNarrow(b, And(And(Not(b1), b2), MASK));
  }

  lemma ChiBitIs(c: Cube, x: nat, y: nat, z: nat)
    ensures ChiBits(c)(x, y, z) == (c(x, y, z) != (!c((x + 1) % 5, y, z) && c((x + 2) % 5, y, z)))
  {
  }

  lemma ChiLaneShows(b: Lanes, c: Cube, x: nat, y: nat, z: nat)
    requires Narrow(b) && Shows(b, c) && x < 5 && y < 5 && z < 64
    ensures ChiLane(b, x + 5 * y) <= MASK
    ensures ChiBits(c)(x, y, z) == Bit(ChiLane(b, x + 5 * y), z)
  {
    hide *;
    ChiBitIs(c, x, y, z);
    ChiLaneIs(b, x, y);
    var x1, x2 := (x + 1) % 5, (x + 2) % 5;
    ShownBit(b, c, x, y, z);
    ShownBit(b, c, x1, y, z);
    ShownBit(b, c, x2, y, z);
    ChiWordShows(b[x + 5 * y], b[x1 + 5 * y], b[x2 + 5 * y], z);
  }

  lemma ChiShows(b: Lanes, c: Cube)
    requires Narrow(b) && Shows(b, c)
    ensures Narrow(Chi(b)) && Shows(Chi(b), ChiBits(c))
  {
    hide Bit, ChiLane, X, Y, ChiBits;
    PlacesAreCoordinates();
    forall i: nat | i < 25 ensures ChiLane(b, i) <= MASK {
      ChiLaneShows(b, c, X(i), Y(i), 0);
    }
    forall x: nat, y: nat, z: nat | x < 5 && y < 5 && z < 64
      ensures ChiBits(c)(x, y, z) == Bit(Chi(b)[x + 5 * y], z)
    {
      ChiLaneShows(b, c, x, y, z);
    }
  }

  // ---------------------------------------------------------------- iota

  /** The word with bit 2^j - 1 set when the j-th of seven bits is. */
  function SevenBits(b0: bool, b1: bool, b2: bool, b3: bool, b4: bool, b5: bool, b6: bool): nat {
    Low(b0) + 0x2 * Low(b1) + 0x8 * Low(b2) + 0x80 * Low(b3) + 0x8000 * Low(b4) + 0x8000_0000 * Low(b5)
    + 0x8000_0000_0000_0000 * Low(b6)
  }

  function ConstantWord(round: nat): nat {
    var t := 7 * round;
    SevenBits(RoundBit(t), RoundBit(t + 1), RoundBit(t + 2), RoundBit(t + 3), RoundBit(t + 4), RoundBit(t + 5),
              RoundBit(t + 6))
  }

  /** Seven steps of the register, and the word the bits leaving it spell. */
  predicate Follows(r: Register, next: Register, word: nat) {
    var s := Shifted(r);
    var t := Shifted(s);
    var u := Shifted(t);
    var v := Shifted(u);
    var w := Shifted(v);
    var x := Shifted(w);
    next == Shifted(x) && word == SevenBits(r.r0, s.r0, t.r0, u.r0, v.r0, w.r0, x.r0)
  }

  lemma {:induction false} NextRegister(t: nat)
    requires t < 255
    ensures RegisterAt(t + 1) == Shifted(RegisterAt(t)) && RoundBit(t) == RegisterAt(t).r0
  {
  }

  lemma SevenSteps(round: nat)
    requires round < 24
    ensures Follows(RegisterAt(7 * round), RegisterAt(7 * round + 7), ConstantWord(round))
  {
    hide RegisterAt, SevenBits, Shifted, RoundBit;
    var t := 7 * round;
    NextRegister(t);
    NextRegister(t + 1);
    NextRegister(t + 2);
    NextRegister(t + 3);
    NextRegister(t + 4);
    NextRegister(t + 5);
    NextRegister(t + 6);
  }

  /** Seven more steps from a known register. */
  lemma Advance(round: nat, r: Register, next: Register, word: nat)
    requires round < 24 && RegisterAt(7 * round) == r && Follows(r, next, word)
    ensures RegisterAt(7 * round + 7) == next && ConstantWord(round) == word
  {
    hide RegisterAt, SevenBits, Shifted, ConstantWord;
    SevenSteps(round);
  }

  lemma FirstRegister()
    ensures RegisterAt(0) == Register(true, false, false, false, false, false, false, false)
  {
  }

  lemma RoundsFrom0()
    ensures RegisterAt(28) == Register(true, true, true, true, true, false, true, true)
    ensures ConstantWord(0) == 0x1 && ConstantWord(1) == 0x8082
    ensures ConstantWord(2) == 0x800000000000808a && ConstantWord(3) == 0x8000000080008000
  {
    FirstRegister();
    hide RegisterAt, ConstantWord;
    Advance(0, Register(true, false, false, false, false, false, false, false),
            Register(false, false, false, false, false, false, false, true), 0x1);
    Advance(1, Register(false, false, false, false, false, false, false, true),
            Register(false, false, false, true, true, false, true, true), 0x8082);
    Advance(2, Register(false, false, false, true, true, false, true, true),
            Register(false, true, false, true, true, false, false, false), 0x800000000000808a);
    Advance(3, Register(false, true, false, true, true, false, false, false),
            Register(true, true, true, true, true, false, true, true), 0x8000000080008000);
  }

  lemma RoundsFrom4()
    ensures RegisterAt(56) == Register(false, true, false, true, false, false, true, true)
    ensures ConstantWord(4) == 0x808b && ConstantWord(5) == 0x80000001
    ensures ConstantWord(6) == 0x8000000080008081 && ConstantWord(7) == 0x8000000000008009
  {
    RoundsFrom0();
    hide RegisterAt, ConstantWord;
    Advance(4, Register(true, true, true, true, true, false, true, true),
            Register(true, false, false, true, false, false, false, false), 0x808b);
    Advance(5, Register(true, false, false, true, false, false, false, false),
            Register(true, false, true, false, true, true, false, false), 0x80000001);
    Advance(6, Register(true, false, true, false, true, true, false, false),
            Register(true, true, true, true, false, false, true, false), 0x8000000080008081);
    Advance(7, Register(true, true, true, true, false, false, true, false),
            Register(false, true, false, true, false, false, true, true), 0x8000000000008009);
  }

  lemma RoundsFrom8()
    ensures RegisterAt(84) == Register(true, false, true, false, true, false, true, true)
    ensures ConstantWord(8) == 0x8a && ConstantWord(9) == 0x88
    ensures ConstantWord(10) == 0x80008009 && ConstantWord(11) == 0x8000000a
  {
    RoundsFrom4();
    hide RegisterAt, ConstantWord;
    Advance(8, Register(false, true, false, true, false, false, true, true),
            Register(false, false, false, false, true, true, true, false), 0x8a);
    Advance(9, Register(false, false, false, false, true, true, true, false),
            Register(true, false, false, false, false, false, true, false), 0x88);
    Advance(10, Register(true, false, false, false, false, false, true, false),
            Register(false, false, true, true, false, true, true, true), 0x80008009);
    Advance(11, Register(false, false, true, true, false, true, true, true),
            Register(true, false, true, false, true, false, true, true), 0x8000000a);
  }

  lemma RoundsFrom12()
    ensures RegisterAt(112) == Register(false, true, false, true, false, true, false, true)
    ensures ConstantWord(12) == 0x8000808b && ConstantWord(13) == 0x800000000000008b
    ensures ConstantWord(14) == 0x8000000000008089 && ConstantWord(15) == 0x8000000000008003
  {
    RoundsFrom8();
    hide RegisterAt, ConstantWord;
    Advance(12, Register(true, false, true, false, true, false, true, true),
            Register(true, false, true, true, false, false, true, true), 0x8000808b);
    Advance(13, Register(true, false, true, true, false, false, true, true),
            Register(true, true, false, false, false, true, true, false), 0x800000000000008b);
    Advance(14, Register(true, true, false, false, false, true, true, false),
            Register(true, true, false, true, false, true, false, true), 0x8000000000008089);
    Advance(15, Register(true, true, false, true, false, true, false, true),
            Register(false, true, false, true, false, true, false, true), 0x8000000000008003);
  }

  lemma RoundsFrom16()
    ensures RegisterAt(140) == Register(true, true, true, false, true, true, false, false)
    ensures ConstantWord(16) == 0x8000000000008002 && ConstantWord(17) == 0x8000000000000080
    ensures ConstantWord(18) == 0x800a && ConstantWord(19) == 0x800000008000000a
  {
    RoundsFrom12();
    hide RegisterAt, ConstantWord;
    Advance(16, Register(false, true, false, true, false, true, false, true),
            Register(false, true, false, true, false, true, false, false), 0x8000000000008002);
    Advance(17, Register(false, true, false, true, false, true, false, false),
            Register(false, true, false, false, true, true, true, true), 0x8000000000000080);
    Advance(18, Register(false, true, false, false, true, true, true, true),
            Register(false, false, false, true, false, true, true, true), 0x800a);
    Advance(19, Register(false, false, false, true, false, true, true, true),
            Register(true, true, true, false, true, true, false, false), 0x800000008000000a);
  }

  lemma RoundsFrom20()
    ensures RegisterAt(168) == Register(false, true, true, true, false, false, false, true)
    ensures ConstantWord(20) == 0x8000000080008081 && ConstantWord(21) == 0x8000000000008080
    ensures ConstantWord(22) == 0x80000001 && ConstantWord(23) == 0x8000000080008008
  {
    RoundsFrom16();
    hide RegisterAt, ConstantWord;
    Advance(20, Register(true, true, true, false, true, true, false, false),
            Register(false, true, true, true, true, true, false, false), 0x8000000080008081);
    Advance(21, Register(false, true, true, true, true, true, false, false),
            Register(true, true, false, true, false, false, false, false), 0x8000000000008080);
    Advance(22, Register(true, true, false, true, false, false, false, false),
            Register(false, false, true, false, false, false, true, false), 0x80000001);
    Advance(23, Register(false, false, true, false, false, false, true, false),
            Register(false, true, true, true, false, false, false, true), 0x8000000080008008);
  }

  /** The code's table of round constants is what the shift register generates. */
  lemma ConstantsAgree(round: nat)
    requires round < 24
    ensures ROUND_CONSTANTS[round] == ConstantWord(round)
  {
    hide RegisterAt, ConstantWord;
    RoundsFrom0();
    RoundsFrom4();
    RoundsFrom8();
    RoundsFrom12();
    RoundsFrom16();
    RoundsFrom20();
  }

  lemma {:induction false} ShlIsTimes(v: nat, s: nat)
    ensures Shl(v, s) == v * Pow2(s)
  {
    if s > 0 {
      ShlIsTimes(v, s - 1);
    }
  }

  lemma BitThenRest(b: bool, rest: nat, k: nat, z: nat)
    requires k >= 1
    ensures Bit(Low(b) + Shl(rest, k), z) == if z < k then z == 0 && b else Bit(rest, z - k)
  {
    hide Shl;
    assert Low(b) < Pow2(k);
    SplitBit(Low(b), rest, k, z);
    if z > 0 {
      LowBit(b, z);
    }
  }

  lemma LowBit(b: bool, z: nat)
    requires z > 0
    ensures !Bit(Low(b), z)
  {
    ZeroBit(z - 1);
  }

  lemma SevenBitsAre(b0: bool, b1: bool, b2: bool, b3: bool, b4: bool, b5: bool, b6: bool, z: nat)
    ensures Bit(SevenBits(b0, b1, b2, b3, b4, b5, b6), z)
            == ((z == 0 && b0) || (z == 1 && b1) || (z == 3 && b2) || (z == 7 && b3) || (z == 15 && b4)
                || (z == 31 && b5) || (z == 63 && b6))
  {
    hide *;
    var w5 := Low(b5) + Shl(Low(b6), 32);
    var w4 := Low(b4) + Shl(w5, 16);
    var w3 := Low(b3) + Shl(w4, 8);
    var w2 := Low(b2) + Shl(w3, 4);
    var w1 := Low(b1) + Shl(w2, 2);
    WordsAdd(b0, b1, b2, b3, b4, b5, b6, w1, w2, w3, w4, w5);
    BitThenRest(b0, w1, 1, z);
    if z >= 1 { BitThenRest(b1, w2, 2, z - 1); }
    if z >= 3 { BitThenRest(b2, w3, 4, z - 3); }
    if z >= 7 { BitThenRest(b3, w4, 8, z - 7); }
    if z >= 15 { BitThenRest(b4, w5, 16, z - 15); }
    if z >= 31 { BitThenRest(b5, Low(b6), 32, z - 31); }
    if z == 63 { LowestBit(b6); }
    if z > 63 { LowBit(b6, z - 63); }
  }

  lemma LowestBit(b: bool)
    ensures Bit(Low(b), 0) == b
  {
  }

  lemma WordsAdd(b0: bool, b1: bool, b2: bool, b3: bool, b4: bool, b5: bool, b6: bool,
                 w1: nat, w2: nat, w3: nat, w4: nat, w5: nat)
    requires w5 == Low(b5) + Shl(Low(b6), 32) && w4 == Low(b4) + Shl(w5, 16) && w3 == Low(b3) + Shl(w4, 8)
    requires w2 == Low(b2) + Shl(w3, 4) && w1 == Low(b1) + Shl(w2, 2)
    ensures SevenBits(b0, b1, b2, b3, b4, b5, b6) == Low(b0) + Shl(w1, 1)
  {
    hide Shl, Pow2, Low;
    SmallPowers();
    ShlIsTimes(Low(b6), 32);
    ShlIsTimes(w5, 16);
    ShlIsTimes(w4, 8);
    ShlIsTimes(w3, 4);
    ShlIsTimes(w2, 2);
    ShlIsTimes(w1, 1);
  }

  lemma SmallPowers()
    ensures Pow2(0) == 1 && Pow2(1) == 2 && Pow2(2) == 4 && Pow2(3) == 8 && Pow2(4) == 16 && Pow2(5) == 32
    ensures Pow2(6) == 64 && Pow2(8) == 256 && Pow2(16) == 0x1_0000 && Pow2(32) == 0x1_0000_0000
  {
    assert Pow2(4) == 16 && Pow2(6) == 64;
    hide Pow2;
    PowSum(4, 4);
    PowSum(8, 8);
    PowSum(16, 16);
  }

  lemma ConstantBitIs(round: nat, z: nat)
    ensures var t := 7 * round;
            ConstantBit(round, z)
            == ((z == 0 && RoundBit(t)) || (z == 1 && RoundBit(t + 1)) || (z == 3 && RoundBit(t + 2))
                || (z == 7 && RoundBit(t + 3)) || (z == 15 && RoundBit(t + 4)) || (z == 31 && RoundBit(t + 5))
                || (z == 63 && RoundBit(t + 6)))
  {
    hide RoundBit, Pow2;
    SmallPowers();
    var t := 7 * round;
    forall j: nat | j <= 6 && z == Pow2(j) - 1 && RoundBit(j + t) ensures ConstantBit(round, z) {
    }
    if z == 0 && RoundBit(t) { assert z == Pow2(0) - 1 && RoundBit(0 + t); }
    if z == 1 && RoundBit(t + 1) { assert z == Pow2(1) - 1 && RoundBit(1 + t); }
    if z == 3 && RoundBit(t + 2) { assert z == Pow2(2) - 1 && RoundBit(2 + t); }
    if z == 7 && RoundBit(t + 3) { assert z == Pow2(3) - 1 && RoundBit(3 + t); }
    if z == 15 && RoundBit(t + 4) { assert z == Pow2(4) - 1 && RoundBit(4 + t); }
    if z == 31 && RoundBit(t + 5) { assert z == Pow2(5) - 1 && RoundBit(5 + t); }
    if z == 63 && RoundBit(t + 6) { assert z == Pow2(6) - 1 && RoundBit(6 + t); }
  }

  lemma ConstantBits(round: nat, z: nat)
    requires round < 24
    ensures Bit(ROUND_CONSTANTS[round], z) == ConstantBit(round, z)
  {
    hide Bit, SevenBits, RoundBit, ConstantBit;
    ConstantsAgree(round);
    var t := 7 * round;
    SevenBitsAre(RoundBit(t), RoundBit(t + 1), RoundBit(t + 2), RoundBit(t + 3), RoundBit(t + 4), RoundBit(t + 5),
                 RoundBit(t + 6), z);
    ConstantBitIs(round, z);
  }

  lemma IotaShows(a: Lanes, c: Cube, round: nat)
    requires Narrow(a) && Shows(a, c) && round < 24
    ensures Narrow(Iota(a, round)) && Shows(Iota(a, round), IotaBits(c, round))
  {
    hide Bit, Xor, ConstantBit;
    XorIsNarrow(a[0], ROUND_CONSTANTS[round]);
    forall x: nat, y: nat, z: nat | x < 5 && y < 5 && z < 64
      ensures IotaBits(c, round)(x, y, z) == Bit(Iota(a, round)[x + 5 * y], z)
    {
      XorBit(a[0], ROUND_CONSTANTS[round], z);
      ConstantBits(round, z);
    }
  }

  // ---------------------------------------------------------------- all rounds

  lemma RoundShows(a: Lanes, c: Cube, round: nat)
    requires Narrow(a) && Shows(a, c) && round < 24
    ensures Narrow(Round(a, round)) && Shows(Round(a, round), RoundBits(c, round))
  {
    hide Narrow, Shows, Theta, RhoPi, Chi, Iota, ThetaBits, RhoBits, PiBits, ChiBits, IotaBits;
    ThetaShows(a, c);
    RhoPiShows(Theta(a), ThetaBits(c));
    ChiShows(RhoPi(Theta(a)), PiBits(RhoBits(ThetaBits(c))));
    IotaShows(Chi(RhoPi(Theta(a))), ChiBits(PiBits(RhoBits(ThetaBits(c)))), round);
  }

  /**
   * However many rounds are run, the lanes stay below 2^64 and hold exactly
   * the bits the standard's rounds give.
   */
  lemma {:induction false} RoundsMeetTheStandard(a: Lanes, c: Cube, n: nat)
    requires Narrow(a) && Shows(a, c) && n <= 24
    ensures Narrow(Rounds(a, n)) && Shows(Rounds(a, n), RoundsBits(c, n))
  {
    hide Narrow, Shows, Round, RoundBits;
    if n > 0 {
      RoundsMeetTheStandard(a, c, n - 1);
      RoundShows(Rounds(a, n - 1), RoundsBits(c, n - 1), n - 1);
    }
  }
}
