/**
 * The hash: padding, absorbing and squeezing as the program does them on
 * bytes, against the sponge of FIPS 202 (sections 4 and 5.1) on bit strings.
 */
module Sponge {
  import opened Bits
  import opened Keccak
  import opened KeccakStandard

  const RATE: nat := 136

  // ---------------------------------------------------------------- the standard, on bits

  /** A byte string as bits, lowest bit of each byte first. */
  function BitsOf(bytes: seq<Byte>): (r: seq<bool>)
    ensures |r| == 8 * |bytes|
  {
    seq(8 * |bytes|, j requires 0 <= j < 8 * |bytes| => Bit(bytes[j / 8], j % 8))
  }

  /** pad10*1: a one, the fewest zeros that fill the block, and a one. */
  function Pad101(x: nat, m: int): seq<bool>
    requires x > 0
  {
    [true] + seq((-m - 2) % x, _ => false) + [true]
  }

  /** The state xor'ed with a block and zeros; A[x, y, z] is bit 64 (5y + x) + z of the state. */
  function XorBits(c: Cube, block: seq<bool>): Cube {
    (x: nat, y: nat, z: nat) =>
      c(x, y, z) != (64 * (5 * y + x) + z < |block| && block[64 * (5 * y + x) + z])
  }

  function AbsorbedBits(p: seq<bool>): Cube
    requires |p| % 1088 == 0
  {
    if p == [] then (x: nat, y: nat, z: nat) => false
    else RoundsBits(XorBits(AbsorbedBits(p[..|p| - 1088]), p[|p| - 1088..]), 24)
  }

  lemma PadFills(m: int)
    ensures |Pad101(1088, m)| == (-m - 2) % 1088 + 2 && (m + |Pad101(1088, m)|) % 1088 == 0
  {
    var q := (-m - 2) / 1088;
    assert m + |Pad101(1088, m)| == 1088 * (-q);
  }

  function PaddedBits(n: seq<bool>): (r: seq<bool>)
    ensures |r| % 1088 == 0
  {
    PadFills(|n|);
    n + Pad101(1088, |n|)
  }

  /** Bit k of the state as a string. */
  predicate StateBit(c: Cube, k: nat) { c(k / 64 % 5, k / 64 / 5, k % 64) }

  function FirstBits(c: Cube): seq<bool> { seq(256, k requires 0 <= k < 256 => StateBit(c, k)) }

  /** The first 256 bits of the state after absorbing the padded message: Keccak-256 without a domain suffix. */
  function HashBits(n: seq<bool>): seq<bool> {
    FirstBits(AbsorbedBits(PaddedBits(n)))
  }

  // ---------------------------------------------------------------- padding

  function PadLength(n: nat): nat { RATE - n % RATE }

  function Padded(message: seq<Byte>): seq<Byte> {
    var zeros := seq(PadLength(|message|), _ => 0);
    var one := (message + zeros)[|message| := 1];
    one[|one| - 1 := OrTop(one[|one| - 1])]
  }

  function OrTop(b: Byte): (r: Byte)
    ensures forall i: nat :: i < 8 ==> Bit(r, i) == (i == 7 || Bit(b, i))
  {
    OrTopBits(b);
    Or(b, 0x80)
  }

  lemma OrTopBits(b: Byte)
    ensures Or(b, 0x80) < 256
    ensures forall i: nat :: i < 8 ==> Bit(Or(b, 0x80), i) == (i == 7 || Bit(b, i))
  {
    hide Bit, Or;
    SmallPowers();
    forall z: nat ensures Bit(Or(b, 0x80), z) == (z == 7 || Bit(b, z)) {
      OrBit(b, 0x80, z);
      TopBit(z);
    }
    forall z: nat | z >= 8 ensures !Bit(Or(b, 0x80), z) {
      HighBit(b, 8, z);
    }
    BelowIfNoHighBit(Or(b, 0x80), 8);
  }

  lemma TopBit(z: nat)
    ensures Bit(0x80, z) == (z == 7)
  {
    hide Bit, Shl;
    SmallPowers();
    assert Shl(1, 7) == 0x80 by {
      ShlIsTimes(1, 7);
      PowSum(4, 3);
    }
    ShlBit(1, 7, z);
    if z >= 7 {
      OneBit(z - 7);
    }
  }

  lemma OneBit(z: nat)
    ensures Bit(1, z) == (z == 0)
  {
    if z > 0 {
      ZeroBit(z - 1);
    }
  }

  /** What padding writes: the message, 0x01 and 0x80, in one byte when only one is left, and zeros between. */
  lemma PaddedBytes(message: seq<Byte>)
    ensures var p := Padded(message);
            && |p| == |message| + PadLength(|message|) && |p| % RATE == 0 && |p| > |message|
            && p[..|message|] == message
            && forall j: nat, i: nat :: |message| <= j < |p| && i < 8 ==>
                 Bit(p[j], i) == ((j == |message| && i == 0) || (j == |p| - 1 && i == 7))
  {
    hide Bit, OrTop;
    var n, p := |message|, Padded(message);
    assert n + PadLength(n) == RATE * (n / RATE + 1);
    forall j: nat, i: nat | n <= j < |p| && i < 8
      ensures Bit(p[j], i) == ((j == n && i == 0) || (j == |p| - 1 && i == 7))
    {
      OneBit(i);
      ZeroBit(i);
    }
  }

  /** Padding always adds 1 to 136 bytes, fills whole blocks, and no two messages share a padded form. */
  lemma PaddingIsInjective(a: seq<Byte>, b: seq<Byte>)
    ensures |Padded(a)| % RATE == 0 && |a| < |Padded(a)| <= |a| + RATE
    ensures Padded(a) == Padded(b) ==> a == b
  {
    hide Padded, Bit;
    PaddedBytes(a);
    PaddedBytes(b);
    if Padded(a) == Padded(b) {
      assert Bit(Padded(a)[|a|], 0) && Bit(Padded(b)[|b|], 0);
      assert |a| == |b|;
    }
  }

  lemma BitsOfAt(bytes: seq<Byte>, j: nat)
    requires j < 8 * |bytes|
    ensures BitsOf(bytes)[j] == Bit(bytes[j / 8], j % 8)
  {
    hide Bit;
  }

  /** The bytes the program pads with are pad10*1 on the message's bits. */
  lemma PaddingMeetsTheStandard(message: seq<Byte>)
    ensures BitsOf(Padded(message)) == PaddedBits(BitsOf(message))
  {
    hide Padded, Bit, BitsOf;
    var n, p := |message|, Padded(message);
    PaddedBytes(message);
    PadLengths(n);
    var both := BitsOf(message) + Pad101(1088, 8 * n);
    forall j: nat | j < 8 * |p| ensures BitsOf(p)[j] == both[j] {
      BitsOfAt(p, j);
      if j < 8 * n {
        BitsOfAt(message, j);
        assert p[j / 8] == p[..n][j / 8];
      } else {
        assert j == 8 * (j / 8) + j % 8;
      }
    }
  }

  lemma PadLengths(n: nat)
    ensures |Pad101(1088, 8 * n)| == 8 * PadLength(n)
  {
    var r, q := n % RATE, n / RATE;
    assert -(8 * n) - 2 == 1088 * (-q - 1) + (8 * PadLength(n) - 2);
    Remainder(-(8 * n) - 2, -q - 1, 8 * PadLength(n) - 2);
  }

  lemma Remainder(v: int, q: int, r: int)
    requires v == 1088 * q + r && 0 <= r < 1088
    ensures v % 1088 == r
  {
  }

  // ---------------------------------------------------------------- reading and writing lanes

  /** Little-endian. */
  function Load(bytes: seq<Byte>): nat { if bytes == [] then 0 else bytes[0] + 256 * Load(bytes[1..]) }

  function Store(v: nat, n: nat): (r: seq<Byte>)
    ensures |r| == n
    decreases n
  {
    if n == 0 then [] else [v % 256] + Store(v / 256, n - 1)
  }

  lemma ByteThenRest(low: Byte, high: nat, z: nat)
    ensures Bit(low + 256 * high, z) == if z < 8 then Bit(low, z) else Bit(high, z - 8)
  {
    hide *;
    SmallPowers();
    ShlIsTimes(high, 8);
    SplitBit(low, high, 8, z);
  }

  lemma {:induction false} LoadBit(bytes: seq<Byte>, z: nat)
    ensures Bit(Load(bytes), z) == (z < 8 * |bytes| && Bit(bytes[z / 8], z % 8))
  {
    hide Bit;
    if bytes == [] {
      ZeroBit(z);
    } else {
      ByteThenRest(bytes[0], Load(bytes[1..]), z);
      if z >= 8 {
        LoadBit(bytes[1..], z - 8);
        assert (z - 8) / 8 == z / 8 - 1 && (z - 8) % 8 == z % 8;
      }
    }
  }

  lemma {:induction false} StoreBit(v: nat, n: nat, k: nat, i: nat)
    requires k < n && i < 8
    ensures Bit(Store(v, n)[k], i) == Bit(v, 8 * k + i)
  {
    hide Bit;
    ByteThenRest(v % 256, v / 256, 8 * k + i);
    if k > 0 {
      StoreBit(v / 256, n - 1, k - 1, i);
    }
  }

  // ---------------------------------------------------------------- absorbing

  function LaneOf(block: seq<Byte>, i: nat): nat
    requires |block| == RATE && i < 17
  {
    Load(block[8 * i..8 * i + 8])
  }

  function XorBlock(a: Lanes, block: seq<Byte>): Lanes
    requires |block| == RATE
  {
    seq(25, i requires 0 <= i < 25 => if i < 17 then Xor(a[i], LaneOf(block, i)) else a[i])
  }

  function Absorbed(p: seq<Byte>): Lanes
    requires |p| % RATE == 0
  {
    if p == [] then seq(25, _ => 0) else Rounds(XorBlock(Absorbed(p[..|p| - RATE]), p[|p| - RATE..]), 24)
  }

  lemma LaneOfBit(block: seq<Byte>, i: nat, z: nat)
    requires |block| == RATE && i < 17
    ensures LaneOf(block, i) <= MASK
    ensures z < 64 ==> Bit(LaneOf(block, i), z) == BitsOf(block)[64 * i + z]
  {
    hide Bit, BitsOf, Load;
    var bytes := block[8 * i..8 * i + 8];
    forall w: nat | w >= 64 ensures !Bit(Load(bytes), w) {
      LoadBit(bytes, w);
    }
    NarrowIfNoBit(Load(bytes));
    if z < 64 {
      LoadBit(bytes, z);
      BitsOfAt(block, 64 * i + z);
      assert (64 * i + z) / 8 == 8 * i + z / 8 && (64 * i + z) % 8 == z % 8;
    }
  }

  lemma XorBlockShows(a: Lanes, c: Cube, block: seq<Byte>)
    requires |block| == RATE && Narrow(a) && Shows(a, c)
    ensures Narrow(XorBlock(a, block)) && Shows(XorBlock(a, block), XorBits(c, BitsOf(block)))
  {
    hide Bit, Xor, LaneOf, BitsOf;
    forall i: nat | i < 17 ensures Xor(a[i], LaneOf(block, i)) <= MASK {
      LaneOfBit(block, i, 0);
      XorIsNarrow(a[i], LaneOf(block, i));
    }
    forall x: nat, y: nat, z: nat | x < 5 && y < 5 && z < 64
      ensures XorBits(c, BitsOf(block))(x, y, z) == Bit(XorBlock(a, block)[x + 5 * y], z)
    {
      if x + 5 * y < 17 {
        LaneOfBit(block, x + 5 * y, z);
        XorBit(a[x + 5 * y], LaneOf(block, x + 5 * y), z);
      }
    }
  }

  lemma {:induction false} WholeBlocks(p: seq<Byte>)
    requires |p| % RATE == 0
    ensures |BitsOf(p)| % 1088 == 0
  {
    hide Bit, BitsOf;
    Remainder(8 * |p|, |p| / RATE, 0);
  }

  lemma {:induction false} AbsorbedStep(p: seq<Byte>)
    requires |p| % RATE == 0 && p != []
    ensures |BitsOf(p)| % 1088 == 0 && |BitsOf(p[..|p| - RATE])| % 1088 == 0
    ensures var n := |p| - RATE;
            && Absorbed(p) == Rounds(XorBlock(Absorbed(p[..n]), p[n..]), 24)
            && AbsorbedBits(BitsOf(p))
               == RoundsBits(XorBits(AbsorbedBits(BitsOf(p[..n])), BitsOf(p[n..])), 24)
  {
    hide XorBlock, XorBits, Rounds, RoundsBits, BitsOf, Bit;
    WholeBlocks(p);
    WholeBlocks(p[..|p| - RATE]);
    SplitsBits(p, |p| - RATE);
  }

  lemma {:induction false} AbsorbedShows(p: seq<Byte>)
    requires |p| % RATE == 0
    ensures |BitsOf(p)| % 1088 == 0
    ensures Narrow(Absorbed(p)) && Shows(Absorbed(p), AbsorbedBits(BitsOf(p)))
    decreases |p|, 1
  {
    WholeBlocks(p);
    if p == [] {
      EmptyShows();
    } else {
      AbsorbedBlockShows(p);
    }
  }

  lemma {:induction false} AbsorbedBlockShows(p: seq<Byte>)
    requires |p| % RATE == 0 && p != []
    ensures |BitsOf(p)| % 1088 == 0
    ensures Narrow(Absorbed(p)) && Shows(Absorbed(p), AbsorbedBits(BitsOf(p)))
    decreases |p|, 0
  {
    hide Absorbed, AbsorbedBits, XorBlock, XorBits, Rounds, RoundsBits, BitsOf, Shows, Narrow, Bit;
    var n := |p| - RATE;
    AbsorbedStep(p);
    AbsorbedShows(p[..n]);
    XorBlockShows(Absorbed(p[..n]), AbsorbedBits(BitsOf(p[..n])), p[n..]);
    RoundsMeetTheStandard(XorBlock(Absorbed(p[..n]), p[n..]),
                          XorBits(AbsorbedBits(BitsOf(p[..n])), BitsOf(p[n..])), 24);
  }

  lemma EmptyShows()
    ensures BitsOf([]) == []
    ensures Narrow(seq(25, _ => 0)) && Shows(seq(25, _ => 0), AbsorbedBits([]))
  {
    hide Bit;
    forall z: nat ensures !Bit(0, z) {
      ZeroBit(z);
    }
  }

  lemma SplitsBits(p: seq<Byte>, n: nat)
    requires n <= |p|
    ensures BitsOf(p)[..8 * n] == BitsOf(p[..n]) && BitsOf(p)[8 * n..] == BitsOf(p[n..])
  {
    hide Bit;
  }

  // ---------------------------------------------------------------- the hash

  function Squeezed(a: Lanes): seq<Byte> { Store(a[0], 8) + Store(a[1], 8) + Store(a[2], 8) + Store(a[3], 8) }

  method Pad(message: seq<Byte>) returns (padded: array<Byte>)
    ensures fresh(padded) && padded[..] == Padded(message)
  {
    hide OrTop;
    var n, padLength := |message|, RATE - |message| % RATE;
    padded := new Byte[n + padLength](i => 0);
    for i := 0 to n
      invariant forall j :: 0 <= j < n + padLength ==> padded[j] == if j < i then message[j] else 0
    {
      padded[i] := message[i];
    }
    assert padded[..] == message + seq(padLength, _ => 0);
    padded[n] := 0x01;
    padded[padded.Length - 1] := OrTop(padded[padded.Length - 1]);
  }

  method AbsorbBlock(lanes: array<nat>, block: seq<Byte>)
    requires lanes.Length == 25 && |block| == RATE
    modifies lanes
    ensures lanes[..] == XorBlock(old(lanes[..]), block)
  {
    hide LaneOf, Load, Xor;
    ghost var a := lanes[..];
    for i := 0 to RATE / 8
      invariant forall j :: 0 <= j < 25 ==> lanes[j] == if j < i then Xor(a[j], LaneOf(block, j)) else a[j]
    {
      LaneIs(block, i);
      lanes[i] := Xor(lanes[i], Load(block[8 * i..8 * i + 8]));
    }
  }

  lemma LaneIs(block: seq<Byte>, i: nat)
    requires |block| == RATE && i < 17
    ensures LaneOf(block, i) == Load(block[8 * i..8 * i + 8])
  {
  }

  /** For every message, 32 bytes that are the standard's hash of the message's bits. */
  method Keccak256(message: seq<Byte>) returns (out: seq<Byte>)
    ensures |out| == 32
    ensures BitsOf(out) == HashBits(BitsOf(message))
  {
    hide Padded, Absorbed, XorBlock, Rounds, BitsOf, HashBits, Squeezed, Store, Bit;
    PaddedFills(message);
    var padded := Pad(message);
    var lanes := new nat[25](i => 0);
    var offset := 0;
    NothingAbsorbed();
    assert lanes[..] == seq(25, _ => 0);
    while offset < padded.Length
      invariant padded[..] == Padded(message) && lanes.Length == 25
      invariant offset <= padded.Length && offset % RATE == 0 && padded.Length % RATE == 0
      invariant lanes[..] == Absorbed(padded[..offset])
      decreases padded.Length - offset
    {
      BlocksLeft(offset, padded.Length);
      OneMoreBlock(padded[..], offset);
      AbsorbBlock(lanes, padded[offset..offset + RATE]);
      Permute(lanes);
      offset := offset + RATE;
    }
    assert padded[..offset] == Padded(message);
    HashIsSqueezed(message);
    SqueezedIs(lanes[..]);
    out := Store(lanes[0], 8) + Store(lanes[1], 8) + Store(lanes[2], 8) + Store(lanes[3], 8);
  }

  lemma PaddedFills(message: seq<Byte>)
    ensures |Padded(message)| % RATE == 0
  {
    PaddedBytes(message);
  }

  lemma NothingAbsorbed()
    ensures Absorbed([]) == seq(25, _ => 0)
  {
  }

  lemma BlocksLeft(offset: nat, length: nat)
    requires offset < length && offset % RATE == 0 && length % RATE == 0
    ensures offset + RATE <= length && (offset + RATE) % RATE == 0
  {
  }

  lemma OneMoreBlock(p: seq<Byte>, offset: nat)
    requires offset + RATE <= |p| && offset % RATE == 0
    ensures (offset + RATE) % RATE == 0
    ensures Absorbed(p[..offset + RATE]) == Rounds(XorBlock(Absorbed(p[..offset]), p[offset..offset + RATE]), 24)
  {
    hide XorBlock, Rounds;
    var q := p[..offset + RATE];
    assert q[..|q| - RATE] == p[..offset] && q[|q| - RATE..] == p[offset..offset + RATE];
  }

  lemma SqueezedIs(a: Lanes)
    ensures Squeezed(a) == Store(a[0], 8) + Store(a[1], 8) + Store(a[2], 8) + Store(a[3], 8)
    ensures |Squeezed(a)| == 32
  {
  }

  lemma SqueezedBit(a: Lanes, k: nat)
    requires k < 256
    ensures BitsOf(Squeezed(a))[k] == Bit(a[k / 64], k % 64)
  {
    hide Bit, BitsOf, Store;
    SqueezedIs(a);
    BitsOfAt(Squeezed(a), k);
    var l := k / 64;
    assert k / 8 == 8 * l + (k % 64) / 8 && k % 8 == (k % 64) % 8;
    assert Squeezed(a)[k / 8] == Store(a[l], 8)[(k % 64) / 8];
    StoreBit(a[l], 8, (k % 64) / 8, k % 8);
  }

  lemma HashIsSqueezed(message: seq<Byte>)
    ensures |Padded(message)| % RATE == 0
    ensures BitsOf(Squeezed(Absorbed(Padded(message)))) == HashBits(BitsOf(message))
  {
    hide Padded, BitsOf, AbsorbedBits, Absorbed, Squeezed, Bit, Shows, Narrow, PaddedBits, HashBits;
    PaddedFills(message);
    PaddingMeetsTheStandard(message);
    AbsorbedShows(Padded(message));
    var a := Absorbed(Padded(message));
    SqueezedIs(a);
    HashIsLong(BitsOf(message));
    forall k: nat | k < 256 ensures BitsOf(Squeezed(a))[k] == HashBits(BitsOf(message))[k] {
      SqueezedBit(a, k);
      ShownAt(a, AbsorbedBits(BitsOf(Padded(message))), k);
      HashBit(BitsOf(message), k);
    }
  }

  lemma ShownAt(a: Lanes, c: Cube, k: nat)
    requires Shows(a, c) && k < 256
    ensures StateBit(c, k) == Bit(a[k / 64], k % 64)
  {
    hide Bit;
    assert k / 64 % 5 + 5 * (k / 64 / 5) == k / 64;
  }

  lemma HashIsLong(n: seq<bool>)
    ensures |HashBits(n)| == 256
  {
    hide AbsorbedBits, PaddedBits, StateBit;
  }

  lemma HashBit(n: seq<bool>, k: nat)
    requires k < 256
    ensures HashBits(n)[k] == StateBit(AbsorbedBits(PaddedBits(n)), k)
  {
    hide AbsorbedBits, PaddedBits, StateBit;
  }
}
