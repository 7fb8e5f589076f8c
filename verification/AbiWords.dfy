/** The coder byte by byte: which bytes a value becomes, what is accepted at all, and what any bytes are read as. */
module AbiWords {
  import opened Options
  import opened AbiTypes
  import opened AbiCodec
  import opened AbiProofs
  import opened Bits
  import opened Remainders

  // ---------------------------------------------------------------- which types are dynamic

  /** `u` is `t` or stands somewhere inside it. */
  ghost predicate Within(u: AbiType, t: AbiType)
    decreases t
  {
    u == t ||
    match t
    case Array(inner, _) => Within(u, inner)
    case Tuple(components) => exists i :: 0 <= i < |components| && Within(u, components[i])
    case _ => false
  }

  /** The three kinds whose length the type does not fix. */
  predicate IsUnsized(t: AbiType) { t.Bytes? || t.Str? || (t.Array? && t.length.None?) }

  /** A type is dynamic if and only if bytes, string or an array without a length stands somewhere in it. */
  lemma {:induction false} DynamicIffUnsizedWithin(t: AbiType)
    ensures IsDynamic(t) <==> exists u :: Within(u, t) && IsUnsized(u)
    decreases t, 0
  {
    match t
    case Array(inner, _) =>
      DynamicIffUnsizedWithin(inner);
      assert Within(t, t);
      if u :| Within(u, inner) && IsUnsized(u) {
        assert Within(u, t);
      }
    case Tuple(components) =>
      AnyDynamicIff(components);
      forall i | 0 <= i < |components|
        ensures IsDynamic(components[i]) <==> exists u :: Within(u, components[i]) && IsUnsized(u)
      {
        DynamicIffUnsizedWithin(components[i]);
      }
      if i :| 0 <= i < |components| && IsDynamic(components[i]) {
        var u :| Within(u, components[i]) && IsUnsized(u);
        assert Within(u, t);
      }
    case _ =>
      assert Within(t, t);
  }

  lemma {:induction false} AnyDynamicIff(ts: seq<AbiType>)
    ensures AnyDynamic(ts) <==> exists i :: 0 <= i < |ts| && IsDynamic(ts[i])
  {
    hide IsDynamic;
    if ts != [] {
      AnyDynamicIff(ts[1..]);
      assert forall i :: 0 < i < |ts| ==> ts[i] == ts[1..][i - 1];
      if AnyDynamic(ts[1..]) {
        var i :| 0 <= i < |ts[1..]| && IsDynamic(ts[1..][i]);
        assert IsDynamic(ts[i + 1]);
      }
    }
  }

  // ---------------------------------------------------------------- the bytes of a word

  /** Byte `j` of `k` bytes counts 256^(k-1-j): the most significant stands first. */
  lemma {:induction false} BigEndianByte(n: nat, k: nat, j: nat)
    requires j < k
    ensures BigEndian(n, k)[j] == (n / Pow256(k - 1 - j)) % 256
  {
    if j < k - 1 {
      BigEndianByte(n / 256, k - 1, j);
      DivTwice(n, Pow256(k - 2 - j));
    }
  }

  lemma DivTwice(n: nat, p: nat)
    requires p >= 1
    ensures n / 256 / p == n / (256 * p)
  {
    var q, r := n / 256 / p, n / 256 % p;
    DivMod(n / 256, p);
    DivMod(n, 256);
    DivMod(n, 256 * p);
    Regroup(n, p, q, r);
    QuotientIsUnique(256 * p, q, 256 * r + n % 256, n / (256 * p), n % (256 * p));
  }

  lemma Regroup(n: nat, p: nat, q: nat, r: nat)
    requires n / 256 == p * q + r
    ensures n == 256 * p * q + (256 * r + n % 256)
  {
    assert 256 * (p * q + r) == 256 * p * q + 256 * r;
  }

  lemma WordsAreBits()
    ensures Pow256(32) == Pow2(256)
  {
    hide Pow256, Pow2;
    Pow2OfBytes(32);
  }

  /** A word is the number, most significant byte first; below 0 it is the two's complement in 256 bits. */
  lemma WordBytes(n: int, j: nat)
    requires j < 32
    ensures 0 <= n < Pow2(256) ==> Word(n)[j] == (n / Pow256(31 - j)) % 256
    ensures n < 0 && -n <= Pow2(256) ==> Word(n) == Word(n + Pow2(256))
  {
    hide Pow256, Pow2, BigEndian;
    WordsAreBits();
    if 0 <= n < Pow2(256) {
      SmallMod(n, Pow256(32));
      BigEndianByte(n, 32, j);
    }
    if n < 0 && -n <= Pow2(256) {
      WrapsAround(n, Pow256(32));
    }
  }

  lemma WrapsAround(n: int, m: nat)
    requires m >= 1 && n < 0 && -n <= m
    ensures n % m == (n + m) % m
  {
  }

  // ---------------------------------------------------------------- what a value becomes

  lemma PaddedIsLeast(b: seq<Byte>)
    ensures var r := Padded(b);
            && |r| % 32 == 0 && |b| <= |r| < |b| + 32 && r[..|b|] == b
            && forall j :: |b| <= j < |r| ==> r[j] == 0
  {
  }

  /** One word each: numbers and flags as their word, an address behind 12 zero bytes, bytesN in front of zeros. */
  lemma ElementaryBytes(t: AbiType, v: Value)
    requires WellFormed(t, v)
    ensures t.UInt? ==> Encode(t, v) == Some(Word(v.n))
    ensures t.SInt? ==> Encode(t, v) == Some(Word(v.n))
    ensures t.Bool? ==> Encode(t, v) == Some(Word(if v.on then 1 else 0))
    ensures t.Address? ==>
              var r := Encode(t, v);
              r.Some? && |r.value| == 32 && (forall j :: 0 <= j < 12 ==> r.value[j] == 0) && r.value[12..] == v.bytes
    ensures t.BytesN? ==>
              var r := Encode(t, v);
              r.Some? && |r.value| == 32 && r.value[..t.n] == v.bytes && forall j :: t.n <= j < 32 ==> r.value[j] == 0
  {
    hide Word, Pow256, Pow2;
    if t.SInt? {
      NegativeWord(t.bits, v.n);
    }
  }

  /** Bytes and strings: the length word, the bytes, and zeros up to the next whole word. */
  lemma TextBytes(b: seq<Byte>)
    ensures Encode(Bytes, Raw(b)) == Encode(Str, Raw(b)) && Encode(Bytes, Raw(b)).Some?
    ensures var r, n := Encode(Bytes, Raw(b)).value, |b|;
            && |r| % 32 == 0 && 32 + n <= |r| < 32 + n + 32
            && r[..32] == Word(n) && r[32..32 + n] == b && forall j :: 32 + n <= j < |r| ==> r[j] == 0
  {
    hide Word, Padded;
    PaddedIsLeast(b);
    var r := Encode(Bytes, Raw(b)).value;
    assert r == Word(|b|) + Padded(b);
    assert r[32..32 + |b|] == Padded(b)[..|b|];
    assert forall j :: 32 <= j < |r| ==> r[j] == Padded(b)[j - 32];
  }

  lemma NegativeWord(bits: nat, n: int)
    requires 1 <= bits <= 256 && -n <= Pow2(bits - 1)
    ensures n < 0 ==> Word(Pow256(32) + n) == Word(n)
  {
    SignedFits(bits, n);
    hide Pow2, Pow256, BigEndian;
    if n < 0 {
      WrapsAround(n, Pow256(32));
    }
  }

  /** Lists: a fixed array is its elements laid out as a tuple, and one without a length is that behind its count. */
  lemma ListBytes(inner: AbiType, items: seq<Value>)
    ensures Encode(Array(inner, Some(|items|)), List(items)) == Encode(Tuple(Copies(inner, |items|)), List(items))
    ensures var fixed := Encode(Array(inner, Some(|items|)), List(items));
            Encode(Array(inner, None), List(items))
            == if fixed.None? then None else Some(Word(|items|) + fixed.value)
    ensures forall n: nat :: n != |items| ==> Encode(Array(inner, Some(n)), List(items)).None?
  {
    hide Word, Layout;
  }

  /** A tuple of values is the head/tail layout of their own encodings. */
  lemma TupleBytes(ts: seq<AbiType>, vs: seq<Value>)
    ensures Encode(Tuple(ts), List(vs)).Some? <==>
              |ts| == |vs| && forall i :: 0 <= i < |ts| ==> Encode(ts[i], vs[i]).Some?
    ensures Encode(Tuple(ts), List(vs)).Some? ==>
              exists parts: seq<seq<Byte>> :: |parts| == |ts|
                && (forall i :: 0 <= i < |ts| ==> Encode(ts[i], vs[i]) == Some(parts[i]))
                && Encode(Tuple(ts), List(vs)) == Some(Layout(ts, parts))
  {
    if |ts| == |vs| {
      AllPartsEncode(ts, vs);
      if EncodeAll(ts, vs).Some? {
        forall i | 0 <= i < |ts| ensures Encode(ts[i], vs[i]) == Some(EncodeAll(ts, vs).value[i]) {
          PartsOfValues(ts, vs, i);
        }
      }
    }
  }

  lemma {:induction false} AllPartsEncode(ts: seq<AbiType>, vs: seq<Value>)
    requires |ts| == |vs|
    ensures EncodeAll(ts, vs).Some? <==> forall i :: 0 <= i < |ts| ==> Encode(ts[i], vs[i]).Some?
  {
    hide Encode;
    if ts != [] {
      AllPartsEncode(ts[1..], vs[1..]);
      assert forall i :: 0 < i < |ts| ==> ts[i] == ts[1..][i - 1] && vs[i] == vs[1..][i - 1];
      if forall i :: 0 <= i < |ts| ==> Encode(ts[i], vs[i]).Some? {
        forall i | 0 <= i < |ts| - 1 ensures Encode(ts[1..][i], vs[1..][i]).Some? {
          assert Encode(ts[i + 1], vs[i + 1]).Some?;
        }
      }
    }
  }

  ghost function Concat(parts: seq<seq<Byte>>): seq<Byte> {
    if parts == [] then [] else parts[0] + Concat(parts[1..])
  }

  /** Static components stand one after another, with no offset and no tail. */
  lemma {:induction false} StaticPartsStandInLine(ts: seq<AbiType>, parts: seq<seq<Byte>>, offset: nat)
    requires |ts| == |parts| && forall i :: 0 <= i < |ts| ==> !IsDynamic(ts[i])
    ensures Heads(ts, parts, offset) == Concat(parts) && Tails(ts, parts) == [] && Layout(ts, parts) == Concat(parts)
  {
    hide IsDynamic, HeadSize;
    if ts != [] {
      assert forall i :: 0 <= i < |ts| - 1 ==> ts[1..][i] == ts[i + 1];
      StaticPartsStandInLine(ts[1..], parts[1..], offset);
      StaticPartsStandInLine(ts[1..], parts[1..], HeadSize(ts));
      assert Concat(parts) + [] == Concat(parts);
    }
  }

  predicate IsOneWord(t: AbiType) { t.UInt? || t.SInt? || t.Address? || t.Bool? || t.BytesN? }

  /** So a list of one-word types is its words, one after another. */
  lemma OneWordTypesStandInLine(ts: seq<AbiType>, vs: seq<Value>)
    requires |ts| == |vs| && forall i :: 0 <= i < |ts| ==> IsOneWord(ts[i]) && Encode(ts[i], vs[i]).Some?
    ensures exists parts: seq<seq<Byte>> :: |parts| == |ts|
              && (forall i :: 0 <= i < |ts| ==> Encode(ts[i], vs[i]) == Some(parts[i]))
              && Encode(Tuple(ts), List(vs)) == Some(Concat(parts))
  {
    hide Encode, Layout, Concat;
    TupleBytes(ts, vs);
    var parts: seq<seq<Byte>> :| |parts| == |ts|
                && (forall i :: 0 <= i < |ts| ==> Encode(ts[i], vs[i]) == Some(parts[i]))
                && Encode(Tuple(ts), List(vs)) == Some(Layout(ts, parts));
    StaticPartsStandInLine(ts, parts, HeadSize(ts));
  }

  // ---------------------------------------------------------------- what is accepted

  /** Of the kind the type asks for, within its range, and as long as the type says; no length of bytes is checked. */
  ghost predicate Accepted(t: AbiType, v: Value)
    decreases v
  {
    match t
    case UInt(bits) => v.Num? && 0 <= v.n < Pow2(bits)
    case SInt(bits) => v.Num? && bits >= 1 && -v.n <= Pow2(bits - 1) && v.n < Pow2(bits - 1)
    case Bool => v.Flag?
    case Address => v.Raw?
    case BytesN(_) => v.Raw?
    case Bytes => v.Raw?
    case Str => v.Raw?
    case Array(inner, length) =>
      v.List? && (length.Some? ==> |v.items| == length.value)
      && forall i :: 0 <= i < |v.items| ==> Accepted(inner, v.items[i])
    case Tuple(components) =>
      v.List? && |v.items| == |components| && forall i :: 0 <= i < |v.items| ==> Accepted(components[i], v.items[i])
  }

  lemma {:induction false} EncodesIffAccepted(t: AbiType, v: Value)
    ensures Encode(t, v).Some? <==> Accepted(t, v)
    decreases v
  {
    hide Word, Layout, Padded, Pow256;
    match (t, v)
    case (Array(inner, length), List(items)) =>
      AllPartsEncode(Copies(inner, |items|), items);
      forall i | 0 <= i < |items| ensures Encode(inner, items[i]).Some? <==> Accepted(inner, items[i]) {
        EncodesIffAccepted(inner, items[i]);
      }
    case (Tuple(components), List(items)) =>
      if |components| == |items| {
        AllPartsEncode(components, items);
        forall i | 0 <= i < |items|
          ensures Encode(components[i], items[i]).Some? <==> Accepted(components[i], items[i])
        {
          EncodesIffAccepted(components[i], items[i]);
        }
      }
    case _ =>
  }

  // ---------------------------------------------------------------- what any bytes are read as

  /** A whole word at the offset: the number, sign, flag, address or bytes it spells, whatever it is. */
  lemma WordsAreReadAs(buf: seq<Byte>, o: nat, n: nat)
    requires o + 32 <= |buf| && buf[o..o + 32] == Word(n) && n < Pow2(256)
    ensures forall bits: nat :: Decode(UInt(bits), buf, o) == Some((Num(n), 32))
    ensures forall bits: nat ::
              Decode(SInt(bits), buf, o) == Some((Num(if n < Pow2(255) then n else n - Pow2(256)), 32))
    ensures Decode(Bool, buf, o) == Some((Flag(n != 0), 32))
    ensures Decode(Address, buf, o) == Some((Raw(Word(n)[12..]), 32))
    ensures forall k: nat :: k <= 32 ==> Decode(BytesN(k), buf, o) == Some((Raw(Word(n)[..k]), 32))
  {
    hide Word, Pow2, Pow256, ReadWord, Unsigned, BigEndian;
    WordsAreBits();
    TopBit();
    ReadsWordAt(buf, o, n);
    assert Slice(buf, o, o + 32) == Word(n);
  }

  /** Past the end a number throws, and bytes come back empty. */
  lemma NothingIsReadAs(buf: seq<Byte>, o: nat)
    requires o >= |buf|
    ensures forall bits: nat :: Decode(UInt(bits), buf, o).None? && Decode(SInt(bits), buf, o).None?
    ensures Decode(Bool, buf, o).None? && Decode(Bytes, buf, o).None? && Decode(Str, buf, o).None?
    ensures Decode(Address, buf, o) == Some((Raw([]), 32))
    ensures forall k: nat :: Decode(BytesN(k), buf, o) == Some((Raw([]), 32))
  {
  }

  /** Between: what is left of a word is read as the number its bytes spell. */
  lemma PartsAreReadAs(buf: seq<Byte>, o: nat, n: nat)
    requires o < |buf| < o + 32 && buf[o..] == BigEndian(n, |buf| - o) && n < Pow256(|buf| - o)
    ensures forall bits: nat :: Decode(UInt(bits), buf, o) == Some((Num(n), 32))
    ensures Decode(Bool, buf, o) == Some((Flag(n != 0), 32))
  {
    hide Pow256, BigEndian;
    UnsignedOfBigEndian(n, |buf| - o);
    assert Slice(buf, o, o + 32) == buf[o..];
  }

  /** Bytes and strings: as many bytes as the length word asks for, or as there are. */
  lemma TextIsReadAs(buf: seq<Byte>, o: nat, n: nat)
    requires o + 32 <= |buf| && buf[o..o + 32] == Word(n) && n < Pow2(256)
    ensures var end := if o + 32 + n <= |buf| then o + 32 + n else |buf|;
            && Decode(Bytes, buf, o) == Some((Raw(buf[o + 32..end]), 32))
            && Decode(Str, buf, o) == Some((Raw(buf[o + 32..end]), 32))
  {
    hide Word, Pow2, Pow256, ReadWord, Unsigned, BigEndian;
    WordsAreBits();
    TopBit();
    ReadsWordAt(buf, o, n);
  }
}
