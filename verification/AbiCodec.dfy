/** The ABI coder on bytes: heads, tails and relative offsets, and the decoder that chases them. */
module AbiCodec {
  import opened Options
  import opened AbiTypes
  import opened Bits

  /** A number, the bytes behind a hex or text value, a flag, or a list of values. */
  datatype Value = Num(n: int) | Raw(bytes: seq<Byte>) | Flag(on: bool) | List(items: seq<Value>)

  // ---------------------------------------------------------------- words

  function Pow256(k: nat): (p: nat)
    ensures p >= 1
  {
    if k == 0 then 1 else 256 * Pow256(k - 1)
  }

  /** The last `k` bytes of a number, most significant first. */
  function BigEndian(n: nat, k: nat): (r: seq<Byte>)
    ensures |r| == k
  {
    if k == 0 then [] else BigEndian(n / 256, k - 1) + [n % 256]
  }

  function Unsigned(bytes: seq<Byte>): nat {
    if bytes == [] then 0 else 256 * Unsigned(bytes[..|bytes| - 1]) + bytes[|bytes| - 1]
  }

  /** `word`: the low 256 bits of any integer, as 32 bytes. */
  function Word(n: int): (r: seq<Byte>)
    ensures |r| == 32
  {
    BigEndian(n % Pow256(32), 32)
  }

  function Zeros(k: nat): (r: seq<Byte>)
    ensures |r| == k
  {
    seq(k, _ => 0)
  }

  function Slice(buf: seq<Byte>, from: nat, to: nat): seq<Byte>
    requires from <= to
  {
    buf[if from <= |buf| then from else |buf|..if to <= |buf| then to else |buf|]
  }

  // ---------------------------------------------------------------- shapes

  predicate IsDynamic(t: AbiType)
    decreases t, 0
  {
    match t
    case Str => true
    case Bytes => true
    case Array(inner, length) => length.None? || IsDynamic(inner)
    case Tuple(components) => AnyDynamic(components)
    case _ => false
  }

  predicate AnyDynamic(ts: seq<AbiType>)
    decreases ts, 1
  {
    ts != [] && (IsDynamic(ts[0]) || AnyDynamic(ts[1..]))
  }

  /** A missing length counts as 0, as it does in the multiplication the code performs. */
  function StaticSize(t: AbiType): nat
    decreases t, 0
  {
    match t
    case Array(inner, length) => if length.None? then 0 else length.value * StaticSize(inner)
    case Tuple(components) => StaticSizes(components)
    case _ => 32
  }

  function StaticSizes(ts: seq<AbiType>): nat
    decreases ts, 1
  {
    if ts == [] then 0 else StaticSize(ts[0]) + StaticSizes(ts[1..])
  }

  function HeadLength(t: AbiType): nat { if IsDynamic(t) then 32 else StaticSize(t) }

  function HeadSize(ts: seq<AbiType>): nat {
    if ts == [] then 0 else HeadLength(ts[0]) + HeadSize(ts[1..])
  }

  function Copies(t: AbiType, n: nat): seq<AbiType> { seq(n, _ => t) }

  // ---------------------------------------------------------------- encoding

  function Padded(bytes: seq<Byte>): seq<Byte> { bytes + Zeros((32 - |bytes| % 32) % 32) }

  /** `encodeValue`; None is a thrown error. */
  function Encode(t: AbiType, v: Value): Option<seq<Byte>>
    decreases v, 0
  {
    match (t, v)
    case (UInt(bits), Num(n)) => if 0 <= n < Pow2(bits) then Some(Word(n)) else None
    case (SInt(bits), Num(n)) =>
      var lim := if bits == 0 then 0 else Pow2(bits - 1);
      if n < -lim || n >= lim then None else Some(Word(if n < 0 then Pow256(32) + n else n))
    case (Address, Raw(b)) => Some(Zeros(if |b| < 32 then 32 - |b| else 0) + b)
    case (Bool, Flag(on)) => Some(Word(if on then 1 else 0))
    case (BytesN(_), Raw(b)) => Some(b + Zeros(if |b| < 32 then 32 - |b| else 0))
    case (Bytes, Raw(b)) => Some(Word(|b|) + Padded(b))
    case (Str, Raw(b)) => Some(Word(|b|) + Padded(b))
    case (Array(inner, length), List(items)) =>
      if length.Some? && |items| != length.value then None
      else
        var parts := EncodeAll(Copies(inner, |items|), items);
        if parts.None? then None
        else
          var body := Layout(Copies(inner, |items|), parts.value);
          Some(if length.None? then Word(|items|) + body else body)
    case (Tuple(components), List(items)) =>
      if |components| != |items| then None
      else
        var parts := EncodeAll(components, items);
        if parts.None? then None else Some(Layout(components, parts.value))
    case _ => None
  }

  /** Each value encoded on its own, or None if one of them throws. */
  function EncodeAll(ts: seq<AbiType>, vs: seq<Value>): (r: Option<seq<seq<Byte>>>)
    requires |ts| == |vs|
    ensures r.Some? ==> |r.value| == |vs|
    decreases vs, 1
  {
    if vs == [] then Some([])
    else
      var first, rest := Encode(ts[0], vs[0]), EncodeAll(ts[1..], vs[1..]);
      if first.None? || rest.None? then None else Some([first.value] + rest.value)
  }

  /** The heads, when the first tail starts at `offset` from the start of the whole. */
  function Heads(ts: seq<AbiType>, parts: seq<seq<Byte>>, offset: nat): seq<Byte>
    requires |ts| == |parts|
  {
    if ts == [] then []
    else if IsDynamic(ts[0]) then Word(offset) + Heads(ts[1..], parts[1..], offset + |parts[0]|)
    else parts[0] + Heads(ts[1..], parts[1..], offset)
  }

  function Tails(ts: seq<AbiType>, parts: seq<seq<Byte>>): seq<Byte>
    requires |ts| == |parts|
  {
    if ts == [] then []
    else if IsDynamic(ts[0]) then parts[0] + Tails(ts[1..], parts[1..])
    else Tails(ts[1..], parts[1..])
  }

  function Layout(ts: seq<AbiType>, parts: seq<seq<Byte>>): seq<Byte>
    requires |ts| == |parts|
  {
    Heads(ts, parts, HeadSize(ts)) + Tails(ts, parts)
  }

  function Flatten(chunks: seq<seq<Byte>>): seq<Byte> {
    if chunks == [] then [] else Flatten(chunks[..|chunks| - 1]) + chunks[|chunks| - 1]
  }

  lemma FlattenAppend(chunks: seq<seq<Byte>>, chunk: seq<Byte>)
    ensures Flatten(chunks + [chunk]) == Flatten(chunks) + chunk
  {
    assert (chunks + [chunk])[..|chunks|] == chunks;
  }

  /** Heads and tails of what is left to encode, put behind those already pushed. */
  function Behind(heads: seq<Byte>, tails: seq<Byte>, rest: Option<(seq<Byte>, seq<Byte>)>)
    : Option<(seq<Byte>, seq<Byte>)>
  {
    if rest.None? then None else Some((heads + rest.value.0, tails + rest.value.1))
  }

  function EncodeRest(ts: seq<AbiType>, vs: seq<Value>, offset: nat): Option<(seq<Byte>, seq<Byte>)>
    requires |ts| == |vs|
  {
    if ts == [] then Some(([], []))
    else
      var enc := Encode(ts[0], vs[0]);
      if enc.None? then None
      else if IsDynamic(ts[0]) then
        Behind(Word(offset), enc.value, EncodeRest(ts[1..], vs[1..], offset + |enc.value|))
      else Behind(enc.value, [], EncodeRest(ts[1..], vs[1..], offset))
  }

  lemma {:induction false} EncodeRestIsHeadsAndTails(ts: seq<AbiType>, vs: seq<Value>, offset: nat)
    requires |ts| == |vs|
    ensures EncodeRest(ts, vs, offset) == var parts := EncodeAll(ts, vs);
            if parts.None? then None else Some((Heads(ts, parts.value, offset), Tails(ts, parts.value)))
  {
    hide Encode, IsDynamic, Word;
    if ts != [] {
      var enc := Encode(ts[0], vs[0]);
      EncodeRestIsHeadsAndTails(ts[1..], vs[1..],
                                if enc.Some? && IsDynamic(ts[0]) then offset + |enc.value| else offset);
      var rest := EncodeAll(ts[1..], vs[1..]);
      if enc.Some? && rest.Some? {
        var parts := [enc.value] + rest.value;
        assert EncodeAll(ts, vs) == Some(parts) && parts[0] == enc.value && parts[1..] == rest.value;
        assert [] + Tails(ts[1..], rest.value) == Tails(ts[1..], rest.value);
      }
    }
  }

  lemma BehindTwice(h: seq<Byte>, t: seq<Byte>, h': seq<Byte>, t': seq<Byte>, rest: Option<(seq<Byte>, seq<Byte>)>)
    ensures Behind(h, t, Behind(h', t', rest)) == Behind(h + h', t + t', rest)
    ensures Behind([], [], rest) == rest
  {
    if rest.Some? {
      assert h + (h' + rest.value.0) == h + h' + rest.value.0 && t + (t' + rest.value.1) == t + t' + rest.value.1;
      assert [] + rest.value.0 == rest.value.0 && [] + rest.value.1 == rest.value.1;
    }
  }

  /** The loop: heads and tails pushed side by side while the next tail's offset runs ahead. */
  method EncodeTuple(types: seq<AbiType>, values: seq<Value>) returns (r: Option<seq<Byte>>)
    ensures r == if |types| != |values| || EncodeAll(types, values).None? then None
                 else Some(Layout(types, EncodeAll(types, values).value))
  {
    hide Encode, EncodeAll, IsDynamic, HeadSize, Word, Heads, Tails;
    if |types| != |values| { return None; }
    EncodeRestIsHeadsAndTails(types, values, HeadSize(types));
    var heads, tails: seq<seq<Byte>> := [], [];
    var tailOffset: nat := HeadSize(types);
    ghost var whole := EncodeRest(types, values, tailOffset);
    BehindTwice([], [], [], [], whole);
    assert types[0..] == types && values[0..] == values;
    var i := 0;
    while i < |types|
      invariant 0 <= i <= |types|
      invariant whole == Behind(Flatten(heads), Flatten(tails), EncodeRest(types[i..], values[i..], tailOffset))
    {
      assert types[i..][1..] == types[i + 1..] && values[i..][1..] == values[i + 1..];
      var enc := Encode(types[i], values[i]);
      if enc.None? { return None; }
      if IsDynamic(types[i]) {
        FlattenAppend(heads, Word(tailOffset));
        FlattenAppend(tails, enc.value);
        BehindTwice(Flatten(heads), Flatten(tails), Word(tailOffset), enc.value,
                    EncodeRest(types[i + 1..], values[i + 1..], tailOffset + |enc.value|));
        heads, tails := heads + [Word(tailOffset)], tails + [enc.value];
        tailOffset := tailOffset + |enc.value|;
      } else {
        FlattenAppend(heads, enc.value);
        BehindTwice(Flatten(heads), Flatten(tails), enc.value, [],
                    EncodeRest(types[i + 1..], values[i + 1..], tailOffset));
        assert Flatten(tails) + [] == Flatten(tails);
        heads := heads + [enc.value];
      }
      i := i + 1;
    }
    assert Flatten(heads) + [] == Flatten(heads) && Flatten(tails) + [] == Flatten(tails);
    return Some(Flatten(heads) + Flatten(tails));
  }

  // ---------------------------------------------------------------- decoding

  /** How deep a type nests; decoding recurses on it. */
  function Rank(t: AbiType): nat
    decreases t, 0
  {
    match t
    case Array(inner, _) => 1 + Rank(inner)
    case Tuple(components) => 1 + MaxRank(components)
    case _ => 0
  }

  function MaxRank(ts: seq<AbiType>): (r: nat)
    ensures forall t :: t in ts ==> Rank(t) <= r
    decreases ts, 1
  {
    if ts == [] then 0
    else
      var first, rest := Rank(ts[0]), MaxRank(ts[1..]);
      assert ts == [ts[0]] + ts[1..];
      if first > rest then first else rest
  }

  lemma {:induction false} RankOfCopies(t: AbiType, n: nat)
    ensures MaxRank(Copies(t, n)) <= Rank(t)
  {
    if n > 0 {
      assert Copies(t, n)[1..] == Copies(t, n - 1);
      RankOfCopies(t, n - 1);
    }
  }

  /** The number in the 32 bytes at `offset`; past the end there is nothing to read, which throws. */
  function ReadWord(buf: seq<Byte>, offset: nat): Option<nat> {
    var w := Slice(buf, offset, offset + 32);
    if w == [] then None else Some(Unsigned(w))
  }

  function Drop(bytes: seq<Byte>, k: nat): seq<Byte> { if k <= |bytes| then bytes[k..] else [] }

  /** `decodeValue`: the value at `offset` and the bytes it takes up among the heads. */
  function Decode(t: AbiType, buf: seq<Byte>, offset: nat): Option<(Value, nat)>
    decreases Rank(t), 0
  {
    match t
    case UInt(_) =>
      var n := ReadWord(buf, offset);
      if n.None? then None else Some((Num(n.value), 32))
    case SInt(_) =>
      var n := ReadWord(buf, offset);
      if n.None? then None
      else Some((Num(if n.value >= Pow2(255) then n.value - Pow256(32) else n.value), 32))
    case Address => Some((Raw(Drop(Slice(buf, offset, offset + 32), 12)), 32))
    case Bool =>
      var n := ReadWord(buf, offset);
      if n.None? then None else Some((Flag(n.value != 0), 32))
    case BytesN(n) => Some((Raw(Slice(Slice(buf, offset, offset + 32), 0, n)), 32))
    case Bytes => DecodeBytes(buf, offset)
    case Str => DecodeBytes(buf, offset)
    case Array(inner, length) =>
      var count := if length.None? then ReadWord(buf, offset) else length;
      if count.None? then None
      else
        RankOfCopies(inner, count.value);
        var items := DecodeTuple(Copies(inner, count.value), buf, if length.None? then offset + 32 else offset);
        if items.None? then None
        else Some((List(items.value), if length.None? then 32 else StaticSize(t)))
    case Tuple(components) =>
      var items := DecodeTuple(components, buf, offset);
      if items.None? then None else Some((List(items.value), if IsDynamic(t) then 32 else StaticSize(t)))
  }

  function DecodeBytes(buf: seq<Byte>, offset: nat): Option<(Value, nat)> {
    var len := ReadWord(buf, offset);
    if len.None? then None else Some((Raw(Slice(buf, offset + 32, offset + 32 + len.value)), 32))
  }

  function DecodeTuple(ts: seq<AbiType>, buf: seq<Byte>, base: nat): Option<seq<Value>>
    decreases MaxRank(ts), |ts| + 2
  {
    DecodeFrom(ts, buf, base, base)
  }

  /** The components from `cursor` on, offsets counted from `base`. */
  function DecodeFrom(ts: seq<AbiType>, buf: seq<Byte>, base: nat, cursor: nat): Option<seq<Value>>
    decreases MaxRank(ts), |ts| + 1
  {
    if ts == [] then Some([])
    else
      assert ts[0] in ts;
      var first := DecodeOne(ts[0], buf, base, cursor);
      if first.None? then None
      else
        var rest := DecodeFrom(ts[1..], buf, base, cursor + first.value.1);
        if rest.None? then None else Some([first.value.0] + rest.value)
  }

  /** One component: through its offset if it is dynamic, in place if not. */
  function DecodeOne(t: AbiType, buf: seq<Byte>, base: nat, cursor: nat): Option<(Value, nat)>
    decreases Rank(t), 1
  {
    if IsDynamic(t) then
      var rel := ReadWord(buf, cursor);
      if rel.None? then None
      else
        var v := Decode(t, buf, base + rel.value);
        if v.None? then None else Some((v.value.0, 32))
    else Decode(t, buf, cursor)
  }

  function After(out: seq<Value>, rest: Option<seq<Value>>): Option<seq<Value>> {
    if rest.None? then None else Some(out + rest.value)
  }

  lemma AfterNothing(rest: Option<seq<Value>>)
    ensures After([], rest) == rest
  {
    if rest.Some? {
      assert [] + rest.value == rest.value;
    }
  }

  lemma AfterOneMore(out: seq<Value>, v: Value, rest: Option<seq<Value>>)
    ensures After(out, After([v], rest)) == After(out + [v], rest)
  {
    if rest.Some? {
      assert out + ([v] + rest.value) == out + [v] + rest.value;
    }
  }

  /** The loop: a cursor over the heads, pushing one value after another. */
  method DecodeTupleLoop(types: seq<AbiType>, buf: seq<Byte>, base: nat) returns (r: Option<seq<Value>>)
    ensures r == DecodeTuple(types, buf, base)
  {
    var out: seq<Value>, cursor: nat, i := [], base, 0;
    assert types[0..] == types;
    AfterNothing(DecodeFrom(types, buf, base, base));
    while i < |types|
      invariant 0 <= i <= |types|
      invariant DecodeTuple(types, buf, base) == After(out, DecodeFrom(types[i..], buf, base, cursor))
    {
      assert types[i..][1..] == types[i + 1..];
      var one := DecodeOne(types[i], buf, base, cursor);
      if one.None? { return None; }
      AfterOneMore(out, one.value.0, DecodeFrom(types[i + 1..], buf, base, cursor + one.value.1));
      out, cursor := out + [one.value.0], cursor + one.value.1;
      i := i + 1;
    }
    assert out + [] == out;
    return Some(out);
  }
}
