/** The coder meets the ABI's head/tail layout, and decoding undoes encoding wherever the bytes sit. */
module AbiProofs {
  import opened Options
  import opened AbiTypes
  import opened AbiCodec
  import opened Bits

  /** Lengths and offsets fit one word. */
  ghost function Limit(): nat { Pow256(32) }

  // ---------------------------------------------------------------- words

  lemma {:induction false} UnsignedOfBigEndian(n: nat, k: nat)
    requires n < Pow256(k)
    ensures Unsigned(BigEndian(n, k)) == n
  {
    if k > 0 {
      UnsignedOfBigEndian(n / 256, k - 1);
    }
  }

  lemma ReadsBack(n: nat)
    requires n < Limit()
    ensures Unsigned(Word(n)) == n
  {
    hide Pow256, BigEndian, Unsigned;
    SmallMod(n, Pow256(32));
    UnsignedOfBigEndian(n, 32);
  }

  lemma SmallMod(n: nat, m: nat)
    requires n < m
    ensures n % m == n
  {
  }

  lemma {:induction false} Pow2OfBytes(k: nat)
    ensures Pow2(8 * k) == Pow256(k)
  {
    if k > 0 {
      Pow2OfBytes(k - 1);
      assert Pow2(8 * k) == 2 * Pow2(8 * k - 1) == 4 * Pow2(8 * k - 2) == 8 * Pow2(8 * k - 3) == 16 * Pow2(8 * k - 4);
      assert Pow2(8 * k - 4) == 2 * Pow2(8 * k - 5) == 4 * Pow2(8 * k - 6) == 8 * Pow2(8 * k - 7)
          == 16 * Pow2(8 * k - 8);
    }
  }

  lemma {:induction false} Pow2Grows(a: nat, b: nat)
    requires a <= b
    ensures Pow2(a) <= Pow2(b)
  {
    if a < b {
      Pow2Grows(a, b - 1);
    }
  }

  // ---------------------------------------------------------------- sizes

  /** No address or bytesN value is longer than a word. */
  ghost predicate Sized(t: AbiType, v: Value)
    decreases v, 0
  {
    match (t, v)
    case (Address, Raw(b)) => |b| <= 32
    case (BytesN(_), Raw(b)) => |b| <= 32
    case (Array(inner, _), List(items)) => SizedAll(Copies(inner, |items|), items)
    case (Tuple(components), List(items)) => |components| == |items| && SizedAll(components, items)
    case _ => true
  }

  ghost predicate SizedAll(ts: seq<AbiType>, vs: seq<Value>)
    requires |ts| == |vs|
    decreases vs, 1
  {
    vs == [] || (Sized(ts[0], vs[0]) && SizedAll(ts[1..], vs[1..]))
  }

  lemma {:induction false} CopiesOfStatic(t: AbiType, n: nat)
    requires !IsDynamic(t)
    ensures !AnyDynamic(Copies(t, n)) && StaticSizes(Copies(t, n)) == n * StaticSize(t)
  {
    if n > 0 {
      assert Copies(t, n)[1..] == Copies(t, n - 1);
      CopiesOfStatic(t, n - 1);
      assert n * StaticSize(t) == StaticSize(t) + (n - 1) * StaticSize(t);
    }
  }

  ghost function TotalLength(parts: seq<seq<Byte>>): nat {
    if parts == [] then 0 else |parts[0]| + TotalLength(parts[1..])
  }

  lemma {:induction false} StaticLayout(ts: seq<AbiType>, parts: seq<seq<Byte>>, offset: nat)
    requires |ts| == |parts| && !AnyDynamic(ts)
    ensures |Heads(ts, parts, offset)| == TotalLength(parts) && Tails(ts, parts) == []
  {
    if ts != [] {
      StaticLayout(ts[1..], parts[1..], offset);
    }
  }

  /** A static type's encoding is never short of staticSize, and exactly that long if and only if the value is sized. */
  lemma {:induction false} StaticLengthIff(t: AbiType, v: Value)
    requires !IsDynamic(t) && Encode(t, v).Some?
    ensures |Encode(t, v).value| >= StaticSize(t)
    ensures |Encode(t, v).value| == StaticSize(t) <==> Sized(t, v)
    decreases v, 0
  {
    match (t, v)
    case (Array(inner, length), List(items)) =>
      CopiesOfStatic(inner, |items|);
      StaticLengthsIff(Copies(inner, |items|), items);
      StaticLayout(Copies(inner, |items|), EncodeAll(Copies(inner, |items|), items).value,
                   HeadSize(Copies(inner, |items|)));
    case (Tuple(components), List(items)) =>
      StaticLengthsIff(components, items);
      StaticLayout(components, EncodeAll(components, items).value, HeadSize(components));
    case _ =>
  }

  lemma {:induction false} StaticLengthsIff(ts: seq<AbiType>, vs: seq<Value>)
    requires |ts| == |vs| && !AnyDynamic(ts) && EncodeAll(ts, vs).Some?
    ensures TotalLength(EncodeAll(ts, vs).value) >= StaticSizes(ts)
    ensures TotalLength(EncodeAll(ts, vs).value) == StaticSizes(ts) <==> SizedAll(ts, vs)
    decreases vs, 1
  {
    hide Encode, Sized, IsDynamic, StaticSize;
    if vs != [] {
      StaticLengthIff(ts[0], vs[0]);
      StaticLengthsIff(ts[1..], vs[1..]);
      assert EncodeAll(ts, vs).value[1..] == EncodeAll(ts[1..], vs[1..]).value;
    }
  }

  // ---------------------------------------------------------------- the head/tail layout

  /** Every static component's part is as long as its type says. */
  ghost predicate Shaped(ts: seq<AbiType>, parts: seq<seq<Byte>>)
    requires |ts| == |parts|
  {
    forall i :: 0 <= i < |ts| && !IsDynamic(ts[i]) ==> |parts[i]| == StaticSize(ts[i])
  }

  lemma {:induction false} SizedIsShaped(ts: seq<AbiType>, vs: seq<Value>)
    requires |ts| == |vs| && SizedAll(ts, vs) && EncodeAll(ts, vs).Some?
    ensures Shaped(ts, EncodeAll(ts, vs).value)
  {
    hide Encode, Sized, IsDynamic, StaticSize;
    if vs != [] {
      SizedIsShaped(ts[1..], vs[1..]);
      if !IsDynamic(ts[0]) {
        StaticLengthIff(ts[0], vs[0]);
      }
      var parts := EncodeAll(ts, vs).value;
      assert parts[0] == Encode(ts[0], vs[0]).value && parts[1..] == EncodeAll(ts[1..], vs[1..]).value;
      assert forall i :: 0 < i < |ts| ==> ts[i] == ts[1..][i - 1] && parts[i] == parts[1..][i - 1];
    }
  }

  /** No static component's part is shorter than its type says; what the coder produces never is. */
  ghost predicate LongEnough(ts: seq<AbiType>, parts: seq<seq<Byte>>)
    requires |ts| == |parts|
  {
    forall i :: 0 <= i < |ts| && !IsDynamic(ts[i]) ==> |parts[i]| >= StaticSize(ts[i])
  }

  /** Each static component's value is sized. */
  ghost predicate StaticsAreSized(ts: seq<AbiType>, vs: seq<Value>)
    requires |ts| == |vs|
  {
    forall i :: 0 <= i < |ts| && !IsDynamic(ts[i]) ==> Sized(ts[i], vs[i])
  }

  lemma {:induction false} PartsOfValues(ts: seq<AbiType>, vs: seq<Value>, i: nat)
    requires |ts| == |vs| && EncodeAll(ts, vs).Some? && i < |ts|
    ensures Encode(ts[i], vs[i]) == Some(EncodeAll(ts, vs).value[i])
    decreases i
  {
    hide Encode;
    if i > 0 {
      PartsOfValues(ts[1..], vs[1..], i - 1);
    }
  }

  /** Whatever the values, the parts are long enough; they are as long as the types say exactly when these are sized. */
  lemma ShapedIffStaticsAreSized(ts: seq<AbiType>, vs: seq<Value>)
    requires |ts| == |vs| && EncodeAll(ts, vs).Some?
    ensures LongEnough(ts, EncodeAll(ts, vs).value)
    ensures Shaped(ts, EncodeAll(ts, vs).value) <==> StaticsAreSized(ts, vs)
  {
    hide Encode, EncodeAll, IsDynamic, StaticSize, Sized;
    var parts := EncodeAll(ts, vs).value;
    forall i: nat | i < |ts| && !IsDynamic(ts[i])
      ensures |parts[i]| >= StaticSize(ts[i]) && (|parts[i]| == StaticSize(ts[i]) <==> Sized(ts[i], vs[i]))
    {
      PartsOfValues(ts, vs, i);
      StaticLengthIff(ts[i], vs[i]);
    }
  }

  /** The heads fill headSize at least, and exactly if and only if every static part is as long as its type says. */
  lemma {:induction false} HeadsFillHeadSize(ts: seq<AbiType>, parts: seq<seq<Byte>>, offset: nat)
    requires |ts| == |parts| && LongEnough(ts, parts)
    ensures |Heads(ts, parts, offset)| >= HeadSize(ts)
    ensures |Heads(ts, parts, offset)| == HeadSize(ts) <==> Shaped(ts, parts)
  {
    hide IsDynamic, StaticSize;
    if ts != [] {
      FirstAndRest(ts, parts);
      HeadsFillHeadSize(ts[1..], parts[1..], if IsDynamic(ts[0]) then offset + |parts[0]| else offset);
    }
  }

  lemma FirstAndRest(ts: seq<AbiType>, parts: seq<seq<Byte>>)
    requires |ts| == |parts| && ts != []
    ensures LongEnough(ts, parts)
            <==> (!IsDynamic(ts[0]) ==> |parts[0]| >= StaticSize(ts[0])) && LongEnough(ts[1..], parts[1..])
    ensures Shaped(ts, parts)
            <==> (!IsDynamic(ts[0]) ==> |parts[0]| == StaticSize(ts[0])) && Shaped(ts[1..], parts[1..])
  {
    hide IsDynamic, StaticSize;
    assert forall i :: 0 < i < |ts| ==> ts[i] == ts[1..][i - 1] && parts[i] == parts[1..][i - 1];
    assert forall i :: 0 <= i < |ts| - 1 ==> ts[1..][i] == ts[i + 1] && parts[1..][i] == parts[i + 1];
  }

  /** What component `i` puts among the heads, and where. */
  ghost function HeadPart(t: AbiType, part: seq<Byte>): nat { if IsDynamic(t) then 32 else |part| }

  ghost function HeadAt(ts: seq<AbiType>, parts: seq<seq<Byte>>, i: nat): nat
    requires |ts| == |parts| && i <= |ts|
  {
    if i == 0 then 0 else HeadPart(ts[0], parts[0]) + HeadAt(ts[1..], parts[1..], i - 1)
  }

  /** Where component `i` would have its tail, counted from the start of the tails. */
  ghost function TailAt(ts: seq<AbiType>, parts: seq<seq<Byte>>, i: nat): nat
    requires |ts| == |parts| && i <= |ts|
  {
    if i == 0 then 0 else (if IsDynamic(ts[0]) then |parts[0]| else 0) + TailAt(ts[1..], parts[1..], i - 1)
  }

  /** A place among the later heads, counted from the start of all of them. */
  lemma {:induction false} HeadAfterFirst(ts: seq<AbiType>, parts: seq<seq<Byte>>, offset: nat, i: nat)
    requires |ts| == |parts| && 0 < i < |ts|
    ensures var next := if IsDynamic(ts[0]) then offset + |parts[0]| else offset;
            && HeadAt(ts, parts, i) == HeadPart(ts[0], parts[0]) + HeadAt(ts[1..], parts[1..], i - 1)
            && offset + TailAt(ts, parts, i) == next + TailAt(ts[1..], parts[1..], i - 1)
            && ts[1..][i - 1] == ts[i] && parts[1..][i - 1] == parts[i]
  {
    hide IsDynamic, HeadPart;
  }

  lemma {:induction false} HeadOf(ts: seq<AbiType>, parts: seq<seq<Byte>>, offset: nat, i: nat)
    requires |ts| == |parts| && i < |ts|
    ensures var heads, at, size := Heads(ts, parts, offset), HeadAt(ts, parts, i), HeadPart(ts[i], parts[i]);
            at + size <= |heads| &&
            heads[at..at + size] == if IsDynamic(ts[i]) then Word(offset + TailAt(ts, parts, i)) else parts[i]
    decreases i
  {
    hide IsDynamic, Word, HeadPart, Heads, HeadAt, TailAt;
    FirstHead(ts, parts, offset);
    if i == 0 {
      NothingBeforeFirst(ts, parts);
    } else {
      var next := if IsDynamic(ts[0]) then offset + |parts[0]| else offset;
      HeadAfterFirst(ts, parts, offset, i);
      HeadOf(ts[1..], parts[1..], next, i - 1);
      SliceBehind(Heads(ts, parts, offset), HeadPart(ts[0], parts[0]), Heads(ts[1..], parts[1..], next),
                  HeadAt(ts[1..], parts[1..], i - 1), HeadPart(ts[i], parts[i]));
    }
  }

  lemma NothingBeforeFirst(ts: seq<AbiType>, parts: seq<seq<Byte>>)
    requires |ts| == |parts|
    ensures HeadAt(ts, parts, 0) == 0 && TailAt(ts, parts, 0) == 0
  {
  }

  lemma SliceBehind(s: seq<Byte>, first: nat, rest: seq<Byte>, at: nat, n: nat)
    requires first <= |s| && s[first..] == rest && at + n <= |rest|
    ensures first + at + n <= |s| && s[first + at..first + at + n] == rest[at..at + n]
  {
    assert s[first..][at..at + n] == s[first + at..first + at + n];
  }

  lemma FirstHead(ts: seq<AbiType>, parts: seq<seq<Byte>>, offset: nat)
    requires |ts| == |parts| && ts != []
    ensures var heads, first := Heads(ts, parts, offset), HeadPart(ts[0], parts[0]);
            && first <= |heads| && heads[..first] == (if IsDynamic(ts[0]) then Word(offset) else parts[0])
            && heads[first..] == Heads(ts[1..], parts[1..], if IsDynamic(ts[0]) then offset + |parts[0]| else offset)
  {
    hide IsDynamic, Word;
  }

  lemma {:induction false} TailOf(ts: seq<AbiType>, parts: seq<seq<Byte>>, i: nat)
    requires |ts| == |parts| && i < |ts| && IsDynamic(ts[i])
    ensures var tails, at := Tails(ts, parts), TailAt(ts, parts, i);
            at + |parts[i]| <= |tails| && tails[at..at + |parts[i]|] == parts[i]
    decreases i
  {
    hide IsDynamic;
    if i > 0 {
      TailOf(ts[1..], parts[1..], i - 1);
      var rest := Tails(ts[1..], parts[1..]);
      var first := if IsDynamic(ts[0]) then |parts[0]| else 0;
      assert Tails(ts, parts)[first..] == rest;
      SliceBehind(Tails(ts, parts), first, rest, TailAt(ts[1..], parts[1..], i - 1), |parts[i]|);
    }
  }

  lemma InFirst(a: seq<Byte>, b: seq<Byte>, at: nat, n: nat)
    requires at + n <= |a|
    ensures (a + b)[at..at + n] == a[at..at + n]
  {
  }

  lemma InSecond(a: seq<Byte>, b: seq<Byte>, at: nat, n: nat)
    requires at + n <= |b|
    ensures (a + b)[|a| + at..|a| + at + n] == b[at..at + n]
  {
  }

  /** Head and tail of component `i`, wherever they have come to stand; the head names where the tail should be. */
  lemma LayoutHolds(ts: seq<AbiType>, parts: seq<seq<Byte>>, i: nat)
    requires |ts| == |parts| && i < |ts|
    ensures var enc, heads := Layout(ts, parts), Heads(ts, parts, HeadSize(ts));
            var head, size := HeadAt(ts, parts, i), HeadPart(ts[i], parts[i]);
            var named, tail := HeadSize(ts) + TailAt(ts, parts, i), |heads| + TailAt(ts, parts, i);
            && |enc| == |heads| + |Tails(ts, parts)| && head + size <= |heads|
            && enc[head..head + size] == (if IsDynamic(ts[i]) then Word(named) else parts[i])
            && (IsDynamic(ts[i]) ==> tail + |parts[i]| <= |enc| && enc[tail..tail + |parts[i]|] == parts[i])
  {
    hide IsDynamic, StaticSize, Word, Heads, Tails, HeadAt, TailAt, HeadPart, HeadSize;
    var heads, tails := Heads(ts, parts, HeadSize(ts)), Tails(ts, parts);
    assert Layout(ts, parts) == heads + tails;
    hide Layout;
    HeadOf(ts, parts, HeadSize(ts), i);
    InFirst(heads, tails, HeadAt(ts, parts, i), HeadPart(ts[i], parts[i]));
    if IsDynamic(ts[i]) {
      TailOf(ts, parts, i);
      InSecond(heads, tails, TailAt(ts, parts, i), |parts[i]|);
    }
  }

  lemma SameWordIff(a: nat, b: nat)
    requires a < Limit() && b < Limit()
    ensures Word(a) == Word(b) <==> a == b
  {
    hide Word, Unsigned, Pow256;
    ReadsBack(a);
    ReadsBack(b);
  }

  /**
   * The formal definition of a tuple's encoding, and exactly when the coder
   * meets it: each component has its head, a dynamic one's head names a
   * position counted from the start of the tuple, and its own encoding stands
   * at that position if and only if every static part is as long as its type
   * says. Otherwise the heads run over and every tail stands too late.
   */
  lemma LayoutMeetsDefinition(ts: seq<AbiType>, parts: seq<seq<Byte>>, i: nat)
    requires |ts| == |parts| && LongEnough(ts, parts) && i < |ts| && IsDynamic(ts[i])
    ensures var enc, head, tail := Layout(ts, parts), HeadAt(ts, parts, i),
                                   |Heads(ts, parts, HeadSize(ts))| + TailAt(ts, parts, i);
            && head + 32 <= |enc| && enc[head..head + 32] == Word(HeadSize(ts) + TailAt(ts, parts, i))
            && tail + |parts[i]| <= |enc| && enc[tail..tail + |parts[i]|] == parts[i]
            && HeadSize(ts) + TailAt(ts, parts, i) <= tail
            && (HeadSize(ts) + TailAt(ts, parts, i) == tail <==> Shaped(ts, parts))
            && (|enc| < Limit() ==> (enc[head..head + 32] == Word(tail) <==> Shaped(ts, parts)))
  {
    hide IsDynamic, StaticSize, Word, Heads, Tails, HeadAt, TailAt, Layout, Shaped, LongEnough, HeadSize, Limit;
    LayoutHolds(ts, parts, i);
    HeadsFillHeadSize(ts, parts, HeadSize(ts));
    var tail := |Heads(ts, parts, HeadSize(ts))| + TailAt(ts, parts, i);
    if |Layout(ts, parts)| < Limit() {
      SameWordIff(HeadSize(ts) + TailAt(ts, parts, i), tail);
    }
  }

  /** The bytes of the address and bytesN values that are longer than a word. */
  ghost function Overlong(t: AbiType, v: Value): nat
    decreases v, 0
  {
    match (t, v)
    case (Address, Raw(b)) => if |b| > 32 then |b| else 0
    case (BytesN(_), Raw(b)) => if |b| > 32 then |b| else 0
    case (Array(inner, _), List(items)) => OverlongAll(Copies(inner, |items|), items)
    case (Tuple(components), List(items)) => if |components| == |items| then OverlongAll(components, items) else 0
    case _ => 0
  }

  ghost function OverlongAll(ts: seq<AbiType>, vs: seq<Value>): nat
    requires |ts| == |vs|
    decreases vs, 1
  {
    if vs == [] then 0 else Overlong(ts[0], vs[0]) + OverlongAll(ts[1..], vs[1..])
  }

  ghost predicate SameRest(a: nat, b: nat) { a % 32 == b % 32 }

  lemma SameRestSum(a: nat, b: nat, c: nat, d: nat)
    requires SameRest(a, c) && SameRest(b, d)
    ensures SameRest(a + b, c + d)
  {
    RestOfSum(a, b);
    RestOfSum(c, d);
  }

  lemma RestOfSum(a: nat, b: nat)
    ensures (a + b) % 32 == (a % 32 + b % 32) % 32
  {
  }

  lemma {:induction false} LayoutAddsWords(ts: seq<AbiType>, parts: seq<seq<Byte>>, offset: nat)
    requires |ts| == |parts|
    ensures SameRest(|Heads(ts, parts, offset)| + |Tails(ts, parts)|, TotalLength(parts))
  {
    hide IsDynamic, Word;
    if ts != [] {
      var next := if IsDynamic(ts[0]) then offset + |parts[0]| else offset;
      LayoutAddsWords(ts[1..], parts[1..], next);
      var rest := |Heads(ts[1..], parts[1..], next)| + |Tails(ts[1..], parts[1..])|;
      var first := if IsDynamic(ts[0]) then 32 + |parts[0]| else |parts[0]|;
      assert |Heads(ts, parts, offset)| + |Tails(ts, parts)| == first + rest;
      SameRestSum(first, rest, |parts[0]|, TotalLength(parts[1..]));
    }
  }

  /** An encoding is longer than whole words by exactly what its overlong values are: whole if and only if they are. */
  lemma {:induction false} EncodingIsWholeWords(t: AbiType, v: Value)
    requires Encode(t, v).Some?
    ensures SameRest(|Encode(t, v).value|, Overlong(t, v))
    ensures |Encode(t, v).value| % 32 == 0 <==> Overlong(t, v) % 32 == 0
    decreases v, 0
  {
    hide Word, Layout, EncodeAll, OverlongAll, Padded, Pow2, Pow256;
    match (t, v)
    case (Bytes, Raw(b)) => PaddedIsWhole(b);
    case (Str, Raw(b)) => PaddedIsWhole(b);
    case (Array(inner, length), List(items)) => LayoutAddsUp(Copies(inner, |items|), items);
    case (Tuple(components), List(items)) => LayoutAddsUp(components, items);
    case _ =>
  }

  lemma {:induction false} LayoutAddsUp(ts: seq<AbiType>, vs: seq<Value>)
    requires |ts| == |vs| && EncodeAll(ts, vs).Some?
    ensures SameRest(|Layout(ts, EncodeAll(ts, vs).value)|, OverlongAll(ts, vs))
    ensures SameRest(32 + |Layout(ts, EncodeAll(ts, vs).value)|, OverlongAll(ts, vs))
    decreases vs, 2
  {
    hide Encode, EncodeAll, OverlongAll, Heads, Tails, TotalLength;
    PartsAddUp(ts, vs);
    LayoutAddsWords(ts, EncodeAll(ts, vs).value, HeadSize(ts));
  }

  lemma FirstPart(ts: seq<AbiType>, vs: seq<Value>)
    requires |ts| == |vs| && EncodeAll(ts, vs).Some? && vs != []
    ensures Encode(ts[0], vs[0]).Some? && EncodeAll(ts[1..], vs[1..]).Some?
    ensures EncodeAll(ts, vs).value == [Encode(ts[0], vs[0]).value] + EncodeAll(ts[1..], vs[1..]).value
  {
    hide Encode;
  }

  lemma {:induction false} LengthOfFirst(part: seq<Byte>, rest: seq<seq<Byte>>)
    ensures TotalLength([part] + rest) == |part| + TotalLength(rest)
  {
    assert ([part] + rest)[1..] == rest;
  }

  lemma {:induction false} PartsAddUp(ts: seq<AbiType>, vs: seq<Value>)
    requires |ts| == |vs| && EncodeAll(ts, vs).Some?
    ensures SameRest(TotalLength(EncodeAll(ts, vs).value), OverlongAll(ts, vs))
    decreases vs, 1
  {
    hide Encode, Overlong, EncodeAll, SameRest, TotalLength, OverlongAll;
    if vs == [] {
      NoPartsAddUp(ts, vs);
    } else {
      FirstPart(ts, vs);
      EncodingIsWholeWords(ts[0], vs[0]);
      PartsAddUp(ts[1..], vs[1..]);
      FirstAddsUp(ts, vs, Encode(ts[0], vs[0]).value, EncodeAll(ts[1..], vs[1..]).value);
    }
  }

  lemma {:induction false} NoPartsAddUp(ts: seq<AbiType>, vs: seq<Value>)
    requires |ts| == |vs| == 0 && EncodeAll(ts, vs).Some?
    ensures SameRest(TotalLength(EncodeAll(ts, vs).value), OverlongAll(ts, vs))
  {
  }

  lemma {:induction false} FirstAddsUp(ts: seq<AbiType>, vs: seq<Value>, part: seq<Byte>, rest: seq<seq<Byte>>)
    requires |ts| == |vs| > 0 && SameRest(|part|, Overlong(ts[0], vs[0]))
    requires SameRest(TotalLength(rest), OverlongAll(ts[1..], vs[1..]))
    ensures SameRest(TotalLength([part] + rest), OverlongAll(ts, vs))
  {
    hide Overlong, TotalLength, SameRest;
    LengthOfFirst(part, rest);
    SameRestSum(|part|, TotalLength(rest), Overlong(ts[0], vs[0]), OverlongAll(ts[1..], vs[1..]));
  }

  /** So every sized value's is. */
  lemma {:induction false} SizedIsNotOverlong(t: AbiType, v: Value)
    requires Sized(t, v)
    ensures Overlong(t, v) == 0
    decreases v, 0
  {
    match (t, v)
    case (Array(inner, length), List(items)) => AllSizedAreNotOverlong(Copies(inner, |items|), items);
    case (Tuple(components), List(items)) => AllSizedAreNotOverlong(components, items);
    case _ =>
  }

  lemma {:induction false} AllSizedAreNotOverlong(ts: seq<AbiType>, vs: seq<Value>)
    requires |ts| == |vs| && SizedAll(ts, vs)
    ensures OverlongAll(ts, vs) == 0
    decreases vs, 1
  {
    if vs != [] {
      SizedIsNotOverlong(ts[0], vs[0]);
      AllSizedAreNotOverlong(ts[1..], vs[1..]);
    }
  }

  lemma PaddedIsWhole(b: seq<Byte>)
    ensures |Padded(b)| % 32 == 0
  {
  }

  // ---------------------------------------------------------------- decoding undoes encoding

  /** A value of the type, as the ABI counts them. */
  ghost predicate WellFormed(t: AbiType, v: Value)
    decreases v, 0
  {
    match (t, v)
    case (UInt(bits), Num(n)) => bits <= 256 && 0 <= n < Pow2(bits)
    case (SInt(bits), Num(n)) => 1 <= bits <= 256 && -n <= Pow2(bits - 1) && n < Pow2(bits - 1)
    case (Address, Raw(b)) => |b| == 20
    case (Bool, Flag(_)) => true
    case (BytesN(n), Raw(b)) => |b| == n <= 32
    case (Bytes, Raw(_)) => true
    case (Str, Raw(_)) => true
    case (Array(inner, length), List(items)) =>
      (if length.None? then |items| < Limit() else |items| == length.value)
      && AllWellFormed(Copies(inner, |items|), items)
    case (Tuple(components), List(items)) => |components| == |items| && AllWellFormed(components, items)
    case _ => false
  }

  ghost predicate AllWellFormed(ts: seq<AbiType>, vs: seq<Value>)
    requires |ts| == |vs|
    decreases vs, 1
  {
    vs == [] || (WellFormed(ts[0], vs[0]) && AllWellFormed(ts[1..], vs[1..]))
  }

  lemma {:induction false} WellFormedEncodes(t: AbiType, v: Value)
    requires WellFormed(t, v)
    ensures Encode(t, v).Some? && Sized(t, v)
    decreases v, 0
  {
    match (t, v)
    case (Array(inner, length), List(items)) => AllEncode(Copies(inner, |items|), items);
    case (Tuple(components), List(items)) => AllEncode(components, items);
    case _ =>
  }

  lemma {:induction false} AllEncode(ts: seq<AbiType>, vs: seq<Value>)
    requires |ts| == |vs| && AllWellFormed(ts, vs)
    ensures EncodeAll(ts, vs).Some? && SizedAll(ts, vs)
    decreases vs, 1
  {
    hide Encode, Sized, WellFormed;
    if vs != [] {
      WellFormedEncodes(ts[0], vs[0]);
      AllEncode(ts[1..], vs[1..]);
    }
  }

  /** The bytes `e` stand at `o`. */
  ghost predicate StandsAt(buf: seq<Byte>, o: nat, e: seq<Byte>) { o + |e| <= |buf| && buf[o..o + |e|] == e }

  lemma StandsInside(buf: seq<Byte>, o: nat, a: seq<Byte>, b: seq<Byte>)
    requires StandsAt(buf, o, a + b)
    ensures StandsAt(buf, o, a) && StandsAt(buf, o + |a|, b)
  {
    assert buf[o..o + |a|] == buf[o..o + |a + b|][..|a|];
    assert buf[o + |a|..o + |a| + |b|] == buf[o..o + |a + b|][|a|..];
  }

  lemma ReadsWordAt(buf: seq<Byte>, o: nat, n: nat)
    requires StandsAt(buf, o, Word(n)) && n < Limit()
    ensures ReadWord(buf, o) == Some(n)
  {
    hide Word;
    assert Slice(buf, o, o + 32) == Word(n);
    ReadsBack(n);
  }

  lemma DecodeUnsigned(bits: nat, n: nat, buf: seq<Byte>, o: nat)
    requires bits <= 256 && n < Pow2(bits) && StandsAt(buf, o, Word(n))
    ensures Decode(UInt(bits), buf, o) == Some((Num(n), 32))
  {
    hide Pow2, Pow256, Word, StandsAt, ReadWord;
    Pow2OfBytes(32);
    Pow2Grows(bits, 256);
    ReadsWordAt(buf, o, n);
  }

  /** Two's complement: a negative number wraps below 2^256 and is recognised by its top bit. */
  lemma DecodeSigned(bits: nat, n: int, buf: seq<Byte>, o: nat)
    requires 1 <= bits <= 256 && -n <= Pow2(bits - 1) && n < Pow2(bits - 1)
    requires Pow256(32) + n >= 0 && StandsAt(buf, o, Word(if n < 0 then Pow256(32) + n else n))
    ensures Decode(SInt(bits), buf, o) == Some((Num(n), 32))
  {
    TopBit();
    hide Pow2, Pow256, Word, StandsAt, ReadWord;
    Pow2Grows(bits - 1, 255);
    ReadsWordAt(buf, o, if n < 0 then Pow256(32) + n else n);
  }

  lemma SignedFits(bits: nat, n: int)
    requires 1 <= bits <= 256 && -n <= Pow2(bits - 1)
    ensures Pow256(32) + n >= 0
  {
    TopBit();
    hide Pow2, Pow256;
    Pow2Grows(bits - 1, 255);
  }

  lemma TopBit()
    ensures Pow256(32) == 2 * Pow2(255) && Pow2(255) >= 1
  {
    hide Pow256;
    Pow2OfBytes(32);
    HalfOf(256);
  }

  lemma HalfOf(k: nat)
    requires k > 0
    ensures Pow2(k) == 2 * Pow2(k - 1)
  {
  }

  lemma DecodeRaw(t: AbiType, b: seq<Byte>, buf: seq<Byte>, o: nat)
    requires (t.Address? || t.BytesN?) && WellFormed(t, Raw(b)) && StandsAt(buf, o, Encode(t, Raw(b)).value)
    ensures Decode(t, buf, o) == Some((Raw(b), 32))
  {
    assert Slice(buf, o, o + 32) == Encode(t, Raw(b)).value;
  }

  lemma DecodeText(b: seq<Byte>, buf: seq<Byte>, o: nat)
    requires StandsAt(buf, o, Word(|b|) + Padded(b)) && |b| < Limit()
    ensures DecodeBytes(buf, o) == Some((Raw(b), 32))
  {
    hide Word;
    StandsInside(buf, o, Word(|b|), Padded(b));
    StandsInside(buf, o + 32, b, AbiCodec.Zeros((32 - |b| % 32) % 32));
    ReadsWordAt(buf, o, |b|);
  }

  /** Wherever an encoding stands in a larger buffer, decoding there gives the value back. */
  lemma {:induction false} DecodeAt(t: AbiType, v: Value, buf: seq<Byte>, o: nat)
    requires WellFormed(t, v) && Encode(t, v).Some?
    requires StandsAt(buf, o, Encode(t, v).value) && |Encode(t, v).value| < Limit()
    ensures Decode(t, buf, o).Some? && Decode(t, buf, o).value.0 == v
    ensures !IsDynamic(t) ==> Decode(t, buf, o).value.1 == |Encode(t, v).value|
    decreases v, 0
  {
    hide Word, DecodeTuple, Layout, Pow2, Pow256, StandsAt, ReadWord;
    match (t, v)
    case (UInt(bits), Num(n)) => DecodeUnsigned(bits, n, buf, o);
    case (SInt(bits), Num(n)) =>
      SignedFits(bits, n);
      DecodeSigned(bits, n, buf, o);
    case (Address, Raw(b)) => DecodeRaw(t, b, buf, o);
    case (BytesN(_), Raw(b)) => DecodeRaw(t, b, buf, o);
    case (Bool, Flag(on)) => ReadsFlag(on, buf, o);
    case (Bytes, Raw(b)) => DecodeText(b, buf, o);
    case (Str, Raw(b)) => DecodeText(b, buf, o);
    case (Array(inner, length), List(items)) =>
      WellFormedEncodes(t, v);
      DecodeArrayAt(inner, length, items, buf, o);
    case (Tuple(components), List(items)) =>
      WellFormedEncodes(t, v);
      DecodeLayoutAt(components, items, buf, o);
      if !IsDynamic(t) {
        StaticLengthIff(t, v);
      }
  }

  lemma ReadsFlag(on: bool, buf: seq<Byte>, o: nat)
    requires StandsAt(buf, o, Word(if on then 1 else 0))
    ensures Decode(Bool, buf, o) == Some((Flag(on), 32))
  {
    hide Word, StandsAt, ReadWord;
    ReadsWordAt(buf, o, if on then 1 else 0);
  }

  lemma {:induction false} DecodeArrayAt(inner: AbiType, length: Option<nat>, items: seq<Value>, buf: seq<Byte>, o: nat)
    requires var t, v := Array(inner, length), List(items);
             WellFormed(t, v) && Encode(t, v).Some?
             && StandsAt(buf, o, Encode(t, v).value) && |Encode(t, v).value| < Limit()
    ensures var t, v := Array(inner, length), List(items);
            Decode(t, buf, o).Some? && Decode(t, buf, o).value.0 == v
            && (!IsDynamic(t) ==> Decode(t, buf, o).value.1 == |Encode(t, v).value|)
    decreases items, 3
  {
    hide Word, DecodeTuple, Layout, Pow256, StandsAt, ReadWord;
    var t, v := Array(inner, length), List(items);
    var ts := Copies(inner, |items|);
    WellFormedEncodes(t, v);
    if length.None? {
      var body := Layout(ts, EncodeAll(ts, items).value);
      StandsInside(buf, o, Word(|items|), body);
      ReadsWordAt(buf, o, |items|);
      DecodeLayoutAt(ts, items, buf, o + 32);
    } else {
      DecodeLayoutAt(ts, items, buf, o);
      if !IsDynamic(t) {
        StaticLengthIff(t, v);
      }
    }
  }

  lemma {:induction false} DecodeLayoutAt(ts: seq<AbiType>, vs: seq<Value>, buf: seq<Byte>, base: nat)
    requires |ts| == |vs| && AllWellFormed(ts, vs) && EncodeAll(ts, vs).Some?
    requires var enc := Layout(ts, EncodeAll(ts, vs).value); StandsAt(buf, base, enc) && |enc| < Limit()
    ensures DecodeTuple(ts, buf, base) == Some(vs)
    decreases vs, 2
  {
    hide Encode, Decode, DecodeFrom, Heads, Tails, Pow256, StandsAt, HeadSize;
    var parts := EncodeAll(ts, vs).value;
    AllEncode(ts, vs);
    SizedIsShaped(ts, vs);
    HeadsFillHeadSize(ts, parts, HeadSize(ts));
    StandsInside(buf, base, Heads(ts, parts, HeadSize(ts)), Tails(ts, parts));
    DecodeFromAt(ts, vs, buf, base, base, HeadSize(ts));
  }

  /** From any component on: the heads stand at the cursor, the tails where the next offset points. */
  lemma {:induction false} DecodeFromAt(ts: seq<AbiType>, vs: seq<Value>, buf: seq<Byte>, base: nat, cursor: nat,
                                         offset: nat)
    requires |ts| == |vs| && AllWellFormed(ts, vs) && EncodeAll(ts, vs).Some?
    requires var parts := EncodeAll(ts, vs).value;
             && StandsAt(buf, cursor, Heads(ts, parts, offset)) && StandsAt(buf, base + offset, Tails(ts, parts))
             && |Heads(ts, parts, offset)| < Limit() && offset + |Tails(ts, parts)| < Limit()
    ensures DecodeFrom(ts, buf, base, cursor) == Some(vs)
    decreases vs, 1
  {
    hide Encode, Decode, Word, Pow256, StandsAt, IsDynamic, WellFormed, ReadWord;
    if vs != [] {
      var parts := EncodeAll(ts, vs).value;
      var part := Encode(ts[0], vs[0]).value;
      assert parts[0] == part && parts[1..] == EncodeAll(ts[1..], vs[1..]).value;
      if IsDynamic(ts[0]) {
        StandsInside(buf, cursor, Word(offset), Heads(ts[1..], parts[1..], offset + |part|));
        StandsInside(buf, base + offset, part, Tails(ts[1..], parts[1..]));
        ReadsWordAt(buf, cursor, offset);
        DecodeAt(ts[0], vs[0], buf, base + offset);
        DecodeFromAt(ts[1..], vs[1..], buf, base, cursor + 32, offset + |part|);
      } else {
        StandsInside(buf, cursor, part, Heads(ts[1..], parts[1..], offset));
        DecodeAt(ts[0], vs[0], buf, cursor);
        DecodeFromAt(ts[1..], vs[1..], buf, base, cursor + |part|, offset);
      }
      assert [vs[0]] + vs[1..] == vs;
    }
  }

  /** Any well-formed value of any type comes back, with anything before and after its encoding. */
  lemma DecodeUndoesEncode(t: AbiType, v: Value, pre: seq<Byte>, post: seq<Byte>)
    requires WellFormed(t, v)
    ensures Encode(t, v).Some?
    ensures var enc := Encode(t, v).value;
            |enc| < Limit() ==> Decode(t, pre + enc + post, |pre|).Some?
                                && Decode(t, pre + enc + post, |pre|).value.0 == v
  {
    hide Encode, Decode, WellFormed, Pow256;
    WellFormedEncodes(t, v);
    var enc := Encode(t, v).value;
    if |enc| < Limit() {
      assert (pre + enc + post)[|pre|..|pre| + |enc|] == enc;
      DecodeAt(t, v, pre + enc + post, |pre|);
    }
  }

  /** `decode`: the components of a tuple type read from its text, then decoded from the start of the data. */
  function DecodeTyped(typeText: string, data: seq<Byte>): Option<seq<Value>> {
    var t := ParseType(if typeText != "" && typeText[0] == '(' then typeText else "(" + typeText + ")");
    if t.None? || !t.value.Tuple? then None else DecodeTuple(t.value.components, data, 0)
  }

  /** Text and bytes together: decoding against the printed types undoes encodeTuple. */
  lemma DecodeUndoesEncodeTuple(ts: seq<AbiType>, vs: seq<Value>)
    requires |ts| == |vs| && AllWellFormed(ts, vs)
    ensures EncodeAll(ts, vs).Some?
    ensures var data := Layout(ts, EncodeAll(ts, vs).value);
            |data| < Limit() ==> DecodeTyped(Print(Tuple(ts)), data) == Some(vs)
                                 && (StartsTuple(PrintAll(ts)) || DecodeTyped(PrintAll(ts), data) == Some(vs))
  {
    hide Encode, Decode, DecodeFrom, ParseType, Pow256, EncodeAll, Layout, DecodeTuple, PrintAll;
    AllEncode(ts, vs);
    ParsePrintRoundTrip(Tuple(ts));
    var data := Layout(ts, EncodeAll(ts, vs).value);
    if |data| < Limit() {
      assert data[0..|data|] == data;
      DecodeLayoutAt(ts, vs, data, 0);
    }
  }

  predicate StartsTuple(s: string) { s != "" && s[0] == '(' }
}
