/** Where the coder's promises end: values it accepts but does not bring back, and type lists it misreads. */
module AbiLimits {
  import opened Options
  import Decimal
  import opened Bits
  import opened AbiTypes
  import opened AbiCodec
  import opened AbiProofs

  // ---------------------------------------------------------------- what a decoder can return

  /** The elementary types Solidity has, of one word each. */
  predicate OneWordType(t: AbiType) {
    match t
    case UInt(bits) => bits <= 256
    case SInt(bits) => 1 <= bits <= 256
    case BytesN(n) => n <= 32
    case Address => true
    case Bool => true
    case _ => false
  }

  /** Every type built from Solidity's own. */
  predicate SolidityType(t: AbiType) {
    match t
    case Array(inner, _) => SolidityType(inner)
    case Tuple(components) => forall c :: c in components ==> SolidityType(c)
    case Bytes => true
    case Str => true
    case _ => OneWordType(t)
  }

  /** No address is longer than 20 bytes, no bytesN than n, and no list than a word can count. */
  ghost predicate Modest(t: AbiType, v: Value)
    decreases v, 0
  {
    match (t, v)
    case (Address, Raw(b)) => |b| <= 20
    case (BytesN(n), Raw(b)) => |b| <= n
    case (Array(inner, length), List(items)) =>
      (length.None? ==> |items| < Limit()) && AllModest(Copies(inner, |items|), items)
    case (Tuple(components), List(items)) => |components| == |items| && AllModest(components, items)
    case _ => true
  }

  ghost predicate AllModest(ts: seq<AbiType>, vs: seq<Value>)
    requires |ts| == |vs|
    decreases vs, 1
  {
    vs == [] || (Modest(ts[0], vs[0]) && AllModest(ts[1..], vs[1..]))
  }

  lemma {:induction false} UnsignedIsBelow(bytes: seq<Byte>)
    ensures Unsigned(bytes) < Pow256(|bytes|)
  {
    if bytes != [] {
      UnsignedIsBelow(bytes[..|bytes| - 1]);
    }
  }

  lemma {:induction false} Pow256Grows(a: nat, b: nat)
    requires a <= b
    ensures Pow256(a) <= Pow256(b)
  {
    if a < b {
      Pow256Grows(a, b - 1);
    }
  }

  lemma ReadIsBelow(buf: seq<Byte>, o: nat)
    requires ReadWord(buf, o).Some?
    ensures ReadWord(buf, o).value < Limit()
  {
    hide Unsigned, Pow256;
    var w := Slice(buf, o, o + 32);
    UnsignedIsBelow(w);
    Pow256Grows(|w|, 32);
  }

  /** Whatever the bytes, what comes out of the decoder is modest. */
  lemma {:induction false} DecodedIsModest(t: AbiType, buf: seq<Byte>, o: nat)
    requires Decode(t, buf, o).Some?
    ensures Modest(t, Decode(t, buf, o).value.0)
    decreases Rank(t), 0
  {
    hide Pow256, Unsigned, ReadWord, IsDynamic, StaticSize, DecodeFrom, AllModest, Pow2;
    match t
    case Array(inner, length) =>
      var count := if length.None? then ReadWord(buf, o) else length;
      var base := if length.None? then o + 32 else o;
      if length.None? {
        ReadIsBelow(buf, o);
      }
      RankOfCopies(inner, count.value);
      DecodedListIsModest(Copies(inner, count.value), buf, base, base);
    case Tuple(components) => DecodedListIsModest(components, buf, o, o);
    case _ =>
  }

  lemma {:induction false} DecodedListIsModest(ts: seq<AbiType>, buf: seq<Byte>, base: nat, cursor: nat)
    requires DecodeFrom(ts, buf, base, cursor).Some?
    ensures var vs := DecodeFrom(ts, buf, base, cursor).value; |vs| == |ts| && AllModest(ts, vs)
    decreases MaxRank(ts), |ts| + 1
  {
    hide Decode, Modest, ReadWord, IsDynamic;
    if ts != [] {
      assert ts[0] in ts;
      var first := DecodeOne(ts[0], buf, base, cursor).value;
      DecodedIsModest(ts[0], buf, if IsDynamic(ts[0]) then base + ReadWord(buf, cursor).value else cursor);
      DecodedListIsModest(ts[1..], buf, base, cursor + first.1);
      var rest := DecodeFrom(ts[1..], buf, base, cursor + first.1).value;
      assert DecodeFrom(ts, buf, base, cursor).value == [first.0] + rest && ([first.0] + rest)[1..] == rest;
    }
  }

  // ---------------------------------------------------------------- the value an encoding stands for

  /** Short addresses and bytesN values with the bytes the encoder pads them with. */
  ghost function Filled(t: AbiType, v: Value): Value
    decreases v, 0
  {
    match (t, v)
    case (Address, Raw(b)) => if |b| < 20 then Raw(Zeros(20 - |b|) + b) else v
    case (BytesN(n), Raw(b)) => if |b| < n then Raw(b + Zeros(n - |b|)) else v
    case (Array(inner, _), List(items)) => List(AllFilled(Copies(inner, |items|), items))
    case (Tuple(components), List(items)) =>
      if |components| == |items| then List(AllFilled(components, items)) else v
    case _ => v
  }

  ghost function AllFilled(ts: seq<AbiType>, vs: seq<Value>): (r: seq<Value>)
    requires |ts| == |vs|
    ensures |r| == |vs|
    decreases vs, 1
  {
    if vs == [] then [] else [Filled(ts[0], vs[0])] + AllFilled(ts[1..], vs[1..])
  }

  lemma FilledRaw(t: AbiType, b: seq<Byte>)
    requires OneWordType(t) && (t.Address? || t.BytesN?) && Modest(t, Raw(b))
    ensures WellFormed(t, Filled(t, Raw(b))) && Encode(t, Filled(t, Raw(b))) == Encode(t, Raw(b))
  {
    if t.Address? {
      assert Zeros(12) + Zeros(20 - |b|) == Zeros(32 - |b|);
      assert Zeros(12) + (Zeros(20 - |b|) + b) == Zeros(32 - |b|) + b;
    } else {
      assert Zeros(t.n - |b|) + Zeros(32 - t.n) == Zeros(32 - |b|);
      assert b + Zeros(t.n - |b|) + Zeros(32 - t.n) == b + Zeros(32 - |b|);
    }
  }

  /** Filling a modest value makes it well formed and leaves its encoding as it was. */
  lemma {:induction false} FilledEncodesAlike(t: AbiType, v: Value)
    requires SolidityType(t) && Modest(t, v) && Encode(t, v).Some?
    ensures WellFormed(t, Filled(t, v)) && Encode(t, Filled(t, v)) == Encode(t, v)
    decreases v, 0
  {
    hide Pow2, Pow256, Word, Layout, AllModest, AllFilled, EncodeAll, AllWellFormed, Padded;
    match (t, v)
    case (Address, Raw(b)) => FilledRaw(t, b);
    case (BytesN(_), Raw(b)) => FilledRaw(t, b);
    case (Array(inner, _), List(items)) => AllFilledEncodeAlike(Copies(inner, |items|), items);
    case (Tuple(components), List(items)) => AllFilledEncodeAlike(components, items);
    case _ =>
  }

  lemma {:induction false} AllFilledEncodeAlike(ts: seq<AbiType>, vs: seq<Value>)
    requires |ts| == |vs| && AllModest(ts, vs) && EncodeAll(ts, vs).Some?
    requires forall t :: t in ts ==> SolidityType(t)
    ensures AllWellFormed(ts, AllFilled(ts, vs)) && EncodeAll(ts, AllFilled(ts, vs)) == EncodeAll(ts, vs)
    decreases vs, 1
  {
    hide Encode, Modest, WellFormed, Filled, SolidityType;
    if vs != [] {
      assert ts[0] in ts && forall t :: t in ts[1..] ==> t in ts;
      FilledEncodesAlike(ts[0], vs[0]);
      AllFilledEncodeAlike(ts[1..], vs[1..]);
      assert AllFilled(ts, vs)[1..] == AllFilled(ts[1..], vs[1..]);
    }
  }

  // ---------------------------------------------------------------- round trips, exactly

  lemma LimitIsLarge()
    ensures Limit() > 32
  {
    Pow256Grows(2, 32);
    assert Pow256(2) == 256 * Pow256(1) == 65536;
  }

  lemma OneWordIsShort(t: AbiType, v: Value)
    requires OneWordType(t) && Encode(t, v).Some? && Sized(t, v)
    ensures |Encode(t, v).value| < Limit()
  {
    hide Encode, Sized, Pow256;
    StaticLengthIff(t, v);
    LimitIsLarge();
  }

  /**
   * Whatever the coder accepts for a type, in whatever surroundings its bytes
   * stand, the decoder brings it back if and only if it was a value of the
   * type. (Offsets must fit a word, so a list's encoding is below 2^256 bytes.)
   */
  lemma RoundTripIff(t: AbiType, v: Value, pre: seq<Byte>, post: seq<Byte>)
    requires SolidityType(t) && Encode(t, v).Some?
    requires OneWordType(t) || |Encode(t, v).value| < Limit()
    ensures var back := Decode(t, pre + Encode(t, v).value + post, |pre|);
            back.Some? && back.value.0 == v <==> WellFormed(t, v)
  {
    hide Encode, Decode, WellFormed, Pow256, Modest, Filled, Sized, SolidityType;
    var enc := Encode(t, v).value;
    var buf := pre + enc + post;
    assert buf[|pre|..|pre| + |enc|] == enc;
    if WellFormed(t, v) {
      WellFormedEncodes(t, v);
      if OneWordType(t) {
        OneWordIsShort(t, v);
      }
      DecodeAt(t, v, buf, |pre|);
    }
    if Decode(t, buf, |pre|).Some? && Decode(t, buf, |pre|).value.0 == v {
      DecodedIsModest(t, buf, |pre|);
      FilledEncodesAlike(t, v);
      WellFormedEncodes(t, Filled(t, v));
      if OneWordType(t) {
        OneWordIsShort(t, Filled(t, v));
      }
      DecodeAt(t, Filled(t, v), buf, |pre|);
    }
  }

  /** An instance: an address of 19 bytes is accepted, and comes back as 20. */
  lemma ShortAddressComesBackLonger()
    ensures var b: seq<Byte> := Zeros(19);
            && Encode(Address, Raw(b)).Some? && !WellFormed(Address, Raw(b))
            && Decode(Address, Encode(Address, Raw(b)).value, 0) == Some((Raw(Zeros(20)), 32))
  {
    assert Zeros(13) + Zeros(19) == Zeros(32);
    assert Drop(Slice(Zeros(32), 0, 32), 12) == Zeros(20);
  }

  // ---------------------------------------------------------------- one text, one type

  /** Parentheses close what they open, and never more. */
  ghost predicate Nested(s: string) { Depth(s) == 0 && forall i :: 0 <= i <= |s| ==> Depth(s[..i]) >= 0 }

  /** A text that reads as one type: nested, and with no comma outside its parentheses. */
  ghost predicate OnePiece(s: string) { Nested(s) && NoTopComma(s) }

  lemma {:induction false} DepthConcat(a: string, b: string)
    ensures Depth(a + b) == Depth(a) + Depth(b)
  {
    if b == "" {
      assert a + b == a;
    } else {
      assert (a + b)[..|a + b| - 1] == a + b[..|b| - 1];
      DepthConcat(a, b[..|b| - 1]);
    }
  }

  lemma {:induction false} FlatDepth(s: string)
    requires Flat(s)
    ensures Depth(s) == 0
  {
    if s != "" {
      FlatDepth(s[..|s| - 1]);
    }
  }

  lemma FlatIsOnePiece(s: string)
    requires Flat(s)
    ensures OnePiece(s)
  {
    hide Depth;
    FlatDepth(s);
    forall i | 0 <= i <= |s| ensures Depth(s[..i]) == 0 {
      FlatDepth(s[..i]);
    }
  }

  /** The depth at each place of a text made of two. */
  lemma DepthInConcat(a: string, b: string, i: nat)
    requires i <= |a + b|
    ensures Depth((a + b)[..i]) == if i <= |a| then Depth(a[..i]) else Depth(a) + Depth(b[..i - |a|])
  {
    hide Depth;
    if i <= |a| {
      assert (a + b)[..i] == a[..i];
    } else {
      assert (a + b)[..i] == a + b[..i - |a|];
      DepthConcat(a, b[..i - |a|]);
    }
  }

  lemma NestedConcat(a: string, b: string)
    requires Nested(a) && Nested(b)
    ensures Nested(a + b) && (NoTopComma(a) && NoTopComma(b) ==> NoTopComma(a + b))
  {
    hide Depth;
    DepthConcat(a, b);
    forall i: nat | i <= |a + b|
      ensures Depth((a + b)[..i]) == if i <= |a| then Depth(a[..i]) else Depth(b[..i - |a|])
    {
      DepthInConcat(a, b, i);
      assert i == |a| ==> a[..i] == a && b[..0] == "";
    }
    if NoTopComma(a) && NoTopComma(b) {
      NoLeadingComma(b);
      forall i: nat | i < |a + b| && (a + b)[i] == ',' ensures Depth((a + b)[..i]) != 0 {
        if i < |a| {
          assert a[i] == ',';
        } else {
          assert b[i - |a|] == ',';
        }
      }
    }
  }

  lemma NoLeadingComma(s: string)
    requires NoTopComma(s)
    ensures s == "" || s[0] != ','
  {
    assert Depth(s[..0]) == 0;
  }

  lemma ParenDepths()
    ensures Depth("") == 0 && Depth("(") == 1 && Depth(")") == -1
  {
  }

  lemma WrappedIsOnePiece(a: string)
    requires Nested(a)
    ensures OnePiece("(" + a + ")")
  {
    hide Depth;
    var s := "(" + a + ")";
    ParenDepths();
    DepthConcat("(", a);
    DepthConcat("(" + a, ")");
    forall i: nat | i <= |s| ensures Depth(s[..i]) >= if 0 < i <= |a| + 1 then 1 else 0 {
      DepthInConcat("(" + a, ")", i);
      if 0 < i <= |a| + 1 {
        DepthInConcat("(", a, i);
        assert "("[..1] == "(" && a[..0] == "";
      } else if i == |a| + 2 {
        assert s[..i] == s;
      }
    }
  }

  lemma {:induction false} TrimmedParts(s: string) returns (before: string, after: string)
    ensures s == before + Trim(s) + after && Flat(before) && Flat(after)
  {
    before := StartPart(s);
    after := EndPart(TrimStart(s));
    assert s == before + TrimStart(s);
  }

  lemma {:induction false} StartPart(s: string) returns (before: string)
    ensures s == before + TrimStart(s) && Flat(before)
  {
    before := "";
    if s != "" && IsSpace(s[0]) {
      var rest := StartPart(s[1..]);
      before := [s[0]] + rest;
      assert s == [s[0]] + s[1..];
    }
  }

  lemma {:induction false} EndPart(s: string) returns (after: string)
    ensures s == TrimEnd(s) + after && Flat(after)
  {
    after := "";
    if s != "" && IsSpace(s[|s| - 1]) {
      var rest := EndPart(s[..|s| - 1]);
      after := rest + [s[|s| - 1]];
      assert s == s[..|s| - 1] + [s[|s| - 1]];
    }
  }

  lemma TrimmedIsOnePiece(s: string)
    requires OnePiece(Trim(s))
    ensures OnePiece(s)
  {
    hide Trim, Nested, NoTopComma;
    var before, after := TrimmedParts(s);
    FlatIsOnePiece(before);
    FlatIsOnePiece(after);
    NestedConcat(before, Trim(s));
    NestedConcat(before + Trim(s), after);
  }

  lemma {:induction false} JoinIsNested(pieces: seq<string>)
    requires forall p :: p in pieces ==> Nested(p)
    ensures Nested(Join(pieces))
  {
    hide Nested;
    if pieces == [] {
      FlatIsOnePiece("");
    } else {
      assert pieces[0] in pieces;
      if |pieces| > 1 {
        assert forall p :: p in pieces[1..] ==> p in pieces;
        JoinIsNested(pieces[1..]);
        CommaIsNested();
        NestedConcat(pieces[0], ",");
        NestedConcat(pieces[0] + ",", Join(pieces[1..]));
      }
    }
  }

  lemma CommaIsNested()
    ensures Nested(",")
  {
  }

  lemma ElementaryTextIsFlat(s: string)
    requires Elementary(s).Some?
    ensures Flat(s)
  {
    hide Decimal.Value;
    if |s| >= 4 && s[..4] == "uint" && Decimal.AllDigits(s[4..]) {
      assert s == "uint" + s[4..];
    } else if |s| >= 3 && s[..3] == "int" && Decimal.AllDigits(s[3..]) {
      assert s == "int" + s[3..];
    } else if |s| > 5 && s[..5] == "bytes" && Decimal.AllDigits(s[5..]) {
      assert s == "bytes" + s[5..];
    }
  }

  /** Whatever text the parser accepts is one piece. */
  lemma {:induction false} ParsedIsOnePiece(text: string)
    requires ParseType(text).Some?
    ensures OnePiece(text)
    decreases |text|, 0
  {
    hide OnePiece, Nested, Pieces, Elementary, Trim, Depth;
    var s := Trim(text);
    var suffix := ArraySuffix(s);
    if suffix.Some? {
      ParsedIsOnePiece(suffix.value.0);
      SuffixedIsOnePiece(s);
    } else if s != "" && s[0] == '(' {
      var inner := s[1..|s| - 1];
      PiecesAreShort(inner, 0, "");
      ParsedListIsNested(Split(inner), |text|);
      CutIsNested(inner);
      WrappedIsOnePiece(inner);
      assert s == "(" + inner + ")";
    } else {
      ElementaryTextIsFlat(s);
      FlatIsOnePiece(s);
    }
    TrimmedIsOnePiece(text);
  }

  lemma SuffixedIsOnePiece(s: string)
    requires ArraySuffix(s).Some? && OnePiece(ArraySuffix(s).value.0)
    ensures OnePiece(s)
  {
    hide Nested, NoTopComma;
    var (prefix, digits) := ArraySuffix(s).value;
    var tail := "[" + digits + "]";
    assert s == prefix + tail;
    FlatIsOnePiece(tail);
    NestedConcat(prefix, tail);
  }

  lemma CutIsNested(inner: string)
    requires forall p :: p in Split(inner) ==> Nested(p)
    ensures Nested(inner)
  {
    hide Nested, Pieces;
    PiecesJoinBack(inner, 0, "");
    assert "" + inner == inner;
    if Trim(inner) == "" {
      FlatIsOnePiece("");
      TrimmedIsOnePiece(inner);
    } else {
      JoinIsNested(Pieces(inner, 0, ""));
    }
  }

  lemma {:induction false} ParsedListIsNested(texts: seq<string>, bound: nat)
    requires forall i :: 0 <= i < |texts| ==> |texts[i]| < bound
    requires ParseAll(texts, bound).Some?
    ensures forall p :: p in texts ==> Nested(p)
    decreases bound, 0, |texts|
  {
    hide Nested, NoTopComma, ParseType;
    if texts != [] {
      ParsedIsOnePiece(texts[0]);
      ParsedListIsNested(texts[1..], bound);
      assert texts == [texts[0]] + texts[1..];
    }
  }

  // ---------------------------------------------------------------- bare type lists

  lemma TwoTypesAreNotOne(ts: seq<AbiType>)
    requires |ts| > 1
    ensures ParseType(PrintAll(ts)).None?
  {
    hide ParseType, Nested, Depth, Print;
    var s, first := PrintAll(ts), Print(ts[0]);
    ParsePrintRoundTrip(ts[0]);
    ParsedIsOnePiece(first);
    NestedHasNoDepth(first);
    assert s[..|first|] == first && s[|first|] == ',';
    assert !NoTopComma(s);
    if ParseType(s).Some? {
      ParsedIsOnePiece(s);
    }
  }

  lemma NestedHasNoDepth(s: string)
    requires Nested(s)
    ensures Depth(s) == 0
  {
  }

  /**
   * `decode` on a bare list that starts with a parenthesis, for any data at
   * all: a lone tuple is taken for the list of its components, and everything
   * else is refused.
   */
  lemma BareListIsMisread(ts: seq<AbiType>, data: seq<Byte>)
    requires ts != [] && StartsTuple(PrintAll(ts))
    ensures DecodeTyped(PrintAll(ts), data)
            == if |ts| == 1 && ts[0].Tuple? then DecodeTuple(ts[0].components, data, 0) else None
  {
    hide ParseType, DecodeTuple, Print;
    if |ts| > 1 {
      TwoTypesAreNotOne(ts);
    } else {
      ParsePrintRoundTrip(ts[0]);
    }
  }

  /** The type `decode` works with. */
  function ReadAs(text: string): Option<AbiType> { ParseType(if StartsTuple(text) then text else "(" + text + ")") }

  /** A bare list is read as the list it spells if and only if it does not start with a parenthesis. */
  lemma BareListIsReadIff(ts: seq<AbiType>)
    ensures ReadAs(PrintAll(ts)) == Some(Tuple(ts)) <==> !StartsTuple(PrintAll(ts))
  {
    hide ParseType, PrintAll;
    if StartsTuple(PrintAll(ts)) {
      NotEmptyList(ts);
      if |ts| > 1 {
        TwoTypesAreNotOne(ts);
      } else {
        OneTypeList(ts);
        ParsePrintRoundTrip(ts[0]);
        assert ts[0] in ts;
      }
    } else {
      ParsePrintRoundTrip(Tuple(ts));
    }
  }

  lemma NotEmptyList(ts: seq<AbiType>)
    requires StartsTuple(PrintAll(ts))
    ensures ts != []
  {
  }

  lemma OneTypeList(ts: seq<AbiType>)
    requires |ts| == 1
    ensures PrintAll(ts) == Print(ts[0])
  {
  }

  lemma OneStaticPart(t: AbiType, part: seq<Byte>)
    requires !IsDynamic(t)
    ensures Layout([t], [part]) == part
  {
    hide IsDynamic, StaticSize;
    assert [t][1..] == [] && [part][1..] == [];
    assert Heads([t], [part], HeadSize([t])) == part + [] && Tails([t], [part]) == [];
  }

  lemma OnePart(t: AbiType, v: Value)
    requires Encode(t, v).Some?
    ensures EncodeAll([t], [v]) == Some([Encode(t, v).value])
  {
    hide Encode;
    assert [t][1..] == [] && [v][1..] == [];
    assert [Encode(t, v).value] + [] == [Encode(t, v).value];
  }

  /**
   * A lone static tuple, written without outer parentheses, is decoded without
   * complaint, and what comes back is its components in the tuple's place: for
   * "(uint8)" and the one-tuple (7), the number 7.
   */
  lemma LoneTupleLosesItsParentheses(us: seq<AbiType>, ws: seq<Value>)
    requires |us| == |ws| && AllWellFormed(us, ws) && !AnyDynamic(us)
    ensures EncodeAll([Tuple(us)], [List(ws)]).Some?
    ensures var data := Layout([Tuple(us)], EncodeAll([Tuple(us)], [List(ws)]).value);
            |data| < Limit() ==> DecodeTyped(PrintAll([Tuple(us)]), data) == Some(ws)
    ensures [List(ws)] != ws
  {
    hide Layout, DecodeTuple, Pow256, EncodeAll, AllWellFormed, AnyDynamic, ParseType, DecodeTyped;
    var t, v := Tuple(us), List(ws);
    AllEncode(us, ws);
    var data := Layout(us, EncodeAll(us, ws).value);
    OnePart(t, v);
    OneStaticPart(t, data);
    OneTypeList([t]);
    BareListIsMisread([t], data);
    if |data| < Limit() {
      assert data[0..|data|] == data;
      DecodeLayoutAt(us, ws, data, 0);
    }
  }
}
