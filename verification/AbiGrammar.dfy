/** Which texts the type parser accepts, and as what: a grammar of its own, met in both directions. */
module AbiGrammar {
  import opened Options
  import opened Decimal
  import opened AbiTypes

  /** White space and line ends as the language standard counts them (ECMA-262, sections 12.2 and 12.3). */
  predicate IsWhite(c: char) {
    c == ' ' || c == '\t' || c as int in {0xB, 0xC, 0xA0, 0x1680, 0x202F, 0x205F, 0x3000, 0xFEFF}
    || 0x2000 <= c as int <= 0x200A || EndsLine(c)
  }

  predicate EndsLine(c: char) { c == '\n' || c == '\r' || c as int in {0x2028, 0x2029} }

  lemma WhiteIsSpace()
    ensures forall c :: IsWhite(c) <==> IsSpace(c)
    ensures forall c :: EndsLine(c) <==> IsLineBreak(c)
  {
  }

  predicate Blank(s: string) { forall i :: 0 <= i < |s| ==> IsWhite(s[i]) }

  /** The text is `s` with nothing but white space around it. */
  ghost predicate Surrounds(text: string, s: string) {
    && (s != "" ==> !IsWhite(s[0]) && !IsWhite(s[|s| - 1]))
    && exists a, b :: Blank(a) && Blank(b) && text == a + s + b
  }

  /** Digits that stand for a number, or nothing for the default. */
  predicate Counts(digits: string, n: nat, default: nat) {
    AllDigits(digits) && n == if digits == "" then default else Value(digits)
  }

  predicate HasLength(digits: string, length: Option<nat>) {
    AllDigits(digits) && length == if digits == "" then None else Some(Value(digits))
  }

  predicate OneLine(s: string) { forall k :: 0 <= k < |s| ==> !EndsLine(s[k]) }

  /** The text is cut into one piece for each component; a blank text is none. */
  ghost predicate CutsInto(pieces: seq<string>, s: string, n: nat)
    ensures CutsInto(pieces, s, n) ==> |pieces| >= n
  {
    CutsOf(pieces, s) && if n == 0 then |pieces| == 1 && Blank(pieces[0]) else |pieces| == n && !Blank(s)
  }

  /** The text spells the type, give or take white space and leading zeros. */
  ghost predicate Spells(text: string, t: AbiType)
    decreases t
  {
    match t
    case UInt(bits) => exists d :: Counts(d, bits, 256) && Surrounds(text, "uint" + d)
    case SInt(bits) => exists d :: Counts(d, bits, 256) && Surrounds(text, "int" + d)
    case Address => Surrounds(text, "address")
    case Bool => Surrounds(text, "bool")
    case BytesN(n) => exists d :: d != "" && Counts(d, n, 0) && Surrounds(text, "bytes" + d)
    case Bytes => Surrounds(text, "bytes")
    case Str => Surrounds(text, "string")
    case Array(inner, length) =>
      exists i, d :: HasLength(d, length) && OneLine(i) && Surrounds(text, i + "[" + d + "]") && Spells(i, inner)
    case Tuple(components) =>
      exists pieces :: CutsInto(pieces, Join(pieces), |components|) && Surrounds(text, "(" + Join(pieces) + ")")
                       && forall i :: 0 <= i < |components| ==> Spells(pieces[i], components[i])
  }

  // ---------------------------------------------------------------- trimming

  lemma {:induction false} TrimStartIs(s: string)
    ensures var r := TrimStart(s);
            && s[|s| - |r|..] == r && Blank(s[..|s| - |r|]) && (r != "" ==> !IsWhite(r[0]))
  {
    WhiteIsSpace();
    hide IsWhite, IsSpace, EndsLine, IsLineBreak;
    if s != "" && IsWhite(s[0]) {
      TrimStartIs(s[1..]);
      var cut := |s| - |TrimStart(s)|;
      assert s[cut..] == s[1..][cut - 1..] && s[..cut] == [s[0]] + s[1..][..cut - 1];
    }
  }

  lemma {:induction false} TrimEndIs(s: string)
    ensures var r := TrimEnd(s);
            && s[..|r|] == r && Blank(s[|r|..]) && (r != "" ==> !IsWhite(r[|r| - 1]))
  {
    WhiteIsSpace();
    hide IsWhite, IsSpace, EndsLine, IsLineBreak;
    if s != "" && IsWhite(s[|s| - 1]) {
      var n := |s| - 1;
      TrimEndIs(s[..n]);
      var cut := |TrimEnd(s)|;
      assert s[..cut] == s[..n][..cut] && s[cut..] == s[..n][cut..] + [s[n]];
    }
  }

  lemma TrimSurrounds(text: string)
    ensures Surrounds(text, Trim(text))
  {
    hide TrimStart, TrimEnd;
    var s := TrimStart(text);
    var r := TrimEnd(s);
    TrimStartIs(text);
    TrimEndIs(s);
    var a, b := text[..|text| - |s|], s[|r|..];
    assert text == a + s && s == r + b;
    assert text == a + r + b;
    assert r != "" ==> r[0] == s[0];
  }

  lemma {:induction false} StripsFront(a: string, s: string)
    requires Blank(a) && (s != "" ==> !IsWhite(s[0]))
    ensures TrimStart(a + s) == s
  {
    WhiteIsSpace();
    hide IsWhite, IsSpace, EndsLine, IsLineBreak;
    if a == "" {
      assert a + s == s;
    } else {
      assert (a + s)[1..] == a[1..] + s;
      StripsFront(a[1..], s);
    }
  }

  lemma {:induction false} StripsBack(s: string, b: string)
    requires Blank(b) && (s != "" ==> !IsWhite(s[|s| - 1]))
    ensures TrimEnd(s + b) == s
  {
    WhiteIsSpace();
    hide IsWhite, IsSpace, EndsLine, IsLineBreak;
    if b == "" {
      assert s + b == s;
    } else {
      assert (s + b)[..|s + b| - 1] == s + b[..|b| - 1];
      StripsBack(s, b[..|b| - 1]);
    }
  }

  /** Trimming is the one way to take the white space off. */
  lemma TrimIff(text: string, s: string)
    ensures Trim(text) == s <==> Surrounds(text, s)
  {
    hide TrimStart, TrimEnd;
    TrimSurrounds(text);
    if Surrounds(text, s) {
      var a, b :| Blank(a) && Blank(b) && text == a + s + b;
      if s == "" {
        BlankTrims(a + b);
        assert text == a + b;
      } else {
        assert a + s + b == a + (s + b);
        StripsFront(a, s + b);
        StripsBack(s, b);
      }
    }
  }

  lemma {:induction false} BlankTrims(s: string)
    requires Blank(s)
    ensures Trim(s) == ""
  {
    assert s + "" == s;
    StripsFront(s, "");
  }

  lemma BlankIff(s: string)
    ensures Trim(s) == "" <==> Blank(s)
  {
    hide Trim;
    TrimIff(s, "");
    if Blank(s) {
      assert s == s + "" + "" && Blank("");
    }
    if Surrounds(s, "") {
      var a, b :| Blank(a) && Blank(b) && s == a + "" + b;
    }
  }

  // ---------------------------------------------------------------- one-word and short types

  /** The type's own words and digits, with no white space. */
  ghost predicate SpellsElementary(s: string, t: AbiType) {
    match t
    case UInt(bits) => exists d :: Counts(d, bits, 256) && s == "uint" + d
    case SInt(bits) => exists d :: Counts(d, bits, 256) && s == "int" + d
    case Address => s == "address"
    case Bool => s == "bool"
    case BytesN(n) => exists d :: d != "" && Counts(d, n, 0) && s == "bytes" + d
    case Bytes => s == "bytes"
    case Str => s == "string"
    case Array(_, _) => false
    case Tuple(_) => false
  }

  lemma ReadsDigits(s: string, word: string, d: string)
    requires s == word + d
    ensures |s| >= |word| && s[..|word|] == word && s[|word|..] == d
  {
  }

  lemma StartsOtherwise(s: string, word: string)
    requires s != "" && word != "" && s[0] != word[0]
    ensures |s| >= |word| ==> s[..|word|] != word
  {
    assert |s| >= |word| ==> s[..|word|][0] == s[0];
  }

  lemma ElementaryIsSpelled(s: string, t: AbiType)
    requires Elementary(s) == Some(t)
    ensures SpellsElementary(s, t)
  {
    hide Value, AllDigits;
    match t
    case UInt(bits) => assert s == "uint" + s[4..] && Counts(s[4..], bits, 256);
    case SInt(bits) => assert s == "int" + s[3..] && Counts(s[3..], bits, 256);
    case BytesN(n) => assert s == "bytes" + s[5..] && Counts(s[5..], n, 0);
    case _ =>
  }

  lemma SpelledIsElementary(s: string, t: AbiType)
    requires SpellsElementary(s, t)
    ensures Elementary(s) == Some(t)
  {
    match t
    case UInt(bits) =>
      var d :| Counts(d, bits, 256) && s == "uint" + d;
      ReadsDigits(s, "uint", d);
    case SInt(bits) =>
      var d :| Counts(d, bits, 256) && s == "int" + d;
      ReadsDigits(s, "int", d);
      assert s[0] == 'i';
    case BytesN(n) =>
      var d :| d != "" && Counts(d, n, 0) && s == "bytes" + d;
      ReadsDigits(s, "bytes", d);
      assert s[0] == 'b' && s[1] == 'y';
    case Array(_, _) =>
    case Tuple(_) =>
    case _ =>
      StartsOtherwise(s, "uint");
      StartsOtherwise(s, "int");
      if !t.Bytes? && !t.Bool? {
        StartsOtherwise(s, "bytes");
      }
  }

  lemma ElementaryIff(s: string, t: AbiType)
    ensures Elementary(s) == Some(t) <==> SpellsElementary(s, t)
  {
    hide Elementary, SpellsElementary;
    if Elementary(s) == Some(t) {
      ElementaryIsSpelled(s, t);
    }
    if SpellsElementary(s, t) {
      SpelledIsElementary(s, t);
    }
  }

  /** It starts with a letter and ends with a letter or a digit. */
  lemma ElementaryEnds(s: string, t: AbiType)
    requires SpellsElementary(s, t)
    ensures s != "" && !IsWhite(s[0]) && !IsWhite(s[|s| - 1]) && s[0] != '(' && s[|s| - 1] != ']'
    ensures s[|s| - 1] != ')'
  {
  }

  // ---------------------------------------------------------------- arrays

  lemma ArraySuffixIff(s: string, inner: string, d: string)
    ensures ArraySuffix(s) == Some((inner, d))
            <==> AllDigits(d) && s == inner + "[" + d + "]" && OneLine(inner)
  {
    WhiteIsSpace();
    hide IsWhite, IsSpace, EndsLine, IsLineBreak;
    var text := inner + "[" + d + "]";
    if AllDigits(d) && s == text {
      LastBracket(inner, d);
      assert s[..|s| - 1] == inner + "[" + d;
      assert s[..|inner|] == inner && s[|inner| + 1..|s| - 1] == d;
    }
    if ArraySuffix(s) == Some((inner, d)) {
      var i, last := AfterBracket(s), |s| - 1;
      assert s == s[..i - 1] + [s[i - 1]] + s[i..last] + [s[last]];
    }
  }

  lemma LastBracket(inner: string, d: string)
    requires AllDigits(d)
    ensures AfterBracket(inner + "[" + d + "]") == |inner| + 1
  {
    hide AfterBracket;
    DigitsThenClosed(d);
    hide AllDigits;
    assert inner + "[" + d + "]" == (inner + "[") + (d + "]");
    NoneBehind(inner + "[", d + "]");
  }

  predicate NoBracket(s: string) { forall k :: 0 <= k < |s| ==> s[k] != '[' }

  lemma DigitsThenClosed(d: string)
    requires AllDigits(d)
    ensures NoBracket(d + "]")
  {
  }

  lemma NoneBehind(head: string, rest: string)
    requires head != "" && head[|head| - 1] == '[' && NoBracket(rest)
    ensures AfterBracket(head + rest) == |head|
  {
    hide AfterBracket;
    var s := head + rest;
    forall k | |head| <= k < |s| ensures s[k] != '[' {
      assert s[k] == rest[k - |head|];
    }
    BracketAt(s, |head|);
  }

  lemma BracketAt(s: string, at: nat)
    requires 1 <= at <= |s| && s[at - 1] == '[' && forall k :: at <= k < |s| ==> s[k] != '['
    ensures AfterBracket(s) == at
  {
    hide AfterBracket;
  }

  // ---------------------------------------------------------------- tuples

  lemma {:induction false} ParseAllIff(texts: seq<string>, bound: nat, ts: seq<AbiType>)
    requires forall i :: 0 <= i < |texts| ==> |texts[i]| < bound
    ensures ParseAll(texts, bound) == Some(ts)
            <==> |texts| == |ts| && forall i :: 0 <= i < |texts| ==> ParseType(texts[i]) == Some(ts[i])
    decreases |texts|
  {
    hide ParseType;
    if texts != [] && ts != [] {
      ParseAllIff(texts[1..], bound, ts[1..]);
      assert forall i :: 0 < i < |texts| ==> texts[i] == texts[1..][i - 1];
      assert forall i :: 0 < i < |ts| ==> ts[i] == ts[1..][i - 1];
      assert forall i :: 0 <= i < |texts| - 1 ==> texts[1..][i] == texts[i + 1];
      assert forall i :: 0 <= i < |ts| - 1 ==> ts[1..][i] == ts[i + 1];
      assert ts == [ts[0]] + ts[1..];
    }
  }

  /** Blank text is one blank piece, which the loop drops; any other text is its pieces. */
  lemma SplitIs(s: string)
    ensures CutsOf(Pieces(s, 0, ""), s)
    ensures Blank(s) ==> Pieces(s, 0, "") == [s] && Split(s) == []
    ensures !Blank(s) ==> Split(s) == Pieces(s, 0, "")
  {
    hide Pieces, Trim;
    CutsAreUnique(Pieces(s, 0, ""), s);
    BlankIff(s);
    if Blank(s) {
      BlankIsUncut(s);
      CutsAreUnique([s], s);
    }
  }

  lemma BlankIsUncut(s: string)
    requires Blank(s)
    ensures CutsOf([s], s)
  {
    NoTopCommaInBlank(s);
  }

  lemma NoTopCommaInBlank(s: string)
    requires Blank(s)
    ensures NoTopComma(s)
  {
  }

  /** The pieces between the brackets are the components' texts; blank text is no component. */
  ghost predicate AreComponents(pieces: seq<string>, inside: string, ts: seq<AbiType>) {
    CutsInto(pieces, inside, |ts|) && forall i :: 0 <= i < |ts| ==> ParseType(pieces[i]) == Some(ts[i])
  }

  lemma BracketsIff(inside: string, bound: nat, ts: seq<AbiType>)
    requires |inside| < bound
    ensures forall i :: 0 <= i < |Split(inside)| ==> |Split(inside)[i]| < bound
    ensures ParseAll(Split(inside), bound) == Some(ts)
            <==> exists pieces :: AreComponents(pieces, inside, ts)
  {
    hide Pieces, Split, ParseType, ParseAll, Blank, CutsOf;
    PiecesAreShort(inside, 0, "");
    SplitIs(inside);
    ParseAllIff(Split(inside), bound, ts);
    var cuts := Pieces(inside, 0, "");
    forall pieces | CutsOf(pieces, inside) ensures pieces == cuts {
      CutsAreUnique(pieces, inside);
    }
    if |cuts| == 1 {
      OneCut(cuts, inside);
    }
    if ParseAll(Split(inside), bound) == Some(ts) {
      assert AreComponents(cuts, inside, ts);
    }
  }

  lemma OneCut(cuts: seq<string>, s: string)
    requires CutsOf(cuts, s) && |cuts| == 1
    ensures cuts == [s]
  {
  }

  // ---------------------------------------------------------------- every type

  lemma ArrayParsedIff(text: string, inner: AbiType, length: Option<nat>)
    ensures ParseType(text) == Some(Array(inner, length))
            <==> exists i, d :: HasLength(d, length) && OneLine(i) && Trim(text) == i + "[" + d + "]"
                                && ParseType(i) == Some(inner)
  {
    var s := Trim(text);
    var suffix := ArraySuffix(s);
    hide Trim, Elementary, ArraySuffix, Value;
    if suffix.Some? {
      ArraySuffixIff(s, suffix.value.0, suffix.value.1);
      if ParseType(text) == Some(Array(inner, length)) {
        assert HasLength(suffix.value.1, length) && OneLine(suffix.value.0);
      }
    }
    forall i, d | AllDigits(d) && OneLine(i) && s == i + "[" + d + "]"
      ensures suffix == Some((i, d))
    {
      ArraySuffixIff(s, i, d);
    }
    if suffix.None? {
      NeverAnArray(s, inner, length);
    }
  }

  lemma NeverAnArray(s: string, inner: AbiType, length: Option<nat>)
    ensures Elementary(s) != Some(Array(inner, length))
  {
  }

  lemma Unbracketed(s: string, inside: string)
    requires s == "(" + inside + ")"
    ensures |s| >= 2 && s[0] == '(' && s[|s| - 1] == ')' && s[1..|s| - 1] == inside && ArraySuffix(s).None?
  {
  }

  ghost predicate Bracketed(text: string, inside: string) { Trim(text) == "(" + inside + ")" }

  lemma TupleParsedIff(text: string, ts: seq<AbiType>)
    ensures ParseType(text) == Some(Tuple(ts))
            <==> exists inside, pieces :: Bracketed(text, inside) && AreComponents(pieces, inside, ts)
  {
    var s := Trim(text);
    hide Trim, Elementary, ArraySuffix, Split, AreComponents, ParseAll;
    forall inside | s == "(" + inside + ")"
      ensures ParseType(text) == Some(Tuple(ts)) <==> exists pieces :: AreComponents(pieces, inside, ts)
    {
      Unbracketed(s, inside);
      BracketsIff(inside, |text|, ts);
    }
    if ParseType(text) == Some(Tuple(ts)) {
      NeverATuple(s, ts);
      assert Bracketed(text, s[1..|s| - 1]);
    }
  }

  lemma NeverATuple(s: string, ts: seq<AbiType>)
    ensures Elementary(s) != Some(Tuple(ts))
  {
  }

  lemma ElementaryParsedIff(text: string, t: AbiType)
    requires !t.Array? && !t.Tuple?
    ensures ParseType(text) == Some(t) <==> SpellsElementary(Trim(text), t)
  {
    var s := Trim(text);
    hide Trim, Elementary, SpellsElementary, Split, ParseAll;
    ElementaryIff(s, t);
    if SpellsElementary(s, t) {
      ElementaryEnds(s, t);
    }
  }

  /** The parser accepts a text as a type if and only if the text spells the type. */
  lemma {:induction false} AcceptedIffSpelled(text: string, t: AbiType)
    ensures ParseType(text) == Some(t) <==> Spells(text, t)
    decreases t, 0
  {
    hide ParseType, Trim;
    match t
    case Array(inner, length) => ArraySpelledIff(text, inner, length);
    case Tuple(components) => TupleSpelledIff(text, components);
    case _ =>
      ElementaryParsedIff(text, t);
      ElementarySpelledIff(text, t);
  }

  lemma ElementarySpelledIff(text: string, t: AbiType)
    requires !t.Array? && !t.Tuple?
    ensures Spells(text, t) <==> SpellsElementary(Trim(text), t)
  {
    hide Trim, Surrounds, Counts;
    var s := Trim(text);
    forall x ensures Surrounds(text, x) <==> s == x {
      TrimIff(text, x);
    }
  }

  lemma ArraySpelledIff(text: string, inner: AbiType, length: Option<nat>)
    ensures ParseType(text) == Some(Array(inner, length)) <==> Spells(text, Array(inner, length))
    decreases inner, 1
  {
    hide *;
    ArrayParsedIff(text, inner, length);
    forall x ensures Surrounds(text, x) <==> Trim(text) == x {
      TrimIff(text, x);
    }
    forall i ensures ParseType(i) == Some(inner) <==> Spells(i, inner) {
      AcceptedIffSpelled(i, inner);
    }
    SpellsArray(text, inner, length);
  }

  lemma SpellsArray(text: string, inner: AbiType, length: Option<nat>)
    ensures Spells(text, Array(inner, length))
            <==> exists i, d :: HasLength(d, length) && OneLine(i) && Surrounds(text, i + "[" + d + "]")
                                && Spells(i, inner)
  {
    hide Surrounds, HasLength, OneLine;
  }

  lemma TupleSpelledIff(text: string, ts: seq<AbiType>)
    ensures ParseType(text) == Some(Tuple(ts)) <==> Spells(text, Tuple(ts))
    decreases ts, 1
  {
    hide *;
    TupleParsedIff(text, ts);
    if ParseType(text) == Some(Tuple(ts)) {
      var inside, pieces :| Bracketed(text, inside) && AreComponents(pieces, inside, ts);
      SamePieces(pieces, inside, ts);
      CutsJoin(pieces, inside, ts);
      BracketedIff(text, inside);
      SpelledBy(text, pieces, ts);
    }
    if Spells(text, Tuple(ts)) {
      var pieces := SpellsTuple(text, ts);
      SamePieces(pieces, Join(pieces), ts);
      BracketedIff(text, Join(pieces));
    }
  }

  lemma BracketedIff(text: string, inside: string)
    ensures Bracketed(text, inside) <==> Surrounds(text, "(" + inside + ")")
  {
    hide Trim, Surrounds;
    TrimIff(text, "(" + inside + ")");
  }

  ghost predicate AreSpelled(pieces: seq<string>, inside: string, ts: seq<AbiType>) {
    CutsInto(pieces, inside, |ts|) && forall i :: 0 <= i < |ts| ==> Spells(pieces[i], ts[i])
  }

  lemma SamePieces(pieces: seq<string>, inside: string, ts: seq<AbiType>)
    ensures AreComponents(pieces, inside, ts) <==> AreSpelled(pieces, inside, ts)
    decreases ts, 0
  {
    hide CutsInto, ParseType, Spells;
    if CutsInto(pieces, inside, |ts|) {
      forall i | 0 <= i < |ts| ensures ParseType(pieces[i]) == Some(ts[i]) <==> Spells(pieces[i], ts[i]) {
        AcceptedIffSpelled(pieces[i], ts[i]);
      }
    }
  }

  lemma CutsJoin(pieces: seq<string>, inside: string, ts: seq<AbiType>)
    requires AreSpelled(pieces, inside, ts)
    ensures inside == Join(pieces)
  {
    hide Spells;
  }

  lemma SpellsTuple(text: string, ts: seq<AbiType>) returns (pieces: seq<string>)
    requires Spells(text, Tuple(ts))
    ensures AreSpelled(pieces, Join(pieces), ts) && Surrounds(text, "(" + Join(pieces) + ")")
  {
    hide Surrounds, CutsInto, Join;
    pieces :| CutsInto(pieces, Join(pieces), |ts|) && Surrounds(text, "(" + Join(pieces) + ")")
              && forall i :: 0 <= i < |ts| ==> Spells(pieces[i], ts[i]);
  }

  lemma SpelledBy(text: string, pieces: seq<string>, ts: seq<AbiType>)
    requires AreSpelled(pieces, Join(pieces), ts) && Surrounds(text, "(" + Join(pieces) + ")")
    ensures Spells(text, Tuple(ts))
  {
    hide Surrounds, CutsInto, Join;
    assert CutsInto(pieces, Join(pieces), |ts|);
  }
}
