/** ABI type strings: the canonical spelling of a type tree and the parser that reads it back. */
module AbiTypes {
  import opened Options
  import opened Decimal

  datatype AbiType =
    | UInt(bits: nat)
    | SInt(bits: nat)
    | Address
    | Bool
    | BytesN(n: nat)
    | Bytes
    | Str
    | Array(inner: AbiType, length: Option<nat>)
    | Tuple(components: seq<AbiType>)

  // ---------------------------------------------------------------- printing

  function Print(t: AbiType): string
    decreases t, 0
  {
    match t
    case UInt(bits) => "uint" + Spell(bits)
    case SInt(bits) => "int" + Spell(bits)
    case Address => "address"
    case Bool => "bool"
    case BytesN(n) => "bytes" + Spell(n)
    case Bytes => "bytes"
    case Str => "string"
    case Array(inner, length) => Print(inner) + "[" + (if length.None? then "" else Spell(length.value)) + "]"
    case Tuple(components) => "(" + PrintAll(components) + ")"
  }

  function PrintAll(ts: seq<AbiType>): string
    decreases ts, 1
  {
    if ts == [] then ""
    else if |ts| == 1 then Print(ts[0])
    else Print(ts[0]) + "," + PrintAll(ts[1..])
  }

  function Spellings(ts: seq<AbiType>): seq<string> {
    if ts == [] then [] else [Print(ts[0])] + Spellings(ts[1..])
  }

  // ---------------------------------------------------------------- cutting at top-level commas

  /** What String.prototype.trim removes. */
  predicate IsSpace(c: char) {
    var n := c as int;
    9 <= n <= 13 || n == 0x20 || n == 0xA0 || n == 0x1680 || 0x2000 <= n <= 0x200A || n == 0x2028 || n == 0x2029
    || n == 0x202F || n == 0x205F || n == 0x3000 || n == 0xFEFF
  }

  predicate IsLineBreak(c: char) { c == '\n' || c == '\r' || c as int == 0x2028 || c as int == 0x2029 }

  function TrimStart(s: string): (r: string)
    ensures |r| <= |s|
  {
    if s != "" && IsSpace(s[0]) then TrimStart(s[1..]) else s
  }

  function TrimEnd(s: string): (r: string)
    ensures |r| <= |s|
  {
    if s != "" && IsSpace(s[|s| - 1]) then TrimEnd(s[..|s| - 1]) else s
  }

  function Trim(s: string): (r: string)
    ensures |r| <= |s|
  {
    TrimEnd(TrimStart(s))
  }

  /** The pieces of `s` between its commas at depth 0, counted from `depth`; `piece` has been read so far. */
  function Pieces(s: string, depth: int, piece: string): (r: seq<string>)
    ensures r != []
    decreases |s|
  {
    if s == "" then [piece]
    else if s[0] == ',' && depth == 0 then [piece] + Pieces(s[1..], 0, "")
    else
      Pieces(s[1..], depth + (if s[0] == '(' then 1 else if s[0] == ')' then -1 else 0), piece + [s[0]])
  }

  function Split(s: string): seq<string> {
    var all := Pieces(s, 0, "");
    if Trim(s) == "" then all[..|all| - 1] else all
  }

  /** The parentheses open after the first characters of `s`, less those closed. */
  function Depth(s: string): int {
    if s == "" then 0
    else Depth(s[..|s| - 1]) + (match s[|s| - 1] case '(' => 1 case ')' => -1 case _ => 0)
  }

  /** One more character read. */
  lemma PiecesStep(s: string, i: nat, depth: int, piece: string)
    requires i < |s|
    ensures Pieces(s[i..], depth, piece)
            == if s[i] == ',' && depth == 0 then [piece] + Pieces(s[i + 1..], 0, "")
               else Pieces(s[i + 1..], depth + (if s[i] == '(' then 1 else if s[i] == ')' then -1 else 0),
                           piece + [s[i]])
    ensures Depth(s[..i + 1]) == Depth(s[..i]) + (if s[i] == '(' then 1 else if s[i] == ')' then -1 else 0)
  {
    assert s[..i + 1][..i] == s[..i] && s[i..][1..] == s[i + 1..];
  }

  lemma NothingRead(s: string)
    ensures Depth(s[..0]) == 0 && s[0..] == s && s[0..0] == "" && [] + Pieces(s, 0, "") == Pieces(s, 0, "")
  {
  }

  lemma NothingLeft(depth: int, piece: string)
    ensures Pieces("", depth, piece) == [piece]
  {
  }

  lemma OneMoreChar(s: string, start: nat, i: nat)
    requires start <= i < |s|
    ensures s[start..i + 1] == s[start..i] + [s[i]] && s[i + 1..i + 1] == ""
  {
  }

  method SplitTop(s: string) returns (out: seq<string>)
    ensures out == Split(s)
  {
    out := [];
    var depth, start, i := 0, 0, 0;
    NothingRead(s);
    hide Pieces, Depth, Trim;
    while i < |s|
      invariant 0 <= start <= i <= |s| && depth == Depth(s[..i])
      invariant Pieces(s, 0, "") == out + Pieces(s[i..], depth, s[start..i])
    {
      PiecesStep(s, i, depth, s[start..i]);
      OneMoreChar(s, start, i);
      if s[i] == '(' {
        depth := depth + 1;
      } else if s[i] == ')' {
        depth := depth - 1;
      } else if s[i] == ',' && depth == 0 {
        assert out + ([s[start..i]] + Pieces(s[i + 1..], 0, "")) == out + [s[start..i]] + Pieces(s[i + 1..], 0, "");
        out := out + [s[start..i]];
        start := i + 1;
      }
      i := i + 1;
    }
    NothingLeft(depth, s[start..]);
    assert s[i..] == "" && s[start..] == s[start..i];
    assert (out + [s[start..]])[..|out|] == out;
    if Trim(s) != "" {
      out := out + [s[start..]];
    }
  }

  function Join(pieces: seq<string>): string {
    if pieces == [] then "" else if |pieces| == 1 then pieces[0] else pieces[0] + "," + Join(pieces[1..])
  }

  /** Nothing is lost: the pieces, with their commas back, are the text. */
  lemma {:induction false} PiecesJoinBack(s: string, depth: int, piece: string)
    ensures Join(Pieces(s, depth, piece)) == piece + s
    decreases |s|
  {
    if s == "" {
      assert piece + s == piece;
    } else if s[0] == ',' && depth == 0 {
      PiecesJoinBack(s[1..], 0, "");
      var rest := Pieces(s[1..], 0, "");
      assert Pieces(s, depth, piece)[1..] == rest && s == "," + s[1..];
      assert piece + "," + s[1..] == piece + s;
    } else {
      var next := depth + (if s[0] == '(' then 1 else if s[0] == ')' then -1 else 0);
      PiecesJoinBack(s[1..], next, piece + [s[0]]);
      assert piece + [s[0]] + s[1..] == piece + s;
    }
  }

  predicate NoTopComma(s: string) { forall i :: 0 <= i < |s| && s[i] == ',' ==> Depth(s[..i]) != 0 }

  /** And nothing is left uncut: no piece has a comma at depth 0 of its own. */
  lemma {:induction false} PiecesAreUncuttable(s: string, depth: int, piece: string)
    requires NoTopComma(piece) && depth == Depth(piece)
    ensures forall i :: 0 <= i < |Pieces(s, depth, piece)| ==> NoTopComma(Pieces(s, depth, piece)[i])
    decreases |s|
  {
    hide NoTopComma;
    if s != "" {
      if s[0] == ',' && depth == 0 {
        assert NoTopComma("") by { NoCommaInEmpty(); }
        PiecesAreUncuttable(s[1..], 0, "");
      } else {
        ExtendPiece(piece, s[0]);
        PiecesAreUncuttable(s[1..], depth + (if s[0] == '(' then 1 else if s[0] == ')' then -1 else 0), piece + [s[0]]);
      }
    }
  }

  /** Every cut is where as many parentheses are closed as opened: only the last piece can be unbalanced. */
  lemma {:induction false} PiecesAreBalanced(s: string, depth: int, piece: string)
    requires depth == Depth(piece)
    ensures forall i :: 0 <= i < |Pieces(s, depth, piece)| - 1 ==> Depth(Pieces(s, depth, piece)[i]) == 0
    decreases |s|
  {
    if s != "" {
      if s[0] == ',' && depth == 0 {
        PiecesAreBalanced(s[1..], 0, "");
      } else {
        assert (piece + [s[0]])[..|piece + [s[0]]| - 1] == piece;
        PiecesAreBalanced(s[1..], depth + (if s[0] == '(' then 1 else if s[0] == ')' then -1 else 0), piece + [s[0]]);
      }
    }
  }

  lemma NoCommaInEmpty()
    ensures NoTopComma("")
  {
  }

  lemma ExtendPiece(piece: string, c: char)
    requires NoTopComma(piece) && (c == ',' ==> Depth(piece) != 0)
    ensures NoTopComma(piece + [c])
    ensures Depth(piece + [c]) == Depth(piece) + (if c == '(' then 1 else if c == ')' then -1 else 0)
  {
    var s := piece + [c];
    assert s[..|piece|] == piece;
    assert forall i :: 0 <= i < |piece| ==> s[i] == piece[i] && s[..i] == piece[..i];
  }

  // ---------------------------------------------------------------- parsing

  /** The place just after the last opening bracket, or 0. */
  function AfterBracket(s: string): (i: nat)
    ensures i <= |s| && (i > 0 ==> s[i - 1] == '[') && forall k :: i <= k < |s| ==> s[k] != '['
  {
    if s == "" then 0 else if s[|s| - 1] == '[' then |s| else AfterBracket(s[..|s| - 1])
  }

  /** The pattern ^(.*)\[(\d*)\]$: the element type's text and the digits of the length. */
  function ArraySuffix(s: string): (r: Option<(string, string)>)
    ensures r.Some? ==> |r.value.0| < |s| && AllDigits(r.value.1)
  {
    if s == "" || s[|s| - 1] != ']' then None
    else
      var i, last := AfterBracket(s), |s| - 1;
      if 0 < i <= last && AllDigits(s[i..last]) && forall k :: 0 <= k < i - 1 ==> !IsLineBreak(s[k]) then
        Some((s[..i - 1], s[i..last]))
      else None
  }

  function Elementary(s: string): Option<AbiType> {
    if |s| >= 4 && s[..4] == "uint" && AllDigits(s[4..]) then Some(UInt(if s[4..] == "" then 256 else Value(s[4..])))
    else if |s| >= 3 && s[..3] == "int" && AllDigits(s[3..]) then
      Some(SInt(if s[3..] == "" then 256 else Value(s[3..])))
    else if s == "address" then Some(Address)
    else if s == "bool" then Some(Bool)
    else if |s| > 5 && s[..5] == "bytes" && AllDigits(s[5..]) then Some(BytesN(Value(s[5..])))
    else if s == "bytes" then Some(Bytes)
    else if s == "string" then Some(Str)
    else None
  }

  function ParseType(text: string): Option<AbiType>
    decreases |text|, 0
  {
    var s := Trim(text);
    var suffix := ArraySuffix(s);
    if suffix.Some? then
      match ParseType(suffix.value.0)
      case None => None
      case Some(inner) => Some(Array(inner, if suffix.value.1 == "" then None else Some(Value(suffix.value.1))))
    else if s != "" && s[0] == '(' then
      if s[|s| - 1] != ')' then None
      else
        PiecesAreShort(s[1..|s| - 1], 0, "");
        match ParseAll(Split(s[1..|s| - 1]), |text|)
        case None => None
        case Some(components) => Some(Tuple(components))
    else Elementary(s)
  }

  function ParseAll(texts: seq<string>, bound: nat): Option<seq<AbiType>>
    requires forall i :: 0 <= i < |texts| ==> |texts[i]| < bound
    decreases bound, 0, |texts|
  {
    if texts == [] then Some([])
    else
      match ParseType(texts[0])
      case None => None
      case Some(first) =>
        match ParseAll(texts[1..], bound)
        case None => None
        case Some(rest) => Some([first] + rest)
  }

  lemma {:induction false} PiecesAreShort(s: string, depth: int, piece: string)
    ensures forall i :: 0 <= i < |Pieces(s, depth, piece)| ==> |Pieces(s, depth, piece)[i]| <= |piece| + |s|
    decreases |s|
  {
    if s != "" {
      if s[0] == ',' && depth == 0 {
        PiecesAreShort(s[1..], 0, "");
      } else {
        PiecesAreShort(s[1..], depth + (if s[0] == '(' then 1 else if s[0] == ')' then -1 else 0), piece + [s[0]]);
      }
    }
  }

  // ---------------------------------------------------------------- reading a printed type back

  predicate Clean(s: string) { forall i :: 0 <= i < |s| ==> !IsSpace(s[i]) }

  lemma CleanIsTrimmed(s: string)
    requires Clean(s)
    ensures Trim(s) == s
  {
  }

  /** No parenthesis and no comma. */
  predicate Flat(s: string) { forall i :: 0 <= i < |s| ==> s[i] != '(' && s[i] != ')' && s[i] != ',' }

  lemma {:induction false} FlatPasses(s: string, rest: string, depth: int, piece: string)
    requires Flat(s)
    ensures Pieces(s + rest, depth, piece) == Pieces(rest, depth, piece + s)
    decreases |s|
  {
    if s == "" {
      assert s + rest == rest && piece + s == piece;
    } else {
      assert (s + rest)[1..] == s[1..] + rest && piece + [s[0]] + s[1..] == piece + s;
      FlatPasses(s[1..], rest, depth, piece + [s[0]]);
    }
  }

  lemma OnePasses(c: char, rest: string, depth: int, piece: string)
    requires c != ',' || depth != 0
    ensures Pieces([c] + rest, depth, piece)
            == Pieces(rest, depth + (if c == '(' then 1 else if c == ')' then -1 else 0), piece + [c])
  {
    assert ([c] + rest)[1..] == rest;
  }

  /** A text without a comma at depth 0 is read through. */
  lemma {:induction false} UncutPasses(p: string, k: nat, rest: string)
    requires NoTopComma(p) && k <= |p|
    ensures Pieces(p + rest, 0, "") == Pieces(p[k..] + rest, Depth(p[..k]), p[..k])
  {
    hide Pieces;
    if k == 0 {
      assert p[0..] == p && p[..0] == "";
    } else {
      UncutPasses(p, k - 1, rest);
      assert p[k - 1..] + rest == [p[k - 1]] + (p[k..] + rest);
      assert p[..k][..k - 1] == p[..k - 1] && p[..k] == p[..k - 1] + [p[k - 1]];
      OnePasses(p[k - 1], p[k..] + rest, Depth(p[..k - 1]), p[..k - 1]);
    }
  }

  predicate CutsOf(pieces: seq<string>, s: string) {
    && pieces != [] && Join(pieces) == s
    && (forall i :: 0 <= i < |pieces| ==> NoTopComma(pieces[i]))
    && (forall i :: 0 <= i < |pieces| - 1 ==> Depth(pieces[i]) == 0)
  }

  lemma {:induction false} OnlyTheseCuts(pieces: seq<string>, s: string)
    requires CutsOf(pieces, s)
    ensures pieces == Pieces(s, 0, "")
  {
    hide NoTopComma, Depth;
    var p := pieces[0];
    assert p[|p|..] == "" && p[..|p|] == p;
    if |pieces| == 1 {
      UncutPasses(p, |p|, "");
      assert p + "" == p && p[|p|..] + "" == "";
    } else {
      var rest := "," + Join(pieces[1..]);
      assert s == p + rest && p[|p|..] + rest == rest && rest[1..] == Join(pieces[1..]);
      UncutPasses(p, |p|, rest);
      OnlyTheseCuts(pieces[1..], Join(pieces[1..]));
    }
  }

  /** Cutting exactly at the commas at depth 0 is one thing only, and it is what the loop does. */
  lemma CutsAreUnique(pieces: seq<string>, s: string)
    ensures CutsOf(pieces, s) <==> pieces == Pieces(s, 0, "")
  {
    hide Pieces, NoTopComma;
    PiecesJoinBack(s, 0, "");
    NoCommaInEmpty();
    PiecesAreUncuttable(s, 0, "");
    PiecesAreBalanced(s, 0, "");
    assert "" + s == s;
    if CutsOf(pieces, s) {
      OnlyTheseCuts(pieces, s);
    }
  }

  /** A printed type is never cut, at whatever depth it stands. */
  lemma {:induction false} PrintPasses(t: AbiType, rest: string, depth: nat, piece: string)
    ensures Pieces(Print(t) + rest, depth, piece) == Pieces(rest, depth, piece + Print(t))
    decreases t, 0
  {
    hide Pieces, PrintAll;
    match t
    case Array(inner, length) =>
      var suffix := "[" + (if length.None? then "" else Spell(length.value)) + "]";
      assert Print(t) == Print(inner) + suffix && Print(t) + rest == Print(inner) + (suffix + rest);
      PrintPasses(inner, suffix + rest, depth, piece);
      FlatPasses(suffix, rest, depth, piece + Print(inner));
      assert piece + Print(inner) + suffix == piece + Print(t);
    case Tuple(components) =>
      PrintAllPasses(components, [')'] + rest, depth + 1, piece + ['(']);
      BracketedPasses(PrintAll(components), rest, depth, piece);
    case _ =>
      ElementaryIsFlat(t);
      FlatPasses(Print(t), rest, depth, piece);
  }

  lemma ElementaryIsFlat(t: AbiType)
    requires !t.Array? && !t.Tuple?
    ensures Flat(Print(t))
  {
  }

  lemma BracketedPasses(body: string, rest: string, depth: nat, piece: string)
    requires Pieces(body + ([')'] + rest), depth + 1, piece + ['('])
             == Pieces([')'] + rest, depth + 1, piece + ['('] + body)
    ensures Pieces("(" + body + ")" + rest, depth, piece) == Pieces(rest, depth, piece + ("(" + body + ")"))
  {
    hide Pieces;
    assert "(" + body + ")" + rest == ['('] + (body + ([')'] + rest));
    OnePasses('(', body + ([')'] + rest), depth, piece);
    OnePasses(')', rest, depth + 1, piece + ['('] + body);
    assert piece + ['('] + body + [')'] == piece + ("(" + body + ")");
  }

  lemma {:induction false} PrintAllPasses(ts: seq<AbiType>, rest: string, depth: nat, piece: string)
    requires depth > 0
    ensures Pieces(PrintAll(ts) + rest, depth, piece) == Pieces(rest, depth, piece + PrintAll(ts))
    decreases ts, 1
  {
    hide Pieces, Print;
    if ts == [] {
      assert PrintAll(ts) + rest == rest && piece + PrintAll(ts) == piece;
    } else if |ts| == 1 {
      PrintPasses(ts[0], rest, depth, piece);
    } else {
      var tail := PrintAll(ts[1..]);
      assert PrintAll(ts) + rest == Print(ts[0]) + ([','] + (tail + rest));
      PrintPasses(ts[0], [','] + (tail + rest), depth, piece);
      OnePasses(',', tail + rest, depth, piece + Print(ts[0]));
      PrintAllPasses(ts[1..], rest, depth, piece + Print(ts[0]) + [',']);
      assert piece + Print(ts[0]) + [','] + tail == piece + PrintAll(ts);
    }
  }

  /** Splitting a printed component list gives the printed components. */
  lemma {:induction false} SplitFindsComponents(ts: seq<AbiType>)
    requires ts != []
    ensures Pieces(PrintAll(ts), 0, "") == Spellings(ts)
  {
    PrintPasses(ts[0], if |ts| == 1 then "" else "," + PrintAll(ts[1..]), 0, "");
    assert "" + Print(ts[0]) == Print(ts[0]);
    if |ts| == 1 {
      assert Print(ts[0]) + "" == Print(ts[0]);
    } else {
      assert PrintAll(ts) == Print(ts[0]) + ("," + PrintAll(ts[1..]));
      assert ("," + PrintAll(ts[1..]))[1..] == PrintAll(ts[1..]);
      SplitFindsComponents(ts[1..]);
    }
  }

  lemma {:induction false} PrintIsClean(t: AbiType)
    ensures Print(t) != "" && Clean(Print(t))
    decreases t, 0
  {
    hide PrintAll, Spell;
    match t
    case Array(inner, length) =>
      PrintIsClean(inner);
      if length.Some? {
        DigitsAreClean(Spell(length.value));
      }
    case Tuple(components) => PrintAllIsClean(components);
    case UInt(bits) => DigitsAreClean(Spell(bits));
    case SInt(bits) => DigitsAreClean(Spell(bits));
    case BytesN(n) => DigitsAreClean(Spell(n));
    case _ =>
  }

  lemma DigitsAreClean(s: string)
    requires AllDigits(s)
    ensures Clean(s)
  {
  }

  lemma {:induction false} PrintAllIsClean(ts: seq<AbiType>)
    ensures Clean(PrintAll(ts)) && (ts != [] ==> PrintAll(ts) != "")
    decreases ts, 1
  {
    if ts != [] {
      PrintIsClean(ts[0]);
      PrintAllIsClean(ts[1..]);
    }
  }

  lemma SuffixOfArray(prefix: string, digits: string)
    requires AllDigits(digits) && Clean(prefix)
    ensures ArraySuffix(prefix + "[" + digits + "]") == Some((prefix, digits))
  {
    var s := prefix + "[" + digits + "]";
    assert s[|prefix|] == '[' && forall k :: |prefix| < k < |s| ==> s[k] != '[';
    assert AfterBracket(s) == |prefix| + 1;
    assert s[..|prefix|] == prefix && s[|prefix| + 1..|s| - 1] == digits;
    assert forall k :: 0 <= k < |prefix| ==> s[k] == prefix[k];
  }

  lemma ElementaryRoundTrip(t: AbiType)
    requires !t.Array? && !t.Tuple?
    ensures Elementary(Print(t)) == Some(t) && ArraySuffix(Print(t)).None? && Print(t)[0] != '('
  {
    hide Spell, Value, AfterBracket;
    match t
    case UInt(bits) => NumberedType("uint", bits);
    case SInt(bits) => IntRoundTrip(bits);
    case BytesN(n) => BytesRoundTrip(n);
    case Address => assert "address"[..4][0] == 'a' && "address"[..3][0] == 'a';
    case Bool => assert "bool"[..4][0] == 'b' && "bool"[..3][0] == 'b';
    case Bytes => assert "bytes"[..4][0] == 'b' && "bytes"[..3][0] == 'b';
    case Str => assert "string"[..4][0] == 's' && "string"[..3][0] == 's' && "string"[..5][0] == 's';
    case Array(_, _) =>
    case Tuple(_) =>
  }

  lemma IntRoundTrip(bits: nat)
    ensures Elementary("int" + Spell(bits)) == Some(SInt(bits)) && ArraySuffix("int" + Spell(bits)).None?
  {
    hide Spell, Value, AfterBracket;
    NumberedType("int", bits);
    assert ("int" + Spell(bits))[0] == 'i';
  }

  lemma BytesRoundTrip(n: nat)
    ensures Elementary("bytes" + Spell(n)) == Some(BytesN(n)) && ArraySuffix("bytes" + Spell(n)).None?
  {
    hide Spell, Value, AfterBracket;
    NumberedType("bytes", n);
    assert ("bytes" + Spell(n))[0] == 'b' && ("bytes" + Spell(n))[1] == 'y';
  }

  lemma NumberedType(name: string, n: nat)
    ensures var s := name + Spell(n);
            s[..|name|] == name && s[|name|..] == Spell(n) && Value(Spell(n)) == n && s[|s| - 1] != ']'
  {
    ValueOfSpell(n);
    var s := name + Spell(n);
    assert s[|s| - 1] == Spell(n)[|Spell(n)| - 1];
  }

  /** For every type tree, parsing the canonical spelling gives the tree back. */
  lemma {:induction false} ParsePrintRoundTrip(t: AbiType)
    ensures ParseType(Print(t)) == Some(t)
    decreases t, 0
  {
    var s := Print(t);
    PrintIsClean(t);
    CleanIsTrimmed(s);
    match t
    case Array(inner, length) =>
      var digits := if length.None? then "" else Spell(length.value);
      PrintIsClean(inner);
      SuffixOfArray(Print(inner), digits);
      ParsePrintRoundTrip(inner);
      if length.Some? {
        ValueOfSpell(length.value);
      }
    case Tuple(components) => ParseTuple(components);
    case _ => ElementaryRoundTrip(t);
  }

  lemma {:induction false} ParseTuple(ts: seq<AbiType>)
    ensures ParseType(Print(Tuple(ts))) == Some(Tuple(ts))
    decreases ts, 2
  {
    var s := Print(Tuple(ts));
    var body := PrintAll(ts);
    PrintIsClean(Tuple(ts));
    CleanIsTrimmed(s);
    assert s[0] == '(' && s[|s| - 1] == ')' && s[1..|s| - 1] == body;
    assert ArraySuffix(s).None?;
    PrintAllIsClean(ts);
    CleanIsTrimmed(body);
    PiecesAreShort(body, 0, "");
    if ts == [] {
      assert Split(body) == [];
    } else {
      SplitFindsComponents(ts);
      assert Split(body) == Spellings(ts);
    }
    ParseAllRoundTrip(ts, |s|);
  }

  lemma {:induction false} ParseAllRoundTrip(ts: seq<AbiType>, bound: nat)
    requires forall i :: 0 <= i < |Spellings(ts)| ==> |Spellings(ts)[i]| < bound
    ensures ParseAll(Spellings(ts), bound) == Some(ts)
    decreases ts, 1
  {
    hide ParseType, Print;
    if ts != [] {
      ParsePrintRoundTrip(ts[0]);
      assert Spellings(ts)[1..] == Spellings(ts[1..]);
      ParseAllRoundTrip(ts[1..], bound);
      assert [ts[0]] + ts[1..] == ts;
    }
  }
}
