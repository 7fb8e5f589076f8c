/** Decimal text to contract units and back, exactly. */
module Units {
  import opened Options
  import opened Decimal
  import AbiGrammar
  import AbiTypes

  datatype Parsed = NotADecimal | TooManyDecimals | Units(n: int)

  /** The characters toUnits throws away anywhere in the text. */
  predicate IsNoise(c: char) { c == '$' || c == ',' || AbiTypes.IsSpace(c) }

  function Strip(s: string): string {
    if s == "" then "" else (if IsNoise(s[0]) then "" else [s[0]]) + Strip(s[1..])
  }

  function PointIn(s: string): (i: nat)
    ensures i <= |s| && (forall k :: 0 <= k < i ==> s[k] != '.') && (i < |s| ==> s[i] == '.')
  {
    if s == "" || s[0] == '.' then 0 else 1 + PointIn(s[1..])
  }

  /** The pattern's groups: the sign, the whole digits, and the fractional digits ("" when there is no point). */
  datatype Shape = Shape(neg: bool, whole: string, frac: string) {
    predicate Valid() { whole != "" && AllDigits(whole) && AllDigits(frac) }

    function Body(): string { whole + (if frac == "" then "" else "." + frac) }

    function Text(): string { (if neg then "-" else "") + Body() }
  }

  function Match(s: string): (r: Option<Shape>)
    ensures r.Some? ==> r.value.Valid()
  {
    var neg := s != "" && s[0] == '-';
    var body := if neg then s[1..] else s;
    var i := PointIn(body);
    if i == 0 || !AllDigits(body[..i]) then None
    else if i == |body| then Some(Shape(neg, body, ""))
    else if i + 1 < |body| && AllDigits(body[i + 1..]) then Some(Shape(neg, body[..i], body[i + 1..]))
    else None
  }

  function PadEnd(s: string, width: nat): string { if |s| < width then s + Zeros(width - |s|) else s }

  function PadStart(s: string, width: nat): string { if |s| < width then Zeros(width - |s|) + s else s }

  function ToUnits(text: string, decimals: nat): Parsed {
    var m := Match(Strip(text));
    if m.None? then NotADecimal
    else
      var frac := PadEnd(m.value.frac, decimals);
      if |frac| > decimals then TooManyDecimals
      else
        var n: int := Value(m.value.whole + frac);
        Units(if m.value.neg then -n else n)
  }

  /** Trailing zeros dropped. */
  function DropZeros(s: string): string {
    if s != "" && s[|s| - 1] == '0' then DropZeros(s[..|s| - 1]) else s
  }

  function FromUnits(n: int, decimals: nat): string {
    var s := PadStart(Spell(if n < 0 then -n else n), decimals + 1);
    var cut := |s| - decimals;
    var frac := DropZeros(s[cut..]);
    (if n < 0 then "-" else "") + (s[..cut] + (if frac == "" then "" else "." + frac))
  }

  // ---------------------------------------------------------------- toUnits is exact

  lemma {:induction false} StripKeepsCleanText(s: string)
    requires forall i :: 0 <= i < |s| ==> !IsNoise(s[i])
    ensures Strip(s) == s
  {
    if s != "" {
      StripKeepsCleanText(s[1..]);
    }
  }

  lemma MatchReadsText(shape: Shape)
    requires shape.Valid()
    ensures Match(shape.Text()) == Some(shape) && Strip(shape.Text()) == shape.Text()
  {
    hide PointIn, Strip, AllDigits;
    TextSplits(shape);
    TextIsClean(shape);
    StripKeepsCleanText(shape.Text());
    BodyIsRead(shape);
  }

  lemma TextSplits(shape: Shape)
    requires shape.Valid()
    ensures var s := shape.Text();
            s != "" && (s[0] == '-' <==> shape.neg) && (if shape.neg then s[1..] else s) == shape.Body()
  {
    assert shape.Body()[0] == shape.whole[0];
    if shape.neg {
      assert ("-" + shape.Body())[1..] == shape.Body();
    } else {
      assert "" + shape.Body() == shape.Body();
    }
  }

  lemma TextIsClean(shape: Shape)
    requires shape.Valid()
    ensures forall i :: 0 <= i < |shape.Text()| ==> !IsNoise(shape.Text()[i])
  {
  }

  lemma BodyIsRead(shape: Shape)
    requires shape.Valid()
    ensures var body := shape.Body();
            && PointIn(body) == |shape.whole| && body[..|shape.whole|] == shape.whole
            && (if shape.frac == "" then body == shape.whole
                else |shape.whole| + 1 < |body| && body[|shape.whole| + 1..] == shape.frac)
  {
    PointAfterWhole(shape.whole, if shape.frac == "" then "" else "." + shape.frac);
  }

  lemma {:induction false} PointAfterWhole(whole: string, rest: string)
    requires AllDigits(whole) && (rest == "" || rest[0] == '.')
    ensures PointIn(whole + rest) == |whole|
  {
    if whole == "" {
      assert whole + rest == rest;
    } else {
      assert (whole + rest)[1..] == whole[1..] + rest;
      PointAfterWhole(whole[1..], rest);
    }
  }

  /** The only texts accepted, noise aside, are the decimals; each is matched by its own parts. */
  lemma MatchIff(s: string, shape: Shape)
    ensures Match(s) == Some(shape) <==> shape.Valid() && s == shape.Text()
  {
    hide Match;
    if Match(s) == Some(shape) {
      MatchedText(s, shape);
    }
    if shape.Valid() && s == shape.Text() {
      MatchReadsText(shape);
    }
  }

  lemma MatchedText(s: string, shape: Shape)
    requires Match(s) == Some(shape)
    ensures s == shape.Text()
  {
    hide PointIn, AllDigits;
    var body := if shape.neg then s[1..] else s;
    GluedBody(body, PointIn(body), shape);
    GluedText(s, body, shape);
  }

  lemma GluedText(s: string, body: string, shape: Shape)
    requires body == shape.Body()
    requires if shape.neg then s != "" && s[0] == '-' && body == s[1..] else body == s
    ensures s == shape.Text()
  {
    hide *;
    TextParts(shape);
    if shape.neg {
      assert s == "-" + s[1..];
    } else {
      assert s == "" + s;
    }
  }

  lemma TextParts(shape: Shape)
    ensures shape.Text() == (if shape.neg then "-" else "") + shape.Body()
  {
  }

  lemma GluedBody(body: string, i: nat, shape: Shape)
    requires if i == |body| then shape.whole == body && shape.frac == ""
             else i + 1 < |body| && body[i] == '.' && shape.whole == body[..i] && shape.frac == body[i + 1..]
    ensures body == shape.Body()
  {
    if i < |body| {
      assert body == body[..i] + ("." + body[i + 1..]);
    } else {
      assert body == body + "";
    }
  }

  /**
   * A decimal is accepted exactly when it has at most `decimals` fractional
   * digits, and then the result is its value times 10^decimals: the value is
   * (whole . frac) / 10^|frac|, so both sides are compared over 10^|frac|.
   */
  lemma ToUnitsIsExact(text: string, decimals: nat, shape: Shape)
    requires shape.Valid() && Strip(text) == shape.Text()
    ensures ToUnits(text, decimals).Units? <==> |shape.frac| <= decimals
    ensures |shape.frac| > decimals ==> ToUnits(text, decimals).TooManyDecimals?
    ensures ToUnits(text, decimals).Units? ==>
              ToUnits(text, decimals).n * Pow10(|shape.frac|)
              == (if shape.neg then -1 else 1) * Value(shape.whole + shape.frac) * Pow10(decimals)
  {
    hide Strip, Match, Value, Pow10, Zeros;
    MatchReadsText(shape);
    if |shape.frac| <= decimals {
      var extra := decimals - |shape.frac|;
      var digits := shape.whole + shape.frac;
      assert shape.whole + PadEnd(shape.frac, decimals) == digits + Zeros(extra);
      ValueConcat(digits, Zeros(extra));
      ValueOfZeros(extra);
      Pow10Sum(extra, |shape.frac|);
      ScaleBoth(Value(digits), Pow10(extra), Pow10(|shape.frac|), Pow10(decimals), if shape.neg then -1 else 1);
    }
  }

  lemma ScaleBoth(v: nat, p: nat, q: nat, r: nat, sign: int)
    requires p * q == r && (sign == 1 || sign == -1)
    ensures (if sign == -1 then -(v * p) else v * p) * q == sign * v * r
  {
    assert v * p * q == v * (p * q);
  }

  lemma ScaleFirst(p: nat, q: nat)
    ensures (10 * p) * q == 10 * (p * q)
  {
  }

  lemma {:induction false} Pow10Sum(a: nat, b: nat)
    ensures Pow10(a) * Pow10(b) == Pow10(a + b)
  {
    if a > 0 {
      Pow10Sum(a - 1, b);
      assert Pow10(a) == 10 * Pow10(a - 1) && Pow10(a + b) == 10 * Pow10(a - 1 + b);
      hide Pow10;
      ScaleFirst(Pow10(a - 1), Pow10(b));
    }
  }

  /** Text that is no decimal, once the noise is gone, is refused as such. */
  lemma OnlyDecimalsAreAccepted(text: string, decimals: nat)
    ensures ToUnits(text, decimals).NotADecimal?
            <==> forall shape: Shape :: shape.Valid() ==> Strip(text) != shape.Text()
  {
    var m := Match(Strip(text));
    if m.Some? {
      MatchIff(Strip(text), m.value);
    } else {
      forall shape: Shape | shape.Valid() ensures Strip(text) != shape.Text() {
        MatchIff(Strip(text), shape);
      }
    }
  }

  lemma {:induction false} StripConcat(a: string, b: string)
    ensures Strip(a + b) == Strip(a) + Strip(b)
  {
    if a == "" {
      assert a + b == b;
    } else {
      assert (a + b)[1..] == a[1..] + b;
      StripConcat(a[1..], b);
    }
  }

  /** Dollar signs, commas and white space do not matter, wherever they stand. */
  lemma NoiseDoesNotMatter(a: string, c: char, b: string, decimals: nat)
    requires c == '$' || c == ',' || AbiGrammar.IsWhite(c)
    ensures ToUnits(a + [c] + b, decimals) == ToUnits(a + b, decimals)
  {
    hide Strip, Match;
    AbiGrammar.WhiteIsSpace();
    StripConcat(a + [c], b);
    StripConcat(a, [c]);
    StripConcat(a, b);
    OnlyNoise(c);
    assert Strip(a) + "" == Strip(a);
  }

  lemma OnlyNoise(c: char)
    requires IsNoise(c)
    ensures Strip([c]) == ""
  {
  }

  /** And nothing else is thrown away. */
  lemma CleanTextIsReadWhole(s: string)
    requires forall i :: 0 <= i < |s| ==> s[i] != '$' && s[i] != ',' && !AbiGrammar.IsWhite(s[i])
    ensures Strip(s) == s
  {
    AbiGrammar.WhiteIsSpace();
    StripKeepsCleanText(s);
  }

  // ---------------------------------------------------------------- there and back

  lemma {:induction false} DropZerosPads(s: string)
    requires AllDigits(s)
    ensures AllDigits(DropZeros(s)) && |DropZeros(s)| <= |s| && s == DropZeros(s) + Zeros(|s| - |DropZeros(s)|)
  {
    if s != "" && s[|s| - 1] == '0' {
      var n := |s| - 1;
      DropZerosPads(s[..n]);
      assert s == s[..n] + "0";
    }
  }

  /** The digits fromUnits cuts in two still stand for the number. */
  lemma PaddedValue(n: nat, width: nat)
    ensures AllDigits(PadStart(Spell(n), width)) && Value(PadStart(Spell(n), width)) == n
  {
    hide Spell, Value, Zeros, AllDigits, Pow10;
    ValueOfSpell(n);
    if |Spell(n)| < width {
      ValueConcat(Zeros(width - |Spell(n)|), Spell(n));
      ValueOfZeros(width - |Spell(n)|);
    }
  }

  /** toUnits undoes fromUnits, for every integer and every number of decimals. */
  lemma RoundTrip(n: int, decimals: nat)
    ensures ToUnits(FromUnits(n, decimals), decimals) == Units(n)
  {
    hide Spell, Value, Strip, Match, DropZeros;
    var magnitude := if n < 0 then -n else n;
    var s := PadStart(Spell(magnitude), decimals + 1);
    PaddedValue(magnitude, decimals + 1);
    var cut := |s| - decimals;
    var frac := DropZeros(s[cut..]);
    DropZerosPads(s[cut..]);
    var shape := Shape(n < 0, s[..cut], frac);
    MatchReadsText(shape);
    assert FromUnits(n, decimals) == shape.Text();
    assert PadEnd(frac, decimals) == s[cut..];
    assert s[..cut] + s[cut..] == s;
  }

  /** No leading zero but a single one, and no trailing zero behind the point. */
  predicate IsCanonical(shape: Shape) {
    && shape.Valid() && (|shape.whole| > 1 ==> shape.whole[0] != '0')
    && (shape.frac != "" ==> shape.frac[|shape.frac| - 1] != '0')
  }

  lemma {:induction false} DropZerosDropsAll(s: string)
    ensures DropZeros(s) != "" ==> DropZeros(s)[|DropZeros(s)| - 1] != '0'
  {
    if s != "" && s[|s| - 1] == '0' {
      DropZerosDropsAll(s[..|s| - 1]);
    }
  }

  /** Amounts are printed in canonical form, with a sign exactly below zero and no more digits than asked for. */
  lemma FromUnitsIsCanonical(n: int, decimals: nat) returns (shape: Shape)
    ensures IsCanonical(shape) && FromUnits(n, decimals) == shape.Text()
    ensures (shape.neg <==> n < 0) && |shape.frac| <= decimals
  {
    hide Value, DropZeros;
    var magnitude := if n < 0 then -n else n;
    var s := PadStart(Spell(magnitude), decimals + 1);
    PaddedValue(magnitude, decimals + 1);
    hide Spell;
    var cut := |s| - decimals;
    DropZerosPads(s[cut..]);
    DropZerosDropsAll(s[cut..]);
    shape := Shape(n < 0, s[..cut], DropZeros(s[cut..]));
  }

  /** So no two amounts print alike. */
  lemma FromUnitsIsInjective(a: int, b: int, decimals: nat)
    requires FromUnits(a, decimals) == FromUnits(b, decimals)
    ensures a == b
  {
    RoundTrip(a, decimals);
    RoundTrip(b, decimals);
  }

  /** USDC notional of a size at a price; both are at least 0 where it is used. */
  function Notional(size: int, price: int): int
    requires size >= 0 && price >= 0
  {
    (size * price) / 10000000000
  }
}
