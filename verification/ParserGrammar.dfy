/** The number scanner reads the tokens of the grammar, and their values. */
module NumberLaws {
  import opened Bytes
  import opened Texts
  import opened Options
  import opened JsonValue
  import opened Scan
  import opened ParserSpec
  import opened Grammar

  /** Digits stand from p up to e, and no digit follows. */
  predicate Run(inp: Bytes, p: nat, e: nat, t: Bytes)
  {
    p < e <= |inp| && inp[p..e] == t && AreDigits(t) && (e < |inp| ==> !IsDigit(inp[e]))
  }

  lemma {:induction false} SkipsRun(inp: Bytes, p: nat, e: nat)
    requires p <= e <= |inp| && (forall k :: p <= k < e ==> IsDigit(inp[k])) && (e < |inp| ==> !IsDigit(inp[e]))
    ensures SkipDigits(inp, p, |inp|) == e
    decreases e - p
  {
    if p < e { SkipsRun(inp, p + 1, e); }
  }

  lemma RunSkips(inp: Bytes, p: nat, e: nat, t: Bytes)
    requires Run(inp, p, e, t)
    ensures SkipDigits(inp, p, |inp|) == e && IsDigit(inp[p]) && inp[p] == t[0]
  {
    forall k | p <= k < e ensures IsDigit(inp[k]) { assert inp[k] == t[k - p]; }
    SkipsRun(inp, p, e);
  }

  lemma RunHere(inp: Bytes, p: nat, t: Bytes)
    requires Holds(inp, p, t) && AreDigits(t) && (p + |t| < |inp| ==> !IsDigit(inp[p + |t|]))
    ensures Run(inp, p, p + |t|, t)
  {
  }

  /** What may follow a number: nothing that it is made of. */
  predicate Ended(inp: Bytes, e: nat) { e < |inp| ==> !IsNumberChar(inp[e]) }

  lemma ExponentReads(e: Option<Exponent>, inp: Bytes, p: nat)
    requires GoodNumber(NumberToken(false, [0x30], None, e)) && Holds(inp, p, ExponentText(e)) && p <= |inp|
    requires Ended(inp, p + |ExponentText(e)|)
    ensures ScanExponent(inp, p, |inp|) == Some(p + |ExponentText(e)|)
    ensures p < |inp| ==> !IsDigit(inp[p]) && inp[p] != DOT
  {
    if e.Some? {
      var x := e.value;
      var sign := SignText(x.sign);
      HoldsThree(inp, p, [x.letter], sign, x.digits);
      HoldsAt(inp, p, [x.letter], 0);
      var d := p + 1 + |sign|;
      RunHere(inp, d, x.digits);
      RunSkips(inp, d, d + |x.digits|, x.digits);
      if x.sign.Some? { HoldsAt(inp, p + 1, sign, 0); }
      hide Holds, SkipDigits, AreDigits;
    }
  }

  lemma FractionReads(f: Option<Bytes>, inp: Bytes, p: nat)
    requires (f.Some? ==> AreDigits(f.value)) && Holds(inp, p, FractionText(f)) && p <= |inp|
    requires var e := p + |FractionText(f)|; e < |inp| ==> !IsDigit(inp[e]) && inp[e] != DOT
    ensures ScanFraction(inp, p, |inp|) == Some(p + |FractionText(f)|)
    ensures p < |inp| ==> !IsDigit(inp[p])
  {
    if f.Some? {
      HoldsParts(inp, p, [0x2E], f.value);
      HoldsAt(inp, p, [0x2E], 0);
      RunHere(inp, p + 1, f.value);
      RunSkips(inp, p + 1, p + 1 + |f.value|, f.value);
      hide Holds, SkipDigits, AreDigits;
    }
  }

  lemma WholeReads(minus: bool, whole: Bytes, inp: Bytes, p: nat)
    requires AreDigits(whole) && (|whole| > 1 ==> whole[0] != 0x30) && Holds(inp, p, MinusText(minus) + whole)
    requires var e := p + |MinusText(minus)| + |whole|; e < |inp| ==> !IsDigit(inp[e])
    ensures p < |inp| && inp[p] == (if minus then 0x2D else whole[0])
    ensures ScanInteger(inp, p, |inp|) == Some(p + |MinusText(minus)| + |whole|)
  {
    HoldsParts(inp, p, MinusText(minus), whole);
    if minus { HoldsAt(inp, p, [0x2D], 0); }
    var q := p + |MinusText(minus)|;
    RunHere(inp, q, whole);
    RunSkips(inp, q, q + |whole|, whole);
    hide Holds, SkipDigits;
  }

  /** A token of the grammar that no number character follows is scanned to its end. */
  lemma NumberReads(n: NumberToken, inp: Bytes, p: nat)
    requires GoodNumber(n) && Holds(inp, p, NumberText(n)) && Ended(inp, p + |NumberText(n)|)
    ensures p < |inp| && (inp[p] == MINUS || IsDigit(inp[p]))
    ensures ScanNumber(inp, p, |inp|) == Some(p + |NumberText(n)|)
  {
    hide *;
    var w, f, x := MinusText(n.minus) + n.whole, FractionText(n.fraction), ExponentText(n.exponent);
    NumberParts(n);
    HoldsThree(inp, p, w, f, x);
    ExponentReads(n.exponent, inp, p + |w| + |f|);
    FractionReads(n.fraction, inp, p + |w|);
    WholeReads(n.minus, n.whole, inp, p);
    ScansParts(inp, p, p + |w|, p + |w| + |f|, p + |w| + |f| + |x|);
    FirstOfNumber(n);
  }

  lemma NumberParts(n: NumberToken)
    requires GoodNumber(n)
    ensures NumberText(n) == MinusText(n.minus) + n.whole + FractionText(n.fraction) + ExponentText(n.exponent)
    ensures AreDigits(n.whole) && (|n.whole| > 1 ==> n.whole[0] != 0x30) && (n.fraction.Some? ==> AreDigits(n.fraction.value))
    ensures GoodNumber(NumberToken(false, [0x30], None, n.exponent))
  {
    hide FractionText, ExponentText;
  }

  lemma FirstOfNumber(n: NumberToken)
    requires GoodNumber(n)
    ensures n.whole != [] && IsDigit(n.whole[0]) && MINUS == 0x2D
  {
  }

  lemma ScansParts(inp: Bytes, p: nat, a: nat, b: nat, c: nat)
    requires p <= a <= b <= c <= |inp| && ScanInteger(inp, p, |inp|) == Some(a)
    requires ScanFraction(inp, a, |inp|) == Some(b) && ScanExponent(inp, b, |inp|) == Some(c)
    ensures ScanNumber(inp, p, |inp|) == Some(c)
  {
    hide ScanInteger, ScanFraction, ScanExponent;
  }

  // --- Values ---

  lemma {:induction false} DecimalSplits(before: nat, t: Bytes, c: byte)
    requires (forall i :: 0 <= i < |t| ==> 0x30 <= t[i] <= 0x39) && 0x30 <= c <= 0x39
    ensures Decimal(before, t + [c]) == Decimal(before, t) * 10 + (c - 0x30)
    decreases |t|
  {
    if t == [] {
      assert (t + [c])[1..] == [];
    } else {
      assert (t + [c])[0] == t[0] && (t + [c])[1..] == t[1..] + [c];
      DecimalSplits(before * 10 + (t[0] - 0x30), t[1..], c);
    }
  }

  lemma {:induction false} DigitsMean(t: Bytes)
    requires AllDigits(t)
    ensures DigitsValue(t) == Decimal(0, t)
    decreases |t|
  {
    if t != [] {
      var n := |t| - 1;
      DigitsMean(t[..n]);
      assert t == t[..n] + [t[n]];
      DecimalSplits(0, t[..n], t[n]);
    }
  }

  lemma NumberValueIs(n: NumberToken)
    requires GoodNumber(n)
    ensures NumberValue(NumberText(n)) == NumberMeans(n)
  {
    var tail := FractionText(n.fraction) + ExponentText(n.exponent);
    var digits := n.whole + tail;
    Signed(n);
    TailIsNoDigit(n);
    if tail == [] {
      assert digits == n.whole;
      DigitsMean(n.whole);
    } else {
      assert digits[|n.whole|] == tail[0];
    }
    hide NumberText, FractionText, ExponentText, DigitsValue, Decimal;
  }

  /** The text is the digits and what follows, behind a minus sign or not. */
  lemma Signed(n: NumberToken)
    requires GoodNumber(n)
    ensures var t, digits := NumberText(n), n.whole + (FractionText(n.fraction) + ExponentText(n.exponent));
            && t != [] && digits != [] && (t[0] == MINUS <==> n.minus) && (if n.minus then t[1..] else t) == digits
  {
    var digits := n.whole + (FractionText(n.fraction) + ExponentText(n.exponent));
    assert NumberText(n) == MinusText(n.minus) + digits;
    hide FractionText, ExponentText;
    assert digits[0] == n.whole[0];
  }

  lemma TailIsNoDigit(n: NumberToken)
    requires GoodNumber(n)
    ensures var tail := FractionText(n.fraction) + ExponentText(n.exponent);
            && (tail == [] <==> n.fraction.None? && n.exponent.None?) && (tail != [] ==> !IsDigit(tail[0]))
  {
  }

  // --- Whatever is scanned is of the grammar ---

  lemma {:induction false} SkippedDigits(inp: Bytes, p: nat)
    requires p < |inp| && IsDigit(inp[p])
    ensures AreDigits(inp[p..SkipDigits(inp, p, |inp|)])
    decreases |inp| - p
  {
    var e := SkipDigits(inp, p, |inp|);
    if p + 1 < |inp| && IsDigit(inp[p + 1]) {
      SkippedDigits(inp, p + 1);
      assert inp[p..e] == [inp[p]] + inp[p + 1..e];
    } else {
      assert SkipDigits(inp, p + 1, |inp|) == p + 1;
    }
  }

  lemma ExponentTold(inp: Bytes, p: nat) returns (x: Option<Exponent>)
    requires p <= |inp| && ScanExponent(inp, p, |inp|).Some?
    ensures GoodNumber(NumberToken(false, [0x30], None, x))
    ensures inp[p..ScanExponent(inp, p, |inp|).value] == ExponentText(x)
  {
    hide SkipDigits;
    x := None;
    if p < |inp| && (inp[p] == LOWER_E || inp[p] == UPPER_E) {
      var signed := p + 1 < |inp| && (inp[p + 1] == PLUS || inp[p + 1] == MINUS);
      var d := if signed then p + 2 else p + 1;
      var e := SkipDigits(inp, d, |inp|);
      SkippedDigits(inp, d);
      x := Some(Exponent(inp[p], if signed then Some(inp[p + 1]) else None, inp[d..e]));
      assert inp[p..e] == [inp[p]] + inp[p + 1..d] + inp[d..e];
      assert inp[p + 1..d] == SignText(x.value.sign);
    } else {
      assert inp[p..p] == [];
    }
  }

  lemma FractionTold(inp: Bytes, p: nat) returns (f: Option<Bytes>)
    requires p <= |inp| && ScanFraction(inp, p, |inp|).Some?
    ensures (f.Some? ==> AreDigits(f.value)) && inp[p..ScanFraction(inp, p, |inp|).value] == FractionText(f)
  {
    hide SkipDigits;
    f := None;
    if p < |inp| && inp[p] == DOT {
      var e := SkipDigits(inp, p + 1, |inp|);
      SkippedDigits(inp, p + 1);
      f := Some(inp[p + 1..e]);
      assert inp[p..e] == [inp[p]] + inp[p + 1..e];
    } else {
      assert inp[p..p] == [];
    }
  }

  lemma WholeTold(inp: Bytes, p: nat) returns (minus: bool, whole: Bytes)
    requires p <= |inp| && ScanInteger(inp, p, |inp|).Some?
    ensures AreDigits(whole) && (|whole| > 1 ==> whole[0] != 0x30)
    ensures inp[p..ScanInteger(inp, p, |inp|).value] == MinusText(minus) + whole
  {
    hide SkipDigits;
    minus := inp[p] == MINUS;
    var q := if minus then p + 1 else p;
    var e := ScanInteger(inp, p, |inp|).value;
    whole := inp[q..e];
    if inp[q] != ZERO { SkippedDigits(inp, q); }
    assert inp[p..e] == inp[p..q] + inp[q..e];
    assert inp[p..q] == MinusText(minus);
  }

  lemma NumberTold(inp: Bytes, p: nat) returns (n: NumberToken)
    requires p <= |inp| && ScanNumber(inp, p, |inp|).Some?
    ensures GoodNumber(n) && Holds(inp, p, NumberText(n)) && ScanNumber(inp, p, |inp|) == Some(p + |NumberText(n)|)
  {
    hide ScanInteger, ScanFraction, ScanExponent, FractionText, ExponentText, MinusText;
    var minus, whole := WholeTold(inp, p);
    var a := ScanInteger(inp, p, |inp|).value;
    var f := FractionTold(inp, a);
    var b := ScanFraction(inp, a, |inp|).value;
    var x := ExponentTold(inp, b);
    var c := ScanExponent(inp, b, |inp|);
    n := NumberToken(minus, whole, f, x);
    ExponentEnds(inp, b);
    assert inp[p..c.value] == inp[p..a] + inp[a..b] + inp[b..c.value];
  }

  lemma ExponentEnds(inp: Bytes, b: nat)
    requires b <= |inp| && ScanExponent(inp, b, |inp|).Some?
    ensures b <= ScanExponent(inp, b, |inp|).value <= |inp|
  {
  }

  /** A number is scanned exactly if it is of the grammar and the longest such token there. */
  lemma NumbersExactly(inp: Bytes, p: nat, e: nat)
    requires p <= |inp| && e <= |inp| && Ended(inp, e)
    ensures ScanNumber(inp, p, |inp|) == Some(e)
            <==> exists n :: GoodNumber(n) && Holds(inp, p, NumberText(n)) && e == p + |NumberText(n)|
  {
    hide *;
    if ScanNumber(inp, p, |inp|) == Some(e) { var n := NumberTold(inp, p); }
    if n :| GoodNumber(n) && Holds(inp, p, NumberText(n)) && e == p + |NumberText(n)| { NumberReads(n, inp, p); }
  }
}

/** The parser accepts exactly the grammar of RFC 8259, and builds the tree that a text means. */
module ParserGrammar {
  import opened Bytes
  import opened Texts
  import opened Options
  import opened JsonValue
  import opened Scan
  import opened ParserSpec
  import opened Grammar
  import EscapeLaws
  import opened NumberLaws

  // --- Spaces ---

  lemma {:induction false} SpacesSkip(s: Bytes, inp: Bytes, p: nat)
    requires AreSpaces(s) && Holds(inp, p, s)
    ensures p + |s| <= |inp| && SkipWs(inp, p) == SkipWs(inp, p + |s|)
    decreases |s|
  {
    HoldsFits(inp, p, s);
    if s != [] {
      assert s == [s[0]] + s[1..];
      HoldsParts(inp, p, [s[0]], s[1..]);
      SpacesSkip(s[1..], inp, p + 1);
    }
  }

  lemma {:induction false} SpacesTold(inp: Bytes, p: nat)
    requires p <= |inp|
    ensures AreSpaces(inp[p..SkipWs(inp, p)]) && Holds(inp, p, inp[p..SkipWs(inp, p)])
    decreases |inp| - p
  {
    var j := SkipWs(inp, p);
    if p < |inp| && IsWs(inp[p]) {
      SpacesTold(inp, p + 1);
      assert inp[p..j] == [inp[p]] + inp[p + 1..j];
    }
  }

  lemma SkipAgain(inp: Bytes, i: nat, depth: nat, max: nat)
    requires i <= |inp|
    ensures var j := SkipWs(inp, i);
            && SkipWs(inp, j) == j
            && ReadValue(inp, j, depth, max) == ReadValue(inp, i, depth, max)
            && ReadItems(inp, j, depth, max) == ReadItems(inp, i, depth, max)
            && ReadMembers(inp, j, depth, max) == ReadMembers(inp, i, depth, max)
  {
    hide *;
    SkipTwice(inp, i);
    ValueFrom(inp, i, depth, max);
    ItemsFrom(inp, i, depth, max);
    MembersFrom(inp, i, depth, max);
  }

  lemma SkipTwice(inp: Bytes, i: nat)
    requires i <= |inp|
    ensures SkipWs(inp, SkipWs(inp, i)) == SkipWs(inp, i)
  {
  }

  lemma ValueFrom(inp: Bytes, i: nat, depth: nat, max: nat)
    requires i <= |inp| && SkipWs(inp, SkipWs(inp, i)) == SkipWs(inp, i)
    ensures ReadValue(inp, SkipWs(inp, i), depth, max) == ReadValue(inp, i, depth, max)
  {
    hide SkipWs, ReadObject, ReadArray, ReadString, ReadWord, ReadNumber;
  }

  lemma ItemsFrom(inp: Bytes, i: nat, depth: nat, max: nat)
    requires i <= |inp| && ReadValue(inp, SkipWs(inp, i), depth, max) == ReadValue(inp, i, depth, max)
    ensures ReadItems(inp, SkipWs(inp, i), depth, max) == ReadItems(inp, i, depth, max)
  {
    hide SkipWs, ReadValue;
  }

  lemma MembersFrom(inp: Bytes, i: nat, depth: nat, max: nat)
    requires i <= |inp| && SkipWs(inp, SkipWs(inp, i)) == SkipWs(inp, i)
    ensures ReadMembers(inp, SkipWs(inp, i), depth, max) == ReadMembers(inp, i, depth, max)
  {
    hide SkipWs, ReadValue, ReadKey;
    KeyFrom(inp, i);
  }

  lemma KeyFrom(inp: Bytes, i: nat)
    requires i <= |inp| && SkipWs(inp, SkipWs(inp, i)) == SkipWs(inp, i)
    ensures ReadKey(inp, SkipWs(inp, i)) == ReadKey(inp, i)
  {
    hide SkipWs, ReadString;
  }

  /** A comma or a closing bracket. */
  predicate Separator(c: byte) { c == 0x2C || c == 0x5D || c == 0x7D }

  predicate Separated(inp: Bytes, e: nat) { e < |inp| ==> Separator(inp[e]) }

  // --- Texts of the grammar are read ---

  lemma FirstByte(t: Text)
    requires Good(t)
    ensures var s := TextBytes(t); s != [] && !IsWs(s[0]) && s[0] < 0x80 && !Separator(s[0])
  {
    if t.TNumber? { NumberFirst(t.n); }
  }

  lemma NumberFirst(n: NumberToken)
    requires GoodNumber(n)
    ensures var s := NumberText(n); s != [] && (s[0] == MINUS || IsDigit(s[0]))
  {
    Signed(n);
    assert (n.whole + (FractionText(n.fraction) + ExponentText(n.exponent)))[0] == n.whole[0];
    hide NumberText, FractionText, ExponentText;
  }

  lemma Stays(inp: Bytes, p: nat, t: Text)
    requires Good(t) && Holds(inp, p, TextBytes(t))
    ensures p < |inp| && SkipWs(inp, p) == p && inp[p] == TextBytes(t)[0] && p + |TextBytes(t)| <= |inp|
  {
    FirstByte(t);
    HoldsAt(inp, p, TextBytes(t), 0);
    HoldsFits(inp, p, TextBytes(t));
    hide TextBytes, Holds;
  }

  lemma WordReads(word: Bytes, v: Json, inp: Bytes, p: nat, depth: nat, max: nat)
    requires (word == [0x6E, 0x75, 0x6C, 0x6C] && v == Null) || (word == [0x74, 0x72, 0x75, 0x65] && v == Bool(true))
             || (word == [0x66, 0x61, 0x6C, 0x73, 0x65] && v == Bool(false))
    requires Holds(inp, p, word)
    ensures p <= |inp| && ReadValue(inp, p, depth, max) == Ok(v, p + |word|)
  {
    HoldsAt(inp, p, word, 0);
    assert SkipWs(inp, p) == p;
  }

  lemma NumberIsRead(n: NumberToken, inp: Bytes, p: nat, depth: nat, max: nat)
    requires GoodNumber(n) && Holds(inp, p, NumberText(n)) && Ended(inp, p + |NumberText(n)|)
    ensures p <= |inp| && ReadValue(inp, p, depth, max) == Ok(Num(NumberMeans(n)), p + |NumberText(n)|)
  {
    hide *;
    NumberReads(n, inp, p);
    NumberValueIs(n);
    Slice(inp, p, NumberText(n));
    ReadsNumber(inp, p, p + |NumberText(n)|, depth, max);
  }

  lemma Slice(inp: Bytes, p: nat, s: Bytes)
    requires Holds(inp, p, s)
    ensures p + |s| <= |inp| && inp[p..p + |s|] == s
  {
  }

  lemma ReadsNumber(inp: Bytes, p: nat, e: nat, depth: nat, max: nat)
    requires p < |inp| && (inp[p] == MINUS || IsDigit(inp[p])) && ScanNumber(inp, p, |inp|) == Some(e)
    ensures p < e <= |inp| && ReadValue(inp, p, depth, max) == Ok(Num(NumberValue(inp[p..e])), e)
  {
    hide ScanNumber, NumberValue;
    assert SkipWs(inp, p) == p;
  }

  lemma StringIsRead(cs: seq<Char>, inp: Bytes, p: nat)
    requires GoodChars(cs) && Holds(inp, p, Quoted(cs))
    ensures p < |inp| && inp[p] == QUOTE && ReadString(inp, p + 1) == Ok(CharsMean(cs), p + |Quoted(cs)|)
  {
    Associates([0x22], CharsText(cs), [0x22]);
    HoldsParts(inp, p, [0x22], CharsText(cs) + [0x22]);
    HoldsAt(inp, p, [0x22], 0);
    EscapeLaws.CharsRead(cs, inp, p + 1);
  }

  lemma {:induction false} TextReads(t: Text, inp: Bytes, p: nat, depth: nat, max: nat)
    requires Good(t) && depth <= max && Within(t, max - depth) && Holds(inp, p, TextBytes(t))
    requires Ended(inp, p + |TextBytes(t)|)
    ensures p <= |inp| && ReadValue(inp, p, depth, max) == Ok(Means(t), p + |TextBytes(t)|)
    decreases t, 1
  {
    Stays(inp, p, t);
    match t
    case TNull => WordReads(TextBytes(t), Null, inp, p, depth, max);
    case TTrue => WordReads(TextBytes(t), Bool(true), inp, p, depth, max);
    case TFalse => WordReads(TextBytes(t), Bool(false), inp, p, depth, max);
    case TNumber(n) => NumberIsRead(n, inp, p, depth, max);
    case TString(cs) =>
      StringIsRead(cs, inp, p);
      hide ReadString, Quoted, CharsMean, Holds;
    case TArray(items, s) => ArrayReads(items, s, inp, p, depth, max);
    case TObject(ms, s) => ObjectReads(ms, s, inp, p, depth, max);
  }

  lemma {:induction false} ItemReads(i: Item, inp: Bytes, p: nat, depth: nat, max: nat)
    requires GoodItem(i) && depth <= max && Within(i.value, max - depth) && Holds(inp, p, ItemBytes(i))
    requires Separated(inp, p + |ItemBytes(i)|)
    ensures p <= |inp| && p + |ItemBytes(i)| <= |inp|
    ensures var r := ReadValue(inp, p, depth, max);
            r.Ok? && r.value == MeansItem(i) && SkipWs(inp, r.pos) == p + |ItemBytes(i)|
    decreases i, 2
  {
    hide *;
    ItemParts(i, inp, p);
    var q := p + |i.before|;
    var e := q + |TextBytes(i.value)|;
    SpacesSkip(i.before, inp, p);
    SpacesSkip(i.after, inp, e);
    Stays(inp, q, i.value);
    SpaceOrSeparator(i.after, inp, e);
    TextReads(i.value, inp, q, depth, max);
    SkipAgain(inp, p, depth, max);
    EndsHere(inp, e + |i.after|);
  }

  lemma ItemParts(i: Item, inp: Bytes, p: nat)
    requires GoodItem(i) && Holds(inp, p, ItemBytes(i))
    ensures AreSpaces(i.before) && AreSpaces(i.after) && Good(i.value) && MeansItem(i) == Means(i.value)
    ensures var q := p + |i.before|;
            var e := q + |TextBytes(i.value)|;
            && Holds(inp, p, i.before) && Holds(inp, q, TextBytes(i.value)) && Holds(inp, e, i.after)
            && p + |ItemBytes(i)| == e + |i.after| <= |inp|
  {
    hide Holds, Means, TextBytes, Good, AreSpaces;
    HoldsThree(inp, p, i.before, TextBytes(i.value), i.after);
  }

  lemma EndsHere(inp: Bytes, e: nat)
    requires e <= |inp| && Separated(inp, e)
    ensures SkipWs(inp, e) == e
  {
  }

  lemma SpaceOrSeparator(s: Bytes, inp: Bytes, e: nat)
    requires AreSpaces(s) && Holds(inp, e, s) && Separated(inp, e + |s|)
    ensures Ended(inp, e)
  {
    if s != [] { HoldsAt(inp, e, s, 0); }
  }

  lemma ArrayParts(items: seq<Item>, s: Bytes, inp: Bytes, p: nat)
    requires Good(TArray(items, s)) && Holds(inp, p, TextBytes(TArray(items, s)))
    ensures p < |inp| && inp[p] == 0x5B && Holds(inp, p + 1, s) && Holds(inp, p + 1 + |s|, ItemsBytes(items) + [0x5D])
    ensures items == [] ==> ItemsBytes(items) == []
    ensures items != [] ==> s == []
  {
    var b := ItemsBytes(items);
    Associates([0x5B] + s, b, [0x5D]);
    HoldsThree(inp, p, [0x5B], s, b + [0x5D]);
    HoldsAt(inp, p, [0x5B], 0);
    hide ItemsBytes, Holds;
    if items == [] { NoItems(); }
  }

  lemma NoItems()
    ensures ItemsBytes([]) == [] && MeanItems([]) == [] && MemsBytes([]) == [] && MeanMems([]) == []
  {
  }

  lemma {:induction false} ArrayReads(items: seq<Item>, s: Bytes, inp: Bytes, p: nat, depth: nat, max: nat)
    requires var t := TArray(items, s);
             Good(t) && depth <= max && Within(t, max - depth) && Holds(inp, p, TextBytes(t))
    ensures var t := TArray(items, s);
            p <= |inp| && ReadValue(inp, p, depth, max) == Ok(Means(t), p + |TextBytes(t)|)
    decreases items, 1
  {
    hide *;
    var t := TArray(items, s);
    Stays(inp, p, t);
    ArrayParts(items, s, inp, p);
    ArrayWithin(items, s, max - depth);
    SpacesSkip(s, inp, p + 1);
    if items == [] {
      NothingBefore([0x5D]);
      HoldsByte(inp, p + 1 + |s|, 0x5D);
      EndsHere(inp, p + 1 + |s|);
      ReadsEmptyArray(inp, p, p + 1 + |s|, depth, max);
      NoItems();
    } else {
      ItemsRead(items, inp, p + 1, depth + 1, max);
      NotClosed(items, inp, p + 1);
      SkipAgain(inp, p + 1, depth + 1, max);
      ReadsArray(inp, p, depth, max, MeanItems(items), p + 1 + |ItemsBytes(items)| + 1);
    }
  }

  lemma ArrayWithin(items: seq<Item>, s: Bytes, room: int)
    requires var t := TArray(items, s); Good(t) && Within(t, room)
    ensures room > 0 && AreSpaces(s)
    ensures forall i :: 0 <= i < |items| ==> GoodItem(items[i]) && Within(items[i].value, room - 1)
    ensures var t := TArray(items, s);
            |TextBytes(t)| == 2 + |s| + |ItemsBytes(items)| && Means(t) == Arr(MeanItems(items))
  {
    hide GoodItem, ItemsBytes, MeanItems;
  }

  lemma ReadsEmptyArray(inp: Bytes, p: nat, j: nat, depth: nat, max: nat)
    requires p < |inp| && inp[p] == 0x5B && SkipWs(inp, p) == p && depth < max
    requires SkipWs(inp, p + 1) == j && j < |inp| && inp[j] == 0x5D
    ensures ReadValue(inp, p, depth, max) == Ok(Arr([]), j + 1)
  {
    hide SkipWs, ReadItems;
  }

  lemma ReadsArray(inp: Bytes, p: nat, depth: nat, max: nat, items: seq<Json>, e: nat)
    requires p < |inp| && inp[p] == 0x5B && SkipWs(inp, p) == p && depth < max
    requires SkipWs(inp, p + 1) < |inp| && inp[SkipWs(inp, p + 1)] != 0x5D
    requires ReadItems(inp, SkipWs(inp, p + 1), depth + 1, max) == Ok(items, e)
    ensures ReadValue(inp, p, depth, max) == Ok(Arr(items), e)
  {
    hide SkipWs, ReadItems;
  }

  /** The first item of a list is no closing bracket. */
  lemma NotClosed(items: seq<Item>, inp: Bytes, p: nat)
    requires items != [] && (forall i :: 0 <= i < |items| ==> GoodItem(items[i])) && Holds(inp, p, ItemsBytes(items) + [0x5D])
    ensures p <= |inp| && SkipWs(inp, p) < |inp| && inp[SkipWs(inp, p)] != 0x5D
  {
    hide *;
    var i := items[0];
    HoldsParts(inp, p, ItemsBytes(items), [0x5D]);
    FirstItemHeld(items, inp, p);
    ItemParts(i, inp, p);
    SpacesSkip(i.before, inp, p);
    Stays(inp, p + |i.before|, i.value);
    FirstByte(i.value);
    NoSeparator(TextBytes(i.value)[0]);
  }

  lemma NoSeparator(c: byte)
    requires !Separator(c)
    ensures c != 0x5D && c != 0x7D
  {
  }

  lemma FirstItemHeld(items: seq<Item>, inp: Bytes, p: nat)
    requires items != [] && (forall i :: 0 <= i < |items| ==> GoodItem(items[i])) && Holds(inp, p, ItemsBytes(items))
    ensures Holds(inp, p, ItemBytes(items[0]))
  {
    hide ItemBytes, Holds;
    var rest := if |items| == 1 then [] else [0x2C] + ItemsBytes(items[1..]);
    HoldsParts(inp, p, ItemBytes(items[0]), rest);
  }

  lemma {:induction false} ItemsRead(items: seq<Item>, inp: Bytes, p: nat, depth: nat, max: nat)
    requires items != [] && depth <= max
    requires forall i :: 0 <= i < |items| ==> GoodItem(items[i]) && Within(items[i].value, max - depth)
    requires Holds(inp, p, ItemsBytes(items) + [0x5D])
    ensures p <= |inp| && ReadItems(inp, p, depth, max) == Ok(MeanItems(items), p + |ItemsBytes(items)| + 1)
    decreases items, 0
  {
    hide *;
    var first := ItemBytes(items[0]);
    var q := p + |first|;
    if |items| == 1 {
      LastItem(items);
      HoldsParts(inp, p, first, [0x5D]);
      HoldsByte(inp, q, 0x5D);
      ItemReads(items[0], inp, p, depth, max);
      ReadsLastItem(inp, p, q, depth, max, MeansItem(items[0]));
    } else {
      var rest := items[1..];
      MoreItems(items);
      Regroup(first, 0x2C, ItemsBytes(rest), 0x5D);
      HoldsThree(inp, p, first, [0x2C], ItemsBytes(rest) + [0x5D]);
      HoldsByte(inp, q, 0x2C);
      ItemReads(items[0], inp, p, depth, max);
      ItemsRead(rest, inp, q + 1, depth, max);
      ReadsMoreItems(inp, p, q, depth, max, MeansItem(items[0]), MeanItems(rest), q + 1 + |ItemsBytes(rest)| + 1);
    }
  }

  lemma LastItem(items: seq<Item>)
    requires |items| == 1 && GoodItem(items[0])
    ensures ItemsBytes(items) == ItemBytes(items[0]) && MeanItems(items) == [MeansItem(items[0])]
  {
    hide ItemBytes, MeansItem;
    assert items[1..] == [];
    NothingMore(ItemBytes(items[0]));
  }

  lemma MoreItems(items: seq<Item>)
    requires |items| > 1 && forall i :: 0 <= i < |items| ==> GoodItem(items[i])
    ensures ItemsBytes(items) == ItemBytes(items[0]) + ([0x2C] + ItemsBytes(items[1..]))
    ensures MeanItems(items) == [MeansItem(items[0])] + MeanItems(items[1..])
    ensures items[1..] != [] && |ItemsBytes(items)| == |ItemBytes(items[0])| + 1 + |ItemsBytes(items[1..])|
  {
    hide ItemBytes, MeansItem;
  }

  lemma Regroup(a: Bytes, c: byte, b: Bytes, d: byte)
    ensures a + ([c] + b) + [d] == a + [c] + (b + [d])
  {
  }

  lemma HoldsByte(inp: Bytes, p: nat, c: byte)
    requires Holds(inp, p, [c])
    ensures p < |inp| && inp[p] == c && (c == 0x2C || c == 0x5D || c == 0x7D ==> Separated(inp, p))
  {
    HoldsAt(inp, p, [c], 0);
  }

  lemma ReadsLastItem(inp: Bytes, p: nat, q: nat, depth: nat, max: nat, v: Json)
    requires p <= |inp| && ReadValue(inp, p, depth, max).Ok? && ReadValue(inp, p, depth, max).value == v
    requires SkipWs(inp, ReadValue(inp, p, depth, max).pos) == q && q < |inp| && inp[q] == 0x5D
    ensures ReadItems(inp, p, depth, max) == Ok([v], q + 1)
  {
    hide ReadValue, SkipWs;
  }

  lemma ReadsMoreItems(inp: Bytes, p: nat, q: nat, depth: nat, max: nat, v: Json, rest: seq<Json>, e: nat)
    requires p <= |inp| && ReadValue(inp, p, depth, max).Ok? && ReadValue(inp, p, depth, max).value == v
    requires SkipWs(inp, ReadValue(inp, p, depth, max).pos) == q && q < |inp| && inp[q] == 0x2C
    requires ReadItems(inp, q + 1, depth, max) == Ok(rest, e)
    ensures ReadItems(inp, p, depth, max) == Ok([v] + rest, e)
  {
    hide ReadValue, SkipWs;
  }

  // --- Objects ---

  lemma ObjectParts(ms: seq<Mem>, s: Bytes, inp: Bytes, p: nat)
    requires Good(TObject(ms, s)) && Holds(inp, p, TextBytes(TObject(ms, s)))
    ensures p < |inp| && inp[p] == 0x7B && Holds(inp, p + 1, s) && Holds(inp, p + 1 + |s|, MemsBytes(ms) + [0x7D])
    ensures ms == [] ==> MemsBytes(ms) == []
    ensures ms != [] ==> s == []
  {
    var b := MemsBytes(ms);
    Associates([0x7B] + s, b, [0x7D]);
    HoldsThree(inp, p, [0x7B], s, b + [0x7D]);
    HoldsAt(inp, p, [0x7B], 0);
    hide MemsBytes, Holds;
    if ms == [] { NoItems(); }
  }

  lemma {:induction false} ObjectReads(ms: seq<Mem>, s: Bytes, inp: Bytes, p: nat, depth: nat, max: nat)
    requires var t := TObject(ms, s);
             Good(t) && depth <= max && Within(t, max - depth) && Holds(inp, p, TextBytes(t))
    ensures var t := TObject(ms, s);
            p <= |inp| && ReadValue(inp, p, depth, max) == Ok(Means(t), p + |TextBytes(t)|)
    decreases ms, 1
  {
    hide *;
    var t := TObject(ms, s);
    Stays(inp, p, t);
    ObjectParts(ms, s, inp, p);
    ObjectWithin(ms, s, max - depth);
    SpacesSkip(s, inp, p + 1);
    if ms == [] {
      NothingBefore([0x7D]);
      HoldsByte(inp, p + 1 + |s|, 0x7D);
      EndsHere(inp, p + 1 + |s|);
      ReadsEmptyObject(inp, p, p + 1 + |s|, depth, max);
      NoItems();
    } else {
      MemsRead(ms, inp, p + 1, depth + 1, max);
      SkipAgain(inp, p + 1, depth + 1, max);
      KeyFirst(inp, p + 1, depth + 1, max);
      ReadsObject(inp, p, depth, max, MeanMems(ms), p + 1 + |MemsBytes(ms)| + 1);
    }
  }

  lemma ObjectWithin(ms: seq<Mem>, s: Bytes, room: int)
    requires var t := TObject(ms, s); Good(t) && Within(t, room)
    ensures room > 0 && AreSpaces(s)
    ensures forall i :: 0 <= i < |ms| ==> GoodMem(ms[i]) && WithinMem(ms[i], room - 1)
    ensures var t := TObject(ms, s);
            |TextBytes(t)| == 2 + |s| + |MemsBytes(ms)| && Means(t) == Obj(MeanMems(ms))
  {
    hide GoodMem, MemsBytes, MeanMems;
  }

  lemma ReadsEmptyObject(inp: Bytes, p: nat, j: nat, depth: nat, max: nat)
    requires p < |inp| && inp[p] == 0x7B && SkipWs(inp, p) == p && depth < max
    requires SkipWs(inp, p + 1) == j && j < |inp| && inp[j] == 0x7D
    ensures ReadValue(inp, p, depth, max) == Ok(Obj([]), j + 1)
  {
    hide SkipWs, ReadMembers;
  }

  lemma ReadsObject(inp: Bytes, p: nat, depth: nat, max: nat, ms: seq<Member>, e: nat)
    requires p < |inp| && inp[p] == 0x7B && SkipWs(inp, p) == p && depth < max
    requires SkipWs(inp, p + 1) < |inp| && inp[SkipWs(inp, p + 1)] == QUOTE
    requires ReadMembers(inp, SkipWs(inp, p + 1), depth + 1, max) == Ok(ms, e)
    ensures ReadValue(inp, p, depth, max) == Ok(Obj(ms), e)
  {
    hide SkipWs, ReadMembers;
  }

  /** Members that read begin with a quote. */
  lemma KeyFirst(inp: Bytes, i: nat, depth: nat, max: nat)
    requires i <= |inp| && ReadMembers(inp, i, depth, max).Ok?
    ensures SkipWs(inp, i) < |inp| && inp[SkipWs(inp, i)] == QUOTE
  {
    hide ReadValue, ReadString;
  }

  lemma {:induction false} MemReads(m: Mem, inp: Bytes, p: nat, depth: nat, max: nat)
    requires GoodMem(m) && depth <= max && WithinMem(m, max - depth) && Holds(inp, p, MemBytes(m))
    requires Separated(inp, p + |MemBytes(m)|)
    ensures p <= |inp| && p + |MemBytes(m)| <= |inp| && ReadKey(inp, p).Ok? && ReadKey(inp, p).value == MeansMem(m).key
    ensures var r := ReadValue(inp, ReadKey(inp, p).pos, depth, max);
            r.Ok? && r.value == MeansMem(m).value && SkipWs(inp, r.pos) == p + |MemBytes(m)|
    decreases m, 3
  {
    hide *;
    var k := MemKeyReads(m, inp, p);
    MemIs(m, max - depth);
    ItemReads(m.item, inp, k, depth, max);
  }

  lemma MemIs(m: Mem, room: int)
    requires GoodMem(m) && WithinMem(m, room)
    ensures GoodItem(m.item) && Within(m.item.value, room)
    ensures MeansMem(m) == Member(CharsMean(m.key), MeansItem(m.item))
  {
    hide GoodItem, Within, MeansItem, CharsMean;
  }

  lemma MemKeyReads(m: Mem, inp: Bytes, p: nat) returns (k: nat)
    requires GoodMem(m) && Holds(inp, p, MemBytes(m))
    ensures p <= |inp| && ReadKey(inp, p) == Ok(CharsMean(m.key), k) && k + |ItemBytes(m.item)| == p + |MemBytes(m)|
    ensures Holds(inp, k, ItemBytes(m.item))
  {
    hide *;
    MemParts(m, inp, p);
    var quoted := Quoted(m.key);
    var q := p + |m.before|;
    var e := q + |quoted|;
    k := e + |m.after| + 1;
    HoldsByte(inp, e + |m.after|, 0x3A);
    SpacesSkip(m.before, inp, p);
    SpacesSkip(m.after, inp, e);
    StringIsRead(m.key, inp, q);
    Quote(inp, q);
    Colon(inp, e + |m.after|);
    ReadsKey(inp, p, q, CharsMean(m.key), e, e + |m.after|);
  }

  lemma MemParts(m: Mem, inp: Bytes, p: nat)
    requires GoodMem(m) && Holds(inp, p, MemBytes(m))
    ensures AreSpaces(m.before) && AreSpaces(m.after) && GoodChars(m.key) && GoodItem(m.item)
    ensures var q := p + |m.before|;
            var e := q + |Quoted(m.key)|;
            var k := e + |m.after| + 1;
            && Holds(inp, p, m.before) && Holds(inp, q, Quoted(m.key)) && Holds(inp, e, m.after)
            && Holds(inp, e + |m.after|, [0x3A]) && Holds(inp, k, ItemBytes(m.item))
            && k + |ItemBytes(m.item)| == p + |MemBytes(m)| && p <= |inp|
  {
    hide ItemBytes, Holds, Quoted, GoodItem, AreSpaces, GoodChars;
    HoldsParts(inp, p, m.before + Quoted(m.key) + m.after + [0x3A], ItemBytes(m.item));
    HoldsParts(inp, p, m.before + Quoted(m.key) + m.after, [0x3A]);
    HoldsThree(inp, p, m.before, Quoted(m.key), m.after);
  }

  lemma Quote(inp: Bytes, q: nat)
    requires q < |inp| && inp[q] == QUOTE
    ensures SkipWs(inp, q) == q
  {
  }

  lemma Colon(inp: Bytes, q: nat)
    requires q < |inp| && inp[q] == 0x3A
    ensures SkipWs(inp, q) == q && inp[q] == COLON
  {
  }

  lemma ReadsKey(inp: Bytes, p: nat, q: nat, key: Bytes, e: nat, c: nat)
    requires p <= q < |inp| && SkipWs(inp, p) == q && inp[q] == QUOTE && ReadString(inp, q + 1) == Ok(key, e)
    requires e <= |inp| && SkipWs(inp, e) == c && c < |inp| && inp[c] == COLON
    ensures ReadKey(inp, p) == Ok(key, c + 1)
  {
    hide SkipWs, ReadString;
  }

  lemma {:induction false} MemsRead(ms: seq<Mem>, inp: Bytes, p: nat, depth: nat, max: nat)
    requires ms != [] && depth <= max
    requires forall i :: 0 <= i < |ms| ==> GoodMem(ms[i]) && WithinMem(ms[i], max - depth)
    requires Holds(inp, p, MemsBytes(ms) + [0x7D])
    ensures p <= |inp| && ReadMembers(inp, p, depth, max) == Ok(MeanMems(ms), p + |MemsBytes(ms)| + 1)
    decreases ms, 0
  {
    hide *;
    var first := MemBytes(ms[0]);
    var q := p + |first|;
    if |ms| == 1 {
      LastMem(ms);
      HoldsParts(inp, p, first, [0x7D]);
      HoldsByte(inp, q, 0x7D);
      MemReads(ms[0], inp, p, depth, max);
      ReadsLastMember(inp, p, q, depth, max, MeansMem(ms[0]));
    } else {
      var rest := ms[1..];
      MoreMems(ms);
      Regroup(first, 0x2C, MemsBytes(rest), 0x7D);
      HoldsThree(inp, p, first, [0x2C], MemsBytes(rest) + [0x7D]);
      HoldsByte(inp, q, 0x2C);
      MemReads(ms[0], inp, p, depth, max);
      MemsRead(rest, inp, q + 1, depth, max);
      ReadsMoreMembers(inp, p, q, depth, max, MeansMem(ms[0]), MeanMems(rest), q + 1 + |MemsBytes(rest)| + 1);
    }
  }

  lemma LastMem(ms: seq<Mem>)
    requires |ms| == 1 && GoodMem(ms[0])
    ensures MemsBytes(ms) == MemBytes(ms[0]) && MeanMems(ms) == [MeansMem(ms[0])]
  {
    hide MemBytes, MeansMem;
    assert ms[1..] == [];
    NothingMore(MemBytes(ms[0]));
  }

  lemma MoreMems(ms: seq<Mem>)
    requires |ms| > 1 && forall i :: 0 <= i < |ms| ==> GoodMem(ms[i])
    ensures MemsBytes(ms) == MemBytes(ms[0]) + ([0x2C] + MemsBytes(ms[1..]))
    ensures MeanMems(ms) == [MeansMem(ms[0])] + MeanMems(ms[1..])
    ensures ms[1..] != [] && |MemsBytes(ms)| == |MemBytes(ms[0])| + 1 + |MemsBytes(ms[1..])|
  {
    hide MemBytes, MeansMem;
  }

  lemma ReadsLastMember(inp: Bytes, p: nat, q: nat, depth: nat, max: nat, m: Member)
    requires p <= |inp| && ReadKey(inp, p).Ok? && ReadKey(inp, p).value == m.key
    requires var r := ReadValue(inp, ReadKey(inp, p).pos, depth, max); r.Ok? && r.value == m.value && SkipWs(inp, r.pos) == q
    requires q < |inp| && inp[q] == 0x7D
    ensures ReadMembers(inp, p, depth, max) == Ok([m], q + 1)
  {
    hide ReadValue, SkipWs, ReadKey;
  }

  lemma ReadsMoreMembers(inp: Bytes, p: nat, q: nat, depth: nat, max: nat, m: Member, rest: seq<Member>, e: nat)
    requires p <= |inp| && ReadKey(inp, p).Ok? && ReadKey(inp, p).value == m.key
    requires var r := ReadValue(inp, ReadKey(inp, p).pos, depth, max); r.Ok? && r.value == m.value && SkipWs(inp, r.pos) == q
    requires q < |inp| && inp[q] == 0x2C && ReadMembers(inp, q + 1, depth, max) == Ok(rest, e)
    ensures ReadMembers(inp, p, depth, max) == Ok([m] + rest, e)
  {
    hide ReadValue, SkipWs, ReadKey;
  }

  // --- Whatever is read is a text of the grammar ---

  /** The text t stands at p after the spaces and is what the parser read there. */
  ghost predicate Told(before: Bytes, t: Text, inp: Bytes, p: nat, room: int, r: Parse<Json>)
  {
    && AreSpaces(before) && Good(t) && Within(t, room) && r.Ok?
    && Holds(inp, p, before + TextBytes(t)) && r.pos == p + |before| + |TextBytes(t)| && r.value == Means(t)
  }

  lemma {:induction false} ValueTold(inp: Bytes, i: nat, depth: nat, max: nat) returns (before: Bytes, t: Text)
    requires i <= |inp| && depth <= max && ReadValue(inp, i, depth, max).Ok?
    ensures Told(before, t, inp, i, max - depth, ReadValue(inp, i, depth, max))
    decreases |inp| - i, 1
  {
    hide *;
    var j := ValueBegins(inp, i, depth, max);
    SpacesTold(inp, i);
    before := inp[i..j];
    if inp[j] == OPEN_BRACE {
      t := ObjectTold(inp, j, depth, max);
    } else if inp[j] == OPEN_BRACKET {
      t := ArrayTold(inp, j, depth, max);
    } else {
      t := ScalarTold(inp, j, depth, max);
    }
    HoldsTogether(inp, i, before, TextBytes(t));
    IsTold(before, t, inp, i, max - depth, ReadValue(inp, i, depth, max));
  }

  lemma IsTold(before: Bytes, t: Text, inp: Bytes, p: nat, room: int, r: Parse<Json>)
    requires AreSpaces(before) && Good(t) && Within(t, room) && r.Ok?
    requires Holds(inp, p, before + TextBytes(t)) && r.pos == p + |before| + |TextBytes(t)| && r.value == Means(t)
    ensures Told(before, t, inp, p, room, r)
  {
    hide Good, Within, TextBytes, Means, Holds;
  }

  lemma HoldsTogether(inp: Bytes, p: nat, a: Bytes, b: Bytes)
    requires Holds(inp, p, a) && Holds(inp, p + |a|, b)
    ensures Holds(inp, p, a + b)
  {
    assert inp[p..p + |a + b|] == inp[p..p + |a|] + inp[p + |a|..p + |a| + |b|];
  }

  lemma ValueBegins(inp: Bytes, i: nat, depth: nat, max: nat) returns (j: nat)
    requires i <= |inp| && ReadValue(inp, i, depth, max).Ok?
    ensures i <= j < |inp| && j == SkipWs(inp, i) == SkipWs(inp, j) && |inp[i..j]| == j - i
    ensures ReadValue(inp, j, depth, max) == ReadValue(inp, i, depth, max)
  {
    j := SkipWs(inp, i);
    SkipAgain(inp, i, depth, max);
    hide SkipWs, ReadObject, ReadArray, ReadString, ReadWord, ReadNumber;
  }

  lemma ScalarTold(inp: Bytes, j: nat, depth: nat, max: nat) returns (t: Text)
    requires j < |inp| && SkipWs(inp, j) == j && inp[j] != OPEN_BRACE && inp[j] != OPEN_BRACKET
    requires ReadValue(inp, j, depth, max).Ok?
    ensures Good(t) && Within(t, max - depth) && Holds(inp, j, TextBytes(t))
    ensures ReadValue(inp, j, depth, max) == Ok(Means(t), j + |TextBytes(t)|)
  {
    hide ReadString, ScanNumber, NumberValue, SkipWs;
    if inp[j] == QUOTE {
      t := StringTold(inp, j, depth, max);
    } else if inp[j] == LOWER_T {
      t := TTrue;
    } else if inp[j] == LOWER_F {
      t := TFalse;
    } else if inp[j] == LOWER_N {
      t := TNull;
    } else {
      t := NumberValueTold(inp, j, depth, max);
    }
  }

  lemma StringTold(inp: Bytes, j: nat, depth: nat, max: nat) returns (t: Text)
    requires j < |inp| && SkipWs(inp, j) == j && inp[j] == QUOTE && ReadString(inp, j + 1).Ok?
    ensures Good(t) && Within(t, max - depth) && Holds(inp, j, TextBytes(t))
    ensures ReadValue(inp, j, depth, max) == Ok(Means(t), j + |TextBytes(t)|)
  {
    var cs := QuotedTold(inp, j);
    t := TString(cs);
    hide ReadString, SkipWs, Quoted, CharsMean, Holds, GoodChars;
  }

  lemma QuotedTold(inp: Bytes, j: nat) returns (cs: seq<Char>)
    requires j < |inp| && inp[j] == QUOTE && ReadString(inp, j + 1).Ok?
    ensures GoodChars(cs) && Holds(inp, j, Quoted(cs)) && ReadString(inp, j + 1) == Ok(CharsMean(cs), j + |Quoted(cs)|)
  {
    hide ReadString, CharsText, CharsMean, GoodChars;
    cs := EscapeLaws.CharsTold(inp, j + 1);
    Associates([0x22], CharsText(cs), [0x22]);
    QuoteHeld(inp, j);
    HoldsTogether(inp, j, [0x22], CharsText(cs) + [0x22]);
  }

  lemma QuoteHeld(inp: Bytes, j: nat)
    requires j < |inp|
    ensures Holds(inp, j, [inp[j]])
  {
  }

  lemma NumberValueTold(inp: Bytes, j: nat, depth: nat, max: nat) returns (t: Text)
    requires j < |inp| && SkipWs(inp, j) == j && (inp[j] == MINUS || IsDigit(inp[j])) && ScanNumber(inp, j, |inp|).Some?
    ensures Good(t) && Within(t, max - depth) && Holds(inp, j, TextBytes(t))
    ensures ReadValue(inp, j, depth, max) == Ok(Means(t), j + |TextBytes(t)|)
  {
    hide ReadValue, NumberText, NumberMeans, NumberValue, Holds, ScanNumber, GoodNumber;
    var n := NumberTold(inp, j);
    t := TNumber(n);
    NumberValueIs(n);
    Slice(inp, j, NumberText(n));
    ReadsNumber(inp, j, j + |NumberText(n)|, depth, max);
  }

  lemma {:induction false} ArrayTold(inp: Bytes, j: nat, depth: nat, max: nat) returns (t: Text)
    requires j < |inp| && SkipWs(inp, j) == j && inp[j] == OPEN_BRACKET && depth <= max && ReadValue(inp, j, depth, max).Ok?
    ensures Good(t) && Within(t, max - depth) && Holds(inp, j, TextBytes(t))
    ensures ReadValue(inp, j, depth, max) == Ok(Means(t), j + |TextBytes(t)|)
    decreases |inp| - j, 0
  {
    hide *;
    OpenByte();
    var k := SkipWs(inp, j + 1);
    if k < |inp| && inp[k] == 0x5D && depth < max {
      t := EmptyArrayTold(inp, j, depth, max);
    } else {
      ArrayOpens(inp, j, depth, max);
      var items := ItemsTold(inp, j + 1, depth + 1, max);
      t := TArray(items, []);
      SkipAgain(inp, j + 1, depth + 1, max);
      ReadsArray(inp, j, depth, max, MeanItems(items), j + 1 + |ItemsBytes(items)| + 1);
      ArrayIs(items, max - depth);
      QuoteHeld(inp, j);
      Regroup([0x5B], 0x5B, [], 0x5D);
      Associates([0x5B], ItemsBytes(items), [0x5D]);
      HoldsTogether(inp, j, [0x5B], ItemsBytes(items) + [0x5D]);
    }
  }

  lemma OpenByte()
    ensures OPEN_BRACKET == 0x5B && OPEN_BRACE == 0x7B
  {
  }

  lemma ArrayIs(items: seq<Item>, room: int)
    requires items != [] && room > 0 && forall i :: 0 <= i < |items| ==> GoodItem(items[i]) && Within(items[i].value, room - 1)
    ensures var t := TArray(items, []);
            && Good(t) && Within(t, room) && TextBytes(t) == [0x5B] + ItemsBytes(items) + [0x5D]
            && Means(t) == Arr(MeanItems(items)) && |TextBytes(t)| == |ItemsBytes(items)| + 2
  {
    hide GoodItem, ItemsBytes, MeanItems;
    NothingMore([0x5B]);
  }

  lemma ArrayOpens(inp: Bytes, j: nat, depth: nat, max: nat)
    requires j < |inp| && SkipWs(inp, j) == j && inp[j] == OPEN_BRACKET && ReadValue(inp, j, depth, max).Ok?
    requires var k := SkipWs(inp, j + 1); !(k < |inp| && inp[k] == 0x5D && depth < max)
    ensures depth < max && j + 1 <= |inp| && SkipWs(inp, j + 1) < |inp| && inp[SkipWs(inp, j + 1)] != 0x5D
    ensures ReadItems(inp, j + 1, depth + 1, max).Ok?
  {
    SkipAgain(inp, j + 1, depth + 1, max);
    SomeItems(inp, SkipWs(inp, j + 1), depth + 1, max);
    hide ReadItems, SkipWs;
  }

  lemma SomeItems(inp: Bytes, k: nat, depth: nat, max: nat)
    requires k <= |inp|
    ensures k == |inp| ==> !ReadItems(inp, k, depth, max).Ok? && !ReadMembers(inp, k, depth, max).Ok?
  {
  }

  lemma EmptyArrayTold(inp: Bytes, j: nat, depth: nat, max: nat) returns (t: Text)
    requires j < |inp| && SkipWs(inp, j) == j && inp[j] == OPEN_BRACKET && depth < max
    requires var k := SkipWs(inp, j + 1); k < |inp| && inp[k] == 0x5D
    ensures Good(t) && Within(t, max - depth) && Holds(inp, j, TextBytes(t))
    ensures ReadValue(inp, j, depth, max) == Ok(Means(t), j + |TextBytes(t)|)
  {
    var k := SkipWs(inp, j + 1);
    SpacesTold(inp, j + 1);
    ReadsEmptyArray(inp, j, k, depth, max);
    var s := inp[j + 1..k];
    t := TArray([], s);
    EmptyIs(s, max - depth);
    assert inp[j..k + 1] == [inp[j]] + s + [inp[k]];
    hide TextBytes, Means, Good, ReadValue, SkipWs;
  }

  lemma EmptyIs(s: Bytes, room: int)
    requires AreSpaces(s) && room > 0
    ensures var t := TArray([], s);
            Good(t) && Within(t, room) && TextBytes(t) == [0x5B] + s + [0x5D] && Means(t) == Arr([])
    ensures var t := TObject([], s);
            Good(t) && Within(t, room) && TextBytes(t) == [0x7B] + s + [0x7D] && Means(t) == Obj([])
  {
    NoItems();
    NothingMore([0x5B] + s);
    NothingMore([0x7B] + s);
  }

  /** A value, the spaces around it, and the byte after them. */
  lemma {:induction false} ItemTold(inp: Bytes, i: nat, depth: nat, max: nat) returns (one: Item)
    requires i <= |inp| && depth <= max && ReadValue(inp, i, depth, max).Ok?
    ensures GoodItem(one) && Within(one.value, max - depth) && Holds(inp, i, ItemBytes(one))
    ensures MeansItem(one) == ReadValue(inp, i, depth, max).value
    ensures SkipWs(inp, ReadValue(inp, i, depth, max).pos) == i + |ItemBytes(one)| <= |inp|
    decreases |inp| - i, 2
  {
    hide *;
    var before, t := ValueTold(inp, i, depth, max);
    var e := ReadValue(inp, i, depth, max).pos;
    var q := SkipWs(inp, e);
    SpacesTold(inp, e);
    one := Item(before, t, inp[e..q]);
    ItemIs(before, t, inp, i, max - depth, ReadValue(inp, i, depth, max));
  }

  lemma ItemIs(before: Bytes, t: Text, inp: Bytes, i: nat, room: int, r: Parse<Json>)
    requires Told(before, t, inp, i, room, r) && r.pos <= |inp|
    requires var after := inp[r.pos..SkipWs(inp, r.pos)]; AreSpaces(after) && Holds(inp, r.pos, after)
    ensures var one := Item(before, t, inp[r.pos..SkipWs(inp, r.pos)]);
            && GoodItem(one) && Within(one.value, room) && Holds(inp, i, ItemBytes(one))
            && MeansItem(one) == r.value && SkipWs(inp, r.pos) == i + |ItemBytes(one)| <= |inp|
  {
    hide Good, Within, TextBytes, Means, Holds, AreSpaces, SkipWs;
    HoldsTogether(inp, i, before + TextBytes(t), inp[r.pos..SkipWs(inp, r.pos)]);
  }

  /** A part, a comma and what follows it are held together. */
  lemma Joins(inp: Bytes, i: nat, q: nat, a: Bytes, b: Bytes, close: byte)
    requires Holds(inp, i, a) && q == i + |a| && q < |inp| && inp[q] == 0x2C && Holds(inp, q + 1, b + [close])
    ensures Holds(inp, i, a + ([0x2C] + b) + [close])
  {
    hide *;
    QuoteHeld(inp, q);
    HoldsTogether(inp, q, [0x2C], b + [close]);
    HoldsTogether(inp, i, a, [0x2C] + (b + [close]));
    JoinsUp(a, b, close);
  }

  lemma JoinsUp(a: Bytes, b: Bytes, close: byte)
    ensures a + ([0x2C] + b) + [close] == a + ([0x2C] + (b + [close]))
  {
  }

  lemma ItemsGood(one: Item, rest: seq<Item>, room: int)
    requires GoodItem(one) && Within(one.value, room) && forall k :: 0 <= k < |rest| ==> GoodItem(rest[k]) && Within(rest[k].value, room)
    ensures var all := [one] + rest;
            && (forall k :: 0 <= k < |all| ==> GoodItem(all[k]) && Within(all[k].value, room))
            && |all| == |rest| + 1 && all[0] == one && all[1..] == rest
  {
    hide *;
  }

  /** One more item and its comma before others that are read. */
  lemma ItemsGrow(one: Item, rest: seq<Item>, inp: Bytes, i: nat, q: nat, room: int)
    requires GoodItem(one) && Within(one.value, room) && rest != []
    requires forall k :: 0 <= k < |rest| ==> GoodItem(rest[k]) && Within(rest[k].value, room)
    requires Holds(inp, i, ItemBytes(one)) && q == i + |ItemBytes(one)| && q < |inp| && inp[q] == 0x2C
    requires Holds(inp, q + 1, ItemsBytes(rest) + [0x5D])
    ensures var all := [one] + rest;
            && (forall k :: 0 <= k < |all| ==> GoodItem(all[k]) && Within(all[k].value, room))
            && Holds(inp, i, ItemsBytes(all) + [0x5D]) && MeanItems(all) == [MeansItem(one)] + MeanItems(rest)
            && i + |ItemsBytes(all)| == q + 1 + |ItemsBytes(rest)|
  {
    hide *;
    var all := [one] + rest;
    ItemsGood(one, rest, room);
    MoreItems(all);
    Joins(inp, i, q, ItemBytes(one), ItemsBytes(rest), 0x5D);
  }

  lemma ItemsAlone(one: Item, inp: Bytes, i: nat, q: nat, room: int)
    requires GoodItem(one) && Within(one.value, room)
    requires Holds(inp, i, ItemBytes(one)) && q == i + |ItemBytes(one)| && q < |inp| && inp[q] == 0x5D
    ensures var all := [one];
            && (forall k :: 0 <= k < |all| ==> GoodItem(all[k]) && Within(all[k].value, room))
            && Holds(inp, i, ItemsBytes(all) + [0x5D]) && MeanItems(all) == [MeansItem(one)] && i + |ItemsBytes(all)| == q
  {
    hide GoodItem, Grammar.Within, WithinMem, ItemBytes, ItemsBytes, MeanItems, MeansItem, Holds;
    LastItem([one]);
    QuoteHeld(inp, q);
    HoldsTogether(inp, i, ItemBytes(one), [0x5D]);
  }

  lemma {:induction false} ItemsTold(inp: Bytes, i: nat, depth: nat, max: nat) returns (items: seq<Item>)
    requires i <= |inp| && depth <= max && ReadItems(inp, i, depth, max).Ok?
    ensures items != [] && forall k :: 0 <= k < |items| ==> GoodItem(items[k]) && Within(items[k].value, max - depth)
    ensures Holds(inp, i, ItemsBytes(items) + [0x5D])
    ensures ReadItems(inp, i, depth, max) == Ok(MeanItems(items), i + |ItemsBytes(items)| + 1)
    decreases |inp| - i, 3
  {
    hide *;
    ItemsOpen(inp, i, depth, max);
    var one := ItemTold(inp, i, depth, max);
    var q := i + |ItemBytes(one)|;
    if inp[q] == 0x2C {
      var rest := ItemsTold(inp, q + 1, depth, max);
      items := [one] + rest;
      ItemsGrow(one, rest, inp, i, q, max - depth);
      ReadsMoreItems(inp, i, q, depth, max, MeansItem(one), MeanItems(rest), q + 1 + |ItemsBytes(rest)| + 1);
    } else {
      items := [one];
      ItemsAlone(one, inp, i, q, max - depth);
      ReadsLastItem(inp, i, q, depth, max, MeansItem(one));
    }
  }

  lemma ItemsOpen(inp: Bytes, i: nat, depth: nat, max: nat)
    requires i <= |inp| && ReadItems(inp, i, depth, max).Ok?
    ensures ReadValue(inp, i, depth, max).Ok?
    ensures var q := SkipWs(inp, ReadValue(inp, i, depth, max).pos);
            i < q < |inp| && (inp[q] == 0x5D || (inp[q] == 0x2C && ReadItems(inp, q + 1, depth, max).Ok?))
  {
    hide ReadValue, SkipWs;
  }

  lemma {:induction false} ObjectTold(inp: Bytes, j: nat, depth: nat, max: nat) returns (t: Text)
    requires j < |inp| && SkipWs(inp, j) == j && inp[j] == OPEN_BRACE && depth <= max && ReadValue(inp, j, depth, max).Ok?
    ensures Good(t) && Within(t, max - depth) && Holds(inp, j, TextBytes(t))
    ensures ReadValue(inp, j, depth, max) == Ok(Means(t), j + |TextBytes(t)|)
    decreases |inp| - j, 0
  {
    hide *;
    OpenByte();
    var k := SkipWs(inp, j + 1);
    if k < |inp| && inp[k] == 0x7D && depth < max {
      t := EmptyObjectTold(inp, j, depth, max);
    } else {
      ObjectOpens(inp, j, depth, max);
      var ms := MemsTold(inp, j + 1, depth + 1, max);
      t := TObject(ms, []);
      SkipAgain(inp, j + 1, depth + 1, max);
      KeyFirst(inp, j + 1, depth + 1, max);
      ReadsObject(inp, j, depth, max, MeanMems(ms), j + 1 + |MemsBytes(ms)| + 1);
      ObjectIs(ms, max - depth);
      QuoteHeld(inp, j);
      Associates([0x7B], MemsBytes(ms), [0x7D]);
      HoldsTogether(inp, j, [0x7B], MemsBytes(ms) + [0x7D]);
    }
  }

  lemma ObjectIs(ms: seq<Mem>, room: int)
    requires ms != [] && room > 0 && forall i :: 0 <= i < |ms| ==> GoodMem(ms[i]) && WithinMem(ms[i], room - 1)
    ensures var t := TObject(ms, []);
            && Good(t) && Within(t, room) && TextBytes(t) == [0x7B] + MemsBytes(ms) + [0x7D]
            && Means(t) == Obj(MeanMems(ms)) && |TextBytes(t)| == |MemsBytes(ms)| + 2
  {
    hide GoodMem, MemsBytes, MeanMems;
    NothingMore([0x7B]);
  }

  lemma ObjectOpens(inp: Bytes, j: nat, depth: nat, max: nat)
    requires j < |inp| && SkipWs(inp, j) == j && inp[j] == OPEN_BRACE && ReadValue(inp, j, depth, max).Ok?
    requires var k := SkipWs(inp, j + 1); !(k < |inp| && inp[k] == 0x7D && depth < max)
    ensures depth < max && j + 1 <= |inp| && ReadMembers(inp, j + 1, depth + 1, max).Ok?
  {
    SkipAgain(inp, j + 1, depth + 1, max);
    hide ReadMembers, SkipWs;
  }

  lemma EmptyObjectTold(inp: Bytes, j: nat, depth: nat, max: nat) returns (t: Text)
    requires j < |inp| && SkipWs(inp, j) == j && inp[j] == OPEN_BRACE && depth < max
    requires var k := SkipWs(inp, j + 1); k < |inp| && inp[k] == 0x7D
    ensures Good(t) && Within(t, max - depth) && Holds(inp, j, TextBytes(t))
    ensures ReadValue(inp, j, depth, max) == Ok(Means(t), j + |TextBytes(t)|)
  {
    var k := SkipWs(inp, j + 1);
    SpacesTold(inp, j + 1);
    ReadsEmptyObject(inp, j, k, depth, max);
    var s := inp[j + 1..k];
    t := TObject([], s);
    EmptyIs(s, max - depth);
    assert inp[j..k + 1] == [inp[j]] + s + [inp[k]];
    hide TextBytes, Means, Good, ReadValue, SkipWs;
  }

  lemma {:induction false} MemTold(inp: Bytes, i: nat, depth: nat, max: nat) returns (m: Mem)
    requires i <= |inp| && depth <= max && ReadKey(inp, i).Ok? && ReadValue(inp, ReadKey(inp, i).pos, depth, max).Ok?
    ensures GoodMem(m) && WithinMem(m, max - depth) && Holds(inp, i, MemBytes(m))
    ensures MeansMem(m) == Member(ReadKey(inp, i).value, ReadValue(inp, ReadKey(inp, i).pos, depth, max).value)
    ensures SkipWs(inp, ReadValue(inp, ReadKey(inp, i).pos, depth, max).pos) == i + |MemBytes(m)| <= |inp|
    decreases |inp| - i, 2
  {
    hide *;
    var before, cs, after := KeyTold(inp, i);
    var k := ReadKey(inp, i).pos;
    var one := ItemTold(inp, k, depth, max);
    m := Mem(before, cs, after, one);
    KeyEnds(inp, i);
    MemHolds(m, inp, i, k, max - depth);
  }

  lemma KeyEnds(inp: Bytes, i: nat)
    requires i <= |inp| && ReadKey(inp, i).Ok?
    ensures i < ReadKey(inp, i).pos <= |inp|
  {
  }

  lemma KeyTold(inp: Bytes, i: nat) returns (before: Bytes, cs: seq<Char>, after: Bytes)
    requires i <= |inp| && ReadKey(inp, i).Ok?
    ensures i < ReadKey(inp, i).pos <= |inp|
    ensures AreSpaces(before) && GoodChars(cs) && AreSpaces(after)
    ensures Holds(inp, i, before + Quoted(cs) + after + [0x3A])
    ensures ReadKey(inp, i) == Ok(CharsMean(cs), i + |before + Quoted(cs) + after + [0x3A]|)
  {
    var j := SkipWs(inp, i);
    hide ReadString, SkipWs, Quoted, CharsMean, Holds, GoodChars;
    cs := QuotedTold(inp, j);
    var e := ReadString(inp, j + 1).pos;
    var c := SkipWs(inp, e);
    SpacesTold(inp, i);
    SpacesTold(inp, e);
    before, after := inp[i..j], inp[e..c];
    QuoteHeld(inp, c);
    HoldsTogether(inp, i, before, Quoted(cs));
    HoldsTogether(inp, i, before + Quoted(cs), after);
    HoldsTogether(inp, i, before + Quoted(cs) + after, [0x3A]);
  }

  lemma MemHolds(m: Mem, inp: Bytes, i: nat, k: nat, room: int)
    requires AreSpaces(m.before) && GoodChars(m.key) && AreSpaces(m.after) && GoodItem(m.item) && Within(m.item.value, room)
    requires Holds(inp, i, m.before + Quoted(m.key) + m.after + [0x3A])
    requires k == i + |m.before + Quoted(m.key) + m.after + [0x3A]| && Holds(inp, k, ItemBytes(m.item))
    ensures GoodMem(m) && WithinMem(m, room) && Holds(inp, i, MemBytes(m)) && k + |ItemBytes(m.item)| == i + |MemBytes(m)|
    ensures MeansMem(m) == Member(CharsMean(m.key), MeansItem(m.item))
  {
    hide AreSpaces, GoodChars, GoodItem, Within, Holds, Quoted, ItemBytes, MeansItem, CharsMean;
    HoldsTogether(inp, i, m.before + Quoted(m.key) + m.after + [0x3A], ItemBytes(m.item));
  }

  lemma MemsGood(one: Mem, rest: seq<Mem>, room: int)
    requires GoodMem(one) && WithinMem(one, room) && forall k :: 0 <= k < |rest| ==> GoodMem(rest[k]) && WithinMem(rest[k], room)
    ensures var all := [one] + rest;
            && (forall k :: 0 <= k < |all| ==> GoodMem(all[k]) && WithinMem(all[k], room))
            && |all| == |rest| + 1 && all[0] == one && all[1..] == rest
  {
    hide *;
  }

  /** One more member and its comma before others that are read. */
  lemma MemsGrow(one: Mem, rest: seq<Mem>, inp: Bytes, i: nat, q: nat, room: int)
    requires GoodMem(one) && WithinMem(one, room) && rest != []
    requires forall k :: 0 <= k < |rest| ==> GoodMem(rest[k]) && WithinMem(rest[k], room)
    requires Holds(inp, i, MemBytes(one)) && q == i + |MemBytes(one)| && q < |inp| && inp[q] == 0x2C
    requires Holds(inp, q + 1, MemsBytes(rest) + [0x7D])
    ensures var all := [one] + rest;
            && (forall k :: 0 <= k < |all| ==> GoodMem(all[k]) && WithinMem(all[k], room))
            && Holds(inp, i, MemsBytes(all) + [0x7D]) && MeanMems(all) == [MeansMem(one)] + MeanMems(rest)
            && i + |MemsBytes(all)| == q + 1 + |MemsBytes(rest)|
  {
    hide *;
    var all := [one] + rest;
    MemsGood(one, rest, room);
    MoreMems(all);
    Joins(inp, i, q, MemBytes(one), MemsBytes(rest), 0x7D);
  }

  lemma MemsAlone(one: Mem, inp: Bytes, i: nat, q: nat, room: int)
    requires GoodMem(one) && WithinMem(one, room)
    requires Holds(inp, i, MemBytes(one)) && q == i + |MemBytes(one)| && q < |inp| && inp[q] == 0x7D
    ensures var all := [one];
            && (forall k :: 0 <= k < |all| ==> GoodMem(all[k]) && WithinMem(all[k], room))
            && Holds(inp, i, MemsBytes(all) + [0x7D]) && MeanMems(all) == [MeansMem(one)] && i + |MemsBytes(all)| == q
  {
    hide GoodMem, Grammar.Within, WithinMem, MemBytes, MemsBytes, MeanMems, MeansMem, Holds;
    LastMem([one]);
    QuoteHeld(inp, q);
    HoldsTogether(inp, i, MemBytes(one), [0x7D]);
  }

  lemma {:induction false} MemsTold(inp: Bytes, i: nat, depth: nat, max: nat) returns (ms: seq<Mem>)
    requires i <= |inp| && depth <= max && ReadMembers(inp, i, depth, max).Ok?
    ensures ms != [] && forall k :: 0 <= k < |ms| ==> GoodMem(ms[k]) && WithinMem(ms[k], max - depth)
    ensures Holds(inp, i, MemsBytes(ms) + [0x7D])
    ensures ReadMembers(inp, i, depth, max) == Ok(MeanMems(ms), i + |MemsBytes(ms)| + 1)
    decreases |inp| - i, 3
  {
    hide *;
    MembersOpen(inp, i, depth, max);
    var one := MemTold(inp, i, depth, max);
    var q := i + |MemBytes(one)|;
    if inp[q] == 0x2C {
      var rest := MemsTold(inp, q + 1, depth, max);
      ms := [one] + rest;
      MemsGrow(one, rest, inp, i, q, max - depth);
      ReadsMoreMembers(inp, i, q, depth, max, MeansMem(one), MeanMems(rest), q + 1 + |MemsBytes(rest)| + 1);
    } else {
      ms := [one];
      MemsAlone(one, inp, i, q, max - depth);
      ReadsLastMember(inp, i, q, depth, max, MeansMem(one));
    }
  }

  lemma MembersOpen(inp: Bytes, i: nat, depth: nat, max: nat)
    requires i <= |inp| && ReadMembers(inp, i, depth, max).Ok?
    ensures ReadKey(inp, i).Ok? && ReadValue(inp, ReadKey(inp, i).pos, depth, max).Ok?
    ensures var q := SkipWs(inp, ReadValue(inp, ReadKey(inp, i).pos, depth, max).pos);
            i < q < |inp| && (inp[q] == 0x7D || (inp[q] == 0x2C && ReadMembers(inp, q + 1, depth, max).Ok?))
  {
    hide ReadValue, SkipWs, ReadKey;
  }

  // --- Documents ---

  lemma MarkIs(inp: Bytes)
    ensures var b := BomLength(inp); inp[..b] == MarkText(b > 0) && Holds(inp, 0, inp[..b]) && |MarkText(b > 0)| == b
  {
    var b := BomLength(inp);
    assert inp[0..0 + b] == inp[..b];
  }

  /** A document that is read is a text of the grammar. */
  lemma DocumentTold(inp: Bytes, max: nat)
    requires ReadDocument(inp, max).Some?
    ensures IsText(inp, ReadDocument(inp, max).value, max)
  {
    hide ReadValue, SkipWs, GoodItem, ItemBytes, MeansItem, Grammar.Within;
    var b := BomLength(inp);
    MarkIs(inp);
    var i := ItemTold(inp, b, 0, max);
    HoldsTogether(inp, 0, inp[..b], ItemBytes(i));
    Slice(inp, 0, inp[..b] + ItemBytes(i));
    assert DocumentBytes(b > 0, i) == inp[..b] + ItemBytes(i);
    assert inp[0..0 + |inp|] == inp;
  }

  /** A text of the grammar is read as what it means. */
  lemma DocumentReads(inp: Bytes, mark: bool, i: Item, max: nat)
    requires GoodItem(i) && Within(i.value, max) && DocumentBytes(mark, i) == inp
    ensures ReadDocument(inp, max) == Some(MeansItem(i))
  {
    DocumentBegins(inp, mark, i);
    hide *;
    var b := |MarkText(mark)|;
    DocumentParts(inp, mark, i);
    EndSeparated(inp);
    ItemReads(i, inp, b, 0, max);
    ReadsDocument(inp, b, max, MeansItem(i));
  }

  lemma DocumentParts(inp: Bytes, mark: bool, i: Item)
    requires GoodItem(i) && DocumentBytes(mark, i) == inp
    ensures Holds(inp, |MarkText(mark)|, ItemBytes(i)) && |MarkText(mark)| + |ItemBytes(i)| == |inp|
  {
    hide ItemBytes, MarkText, GoodItem;
    assert inp[|MarkText(mark)|..] == ItemBytes(i);
  }

  lemma EndSeparated(inp: Bytes)
    ensures Separated(inp, |inp|)
  {
  }

  lemma ReadsDocument(inp: Bytes, b: nat, max: nat, v: Json)
    requires b == BomLength(inp) && ReadValue(inp, b, 0, max).Ok? && ReadValue(inp, b, 0, max).value == v
    requires SkipWs(inp, ReadValue(inp, b, 0, max).pos) == |inp|
    ensures ReadDocument(inp, max) == Some(v)
  {
    hide ReadValue, SkipWs, BomLength;
  }

  /** Without a byte order mark a text does not begin like one. */
  lemma DocumentBegins(inp: Bytes, mark: bool, i: Item)
    requires GoodItem(i) && DocumentBytes(mark, i) == inp
    ensures BomLength(inp) == |MarkText(mark)|
  {
    if mark {
      assert inp[..3] == [0xEF, 0xBB, 0xBF];
    } else {
      assert inp == ItemBytes(i);
      ItemBegins(i);
      hide ItemBytes, GoodItem;
      assert |inp| >= 3 ==> inp[..3][0] == inp[0];
    }
  }

  lemma ItemBegins(i: Item)
    requires GoodItem(i)
    ensures ItemBytes(i) != [] && ItemBytes(i)[0] < 0x80
  {
    FirstByte(i.value);
    hide TextBytes;
    if i.before == [] { assert ItemBytes(i)[0] == TextBytes(i.value)[0]; } else { assert ItemBytes(i)[0] == i.before[0]; }
  }

  /** The parser reads a text as a tree exactly if the text is in the grammar, nests within the limit, and means it. */
  lemma ParsesExactly(inp: Bytes, v: Json, max: nat)
    ensures ReadDocument(inp, max) == Some(v) <==> IsText(inp, v, max)
  {
    hide ReadDocument, GoodItem, DocumentBytes, MeansItem, Grammar.Within;
    if ReadDocument(inp, max) == Some(v) { DocumentTold(inp, max); }
    if IsText(inp, v, max) {
      var mark: bool, i: Item :|
        GoodItem(i) && Within(i.value, max) && DocumentBytes(mark, i) == inp && MeansItem(i) == v;
      DocumentReads(inp, mark, i, max);
    }
  }
}
