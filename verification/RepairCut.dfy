/** The one way a repair goes wrong: the depth cap cuts an array off after its comma. */
module RepairCut {
  import opened Bytes
  import opened Texts
  import opened Options
  import opened Scan
  import opened ParserSpec
  import opened Structure
  import opened RawTree
  import opened RepairSpec
  import opened RepairShape
  import opened RepairValid
  import RepairAccepts

  // --- No structurally valid text has a comma before its last closing brackets ---

  /** Back over closing brackets. */
  function Back(inp: Bytes, e: nat): (b: nat)
    requires e <= |inp|
    ensures b <= e && (b > 0 ==> !Closing(inp[b - 1]))
  {
    if e > 0 && Closing(inp[e - 1]) then Back(inp, e - 1) else e
  }

  predicate EndsWell(inp: Bytes, e: nat)
    requires e <= |inp|
  {
    var b := Back(inp, e);
    b > 0 && inp[b - 1] != COMMA
  }

  lemma {:induction false} SkippedSpace(inp: Bytes, i: nat)
    requires i <= |inp|
    ensures var j := SkipWs(inp, i); i < j ==> IsWs(inp[j - 1])
    decreases |inp| - i
  {
    if i < |inp| && IsWs(inp[i]) { SkippedSpace(inp, i + 1); }
  }

  /** A closing bracket after whitespace, or right after something that ends well, ends well. */
  lemma BracketEndsWell(inp: Bytes, e: nat)
    requires e <= |inp| && SkipWs(inp, e) < |inp| && Closing(inp[SkipWs(inp, e)]) && EndsWell(inp, e)
    ensures EndsWell(inp, SkipWs(inp, e) + 1)
  {
    SkippedSpace(inp, e);
  }

  lemma {:induction false} StringEndsInQuote(inp: Bytes, i: nat)
    requires i <= |inp| && StringEnd(inp, i).Some?
    ensures inp[StringEnd(inp, i).value - 1] == QUOTE
    decreases |inp| - i
  {
    hide SimpleEscape, Hex4;
    if inp[i] == QUOTE {
    } else if inp[i] == BACKSLASH {
      StringEndsInQuote(inp, i + if SimpleEscape(inp[i + 1]).Some? then 2 else 6);
    } else {
      StringEndsInQuote(inp, i + 1);
    }
  }

  lemma {:induction false} DigitsEnd(inp: Bytes, i: nat, end: nat)
    requires i < end <= |inp| && IsDigit(inp[i])
    ensures IsDigit(inp[SkipDigits(inp, i, end) - 1])
    decreases end - i
  {
    if i + 1 < end && IsDigit(inp[i + 1]) { DigitsEnd(inp, i + 1, end); }
  }

  lemma NumberEndsInDigit(inp: Bytes, i: nat)
    requires i <= |inp| && ScanNumber(inp, i, |inp|).Some?
    ensures IsDigit(inp[ScanNumber(inp, i, |inp|).value - 1])
  {
    hide SkipDigits;
    IntegerEnds(inp, i);
    var a := ScanInteger(inp, i, |inp|).value;
    FractionEnds(inp, a);
    ExponentEnds(inp, ScanFraction(inp, a, |inp|).value);
  }

  lemma IntegerEnds(inp: Bytes, i: nat)
    requires i <= |inp| && ScanInteger(inp, i, |inp|).Some?
    ensures IsDigit(inp[ScanInteger(inp, i, |inp|).value - 1])
  {
    hide SkipDigits;
    var q := if i < |inp| && inp[i] == MINUS then i + 1 else i;
    if inp[q] != ZERO { DigitsEnd(inp, q, |inp|); }
  }

  lemma FractionEnds(inp: Bytes, q: nat)
    requires 0 < q <= |inp| && ScanFraction(inp, q, |inp|).Some? && IsDigit(inp[q - 1])
    ensures IsDigit(inp[ScanFraction(inp, q, |inp|).value - 1])
  {
    hide SkipDigits;
    if q < |inp| && inp[q] == DOT { DigitsEnd(inp, q + 1, |inp|); }
  }

  lemma ExponentEnds(inp: Bytes, q: nat)
    requires 0 < q <= |inp| && ScanExponent(inp, q, |inp|).Some? && IsDigit(inp[q - 1])
    ensures IsDigit(inp[ScanExponent(inp, q, |inp|).value - 1])
  {
    hide SkipDigits;
    if q < |inp| && (inp[q] == LOWER_E || inp[q] == UPPER_E) {
      var s := if q + 1 < |inp| && (inp[q + 1] == PLUS || inp[q + 1] == MINUS) then q + 2 else q + 1;
      DigitsEnd(inp, s, |inp|);
    }
  }

  lemma AtomEndsWell(inp: Bytes, i: nat)
    requires i < |inp| && AtomEnd(inp, i).Some?
    ensures EndsWell(inp, AtomEnd(inp, i).value)
  {
    hide StringEnd, ScanNumber;
    var c := inp[i];
    if c == QUOTE {
      StringEndsInQuote(inp, i + 1);
    } else if c == LOWER_T {
      WordEndsWell(inp, i, TRUE_WORD);
    } else if c == LOWER_F {
      WordEndsWell(inp, i, FALSE_WORD);
    } else if c == LOWER_N {
      WordEndsWell(inp, i, NULL_WORD);
    } else {
      NumberEndsInDigit(inp, i);
    }
  }

  lemma WordEndsWell(inp: Bytes, i: nat, word: Bytes)
    requires word == TRUE_WORD || word == FALSE_WORD || word == NULL_WORD
    requires i <= |inp| && WordSpan(inp, i, word).Some?
    ensures EndsWell(inp, WordSpan(inp, i, word).value)
  {
    assert inp[i + |word| - 1] == inp[i..i + |word|][|word| - 1];
  }

  lemma {:induction false} ValueEndsWell(inp: Bytes, i: nat, depth: nat, max: nat)
    requires i <= |inp| && ValueEnd(inp, i, depth, max).Some?
    ensures EndsWell(inp, ValueEnd(inp, i, depth, max).value)
    decreases |inp| - i, 1
  {
    hide AtomEnd, ItemsEnd, MembersEnd, SkipWs, EndsWell;
    var j := SkipWs(inp, i);
    if inp[j] == OPEN_BRACE || inp[j] == OPEN_BRACKET {
      OpenerEndsWell(inp, j);
      var k := SkipWs(inp, j + 1);
      if k < |inp| && inp[k] == (if inp[j] == OPEN_BRACE then CLOSE_BRACE else CLOSE_BRACKET) {
        BracketEndsWell(inp, j + 1);
      } else if inp[j] == OPEN_BRACE {
        MembersEndWell(inp, k, depth + 1, max);
      } else {
        ItemsEndWell(inp, k, depth + 1, max);
      }
    } else {
      AtomEndsWell(inp, j);
    }
  }

  lemma OpenerEndsWell(inp: Bytes, j: nat)
    requires j < |inp| && (inp[j] == OPEN_BRACE || inp[j] == OPEN_BRACKET)
    ensures EndsWell(inp, j + 1)
  {
  }

  lemma {:induction false} ItemsEndWell(inp: Bytes, i: nat, depth: nat, max: nat)
    requires i <= |inp| && ItemsEnd(inp, i, depth, max).Some?
    ensures EndsWell(inp, ItemsEnd(inp, i, depth, max).value)
    decreases |inp| - i, 2
  {
    hide ValueEnd, SkipWs, EndsWell;
    ValueEndsWell(inp, i, depth, max);
    var e := ValueEnd(inp, i, depth, max).value;
    if inp[SkipWs(inp, e)] == COMMA {
      ItemsEndWell(inp, SkipWs(inp, e) + 1, depth, max);
    } else {
      BracketEndsWell(inp, e);
    }
  }

  lemma {:induction false} MembersEndWell(inp: Bytes, i: nat, depth: nat, max: nat)
    requires i <= |inp| && MembersEnd(inp, i, depth, max).Some?
    ensures EndsWell(inp, MembersEnd(inp, i, depth, max).value)
    decreases |inp| - i, 2
  {
    hide ValueEnd, SkipWs, EndsWell, KeyEnd;
    var k := KeyEnd(inp, i).value;
    ValueEndsWell(inp, k, depth, max);
    var e := ValueEnd(inp, k, depth, max).value;
    if inp[SkipWs(inp, e)] == COMMA {
      MembersEndWell(inp, SkipWs(inp, e) + 1, depth, max);
    } else {
      BracketEndsWell(inp, e);
    }
  }

  lemma CommaIsNotValid(pre: Bytes, w: Bytes, max: nat)
    requires pre != [] && pre[|pre| - 1] == COMMA && w != []
    requires forall k :: 0 <= k < |w| ==> Closing(w[k])
    ensures !StructurallyValid(pre + w, max)
  {
    hide ValueEnd;
    var inp := pre + w;
    if StructurallyValid(inp, max) {
      ValueEndsWell(inp, 0, 0, max);
      var e := ValueEnd(inp, 0, 0, max).value;
      SkippedSpace(inp, e);
      assert Closing(inp[|inp| - 1]);
      BackOver(pre, w, |w|);
    }
  }

  lemma {:induction false} BackOver(pre: Bytes, w: Bytes, n: nat)
    requires pre != [] && pre[|pre| - 1] == COMMA && n <= |w| && forall k :: 0 <= k < |w| ==> Closing(w[k])
    ensures Back(pre + w, |pre| + n) == |pre|
  {
    if n > 0 {
      assert (pre + w)[|pre| + n - 1] == w[n - 1];
      BackOver(pre, w, n - 1);
    } else {
      assert (pre + w)[|pre| - 1] == COMMA;
    }
  }

  // --- Closing a run that was cut writes only brackets ---

  predicate NothingPending(c: Core)
  {
    c.frames != [] ==> !Top(c).isObject || Top(c).st == AfterValue
  }

  lemma CloseOne(c: Core)
    requires c.frames != [] && NothingPending(c)
    ensures var d := CloseContainer(c, Closer(Top(c)));
            d.out == c.out + [Closer(Top(c))] && |d.frames| == |c.frames| - 1 && NothingPending(d)
  {
  }

  lemma {:induction false} OnlyBrackets(c: Core) returns (w: Bytes)
    requires NothingPending(c)
    ensures CloseAll(c).out == c.out + w && |w| == |c.frames| && forall k :: 0 <= k < |w| ==> Closing(w[k])
    decreases |c.frames|
  {
    hide CloseContainer, NothingPending;
    if c.frames == [] {
      NothingMore(c.out);
      w := [];
    } else {
      CloseOne(c);
      var rest := OnlyBrackets(CloseContainer(c, Closer(Top(c))));
      w := [Closer(Top(c))] + rest;
      Associates(c.out, [Closer(Top(c))], rest);
    }
  }

  lemma CutIsInvalid(inp: Bytes, max: nat)
    requires Repair(inp, max).text.Some? && CutAfterComma(Run(inp, Start(inp), max))
    ensures !StructurallyValid(Repair(inp, max).text.value, max)
  {
    hide Start, Run, CloseAll, StructurallyValid, Matches, Poised;
    StartMatches(inp, max);
    var s := RunShape(inp, Start(inp), Shape([], None), max);
    var c := Run(inp, Start(inp), max);
    var d := Fix(c, Unclosed);
    var w := OnlyBrackets(d);
    CommaIsNotValid(c.out, w, max);
  }

  /** Any input: the repaired text is structurally valid if and only if no array was cut off after its comma. */
  lemma ValidUnlessCut(inp: Bytes, max: nat)
    requires Repair(inp, max).text.Some?
    ensures StructurallyValid(Repair(inp, max).text.value, max) <==> !CutAfterComma(Run(inp, Start(inp), max))
  {
    hide Repair, Run, StructurallyValid, CutAfterComma;
    if CutAfterComma(Run(inp, Start(inp), max)) { CutIsInvalid(inp, max); } else { RepairIsValid(inp, max); }
  }

  // --- An input that is cut ---

  function Brackets(n: nat): (t: Bytes)
    ensures |t| == n && forall k :: 0 <= k < n ==> t[k] == OPEN_BRACKET
  {
    if n == 0 then [] else Brackets(n - 1) + [OPEN_BRACKET]
  }

  /** As many opening brackets as the cap allows, then 1,[ */
  function TooDeep(max: nat): Bytes { Brackets(max) + [0x31, COMMA, OPEN_BRACKET] }

  function Lists(n: nat): (fs: seq<Frame>)
    ensures |fs| == n && forall k :: 0 <= k < n ==> fs[k] == Frame(false, AtValue, false)
  {
    if n == 0 then [] else Lists(n - 1) + [Frame(false, AtValue, false)]
  }

  function Nested(n: nat): Core { Core(n, Brackets(n), Lists(n), false, false, 0, {}) }

  lemma OpensOne(n: nat, max: nat)
    requires n < max
    ensures OpenContainer(Nested(n).(pos := n + 1), false, max) == Nested(n + 1)
  {
    var c := Nested(n).(pos := n + 1);
    if n > 0 { assert SetTop(c, Top(c)).frames == c.frames; }
  }

  lemma {:induction false} BracketsRun(max: nat, n: nat)
    requires n <= max
    ensures Run(TooDeep(max), Nested(0), max) == Run(TooDeep(max), Nested(n), max)
  {
    hide Run, OpenContainer;
    if n > 0 {
      var inp, c := TooDeep(max), Nested(n - 1);
      BracketsRun(max, n - 1);
      assert inp[n - 1] == OPEN_BRACKET;
      RepairAccepts.OneToken(inp, c, max);
      OpensOne(n - 1, max);
    }
  }

  /** With any cap of at least one there is an input whose repair is not structurally valid. */
  lemma TooDeepIsCut(max: nat)
    requires max >= 1
    ensures var inp := TooDeep(max);
            CutAfterComma(Run(inp, Start(inp), max)) && Repair(inp, max).text.Some?
            && !StructurallyValid(Repair(inp, max).text.value, max)
  {
    var inp := TooDeep(max);
    hide Run, StructurallyValid, CloseAll, BomLength;
    assert Start(inp) == Nested(0) by { StartsPlain(inp); }
    BracketsRun(max, max);
    LastThree(max);
    var c := Run(inp, Start(inp), max);
    StartMatches(inp, max);
    CloseAllDone(Fix(c, Unclosed));
    CutIsInvalid(inp, max);
  }

  lemma StartsPlain(inp: Bytes)
    requires inp != [] && inp[0] == OPEN_BRACKET
    ensures BomLength(inp) == 0
  {
    assert |inp| >= 3 ==> inp[..3][0] == inp[0];
  }

  lemma {:induction false} CloseAllDone(c: Core)
    requires c.frames != []
    ensures CloseAll(c).topDone
    decreases |c.frames|
  {
    hide ClosePending;
    var d := CloseContainer(c, Closer(Top(c)));
    if d.frames != [] { CloseAllDone(d); }
  }

  lemma LastThree(max: nat)
    requires max >= 1
    ensures var r := Run(TooDeep(max), Nested(max), max); CutAfterComma(r)
  {
    hide *;
    var inp, c := TooDeep(max), Nested(max);
    TooDeepEnds(max);
    RepairAccepts.OneToken(inp, c, max);
    OneItem(max);
    var d := TokenStep(inp, c, max);
    RepairAccepts.OneToken(inp, d, max);
    CommaToken(inp, d, max);
    var e := TokenStep(inp, d, max);
    RepairAccepts.OneToken(inp, e, max);
    OpenToken(inp, e, max);
    var f := TokenStep(inp, e, max);
    CutStops(f);
    RunStops(inp, f, max);
  }

  lemma TooDeepEnds(max: nat)
    ensures var inp := TooDeep(max);
            |inp| == max + 3 && inp[max] == 0x31 && inp[max + 1] == COMMA && inp[max + 2] == OPEN_BRACKET
    ensures Nested(max).pos == max && !Nested(max).stop
    ensures forall k: byte :: k == 0x31 || k == COMMA || k == OPEN_BRACKET ==>
              !IsWs(k) && k != BACKTICK && k != HASH && k != SLASH
  {
  }

  lemma CommaToken(inp: Bytes, c: Core, max: nat)
    requires c.pos < |inp| && inp[c.pos] == COMMA && c.frames != [] && Top(c) == Frame(false, AfterValue, false)
    ensures var r := TokenStep(inp, c, max);
            r.pos == c.pos + 1 && r.stop == c.stop && |r.frames| == |c.frames| && Top(r) == Frame(false, AfterValue, true)
  {
  }

  lemma OpenToken(inp: Bytes, c: Core, max: nat)
    requires c.pos < |inp| && inp[c.pos] == OPEN_BRACKET && |c.frames| == max >= 1 && !c.stop
    requires Top(c) == Frame(false, AfterValue, true)
    ensures CutAfterComma(TokenStep(inp, c, max))
  {
    var d := c.(pos := c.pos + 1);
    assert Top(d) == Top(c);
    hide OpenContainer, CutAfterComma;
    CutHere(d, max);
  }

  lemma CutStops(c: Core)
    requires CutAfterComma(c)
    ensures c.stop
  {
  }

  lemma RunStops(inp: Bytes, c: Core, max: nat)
    requires c.pos <= |inp| && c.stop
    ensures Run(inp, c, max) == c
  {
  }

  lemma OneItem(max: nat)
    requires max >= 1
    ensures var r := TokenStep(TooDeep(max), Nested(max), max);
            && r.pos == max + 1 && !r.stop && |r.frames| == max
            && Top(r) == Frame(false, AfterValue, false)
  {
    var inp, c := TooDeep(max), Nested(max);
    assert inp[max] == 0x31 && inp[max + 1] == COMMA;
    RepairAccepts.NumberEndAt(inp, max, max + 1);
    assert inp[max..max + 1] == [0x31];
    assert IsNumberText([0x31]);
    hide NumberEnd, IsNumberText, Brackets;
  }

  lemma CutHere(c: Core, max: nat)
    requires |c.frames| == max >= 1 && !c.stop && Top(c) == Frame(false, AfterValue, true)
    ensures CutAfterComma(OpenContainer(c, false, max))
  {
  }
}
