/** What a caller can know of the depth cap: the guard of the branch that goes wrong, and a bound that keeps clear of it. */
module RepairCap {
  import opened Bytes
  import opened Options
  import opened Scan
  import opened Structure
  import opened RawTree
  import opened RepairSpec
  import opened RepairShape
  import opened RepairLiterals
  import opened RepairValid
  import opened RepairCut

  predicate IsOpener(c: byte) { c == OPEN_BRACE || c == OPEN_BRACKET }

  /** An opening bracket arrives while every frame is in use and the innermost container is an array with an item. */
  predicate AtCap(inp: Bytes, c: Core, max: nat)
    requires c.pos < |inp|
  {
    IsOpener(inp[c.pos]) && c.frames != [] && |c.frames| == max && !Top(c).isObject && Top(c).st == AfterValue
  }

  /** Some turn of the main loop from c on meets that case. */
  predicate MeetsCap(inp: Bytes, c: Core, max: nat)
    requires c.pos <= |inp|
    decreases |inp| - c.pos, !c.stop
  {
    c.pos < |inp| && !c.stop && !Breaks(inp, c) && (AtCap(inp, c, max) || MeetsCap(inp, Step(inp, c, max), max))
  }

  // --- The guard is met exactly when the run is cut ---

  /** What the separators before a value end with, in an array. */
  lemma ArrayEnds(c: Core, s: Shape, max: nat)
    requires Matches(c, s, max) && !c.stop && c.frames != [] && !Top(c).isObject
    ensures var v := PrepareValue(c);
            v.out != [] && (v.out[|v.out| - 1] == COMMA <==> Top(c).st == AfterValue)
  {
    hide OpenFits, Parents, ParentsOk, OpensFit, RenderItems;
    var n := |c.frames| - 1;
    var o := s.opens[n];
    if Top(c).st != AfterValue {
      EmptyArray(Parents(s.opens[..n]), o);
    }
  }

  lemma EmptyArray(before: Bytes, o: Open)
    requires o.OpenList? && o.items == []
    ensures var t := before + OpenText(o); t != [] && t[|t| - 1] == OPEN_BRACKET
  {
    assert OpenText(o) == [OPEN_BRACKET];
  }

  lemma FramesFit(c: Core, s: Shape, max: nat)
    requires Matches(c, s, max)
    ensures |c.frames| <= max
  {
    hide OpenFits, Parents, ParentsOk, TopText, TopOk;
  }

  lemma PrepareKeepsFrames(c: Core)
    ensures var v := PrepareValue(c);
            |v.frames| == |c.frames| && (c.frames == [] ==> v.frames == [])
            && (c.frames != [] ==> v.stop == c.stop && Top(v).isObject == Top(c).isObject)
  {
  }

  lemma OpenCuts(c: Core, s: Shape, isObject: bool, max: nat)
    requires Matches(c, s, max) && !c.stop
    ensures CutAfterComma(OpenContainer(c, isObject, max))
            <==> c.frames != [] && |c.frames| == max && !Top(c).isObject && Top(c).st == AfterValue
  {
    hide Matches, Poised, PrepareValue;
    var v := PrepareValue(c);
    PrepareKeepsFrames(c);
    FramesFit(c, s, max);
    if c.frames != [] {
      var os := Prepares(c, s, max);
      PoisedEnds(v, os, max);
      if !Top(c).isObject { ArrayEnds(c, s, max); }
    }
  }

  lemma StepCuts(inp: Bytes, c: Core, s: Shape, max: nat)
    requires c.pos < |inp| && Matches(c, s, max) && !c.stop
    ensures CutAfterComma(Step(inp, c, max)) <==> AtCap(inp, c, max)
  {
    hide Matches, OpenContainer, StringStep, NumberStep, WordStep, CloseContainer, CommaStep, ColonStep, IsNumberStart,
         IsWordStart, AtFence, CutAfterComma;
    var ch := inp[c.pos];
    if IsOpener(ch) {
      OpenerSteps(inp, c, max);
      MovesOn(c, s, c.pos + 1, max);
      OpenCuts(c.(pos := c.pos + 1), s, ch == OPEN_BRACE, max);
    } else {
      OthersDoNotCut(inp, c, s, max);
      NotCut(Step(inp, c, max));
    }
  }

  lemma NotCut(c: Core)
    requires c.stop ==> c.frames == []
    ensures !CutAfterComma(c)
  {
  }

  lemma OpenerSteps(inp: Bytes, c: Core, max: nat)
    requires c.pos < |inp| && IsOpener(inp[c.pos])
    ensures Step(inp, c, max) == OpenContainer(c.(pos := c.pos + 1), inp[c.pos] == OPEN_BRACE, max)
  {
    hide OpenContainer;
    NoFence(inp, c.pos);
  }

  lemma NoFence(inp: Bytes, p: nat)
    requires p < |inp| && inp[p] != BACKTICK
    ensures !AtFence(inp, p)
  {
    assert p + 3 <= |inp| ==> inp[p..p + 3][0] == inp[p];
  }

  lemma OthersDoNotCut(inp: Bytes, c: Core, s: Shape, max: nat)
    requires c.pos < |inp| && Matches(c, s, max) && !c.stop && !IsOpener(inp[c.pos])
    ensures Step(inp, c, max).stop ==> Step(inp, c, max).frames == []
  {
    hide Matches, OpenContainer, StringStep, NumberStep, WordStep, CloseContainer, CommaStep, ColonStep, IsNumberStart,
         IsWordStart, AtComment, CommentStep;
    var ch := inp[c.pos];
    if IsQuote(ch) {
      var t := StringShape(inp, c, s, max);
    } else if IsNumberStart(ch) {
      var t := NumberShape(inp, c, s, max);
    } else if IsWordStart(ch) {
      var t := WordShape(inp, c, s, max);
    }
  }

  /** From any state that its frames describe, the run is cut after a comma exactly when it meets the guard. */
  lemma {:induction false} CutIsGuard(inp: Bytes, c: Core, s: Shape, max: nat)
    requires c.pos <= |inp| && Matches(c, s, max) && !c.stop
    ensures CutAfterComma(Run(inp, c, max)) <==> MeetsCap(inp, c, max)
    decreases |inp| - c.pos
  {
    hide Matches, Step, Poised, Breaks, AtCap, CutAfterComma;
    if c.pos >= |inp| || Breaks(inp, c) {
      NotCut(Run(inp, c, max));
    } else {
      var d := Step(inp, c, max);
      StepCuts(inp, c, s, max);
      if d.stop {
        RunStops(inp, d, max);
      } else {
        NotCut(d);
        var t := StepShape(inp, c, s, max);
        CutIsGuard(inp, d, t, max);
      }
    }
  }

  /** Any input: the repaired text is structurally valid if and only if no turn of the main loop meets the guard. */
  lemma ValidUnlessCapped(inp: Bytes, max: nat)
    requires Repair(inp, max).text.Some?
    ensures StructurallyValid(Repair(inp, max).text.value, max) <==> !MeetsCap(inp, Start(inp), max)
    ensures CutAfterComma(Run(inp, Start(inp), max)) <==> MeetsCap(inp, Start(inp), max)
  {
    hide Repair, Run, Start, StructurallyValid, CutAfterComma, MeetsCap, Matches;
    StartMatches(inp, max);
    CutIsGuard(inp, Start(inp), Shape([], None), max);
    ValidUnlessCut(inp, max);
  }

  // --- A bound that can be checked before the call ---

  /** Opening brackets in the text from position i on, inside and outside of strings. */
  function OpenersFrom(inp: Bytes, i: nat): nat
    decreases |inp| - i
  {
    if i >= |inp| then 0 else (if IsOpener(inp[i]) then 1 else 0) + OpenersFrom(inp, i + 1)
  }

  lemma {:induction false} FewerLater(inp: Bytes, i: nat, j: nat)
    requires i <= j
    ensures OpenersFrom(inp, j) <= OpenersFrom(inp, i)
    decreases j - i
  {
    if i < j { FewerLater(inp, i + 1, j); }
  }

  lemma OthersOpenNothing(inp: Bytes, c: Core, max: nat)
    requires c.pos < |inp| && !IsOpener(inp[c.pos])
    ensures |Step(inp, c, max).frames| <= |c.frames|
  {
    hide OpenContainer, StringStep, NumberStep, WordStep, CloseContainer, CommaStep, ColonStep, IsNumberStart,
         IsWordStart, AtComment, CommentStep;
    var ch := inp[c.pos];
    var d := c.(pos := c.pos + 1);
    SmallStepsOpenNothing(inp, c);
    if IsQuote(ch) {
      StringOpensNothing(inp, c);
    } else if IsNumberStart(ch) {
      NumberOpensNothing(inp, c);
    } else if IsWordStart(ch) {
      WordOpensNothing(inp, c);
    }
  }

  lemma SmallStepsOpenNothing(inp: Bytes, c: Core)
    requires c.pos < |inp|
    ensures var d, ch := c.(pos := c.pos + 1), inp[c.pos];
            && |CloseContainer(d, ch).frames| <= |c.frames|
            && |CommaStep(d).frames| <= |c.frames|
            && |ColonStep(d, ch).frames| <= |c.frames|
            && (AtComment(inp, c.pos) ==> CommentStep(inp, c).frames == c.frames)
  {
    var d, ch := c.(pos := c.pos + 1), inp[c.pos];
    hide *;
    CloseOpensNothing(d, ch);
    CommaOpensNothing(d);
    ColonOpensNothing(d, ch);
    if AtComment(inp, c.pos) { CommentKeeps(inp, c); }
  }

  lemma CloseOpensNothing(c: Core, ch: byte)
    ensures |CloseContainer(c, ch).frames| <= |c.frames|
  {
    hide ClosePending;
  }

  lemma CommaOpensNothing(c: Core)
    ensures |CommaStep(c).frames| <= |c.frames|
  {
    hide ClosePending;
  }

  lemma ColonOpensNothing(c: Core, ch: byte)
    ensures |ColonStep(c, ch).frames| <= |c.frames|
  {
  }

  lemma StringOpensNothing(inp: Bytes, c: Core)
    requires c.pos < |inp|
    ensures |StringStep(inp, c).frames| <= |c.frames|
  {
    hide CopyLiteral;
  }

  lemma NumberOpensNothing(inp: Bytes, c: Core)
    requires c.pos < |inp| && IsNumberStart(inp[c.pos])
    ensures |NumberStep(inp, c).frames| <= |c.frames|
  {
    hide RepairNumber, NumberEnd, IsNumberText, IsNumberStart;
  }

  lemma WordOpensNothing(inp: Bytes, c: Core)
    requires c.pos < |inp| && IsWordStart(inp[c.pos])
    ensures |WordStep(inp, c).frames| <= |c.frames|
  {
    hide WordValue, WordEnd, IsWordStart;
  }

  lemma OpensAtMostOne(c: Core, isObject: bool, max: nat)
    ensures |OpenContainer(c, isObject, max).frames| <= |c.frames| + 1
  {
    hide PrepareValue;
    PrepareKeepsFrames(c);
  }

  lemma StepOpens(inp: Bytes, c: Core, max: nat)
    requires c.pos < |inp|
    ensures var d := Step(inp, c, max);
            |d.frames| + OpenersFrom(inp, d.pos) <= |c.frames| + OpenersFrom(inp, c.pos)
  {
    hide Step;
    if IsOpener(inp[c.pos]) {
      OpenerSteps(inp, c, max);
      hide OpenContainer;
      OpensAtMostOne(c.(pos := c.pos + 1), inp[c.pos] == OPEN_BRACE, max);
    } else {
      OthersOpenNothing(inp, c, max);
      FewerLater(inp, c.pos, Step(inp, c, max).pos);
    }
  }

  /** As long as frames and brackets to come stay within the cap, no turn meets the guard. */
  lemma {:induction false} FewOpeners(inp: Bytes, c: Core, max: nat)
    requires c.pos <= |inp| && |c.frames| + OpenersFrom(inp, c.pos) <= max
    ensures !MeetsCap(inp, c, max)
    decreases |inp| - c.pos, !c.stop
  {
    hide Step, Breaks;
    if c.pos < |inp| && !c.stop && !Breaks(inp, c) {
      StepOpens(inp, c, max);
      FewOpeners(inp, Step(inp, c, max), max);
    }
  }

  /** A text with no more opening brackets than the cap is repaired to a structurally valid one, which stays as it is. */
  lemma FewBracketsAreSafe(inp: Bytes, max: nat)
    requires Repair(inp, max).text.Some? && OpenersFrom(inp, 0) <= max
    ensures var r := Repair(inp, max);
            && StructurallyValid(r.text.value, max)
            && Repair(r.text.value, max).text == r.text && Repair(r.text.value, max).fixes == 0
  {
    hide Repair, Run, StructurallyValid, CutAfterComma, MeetsCap, OpenersFrom;
    FewerLater(inp, 0, Start(inp).pos);
    FewOpeners(inp, Start(inp), max);
    ValidUnlessCapped(inp, max);
    RepairIsIdempotent(inp, max);
  }

  /** The bound is sharp: one more bracket, and there is a text whose repair is not structurally valid. */
  lemma OneBracketMoreIsNot(max: nat)
    requires max >= 1
    ensures var inp := TooDeep(max);
            && OpenersFrom(inp, 0) == max + 1
            && Repair(inp, max).text.Some? && !StructurallyValid(Repair(inp, max).text.value, max)
  {
    hide Repair, Run, StructurallyValid, CutAfterComma, TooDeep;
    TooDeepIsCut(max);
    TooDeepOpeners(max, 0);
  }

  lemma {:induction false} TooDeepOpeners(max: nat, i: nat)
    requires i <= max
    ensures OpenersFrom(TooDeep(max), i) == max - i + 1
    decreases max - i
  {
    var inp := TooDeep(max);
    TooDeepEnds(max);
    if i < max {
      assert inp[i] == Brackets(max)[i];
      TooDeepOpeners(max, i + 1);
    } else {
      hide TooDeep, Brackets;
      assert OpenersFrom(inp, max + 3) == 0;
      assert OpenersFrom(inp, max + 2) == 1;
      assert OpenersFrom(inp, max + 1) == 1;
    }
  }
}
