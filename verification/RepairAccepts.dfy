/** Structurally valid text is repaired without a single fix. */
module RepairAccepts {
  import opened Bytes
  import opened Options
  import opened Scan
  import opened NumberScan
  import opened ParserSpec
  import opened Structure
  import opened RepairSpec
  import RepairTidy

  /** Everything that decides what the machine does next, except the cursor. */
  predicate Control(c: Core, frames: seq<Frame>, topDone: bool, fixes: nat)
  {
    c.frames == frames && c.topDone == topDone && c.fixes == fixes && !c.stop
  }

  /** The frames once a value inside them is complete. */
  function Done(frames: seq<Frame>): seq<Frame>
  {
    if frames == [] then []
    else frames[..|frames| - 1] + [Frame(frames[|frames| - 1].isObject, AfterValue, false)]
  }

  /** A value is expected here, and nothing but a deferred comma has to be written first. */
  predicate Ready(frames: seq<Frame>, topDone: bool)
  {
    if frames == [] then !topDone
    else
      var f := frames[|frames| - 1];
      f.st == AtValue || (!f.isObject && f.st == AfterValue && f.commaSeen)
  }

  /** What follows a value in valid text. */
  predicate Delimited(inp: Bytes, e: nat)
  {
    e < |inp| ==> IsWs(inp[e]) || inp[e] == COMMA || inp[e] == CLOSE_BRACKET || inp[e] == CLOSE_BRACE
  }

  // --- Runs and single steps ---

  lemma OneStep(inp: Bytes, c: Core, max: nat)
    requires c.pos < |inp| && !c.stop && inp[c.pos] != BACKTICK
    ensures Run(inp, c, max) == Run(inp, Step(inp, c, max), max)
  {
    hide Step, Run;
    NoFence(inp, c.pos);
    RunUnfolds(inp, c, max);
  }

  lemma RunUnfolds(inp: Bytes, c: Core, max: nat)
    requires c.pos < |inp| && !c.stop && !AtFence(inp, c.pos)
    ensures Run(inp, c, max) == Run(inp, Step(inp, c, max), max)
  {
    hide Step, AtFence;
  }

  lemma NoFence(inp: Bytes, p: nat)
    requires p < |inp| && inp[p] != BACKTICK
    ensures !AtFence(inp, p)
  {
    assert p + 3 <= |inp| ==> inp[p..p + 3][0] == inp[p];
  }

  lemma OneToken(inp: Bytes, c: Core, max: nat)
    requires c.pos < |inp| && !c.stop && !IsWs(inp[c.pos])
    requires inp[c.pos] != BACKTICK && inp[c.pos] != HASH && inp[c.pos] != SLASH
    ensures Run(inp, c, max) == Run(inp, TokenStep(inp, c, max), max)
  {
    hide Run, TokenStep, IsWs;
    OneStep(inp, c, max);
    NoFence(inp, c.pos);
  }

  lemma {:induction false} WsRuns(inp: Bytes, c: Core, max: nat)
    requires c.pos <= |inp| && !c.stop
    ensures Run(inp, c, max) == Run(inp, c.(pos := SkipWs(inp, c.pos)), max)
    decreases |inp| - c.pos
  {
    hide Run, TokenStep;
    if c.pos < |inp| && IsWs(inp[c.pos]) {
      OneStep(inp, c, max);
      WsRuns(inp, c.(pos := c.pos + 1), max);
    }
  }

  // --- Strings, words and numbers ---

  lemma {:induction false} CopiesValid(inp: Bytes, c: Core)
    requires c.pos <= |inp| && StringEnd(inp, c.pos).Some?
    ensures var r := CopyString(inp, c, QUOTE); r.pos == StringEnd(inp, c.pos).value && r.fixes == c.fixes
    decreases |inp| - c.pos
  {
    hide Hex4, SimpleEscape;
    var p := c.pos;
    if inp[p] == QUOTE {
    } else if inp[p] == BACKSLASH {
      CopiesValid(inp, CopyEscape(inp, c, QUOTE));
    } else {
      CopiesValid(inp, Emit(c, [inp[p]]).(pos := p + 1));
    }
  }

  lemma ReadyIsQuiet(c: Core)
    requires !c.stop && Ready(c.frames, c.topDone)
    ensures !AtKeyPosition(c)
    ensures var v := PrepareValue(c);
            v.fixes == c.fixes && !v.stop && v.topDone == c.topDone && v.pos == c.pos && |v.frames| == |c.frames| &&
            (v.frames != [] ==> Top(v).isObject == Top(c).isObject && v.frames[..|v.frames| - 1] == c.frames[..|c.frames| - 1])
  {
  }

  lemma SettlesValue(c: Core, v: Core, r: Core)
    requires !c.stop && Ready(c.frames, c.topDone) && v == PrepareValue(c) && r.frames == v.frames
    requires r.fixes == v.fixes && r.topDone == v.topDone && r.stop == v.stop
    ensures Control(ValueDone(r), Done(c.frames), c.frames == [] || c.topDone, c.fixes)
  {
    hide PrepareValue;
    ReadyIsQuiet(c);
  }

  lemma StringSettles(inp: Bytes, c: Core)
    requires c.pos < |inp| && inp[c.pos] == QUOTE && StringEnd(inp, c.pos + 1).Some?
    requires !c.stop && Ready(c.frames, c.topDone)
    ensures var r := StringStep(inp, c);
            r.pos == StringEnd(inp, c.pos + 1).value && Control(r, Done(c.frames), c.frames == [] || c.topDone, c.fixes)
  {
    hide PrepareValue, ValueDone, CopyString, StringEnd, Ready, Control, AtKeyPosition;
    ReadyIsQuiet(c);
    var v := PrepareValue(c);
    CopiesValid(inp, Emit(v, [QUOTE]).(pos := c.pos + 1));
    DonePosition(CopyLiteral(inp, v));
    SettlesValue(c, v, CopyLiteral(inp, v));
  }

  lemma DonePosition(c: Core)
    ensures ValueDone(c).pos == c.pos
  {
  }

  lemma WordSettles(inp: Bytes, c: Core, word: Bytes)
    requires word == TRUE_WORD || word == FALSE_WORD || word == NULL_WORD
    requires c.pos < |inp| && WordSpan(inp, c.pos, word).Some? && Delimited(inp, c.pos + |word|)
    requires !c.stop && Ready(c.frames, c.topDone)
    ensures IsWordStart(inp[c.pos])
    ensures var r := WordStep(inp, c);
            r.pos == c.pos + |word| && Control(r, Done(c.frames), c.frames == [] || c.topDone, c.fixes)
  {
    hide PrepareValue, ValueDone, Ready, Control, AtKeyPosition, Delimited, IsWordChar;
    var p := c.pos;
    WordSpans(inp, p, word);
    var d := c.(pos := p + |word|);
    ReadyIsQuiet(d);
    var v := PrepareValue(d);
    SettlesValue(d, v, WordValue(v, word));
    DonePosition(WordValue(v, word));
    KeyPositionOnFrames(c, d);
  }

  lemma KeyPositionOnFrames(c: Core, d: Core)
    requires c.frames == d.frames
    ensures AtKeyPosition(c) == AtKeyPosition(d)
  {
  }

  lemma WordSpans(inp: Bytes, p: nat, word: Bytes)
    requires word == TRUE_WORD || word == FALSE_WORD || word == NULL_WORD
    requires p < |inp| && WordSpan(inp, p, word).Some? && Delimited(inp, p + |word|)
    ensures inp[p] == word[0] && IsWordStart(inp[p])
    ensures WordEnd(inp, p) == p + |word| && inp[p..p + |word|] == word
  {
    var e := p + |word|;
    forall k | p <= k < e ensures IsWordChar(inp[k]) {
      LettersOnly(word, k - p);
      assert inp[k] == inp[p..e][k - p];
    }
    LettersOnly(word, 0);
    assert inp[p] == inp[p..e][0];
    EndsWord(inp, e);
    hide IsWordChar, IsWordStart;
    WordEndAt(inp, p, e);
  }

  lemma EndsWord(inp: Bytes, e: nat)
    requires e <= |inp| && Delimited(inp, e)
    ensures e < |inp| ==> !IsWordChar(inp[e])
  {
  }

  lemma LettersOnly(word: Bytes, k: nat)
    requires word == TRUE_WORD || word == FALSE_WORD || word == NULL_WORD
    requires k < |word|
    ensures IsWordChar(word[k]) && IsWordStart(word[k])
  {
  }

  lemma {:induction false} WordEndAt(inp: Bytes, i: nat, e: nat)
    requires i <= e <= |inp| && forall k :: i <= k < e ==> IsWordChar(inp[k])
    requires e < |inp| ==> !IsWordChar(inp[e])
    ensures WordEnd(inp, i) == e
    decreases e - i
  {
    hide IsWordChar;
    if i < e { WordEndAt(inp, i + 1, e); }
  }

  lemma {:induction false} NumberEndAt(inp: Bytes, i: nat, e: nat)
    requires i <= e <= |inp| && forall k :: i <= k < e ==> IsNumberRun(inp[k])
    requires e < |inp| ==> !IsNumberRun(inp[e])
    ensures NumberEnd(inp, i) == e
    decreases e - i
  {
    hide IsNumberRun;
    if i < e { NumberEndAt(inp, i + 1, e); }
  }

  lemma {:induction false} DigitsRun(inp: Bytes, i: nat, end: nat)
    requires i <= end <= |inp|
    ensures forall k :: i <= k < SkipDigits(inp, i, end) ==> IsNumberRun(inp[k])
    decreases end - i
  {
    if i < end && IsDigit(inp[i]) { DigitsRun(inp, i + 1, end); }
  }

  /** A JSON number is made of the characters of a number run. */
  lemma NumberRuns(inp: Bytes, i: nat)
    requires i <= |inp| && ScanNumber(inp, i, |inp|).Some?
    ensures forall k :: i <= k < ScanNumber(inp, i, |inp|).value ==> IsNumberRun(inp[k])
  {
    hide SkipDigits;
    IntegerRuns(inp, i);
    var a := ScanInteger(inp, i, |inp|).value;
    FractionRuns(inp, a);
    ExponentRuns(inp, ScanFraction(inp, a, |inp|).value);
  }

  lemma IntegerRuns(inp: Bytes, i: nat)
    requires i <= |inp| && ScanInteger(inp, i, |inp|).Some?
    ensures forall k :: i <= k < ScanInteger(inp, i, |inp|).value ==> IsNumberRun(inp[k])
  {
    hide SkipDigits;
    DigitsRun(inp, i, |inp|);
    if i + 1 <= |inp| { DigitsRun(inp, i + 1, |inp|); }
  }

  lemma FractionRuns(inp: Bytes, q: nat)
    requires q <= |inp| && ScanFraction(inp, q, |inp|).Some?
    ensures forall k :: q <= k < ScanFraction(inp, q, |inp|).value ==> IsNumberRun(inp[k])
  {
    hide SkipDigits;
    if q + 1 <= |inp| { DigitsRun(inp, q + 1, |inp|); }
  }

  lemma ExponentRuns(inp: Bytes, q: nat)
    requires q <= |inp| && ScanExponent(inp, q, |inp|).Some?
    ensures forall k :: q <= k < ScanExponent(inp, q, |inp|).value ==> IsNumberRun(inp[k])
  {
    hide SkipDigits;
    if q + 1 <= |inp| { DigitsRun(inp, q + 1, |inp|); }
    if q + 2 <= |inp| { DigitsRun(inp, q + 2, |inp|); }
  }

  lemma TokenIsNumber(inp: Bytes, i: nat, e: nat)
    requires i <= e <= |inp| && ScanNumber(inp, i, |inp|) == Some(e) && (e < |inp| ==> !IsNumberRun(inp[e]))
    ensures IsNumberText(inp[i..e])
  {
    hide ScanNumber;
    assert e < |inp| ==> !IsNumberChar(inp[e]);
    ScanNumberWithin(inp, i, e);
    ScanNumberShifted(inp, i, e);
  }

  lemma NumberSettles(inp: Bytes, c: Core)
    requires c.pos < |inp| && (inp[c.pos] == MINUS || IsDigit(inp[c.pos]))
    requires ScanNumber(inp, c.pos, |inp|).Some? && Delimited(inp, ScanNumber(inp, c.pos, |inp|).value)
    requires !c.stop && Ready(c.frames, c.topDone)
    ensures var r := NumberStep(inp, c);
            && r.pos == ScanNumber(inp, c.pos, |inp|).value
            && Control(r, Done(c.frames), c.frames == [] || c.topDone, c.fixes)
  {
    hide PrepareValue, ValueDone, Ready, Control, AtKeyPosition, RepairNumber, ScanNumber, IsNumberText;
    var p := c.pos;
    var e := ScanNumber(inp, p, |inp|).value;
    NumberRuns(inp, p);
    assert e < |inp| ==> !IsNumberRun(inp[e]);
    NumberEndAt(inp, p, e);
    TokenIsNumber(inp, p, e);
    hide IsNumberRun, NumberEnd;
    var d := c.(pos := e);
    ReadyIsQuiet(d);
    var v := PrepareValue(d);
    SettlesValue(d, v, Emit(v, inp[p..e]));
    DonePosition(Emit(v, inp[p..e]));
    KeyPositionOnFrames(c, d);
  }

  lemma AtomSettles(inp: Bytes, c: Core, max: nat)
    requires c.pos < |inp| && AtomEnd(inp, c.pos).Some? && Delimited(inp, AtomEnd(inp, c.pos).value)
    requires !c.stop && Ready(c.frames, c.topDone)
    requires inp[c.pos] != OPEN_BRACE && inp[c.pos] != OPEN_BRACKET
    ensures Control(TokenStep(inp, c, max), Done(c.frames), c.frames == [] || c.topDone, c.fixes)
    ensures TokenStep(inp, c, max).pos == AtomEnd(inp, c.pos).value
    ensures Run(inp, c, max) == Run(inp, TokenStep(inp, c, max), max)
  {
    hide StringStep, WordStep, NumberStep, Ready, Control, Delimited, Run, StringEnd, ScanNumber, WordSpan;
    var ch := inp[c.pos];
    if ch == QUOTE {
      StringSettles(inp, c);
    } else if ch == LOWER_T {
      WordSettles(inp, c, TRUE_WORD);
    } else if ch == LOWER_F {
      WordSettles(inp, c, FALSE_WORD);
    } else if ch == LOWER_N {
      WordSettles(inp, c, NULL_WORD);
    } else {
      NumberSettles(inp, c);
    }
    OneToken(inp, c, max);
  }

  // --- Containers ---

  lemma Opens(c: Core, isObject: bool, max: nat)
    requires !c.stop && Ready(c.frames, c.topDone) && |c.frames| + 1 <= max
    ensures var r := OpenContainer(c, isObject, max);
            && !r.stop && r.topDone == c.topDone && r.fixes == c.fixes && r.pos == c.pos
            && |r.frames| == |c.frames| + 1
            && Top(r) == Frame(isObject, if isObject then AtKey else AtValue, false)
            && Done(r.frames[..|c.frames|]) == Done(c.frames)
            && (!isObject ==> Ready(r.frames, r.topDone))
  {
    hide PrepareValue;
    ReadyIsQuiet(c);
    var v := PrepareValue(c);
    var r := OpenContainer(c, isObject, max);
    assert r.frames[..|c.frames|] == v.frames;
  }

  /** The closing bracket of a container in which nothing is pending. */
  lemma Closes(c: Core, ch: byte)
    requires c.frames != [] && ch == Closer(Top(c)) && !c.stop
    requires var f := Top(c);
             (f.st == AfterValue && !f.commaSeen) || (f.isObject && f.st == AtKey) || (!f.isObject && f.st == AtValue)
    ensures var r, base := CloseContainer(c, ch), c.frames[..|c.frames| - 1];
            Control(r, Done(base), base == [] || c.topDone, c.fixes) && r.pos == c.pos
  {
  }

  /** After an item or a member: the comma makes ready for the next one. */
  lemma Commas(c: Core, frames: seq<Frame>, topDone: bool, fixes: nat)
    requires frames != [] && Control(c, Done(frames), topDone, fixes)
    ensures var r := CommaStep(c);
            && !r.stop && r.topDone == topDone && r.fixes == fixes && r.pos == c.pos
            && |r.frames| == |frames| && r.frames[..|frames| - 1] == frames[..|frames| - 1]
            && Top(r) == Frame(frames[|frames| - 1].isObject, AfterValue, true)
            && (!Top(r).isObject ==> Ready(r.frames, topDone))
  {
  }

  /** After an item or a member: the closing bracket completes the container. */
  lemma ClosesAfter(c: Core, ch: byte, frames: seq<Frame>, topDone: bool, fixes: nat)
    requires frames != [] && Control(c, Done(frames), topDone, fixes) && ch == Closer(frames[|frames| - 1])
    ensures var r, base := CloseContainer(c, ch), frames[..|frames| - 1];
            Control(r, Done(base), base == [] || topDone, fixes) && r.pos == c.pos
  {
    hide CloseContainer;
    Closes(c, ch);
    assert c.frames[..|c.frames| - 1] == frames[..|frames| - 1];
  }

  lemma {:induction false} ValueRuns(inp: Bytes, c: Core, max: nat) returns (r: Core)
    requires c.pos <= |inp| && !c.stop && Ready(c.frames, c.topDone)
    requires ValueEnd(inp, c.pos, |c.frames|, max).Some? && Delimited(inp, ValueEnd(inp, c.pos, |c.frames|, max).value)
    ensures r.pos == ValueEnd(inp, c.pos, |c.frames|, max).value
    ensures Control(r, Done(c.frames), c.frames == [] || c.topDone, c.fixes)
    ensures Run(inp, c, max) == Run(inp, r, max)
    decreases |inp| - c.pos, 1
  {
    hide AtomEnd, ArrayEnd, ObjectEnd, Ready, Delimited, Run, TokenStep, Done;
    WsRuns(inp, c, max);
    var d := c.(pos := SkipWs(inp, c.pos));
    if inp[d.pos] == OPEN_BRACE {
      r := ObjectRuns(inp, d, max);
    } else if inp[d.pos] == OPEN_BRACKET {
      r := ArrayRuns(inp, d, max);
    } else {
      AtomSettles(inp, d, max);
      r := TokenStep(inp, d, max);
    }
  }

  lemma {:induction false} ArrayRuns(inp: Bytes, c: Core, max: nat) returns (r: Core)
    requires c.pos < |inp| && !c.stop && Ready(c.frames, c.topDone) && inp[c.pos] == OPEN_BRACKET
    requires ArrayEnd(inp, c.pos, |c.frames|, max).Some?
    ensures r.pos == ArrayEnd(inp, c.pos, |c.frames|, max).value
    ensures Control(r, Done(c.frames), c.frames == [] || c.topDone, c.fixes)
    ensures Run(inp, c, max) == Run(inp, r, max)
    decreases |inp| - c.pos, 0
  {
    hide ItemsEnd, Ready, Run, Done, OpenContainer, CloseContainer;
    OneToken(inp, c, max);
    Opens(c.(pos := c.pos + 1), false, max);
    var o := TokenStep(inp, c, max);
    WsRuns(inp, o, max);
    var d := o.(pos := SkipWs(inp, o.pos));
    if d.pos < |inp| && inp[d.pos] == CLOSE_BRACKET {
      OneToken(inp, d, max);
      Closes(d.(pos := d.pos + 1), CLOSE_BRACKET);
      r := TokenStep(inp, d, max);
    } else {
      r := ItemsRuns(inp, d, max);
    }
  }

  lemma {:induction false} ItemsRuns(inp: Bytes, c: Core, max: nat) returns (r: Core)
    requires c.pos <= |inp| && !c.stop && c.frames != [] && !Top(c).isObject && Ready(c.frames, c.topDone)
    requires ItemsEnd(inp, c.pos, |c.frames|, max).Some?
    ensures r.pos == ItemsEnd(inp, c.pos, |c.frames|, max).value
    ensures var base := c.frames[..|c.frames| - 1]; Control(r, Done(base), base == [] || c.topDone, c.fixes)
    ensures Run(inp, c, max) == Run(inp, r, max)
    decreases |inp| - c.pos, 2
  {
    hide ValueEnd, Run, CloseContainer, CommaStep, SkipWs, Done, Ready;
    DelimitedItem(inp, c.pos, |c.frames|, max);
    var v := ValueRuns(inp, c, max);
    WsRuns(inp, v, max);
    var d := v.(pos := SkipWs(inp, v.pos));
    OneToken(inp, d, max);
    var t := TokenStep(inp, d, max);
    if inp[d.pos] == COMMA {
      Commas(d.(pos := d.pos + 1), c.frames, c.topDone, c.fixes);
      r := ItemsRuns(inp, t, max);
    } else {
      ClosesAfter(d.(pos := d.pos + 1), CLOSE_BRACKET, c.frames, c.topDone, c.fixes);
      r := t;
    }
  }

  lemma DelimitedItem(inp: Bytes, i: nat, depth: nat, max: nat)
    requires i <= |inp| && (ItemsEnd(inp, i, depth, max).Some? || MembersEnd(inp, i, depth, max).Some?)
    ensures ItemsEnd(inp, i, depth, max).Some? ==>
              ValueEnd(inp, i, depth, max).Some? && Delimited(inp, ValueEnd(inp, i, depth, max).value)
    ensures MembersEnd(inp, i, depth, max).Some? ==>
              && KeyEnd(inp, i).Some?
              && ValueEnd(inp, KeyEnd(inp, i).value, depth, max).Some?
              && Delimited(inp, ValueEnd(inp, KeyEnd(inp, i).value, depth, max).value)
  {
    hide ValueEnd, KeyEnd;
  }

  lemma {:induction false} ObjectRuns(inp: Bytes, c: Core, max: nat) returns (r: Core)
    requires c.pos < |inp| && !c.stop && Ready(c.frames, c.topDone) && inp[c.pos] == OPEN_BRACE
    requires ObjectEnd(inp, c.pos, |c.frames|, max).Some?
    ensures r.pos == ObjectEnd(inp, c.pos, |c.frames|, max).value
    ensures Control(r, Done(c.frames), c.frames == [] || c.topDone, c.fixes)
    ensures Run(inp, c, max) == Run(inp, r, max)
    decreases |inp| - c.pos, 0
  {
    hide MembersEnd, Ready, Run, Done, OpenContainer, CloseContainer;
    OneToken(inp, c, max);
    Opens(c.(pos := c.pos + 1), true, max);
    var o := TokenStep(inp, c, max);
    WsRuns(inp, o, max);
    var d := o.(pos := SkipWs(inp, o.pos));
    if d.pos < |inp| && inp[d.pos] == CLOSE_BRACE {
      OneToken(inp, d, max);
      Closes(d.(pos := d.pos + 1), CLOSE_BRACE);
      r := TokenStep(inp, d, max);
    } else {
      r := MembersRuns(inp, d, max);
    }
  }

  /** A key and its colon. */
  lemma KeyRuns(inp: Bytes, c: Core, max: nat) returns (r: Core)
    requires c.pos <= |inp| && !c.stop && c.frames != [] && Top(c).isObject && KeyEnd(inp, c.pos).Some?
    requires Top(c).st == AtKey || (Top(c).st == AfterValue && Top(c).commaSeen)
    ensures r.pos == KeyEnd(inp, c.pos).value
    ensures Control(r, c.frames[..|c.frames| - 1] + [Top(c).(st := AtValue)], c.topDone, c.fixes)
    ensures Run(inp, c, max) == Run(inp, r, max)
  {
    hide Run, StringEnd, CopyString, SkipWs, ColonStep, StringStep;
    WsRuns(inp, c, max);
    var d := c.(pos := SkipWs(inp, c.pos));
    OneToken(inp, d, max);
    KeyString(inp, d);
    var s := TokenStep(inp, d, max);
    WsRuns(inp, s, max);
    var e := s.(pos := SkipWs(inp, s.pos));
    OneToken(inp, e, max);
    ColonRuns(e.(pos := e.pos + 1));
    r := TokenStep(inp, e, max);
  }

  lemma KeyMakesReady(c: Core, k: Core)
    requires c.frames != [] && k.frames == c.frames[..|c.frames| - 1] + [Top(c).(st := AtValue)]
    ensures Ready(k.frames, k.topDone) && Done(k.frames) == Done(c.frames) && |k.frames| == |c.frames|
  {
  }

  lemma KeyString(inp: Bytes, c: Core)
    requires c.pos < |inp| && inp[c.pos] == QUOTE && StringEnd(inp, c.pos + 1).Some?
    requires !c.stop && c.frames != [] && Top(c).isObject
    requires Top(c).st == AtKey || (Top(c).st == AfterValue && Top(c).commaSeen)
    ensures var r := StringStep(inp, c);
            && r.pos == StringEnd(inp, c.pos + 1).value
            && Control(r, c.frames[..|c.frames| - 1] + [Top(c).(st := AtColon)], c.topDone, c.fixes)
  {
    hide CopyString, StringEnd;
    var k := PrepareKey(c);
    CopiesValid(inp, Emit(k, [QUOTE]).(pos := c.pos + 1));
  }

  lemma ColonRuns(c: Core)
    requires !c.stop && c.frames != [] && Top(c).isObject && Top(c).st == AtColon
    ensures var r := ColonStep(c, COLON);
            && r.pos == c.pos
            && Control(r, c.frames[..|c.frames| - 1] + [Top(c).(st := AtValue)], c.topDone, c.fixes)
  {
  }

  lemma {:induction false} MembersRuns(inp: Bytes, c: Core, max: nat) returns (r: Core)
    requires c.pos <= |inp| && !c.stop && c.frames != [] && Top(c).isObject
    requires Top(c).st == AtKey || (Top(c).st == AfterValue && Top(c).commaSeen)
    requires MembersEnd(inp, c.pos, |c.frames|, max).Some?
    ensures r.pos == MembersEnd(inp, c.pos, |c.frames|, max).value
    ensures var base := c.frames[..|c.frames| - 1]; Control(r, Done(base), base == [] || c.topDone, c.fixes)
    ensures Run(inp, c, max) == Run(inp, r, max)
    decreases |inp| - c.pos, 2
  {
    hide ValueEnd, KeyEnd, Run, CloseContainer, CommaStep, SkipWs, Done, Ready;
    DelimitedItem(inp, c.pos, |c.frames|, max);
    var k := KeyRuns(inp, c, max);
    KeyMakesReady(c, k);
    var v := ValueRuns(inp, k, max);
    WsRuns(inp, v, max);
    var d := v.(pos := SkipWs(inp, v.pos));
    OneToken(inp, d, max);
    var t := TokenStep(inp, d, max);
    if inp[d.pos] == COMMA {
      Commas(d.(pos := d.pos + 1), c.frames, c.topDone, c.fixes);
      r := MembersRuns(inp, t, max);
    } else {
      ClosesAfter(d.(pos := d.pos + 1), CLOSE_BRACE, c.frames, c.topDone, c.fixes);
      r := t;
    }
  }

  /** Structurally valid text needs no fix: it comes back with only its insignificant whitespace removed. */
  lemma ValidTextIsLeftAlone(inp: Bytes, max: nat)
    requires StructurallyValid(inp, max) && BomLength(inp) == 0
    ensures Repair(inp, max).fixes == 0 && Repair(inp, max).text == Some(RepairTidy.Squeeze(inp, 0))
  {
    hide ValueEnd, Run, RepairTidy.Squeeze;
    var c := Start(inp);
    EndsDelimited(inp, ValueEnd(inp, 0, 0, max).value);
    var r := ValueRuns(inp, c, max);
    WsRuns(inp, r, max);
    var d := r.(pos := SkipWs(inp, r.pos));
    assert Run(inp, d, max) == d by { RunEnds(inp, d, max); }
    RepairTidy.ZeroFixesMeansTidy(inp, max);
  }

  lemma RunEnds(inp: Bytes, c: Core, max: nat)
    requires c.pos == |inp|
    ensures Run(inp, c, max) == c
  {
  }

  lemma EndsDelimited(inp: Bytes, e: nat)
    requires e <= |inp| && SkipWs(inp, e) == |inp|
    ensures Delimited(inp, e)
  {
  }

  /** Repair leaves alone every text the strict parser accepts. */
  lemma AcceptedTextIsLeftAlone(inp: Bytes)
    requires ReadDocument(inp, MAX_DEPTH).Some? && BomLength(inp) == 0
    ensures var r := Repair(inp, MAX_DEPTH); r.fixes == 0 && r.text == Some(RepairTidy.Squeeze(inp, 0))
  {
    StrictIsStructural(inp, MAX_DEPTH);
    ValidTextIsLeftAlone(inp, MAX_DEPTH);
  }
}
