/** A repair that reports no fix has only removed insignificant whitespace. */
module RepairTidy {
  import opened Bytes
  import opened Texts
  import opened Options
  import opened Scan
  import opened RepairSpec

  /** The text from i on without the whitespace outside strings. */
  function Squeeze(inp: Bytes, i: nat): Bytes
    requires i <= |inp|
    decreases |inp| - i
  {
    if i >= |inp| then []
    else if IsWs(inp[i]) then Squeeze(inp, i + 1)
    else if inp[i] == QUOTE then [QUOTE] + SqueezeString(inp, i + 1)
    else [inp[i]] + Squeeze(inp, i + 1)
  }

  /** The same from inside a string. */
  function SqueezeString(inp: Bytes, i: nat): Bytes
    requires i <= |inp|
    decreases |inp| - i
  {
    if i >= |inp| then []
    else if inp[i] == QUOTE then [QUOTE] + Squeeze(inp, i + 1)
    else if inp[i] == BACKSLASH && i + 1 < |inp| then inp[i..i + 2] + SqueezeString(inp, i + 2)
    else [inp[i]] + SqueezeString(inp, i + 1)
  }

  lemma {:induction false} SqueezePlain(inp: Bytes, i: nat, e: nat)
    requires i <= e <= |inp| && forall k :: i <= k < e ==> !IsWs(inp[k]) && inp[k] != QUOTE
    ensures Squeeze(inp, i) == inp[i..e] + Squeeze(inp, e)
    decreases e - i
  {
    if i < e {
      SqueezePlain(inp, i + 1, e);
      assert inp[i..e] == [inp[i]] + inp[i + 1..e];
      Associates([inp[i]], inp[i + 1..e], Squeeze(inp, e));
    } else {
      assert inp[i..e] + Squeeze(inp, e) == Squeeze(inp, e);
    }
  }

  lemma {:induction false} SqueezeInside(inp: Bytes, i: nat, e: nat)
    requires i <= e <= |inp| && forall k :: i <= k < e ==> inp[k] != BACKSLASH && inp[k] != QUOTE
    ensures SqueezeString(inp, i) == inp[i..e] + SqueezeString(inp, e)
    decreases e - i
  {
    if i < e {
      SqueezeInside(inp, i + 1, e);
      assert inp[i..e] == [inp[i]] + inp[i + 1..e];
      Associates([inp[i]], inp[i + 1..e], SqueezeString(inp, e));
    } else {
      assert inp[i..e] + SqueezeString(inp, e) == SqueezeString(inp, e);
    }
  }

  /** An escape sequence of k bytes. */
  predicate EscapeAt(inp: Bytes, p: nat, k: nat)
  {
    p + k <= |inp| && (k == 2 || (k == 6 && Hex4(inp, p + 2) >= 0)) && inp[p] == BACKSLASH
  }

  lemma EscapeSqueezed(inp: Bytes, p: nat, k: nat)
    requires EscapeAt(inp, p, k)
    ensures SqueezeString(inp, p) == inp[p..p + k] + SqueezeString(inp, p + k)
  {
    hide *;
    EscapeBounds(inp, p, k);
    EscapeInside(inp, p);
    if k == 6 {
      HexIsInside(inp, p + 2);
      SqueezeInside(inp, p + 2, p + 6);
      Spliced(inp, p, p + 2, p + 6, SqueezeString(inp, p + 6));
    }
  }

  lemma EscapeBounds(inp: Bytes, p: nat, k: nat)
    requires EscapeAt(inp, p, k)
    ensures p + k <= |inp| && (k == 2 || (k == 6 && Hex4(inp, p + 2) >= 0)) && inp[p] == BACKSLASH
  {
  }

  lemma EscapeInside(inp: Bytes, p: nat)
    requires p + 1 < |inp| && inp[p] == BACKSLASH
    ensures SqueezeString(inp, p) == inp[p..p + 2] + SqueezeString(inp, p + 2)
  {
    hide Squeeze;
  }

  lemma Spliced(inp: Bytes, i: nat, j: nat, e: nat, rest: Bytes)
    requires i <= j <= e <= |inp|
    ensures inp[i..j] + (inp[j..e] + rest) == inp[i..e] + rest
  {
    assert inp[i..e] == inp[i..j] + inp[j..e];
    Associates(inp[i..j], inp[j..e], rest);
  }

  /** An escape copied without a fix is copied as it stands. */
  lemma EscapeCopied(inp: Bytes, c: Core) returns (k: nat)
    requires c.pos < |inp| && inp[c.pos] == BACKSLASH && CopyEscape(inp, c, QUOTE).fixes == c.fixes
    ensures EscapeAt(inp, c.pos, k)
    ensures CopyEscape(inp, c, QUOTE) == Emit(c, inp[c.pos..c.pos + k]).(pos := c.pos + k)
  {
    var p := c.pos;
    assert inp[p..p + 2] == [BACKSLASH, inp[p + 1]];
    k := if SimpleEscape(inp[p + 1]).Some? then 2 else 6;
  }

  lemma QuietEscape(inp: Bytes, c: Core)
    requires c.pos < |inp| && inp[c.pos] == BACKSLASH && CopyEscape(inp, c, QUOTE).fixes == c.fixes
    ensures var r := CopyEscape(inp, c, QUOTE);
            r.out + SqueezeString(inp, r.pos) == c.out + SqueezeString(inp, c.pos)
  {
    hide CopyEscape, SqueezeString, EscapeAt;
    var k := EscapeCopied(inp, c);
    EscapeSqueezed(inp, c.pos, k);
    EscapeBounds(inp, c.pos, k);
    Associates(c.out, inp[c.pos..c.pos + k], SqueezeString(inp, c.pos + k));
  }

  lemma HexIsInside(inp: Bytes, i: nat)
    requires i + 4 <= |inp| && Hex4(inp, i) >= 0
    ensures forall k :: i <= k < i + 4 ==> inp[k] != BACKSLASH && inp[k] != QUOTE
  {
  }

  /** A double-quoted string copied without a fix is copied byte for byte. */
  lemma {:induction false} QuietString(inp: Bytes, c: Core)
    requires c.pos <= |inp| && CopyString(inp, c, QUOTE).fixes == c.fixes
    ensures var r := CopyString(inp, c, QUOTE);
            r.out + Squeeze(inp, r.pos) == c.out + SqueezeString(inp, c.pos)
    decreases |inp| - c.pos
  {
    hide CopyEscape;
    var p := c.pos;
    if p >= |inp| {
    } else if inp[p] == QUOTE {
      Associates(c.out, [QUOTE], Squeeze(inp, p + 1));
    } else if inp[p] == BACKSLASH {
      QuietEscape(inp, c);
      QuietString(inp, CopyEscape(inp, c, QUOTE));
    } else {
      QuietString(inp, Emit(c, [inp[p]]).(pos := p + 1));
      Associates(c.out, [inp[p]], SqueezeString(inp, p + 1));
    }
  }

  // --- The separators of a quiet step ---

  /** The comma that was read and not written yet. */
  function Deferred(c: Core): Bytes
  {
    if c.frames != [] && Top(c).st == AfterValue && Top(c).commaSeen then [COMMA] else []
  }

  lemma QuietPrepare(c: Core)
    requires PrepareValue(c).fixes == c.fixes
    ensures var v := PrepareValue(c);
            v.out == c.out + Deferred(c) && Deferred(v) == [] && v.stop == c.stop
  {
    NothingMore(c.out);
  }

  lemma QuietKey(c: Core)
    requires c.frames != [] && PrepareKey(c).fixes == c.fixes
    ensures PrepareKey(c).out == c.out + Deferred(c) && Deferred(PrepareKey(c)) == []
  {
    NothingMore(c.out);
  }

  lemma DoneDefersNothing(c: Core)
    ensures Deferred(ValueDone(c)) == [] && ValueDone(c).out == c.out
  {
  }

  lemma QuietClose(c: Core, ch: byte)
    requires CloseContainer(c, ch).fixes == c.fixes
    ensures var r := CloseContainer(c, ch); r.out == c.out + Deferred(c) + [ch] && Deferred(r) == []
  {
    hide ClosePending, ValueDone, Deferred;
    var f := Top(c);
    var c3 := Emit(ClosePending(c, f), [ch]).(frames := c.frames[..|c.frames| - 1]);
    QuietPending(c, f);
    DoneCounts(c3);
    DoneDefersNothing(c3);
    NothingMore(c.out);
    CloseDefersNothing(c);
  }

  lemma QuietPending(c: Core, f: Frame)
    requires ClosePending(c, f).fixes == c.fixes
    ensures ClosePending(c, f) == c
  {
  }

  lemma CloseDefersNothing(c: Core)
    requires c.frames != [] && !(Top(c).st == AfterValue && Top(c).commaSeen)
    ensures Deferred(c) == []
  {
  }

  lemma QuietOpen(c: Core, isObject: bool, max: nat)
    requires OpenContainer(c, isObject, max).fixes == c.fixes && !OpenContainer(c, isObject, max).stop
    ensures var r := OpenContainer(c, isObject, max);
            r.out == c.out + Deferred(c) + [if isObject then OPEN_BRACE else OPEN_BRACKET] && Deferred(r) == []
  {
    hide PrepareValue;
    QuietPrepare(c);
  }

  lemma QuietComma(c: Core)
    requires CommaStep(c).fixes == c.fixes
    ensures CommaStep(c).out == c.out && Deferred(c) == [] && Deferred(CommaStep(c)) == [COMMA]
  {
  }

  lemma QuietColon(c: Core, ch: byte)
    requires ColonStep(c, ch).fixes == c.fixes
    ensures ColonStep(c, ch).out == c.out + [COLON] && ch == COLON && Deferred(c) == [] && Deferred(ColonStep(c, ch)) == []
  {
  }

  /** What is written, what is deferred and what is still to be read, squeezed. */
  function Total(inp: Bytes, c: Core): Bytes
    requires c.pos <= |inp|
  {
    c.out + Deferred(c) + Squeeze(inp, c.pos)
  }

  lemma TotalOf(inp: Bytes, c: Core, r: Core, s: Bytes)
    requires c.pos <= r.pos <= |inp| && Squeeze(inp, c.pos) == s + Squeeze(inp, r.pos)
    requires r.out == c.out + Deferred(c) + s && Deferred(r) == []
    ensures Total(inp, r) == Total(inp, c)
  {
    hide Squeeze, Deferred;
    Associates(c.out + Deferred(c), s, Squeeze(inp, r.pos));
    NothingMore(r.out);
  }

  // --- Quiet steps ---

  lemma QuietStringStep(inp: Bytes, c: Core)
    requires c.pos < |inp| && StringStep(inp, c).fixes == c.fixes && !StringStep(inp, c).stop
    requires inp[c.pos] == QUOTE || inp[c.pos] == APOSTROPHE || inp[c.pos] == BACKTICK
    ensures Total(inp, StringStep(inp, c)) == Total(inp, c)
  {
    hide PrepareValue, PrepareKey, ValueDone, CopyString, Deferred;
    var v := if AtKeyPosition(c) then PrepareKey(c) else PrepareValue(c);
    if AtKeyPosition(c) { QuietKey(c); } else { QuietPrepare(c); DoneDefersNothing(CopyLiteral(inp, v)); }
    var d := Emit(v, [QUOTE]).(pos := c.pos + 1);
    assert CopyLiteral(inp, v) == CopyString(inp, d, QUOTE);
    QuietString(inp, d);
    var r := StringStep(inp, c);
    SameFrames(v, CopyLiteral(inp, v));
    StringTotal(inp, c, d, r);
  }

  lemma StringTotal(inp: Bytes, c: Core, d: Core, r: Core)
    requires c.pos < |inp| && inp[c.pos] == QUOTE && r.pos <= |inp|
    requires d.out == c.out + Deferred(c) + [QUOTE] && Deferred(r) == []
    requires r.out + Squeeze(inp, r.pos) == d.out + SqueezeString(inp, c.pos + 1)
    ensures Total(inp, r) == Total(inp, c)
  {
    hide Deferred;
    assert Squeeze(inp, c.pos) == [QUOTE] + SqueezeString(inp, c.pos + 1);
    hide Squeeze, SqueezeString;
    NothingMore(r.out);
    Associates(c.out + Deferred(c), [QUOTE], SqueezeString(inp, c.pos + 1));
  }

  lemma SameFrames(a: Core, b: Core)
    requires a.frames == b.frames
    ensures Deferred(a) == Deferred(b)
  {
  }

  lemma WordIsPlain(inp: Bytes, i: nat, e: nat)
    requires i <= e <= |inp| && forall k :: i <= k < e ==> IsWordChar(inp[k]) || IsNumberRun(inp[k])
    ensures Squeeze(inp, i) == inp[i..e] + Squeeze(inp, e)
  {
    hide Squeeze;
    SqueezePlain(inp, i, e);
  }

  lemma QuietWordStep(inp: Bytes, c: Core)
    requires c.pos < |inp| && IsWordStart(inp[c.pos])
    requires WordStep(inp, c).fixes == c.fixes && !WordStep(inp, c).stop
    ensures Total(inp, WordStep(inp, c)) == Total(inp, c)
  {
    hide PrepareValue, PrepareKey, ValueDone, Deferred, Squeeze, IsWordChar;
    var e := WordEnd(inp, c.pos);
    var w, d := inp[c.pos..e], c.(pos := e);
    WordIsPlain(inp, c.pos, e);
    var v := PrepareValue(d);
    SameFrames(c, d);
    QuietPrepare(d);
    assert WordValue(v, w) == Emit(v, w);
    DoneDefersNothing(Emit(v, w));
    TotalOf(inp, c, WordStep(inp, c), w);
  }

  lemma QuietNumberStep(inp: Bytes, c: Core)
    requires c.pos < |inp| && IsNumberStart(inp[c.pos])
    requires NumberStep(inp, c).fixes == c.fixes && !NumberStep(inp, c).stop
    ensures Total(inp, NumberStep(inp, c)) == Total(inp, c)
  {
    hide PrepareValue, PrepareKey, ValueDone, Deferred, Squeeze, IsNumberRun, IsNumberText, RepairNumber;
    var e := NumberEnd(inp, c.pos);
    var t, d := inp[c.pos..e], c.(pos := e);
    WordIsPlain(inp, c.pos, e);
    var v := PrepareValue(d);
    SameFrames(c, d);
    RepairCounts(v, t);
    DoneCounts(RepairNumber(v, t));
    QuietPrepare(d);
    DoneDefersNothing(Emit(v, t));
    TotalOf(inp, c, NumberStep(inp, c), t);
  }

  lemma RepairCounts(c: Core, t: Bytes)
    ensures RepairNumber(c, t).fixes == c.fixes + 1
  {
    hide HexToken, Normalized, IsNumberText;
  }

  lemma DoneCounts(c: Core)
    ensures ValueDone(c).fixes == c.fixes && ValueDone(c).stop == c.stop
  {
  }

  lemma ByteTotal(inp: Bytes, c: Core, r: Core)
    requires c.pos < |inp| && r.pos == c.pos + 1 && !IsWs(inp[c.pos]) && inp[c.pos] != QUOTE
    requires (r.out == c.out + Deferred(c) + [inp[c.pos]] && Deferred(r) == [])
          || (r.out == c.out && Deferred(c) == [] && Deferred(r) == [inp[c.pos]])
    ensures Total(inp, r) == Total(inp, c)
  {
    hide Deferred;
    var b := [inp[c.pos]];
    assert Squeeze(inp, c.pos) == b + Squeeze(inp, c.pos + 1);
    if Deferred(r) == [] {
      TotalOf(inp, c, r, b);
    } else {
      NothingMore(c.out);
      Associates(c.out, b, Squeeze(inp, r.pos));
    }
  }

  lemma QuietToken(inp: Bytes, c: Core, max: nat)
    requires c.pos < |inp| && !IsWs(inp[c.pos])
    requires TokenStep(inp, c, max).fixes == c.fixes && !TokenStep(inp, c, max).stop
    ensures Total(inp, TokenStep(inp, c, max)) == Total(inp, c)
  {
    var ch := inp[c.pos];
    var d, r := c.(pos := c.pos + 1), TokenStep(inp, c, max);
    hide Squeeze, Deferred, OpenContainer, CloseContainer, CommaStep, ColonStep, StringStep, NumberStep, WordStep,
         IsNumberStart, IsWordStart, Total;
    SameFrames(c, d);
    if ch == OPEN_BRACE || ch == OPEN_BRACKET {
      QuietOpen(d, ch == OPEN_BRACE, max);
      ByteTotal(inp, c, r);
    } else if ch == CLOSE_BRACE || ch == CLOSE_BRACKET {
      QuietClose(d, ch);
      ByteTotal(inp, c, r);
    } else if ch == COMMA {
      QuietComma(d);
      ByteTotal(inp, c, r);
    } else if ch == COLON || ch == EQUALS {
      QuietColon(d, ch);
      NothingMore(c.out);
      ByteTotal(inp, c, r);
    } else if ch == QUOTE || ch == APOSTROPHE || ch == BACKTICK {
      QuietStringStep(inp, c);
    } else if IsNumberStart(ch) {
      QuietNumberStep(inp, c);
    } else {
      QuietWordStep(inp, c);
    }
  }

  lemma QuietStep(inp: Bytes, c: Core, max: nat)
    requires c.pos < |inp| && Step(inp, c, max).fixes == c.fixes && !Step(inp, c, max).stop
    ensures Total(inp, Step(inp, c, max)) == Total(inp, c)
  {
    hide TokenStep, Total;
    if IsWs(inp[c.pos]) { WsTotal(inp, c); } else { QuietToken(inp, c, max); }
  }

  lemma WsTotal(inp: Bytes, c: Core)
    requires c.pos < |inp| && IsWs(inp[c.pos])
    ensures Total(inp, c.(pos := c.pos + 1)) == Total(inp, c)
  {
  }

  lemma PrepareStop(c: Core)
    requires !c.stop && PrepareValue(c).stop
    ensures PrepareValue(c).fixes == c.fixes + 1
  {
  }

  /** A step that stops without a fix has met the depth cap: a container is open, or no value is written. */
  lemma QuietStop(inp: Bytes, c: Core, max: nat)
    requires c.pos < |inp| && !c.stop && Step(inp, c, max).stop && Step(inp, c, max).fixes == c.fixes
    ensures Step(inp, c, max).frames != [] || !Step(inp, c, max).topDone
  {
    hide CopyLiteral, WordValue, RepairNumber, IsNumberText, BareKey, PrepareValue, PrepareKey, ValueDone, CloseContainer,
         CommaStep, ColonStep, Deferred;
    var d := c.(pos := c.pos + 1);
    assert Step(inp, c, max) == TokenStep(inp, c, max);
    if inp[c.pos] == OPEN_BRACE || inp[c.pos] == OPEN_BRACKET {
      OpenStop(d, inp[c.pos] == OPEN_BRACE, max);
    } else {
      OtherStop(inp, c, max);
    }
  }

  lemma OpenStop(c: Core, isObject: bool, max: nat)
    requires !c.stop && OpenContainer(c, isObject, max).stop && OpenContainer(c, isObject, max).fixes == c.fixes
    ensures OpenContainer(c, isObject, max).frames != [] || !OpenContainer(c, isObject, max).topDone
  {
  }

  /** No other token stops the run without a fix. */
  lemma OtherStop(inp: Bytes, c: Core, max: nat)
    requires c.pos < |inp| && !c.stop && inp[c.pos] != OPEN_BRACE && inp[c.pos] != OPEN_BRACKET
    requires TokenStep(inp, c, max).stop
    ensures TokenStep(inp, c, max).fixes > c.fixes
  {
    hide OpenContainer, StringStep, NumberStep, WordStep, CloseContainer, CommaStep, ColonStep;
    var ch := inp[c.pos];
    var d := c.(pos := c.pos + 1);
    if ch == QUOTE || ch == APOSTROPHE || ch == BACKTICK { StringStop(inp, c); }
    if IsNumberStart(ch) { NumberStop(inp, c); }
    if IsWordStart(ch) { WordStop(inp, c); }
  }

  lemma StringStop(inp: Bytes, c: Core)
    requires c.pos < |inp| && !c.stop && StringStep(inp, c).stop
    ensures StringStep(inp, c).fixes > c.fixes
  {
    hide PrepareValue, PrepareKey, CopyLiteral, ValueDone;
    if PrepareValue(c).stop {
      PrepareStop(c);
    } else {
      DoneCounts(CopyLiteral(inp, PrepareValue(c)));
    }
  }

  lemma WordStop(inp: Bytes, c: Core)
    requires c.pos < |inp| && !c.stop && IsWordStart(inp[c.pos]) && WordStep(inp, c).stop
    ensures WordStep(inp, c).fixes > c.fixes
  {
    hide PrepareValue, PrepareKey, ValueDone;
    var e := WordEnd(inp, c.pos);
    var w, d := inp[c.pos..e], c.(pos := e);
    if PrepareValue(d).stop {
      PrepareStop(d);
    } else {
      DoneCounts(WordValue(PrepareValue(d), w));
    }
  }

  lemma NumberStop(inp: Bytes, c: Core)
    requires c.pos < |inp| && !c.stop && IsNumberStart(inp[c.pos]) && NumberStep(inp, c).stop
    ensures NumberStep(inp, c).fixes > c.fixes
  {
    hide PrepareValue, PrepareKey, ValueDone, IsNumberText, HexToken, Normalized;
    var e := NumberEnd(inp, c.pos);
    var t, d := inp[c.pos..e], c.(pos := e);
    if PrepareValue(d).stop {
      PrepareStop(d);
    } else {
      DoneCounts(RepairNumber(PrepareValue(d), t));
      DoneCounts(Emit(PrepareValue(d), t));
    }
  }

  lemma {:induction false} QuietRun(inp: Bytes, c: Core, max: nat)
    requires c.pos <= |inp| && !c.stop && Run(inp, c, max).fixes == c.fixes
    ensures var r := Run(inp, c, max);
            r.frames == [] && r.topDone ==> r.pos == |inp| && Total(inp, r) == Total(inp, c)
    decreases |inp| - c.pos
  {
    hide Step, Total;
    if c.pos < |inp| {
      var d := Step(inp, c, max);
      if d.stop {
        QuietStop(inp, c, max);
      } else {
        QuietStep(inp, c, max);
        QuietRun(inp, d, max);
      }
    }
  }

  /** Zero fixes: the text comes back with only its insignificant whitespace removed. */
  lemma ZeroFixesMeansTidy(inp: Bytes, max: nat)
    requires Repair(inp, max).fixes == 0 && Repair(inp, max).text.Some?
    ensures Repair(inp, max).text == Some(Squeeze(inp, 0))
  {
    hide Run, Squeeze;
    var c := Start(inp);
    QuietRun(inp, c, max);
    var r := Run(inp, c, max);
    assert r.frames == [];
    assert Total(inp, c) == Squeeze(inp, 0) by { assert [] + [] + Squeeze(inp, 0) == Squeeze(inp, 0); }
    AtEnd(inp, r);
  }

  lemma AtEnd(inp: Bytes, r: Core)
    requires r.frames == [] && r.pos == |inp|
    ensures Total(inp, r) == r.out
  {
  }
}
