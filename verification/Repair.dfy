/** The repairer in its own form: a cursor, a stack of frames and an output, changed in the main loop. */
module Repair {
  import opened Bytes
  import opened Texts
  import opened Options
  import opened Scan
  import opened Decimal
  import opened SerializerSpec
  import Spec = RepairSpec
  import ParserSpec

  type Kind = Spec.Kind
  type Place = Spec.Place
  type Frame = Spec.Frame

  class Repairer {
    const text: Bytes
    const frames: array<Frame>
    var pos: nat
    var out: Bytes
    var depth: nat
    var topDone: bool
    var stop: bool
    var fixes: nat
    var kinds: set<Kind>

    ghost predicate Valid()
      reads this`pos, this`depth
    {
      pos <= |text| && depth <= frames.Length
    }

    ghost function View(): Spec.Core
      requires depth <= frames.Length
      reads this, frames
    {
      Spec.Core(pos, out, frames[..depth], topDone, stop, fixes, kinds)
    }

    constructor (text: Bytes, maxDepth: nat)
      ensures Valid() && fresh(frames) && frames.Length == maxDepth && this.text == text
      ensures View() == Spec.Core(0, [], [], false, false, 0, {})
    {
      this.text := text;
      frames := new Frame[maxDepth](_ => Spec.Frame(false, Spec.AtKey, false));
      pos, out, depth, topDone, stop, fixes, kinds := 0, [], 0, false, false, 0, {};
    }

    method Fix(k: Kind)
      requires Valid()
      modifies this`fixes, this`kinds
      ensures Valid() && View() == Spec.Fix(old(View()), k)
    {
      fixes := fixes + 1;
      kinds := kinds + {k};
    }

    method Append(s: Bytes)
      requires Valid()
      modifies this`out
      ensures Valid() && View() == Spec.Emit(old(View()), s)
    {
      out := out + s;
    }

    /** Replaces the innermost frame. */
    method SetTop(f: Frame)
      requires Valid() && depth > 0
      modifies frames
      ensures Valid() && View() == Spec.SetTop(old(View()), f)
    {
      frames[depth - 1] := f;
      assert frames[..depth] == old(frames[..depth])[..depth - 1] + [f];
    }

    ghost function Top(): Frame
      requires Valid() && depth > 0
      reads this`pos, this`depth, frames
      ensures View().frames != [] && Top() == Spec.Top(View())
    {
      frames[depth - 1]
    }

    method AtKeyPosition() returns (b: bool)
      requires Valid()
      ensures b == Spec.AtKeyPosition(View())
    {
      if depth == 0 { return false; }
      ghost var t := Top();
      var f := frames[depth - 1];
      b := f.isObject && (f.st == Spec.AtKey || f.st == Spec.AfterValue);
    }

    /** Writes what must stand before a value; false when the machine must stop. */
    method PrepareValue() returns (ok: bool)
      requires Valid() && !stop
      modifies this`out, this`fixes, this`kinds, this`stop, frames
      ensures Valid() && View() == Spec.PrepareValue(old(View())) && ok == !stop
    {
      hide Spec.SetTop;
      if depth == 0 {
        if topDone {
          Fix(Spec.TrailingData);
          stop := true;
          return false;
        }
        return true;
      }
      ghost var t := Top();
      var f := frames[depth - 1];
      var st := f.st;
      if st == Spec.AfterValue {
        if !f.commaSeen { Fix(Spec.MissingComma); }
        Append([COMMA]);
        st := if f.isObject then Spec.AtKey else Spec.AtValue;
      }
      if f.isObject {
        if st == Spec.AtKey {
          Fix(Spec.Garbage);
          Append(Spec.EMPTY_KEY);
        } else if st == Spec.AtColon {
          Fix(Spec.MissingColon);
          Append([COLON]);
        }
      }
      SetTop(f.(st := Spec.AtValue));
      return true;
    }

    method ValueDone()
      requires Valid()
      modifies this`topDone, frames
      ensures Valid() && View() == Spec.ValueDone(old(View()))
    {
      hide Spec.SetTop;
      if depth == 0 {
        topDone := true;
      } else {
        ghost var t := Top();
        SetTop(frames[depth - 1].(st := Spec.AfterValue, commaSeen := false));
      }
    }

    method PrepareKey()
      requires Valid() && depth > 0
      modifies this`out, this`fixes, this`kinds, frames
      ensures Valid() && View() == Spec.PrepareKey(old(View()))
    {
      hide Spec.SetTop;
      ghost var t := Top();
      var f := frames[depth - 1];
      if f.st == Spec.AfterValue {
        if !f.commaSeen { Fix(Spec.MissingComma); }
        Append([COMMA]);
      }
      SetTop(f.(st := Spec.AtColon));
    }

    /** Gives a key that waits for its value a null. */
    method ClosePending(f: Frame)
      requires Valid()
      modifies this`out, this`fixes, this`kinds
      ensures Valid() && View() == Spec.ClosePending(old(View()), f)
    {
      if !f.isObject { return; }
      if f.st == Spec.AtColon {
        Fix(Spec.MissingValue);
        Append([COLON] + NULL_WORD);
      } else if f.st == Spec.AtValue {
        Fix(Spec.MissingValue);
        Append(NULL_WORD);
      }
    }

    method CloseContainer(ch: byte)
      requires Valid()
      modifies this`out, this`fixes, this`kinds, this`depth, this`topDone, frames
      ensures Valid() && View() == Spec.CloseContainer(old(View()), ch)
    {
      hide Spec.ClosePending, Spec.ValueDone;
      if depth == 0 {
        Fix(Spec.Garbage);
        return;
      }
      ghost var t := Top();
      var f := frames[depth - 1];
      var expected := if f.isObject then CLOSE_BRACE else CLOSE_BRACKET;
      if ch != expected { Fix(Spec.Bracket); }
      if f.st == Spec.AfterValue && f.commaSeen { Fix(Spec.TrailingComma); }
      ClosePending(f);
      Append([expected]);
      depth := depth - 1;
      assert frames[..depth] == old(frames[..depth])[..depth];
      ValueDone();
    }

    method OpenContainer(isObject: bool)
      requires Valid() && !stop
      modifies this`out, this`fixes, this`kinds, this`stop, this`depth, frames
      ensures Valid() && View() == Spec.OpenContainer(old(View()), isObject, frames.Length)
    {
      hide Spec.PrepareValue;
      var ok := PrepareValue();
      if !ok { return; }
      if depth >= frames.Length {
        stop := true;
        return;
      }
      ghost var before := frames[..depth];
      var f := Spec.Frame(isObject, if isObject then Spec.AtKey else Spec.AtValue, false);
      frames[depth] := f;
      depth := depth + 1;
      assert frames[..depth] == before + [f];
      Append([if isObject then OPEN_BRACE else OPEN_BRACKET]);
    }

    method Comma()
      requires Valid()
      modifies this`out, this`fixes, this`kinds, frames
      ensures Valid() && View() == Spec.CommaStep(old(View()))
    {
      hide Spec.ClosePending, Spec.SetTop;
      if depth == 0 {
        Fix(Spec.Garbage);
        return;
      }
      ghost var t := Top();
      var f := frames[depth - 1];
      if f.isObject && (f.st == Spec.AtColon || f.st == Spec.AtValue) {
        ClosePending(f);
        SetTop(f.(st := Spec.AfterValue, commaSeen := true));
      } else if f.st == Spec.AfterValue && !f.commaSeen {
        SetTop(f.(commaSeen := true));
      } else {
        Fix(Spec.Garbage);
      }
    }

    method Colon(ch: byte)
      requires Valid()
      modifies this`out, this`fixes, this`kinds, frames
      ensures Valid() && View() == Spec.ColonStep(old(View()), ch)
    {
      hide Spec.SetTop;
      if depth > 0 {
        ghost var t := Top();
        var f := frames[depth - 1];
        if f.isObject && f.st == Spec.AtColon {
          if ch != COLON { Fix(Spec.MissingColon); }
          Append([COLON]);
          SetTop(f.(st := Spec.AtValue));
          return;
        }
      }
      Fix(Spec.Garbage);
    }

    // --- Strings ---

    method EmitEscapedControl(ch: byte)
      requires Valid() && ch < 0x20
      modifies this`out
      ensures Valid() && View() == Spec.Emit(old(View()), ShortEscape(ch))
    {
      if ch == NEWLINE { Append([BACKSLASH, 0x6E]); }
      else if ch == RETURN { Append([BACKSLASH, 0x72]); }
      else if ch == TAB { Append([BACKSLASH, 0x74]); }
      else if ch == 0x08 { Append([BACKSLASH, 0x62]); }
      else if ch == 0x0C { Append([BACKSLASH, 0x66]); }
      else { Append(UnitEscape(ch)); }
    }

    method CopyEscape(quote: byte)
      requires Valid() && pos < |text| && text[pos] == BACKSLASH
      modifies this`pos, this`out, this`fixes, this`kinds
      ensures Valid() && View() == Spec.CopyEscape(text, old(View()), quote)
    {
      hide SimpleEscape, Hex4;
      if |text| - pos < 2 {
        Fix(Spec.EscapeSyntax);
        pos := pos + 1;
        return;
      }
      var n := text[pos + 1];
      if SimpleEscape(n).Some? {
        Append([BACKSLASH, n]);
        pos := pos + 2;
      } else if n == LOWER_U && |text| - pos >= 6 && Hex4(text, pos + 2) >= 0 {
        Append(text[pos..pos + 6]);
        pos := pos + 6;
      } else if n == quote {
        Append([n]);
        pos := pos + 2;
      } else if n == NEWLINE {
        Fix(Spec.EscapeSyntax);
        pos := pos + 2;
      } else {
        Fix(Spec.EscapeSyntax);
        Append([BACKSLASH, BACKSLASH]);
        pos := pos + 1;
      }
    }

    /** A character that is neither the closing quote nor a backslash. */
    method CopyChar(quote: byte)
      requires Valid() && pos < |text| && text[pos] != quote && text[pos] != BACKSLASH
      modifies this`pos, this`out, this`fixes, this`kinds
      ensures Valid() && pos == old(pos) + 1 && View().frames == old(View()).frames
      ensures Spec.CopyString(text, View(), quote) == Spec.CopyString(text, old(View()), quote)
    {
      hide ShortEscape, Spec.CopyEscape;
      var ch := text[pos];
      if ch == QUOTE {
        Append([BACKSLASH, QUOTE]);
      } else if ch < 0x20 {
        Fix(Spec.EscapeSyntax);
        EmitEscapedControl(ch);
      } else {
        Append([ch]);
      }
      pos := pos + 1;
    }

    method CopyString()
      requires Valid() && pos < |text|
      modifies this`pos, this`out, this`fixes, this`kinds
      ensures Valid() && View() == Spec.CopyLiteral(text, old(View()))
    {
      hide Spec.CopyEscape, ShortEscape;
      var quote := text[pos];
      pos := pos + 1;
      if quote != QUOTE { Fix(Spec.Quotes); }
      Append([QUOTE]);
      ghost var goal := Spec.CopyLiteral(text, old(View()));
      while pos < |text|
        invariant Valid() && Spec.CopyString(text, View(), quote) == goal
        decreases |text| - pos
      {
        var ch := text[pos];
        if ch == quote {
          pos := pos + 1;
          Append([QUOTE]);
          return;
        }
        if ch == BACKSLASH {
          CopyEscape(quote);
          continue;
        }
        CopyChar(quote);
      }
      Fix(Spec.Unclosed);
      Append([QUOTE]);
    }

    method HandleString()
      requires Valid() && !stop && pos < |text|
      modifies this`pos, this`out, this`fixes, this`kinds, this`stop, this`topDone, frames
      ensures Valid() && View() == Spec.StringStep(text, old(View()))
    {
      hide Spec.PrepareValue, Spec.PrepareKey, Spec.ValueDone, Spec.CopyLiteral;
      var key := AtKeyPosition();
      if key {
        PrepareKey();
        CopyString();
        return;
      }
      var ok := PrepareValue();
      if ok {
        CopyString();
        ValueDone();
      }
    }

    // --- Words ---

    method HandleWord()
      requires Valid() && !stop && pos < |text| && Spec.IsWordStart(text[pos])
      modifies this`pos, this`out, this`fixes, this`kinds, this`stop, this`topDone, frames
      ensures Valid() && View() == Spec.WordStep(text, old(View()))
    {
      hide Spec.PrepareValue, Spec.PrepareKey, Spec.ValueDone, Spec.WordValue, Spec.IsWordStart;
      ghost var start := View();
      var s := pos;
      while pos < |text| && Spec.IsWordChar(text[pos])
        invariant s <= pos <= |text| && Spec.WordEnd(text, s) == Spec.WordEnd(text, pos)
        invariant View() == start.(pos := pos)
      {
        pos := pos + 1;
      }
      var w := text[s..pos];
      var key := AtKeyPosition();
      if key {
        PrepareKey();
        Fix(Spec.UnquotedKey);
        Append(PrintString(w, false));
        return;
      }
      var ok := PrepareValue();
      if !ok { return; }
      EmitWord(w);
      ValueDone();
    }

    method EmitWord(w: Bytes)
      requires Valid()
      modifies this`out, this`fixes, this`kinds
      ensures Valid() && View() == Spec.WordValue(old(View()), w)
    {
      if w == TRUE_WORD || w == FALSE_WORD || w == NULL_WORD {
        Append(w);
      } else if w in Spec.TRUE_SPELLINGS {
        Fix(Spec.Literal);
        Append(TRUE_WORD);
      } else if w in Spec.FALSE_SPELLINGS {
        Fix(Spec.Literal);
        Append(FALSE_WORD);
      } else if w in Spec.NULL_SPELLINGS {
        Fix(Spec.Literal);
        Append(NULL_WORD);
      } else {
        Fix(Spec.Quotes);
        Append(PrintString(w, false));
      }
    }

    // --- Numbers ---

    method HandleNumber()
      requires Valid() && !stop && pos < |text| && Spec.IsNumberStart(text[pos])
      modifies this`pos, this`out, this`fixes, this`kinds, this`stop, this`topDone, frames
      ensures Valid() && View() == Spec.NumberStep(text, old(View()))
    {
      hide Spec.PrepareValue, Spec.PrepareKey, Spec.ValueDone, Spec.RepairNumber, Spec.IsNumberStart, IsNumberText;
      ghost var start := View();
      var s := pos;
      while pos < |text| && Spec.IsNumberRun(text[pos])
        invariant s <= pos <= |text| && Spec.NumberEnd(text, s) == Spec.NumberEnd(text, pos)
        invariant View() == start.(pos := pos)
      {
        pos := pos + 1;
      }
      var t := text[s..pos];
      var key := AtKeyPosition();
      if key {
        PrepareKey();
        Fix(Spec.UnquotedKey);
        Append(PrintString(t, false));
        return;
      }
      var ok := PrepareValue();
      if !ok { return; }
      if IsNumberText(t) { Append(t); } else { EmitNumber(t); }
      ValueDone();
    }

    method EmitNumber(t: Bytes)
      requires Valid()
      modifies this`out, this`fixes, this`kinds
      ensures Valid() && View() == Spec.RepairNumber(old(View()), t)
    {
      hide Spec.HexToken, Spec.Normalized, IsNumberText;
      var neg, q := false, 0;
      if t != [] && (t[0] == PLUS || t[0] == MINUS) { neg, q := t[0] == MINUS, 1; }
      if t[q..] == Spec.INFINITY {
        Fix(Spec.Literal);
        Append(NULL_WORD);
        return;
      }
      var hex := Spec.HexToken(t, q);
      if hex.Some? {
        Fix(Spec.NumberSyntax);
        Append((if neg then [MINUS] else []) + DecimalText(hex.value));
        return;
      }
      var norm := Normalize(t, q, neg);
      if norm != [] && IsNumberText(norm) {
        Fix(Spec.NumberSyntax);
        Append(norm);
      } else {
        Fix(Spec.Quotes);
        Append(PrintString(t, false));
      }
    }

    /** Leading zeros dropped, a zero put before a point, and bare points left out, in a buffer of 96 bytes. */
    static method Normalize(t: Bytes, start: nat, neg: bool) returns (r: Bytes)
      requires start <= |t|
      ensures r == Spec.Normalized(t, start, neg)
    {
      var norm := new byte[Spec.NORM_ROOM];
      var k, q := 0, start;
      if neg {
        norm[0] := MINUS;
        k := 1;
      }
      while q + 1 < |t| && t[q] == ZERO && IsDigit(t[q + 1])
        invariant start <= q <= |t| && Spec.SkipZeros(t, q) == Spec.SkipZeros(t, start)
      {
        q := q + 1;
      }
      if q < |t| && t[q] == DOT {
        norm[k] := ZERO;
        k := k + 1;
      }
      ghost var goal := Spec.Normalized(t, start, neg);
      assert norm[..k] + Spec.NormTail(t, q, k) == goal;
      while q < |t| && k + 2 < Spec.NORM_ROOM
        invariant q <= |t| && k < Spec.NORM_ROOM - 1
        invariant norm[..k] + Spec.NormTail(t, q, k) == goal
        decreases |t| - q
      {
        if !(t[q] == DOT && (q + 1 >= |t| || !IsDigit(t[q + 1]))) {
          Associates(norm[..k], [t[q]], Spec.NormTail(t, q + 1, k + 1));
          norm[k] := t[q];
          k := k + 1;
          assert norm[..k] == norm[..k - 1] + [t[q]];
        }
        q := q + 1;
      }
      return norm[..k];
    }

    // --- The main loop ---

    method SkipLine()
      requires Valid()
      modifies this`pos
      ensures Valid() && View() == old(View()).(pos := Spec.LineEnd(text, old(pos)))
    {
      while pos < |text| && text[pos] != NEWLINE
        invariant Valid() && Spec.LineEnd(text, pos) == Spec.LineEnd(text, old(pos))
        invariant View() == old(View()).(pos := pos)
      {
        pos := pos + 1;
      }
    }

    method SkipBlock()
      requires Valid()
      modifies this`pos
      ensures Valid() && View() == old(View()).(pos := Spec.BlockEnd(text, old(pos)))
    {
      while |text| - pos >= 2 && !(text[pos] == Spec.STAR && text[pos + 1] == SLASH)
        invariant Valid() && Spec.BlockEnd(text, pos) == Spec.BlockEnd(text, old(pos))
        invariant View() == old(View()).(pos := pos)
        decreases |text| - pos
      {
        pos := pos + 1;
      }
      pos := if |text| - pos >= 2 then pos + 2 else |text|;
    }

    method HandleComment()
      requires Valid() && pos < |text| && Spec.AtComment(text, pos)
      modifies this`pos, this`fixes, this`kinds
      ensures Valid() && View() == Spec.CommentStep(text, old(View()))
    {
      hide Spec.AtFence;
      if Spec.AtFence(text, pos) {
        Fix(Spec.CodeFence);
        SkipLine();
      } else {
        var block := text[pos] == SLASH && text[pos + 1] == Spec.STAR;
        Fix(Spec.Comment);
        if block {
          pos := pos + 2;
          SkipBlock();
        } else {
          SkipLine();
        }
      }
    }

    method HandleToken()
      requires Valid() && !stop && pos < |text|
      modifies this`pos, this`out, this`fixes, this`kinds, this`stop, this`topDone, this`depth, frames
      ensures Valid() && View() == Spec.TokenStep(text, old(View()), frames.Length)
    {
      hide Spec.OpenContainer, Spec.CloseContainer, Spec.CommaStep, Spec.ColonStep, Spec.StringStep, Spec.NumberStep,
           Spec.WordStep, Spec.IsNumberStart, Spec.IsWordStart;
      var ch := text[pos];
      if ch == QUOTE || ch == Spec.APOSTROPHE || ch == Spec.BACKTICK {
        HandleString();
      } else if Spec.IsNumberStart(ch) {
        NoStructure(ch);
        HandleNumber();
      } else if Spec.IsWordStart(ch) {
        NoStructure(ch);
        HandleWord();
      } else {
        pos := pos + 1;
        HandleStructure(ch);
      }
    }

    static lemma NoStructure(ch: byte)
      requires Spec.IsNumberStart(ch) || Spec.IsWordStart(ch)
      ensures ch != OPEN_BRACE && ch != OPEN_BRACKET && ch != CLOSE_BRACE && ch != CLOSE_BRACKET && ch != COMMA
      ensures ch != COLON && ch != Spec.EQUALS && ch != QUOTE && ch != Spec.APOSTROPHE && ch != Spec.BACKTICK
    {
    }

    method HandleStructure(ch: byte)
      requires Valid() && !stop
      modifies this`out, this`fixes, this`kinds, this`stop, this`topDone, this`depth, frames
      ensures Valid()
      ensures View() == if ch == OPEN_BRACE then Spec.OpenContainer(old(View()), true, frames.Length)
                        else if ch == OPEN_BRACKET then Spec.OpenContainer(old(View()), false, frames.Length)
                        else if ch == CLOSE_BRACE || ch == CLOSE_BRACKET then Spec.CloseContainer(old(View()), ch)
                        else if ch == COMMA then Spec.CommaStep(old(View()))
                        else if ch == COLON || ch == Spec.EQUALS then Spec.ColonStep(old(View()), ch)
                        else Spec.Fix(old(View()), Spec.Garbage)
    {
      hide Spec.OpenContainer, Spec.CloseContainer, Spec.CommaStep, Spec.ColonStep;
      if ch == OPEN_BRACE {
        OpenContainer(true);
      } else if ch == OPEN_BRACKET {
        OpenContainer(false);
      } else if ch == CLOSE_BRACE || ch == CLOSE_BRACKET {
        CloseContainer(ch);
      } else if ch == COMMA {
        Comma();
      } else if ch == COLON || ch == Spec.EQUALS {
        Colon(ch);
      } else {
        Fix(Spec.Garbage);
      }
    }

    method MainLoop()
      requires Valid() && !stop
      modifies this`pos, this`out, this`fixes, this`kinds, this`stop, this`topDone, this`depth, frames
      ensures Valid() && View() == Spec.Run(text, old(View()), frames.Length)
    {
      hide Spec.TokenStep, Spec.CommentStep, Spec.AtFence, Spec.AtComment;
      ghost var goal := Spec.Run(text, View(), frames.Length);
      while pos < |text| && !stop
        invariant Valid() && Spec.Run(text, View(), frames.Length) == goal
        decreases |text| - pos, !stop
      {
        if IsWs(text[pos]) {
          NoFenceAtSpace();
          pos := pos + 1;
          continue;
        }
        if Spec.AtFence(text, pos) && topDone && depth == 0 {
          Fix(Spec.CodeFence);
          break;
        }
        if Spec.AtComment(text, pos) {
          HandleComment();
        } else {
          HandleToken();
        }
      }
    }

    lemma NoFenceAtSpace()
      requires pos < |text| && IsWs(text[pos])
      ensures !Spec.AtFence(text, pos)
    {
      assert pos + 3 <= |text| ==> text[pos..pos + 3][0] == text[pos];
    }

    /** Closes the containers that are still open. */
    method CloseAll()
      requires Valid()
      modifies this`out, this`fixes, this`kinds, this`topDone, this`depth, frames
      ensures Valid() && depth == 0 && View() == Spec.Finish(old(View()))
    {
      hide Spec.CloseContainer;
      ghost var goal := Spec.Finish(View());
      if depth > 0 { Fix(Spec.Unclosed); }
      while depth > 0
        invariant Valid() && Spec.CloseAll(View()) == goal
        decreases depth
      {
        ghost var t := Top();
        CloseShrinks(View());
        CloseContainer(if frames[depth - 1].isObject then CLOSE_BRACE else CLOSE_BRACKET);
      }
    }

    static lemma CloseShrinks(c: Spec.Core)
      requires c.frames != []
      ensures |Spec.CloseContainer(c, Spec.Closer(Spec.Top(c))).frames| == |c.frames| - 1
    {
    }
  }

  method RepairText(text: Bytes) returns (result: Option<Bytes>, fixes: nat, kinds: set<Kind>)
    ensures Spec.Repaired(result, fixes, kinds) == Spec.Repair(text, Spec.MAX_DEPTH)
  {
    hide Spec.Run, Spec.Finish;
    var r := new Repairer(text, Spec.MAX_DEPTH);
    if ParserSpec.BomLength(text) > 0 {
      r.pos := 3;
      r.Fix(Spec.ByteOrderMark);
    }
    assert r.View() == Spec.Start(text);
    r.MainLoop();
    r.CloseAll();
    result := if r.topDone then Some(r.out) else None;
    fixes, kinds := r.fixes, r.kinds;
  }
}
