/** The streaming parser in its own form: fields and buffers updated byte by byte. */
module Sax {
  import opened Bytes
  import opened Options
  import opened JsonValue
  import opened Scan
  import Spec = SaxSpec

  type Event = Spec.Event
  type ErrorCode = Spec.ErrorCode

  datatype State =
    | ST_VALUE | ST_ARRAY_FIRST | ST_OBJECT_FIRST | ST_KEY | ST_COLON | ST_AFTER_VALUE | ST_DONE
    | ST_STRING | ST_STRING_ESC | ST_STRING_U | ST_NUMBER | ST_LITERAL | ST_ERROR

  datatype ErrorInfo = NoError | ErrorAt(code: ErrorCode, offset: nat, line: nat, column: nat)

  class Streamer {
    const opt: Spec.SaxOptions
    var state: State
    const stack: array<Spec.Frame>  // container kinds and their element counters
    var depth: nat
    const tok: array<byte>
    var tokLen: nat
    var strIsKey: bool
    var lit: Bytes
    var litPos: nat
    var uCount: nat
    var uVal: nat
    var pendingHigh: nat
    var utf8Need: nat
    var utf8Lo: byte
    var utf8Hi: byte
    var bomPos: nat
    var offset: nat
    var line: nat
    var column: nat
    var documents: nat
    var err: ErrorInfo
    var events: seq<Event>

    /** The buffers have the sizes fixed at creation and never overflow. */
    ghost predicate Buffers()
      reads this`depth, this`tokLen
    {
      && stack.Length == opt.maxDepth
      && tok.Length == opt.maxToken + 1
      && depth <= opt.maxDepth
      && tokLen <= opt.maxToken
      && (stack as object) != (tok as object)
    }

    /** What holds between any two statements. */
    ghost predicate Consistent()
      reads this
    {
      && Buffers()
      && (state == ST_ERROR <==> err.ErrorAt?)
      && (state == ST_ERROR ==> err == ErrorAt(err.code, offset, line, column))
      && (state == ST_STRING_U ==> uCount < 4 && uVal < UnicodeBound(uCount))
      && (utf8Need > 0 ==> (state == ST_STRING && pendingHigh == 0) || state == ST_ERROR)
      && (pendingHigh != 0 ==> IsHighSurrogate(pendingHigh))
      && (pendingHigh != 0 ==> state == ST_STRING || state == ST_STRING_ESC || state == ST_STRING_U || state == ST_ERROR)
    }

    ghost predicate Valid()
      reads this
      ensures Valid() ==> Buffers()
    {
      && Consistent()
      && (state == ST_AFTER_VALUE ==> depth > 0)
      && (state == ST_LITERAL ==> 1 <= litPos < |lit|)
    }

    static function UnicodeBound(count: nat): nat
    {
      if count == 0 then 1 else if count == 1 then 16 else if count == 2 then 256 else 4096
    }

    ghost function Frames(): seq<Spec.Frame>
      requires Buffers()
      reads this`depth, this`tokLen, stack
    {
      stack[..depth]
    }

    ghost function ModeView(): Spec.Mode
      requires Buffers()
      reads this`depth, this`state, this`tokLen, this`strIsKey, this`utf8Need, this`utf8Lo, this`utf8Hi,
            this`pendingHigh, this`uCount, this`uVal, this`lit, this`litPos, this`err, tok
    {
      match state
      case ST_VALUE => Spec.InValue
      case ST_ARRAY_FIRST => Spec.ArrayFirst
      case ST_OBJECT_FIRST => Spec.ObjectFirst
      case ST_KEY => Spec.InKey
      case ST_COLON => Spec.InColon
      case ST_AFTER_VALUE => Spec.AfterValue
      case ST_DONE => Spec.Done
      case ST_STRING =>
        Spec.InString(strIsKey, tok[..tokLen], utf8Need, if utf8Need == 0 then 0x80 else utf8Lo,
                      if utf8Need == 0 then 0xBF else utf8Hi, pendingHigh)
      case ST_STRING_ESC => Spec.InEscape(strIsKey, tok[..tokLen], pendingHigh)
      case ST_STRING_U => Spec.InUnicode(strIsKey, tok[..tokLen], pendingHigh, uCount, uVal)
      case ST_NUMBER => Spec.InNumber(tok[..tokLen])
      case ST_LITERAL => Spec.InLiteral(lit, litPos)
      case ST_ERROR => Spec.Error(if err.ErrorAt? then err.code else Spec.UnexpectedEof)
    }

    ghost function CoreView(): Spec.Core
      requires Buffers()
      reads this`depth, this`state, this`tokLen, this`strIsKey, this`utf8Need, this`utf8Lo, this`utf8Hi,
            this`pendingHigh, this`uCount, this`uVal, this`lit, this`litPos, this`err, this`events, this`documents,
            stack, tok
    {
      Spec.Core(ModeView(), Frames(), events, documents)
    }

    ghost function View(): Spec.Sax
      requires Buffers()
      reads this, stack, tok
    {
      Spec.Sax(CoreView(), bomPos, offset, line, column)
    }

    constructor (opt: Spec.SaxOptions)
      requires opt.maxDepth > 0 && opt.maxToken > 0
      ensures Valid() && this.opt == opt && fresh(stack) && fresh(tok)
      ensures View() == Spec.Fresh
    {
      this.opt := opt;
      stack := new Spec.Frame[opt.maxDepth](_ => Spec.Frame(false, 0));
      tok := new byte[opt.maxToken + 1];
      state := ST_VALUE;
      depth, tokLen, pendingHigh, utf8Need, bomPos := 0, 0, 0, 0, 0;
      offset, line, column, documents := 0, 1, 1, 0;
      strIsKey, lit, litPos, uCount, uVal, utf8Lo, utf8Hi := false, [], 0, 0, 0, 0, 0;
      err, events := NoError, [];
    }

    /** Stops with an error at the current position; the first error is kept. */
    method Fail(code: ErrorCode)
      requires Consistent() && (state == ST_ERROR ==> Valid())
      modifies this`state, this`err
      ensures Valid() && state == ST_ERROR
      ensures old(state) != ST_ERROR ==> CoreView() == Spec.Stop(old(CoreView()), code)
      ensures old(state) == ST_ERROR ==> state == old(state) && err == old(err)
    {
      if state == ST_ERROR { return; }
      state := ST_ERROR;
      err := ErrorAt(code, offset, line, column);
    }

    method TokPut(c: byte) returns (ok: bool)
      requires Valid() && state != ST_ERROR
      modifies this`state, this`err, this`tokLen, tok
      ensures Valid() && ok == (old(tokLen) < opt.maxToken) && Frames() == old(Frames())
      ensures ok ==> state == old(state) && err == old(err) && tok[..tokLen] == old(tok[..tokLen]) + [c]
      ensures !ok ==> CoreView() == Spec.Stop(old(CoreView()), Spec.StringLimit)
    {
      if tokLen >= opt.maxToken {
        Fail(Spec.StringLimit);
        return false;
      }
      tok[tokLen] := c;
      tokLen := tokLen + 1;
      return true;
    }

    method TokPutCp(cp: nat) returns (ok: bool)
      requires Valid() && state == ST_STRING && utf8Need == 0 && pendingHigh == 0 && cp < 0x110000
      modifies this`state, this`err, this`tokLen, tok
      ensures Valid() && ok == (state != ST_ERROR)
      ensures CoreView() == Spec.PutBytes(opt, old(CoreView()), strIsKey, old(tok[..tokLen]), Utf8Encode(cp))
    {
      var tmp := Utf8Encode(cp);
      var i := 0;
      while i < |tmp|
        invariant 0 <= i <= |tmp| && Valid() && state == ST_STRING
        invariant tok[..tokLen] == old(tok[..tokLen]) + tmp[..i]
        invariant Frames() == old(Frames()) && err == old(err)
      {
        assert tmp[..i + 1] == tmp[..i] + [tmp[i]];
        ok := TokPut(tmp[i]);
        if !ok {
          return;
        }
        i := i + 1;
      }
      assert tmp[..i] == tmp;
      return true;
    }

    method CountElement()
      requires Consistent() && depth > 0
      modifies stack
      ensures Consistent()
      ensures Frames() == old(Frames())[..depth - 1]
                        + [Spec.Frame(old(stack[depth - 1]).isObject, old(stack[depth - 1]).count + 1)]
    {
      var top := stack[depth - 1];
      stack[depth - 1] := top.(count := top.count + 1);
    }

    method EndValue() returns (ok: bool)
      requires Consistent() && state != ST_ERROR && utf8Need == 0 && pendingHigh == 0
      modifies this`state, this`err, this`documents, this`events, stack
      ensures Valid() && ok == (state != ST_ERROR)
      ensures CoreView() == Spec.EndValue(opt, old(CoreView())) && state != ST_NUMBER
    {
      ghost var was := CoreView();
      if depth == 0 {
        documents := documents + 1;
        state := ST_DONE;
        events := events + [Spec.DocumentEnd];
        assert CoreView() == Spec.Core(Spec.Done, [], was.events + [Spec.DocumentEnd], was.documents + 1);
        return true;
      }
      assert was.stack != [] && was.stack[|was.stack| - 1] == stack[depth - 1];
      if opt.maxElements != 0 {
        CountElement();
        if stack[depth - 1].count > opt.maxElements {
          Fail(Spec.ElementLimit);
          return false;
        }
      }
      state := ST_AFTER_VALUE;
      return true;
    }

    method Push(isObject: bool) returns (ok: bool)
      requires Valid() && state != ST_ERROR && utf8Need == 0 && pendingHigh == 0
      modifies this`state, this`err, this`depth, this`events, stack
      ensures Valid() && ok == (state != ST_ERROR)
      ensures CoreView() == Spec.Push(opt, old(CoreView()), isObject)
    {
      if depth >= opt.maxDepth {
        Fail(Spec.DepthLimit);
        return false;
      }
      stack[depth] := Spec.Frame(isObject, 0);
      depth := depth + 1;
      assert Frames() == old(Frames()) + [Spec.Frame(isObject, 0)];
      events := events + [if isObject then Spec.ObjectStart else Spec.ArrayStart];
      state := if isObject then ST_OBJECT_FIRST else ST_ARRAY_FIRST;
      return true;
    }

    method CloseContainer(isObject: bool) returns (ok: bool)
      requires Valid() && state != ST_ERROR && utf8Need == 0 && pendingHigh == 0
      modifies this`state, this`err, this`depth, this`documents, this`events, stack
      ensures Valid() && ok == (state != ST_ERROR)
      ensures CoreView() == Spec.Close(opt, old(CoreView()), isObject)
    {
      hide Spec.EndValue;
      ghost var was := CoreView();
      assert depth > 0 ==> was.stack[|was.stack| - 1] == stack[depth - 1];
      if depth == 0 || stack[depth - 1].isObject != isObject {
        Fail(Spec.UnexpectedChar);
        return false;
      }
      depth := depth - 1;
      events := events + [if isObject then Spec.ObjectEnd else Spec.ArrayEnd];
      assert CoreView() == Spec.Emit(was.(stack := was.stack[..|was.stack| - 1]),
                                     if isObject then Spec.ObjectEnd else Spec.ArrayEnd);
      ok := EndValue();
    }

    method BeginValue(ch: byte) returns (ok: bool)
      requires Valid() && state != ST_ERROR && utf8Need == 0 && pendingHigh == 0
      modifies this`state, this`err, this`depth, this`tokLen, this`strIsKey, this`lit, this`litPos, this`events, stack, tok
      ensures Valid() && ok == (state != ST_ERROR)
      ensures CoreView() == Spec.BeginValue(opt, old(CoreView()), ch)
    {
      hide Spec.EndValue, Spec.Push, IsDigit;
      if ch == OPEN_BRACE {
        ok := Push(true);
      } else if ch == OPEN_BRACKET {
        ok := Push(false);
      } else if ch == QUOTE {
        strIsKey := false;
        tokLen := 0;
        state := ST_STRING;
        ok := true;
      } else if ch == LOWER_T {
        lit, litPos, state, ok := TRUE_WORD, 1, ST_LITERAL, true;
      } else if ch == LOWER_F {
        lit, litPos, state, ok := FALSE_WORD, 1, ST_LITERAL, true;
      } else if ch == LOWER_N {
        lit, litPos, state, ok := NULL_WORD, 1, ST_LITERAL, true;
      } else if ch == MINUS || IsDigit(ch) {
        tokLen := 0;
        state := ST_NUMBER;
        assert tok[..tokLen] + [ch] == [ch];
        ok := TokPut(ch);
      } else {
        Fail(Spec.UnexpectedChar);
        ok := false;
      }
    }

    method FinishNumber() returns (ok: bool)
      requires Valid() && state == ST_NUMBER
      modifies this`state, this`err, this`documents, this`events, stack
      ensures Valid() && ok == (state != ST_ERROR)
      ensures CoreView() == Spec.FinishNumber(opt, old(CoreView())) && state != ST_NUMBER
    {
      hide Spec.EndValue, ScanNumber;
      var t := tok[..tokLen];
      if ScanNumber(t, 0, tokLen) != Some(tokLen) {
        Fail(Spec.InvalidNumber);
        return false;
      }
      events := events + [Spec.NumberEvent(NumberValue(t))];
      ok := EndValue();
    }

    method FinishString() returns (ok: bool)
      requires Valid() && state == ST_STRING && utf8Need == 0 && pendingHigh == 0
      modifies this`state, this`err, this`documents, this`events, stack
      ensures Valid() && ok == (state != ST_ERROR)
      ensures CoreView() == Spec.FinishString(opt, old(CoreView()))
    {
      hide Spec.EndValue;
      if strIsKey {
        events := events + [Spec.KeyEvent(tok[..tokLen])];
        state := ST_COLON;
        return true;
      }
      events := events + [Spec.StringEvent(tok[..tokLen])];
      ok := EndValue();
    }

    method StringByte(ch: byte) returns (ok: bool)
      requires Valid() && state == ST_STRING
      modifies this`state, this`err, this`tokLen, this`utf8Need, this`utf8Lo, this`utf8Hi, this`documents, this`events,
               stack, tok
      ensures Valid() && ok == (state != ST_ERROR)
      ensures CoreView() == Spec.StringByte(opt, old(CoreView()), ch)
    {
      hide Spec.EndValue, Spec.FinishString, Spec.SequenceByte, Frames;
      if pendingHigh != 0 {
        if ch != BACKSLASH {
          Fail(Spec.InvalidUnicode);
          return false;
        }
        state := ST_STRING_ESC;
        return true;
      }
      if utf8Need > 0 {
        if ch < utf8Lo || ch > utf8Hi {
          Fail(Spec.InvalidUtf8);
          return false;
        }
        utf8Need := utf8Need - 1;
        utf8Lo := 0x80;
        utf8Hi := 0xBF;
        ok := TokPut(ch);
        return;
      }
      if ch == QUOTE {
        ok := FinishString();
        return;
      }
      if ch == BACKSLASH {
        state := ST_STRING_ESC;
        return true;
      }
      if ch < 0x20 {
        Fail(Spec.ControlChar);
        return false;
      }
      ok := SequenceByte(ch);
    }

    method SequenceByte(ch: byte) returns (ok: bool)
      requires Valid() && state == ST_STRING && utf8Need == 0 && pendingHigh == 0
      modifies this`state, this`err, this`tokLen, this`utf8Need, this`utf8Lo, this`utf8Hi, tok
      ensures Valid() && ok == (state != ST_ERROR)
      ensures CoreView() == Spec.SequenceByte(opt, old(CoreView()), ch)
    {
      hide LeadOf;
      if ch >= 0x80 {
        ok := LeadByte(ch);
        if !ok { return; }
      }
      ok := TokPut(ch);
    }

    /** What the lead byte of a UTF-8 sequence announces. */
    method LeadByte(ch: byte) returns (ok: bool)
      requires Valid() && state == ST_STRING && utf8Need == 0 && pendingHigh == 0 && ch >= 0x80
      modifies this`state, this`err, this`utf8Need, this`utf8Lo, this`utf8Hi
      ensures Valid() && ok == LeadOf(ch).Lead?
      ensures ok ==> state == ST_STRING && LeadOf(ch) == Lead(utf8Need, utf8Lo, utf8Hi)
      ensures !ok ==> CoreView() == Spec.Stop(old(CoreView()), Spec.InvalidUtf8)
    {
      utf8Lo := 0x80;
      utf8Hi := 0xBF;
      if 0xC2 <= ch <= 0xDF { utf8Need := 1; }
      else if ch == 0xE0 { utf8Need := 2; utf8Lo := 0xA0; }
      else if 0xE1 <= ch <= 0xEC || ch == 0xEE || ch == 0xEF { utf8Need := 2; }
      else if ch == 0xED { utf8Need := 2; utf8Hi := 0x9F; }
      else if ch == 0xF0 { utf8Need := 3; utf8Lo := 0x90; }
      else if 0xF1 <= ch <= 0xF3 { utf8Need := 3; }
      else if ch == 0xF4 { utf8Need := 3; utf8Hi := 0x8F; }
      else {
        Fail(Spec.InvalidUtf8);
        return false;
      }
      return true;
    }

    method EscapeByte(ch: byte) returns (ok: bool)
      requires Valid() && state == ST_STRING_ESC
      modifies this`state, this`err, this`tokLen, this`uCount, this`uVal, tok
      ensures Valid() && ok == (state != ST_ERROR)
      ensures CoreView() == Spec.EscapeByte(opt, old(CoreView()), ch)
    {
      hide SimpleEscape;
      if pendingHigh != 0 && ch != LOWER_U {
        Fail(Spec.InvalidUnicode);
        return false;
      }
      if ch == LOWER_U {
        uCount, uVal := 0, 0;
        state := ST_STRING_U;
        return true;
      }
      var out := SimpleEscape(ch);
      if out == None {
        Fail(Spec.InvalidEscape);
        return false;
      }
      state := ST_STRING;
      ok := TokPut(out.value);
    }

    method UnicodeByte(ch: byte) returns (ok: bool)
      requires Valid() && state == ST_STRING_U
      modifies this`state, this`err, this`tokLen, this`uCount, this`uVal, this`pendingHigh, tok
      ensures Valid() && ok == (state != ST_ERROR)
      ensures CoreView() == Spec.UnicodeByte(opt, old(CoreView()), ch)
    {
      hide Spec.CodeUnit, HexDigit, Frames;
      var d := HexDigit(ch);
      if d < 0 {
        Fail(Spec.InvalidUnicode);
        return false;
      }
      var u := uVal * 16 + d;
      if uCount + 1 < 4 {
        uVal, uCount := u, uCount + 1;
        return true;
      }
      state, uVal, uCount := ST_STRING, u, 4;
      SpecForgetsMode(old(CoreView()), CoreView(), strIsKey, tok[..tokLen], pendingHigh, u);
      ok := CodeUnit(u);
    }

    lemma SpecForgetsMode(c: Spec.Core, d: Spec.Core, isKey: bool, t: Bytes, high: nat, u: nat)
      requires c.(mode := d.mode) == d
      ensures Spec.CodeUnit(opt, c, isKey, t, high, u) == Spec.CodeUnit(opt, d, isKey, t, high, u)
    {
    }

    /** The four digits of a \u escape are complete. */
    method CodeUnit(u: nat) returns (ok: bool)
      requires Valid() && state == ST_STRING && utf8Need == 0 && u < 0x10000
      modifies this`state, this`err, this`pendingHigh, this`tokLen, tok
      ensures Valid() && ok == (state != ST_ERROR)
      ensures CoreView() == Spec.CodeUnit(opt, old(CoreView()), strIsKey, old(tok[..tokLen]), old(pendingHigh), u)
    {
      hide Utf8Encode;
      if pendingHigh != 0 {
        if u < 0xDC00 || u > 0xDFFF {
          Fail(Spec.InvalidUnicode);
          return false;
        }
        var cp := 0x10000 + (pendingHigh - 0xD800) * 1024 + (u - 0xDC00);
        pendingHigh := 0;
        ok := TokPutCp(cp);
        return;
      }
      if 0xD800 <= u <= 0xDBFF {
        pendingHigh := u;
        return true;
      }
      if 0xDC00 <= u <= 0xDFFF {
        Fail(Spec.InvalidUnicode);
        return false;
      }
      ok := TokPutCp(u);
    }

    method LiteralByte(ch: byte) returns (ok: bool)
      requires Valid() && state == ST_LITERAL
      modifies this`state, this`err, this`litPos, this`documents, this`events, stack
      ensures Valid() && ok == (state != ST_ERROR)
      ensures CoreView() == Spec.LiteralByte(opt, old(CoreView()), ch)
    {
      hide Spec.EndValue;
      ghost var was := CoreView();
      if ch != lit[litPos] {
        Fail(Spec.InvalidLiteral);
        return false;
      }
      litPos := litPos + 1;
      if litPos < |lit| { return true; }
      events := events + [if lit[0] == LOWER_N then Spec.NullEvent else Spec.BoolEvent(lit[0] == LOWER_T)];
      Spec.EndValueForgetsMode(opt, CoreView(), was.mode);
      ok := EndValue();
    }

    /** A byte between tokens. */
    method StructureByte(ch: byte) returns (ok: bool)
      requires Valid() && Spec.BetweenTokens(ModeView())
      modifies this`state, this`err, this`depth, this`tokLen, this`strIsKey, this`lit, this`litPos,
               this`documents, this`events, stack, tok
      ensures Valid() && ok == (state != ST_ERROR)
      ensures CoreView() == Spec.StructureByte(opt, old(CoreView()), ch)
    {
      hide Spec.BeginValue, Spec.Close, IsWs;
      ok := true;
      if IsWs(ch) { return; }
      match state {
        case ST_VALUE => ok := BeginValue(ch);
        case ST_ARRAY_FIRST =>
          if ch == CLOSE_BRACKET { ok := CloseContainer(false); } else { ok := BeginValue(ch); }
        case ST_OBJECT_FIRST =>
          if ch == QUOTE { StartKey(); }
          else if ch == CLOSE_BRACE { ok := CloseContainer(true); }
          else { Fail(Spec.UnexpectedChar); ok := false; }
        case ST_KEY =>
          if ch == QUOTE { StartKey(); } else { Fail(Spec.UnexpectedChar); ok := false; }
        case ST_COLON =>
          if ch == COLON { state := ST_VALUE; } else { Fail(Spec.UnexpectedChar); ok := false; }
        case ST_AFTER_VALUE =>
          if ch == COMMA { state := if stack[depth - 1].isObject then ST_KEY else ST_VALUE; }
          else if ch == CLOSE_BRACE { ok := CloseContainer(true); }
          else if ch == CLOSE_BRACKET { ok := CloseContainer(false); }
          else { Fail(Spec.UnexpectedChar); ok := false; }
        case ST_DONE =>
          if opt.multi { ok := BeginValue(ch); } else { Fail(Spec.TrailingData); ok := false; }
      }
    }

    method StartKey()
      requires Valid() && (state == ST_OBJECT_FIRST || state == ST_KEY)
      modifies this`strIsKey, this`tokLen, this`state
      ensures Valid() && state != ST_ERROR
      ensures CoreView() == Spec.Go(old(CoreView()), Spec.NewString(true, []))
    {
      strIsKey := true;
      tokLen := 0;
      state := ST_STRING;
    }

    /** Dispatches one byte on the state; `advance` is false when the byte must be processed again. */
    method Dispatch(ch: byte) returns (ok: bool, advance: bool)
      requires Valid() && state != ST_ERROR
      modifies this`state, this`err, this`depth, this`tokLen, this`strIsKey, this`lit, this`litPos, this`uCount,
               this`uVal, this`pendingHigh, this`utf8Need, this`utf8Lo, this`utf8Hi, this`documents, this`events,
               stack, tok
      ensures Valid() && ok == (state != ST_ERROR)
      ensures advance ==> CoreView() == Spec.Step(opt, old(CoreView()), ch)
      ensures !advance ==> old(state) == ST_NUMBER && state != ST_NUMBER && !IsNumberChar(ch)
      ensures !advance ==> CoreView() == Spec.FinishNumber(opt, old(CoreView()))
    {
      hide Spec.StructureByte, Spec.FinishNumber, Spec.StringByte, Spec.EscapeByte, Spec.UnicodeByte,
           Spec.LiteralByte, IsNumberChar;
      advance := true;
      if state == ST_STRING {
        ok := StringByte(ch);
      } else if state == ST_STRING_ESC {
        ok := EscapeByte(ch);
      } else if state == ST_STRING_U {
        ok := UnicodeByte(ch);
      } else if state == ST_NUMBER {
        if IsNumberChar(ch) {
          ok := TokPut(ch);
        } else {
          ok := FinishNumber();
          advance := false; // re-process the delimiter
        }
      } else if state == ST_LITERAL {
        ok := LiteralByte(ch);
      } else {
        ok := StructureByte(ch);
      }
    }

    /** The byte order mark at the start of the stream. */
    method BomByte(ch: byte) returns (taken: bool)
      requires Valid() && state != ST_ERROR
      modifies this`state, this`err, this`bomPos, this`offset
      ensures Valid()
      ensures taken ==> state != ST_ERROR
      ensures taken || state == ST_ERROR ==> View() == Spec.SaxStep(opt, old(View()), ch)
      ensures !taken && state != ST_ERROR ==> View() == old(View())
      ensures !taken && state != ST_ERROR ==>
        Spec.SaxStep(opt, View(), ch) == Spec.Advance(View(), Spec.Step(opt, CoreView(), ch), ch)
    {
      hide Spec.Step;
      if offset < 3 && bomPos == offset && state == ST_VALUE && depth == 0 {
        if ch == (if bomPos == 0 then 0xEF else if bomPos == 1 then 0xBB else 0xBF) {
          bomPos := bomPos + 1;
          offset := offset + 1;
          return true;
        }
        if bomPos > 0 {
          Fail(Spec.InvalidUtf8);
        }
      }
      return false;
    }

    /** Processing the delimiter of a number again is one step of the automaton. */
    lemma ReprocessedStep(s: Spec.Sax, ch: byte)
      requires s.core.mode.InNumber? && !IsNumberChar(ch)
      ensures Spec.SaxStep(opt, s, ch)
           == (var f := s.(core := Spec.FinishNumber(opt, s.core));
               if f.core.mode.Error? then f else Spec.SaxStep(opt, f, ch))
    {
      hide ScanNumber, NumberValue, Spec.BeginValue, Spec.TokenByte;
      var f := Spec.FinishNumber(opt, s.core);
      assert f.mode.Error? || f.mode.AfterValue? || f.mode.Done?;
    }

    method AdvancePosition(ch: byte)
      requires Valid() && state != ST_ERROR
      modifies this`offset, this`line, this`column
      ensures Valid() && CoreView() == old(CoreView()) && View() == Spec.Advance(old(View()), CoreView(), ch)
    {
      assert !CoreView().mode.Error?;
      hide CoreView;
      offset := offset + 1;
      if ch == NEWLINE { line := line + 1; column := 1; } else { column := column + 1; }
    }

    /** One turn of the feed loop. */
    method FeedByte(ch: byte) returns (ok: bool, consumed: bool)
      requires Valid() && state != ST_ERROR
      modifies this, stack, tok
      ensures Valid() && ok == (state != ST_ERROR) == !View().core.mode.Error?
      ensures consumed || !ok ==> View() == Spec.SaxStep(opt, old(View()), ch)
      ensures ok && !consumed ==> old(state) == ST_NUMBER && state != ST_NUMBER
      ensures ok && !consumed ==> Spec.SaxStep(opt, View(), ch) == Spec.SaxStep(opt, old(View()), ch)
    {
      hide Spec.Step, Spec.SaxStep, Spec.FinishNumber, IsNumberChar, Consistent, Frames;
      var bom := BomByte(ch);
      if bom { return true, true; }
      if state == ST_ERROR { return false, false; }
      ghost var was := View();
      ok, consumed := Dispatch(ch);
      if consumed {
        assert View() == was.(core := Spec.Step(opt, was.core, ch));
        if ok { AdvancePosition(ch); }
      } else {
        ReprocessedStep(was, ch);
        assert View() == was.(core := Spec.FinishNumber(opt, was.core));
      }
    }

    method Feed(data: Bytes) returns (ok: bool)
      requires Valid()
      modifies this, stack, tok
      ensures Valid() && ok == (state != ST_ERROR)
      ensures View() == Spec.Feed(opt, old(View()), data)
    {
      hide Spec.SaxStep, Spec.FinishNumber, Spec.Step, Consistent, Frames;
      if state == ST_ERROR { return false; }
      assert !View().core.mode.Error? by { assert ModeView() == View().core.mode; }
      var i := 0;
      assert data[i..] == data;
      while i < |data|
        invariant 0 <= i <= |data| && Valid() && state != ST_ERROR && !View().core.mode.Error?
        invariant Spec.Feed(opt, View(), data[i..]) == Spec.Feed(opt, old(View()), data)
        decreases |data| - i, if state == ST_NUMBER then 1 else 0
      {
        assert data[i..][0] == data[i] && data[i..][1..] == data[i + 1..];
        var keepsGoing, consumed := FeedByte(data[i]);
        if !keepsGoing { return false; }
        if consumed { i := i + 1; }
      }
      return true;
    }

    method Finish() returns (ok: bool)
      requires Valid()
      modifies this`state, this`err, this`documents, this`events, stack
      ensures Valid() && ok == (state != ST_ERROR)
      ensures CoreView() == Spec.Finish(opt, old(CoreView()))
    {
      hide Spec.FinishNumber, CoreView, Frames;
      ModeOfCore();
      if state == ST_ERROR { return false; }
      if state == ST_NUMBER {
        ok := FinishNumber();
        ModeOfCore();
        if !ok { return false; }
      }
      ok := AtEnd();
    }

    lemma ModeOfCore()
      requires Buffers()
      ensures CoreView().mode == ModeView() && CoreView().stack == Frames()
    {
    }

    /** The input is over and no number is pending: the state must be one in which a stream may end. */
    method AtEnd() returns (ok: bool)
      requires Valid() && state != ST_ERROR && state != ST_NUMBER
      modifies this`state, this`err
      ensures Valid() && ok == (state != ST_ERROR)
      ensures CoreView() == (var c := old(CoreView());
                             if c.mode.Done? || (opt.multi && c.mode.InValue? && c.stack == []) then c
                             else Spec.Stop(c, Spec.UnexpectedEof))
    {
      hide Frames;
      NoFrames();
      if state == ST_DONE { return true; }
      if opt.multi && state == ST_VALUE && depth == 0 { return true; } // empty stream
      Fail(Spec.UnexpectedEof);
      return false;
    }

    lemma NoFrames()
      requires Buffers()
      ensures Frames() == [] <==> depth == 0
    {
    }

    method Reset()
      requires Valid()
      modifies this
      ensures Valid() && View() == Spec.Fresh
    {
      ResetToken();
      bomPos, offset, line, column, documents := 0, 0, 1, 1, 0;
      events := []; // the handler's record of the old stream
    }

    method ResetToken()
      requires Valid()
      modifies this`state, this`depth, this`tokLen, this`pendingHigh, this`utf8Need, this`err
      ensures Valid() && ModeView() == Spec.InValue && Frames() == []
    {
      state := ST_VALUE;
      depth, tokLen, pendingHigh, utf8Need := 0, 0, 0, 0;
      err := NoError;
    }
  }
}
