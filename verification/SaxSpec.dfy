/** The streaming parser as a pushdown automaton: one step per byte, on values. */
module SaxSpec {
  import opened Bytes
  import opened Options
  import opened JsonValue
  import opened Scan

  datatype SaxOptions = SaxOptions(maxDepth: nat, maxToken: nat, maxElements: nat, multi: bool)

  datatype ErrorCode =
    | UnexpectedEof | UnexpectedChar | InvalidLiteral | InvalidNumber | InvalidEscape | InvalidUnicode
    | InvalidUtf8 | ControlChar | TrailingData | DepthLimit | StringLimit | ElementLimit

  datatype Event =
    | ObjectStart | ObjectEnd | ArrayStart | ArrayEnd
    | KeyEvent(key: Bytes) | StringEvent(s: Bytes) | NumberEvent(n: Number) | BoolEvent(b: bool) | NullEvent
    | DocumentEnd

  /** The automaton's control state, with the part of the token state that each one uses. */
  datatype Mode =
    | InValue | ArrayFirst | ObjectFirst | InKey | InColon | AfterValue | Done
    | InString(isKey: bool, tok: Bytes, need: nat, lo: byte, hi: byte, high: nat)
    | InEscape(isKey: bool, tok: Bytes, high: nat)
    | InUnicode(isKey: bool, tok: Bytes, high: nat, count: nat, val: nat)
    | InNumber(tok: Bytes)
    | InLiteral(word: Bytes, at: nat)
    | Error(code: ErrorCode)

  datatype Frame = Frame(isObject: bool, count: nat)

  datatype Core = Core(mode: Mode, stack: seq<Frame>, events: seq<Event>, documents: nat)

  function Go(c: Core, m: Mode): Core { c.(mode := m) }

  function Stop(c: Core, code: ErrorCode): Core { c.(mode := Error(code)) }

  function Emit(c: Core, e: Event): Core { c.(events := c.events + [e]) }

  /** A value has just ended. */
  function EndValue(o: SaxOptions, c: Core): Core
  {
    if c.stack == [] then
      Core(Done, [], c.events + [DocumentEnd], c.documents + 1)
    else if o.maxElements == 0 then Go(c, AfterValue)
    else
      var top := c.stack[|c.stack| - 1];
      var counted := c.(stack := c.stack[..|c.stack| - 1] + [top.(count := top.count + 1)]);
      if top.count + 1 > o.maxElements then Stop(counted, ElementLimit) else Go(counted, AfterValue)
  }

  lemma EndValueForgetsMode(o: SaxOptions, c: Core, m: Mode)
    ensures EndValue(o, Go(c, m)) == EndValue(o, c)
  {
  }

  function Push(o: SaxOptions, c: Core, isObject: bool): Core
  {
    if |c.stack| >= o.maxDepth then Stop(c, DepthLimit)
    else if isObject then
      Core(ObjectFirst, c.stack + [Frame(true, 0)], c.events + [ObjectStart], c.documents)
    else
      Core(ArrayFirst, c.stack + [Frame(false, 0)], c.events + [ArrayStart], c.documents)
  }

  function Close(o: SaxOptions, c: Core, isObject: bool): Core
  {
    if c.stack == [] || c.stack[|c.stack| - 1].isObject != isObject then Stop(c, UnexpectedChar)
    else
      EndValue(o, Emit(c.(stack := c.stack[..|c.stack| - 1]), if isObject then ObjectEnd else ArrayEnd))
  }

  function NewString(isKey: bool, tok: Bytes): Mode { InString(isKey, tok, 0, 0x80, 0xBF, 0) }

  function BeginValue(o: SaxOptions, c: Core, ch: byte): Core
  {
    if ch == OPEN_BRACE then Push(o, c, true)
    else if ch == OPEN_BRACKET then Push(o, c, false)
    else if ch == QUOTE then Go(c, NewString(false, []))
    else if ch == LOWER_T then Go(c, InLiteral(TRUE_WORD, 1))
    else if ch == LOWER_F then Go(c, InLiteral(FALSE_WORD, 1))
    else if ch == LOWER_N then Go(c, InLiteral(NULL_WORD, 1))
    else if ch == MINUS || IsDigit(ch) then
      if o.maxToken == 0 then Stop(c, StringLimit) else Go(c, InNumber([ch]))
    else Stop(c, UnexpectedChar)
  }

  function FinishNumber(o: SaxOptions, c: Core): Core
    requires c.mode.InNumber?
  {
    var t := c.mode.tok;
    if ScanNumber(t, 0, |t|) != Some(|t|) then Stop(c, InvalidNumber)
    else EndValue(o, Emit(c, NumberEvent(NumberValue(t))))
  }

  function FinishString(o: SaxOptions, c: Core): Core
    requires c.mode.InString?
  {
    if c.mode.isKey then Go(Emit(c, KeyEvent(c.mode.tok)), InColon)
    else EndValue(o, Emit(c, StringEvent(c.mode.tok)))
  }

  /** Appends bytes to the token one at a time, as far as the token limit allows. */
  function PutBytes(o: SaxOptions, c: Core, isKey: bool, tok: Bytes, more: Bytes): Core
  {
    if |tok| + |more| > o.maxToken then Stop(c, StringLimit) else Go(c, NewString(isKey, tok + more))
  }

  function StringByte(o: SaxOptions, c: Core, ch: byte): Core
    requires c.mode.InString?
  {
    var m := c.mode;
    if m.high != 0 then
      if ch != BACKSLASH then Stop(c, InvalidUnicode) else Go(c, InEscape(m.isKey, m.tok, m.high))
    else if m.need > 0 then
      if ch < m.lo || ch > m.hi then Stop(c, InvalidUtf8)
      else PutByte(o, c, ch, m.need - 1, 0x80, 0xBF)
    else if ch == QUOTE then FinishString(o, c)
    else if ch == BACKSLASH then Go(c, InEscape(m.isKey, m.tok, 0))
    else if ch < 0x20 then Stop(c, ControlChar)
    else SequenceByte(o, c, ch)
  }

  /** The first byte of a character. */
  function SequenceByte(o: SaxOptions, c: Core, ch: byte): Core
    requires c.mode.InString?
  {
    if ch < 0x80 then PutByte(o, c, ch, 0, 0x80, 0xBF)
    else
      var l := LeadOf(ch);
      if l.BadLead? then Stop(c, InvalidUtf8) else PutByte(o, c, ch, l.need, l.lo, l.hi)
  }

  function PutByte(o: SaxOptions, c: Core, ch: byte, need: nat, lo: byte, hi: byte): Core
    requires c.mode.InString?
  {
    if |c.mode.tok| >= o.maxToken then Stop(c, StringLimit)
    else Go(c, InString(c.mode.isKey, c.mode.tok + [ch], need, lo, hi, 0))
  }

  function EscapeByte(o: SaxOptions, c: Core, ch: byte): Core
    requires c.mode.InEscape?
  {
    var m := c.mode;
    if m.high != 0 && ch != LOWER_U then Stop(c, InvalidUnicode)
    else if ch == LOWER_U then Go(c, InUnicode(m.isKey, m.tok, m.high, 0, 0))
    else
      var s := SimpleEscape(ch);
      if s.None? then Stop(c, InvalidEscape) else PutBytes(o, c, m.isKey, m.tok, [s.value])
  }

  function UnicodeByte(o: SaxOptions, c: Core, ch: byte): Core
    requires c.mode.InUnicode?
  {
    var m := c.mode;
    var d := HexDigit(ch);
    if d < 0 then Stop(c, InvalidUnicode)
    else
      var u := m.val * 16 + d;
      if m.count + 1 < 4 then Go(c, InUnicode(m.isKey, m.tok, m.high, m.count + 1, u))
      else CodeUnit(o, c, m.isKey, m.tok, m.high, u)
  }

  /** A \u escape is complete with the code unit u, after the high surrogate `high` if that is not 0. */
  function CodeUnit(o: SaxOptions, c: Core, isKey: bool, tok: Bytes, high: nat, u: nat): Core
  {
    if high != 0 then
      if !IsLowSurrogate(u) || !IsHighSurrogate(high) then Stop(c, InvalidUnicode)
      else PutBytes(o, c, isKey, tok, Utf8Encode(SurrogatePair(high, u)))
    else if IsHighSurrogate(u) then Go(c, InString(isKey, tok, 0, 0x80, 0xBF, u))
    else if IsLowSurrogate(u) || u >= 0x110000 then Stop(c, InvalidUnicode)
    else PutBytes(o, c, isKey, tok, Utf8Encode(u))
  }

  function LiteralByte(o: SaxOptions, c: Core, ch: byte): Core
    requires c.mode.InLiteral?
  {
    var m := c.mode;
    if m.at >= |m.word| || ch != m.word[m.at] then Stop(c, InvalidLiteral)
    else if m.at + 1 < |m.word| then Go(c, InLiteral(m.word, m.at + 1))
    else if m.word[0] == LOWER_N then EndValue(o, Emit(c, NullEvent))
    else EndValue(o, Emit(c, BoolEvent(m.word[0] == LOWER_T)))
  }

  /** A byte between tokens: whitespace is skipped, anything else is structural or begins a value. */
  function StructureByte(o: SaxOptions, c: Core, ch: byte): Core
  {
    if IsWs(ch) then c else
    match c.mode
    case InValue => BeginValue(o, c, ch)
    case ArrayFirst => if ch == CLOSE_BRACKET then Close(o, c, false) else BeginValue(o, c, ch)
    case ObjectFirst =>
      if ch == QUOTE then Go(c, NewString(true, []))
      else if ch == CLOSE_BRACE then Close(o, c, true)
      else Stop(c, UnexpectedChar)
    case InKey => if ch == QUOTE then Go(c, NewString(true, [])) else Stop(c, UnexpectedChar)
    case InColon => if ch == COLON then Go(c, InValue) else Stop(c, UnexpectedChar)
    case AfterValue =>
      if ch == COMMA then
        Go(c, if c.stack != [] && c.stack[|c.stack| - 1].isObject then InKey else InValue)
      else if ch == CLOSE_BRACE then Close(o, c, true)
      else if ch == CLOSE_BRACKET then Close(o, c, false)
      else Stop(c, UnexpectedChar)
    case Done => if o.multi then BeginValue(o, c, ch) else Stop(c, TrailingData)
    case _ => c
  }

  predicate BetweenTokens(m: Mode)
  {
    m.InValue? || m.ArrayFirst? || m.ObjectFirst? || m.InKey? || m.InColon? || m.AfterValue? || m.Done?
  }

  function TokenByte(o: SaxOptions, c: Core, ch: byte): Core
  {
    match c.mode
    case InString(_, _, _, _, _, _) => StringByte(o, c, ch)
    case InEscape(_, _, _) => EscapeByte(o, c, ch)
    case InUnicode(_, _, _, _, _) => UnicodeByte(o, c, ch)
    case InNumber(t) =>
      if |t| >= o.maxToken then Stop(c, StringLimit) else Go(c, InNumber(t + [ch]))
    case InLiteral(_, _) => LiteralByte(o, c, ch)
    case _ => c
  }

  /** One byte. A byte that ends a number is processed a second time, in the state after the number. */
  function Step(o: SaxOptions, c: Core, ch: byte): Core
  {
    if BetweenTokens(c.mode) then StructureByte(o, c, ch)
    else if c.mode.InNumber? && !IsNumberChar(ch) then
      var f := FinishNumber(o, c);
      if f.mode.Error? then f else StructureByte(o, f, ch)
    else TokenByte(o, c, ch)
  }

  /** End of input. */
  function Finish(o: SaxOptions, c: Core): Core
  {
    if c.mode.Error? then c else
    var f := if c.mode.InNumber? then FinishNumber(o, c) else c;
    if f.mode.Error? || f.mode.Done? then f
    else if o.multi && f.mode.InValue? && f.stack == [] then f
    else Stop(f, UnexpectedEof)
  }

  const Start: Core := Core(InValue, [], [], 0)

  // The whole machine: the core, how much of a byte order mark has been seen, and the position.

  datatype Sax = Sax(core: Core, bom: nat, offset: nat, line: nat, column: nat)

  const Fresh: Sax := Sax(Start, 0, 0, 1, 1)

  function BomByte(k: nat): byte
    requires k < 3
  {
    if k == 0 then 0xEF else if k == 1 then 0xBB else 0xBF
  }

  predicate AtBom(s: Sax)
  {
    s.offset < 3 && s.bom == s.offset && s.core.mode.InValue? && s.core.stack == []
  }

  function Advance(s: Sax, c: Core, ch: byte): Sax
  {
    if c.mode.Error? then s.(core := c)
    else if ch == NEWLINE then Sax(c, s.bom, s.offset + 1, s.line + 1, 1)
    else Sax(c, s.bom, s.offset + 1, s.line, s.column + 1)
  }

  function SaxStep(o: SaxOptions, s: Sax, ch: byte): Sax
  {
    if AtBom(s) && ch == BomByte(s.bom) then s.(bom := s.bom + 1, offset := s.offset + 1)
    else if AtBom(s) && s.bom > 0 then s.(core := Stop(s.core, InvalidUtf8))
    else Advance(s, Step(o, s.core, ch), ch)
  }

  /** Feeding a chunk: bytes up to the first error. */
  function Feed(o: SaxOptions, s: Sax, data: Bytes): Sax
    decreases |data|
  {
    if data == [] || s.core.mode.Error? then s else Feed(o, SaxStep(o, s, data[0]), data[1..])
  }
}
