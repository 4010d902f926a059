/** The repair machine: one step of its main loop, its runs, and the text it gives back. */
module RepairSpec {
  import opened Bytes
  import opened Options
  import opened Scan
  import opened Decimal
  import opened SerializerSpec
  import ParserSpec

  datatype Kind =
    | Comment | Quotes | UnquotedKey | TrailingComma | MissingComma | MissingColon | Unclosed | Literal
    | NumberSyntax | EscapeSyntax | Garbage | MissingValue | TrailingData | Bracket | ByteOrderMark | CodeFence

  /** What a container expects next. */
  datatype Place = AtKey | AtColon | AtValue | AfterValue

  datatype Frame = Frame(isObject: bool, st: Place, commaSeen: bool)

  datatype Core = Core(
    pos: nat,
    out: Bytes,
    frames: seq<Frame>,
    topDone: bool,
    stop: bool,
    fixes: nat,
    kinds: set<Kind>)

  const MAX_DEPTH: nat := 512
  const BACKTICK: byte := 0x60
  const APOSTROPHE: byte := 0x27
  const EMPTY_KEY: Bytes := [QUOTE, QUOTE, COLON]
  const FENCE: Bytes := [BACKTICK, BACKTICK, BACKTICK]

  function Fix(c: Core, k: Kind): Core { c.(fixes := c.fixes + 1, kinds := c.kinds + {k}) }

  function Emit(c: Core, s: Bytes): Core { c.(out := c.out + s) }

  function Top(c: Core): Frame
    requires c.frames != []
  {
    c.frames[|c.frames| - 1]
  }

  function SetTop(c: Core, f: Frame): (r: Core)
    requires c.frames != []
    ensures |r.frames| == |c.frames| && Top(r) == f && r.frames[..|c.frames| - 1] == c.frames[..|c.frames| - 1]
  {
    c.(frames := c.frames[..|c.frames| - 1] + [f])
  }

  predicate AtKeyPosition(c: Core)
  {
    c.frames != [] && Top(c).isObject && (Top(c).st == AtKey || Top(c).st == AfterValue)
  }

  // --- Separators, keys and brackets ---

  /** The comma before a value or a key that follows another. */
  function PutComma(c: Core, f: Frame): (r: Core)
    ensures r.pos == c.pos && r.fixes >= c.fixes && r.stop == c.stop && r.frames == c.frames && r.topDone == c.topDone
  {
    if f.st == AfterValue then Emit(if f.commaSeen then c else Fix(c, MissingComma), [COMMA]) else c
  }

  /** Emits what must stand before a value; stops when the top-level value is complete already. */
  function PrepareValue(c: Core): (r: Core)
    ensures r.pos == c.pos && r.fixes >= c.fixes
  {
    if c.frames == [] then (if c.topDone then Fix(c, TrailingData).(stop := true) else c)
    else
      var f := Top(c);
      var c1 := PutComma(c, f);
      SetTop(PutKey(c1, f), f.(st := AtValue))
  }

  /** A value where a key or a colon was expected. */
  function PutKey(c: Core, f: Frame): (r: Core)
    ensures r.pos == c.pos && r.fixes >= c.fixes && r.stop == c.stop && r.frames == c.frames && r.topDone == c.topDone
  {
    if !f.isObject then c
    else if f.st == AtKey || f.st == AfterValue then Emit(Fix(c, Garbage), EMPTY_KEY)
    else if f.st == AtColon then Emit(Fix(c, MissingColon), [COLON])
    else c
  }

  function ValueDone(c: Core): (r: Core)
    ensures r.pos == c.pos && r.fixes >= c.fixes && r.stop == c.stop
  {
    if c.frames == [] then c.(topDone := true)
    else SetTop(c, Top(c).(st := AfterValue, commaSeen := false))
  }

  function PrepareKey(c: Core): (r: Core)
    requires c.frames != []
    ensures r.pos == c.pos && r.fixes >= c.fixes && r.stop == c.stop
  {
    var f := Top(c);
    SetTop(PutComma(c, f), f.(st := AtColon))
  }

  function ClosePending(c: Core, f: Frame): (r: Core)
    ensures r.pos == c.pos && r.fixes >= c.fixes && r.stop == c.stop && r.frames == c.frames && r.topDone == c.topDone
  {
    if !f.isObject then c
    else if f.st == AtColon then Emit(Fix(c, MissingValue), [COLON] + NULL_WORD)
    else if f.st == AtValue then Emit(Fix(c, MissingValue), NULL_WORD)
    else c
  }

  function Closer(f: Frame): byte { if f.isObject then CLOSE_BRACE else CLOSE_BRACKET }

  function CloseContainer(c: Core, ch: byte): (r: Core)
    ensures r.pos == c.pos && r.fixes >= c.fixes && r.stop == c.stop
  {
    if c.frames == [] then Fix(c, Garbage)
    else
      var f := Top(c);
      var c1 := if ch != Closer(f) then Fix(c, Bracket) else c;
      var c2 := if f.st == AfterValue && f.commaSeen then Fix(c1, TrailingComma) else c1;
      var c3 := Emit(ClosePending(c2, f), [Closer(f)]);
      ValueDone(c3.(frames := c.frames[..|c.frames| - 1]))
  }

  function OpenContainer(c: Core, isObject: bool, max: nat): (r: Core)
    ensures r.pos == c.pos && r.fixes >= c.fixes
  {
    var v := PrepareValue(c);
    if v.stop then v
    else if |v.frames| >= max then v.(stop := true)
    else
      Emit(v.(frames := v.frames + [Frame(isObject, if isObject then AtKey else AtValue, false)]),
           [if isObject then OPEN_BRACE else OPEN_BRACKET])
  }

  function CommaStep(c: Core): (r: Core)
    ensures r.pos == c.pos && r.fixes >= c.fixes && r.stop == c.stop
  {
    if c.frames == [] then Fix(c, Garbage)
    else
      var f := Top(c);
      if f.isObject && (f.st == AtColon || f.st == AtValue)
      then SetTop(ClosePending(c, f), f.(st := AfterValue, commaSeen := true))
      else if f.st == AfterValue && !f.commaSeen then SetTop(c, f.(commaSeen := true))
      else Fix(c, Garbage)
  }

  function ColonStep(c: Core, ch: byte): (r: Core)
    ensures r.pos == c.pos && r.fixes >= c.fixes && r.stop == c.stop
  {
    if c.frames != [] && Top(c).isObject && Top(c).st == AtColon then
      SetTop(Emit(if ch != COLON then Fix(c, MissingColon) else c, [COLON]), Top(c).(st := AtValue))
    else Fix(c, Garbage)
  }

  // --- Strings ---

  /** The escape sequence at the cursor inside a literal delimited by `quote`. */
  function CopyEscape(inp: Bytes, c: Core, quote: byte): (r: Core)
    requires c.pos < |inp| && inp[c.pos] == BACKSLASH
    ensures c.pos < r.pos <= |inp|
    ensures r.frames == c.frames && r.topDone == c.topDone && r.stop == c.stop && r.fixes >= c.fixes
  {
    var p := c.pos;
    if |inp| - p < 2 then Fix(c, EscapeSyntax).(pos := p + 1)
    else
      var n := inp[p + 1];
      if SimpleEscape(n).Some? then Emit(c, [BACKSLASH, n]).(pos := p + 2)
      else if n == LOWER_U && |inp| - p >= 6 && Hex4(inp, p + 2) >= 0 then Emit(c, inp[p..p + 6]).(pos := p + 6)
      else if n == quote then Emit(c, [n]).(pos := p + 2)
      else if n == NEWLINE then Fix(c, EscapeSyntax).(pos := p + 2)
      else Emit(Fix(c, EscapeSyntax), [BACKSLASH, BACKSLASH]).(pos := p + 1)
  }

  /** Copies the rest of a string literal, up to and past its closing quote. */
  function CopyString(inp: Bytes, c: Core, quote: byte): (r: Core)
    requires c.pos <= |inp|
    ensures c.pos <= r.pos <= |inp|
    ensures r.frames == c.frames && r.topDone == c.topDone && r.stop == c.stop && r.fixes >= c.fixes
    decreases |inp| - c.pos
  {
    var p := c.pos;
    if p >= |inp| then Emit(Fix(c, Unclosed), [QUOTE])
    else if inp[p] == quote then Emit(c, [QUOTE]).(pos := p + 1)
    else if inp[p] == BACKSLASH then CopyString(inp, CopyEscape(inp, c, quote), quote)
    else if inp[p] == QUOTE then CopyString(inp, Emit(c, [BACKSLASH, QUOTE]).(pos := p + 1), quote)
    else if inp[p] < 0x20 then
      CopyString(inp, Emit(Fix(c, EscapeSyntax), ShortEscape(inp[p])).(pos := p + 1), quote)
    else CopyString(inp, Emit(c, [inp[p]]).(pos := p + 1), quote)
  }

  /** A literal from its opening quote, which may be any of three characters. */
  function CopyLiteral(inp: Bytes, c: Core): (r: Core)
    requires c.pos < |inp|
    ensures c.pos < r.pos <= |inp|
    ensures r.frames == c.frames && r.topDone == c.topDone && r.stop == c.stop && r.fixes >= c.fixes
  {
    var quote := inp[c.pos];
    CopyString(inp, Emit(if quote != QUOTE then Fix(c, Quotes) else c, [QUOTE]).(pos := c.pos + 1), quote)
  }

  function StringStep(inp: Bytes, c: Core): (r: Core)
    requires c.pos < |inp|
    ensures c.pos <= r.pos <= |inp| && (r.pos == c.pos ==> r.stop) && r.fixes >= c.fixes
  {
    hide PrepareValue, ValueDone, CopyLiteral, PrepareKey;
    if AtKeyPosition(c) then CopyLiteral(inp, PrepareKey(c))
    else
      var v := PrepareValue(c);
      if v.stop then v else ValueDone(CopyLiteral(inp, v))
  }

  // --- Words ---

  predicate IsAlpha(c: byte) { 0x41 <= c <= 0x5A || 0x61 <= c <= 0x7A }

  predicate IsWordStart(c: byte) { IsAlpha(c) || c == 0x5F || c == 0x24 || c >= 0x80 }

  predicate IsWordChar(c: byte) { IsWordStart(c) || IsDigit(c) || c == MINUS || c == DOT }

  function WordEnd(inp: Bytes, i: nat): (e: nat)
    requires i <= |inp|
    ensures i <= e <= |inp| && forall k :: i <= k < e ==> IsWordChar(inp[k])
    ensures e < |inp| ==> !IsWordChar(inp[e])
    decreases |inp| - i
  {
    if i < |inp| && IsWordChar(inp[i]) then WordEnd(inp, i + 1) else i
  }

  const TRUE_SPELLINGS: seq<Bytes> := [[0x54, 0x72, 0x75, 0x65], [0x54, 0x52, 0x55, 0x45]]
  const FALSE_SPELLINGS: seq<Bytes> := [[0x46, 0x61, 0x6C, 0x73, 0x65], [0x46, 0x41, 0x4C, 0x53, 0x45]]
  const INFINITY: Bytes := [0x49, 0x6E, 0x66, 0x69, 0x6E, 0x69, 0x74, 0x79]
  /** None, NULL, Null, nil, undefined, NaN and Infinity. */
  const NULL_SPELLINGS: seq<Bytes> := [
    [0x4E, 0x6F, 0x6E, 0x65], [0x4E, 0x55, 0x4C, 0x4C], [0x4E, 0x75, 0x6C, 0x6C], [0x6E, 0x69, 0x6C],
    [0x75, 0x6E, 0x64, 0x65, 0x66, 0x69, 0x6E, 0x65, 0x64], [0x4E, 0x61, 0x4E], INFINITY]

  function WordValue(c: Core, w: Bytes): (r: Core)
    ensures r.pos == c.pos && r.fixes >= c.fixes && r.stop == c.stop && r.frames == c.frames && r.topDone == c.topDone
  {
    if w == TRUE_WORD || w == FALSE_WORD || w == NULL_WORD then Emit(c, w)
    else if w in TRUE_SPELLINGS then Emit(Fix(c, Literal), TRUE_WORD)
    else if w in FALSE_SPELLINGS then Emit(Fix(c, Literal), FALSE_WORD)
    else if w in NULL_SPELLINGS then Emit(Fix(c, Literal), NULL_WORD)
    else Emit(Fix(c, Quotes), PrintString(w, false))
  }

  /** An unquoted key. */
  function BareKey(c: Core, w: Bytes): (r: Core)
    requires c.frames != []
    ensures r.pos == c.pos && r.fixes >= c.fixes && r.stop == c.stop
  {
    Emit(Fix(PrepareKey(c), UnquotedKey), PrintString(w, false))
  }

  function WordStep(inp: Bytes, c: Core): (r: Core)
    requires c.pos < |inp| && IsWordStart(inp[c.pos])
    ensures c.pos < r.pos <= |inp| && r.fixes >= c.fixes
  {
    hide PrepareValue, ValueDone, WordValue, BareKey;
    var e := WordEnd(inp, c.pos);
    var w, d := inp[c.pos..e], c.(pos := e);
    if AtKeyPosition(d) then BareKey(d, w)
    else
      var v := PrepareValue(d);
      if v.stop then v else ValueDone(WordValue(v, w))
  }

  // --- Numbers ---

  predicate IsNumberStart(c: byte) { c == MINUS || c == PLUS || c == DOT || IsDigit(c) }

  predicate IsNumberRun(c: byte) { IsAlpha(c) || IsDigit(c) || c == PLUS || c == MINUS || c == DOT }

  function NumberEnd(inp: Bytes, i: nat): (e: nat)
    requires i <= |inp|
    ensures i <= e <= |inp| && forall k :: i <= k < e ==> IsNumberRun(inp[k])
    ensures e < |inp| ==> !IsNumberRun(inp[e])
    decreases |inp| - i
  {
    if i < |inp| && IsNumberRun(inp[i]) then NumberEnd(inp, i + 1) else i
  }

  predicate AllHex(t: Bytes) { forall k :: 0 <= k < |t| ==> HexDigit(t[k]) >= 0 }

  function HexValue(t: Bytes): nat
    requires AllHex(t)
  {
    if t == [] then 0 else HexValue(t[..|t| - 1]) * 16 + HexDigit(t[|t| - 1])
  }

  const WORD64: nat := 0x1_0000_0000_0000_0000

  predicate HasHexMark(t: Bytes) { |t| >= 2 && t[0] == ZERO && (t[1] == 0x78 || t[1] == 0x58) }

  /** The C library's base-16 conversion of the whole text: sign, optional 0x, saturation; None if a part is left. */
  function ParseHex64(t: Bytes): Option<nat>
  {
    var signed := t != [] && (t[0] == PLUS || t[0] == MINUS);
    var s := if signed then t[1..] else t;
    var digits := if HasHexMark(s) && |s| > 2 then s[2..] else s;
    if digits == [] || !AllHex(digits) then None
    else
      var v := HexValue(digits);
      if v >= WORD64 then Some(WORD64 - 1)
      else if signed && t[0] == MINUS && v > 0 then Some(WORD64 - v)
      else Some(v)
  }

  const HEX_ROOM: nat := 31
  const NORM_ROOM: nat := 96

  function SkipZeros(t: Bytes, q: nat): (r: nat)
    requires q <= |t|
    ensures q <= r <= |t|
    decreases |t| - q
  {
    if q + 1 < |t| && t[q] == ZERO && IsDigit(t[q + 1]) then SkipZeros(t, q + 1) else q
  }

  /** Copies digits and signs, dropping a point that no digit follows, until the k bytes used reach the room. */
  function NormTail(t: Bytes, q: nat, k: nat): Bytes
    requires q <= |t|
    decreases |t| - q
  {
    if q >= |t| || k + 2 >= NORM_ROOM then []
    else if t[q] == DOT && (q + 1 >= |t| || !IsDigit(t[q + 1])) then NormTail(t, q + 1, k)
    else [t[q]] + NormTail(t, q + 1, k + 1)
  }

  function Normalized(t: Bytes, q: nat, neg: bool): Bytes
    requires q <= |t|
  {
    var sign := if neg then [MINUS] else [];
    var z := SkipZeros(t, q);
    var head := sign + if z < |t| && t[z] == DOT then [ZERO] else [];
    head + NormTail(t, z, |head|)
  }

  /** A number-like token that is no JSON number. */
  function RepairNumber(c: Core, t: Bytes): (r: Core)
    ensures r.pos == c.pos && r.fixes >= c.fixes && r.stop == c.stop && r.frames == c.frames && r.topDone == c.topDone
  {
    var signed := t != [] && (t[0] == PLUS || t[0] == MINUS);
    var neg := signed && t[0] == MINUS;
    var q := if signed then 1 else 0;
    var hex := HexToken(t, q);
    if t[q..] == INFINITY then Emit(Fix(c, Literal), NULL_WORD)
    else if hex.Some? then Emit(Fix(c, NumberSyntax), (if neg then [MINUS] else []) + DecimalText(hex.value))
    else
      var norm := Normalized(t, q, neg);
      if norm != [] && IsNumberText(norm) then Emit(Fix(c, NumberSyntax), norm)
      else Emit(Fix(c, Quotes), PrintString(t, false))
  }

  function HexToken(t: Bytes, q: nat): Option<nat>
    requires q <= |t|
  {
    if |t| - q > 2 && HasHexMark(t[q..]) then
      ParseHex64(t[q + 2..][..if |t| - q - 2 < HEX_ROOM then |t| - q - 2 else HEX_ROOM])
    else None
  }

  function NumberStep(inp: Bytes, c: Core): (r: Core)
    requires c.pos < |inp| && IsNumberStart(inp[c.pos])
    ensures c.pos < r.pos <= |inp| && r.fixes >= c.fixes
  {
    hide PrepareValue, ValueDone, RepairNumber, BareKey, IsNumberText;
    var e := NumberEnd(inp, c.pos);
    var t, d := inp[c.pos..e], c.(pos := e);
    if AtKeyPosition(d) then BareKey(d, t)
    else
      var v := PrepareValue(d);
      if v.stop then v
      else if IsNumberText(t) then ValueDone(Emit(v, t))
      else ValueDone(RepairNumber(v, t))
  }

  // --- Comments ---

  function LineEnd(inp: Bytes, i: nat): (e: nat)
    requires i <= |inp|
    ensures i <= e <= |inp|
    ensures i < |inp| && inp[i] != NEWLINE ==> i < e
    decreases |inp| - i
  {
    if i < |inp| && inp[i] != NEWLINE then LineEnd(inp, i + 1) else i
  }

  const STAR: byte := 0x2A

  function BlockEnd(inp: Bytes, i: nat): (e: nat)
    requires i <= |inp|
    ensures i <= e <= |inp|
    decreases |inp| - i
  {
    if |inp| - i < 2 then |inp|
    else if inp[i] == STAR && inp[i + 1] == SLASH then i + 2
    else BlockEnd(inp, i + 1)
  }

  // --- The main loop ---

  predicate AtFence(inp: Bytes, i: nat) { i + 3 <= |inp| && inp[i..i + 3] == FENCE }

  const HASH: byte := 0x23
  const EQUALS: byte := 0x3D

  /** A code fence after the top-level value ends the run. */
  predicate Breaks(inp: Bytes, c: Core)
    requires c.pos < |inp|
  {
    AtFence(inp, c.pos) && c.topDone && c.frames == []
  }

  /** A code fence or a comment begins here. */
  predicate AtComment(inp: Bytes, p: nat)
    requires p < |inp|
  {
    || AtFence(inp, p)
    || inp[p] == HASH
    || (inp[p] == SLASH && p + 2 <= |inp| && (inp[p + 1] == SLASH || inp[p + 1] == STAR))
  }

  /** Skips a fence line or a comment. */
  function CommentStep(inp: Bytes, c: Core): (r: Core)
    requires c.pos < |inp| && AtComment(inp, c.pos)
    ensures c.pos < r.pos <= |inp| && r.fixes == c.fixes + 1 && r.stop == c.stop
  {
    if AtFence(inp, c.pos) then Fix(c, CodeFence).(pos := LineEnd(inp, c.pos))
    else if inp[c.pos] == SLASH && inp[c.pos + 1] == STAR then Fix(c, Comment).(pos := BlockEnd(inp, c.pos + 2))
    else Fix(c, Comment).(pos := LineEnd(inp, c.pos))
  }

  function TokenStep(inp: Bytes, c: Core, max: nat): (r: Core)
    requires c.pos < |inp|
    ensures c.pos <= r.pos <= |inp| && (r.pos == c.pos ==> r.stop) && r.fixes >= c.fixes
  {
    hide OpenContainer, CloseContainer, CommaStep, ColonStep, StringStep, NumberStep, WordStep, IsNumberStart, IsWordStart;
    var ch := inp[c.pos];
    var d := c.(pos := c.pos + 1);
    if ch == OPEN_BRACE then OpenContainer(d, true, max)
    else if ch == OPEN_BRACKET then OpenContainer(d, false, max)
    else if ch == CLOSE_BRACE || ch == CLOSE_BRACKET then CloseContainer(d, ch)
    else if ch == COMMA then CommaStep(d)
    else if ch == COLON || ch == EQUALS then ColonStep(d, ch)
    else if ch == QUOTE || ch == APOSTROPHE || ch == BACKTICK then StringStep(inp, c)
    else if IsNumberStart(ch) then NumberStep(inp, c)
    else if IsWordStart(ch) then WordStep(inp, c)
    else Fix(d, Garbage)
  }

  /** One turn of the main loop. */
  function Step(inp: Bytes, c: Core, max: nat): (r: Core)
    requires c.pos < |inp|
    ensures c.pos <= r.pos <= |inp| && (r.pos == c.pos ==> r.stop) && r.fixes >= c.fixes
  {
    if IsWs(inp[c.pos]) then c.(pos := c.pos + 1)
    else if AtComment(inp, c.pos) then CommentStep(inp, c)
    else TokenStep(inp, c, max)
  }

  /** The whole main loop. */
  function Run(inp: Bytes, c: Core, max: nat): (r: Core)
    requires c.pos <= |inp|
    ensures r.pos <= |inp| && r.fixes >= c.fixes
    decreases |inp| - c.pos, !c.stop
  {
    if c.pos >= |inp| || c.stop then c
    else if Breaks(inp, c) then Fix(c, CodeFence)
    else Run(inp, Step(inp, c, max), max)
  }

  /** Closes what is still open. */
  function CloseAll(c: Core): (r: Core)
    ensures r.frames == [] && r.fixes >= c.fixes
    decreases |c.frames|
  {
    if c.frames == [] then c else CloseAll(CloseContainer(c, Closer(Top(c))))
  }

  function Start(inp: Bytes): (c: Core)
    ensures c.pos <= |inp|
  {
    var c := Core(ParserSpec.BomLength(inp), [], [], false, false, 0, {});
    if c.pos > 0 then Fix(c, ByteOrderMark) else c
  }

  function Finish(c: Core): Core
  {
    CloseAll(if c.frames != [] then Fix(c, Unclosed) else c)
  }

  datatype Repaired = Repaired(text: Option<Bytes>, fixes: nat, kinds: set<Kind>)

  function Repair(inp: Bytes, max: nat): Repaired
  {
    var c := Finish(Run(inp, Start(inp), max));
    Repaired(if c.topDone then Some(c.out) else None, c.fixes, c.kinds)
  }
}
