/** The streaming parser agrees with the parser on streams of any length, unless a token or element limit is met. */
module SaxLimits {
  import opened Bytes
  import opened Scan
  import opened SaxSpec
  import opened SaxAgreement

  function Max(a: nat, b: nat): nat { if a < b then b else a }

  /** The same options with limits of at least n; an element limit that is off stays off. */
  function Unlimited(o: SaxOptions, n: nat): SaxOptions
  {
    o.(maxToken := Max(o.maxToken, n), maxElements := if o.maxElements == 0 then 0 else Max(o.maxElements, n))
  }

  predicate Wider(o: SaxOptions, w: SaxOptions)
  {
    && w.maxDepth == o.maxDepth && w.multi == o.multi
    && o.maxToken <= w.maxToken && o.maxElements <= w.maxElements && (o.maxElements == 0 <==> w.maxElements == 0)
  }

  predicate LimitError(m: Mode) { m == Error(StringLimit) || m == Error(ElementLimit) }

  /** The token is larger than its limit, or an element has ended that is one too many for its container. */
  predicate Over(o: SaxOptions, c: Core)
  {
    || TokenLength(c.mode) > o.maxToken
    || (o.maxElements > 0 && c.mode.AfterValue? && c.stack != [] && c.stack[|c.stack| - 1].count > o.maxElements)
  }

  /** With wider limits, this byte would take a token or a container over the limits of o. */
  predicate Exceeds(o: SaxOptions, w: SaxOptions, c: Core, ch: byte)
  {
    || (c.mode.InNumber? && !IsNumberChar(ch) && Over(o, FinishNumber(w, c)))
    || Over(o, Step(w, c, ch))
  }

  /** Some byte of the run with wider limits exceeds those of o. */
  predicate MeetsLimit(o: SaxOptions, w: SaxOptions, s: Sax, data: Bytes)
    decreases |data|
  {
    data != [] && !s.core.mode.Error? &&
    ((!OfBom(s, data[0]) && Exceeds(o, w, s.core, data[0])) || MeetsLimit(o, w, SaxStep(w, s, data[0]), data[1..]))
  }

  /** The byte continues or breaks off a byte order mark. */
  predicate OfBom(s: Sax, ch: byte) { AtBom(s) && (ch == BomByte(s.bom) || s.bom > 0) }

  // --- Up to the limit both runs are the same ---

  /** What one step with the limits of o, and the same with wider ones, come to. */
  predicate Same(o: SaxOptions, r: Core, d: Core) { if Over(o, d) then LimitError(r.mode) else r == d }

  lemma EndSame(o: SaxOptions, w: SaxOptions, c: Core)
    requires Wider(o, w)
    ensures Same(o, EndValue(o, c), EndValue(w, c))
  {
  }

  lemma BeginSame(o: SaxOptions, w: SaxOptions, c: Core, ch: byte)
    requires Wider(o, w)
    ensures Same(o, BeginValue(o, c, ch), BeginValue(w, c, ch))
  {
    hide IsDigit;
  }

  lemma CloseSame(o: SaxOptions, w: SaxOptions, c: Core, isObject: bool)
    requires Wider(o, w)
    ensures Same(o, Close(o, c, isObject), Close(w, c, isObject))
  {
    hide EndValue;
    if c.stack != [] {
      EndSame(o, w, Emit(c.(stack := c.stack[..|c.stack| - 1]), if isObject then ObjectEnd else ArrayEnd));
    }
  }

  lemma StructureSame(o: SaxOptions, w: SaxOptions, c: Core, ch: byte)
    requires Wider(o, w) && !Over(o, c)
    ensures Same(o, StructureByte(o, c, ch), StructureByte(w, c, ch))
  {
    hide BeginValue, Close, IsWs;
    BeginSame(o, w, c, ch);
    CloseSame(o, w, c, true);
    CloseSame(o, w, c, false);
  }

  lemma NumberSame(o: SaxOptions, w: SaxOptions, c: Core)
    requires Wider(o, w) && c.mode.InNumber?
    ensures Same(o, FinishNumber(o, c), FinishNumber(w, c))
  {
    hide EndValue, ScanNumber, NumberValue;
    EndSame(o, w, Emit(c, NumberEvent(NumberValue(c.mode.tok))));
  }

  lemma StringSame(o: SaxOptions, w: SaxOptions, c: Core, ch: byte)
    requires Wider(o, w) && !Over(o, c) && c.mode.InString?
    ensures Same(o, StringByte(o, c, ch), StringByte(w, c, ch))
  {
    hide EndValue, LeadOf;
    EndSame(o, w, Emit(c, StringEvent(c.mode.tok)));
  }

  lemma EscapesSame(o: SaxOptions, w: SaxOptions, c: Core, ch: byte)
    requires Wider(o, w) && !Over(o, c)
    ensures c.mode.InEscape? ==> Same(o, EscapeByte(o, c, ch), EscapeByte(w, c, ch))
    ensures c.mode.InUnicode? ==> Same(o, UnicodeByte(o, c, ch), UnicodeByte(w, c, ch))
  {
    hide SimpleEscape, HexDigit, Utf8Encode;
  }

  lemma LiteralSame(o: SaxOptions, w: SaxOptions, c: Core, ch: byte)
    requires Wider(o, w) && c.mode.InLiteral?
    ensures Same(o, LiteralByte(o, c, ch), LiteralByte(w, c, ch))
  {
    hide EndValue;
    EndSame(o, w, Emit(c, NullEvent));
    EndSame(o, w, Emit(c, BoolEvent(c.mode.word != [] && c.mode.word[0] == LOWER_T)));
  }

  lemma StepSame(o: SaxOptions, w: SaxOptions, c: Core, ch: byte)
    requires Wider(o, w) && !Over(o, c)
    ensures if Exceeds(o, w, c, ch) then LimitError(Step(o, c, ch).mode)
            else Step(o, c, ch) == Step(w, c, ch) && !Over(o, Step(o, c, ch))
  {
    hide StructureByte, StringByte, EscapeByte, UnicodeByte, LiteralByte, FinishNumber, IsNumberChar;
    if BetweenTokens(c.mode) {
      StructureSame(o, w, c, ch);
    } else if c.mode.InNumber? && !IsNumberChar(ch) {
      NumberSame(o, w, c);
      if !Over(o, FinishNumber(w, c)) { StructureSame(o, w, FinishNumber(w, c), ch); } else { OverGoesOn(o, w, c, ch); }
    } else {
      EscapesSame(o, w, c, ch);
      match c.mode
      case InString(_, _, _, _, _, _) => StringSame(o, w, c, ch);
      case InLiteral(_, _) => LiteralSame(o, w, c, ch);
      case _ =>
    }
  }

  lemma OverGoesOn(o: SaxOptions, w: SaxOptions, c: Core, ch: byte)
    requires c.mode.InNumber? && !IsNumberChar(ch) && Over(o, FinishNumber(w, c))
    ensures Exceeds(o, w, c, ch)
  {
  }

  /** A run with the limits of o is the run with wider ones as long as that does not meet them, and then it ends. */
  lemma {:induction false} FeedSame(o: SaxOptions, w: SaxOptions, s: Sax, data: Bytes)
    requires Wider(o, w) && !Over(o, s.core)
    ensures if MeetsLimit(o, w, s, data) then LimitError(Feed(o, s, data).core.mode)
            else Feed(o, s, data) == Feed(w, s, data) && !Over(o, Feed(o, s, data).core)
    decreases |data|
  {
    hide Step, Over, Exceeds, BomByte;
    if data != [] && !s.core.mode.Error? {
      StepSame(o, w, s.core, data[0]);
      var t := SaxStep(o, s, data[0]);
      if OfBom(s, data[0]) {
        StopIsNotOver(o, s.core);
        FeedSame(o, w, t, data[1..]);
      } else if Exceeds(o, w, s.core, data[0]) {
        Ended(o, t, data[1..]);
      } else {
        FeedSame(o, w, t, data[1..]);
      }
    }
  }

  lemma StopIsNotOver(o: SaxOptions, c: Core)
    ensures !Over(o, Stop(c, InvalidUtf8))
  {
  }

  lemma Ended(o: SaxOptions, s: Sax, data: Bytes)
    requires s.core.mode.Error?
    ensures Feed(o, s, data) == s
  {
  }

  /** The end of the input gives the same verdict. */
  lemma VerdictSame(o: SaxOptions, w: SaxOptions, c: Core)
    requires Wider(o, w) && !o.multi
    ensures Verdict(o, c) == Verdict(w, c)
  {
    hide FinishNumber;
    if c.mode.InNumber? {
      NumberSame(o, w, c);
      NumberIsShort(w, c);
    }
  }

  lemma NumberIsShort(w: SaxOptions, c: Core)
    requires c.mode.InNumber?
    ensures TokenLength(FinishNumber(w, c).mode) == 0
  {
  }

  // --- Bounds on tokens and counts ---

  /** A token's bytes, and those still to come of what was read. */
  function Weight(m: Mode): nat
  {
    match m
    case InString(_, tok, _, _, _, high) => |tok| + if high != 0 then 6 else 0
    case InEscape(_, tok, high) => |tok| + 1 + if high != 0 then 6 else 0
    case InUnicode(_, tok, high, count, _) => |tok| + 2 + count + if high != 0 then 6 else 0
    case InNumber(tok) => |tok|
    case _ => 0
  }

  /** Where a byte of the text is: outside of strings, inside one, or after a backslash in one. */
  datatype Place = Outside | Inside | Escaping

  /** The place after a byte, and how long the token may be there: a string's raw text, or number characters in a row. */
  function Moved(p: Place, len: nat, ch: byte): (Place, nat)
  {
    match p
    case Outside => if ch == QUOTE then (Inside, 0) else if IsNumberChar(ch) then (Outside, len + 1) else (Outside, 0)
    case Inside =>
      if ch == QUOTE then (Outside, 0) else if ch == BACKSLASH then (Escaping, len + 1) else (Inside, len + 1)
    case Escaping => (Inside, len + 1)
  }

  /** From this place on no string and no row of number characters is longer than max. */
  predicate ShortTokens(max: nat, p: Place, len: nat, data: Bytes)
    decreases |data|
  {
    data != [] ==> var (q, l) := Moved(p, len, data[0]); l <= max && ShortTokens(max, q, l, data[1..])
  }

  predicate PlaceOf(m: Mode, p: Place)
  {
    match m
    case InString(_, _, _, lo, _, _) => p.Inside? && lo >= 0x80
    case InEscape(_, _, _) => p.Escaping?
    case InUnicode(_, _, _, count, _) => p.Inside? && count < 4
    case InLiteral(word, _) => p.Outside? && QUOTE !in word
    case Error(_) => true
    case _ => p.Outside?
  }

  /** The automaton is at this place with a token that is no longer than len. */
  predicate Placed(m: Mode, p: Place, len: nat) { PlaceOf(m, p) && Weight(m) <= len }

  lemma EndPlaced(o: SaxOptions, c: Core)
    ensures Placed(EndValue(o, c).mode, Outside, 0) && EndValue(o, c).mode != Error(StringLimit)
  {
  }

  lemma StructurePlaced(o: SaxOptions, c: Core, len: nat, ch: byte)
    requires BetweenTokens(c.mode) && Moved(Outside, len, ch).1 <= o.maxToken
    ensures var d, (q, l) := StructureByte(o, c, ch), Moved(Outside, len, ch);
            Placed(d.mode, q, l) && d.mode != Error(StringLimit)
  {
    hide EndValue;
    if c.stack != [] {
      var popped := c.(stack := c.stack[..|c.stack| - 1]);
      EndPlaced(o, Emit(popped, ObjectEnd));
      EndPlaced(o, Emit(popped, ArrayEnd));
    }
  }

  lemma StringPlaced(o: SaxOptions, c: Core, len: nat, ch: byte)
    requires c.mode.InString? && Placed(c.mode, Inside, len) && Moved(Inside, len, ch).1 <= o.maxToken
    ensures var d, (q, l) := StringByte(o, c, ch), Moved(Inside, len, ch);
            Placed(d.mode, q, l) && d.mode != Error(StringLimit)
  {
    hide EndValue, LeadOf;
    EndPlaced(o, Emit(c, StringEvent(c.mode.tok)));
  }

  lemma EscapePlaced(o: SaxOptions, c: Core, len: nat, ch: byte)
    requires c.mode.InEscape? && Placed(c.mode, Escaping, len) && len + 1 <= o.maxToken
    ensures var d := EscapeByte(o, c, ch); Placed(d.mode, Inside, len + 1) && d.mode != Error(StringLimit)
  {
    hide SimpleEscape;
  }

  lemma UnicodePlaced(o: SaxOptions, c: Core, len: nat, ch: byte)
    requires c.mode.InUnicode? && Placed(c.mode, Inside, len) && Moved(Inside, len, ch).1 <= o.maxToken
    ensures var d, (q, l) := UnicodeByte(o, c, ch), Moved(Inside, len, ch);
            Placed(d.mode, q, l) && d.mode != Error(StringLimit)
  {
    var m := c.mode;
    if HexDigit(ch) >= 0 && m.count + 1 == 4 {
      hide Utf8Encode;
      var u := m.val * 16 + HexDigit(ch);
      UnitPlaced(o, c, m.isKey, m.tok, m.high, u, len + 1);
      hide CodeUnit;
    }
  }

  lemma UnitPlaced(o: SaxOptions, c: Core, isKey: bool, tok: Bytes, high: nat, u: nat, len: nat)
    requires |tok| + 6 + (if high != 0 then 6 else 0) <= len <= o.maxToken
    ensures var d := CodeUnit(o, c, isKey, tok, high, u); Placed(d.mode, Inside, len) && d.mode != Error(StringLimit)
  {
  }

  lemma LiteralPlaced(o: SaxOptions, c: Core, len: nat, ch: byte)
    requires c.mode.InLiteral? && QUOTE !in c.mode.word
    ensures var d, (q, l) := LiteralByte(o, c, ch), Moved(Outside, len, ch);
            Placed(d.mode, q, l) && d.mode != Error(StringLimit)
  {
    hide EndValue;
    EndPlaced(o, Emit(c, NullEvent));
    EndPlaced(o, Emit(c, BoolEvent(c.mode.word != [] && c.mode.word[0] == LOWER_T)));
  }

  lemma NumberPlaced(o: SaxOptions, c: Core)
    requires c.mode.InNumber?
    ensures var d := FinishNumber(o, c); Placed(d.mode, Outside, 0) && d.mode != Error(StringLimit)
    ensures FinishNumber(o, c).mode.Error? || BetweenTokens(FinishNumber(o, c).mode)
  {
    hide ScanNumber, NumberValue;
  }

  lemma StepPlaced(o: SaxOptions, c: Core, p: Place, len: nat, ch: byte)
    requires !c.mode.Error? && Placed(c.mode, p, len) && Moved(p, len, ch).1 <= o.maxToken
    ensures var d, (q, l) := Step(o, c, ch), Moved(p, len, ch); Placed(d.mode, q, l) && d.mode != Error(StringLimit)
  {
    hide StructureByte, StringByte, EscapeByte, UnicodeByte, LiteralByte, FinishNumber;
    match c.mode
    case InString(_, _, _, _, _, _) => StringPlaced(o, c, len, ch);
    case InEscape(_, _, _) => EscapePlaced(o, c, len, ch);
    case InUnicode(_, _, _, _, _) => UnicodePlaced(o, c, len, ch);
    case InLiteral(_, _) => LiteralPlaced(o, c, len, ch);
    case InNumber(_) =>
      NumberPlaced(o, c);
      if !IsNumberChar(ch) && !FinishNumber(o, c).mode.Error? { StructurePlaced(o, FinishNumber(o, c), len, ch); }
    case _ => StructurePlaced(o, c, len, ch);
  }

  // --- Counts ---

  /** No container has had more elements than commas were seen, but for the one that has just ended. */
  predicate Counted(c: Core, commas: nat)
  {
    forall i :: 0 <= i < |c.stack| ==>
      c.stack[i].count <= commas + if c.mode.AfterValue? && i == |c.stack| - 1 then 1 else 0
  }

  function Commas(data: Bytes): nat { if data == [] then 0 else (if data[0] == COMMA then 1 else 0) + Commas(data[1..]) }

  predicate Roomy(o: SaxOptions, commas: nat) { o.maxElements == 0 || commas < o.maxElements }

  lemma EndCounted(o: SaxOptions, c: Core, k: nat)
    requires Roomy(o, k) && forall i :: 0 <= i < |c.stack| ==> c.stack[i].count <= k
    ensures Counted(EndValue(o, c), k) && EndValue(o, c).mode != Error(ElementLimit)
  {
  }

  lemma CloseCounted(o: SaxOptions, c: Core, isObject: bool, k: nat)
    requires Roomy(o, k) && Counted(c, k)
    ensures Close(o, c, isObject).mode == Error(UnexpectedChar)
         || (Counted(Close(o, c, isObject), k) && Close(o, c, isObject).mode != Error(ElementLimit))
  {
    hide EndValue;
    if c.stack != [] {
      EndCounted(o, Emit(c.(stack := c.stack[..|c.stack| - 1]), if isObject then ObjectEnd else ArrayEnd), k);
    }
  }

  /** A step that is not an error keeps the bound; the bound of an erroneous one does not matter. */
  predicate Fine(c: Core, k: nat) { if c.mode.Error? then c.mode != Error(ElementLimit) else Counted(c, k) }

  lemma StructureCounted(o: SaxOptions, c: Core, ch: byte, k: nat)
    requires Roomy(o, k) && Counted(c, k) && BetweenTokens(c.mode)
    ensures Fine(StructureByte(o, c, ch), if ch == COMMA then k + 1 else k)
  {
    hide Close, BeginValue, IsWs;
    CloseCounted(o, c, true, k);
    CloseCounted(o, c, false, k);
    if !c.mode.AfterValue? { BeginCounted(o, c, ch, k); }
  }

  lemma BeginCounted(o: SaxOptions, c: Core, ch: byte, k: nat)
    requires Counted(c, k) && !c.mode.AfterValue?
    ensures Fine(BeginValue(o, c, ch), k)
  {
    hide IsDigit;
  }

  lemma TokenCounted(o: SaxOptions, c: Core, ch: byte, k: nat)
    requires Roomy(o, k) && Counted(c, k) && !BetweenTokens(c.mode) && !c.mode.Error?
    ensures Fine(TokenByte(o, c, ch), k)
    ensures c.mode.InNumber? ==> Fine(FinishNumber(o, c), k)
  {
    hide EndValue, ScanNumber, NumberValue, LeadOf, SimpleEscape, HexDigit, Utf8Encode;
    match c.mode
    case InString(_, tok, _, _, _, _) => EndCounted(o, Emit(c, StringEvent(tok)), k);
    case InNumber(tok) => EndCounted(o, Emit(c, NumberEvent(NumberValue(tok))), k);
    case InLiteral(w, _) =>
      EndCounted(o, Emit(c, NullEvent), k);
      EndCounted(o, Emit(c, BoolEvent(w != [] && w[0] == LOWER_T)), k);
    case _ =>
  }

  lemma StepCounted(o: SaxOptions, c: Core, ch: byte, k: nat)
    requires Roomy(o, k) && Counted(c, k) && !c.mode.Error?
    ensures Fine(Step(o, c, ch), if ch == COMMA then k + 1 else k)
  {
    hide StructureByte, TokenByte, FinishNumber, IsNumberChar, Roomy;
    if BetweenTokens(c.mode) {
      StructureCounted(o, c, ch, k);
    } else {
      TokenCounted(o, c, ch, k);
      if c.mode.InNumber? {
        NumberPlaced(o, c);
        if !FinishNumber(o, c).mode.Error? { StructureCounted(o, FinishNumber(o, c), ch, k); }
      }
    }
  }

  // --- Limits that are not met ---

  predicate Within(o: SaxOptions, s: Sax, p: Place, len: nat, k: nat)
  {
    s.core.mode.Error? || (Placed(s.core.mode, p, len) && Counted(s.core, k))
  }

  /** A run over short tokens and few commas does not meet the limits. */
  lemma {:induction false} FeedWithin(o: SaxOptions, s: Sax, data: Bytes, p: Place, len: nat, k: nat)
    requires Within(o, s, p, len, k) && !LimitError(s.core.mode)
    requires ShortTokens(o.maxToken, p, len, data) && (o.maxElements == 0 || k + Commas(data) < o.maxElements)
    ensures !LimitError(Feed(o, s, data).core.mode)
    decreases |data|
  {
    hide Step, Moved, Placed, Counted, BomByte;
    if data != [] && !s.core.mode.Error? {
      var ch := data[0];
      var t := SaxStep(o, s, ch);
      var (q, l) := Moved(p, len, ch);
      var n := if ch == COMMA then k + 1 else k;
      if AtBom(s) && ch == BomByte(s.bom) {
        BomPlaced(s, p, len, ch);
        CountsGrow(s.core, k, n);
      } else if !OfBom(s, ch) {
        StepPlaced(o, s.core, p, len, ch);
        StepCounted(o, s.core, ch, k);
      }
      FeedWithin(o, t, data[1..], q, l, n);
    }
  }

  lemma CountsGrow(c: Core, k: nat, n: nat)
    requires Counted(c, k) && k <= n
    ensures Counted(c, n)
  {
  }

  lemma BomPlaced(s: Sax, p: Place, len: nat, ch: byte)
    requires AtBom(s) && ch == BomByte(s.bom) && Placed(s.core.mode, p, len)
    ensures var (q, l) := Moved(p, len, ch); Placed(s.core.mode, q, l)
  {
  }

  lemma {:induction false} AllShort(max: nat, p: Place, len: nat, data: Bytes)
    requires len + |data| <= max
    ensures ShortTokens(max, p, len, data)
    decreases |data|
  {
    if data != [] {
      var (q, l) := Moved(p, len, data[0]);
      AllShort(max, q, l, data[1..]);
    }
  }

  lemma {:induction false} CommasBounded(data: Bytes)
    ensures Commas(data) <= |data|
  {
    if data != [] { CommasBounded(data[1..]); }
  }

  /** Limits larger than the text are never met. */
  lemma UnlimitedIsWithin(o: SaxOptions, inp: Bytes)
    ensures !LimitError(Feed(Unlimited(o, |inp| + 1), Fresh, inp).core.mode)
  {
    hide Feed, ShortTokens, Commas;
    var w := Unlimited(o, |inp| + 1);
    AllShort(w.maxToken, Outside, 0, inp);
    CommasBounded(inp);
    FeedWithin(w, Fresh, inp, Outside, 0, 0);
  }

  // --- Counting elements changes nothing else ---

  function Bare(c: Core): (r: Core)
    ensures |r.stack| == |c.stack| && forall i :: 0 <= i < |c.stack| ==> r.stack[i] == Frame(c.stack[i].isObject, 0)
    ensures r == c.(stack := r.stack)
  {
    c.(stack := seq(|c.stack|, i requires 0 <= i < |c.stack| => Frame(c.stack[i].isObject, 0)))
  }

  function Uncounted(o: SaxOptions): SaxOptions { o.(maxElements := 0) }

  /** d is what c becomes when elements are not counted, unless counting them has ended the run. */
  predicate Shadows(c: Core, d: Core) { c.mode != Error(ElementLimit) ==> d == Bare(c) }

  lemma EndShadows(o: SaxOptions, c: Core)
    ensures Shadows(EndValue(o, c), EndValue(Uncounted(o), Bare(c)))
  {
  }

  lemma CloseShadows(o: SaxOptions, c: Core, isObject: bool)
    ensures Shadows(Close(o, c, isObject), Close(Uncounted(o), Bare(c), isObject))
  {
    hide EndValue;
    if c.stack != [] {
      var popped := c.(stack := c.stack[..|c.stack| - 1]);
      var e := if isObject then ObjectEnd else ArrayEnd;
      EndShadows(o, Emit(popped, e));
      assert Bare(Emit(popped, e)) == Emit(Bare(c).(stack := Bare(c).stack[..|c.stack| - 1]), e);
    }
  }

  lemma BeginShadows(o: SaxOptions, c: Core, ch: byte)
    ensures Shadows(BeginValue(o, c, ch), BeginValue(Uncounted(o), Bare(c), ch))
  {
    hide IsDigit;
    assert Bare(Push(o, c, true)).stack == Push(Uncounted(o), Bare(c), true).stack;
    assert Bare(Push(o, c, false)).stack == Push(Uncounted(o), Bare(c), false).stack;
  }

  lemma StructureShadows(o: SaxOptions, c: Core, ch: byte)
    ensures Shadows(StructureByte(o, c, ch), StructureByte(Uncounted(o), Bare(c), ch))
  {
    hide BeginValue, Close, IsWs;
    BeginShadows(o, c, ch);
    CloseShadows(o, c, true);
    CloseShadows(o, c, false);
  }

  lemma EventShadows(o: SaxOptions, c: Core, e: Event)
    ensures Shadows(EndValue(o, Emit(c, e)), EndValue(Uncounted(o), Emit(Bare(c), e)))
  {
    hide EndValue;
    EndShadows(o, Emit(c, e));
    assert Bare(Emit(c, e)) == Emit(Bare(c), e);
  }

  lemma TokenShadows(o: SaxOptions, c: Core, ch: byte)
    ensures Shadows(TokenByte(o, c, ch), TokenByte(Uncounted(o), Bare(c), ch))
    ensures c.mode.InNumber? ==> Shadows(FinishNumber(o, c), FinishNumber(Uncounted(o), Bare(c)))
  {
    hide EndValue, ScanNumber, NumberValue, LeadOf, SimpleEscape, HexDigit, Utf8Encode;
    match c.mode
    case InString(_, tok, _, _, _, _) => EventShadows(o, c, StringEvent(tok));
    case InNumber(tok) => EventShadows(o, c, NumberEvent(NumberValue(tok)));
    case InLiteral(w, _) =>
      EventShadows(o, c, NullEvent);
      EventShadows(o, c, BoolEvent(w != [] && w[0] == LOWER_T));
    case _ =>
  }

  lemma StepShadows(o: SaxOptions, c: Core, ch: byte)
    ensures Shadows(Step(o, c, ch), Step(Uncounted(o), Bare(c), ch))
  {
    hide StructureByte, TokenByte, FinishNumber, IsNumberChar;
    StructureShadows(o, c, ch);
    TokenShadows(o, c, ch);
    if c.mode.InNumber? { StructureShadows(o, FinishNumber(o, c), ch); }
  }

  lemma {:induction false} FeedShadows(o: SaxOptions, s: Sax, data: Bytes)
    requires Feed(o, s, data).core.mode != Error(ElementLimit)
    ensures Feed(Uncounted(o), s.(core := Bare(s.core)), data)
         == var r := Feed(o, s, data); r.(core := Bare(r.core))
    decreases |data|
  {
    hide Step, BomByte;
    if data != [] && !s.core.mode.Error? {
      var t := SaxStep(o, s, data[0]);
      StepShadows(o, s.core, data[0]);
      FeedShadows(o, t, data[1..]);
    }
  }

  lemma VerdictShadows(o: SaxOptions, c: Core)
    requires !o.multi
    ensures Verdict(o, c) == Verdict(Uncounted(o), Bare(c))
  {
    hide FinishNumber, TokenByte;
    TokenShadows(o, c, 0);
    if c.mode.InNumber? { NumberEnds(Uncounted(o), Bare(c)); NumberEnds(o, c); }
  }

  /** A number ends the document only outside of containers, where elements are not counted. */
  lemma NumberEnds(o: SaxOptions, c: Core)
    requires c.mode.InNumber?
    ensures var f := FinishNumber(o, c); f.mode.Done? ==> c.stack == []
    ensures var f := FinishNumber(o, c); f.mode == Error(ElementLimit) ==> c.stack != []
  {
    hide ScanNumber, NumberValue;
  }

  // --- Main results ---

  /**
   * Whatever the limits and the length of the stream: the automaton accepts exactly what the parser accepts, with the
   * preorder events of its tree, unless a byte takes a token or a container over its limit; then it rejects.
   */
  lemma StreamingIsParsing(o: SaxOptions, inp: Bytes)
    requires !o.multi
    ensures var w := Unlimited(o, |inp| + 1);
            && Streaming(o, inp) == (if MeetsLimit(o, w, Fresh, inp) then Reject else Parsing(inp, o.maxDepth))
            && (LimitError(Feed(o, Fresh, inp).core.mode) <==> MeetsLimit(o, w, Fresh, inp))
  {
    hide Feed, MeetsLimit, Parsing, Finish;
    var w := Unlimited(o, |inp| + 1);
    FeedSame(o, w, Fresh, inp);
    UnlimitedIsWithin(o, inp);
    if MeetsLimit(o, w, Fresh, inp) {
      StoppedRejects(o, Feed(o, Fresh, inp).core);
    } else {
      VerdictSame(o, w, Feed(o, Fresh, inp).core);
      FeedShadows(w, Fresh, inp);
      assert Bare(Start) == Start;
      VerdictShadows(w, Feed(w, Fresh, inp).core);
      PlainIsParsing(Uncounted(w), inp);
    }
  }

  /**
   * What can be checked of a text before it is streamed: if no raw string and no row of number characters is longer
   * than the token limit, and there are fewer commas than elements allowed, no limit is met, however long the text.
   */
  lemma ShortTokensStream(o: SaxOptions, inp: Bytes)
    requires !o.multi && ShortTokens(o.maxToken, Outside, 0, inp) && Roomy(o, Commas(inp))
    ensures Streaming(o, inp) == Parsing(inp, o.maxDepth)
  {
    hide Feed, MeetsLimit, Parsing, Finish, ShortTokens, Commas;
    StreamingIsParsing(o, inp);
    FeedWithin(o, Fresh, inp, Outside, 0, 0);
  }

  /** A number of two digits: the parser accepts it, and a token limit of one byte rejects it. */
  lemma TokenTooLong(o: SaxOptions)
    requires !o.multi && o.maxToken == 1
    ensures var inp := [0x31, 0x32];
            Streaming(o, inp) == Reject && Parsing(inp, o.maxDepth).Accept? && MeetsLimit(o, Unlimited(o, 3), Fresh, inp)
  {
    var inp: Bytes := [0x31, 0x32];
    var one := Sax(Core(InNumber([0x31]), [], [], 0), 0, 1, 1, 2);
    assert SaxStep(o, Fresh, 0x31) == one;
    assert inp[1..] == [0x32] && inp[1..][1..] == [];
    assert SaxStep(o, one, 0x32).core.mode == Error(StringLimit);
    assert Feed(o, one, inp[1..]) == SaxStep(o, one, 0x32);
    assert Feed(o, Fresh, inp) == Feed(o, one, inp[1..]);
    StreamingIsParsing(o, inp);
    TwoDigits(o.maxDepth);
  }

  lemma TwoDigits(max: nat)
    ensures Parsing([0x31, 0x32], max).Accept?
  {
    var inp: Bytes := [0x31, 0x32];
    assert SkipWs(inp, 0) == 0;
  }
}
