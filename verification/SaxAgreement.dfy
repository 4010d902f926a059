/** The automaton and the recursive-descent parser accept the same texts and denote the same tree. */
module SaxAgreement {
  import opened Bytes
  import opened Options
  import opened JsonValue
  import opened Scan
  import opened NumberScan
  import opened ParserSpec
  import opened SaxSpec

  /** The events of a tree in preorder. */
  function Preorder(v: Json): seq<Event>
    decreases v, 1
  {
    match v
    case Null => [NullEvent]
    case Bool(b) => [BoolEvent(b)]
    case Num(n) => [NumberEvent(n)]
    case Str(s) => [StringEvent(s)]
    case Arr(items) => [ArrayStart] + PreorderItems(items) + [ArrayEnd]
    case Obj(members) => [ObjectStart] + PreorderMembers(members) + [ObjectEnd]
  }

  function PreorderItems(items: seq<Json>): seq<Event>
    decreases items, 0
  {
    if items == [] then [] else Preorder(items[0]) + PreorderItems(items[1..])
  }

  function PreorderMembers(members: seq<Member>): seq<Event>
    decreases members, 0
  {
    if members == [] then []
    else [KeyEvent(members[0].key)] + Preorder(members[0].value) + PreorderMembers(members[1..])
  }

  datatype Outcome = Reject | Accept(events: seq<Event>)

  function Verdict(o: SaxOptions, c: Core): Outcome
  {
    var f := Finish(o, c);
    if f.mode.Error? then Reject else Accept(f.events)
  }

  /** The outcome of running the core from position i to the end of the input. */
  function Final(o: SaxOptions, c: Core, inp: Bytes, i: nat): Outcome
    requires i <= |inp|
    decreases |inp| - i
  {
    if c.mode.Error? then Reject
    else if i == |inp| then Verdict(o, c)
    else Final(o, Step(o, c, inp[i]), inp, i + 1)
  }

  /** Options under which the automaton has no limit that the parser does not have. */
  predicate Plain(o: SaxOptions, inp: Bytes)
  {
    !o.multi && o.maxElements == 0 && o.maxToken >= |inp|
  }

  lemma {:induction false} SkipsWs(o: SaxOptions, c: Core, inp: Bytes, i: nat)
    requires i <= |inp| && BetweenTokens(c.mode)
    ensures Final(o, c, inp, i) == Final(o, c, inp, SkipWs(inp, i))
    decreases |inp| - i
  {
    if i < |inp| && IsWs(inp[i]) {
      SkipsWs(o, c, inp, i + 1);
    }
  }

  predicate InToken(m: Mode) { m.InString? || m.InEscape? || m.InUnicode? || m.InLiteral? }

  /** Inside a string or literal every byte goes to the token, and the end of the input rejects. */
  lemma TokenRun(o: SaxOptions, c: Core, inp: Bytes, i: nat)
    requires i <= |inp| && InToken(c.mode)
    ensures Final(o, c, inp, i)
         == if i == |inp| || TokenByte(o, c, inp[i]).mode.Error? then Reject
            else Final(o, TokenByte(o, c, inp[i]), inp, i + 1)
  {
  }

  lemma ErrorRejects(o: SaxOptions, c: Core, inp: Bytes, i: nat)
    requires i <= |inp| && c.mode.Error?
    ensures Final(o, c, inp, i) == Reject
  {
  }

  // --- Strings ---

  /** What the string reader's result means to an automaton that has `tok` already. */
  function AfterString(o: SaxOptions, c: Core, isKey: bool, tok: Bytes, inp: Bytes, r: Parse<Bytes>): Outcome
    requires r.Ok? ==> r.pos <= |inp|
  {
    if r.Fail? then Reject
    else Final(o, FinishString(o, Go(c, NewString(isKey, tok + r.value))), inp, r.pos)
  }

  lemma {:induction false} StringRun(o: SaxOptions, c: Core, isKey: bool, tok: Bytes, inp: Bytes, i: nat)
    requires i <= |inp| && Plain(o, inp) && |tok| <= i
    ensures Final(o, Go(c, NewString(isKey, tok)), inp, i)
         == AfterString(o, c, isKey, tok, inp, ReadString(inp, i))
    decreases |inp| - i
  {
    hide Final, DecodeEscape, Utf8Length;
    if i == |inp| || inp[i] == QUOTE || inp[i] < 0x20 {
      StringEnd(o, c, isKey, tok, inp, i);
    } else if inp[i] == BACKSLASH {
      EscapeRun(o, c, isKey, tok, inp, i);
      var e := DecodeEscape(inp, i, |inp|);
      if e.Escaped? {
        StringRun(o, c, isKey, tok + e.out, inp, i + e.used);
        AppendFirst(o, c, isKey, tok, e.out, inp, ReadString(inp, i + e.used));
      }
    } else {
      SequenceRun(o, c, isKey, tok, inp, i);
      var len := Utf8Length(inp, i, |inp|);
      if len > 0 {
        StringRun(o, c, isKey, tok + inp[i..i + len], inp, i + len);
        AppendFirst(o, c, isKey, tok, inp[i..i + len], inp, ReadString(inp, i + len));
      }
    }
  }

  lemma StringEnd(o: SaxOptions, c: Core, isKey: bool, tok: Bytes, inp: Bytes, i: nat)
    requires i <= |inp| && (i == |inp| || inp[i] == QUOTE || inp[i] < 0x20)
    ensures Final(o, Go(c, NewString(isKey, tok)), inp, i)
         == AfterString(o, c, isKey, tok, inp, ReadString(inp, i))
  {
    hide Step, Finish;
    var s := Go(c, NewString(isKey, tok));
    TokenRun(o, s, inp, i);
    if i < |inp| && inp[i] == QUOTE {
      assert tok + [] == tok;
      assert FinishString(o, s) == TokenByte(o, s, inp[i]);
    }
  }

  lemma AppendFirst(o: SaxOptions, c: Core, isKey: bool, tok: Bytes, head: Bytes, inp: Bytes, r: Parse<Bytes>)
    requires r.Ok? ==> r.pos <= |inp|
    ensures AfterString(o, c, isKey, tok + head, inp, r) == AfterString(o, c, isKey, tok, inp, Prepend(head, r))
  {
    if r.Ok? {
      assert tok + head + r.value == tok + (head + r.value);
    }
  }

  /** One well-formed UTF-8 sequence takes the automaton to a clean string state; an ill-formed one rejects. */
  lemma SequenceRun(o: SaxOptions, c: Core, isKey: bool, tok: Bytes, inp: Bytes, i: nat)
    requires i < |inp| && Plain(o, inp) && |tok| <= i
    requires inp[i] >= 0x20 && inp[i] != QUOTE && inp[i] != BACKSLASH
    ensures Final(o, Go(c, NewString(isKey, tok)), inp, i)
         == (var len := Utf8Length(inp, i, |inp|);
             if len == 0 then Reject
             else Final(o, Go(c, NewString(isKey, tok + inp[i..i + len])), inp, i + len))
  {
    hide Final, Step, Finish;
    TokenRun(o, Go(c, NewString(isKey, tok)), inp, i);
    if inp[i] < 0x80 {
      assert inp[i..i + 1] == [inp[i]];
    } else {
      var l := LeadOf(inp[i]);
      if l.Lead? {
        ContinuationRun(o, c, isKey, tok + [inp[i]], inp, i + 1, l.need, l.lo, l.hi);
        var len := Utf8Length(inp, i, |inp|);
        if len > 0 {
          assert tok + [inp[i]] + inp[i + 1..i + 1 + l.need] == tok + inp[i..i + len];
        }
      }
    }
  }

  predicate Continues(inp: Bytes, i: nat, need: nat, lo: byte, hi: byte)
    requires i <= |inp|
  {
    need == 0 || (i + need <= |inp| && lo <= inp[i] <= hi && forall k :: i < k < i + need ==> IsContinuation(inp[k]))
  }

  lemma {:induction false} ContinuationRun(
      o: SaxOptions, c: Core, isKey: bool, tok: Bytes, inp: Bytes, i: nat, need: nat, lo: byte, hi: byte)
    requires i <= |inp| && Plain(o, inp) && |tok| <= i
    requires need == 0 ==> lo == 0x80 && hi == 0xBF
    ensures Final(o, Go(c, InString(isKey, tok, need, lo, hi, 0)), inp, i)
         == if Continues(inp, i, need, lo, hi)
            then Final(o, Go(c, NewString(isKey, tok + (if need == 0 then [] else inp[i..i + need]))), inp, i + need)
            else Reject
    decreases need
  {
    hide Step, Finish;
    TokenRun(o, Go(c, InString(isKey, tok, need, lo, hi, 0)), inp, i);
    if need == 0 {
      assert tok + [] == tok;
    } else if i < |inp| && lo <= inp[i] <= hi {
      ContinuationRun(o, c, isKey, tok + [inp[i]], inp, i + 1, need - 1, 0x80, 0xBF);
      if Continues(inp, i, need, lo, hi) {
        assert tok + [inp[i]] + inp[i + 1..i + need] == tok + inp[i..i + need];
      }
    }
  }

  /** Reads k more hexadecimal digits into val. */
  function HexTail(inp: Bytes, i: nat, k: nat, val: nat): (v: int)
    requires i + k <= |inp|
    ensures v >= -1
    decreases k
  {
    if k == 0 then val
    else if HexDigit(inp[i]) < 0 then -1
    else HexTail(inp, i + 1, k - 1, val * 16 + HexDigit(inp[i]))
  }

  lemma HexTailIsHex4(inp: Bytes, i: nat)
    requires i + 4 <= |inp|
    ensures HexTail(inp, i, 4, 0) == Hex4(inp, i)
  {
    var a, b, c, d := HexDigit(inp[i]), HexDigit(inp[i + 1]), HexDigit(inp[i + 2]), HexDigit(inp[i + 3]);
    if a >= 0 && b >= 0 && c >= 0 {
      assert HexTail(inp, i, 4, 0) == HexTail(inp, i + 1, 3, a);
      assert HexTail(inp, i + 1, 3, a) == HexTail(inp, i + 2, 2, a * 16 + b);
      assert HexTail(inp, i + 2, 2, a * 16 + b) == HexTail(inp, i + 3, 1, (a * 16 + b) * 16 + c);
    }
  }

  lemma CodeUnitForgetsMode(o: SaxOptions, c: Core, m: Mode, isKey: bool, tok: Bytes, high: nat, u: nat)
    ensures CodeUnit(o, Go(c, m), isKey, tok, high, u) == CodeUnit(o, c, isKey, tok, high, u)
  {
  }

  function AfterUnit(o: SaxOptions, c: Core, inp: Bytes, i: nat): Outcome
    requires i <= |inp|
  {
    if c.mode.Error? then Reject else Final(o, c, inp, i)
  }

  lemma {:induction false} HexRun(
      o: SaxOptions, c: Core, isKey: bool, tok: Bytes, high: nat, inp: Bytes, i: nat, count: nat, val: nat)
    requires i <= |inp| && count < 4
    ensures Final(o, Go(c, InUnicode(isKey, tok, high, count, val)), inp, i)
         == if i + 4 - count > |inp| || HexTail(inp, i, 4 - count, val) < 0 then Reject
            else AfterUnit(o, CodeUnit(o, c, isKey, tok, high, HexTail(inp, i, 4 - count, val)), inp, i + 4 - count)
    decreases 4 - count
  {
    hide Final, StringByte, EscapeByte, LiteralByte, CodeUnit, Hex4, Step, Finish;
    TokenRun(o, Go(c, InUnicode(isKey, tok, high, count, val)), inp, i);
    if i < |inp| && HexDigit(inp[i]) >= 0 && count < 3 {
      HexRun(o, c, isKey, tok, high, inp, i + 1, count + 1, val * 16 + HexDigit(inp[i]));
    } else if i < |inp| && HexDigit(inp[i]) >= 0 {
      CodeUnitForgetsMode(o, c, InUnicode(isKey, tok, high, count, val), isKey, tok, high, val * 16 + HexDigit(inp[i]));
    }
  }

  /** From the four digits of a \u escape at i. */
  lemma UnicodeRun(o: SaxOptions, c: Core, isKey: bool, tok: Bytes, high: nat, inp: Bytes, i: nat)
    requires i <= |inp|
    ensures Final(o, Go(c, InUnicode(isKey, tok, high, 0, 0)), inp, i)
         == if i + 4 > |inp| || Hex4(inp, i) < 0 then Reject
            else AfterUnit(o, CodeUnit(o, c, isKey, tok, high, Hex4(inp, i)), inp, i + 4)
  {
    hide Final;
    HexRun(o, c, isKey, tok, high, inp, i, 0, 0);
    if i + 4 <= |inp| {
      HexTailIsHex4(inp, i);
    }
  }

  /** After a high surrogate at i, only a low surrogate escape goes on. */
  lemma LowSurrogateRun(o: SaxOptions, c: Core, isKey: bool, tok: Bytes, high: nat, inp: Bytes, i: nat)
    requires i <= |inp| && Plain(o, inp) && |tok| + 4 <= i && IsHighSurrogate(high)
    ensures Final(o, Go(c, InString(isKey, tok, 0, 0x80, 0xBF, high)), inp, i)
         == if i + 6 > |inp| || inp[i] != BACKSLASH || inp[i + 1] != LOWER_U || !IsLowSurrogate(Hex4(inp, i + 2))
            then Reject
            else Final(o, Go(c, NewString(isKey, tok + Utf8Encode(SurrogatePair(high, Hex4(inp, i + 2))))), inp, i + 6)
  {
    hide Final, Utf8Encode, Hex4, Step, Finish;
    TokenRun(o, Go(c, InString(isKey, tok, 0, 0x80, 0xBF, high)), inp, i);
    if i < |inp| && inp[i] == BACKSLASH {
      TokenRun(o, Go(c, InEscape(isKey, tok, high)), inp, i + 1);
      if i + 1 < |inp| && inp[i + 1] == LOWER_U {
        UnicodeRun(o, c, isKey, tok, high, inp, i + 2);
      }
    }
  }

  lemma EscapeRun(o: SaxOptions, c: Core, isKey: bool, tok: Bytes, inp: Bytes, i: nat)
    requires i < |inp| && Plain(o, inp) && |tok| <= i && inp[i] == BACKSLASH
    ensures Final(o, Go(c, NewString(isKey, tok)), inp, i)
         == (var e := DecodeEscape(inp, i, |inp|);
             if e.BadEscape? then Reject
             else Final(o, Go(c, NewString(isKey, tok + e.out)), inp, i + e.used))
  {
    hide Final, Utf8Encode, Hex4, Step, Finish;
    TokenRun(o, Go(c, NewString(isKey, tok)), inp, i);
    TokenRun(o, Go(c, InEscape(isKey, tok, 0)), inp, i + 1);
    if i + 1 < |inp| && inp[i + 1] == LOWER_U {
      UnicodeRun(o, c, isKey, tok, 0, inp, i + 2);
      if i + 6 <= |inp| && IsHighSurrogate(Hex4(inp, i + 2)) {
        LowSurrogateRun(o, c, isKey, tok, Hex4(inp, i + 2), inp, i + 6);
      }
    }
  }

  // --- Literals and numbers ---

  function LiteralDone(o: SaxOptions, c: Core, word: Bytes): Core
    requires word != []
  {
    if word[0] == LOWER_N then EndValue(o, Emit(c, NullEvent))
    else EndValue(o, Emit(c, BoolEvent(word[0] == LOWER_T)))
  }

  lemma {:induction false} LiteralRun(o: SaxOptions, c: Core, word: Bytes, at: nat, inp: Bytes, i: nat)
    requires at < |word| && i <= |inp|
    ensures Final(o, Go(c, InLiteral(word, at)), inp, i)
         == if i + |word| - at <= |inp| && inp[i..i + |word| - at] == word[at..]
            then Final(o, LiteralDone(o, c, word), inp, i + |word| - at)
            else Reject
    decreases |word| - at
  {
    hide StringByte, EscapeByte, UnicodeByte, NumberValue, Step, Finish;
    TokenRun(o, Go(c, InLiteral(word, at)), inp, i);
    var left := |word| - at;
    if i < |inp| && inp[i] == word[at] {
      if left > 1 {
        LiteralRun(o, c, word, at + 1, inp, i + 1);
      }
      if i + left <= |inp| {
        assert inp[i..i + left] == [inp[i]] + inp[i + 1..i + left];
        assert word[at..] == [word[at]] + word[at + 1..];
      }
    } else if i + left <= |inp| {
      assert inp[i..i + left][0] != word[at..][0];
    }
  }

  /** The end of the run of number characters at i. */
  function NumberEnd(inp: Bytes, i: nat): (e: nat)
    requires i <= |inp|
    ensures i <= e <= |inp|
    ensures e < |inp| ==> !IsNumberChar(inp[e])
    ensures forall k :: i <= k < e ==> IsNumberChar(inp[k])
    decreases |inp| - i
  {
    if i < |inp| && IsNumberChar(inp[i]) then NumberEnd(inp, i + 1) else i
  }

  function NumberDone(o: SaxOptions, c: Core, t: Bytes): Core
  {
    EndValue(o, Emit(c, NumberEvent(NumberValue(t))))
  }

  lemma {:induction false} NumberRun(o: SaxOptions, c: Core, inp: Bytes, s: nat, i: nat)
    requires s <= i <= |inp| && Plain(o, inp)
    ensures Final(o, Go(c, InNumber(inp[s..i])), inp, i)
         == (var t := inp[s..NumberEnd(inp, i)];
             if ScanNumber(t, 0, |t|) == Some(|t|) then Final(o, NumberDone(o, c, t), inp, NumberEnd(inp, i))
             else Reject)
    decreases |inp| - i
  {
    hide Final, Step, ScanNumber, NumberValue;
    var n := Go(c, InNumber(inp[s..i]));
    if i < |inp| && IsNumberChar(inp[i]) {
      NumberRun(o, c, inp, s, i + 1);
      assert inp[s..i] + [inp[i]] == inp[s..i + 1];
      NumberGrows(o, n, inp, i);
    } else {
      NumberEnds(o, n, inp, i);
      ErrorRejects(o, Stop(n, InvalidNumber), inp, i);
      EndValueForgetsMode(o, Emit(c, NumberEvent(NumberValue(inp[s..i]))), n.mode);
    }
  }

  lemma NumberGrows(o: SaxOptions, c: Core, inp: Bytes, i: nat)
    requires i < |inp| && c.mode.InNumber? && IsNumberChar(inp[i]) && |c.mode.tok| < o.maxToken
    ensures Final(o, c, inp, i) == Final(o, Go(c, InNumber(c.mode.tok + [inp[i]])), inp, i + 1)
  {
    hide FinishNumber, StructureByte;
  }

  /** Processing the delimiter again is the same as being in the state after the number before reading it. */
  lemma NumberEnds(o: SaxOptions, c: Core, inp: Bytes, i: nat)
    requires i <= |inp| && c.mode.InNumber? && (i < |inp| ==> !IsNumberChar(inp[i]))
    ensures Final(o, c, inp, i) == Final(o, FinishNumber(o, c), inp, i)
  {
    hide ScanNumber, NumberValue, BeginValue, TokenByte;
    assert FinishNumber(o, c).mode.Error? || BetweenTokens(FinishNumber(o, c).mode);
  }

  // --- Values ---

  /** Byte i is handled between tokens, at every such state. */
  lemma StructureRun(o: SaxOptions, c: Core, inp: Bytes, i: nat)
    requires i <= |inp| && BetweenTokens(c.mode) && !o.multi
    ensures i < |inp| ==> Final(o, c, inp, i) == Final(o, StructureByte(o, c, inp[i]), inp, i + 1)
    ensures i == |inp| && !c.mode.Done? ==> Final(o, c, inp, i) == Reject
    ensures i == |inp| && c.mode.Done? ==> Final(o, c, inp, i) == Accept(c.events)
  {
  }

  function Add(c: Core, e: seq<Event>): Core { c.(events := c.events + e) }

  /** A number directly followed by a number character is one ill-formed token for the automaton. */
  predicate Glued(inp: Bytes, r: Parse<Json>)
    requires r.Ok? ==> r.pos <= |inp|
  {
    r.Ok? && r.value.Num? && r.pos < |inp| && IsNumberChar(inp[r.pos])
  }

  function AfterRead(o: SaxOptions, c: Core, inp: Bytes, r: Parse<Json>): Outcome
    requires r.Ok? ==> r.pos <= |inp|
  {
    if r.Fail? || Glued(inp, r) then Reject
    else Final(o, EndValue(o, Add(c, Preorder(r.value))), inp, r.pos)
  }

  predicate ExpectsValue(c: Core, inp: Bytes, i: nat)
    requires i <= |inp|
  {
    c.mode.InValue? ||
    (c.mode.ArrayFirst? && (SkipWs(inp, i) < |inp| ==> inp[SkipWs(inp, i)] != CLOSE_BRACKET))
  }

  lemma NumberTokenRun(o: SaxOptions, c: Core, inp: Bytes, i: nat)
    requires i < |inp| && Plain(o, inp) && (inp[i] == MINUS || IsDigit(inp[i]))
    ensures Final(o, BeginValue(o, c, inp[i]), inp, i + 1) == AfterRead(o, c, inp, ReadNumber(inp, i))
  {
    hide Step, Finish, ScanNumber, NumberValue;
    assert inp[i..i + 1] == [inp[i]];
    assert BeginValue(o, c, inp[i]) == Go(c, InNumber(inp[i..i + 1]));
    NumberRun(o, c, inp, i, i + 1);
    var e := NumberEnd(inp, i + 1);
    ScanNumberWithin(inp, i, e);
    ScanNumberShifted(inp, i, e);
    var r := ScanNumber(inp, i, |inp|);
    if r.Some? {
      assert r.value <= e;
      assert Add(c, Preorder(Num(NumberValue(inp[i..r.value])))) == Emit(c, NumberEvent(NumberValue(inp[i..r.value])));
    }
  }

  lemma WordRun(o: SaxOptions, c: Core, inp: Bytes, i: nat, word: Bytes, v: Json)
    requires i < |inp| && |word| > 1 && inp[i] == word[0]
    requires v == if word[0] == LOWER_N then Null else Bool(word[0] == LOWER_T)
    ensures Final(o, Go(c, InLiteral(word, 1)), inp, i + 1) == AfterRead(o, c, inp, ReadWord(inp, i, word, v))
  {
    hide Step, Finish;
    LiteralRun(o, c, word, 1, inp, i + 1);
    if i + |word| <= |inp| {
      assert inp[i..i + |word|] == [inp[i]] + inp[i + 1..i + |word|];
      assert word == [word[0]] + word[1..];
    }
  }

  lemma {:induction false} ValueRun(o: SaxOptions, c: Core, inp: Bytes, i: nat)
    requires i <= |inp| && Plain(o, inp) && ExpectsValue(c, inp, i)
    ensures Final(o, c, inp, i) == AfterRead(o, c, inp, ReadValue(inp, i, |c.stack|, o.maxDepth))
    decreases |inp| - i, 3
  {
    hide Step, Finish, ScanNumber, NumberValue, TokenByte;
    SkipsWs(o, c, inp, i);
    var j := SkipWs(inp, i);
    StructureRun(o, c, inp, j);
    if j < |inp| {
      assert StructureByte(o, c, inp[j]) == BeginValue(o, c, inp[j]);
      ValueBegun(o, c, inp, j);
    }
  }

  lemma {:induction false} ValueBegun(o: SaxOptions, c: Core, inp: Bytes, j: nat)
    requires j < |inp| && Plain(o, inp) && !IsWs(inp[j])
    ensures Final(o, BeginValue(o, c, inp[j]), inp, j + 1)
         == AfterRead(o, c, inp, ReadValue(inp, j, |c.stack|, o.maxDepth))
    decreases |inp| - j, 2
  {
    hide Step, Finish, ScanNumber, NumberValue, TokenByte, StructureByte, EndValue;
    var ch := inp[j];
    if ch == OPEN_BRACE {
      ObjectRun(o, c, inp, j);
    } else if ch == OPEN_BRACKET {
      ArrayRun(o, c, inp, j);
    } else if ch == QUOTE {
      StringRun(o, c, false, [], inp, j + 1);
      var s := ReadString(inp, j + 1);
      if s.Ok? {
        assert [] + s.value == s.value;
        EndValueForgetsMode(o, Emit(c, StringEvent(s.value)), NewString(false, s.value));
      }
    } else if ch == LOWER_T {
      WordRun(o, c, inp, j, TRUE_WORD, Bool(true));
    } else if ch == LOWER_F {
      WordRun(o, c, inp, j, FALSE_WORD, Bool(false));
    } else if ch == LOWER_N {
      WordRun(o, c, inp, j, NULL_WORD, Null);
    } else if ch == MINUS || IsDigit(ch) {
      NumberTokenRun(o, c, inp, j);
    }
  }

  /** Inside an open container of the given kind. */
  predicate Inside(c: Core, isObject: bool)
  {
    c.stack != [] && c.stack[|c.stack| - 1] == Frame(isObject, 0)
  }

  /** After the members or items of a container: the closing bracket has been read. */
  function AfterClose(o: SaxOptions, c: Core, isObject: bool, inp: Bytes, events: seq<Event>, pos: nat): Outcome
    requires pos <= |inp|
  {
    Final(o, Close(o, Add(c, events), isObject), inp, pos)
  }

  lemma {:induction false} ArrayRun(o: SaxOptions, c: Core, inp: Bytes, i: nat)
    requires i < |inp| && Plain(o, inp) && inp[i] == OPEN_BRACKET
    ensures Final(o, Push(o, c, false), inp, i + 1)
         == AfterRead(o, c, inp, ReadArray(inp, i, |c.stack|, o.maxDepth))
    decreases |inp| - i, 1
  {
    hide Step, Finish, ScanNumber, NumberValue, TokenByte, BeginValue, EndValue;
    var p := Push(o, c, false);
    if |c.stack| < o.maxDepth {
      var j := SkipWs(inp, i + 1);
      SkipsWs(o, p, inp, i + 1);
      if j < |inp| && inp[j] == CLOSE_BRACKET {
        StructureRun(o, p, inp, j);
        ClosedContainer(o, c, false, []);
        assert Add(p, []) == p;
      } else {
        ItemsRun(o, p, inp, j);
        var r := ReadItems(inp, j, |c.stack| + 1, o.maxDepth);
        if r.Ok? {
          ClosedContainer(o, c, false, PreorderItems(r.value));
        }
      }
    } else {
      ErrorRejects(o, p, inp, i + 1);
    }
  }

  lemma {:induction false} ItemsRun(o: SaxOptions, c: Core, inp: Bytes, i: nat)
    requires i <= |inp| && Plain(o, inp) && ExpectsValue(c, inp, i) && Inside(c, false)
    ensures Final(o, c, inp, i)
         == (var r := ReadItems(inp, i, |c.stack|, o.maxDepth);
             if r.Fail? then Reject else AfterClose(o, c, false, inp, PreorderItems(r.value), r.pos))
    decreases |inp| - i, 4
  {
    hide Final, ReadValue, Step, Finish, ScanNumber, NumberValue, TokenByte, BeginValue, Close;
    ValueRun(o, c, inp, i);
    var v := ReadValue(inp, i, |c.stack|, o.maxDepth);
    if v.Ok? && !Glued(inp, v) {
      var d := Go(Add(c, Preorder(v.value)), AfterValue);
      assert EndValue(o, Add(c, Preorder(v.value))) == d;
      SkipsWs(o, d, inp, v.pos);
      var j := SkipWs(inp, v.pos);
      StructureRun(o, d, inp, j);
      if j < |inp| && inp[j] == COMMA {
        ItemsRun(o, Go(d, InValue), inp, j + 1);
        var rest := ReadItems(inp, j + 1, |c.stack|, o.maxDepth);
        if rest.Ok? {
          MoreItems(o, c, v.value, rest.value);
        }
      } else if j < |inp| && inp[j] == CLOSE_BRACKET {
        OneItem(o, c, v.value);
      } else if j < |inp| && inp[j] == CLOSE_BRACE {
        WrongClose(o, d, true, inp, j + 1);
      } else if j < |inp| {
        ErrorRejects(o, Stop(d, UnexpectedChar), inp, j + 1);
      }
    }
  }

  lemma CloseForgetsMode(o: SaxOptions, c: Core, m: Mode, isObject: bool)
    requires Inside(c, isObject)
    ensures Close(o, Go(c, m), isObject) == Close(o, c, isObject)
  {
  }

  lemma WrongClose(o: SaxOptions, c: Core, isObject: bool, inp: Bytes, i: nat)
    requires i <= |inp| && Inside(c, !isObject)
    ensures Final(o, Close(o, c, isObject), inp, i) == Reject
  {
  }

  lemma OneItem(o: SaxOptions, c: Core, v: Json)
    requires Inside(c, false)
    ensures Close(o, Go(Add(c, Preorder(v)), AfterValue), false) == Close(o, Add(c, PreorderItems([v])), false)
  {
    assert PreorderItems([v]) == Preorder(v);
    CloseForgetsMode(o, Add(c, Preorder(v)), AfterValue, false);
  }

  lemma MoreItems(o: SaxOptions, c: Core, v: Json, rest: seq<Json>)
    requires Inside(c, false)
    ensures Close(o, Add(Go(Go(Add(c, Preorder(v)), AfterValue), InValue), PreorderItems(rest)), false)
         == Close(o, Add(c, PreorderItems([v] + rest)), false)
  {
    assert ([v] + rest)[1..] == rest;
    assert c.events + Preorder(v) + PreorderItems(rest) == c.events + (Preorder(v) + PreorderItems(rest));
    CloseForgetsMode(o, Add(c, PreorderItems([v] + rest)), InValue, false);
  }

  lemma {:induction false} ObjectRun(o: SaxOptions, c: Core, inp: Bytes, i: nat)
    requires i < |inp| && Plain(o, inp) && inp[i] == OPEN_BRACE
    ensures Final(o, Push(o, c, true), inp, i + 1)
         == AfterRead(o, c, inp, ReadObject(inp, i, |c.stack|, o.maxDepth))
    decreases |inp| - i, 1
  {
    hide Step, Finish, ScanNumber, NumberValue, TokenByte, BeginValue, EndValue;
    var p := Push(o, c, true);
    if |c.stack| < o.maxDepth {
      var j := SkipWs(inp, i + 1);
      SkipsWs(o, p, inp, i + 1);
      if j < |inp| && inp[j] == CLOSE_BRACE {
        StructureRun(o, p, inp, j);
        ClosedContainer(o, c, true, []);
        assert Add(p, []) == p;
      } else {
        MembersRun(o, p, inp, j);
        var r := ReadMembers(inp, j, |c.stack| + 1, o.maxDepth);
        if r.Ok? {
          ClosedContainer(o, c, true, PreorderMembers(r.value));
        }
      }
    } else {
      ErrorRejects(o, p, inp, i + 1);
    }
  }

  predicate ExpectsKey(c: Core, inp: Bytes, i: nat)
    requires i <= |inp|
  {
    c.mode.InKey? ||
    (c.mode.ObjectFirst? && (SkipWs(inp, i) < |inp| ==> inp[SkipWs(inp, i)] != CLOSE_BRACE))
  }

  lemma KeyRun(o: SaxOptions, c: Core, inp: Bytes, i: nat)
    requires i <= |inp| && Plain(o, inp) && ExpectsKey(c, inp, i)
    ensures Final(o, c, inp, i)
         == (var r := ReadKey(inp, i);
             if r.Fail? then Reject else Final(o, Go(Emit(c, KeyEvent(r.value)), InValue), inp, r.pos))
  {
    hide Step, Finish, ScanNumber, NumberValue, TokenByte, BeginValue, Close, ReadString;
    SkipsWs(o, c, inp, i);
    var j := SkipWs(inp, i);
    StructureRun(o, c, inp, j);
    if j < |inp| && inp[j] == QUOTE {
      StringRun(o, c, true, [], inp, j + 1);
      var key := ReadString(inp, j + 1);
      if key.Ok? {
        assert [] + key.value == key.value;
        var d := Go(Emit(c, KeyEvent(key.value)), InColon);
        SkipsWs(o, d, inp, key.pos);
        var k := SkipWs(inp, key.pos);
        StructureRun(o, d, inp, k);
        if k < |inp| && inp[k] != COLON {
          ErrorRejects(o, Stop(d, UnexpectedChar), inp, k + 1);
        }
      }
    } else if j < |inp| {
      ErrorRejects(o, Stop(c, UnexpectedChar), inp, j + 1);
    }
  }

  lemma {:induction false} MembersRun(o: SaxOptions, c: Core, inp: Bytes, i: nat)
    requires i <= |inp| && Plain(o, inp) && ExpectsKey(c, inp, i) && Inside(c, true)
    ensures Final(o, c, inp, i)
         == (var r := ReadMembers(inp, i, |c.stack|, o.maxDepth);
             if r.Fail? then Reject else AfterClose(o, c, true, inp, PreorderMembers(r.value), r.pos))
    decreases |inp| - i, 4
  {
    hide Final, ReadValue, Step, Finish, ScanNumber, NumberValue, TokenByte, BeginValue, Close, ReadString, ReadKey;
    KeyRun(o, c, inp, i);
    var key := ReadKey(inp, i);
    if key.Ok? {
      var e := Go(Emit(c, KeyEvent(key.value)), InValue);
      ValueRun(o, e, inp, key.pos);
      var v := ReadValue(inp, key.pos, |c.stack|, o.maxDepth);
      if v.Ok? && !Glued(inp, v) {
        var d := Go(Add(e, Preorder(v.value)), AfterValue);
        assert EndValue(o, Add(e, Preorder(v.value))) == d;
        SkipsWs(o, d, inp, v.pos);
        var j := SkipWs(inp, v.pos);
        StructureRun(o, d, inp, j);
        if j < |inp| && inp[j] == COMMA {
          MembersRun(o, Go(d, InKey), inp, j + 1);
          var rest := ReadMembers(inp, j + 1, |c.stack|, o.maxDepth);
          if rest.Ok? {
            MoreMembers(o, c, Member(key.value, v.value), rest.value);
          }
        } else if j < |inp| && inp[j] == CLOSE_BRACE {
          OneMember(o, c, Member(key.value, v.value));
        } else if j < |inp| && inp[j] == CLOSE_BRACKET {
          WrongClose(o, d, false, inp, j + 1);
        } else if j < |inp| {
          ErrorRejects(o, Stop(d, UnexpectedChar), inp, j + 1);
        }
      }
    }
  }

  /** The state after a member of an object. */
  function MemberRead(c: Core, m: Member): Core
  {
    Go(Add(Go(Emit(c, KeyEvent(m.key)), InValue), Preorder(m.value)), AfterValue)
  }

  lemma OneMember(o: SaxOptions, c: Core, m: Member)
    requires Inside(c, true)
    ensures Close(o, MemberRead(c, m), true) == Close(o, Add(c, PreorderMembers([m])), true)
  {
    assert PreorderMembers([m]) == [KeyEvent(m.key)] + Preorder(m.value);
    assert c.events + [KeyEvent(m.key)] + Preorder(m.value) == c.events + ([KeyEvent(m.key)] + Preorder(m.value));
    CloseForgetsMode(o, Add(c, PreorderMembers([m])), AfterValue, true);
  }

  lemma MoreMembers(o: SaxOptions, c: Core, m: Member, rest: seq<Member>)
    requires Inside(c, true)
    ensures Close(o, Add(Go(MemberRead(c, m), InKey), PreorderMembers(rest)), true)
         == Close(o, Add(c, PreorderMembers([m] + rest)), true)
  {
    assert ([m] + rest)[1..] == rest;
    var head := [KeyEvent(m.key)] + Preorder(m.value);
    assert c.events + [KeyEvent(m.key)] + Preorder(m.value) + PreorderMembers(rest)
        == c.events + (head + PreorderMembers(rest));
    CloseForgetsMode(o, Add(c, PreorderMembers([m] + rest)), InKey, true);
  }

  /** Pushing a container, emitting its contents and closing it is ending one value. */
  lemma ClosedContainer(o: SaxOptions, c: Core, isObject: bool, events: seq<Event>)
    requires |c.stack| < o.maxDepth && o.maxElements == 0
    ensures Close(o, Add(Push(o, c, isObject), events), isObject)
         == EndValue(o, Add(c, [if isObject then ObjectStart else ArrayStart] + events
                             + [if isObject then ObjectEnd else ArrayEnd]))
  {
    hide EndValue;
    var open := if isObject then ObjectStart else ArrayStart;
    var shut := if isObject then ObjectEnd else ArrayEnd;
    var p := Add(Push(o, c, isObject), events);
    assert p.events + [shut] == c.events + ([open] + events + [shut]);
    assert p.stack[..|c.stack|] == c.stack;
    EndValueForgetsMode(o, Add(c, [open] + events + [shut]), p.mode);
  }

  // --- Documents ---

  lemma {:induction false} FeedIsFinal(o: SaxOptions, s: Sax, inp: Bytes, i: nat)
    requires i <= |inp| && (s.core.mode.Error? || s.bom < s.offset || s.offset >= 3)
    ensures Verdict(o, Feed(o, s, inp[i..]).core) == Final(o, s.core, inp, i)
    decreases |inp| - i
  {
    hide Step, Finish;
    if s.core.mode.Error? {
      ErrorRejects(o, s.core, inp, i);
      StoppedRejects(o, s.core);
    } else if i < |inp| {
      assert inp[i..][0] == inp[i] && inp[i..][1..] == inp[i + 1..];
      FeedIsFinal(o, SaxStep(o, s, inp[i]), inp, i + 1);
    }
  }

  lemma StoppedRejects(o: SaxOptions, c: Core)
    requires c.mode.Error?
    ensures Verdict(o, c) == Reject
  {
  }

  lemma CoreAgrees(o: SaxOptions, inp: Bytes, i: nat)
    requires i <= |inp| && Plain(o, inp)
    ensures Final(o, Start, inp, i)
         == (var v := ReadValue(inp, i, 0, o.maxDepth);
             if v.Fail? || SkipWs(inp, v.pos) < |inp| then Reject else Accept(Preorder(v.value) + [DocumentEnd]))
  {
    hide Step, Finish, ReadValue, Final;
    ValueRun(o, Start, inp, i);
    var v := ReadValue(inp, i, 0, o.maxDepth);
    if v.Ok? {
      var d := EndValue(o, Add(Start, Preorder(v.value)));
      assert d == Core(Done, [], Preorder(v.value) + [DocumentEnd], 1);
      SkipsWs(o, d, inp, v.pos);
      var j := SkipWs(inp, v.pos);
      StructureRun(o, d, inp, j);
      if j < |inp| {
        ErrorRejects(o, Stop(d, TrailingData), inp, j + 1);
      }
    }
  }

  /** Feeding the whole text to a fresh automaton and finishing. */
  function Streaming(o: SaxOptions, inp: Bytes): Outcome { Verdict(o, Feed(o, Fresh, inp).core) }

  /** What the parser says of the same text. */
  function Parsing(inp: Bytes, max: nat): Outcome
  {
    var v := ReadDocument(inp, max);
    if v.None? then Reject else Accept(Preorder(v.value) + [DocumentEnd])
  }

  lemma BomBytes(inp: Bytes)
    ensures BomLength(inp) == 3 <==> |inp| >= 3 && inp[0] == 0xEF && inp[1] == 0xBB && inp[2] == 0xBF
  {
    if |inp| >= 3 {
      assert inp[..3] == [inp[0], inp[1], inp[2]];
    }
  }

  /** After a complete byte order mark the automaton is where it started, three bytes on. */
  lemma AfterBom(o: SaxOptions, inp: Bytes)
    requires |inp| >= 3 && inp[..3] == BOM
    ensures Feed(o, Fresh, inp) == Feed(o, Sax(Start, 3, 3, 1, 1), inp[3..])
  {
    hide Step;
    BomBytes(inp);
    var one, two := Sax(Start, 1, 1, 1, 1), Sax(Start, 2, 2, 1, 1);
    assert Feed(o, Fresh, inp) == Feed(o, one, inp[1..]);
    assert inp[1..][1..] == inp[2..] && inp[2..][1..] == inp[3..];
    assert Feed(o, one, inp[1..]) == Feed(o, two, inp[2..]);
  }

  /** A truncated byte order mark is rejected. */
  lemma {:induction false} TruncatedBom(o: SaxOptions, s: Sax, inp: Bytes, k: nat)
    requires !o.multi && 1 <= k <= 2 && k <= |inp| && s == Sax(Start, k, k, 1, 1)
    requires inp[0] == 0xEF && (k == 2 ==> inp[1] == 0xBB)
    requires |inp| >= 3 && inp[1] == 0xBB ==> inp[2] != 0xBF
    ensures Verdict(o, Feed(o, s, inp[k..]).core) == Reject
    decreases 3 - k
  {
    hide Step;
    if k < |inp| {
      assert inp[k..][0] == inp[k] && inp[k..][1..] == inp[k + 1..];
      if inp[k] == BomByte(k) {
        TruncatedBom(o, Sax(Start, k + 1, k + 1, 1, 1), inp, k + 1);
      } else {
        StoppedRejects(o, SaxStep(o, s, inp[k]).core);
      }
    }
  }

  /** Without limits of its own the automaton accepts exactly what the parser accepts, and its events are the preorder
      traversal of the tree the parser builds. */
  lemma PlainIsParsing(o: SaxOptions, inp: Bytes)
    requires Plain(o, inp)
    ensures Streaming(o, inp) == Parsing(inp, o.maxDepth)
  {
    hide Step, Finish;
    if |inp| >= 3 && inp[..3] == BOM {
      AfterBom(o, inp);
      FeedIsFinal(o, Sax(Start, 3, 3, 1, 1), inp, 3);
      CoreAgrees(o, inp, 3);
    } else if |inp| > 0 && inp[0] == 0xEF {
      BomBytes(inp);
      TruncatedBom(o, Sax(Start, 1, 1, 1, 1), inp, 1);
    } else {
      CoreAgrees(o, inp, 0);
      if |inp| > 0 {
        var t := SaxStep(o, Fresh, inp[0]);
        assert t == Advance(Fresh, Step(o, Start, inp[0]), inp[0]);
        FeedIsFinal(o, t, inp, 1);
      }
    }
  }

  // --- Chunks ---

  /** Feeding a stream in two chunks is feeding it whole: same state, events and error position. */
  lemma {:induction false} FeedChunks(o: SaxOptions, s: Sax, a: Bytes, b: Bytes)
    ensures Feed(o, Feed(o, s, a), b) == Feed(o, s, a + b)
    decreases |a|
  {
    hide SaxStep;
    if a == [] {
      assert [] + b == b;
    } else if !s.core.mode.Error? {
      assert (a + b)[0] == a[0] && (a + b)[1..] == a[1..] + b;
      FeedChunks(o, SaxStep(o, s, a[0]), a[1..], b);
    }
  }

  // --- Limits ---

  function TokenLength(m: Mode): nat
  {
    match m
    case InString(_, tok, _, _, _, _) => |tok|
    case InEscape(_, tok, _) => |tok|
    case InUnicode(_, tok, _, _, _) => |tok|
    case InNumber(tok) => |tok|
    case _ => 0
  }

  predicate Bounded(o: SaxOptions, c: Core) { |c.stack| <= o.maxDepth && TokenLength(c.mode) <= o.maxToken }

  lemma EndValueBounded(o: SaxOptions, c: Core)
    requires |c.stack| <= o.maxDepth
    ensures Bounded(o, EndValue(o, c)) && |EndValue(o, c).stack| == |c.stack|
  {
  }

  lemma BeginBounded(o: SaxOptions, c: Core, ch: byte)
    requires |c.stack| <= o.maxDepth
    ensures Bounded(o, BeginValue(o, c, ch))
  {
    hide IsDigit;
  }

  lemma CloseBounded(o: SaxOptions, c: Core, isObject: bool)
    requires |c.stack| <= o.maxDepth
    ensures Bounded(o, Close(o, c, isObject))
  {
    hide EndValue;
    if c.stack != [] {
      EndValueBounded(o, Emit(c.(stack := c.stack[..|c.stack| - 1]), if isObject then ObjectEnd else ArrayEnd));
    }
  }

  lemma StructureBounded(o: SaxOptions, c: Core, ch: byte)
    requires Bounded(o, c)
    ensures Bounded(o, StructureByte(o, c, ch))
  {
    hide BeginValue, Close, IsWs;
    BeginBounded(o, c, ch);
    CloseBounded(o, c, true);
    CloseBounded(o, c, false);
  }

  lemma NumberBounded(o: SaxOptions, c: Core)
    requires Bounded(o, c) && c.mode.InNumber?
    ensures Bounded(o, FinishNumber(o, c))
  {
    hide EndValue, ScanNumber, NumberValue;
    EndValueBounded(o, Emit(c, NumberEvent(NumberValue(c.mode.tok))));
  }

  lemma StringBounded(o: SaxOptions, c: Core, ch: byte)
    requires Bounded(o, c) && c.mode.InString?
    ensures Bounded(o, StringByte(o, c, ch))
  {
    hide EndValue, LeadOf;
    EndValueBounded(o, Emit(c, StringEvent(c.mode.tok)));
  }

  lemma EscapesBounded(o: SaxOptions, c: Core, ch: byte)
    requires Bounded(o, c)
    ensures c.mode.InEscape? ==> Bounded(o, EscapeByte(o, c, ch))
    ensures c.mode.InUnicode? ==> Bounded(o, UnicodeByte(o, c, ch))
  {
    hide SimpleEscape, HexDigit, Utf8Encode;
  }

  lemma LiteralBounded(o: SaxOptions, c: Core, ch: byte)
    requires Bounded(o, c) && c.mode.InLiteral?
    ensures Bounded(o, LiteralByte(o, c, ch))
  {
    hide EndValue;
    EndValueBounded(o, Emit(c, NullEvent));
    EndValueBounded(o, Emit(c, BoolEvent(c.mode.word != [] && c.mode.word[0] == LOWER_T)));
  }

  lemma StepBounded(o: SaxOptions, c: Core, ch: byte)
    requires Bounded(o, c)
    ensures Bounded(o, Step(o, c, ch))
  {
    hide StructureByte, StringByte, EscapeByte, UnicodeByte, LiteralByte, FinishNumber, IsNumberChar;
    if BetweenTokens(c.mode) {
      StructureBounded(o, c, ch);
    } else if c.mode.InNumber? && !IsNumberChar(ch) {
      NumberBounded(o, c);
      StructureBounded(o, FinishNumber(o, c), ch);
    } else {
      EscapesBounded(o, c, ch);
      match c.mode
      case InString(_, _, _, _, _, _) => StringBounded(o, c, ch);
      case InLiteral(_, _) => LiteralBounded(o, c, ch);
      case _ =>
    }
  }

  /** Whatever is fed, the stack never exceeds the depth limit, nor the token its size limit. */
  lemma {:induction false} FeedBounded(o: SaxOptions, s: Sax, data: Bytes)
    requires Bounded(o, s.core)
    ensures Bounded(o, Feed(o, s, data).core)
    decreases |data|
  {
    hide Step;
    if data != [] && !s.core.mode.Error? {
      StepBounded(o, s.core, data[0]);
      FeedBounded(o, SaxStep(o, s, data[0]), data[1..]);
    }
  }
}
