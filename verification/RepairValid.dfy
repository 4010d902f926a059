/** Every literal the repairer writes is well formed. */
module RepairLiterals {
  import opened Bytes
  import opened Texts
  import opened Options
  import opened Scan
  import opened Decimal
  import opened NumberScan
  import opened SerializerSpec
  import opened Structure
  import opened RawTree
  import opened RepairSpec

  /** Whole string characters: plain bytes and complete escapes. */
  predicate Chars(t: Bytes)
  {
    if t == [] then true
    else if t[0] == BACKSLASH then
      || (|t| >= 2 && SimpleEscape(t[1]).Some? && Chars(t[2..]))
      || (|t| >= 6 && t[1] == LOWER_U && Hex4(t, 2) >= 0 && Chars(t[6..]))
    else t[0] >= 0x20 && t[0] != QUOTE && Chars(t[1..])
  }

  lemma {:induction false} CharsJoin(a: Bytes, b: Bytes)
    requires Chars(a) && Chars(b)
    ensures Chars(a + b)
    decreases |a|
  {
    hide SimpleEscape;
    if a == [] {
      assert a + b == b;
    } else if a[0] == BACKSLASH {
      if |a| >= 2 && SimpleEscape(a[1]).Some? && Chars(a[2..]) {
        CharsJoin(a[2..], b);
        assert (a + b)[2..] == a[2..] + b;
      } else {
        CharsJoin(a[6..], b);
        assert (a + b)[6..] == a[6..] + b;
      }
    } else {
      CharsJoin(a[1..], b);
      assert (a + b)[1..] == a[1..] + b;
    }
  }

  /** Whole characters between quotes are a literal. */
  lemma {:induction false} CharsEnd(t: Bytes, inp: Bytes, p: nat)
    requires Chars(t) && Holds(inp, p, t + [QUOTE])
    ensures p <= |inp| && StringEnd(inp, p) == Some(p + |t| + 1)
    decreases |t|
  {
    hide SimpleEscape, Hex4;
    HoldsFits(inp, p, t + [QUOTE]);
    if t == [] {
      assert inp[p] == (t + [QUOTE])[0];
    } else {
      assert inp[p] == (t + [QUOTE])[0];
      if t[0] == BACKSLASH {
        assert inp[p + 1] == (t + [QUOTE])[1];
        if SimpleEscape(t[1]).Some? && Chars(t[2..]) {
          HoldsRest(inp, p, t, 2);
          CharsEnd(t[2..], inp, p + 2);
        } else {
          HoldsRest(inp, p, t, 6);
          HexAgrees(t, inp, p);
          UIsNoShortEscape();
          CharsEnd(t[6..], inp, p + 6);
        }
      } else {
        HoldsRest(inp, p, t, 1);
        CharsEnd(t[1..], inp, p + 1);
      }
    }
  }

  lemma UIsNoShortEscape()
    ensures SimpleEscape(LOWER_U).None?
  {
  }

  lemma HoldsRest(inp: Bytes, p: nat, t: Bytes, k: nat)
    requires Holds(inp, p, t + [QUOTE]) && k <= |t|
    ensures Holds(inp, p + k, t[k..] + [QUOTE])
  {
    assert t + [QUOTE] == t[..k] + (t[k..] + [QUOTE]);
    HoldsParts(inp, p, t[..k], t[k..] + [QUOTE]);
  }

  lemma HexAgrees(t: Bytes, inp: Bytes, p: nat)
    requires |t| >= 6 && Holds(inp, p, t + [QUOTE])
    ensures p + 6 <= |inp| && Hex4(inp, p + 2) == Hex4(t, 2)
  {
    HoldsFits(inp, p, t + [QUOTE]);
    assert forall k :: 0 <= k < 6 ==> (t + [QUOTE])[k] == t[k];
  }

  lemma QuotedIsLiteral(t: Bytes)
    requires Chars(t)
    ensures IsLiteral([QUOTE] + t + [QUOTE])
  {
    var w := [QUOTE] + t + [QUOTE];
    assert w[1..1 + |t| + 1] == t + [QUOTE];
    CharsEnd(t, w, 1);
  }

  // --- Copied literals ---

  predicate IsQuote(c: byte) { c == QUOTE || c == APOSTROPHE || c == BACKTICK }

  /** The characters that an escape sequence is copied as. */
  lemma EscapeChars(inp: Bytes, c: Core, quote: byte) returns (t: Bytes)
    requires c.pos < |inp| && inp[c.pos] == BACKSLASH && IsQuote(quote)
    ensures Chars(t) && CopyEscape(inp, c, quote).out == c.out + t
  {
    var p := c.pos;
    hide Hex4, SimpleEscape;
    t := [];
    NothingMore(c.out);
    if |inp| - p >= 2 {
      var n := inp[p + 1];
      if SimpleEscape(n).Some? {
        t := [BACKSLASH, n];
        PairChars(n);
      } else if n == LOWER_U && |inp| - p >= 6 && Hex4(inp, p + 2) >= 0 {
        t := inp[p..p + 6];
        SixChars(inp, p);
      } else if n == quote {
        t := [n];
        QuoteChars(n);
      } else if n != NEWLINE {
        t := [BACKSLASH, BACKSLASH];
        BackslashChars();
      }
    }
  }

  lemma PairChars(n: byte)
    requires SimpleEscape(n).Some?
    ensures Chars([BACKSLASH, n])
  {
    assert [BACKSLASH, n][2..] == [];
  }

  lemma BackslashChars()
    ensures Chars([BACKSLASH, BACKSLASH])
  {
    PairChars(BACKSLASH);
  }

  lemma QuoteChars(n: byte)
    requires IsQuote(n) && SimpleEscape(n).None?
    ensures Chars([n])
  {
    PlainChars(n);
  }

  lemma PlainChars(n: byte)
    requires n >= 0x20 && n != QUOTE && n != BACKSLASH
    ensures Chars([n])
  {
    assert [n][1..] == [];
  }

  lemma SixChars(inp: Bytes, p: nat)
    requires p + 6 <= |inp| && inp[p] == BACKSLASH && inp[p + 1] == LOWER_U && Hex4(inp, p + 2) >= 0
    ensures Chars(inp[p..p + 6])
  {
    var t := inp[p..p + 6];
    assert t[6..] == [];
    assert Hex4(t, 2) == Hex4(inp, p + 2);
  }

  lemma UnitChars(u: nat)
    requires u < 0x10000
    ensures Chars(UnitEscape(u))
  {
    var t := UnitEscape(u);
    assert t[6..] == [];
  }

  lemma ShortChars(c: byte)
    requires c < 0x80 && (c < 0x20 || c == QUOTE || c == BACKSLASH)
    ensures Chars(ShortEscape(c))
  {
    hide UnitEscape, Chars, SimpleEscape;
    ShortIsPair(c);
    UnitChars(c);
    forall n: byte | SimpleEscape(n).Some? ensures Chars([BACKSLASH, n]) { PairChars(n); }
  }

  lemma ShortIsPair(c: byte)
    requires c < 0x80
    ensures ShortEscape(c) == UnitEscape(c)
         || exists n: byte :: SimpleEscape(n).Some? && ShortEscape(c) == [BACKSLASH, n]
  {
    hide UnitEscape;
    var t := ShortEscape(c);
    if t != UnitEscape(c) {
      assert t == [BACKSLASH, t[1]] && SimpleEscape(t[1]).Some?;
    }
  }

  /** However garbled the source, what is copied is whole characters and a closing quote. */
  lemma {:induction false} CopyChars(inp: Bytes, c: Core, quote: byte) returns (t: Bytes)
    requires c.pos <= |inp| && IsQuote(quote)
    ensures Chars(t) && CopyString(inp, c, quote).out == c.out + (t + [QUOTE])
    decreases |inp| - c.pos
  {
    hide Chars, ShortEscape, CopyEscape;
    var p := c.pos;
    if p >= |inp| || inp[p] == quote {
      NoChars();
      NothingBefore([QUOTE]);
      t := [];
    } else if inp[p] == BACKSLASH {
      var head := EscapeChars(inp, c, quote);
      var tail := CopyChars(inp, CopyEscape(inp, c, quote), quote);
      t := Joined(c.out, head, tail);
    } else if inp[p] == QUOTE {
      BackslashQuote();
      var tail := CopyChars(inp, Emit(c, [BACKSLASH, QUOTE]).(pos := p + 1), quote);
      t := Joined(c.out, [BACKSLASH, QUOTE], tail);
    } else if inp[p] < 0x20 {
      ShortChars(inp[p]);
      var tail := CopyChars(inp, Emit(Fix(c, EscapeSyntax), ShortEscape(inp[p])).(pos := p + 1), quote);
      t := Joined(c.out, ShortEscape(inp[p]), tail);
    } else {
      PlainChars(inp[p]);
      var tail := CopyChars(inp, Emit(c, [inp[p]]).(pos := p + 1), quote);
      t := Joined(c.out, [inp[p]], tail);
    }
  }

  lemma NoChars()
    ensures Chars([])
  {
  }

  lemma BackslashQuote()
    ensures Chars([BACKSLASH, QUOTE])
  {
    PairChars(QUOTE);
  }

  lemma Joined(out: Bytes, head: Bytes, tail: Bytes) returns (t: Bytes)
    requires Chars(head) && Chars(tail)
    ensures Chars(t) && out + head + (tail + [QUOTE]) == out + (t + [QUOTE])
  {
    hide Chars;
    t := head + tail;
    CharsJoin(head, tail);
    Associates(out, head, tail + [QUOTE]);
    Associates(head, tail, [QUOTE]);
  }

  lemma CopiedLiteral(inp: Bytes, c: Core) returns (t: Bytes)
    requires c.pos < |inp| && IsQuote(inp[c.pos])
    ensures IsLiteral(t) && CopyLiteral(inp, c).out == c.out + t
  {
    hide Chars, CopyString, IsLiteral;
    var quote := inp[c.pos];
    var d := Emit(if quote != QUOTE then Fix(c, Quotes) else c, [QUOTE]).(pos := c.pos + 1);
    var body := CopyChars(inp, d, quote);
    QuotedIsLiteral(body);
    t := [QUOTE] + body + [QUOTE];
    Associates(c.out, [QUOTE], body + [QUOTE]);
    Associates([QUOTE], body, [QUOTE]);
  }

  // --- Printed literals ---

  lemma {:induction false} BodyChars(s: Bytes, i: nat)
    requires i <= |s|
    ensures Chars(StringBody(s, i, false))
    decreases |s| - i
  {
    hide Chars, ShortEscape;
    if i == |s| || s[i] == 0 {
      NoChars();
    } else {
      BodyChars(s, i + 1);
      if PlainByte(s[i], false) {
        PlainChars(s[i]);
        CharsJoin([s[i]], StringBody(s, i + 1, false));
      } else {
        ShortChars(s[i]);
        CharsJoin(ShortEscape(s[i]), StringBody(s, i + 1, false));
      }
    }
  }

  lemma PrintedLiteral(s: Bytes)
    ensures IsLiteral(PrintString(s, false))
  {
    hide Chars, StringBody, IsLiteral;
    BodyChars(s, 0);
    QuotedIsLiteral(StringBody(s, 0, false));
  }

  lemma LiteralIsAtom(t: Bytes)
    requires IsLiteral(t)
    ensures IsAtom(t)
  {
  }

  lemma WordAtom(c: Core, w: Bytes) returns (t: Bytes)
    ensures IsAtom(t) && WordValue(c, w).out == c.out + t
  {
    hide IsLiteral, PrintString, IsNumberText;
    PrintedLiteral(w);
    t := if w == TRUE_WORD || w == FALSE_WORD || w == NULL_WORD then w
         else if w in TRUE_SPELLINGS then TRUE_WORD
         else if w in FALSE_SPELLINGS then FALSE_WORD
         else if w in NULL_SPELLINGS then NULL_WORD
         else PrintString(w, false);
  }

  lemma NumberAtom(c: Core, w: Bytes) returns (t: Bytes)
    ensures IsAtom(t) && RepairNumber(c, w).out == c.out + t
  {
    hide IsLiteral, PrintString, IsNumberText, HexToken, Normalized, DecimalText;
    PrintedLiteral(w);
    var signed := w != [] && (w[0] == PLUS || w[0] == MINUS);
    var neg := signed && w[0] == MINUS;
    var q := if signed then 1 else 0;
    var hex := HexToken(w, q);
    var norm := Normalized(w, q, neg);
    if hex.Some? { SignedScans(neg, hex.value); }
    t := if w[q..] == INFINITY then NULL_WORD
         else if hex.Some? then (if neg then [MINUS] else []) + DecimalText(hex.value)
         else if norm != [] && IsNumberText(norm) then norm
         else PrintString(w, false);
  }
}

/** The repaired text is structurally valid exactly when the depth cap did not cut an array off after a comma. */
module RepairValid {
  import opened Bytes
  import opened Options
  import opened Scan
  import opened Structure
  import opened RawTree
  import opened RawSqueeze
  import opened RepairSpec
  import opened RepairShape
  import opened RepairLiterals
  import RepairTidy
  import RepairAccepts

  /** The run met the depth cap where an array had its next comma written already. */
  predicate CutAfterComma(c: Core)
  {
    c.stop && c.frames != [] && c.out != [] && c.out[|c.out| - 1] == COMMA
  }

  /** Between steps the shape matches, unless the cap has just cut a value off. */
  predicate Shaped(c: Core, s: Shape, max: nat)
  {
    if CutAfterComma(c) then Poised(c, s.opens, max) && !Top(c).isObject else Matches(c, s, max)
  }

  // --- Values ---

  lemma ValueStep(v: Core, os: seq<Open>, d: Core, t: Bytes, max: nat) returns (s: Shape)
    requires Poised(v, os, max) && IsAtom(t) && d.out == v.out + t && d.frames == v.frames && d.topDone == v.topDone
    ensures Matches(ValueDone(d), s, max)
  {
    hide OpensFit, ParentsOk, Parents, IsAtom, Matches, Complete;
    FitsAtom(t, max - |os|) by { OpensBound(os, max); }
    OpensBound(os, max);
    KeysWait(v.frames, os);
    Completes(d, os, Atom(t), max);
    s := Complete(os, Atom(t));
  }

  lemma OpensBound(os: seq<Open>, max: nat)
    requires OpensFit(os, max)
    ensures |os| <= max
  {
  }

  lemma FitsAtom(t: Bytes, room: nat)
    requires IsAtom(t)
    ensures Fits(Atom(t), room) && Render(Atom(t)) == t
  {
  }

  lemma StopsUnchanged(c: Core, s: Shape, max: nat)
    requires Matches(c, s, max) && !c.stop && PrepareValue(c).stop
    ensures Matches(PrepareValue(c), s, max) && PrepareValue(c).frames == []
  {
    hide Fits, Render, TopOk, OpensFit, ParentsOk, Parents, TopText;
  }

  lemma StringShape(inp: Bytes, c: Core, s: Shape, max: nat) returns (t: Shape)
    requires c.pos < |inp| && IsQuote(inp[c.pos]) && Matches(c, s, max) && !c.stop
    ensures Matches(StringStep(inp, c), t, max) && (StringStep(inp, c).stop ==> StringStep(inp, c).frames == [])
  {
    hide Matches, CopyLiteral, PrepareValue, PrepareKey, ValueDone, IsLiteral, Poised;
    if AtKeyPosition(c) {
      var key := CopiedLiteral(inp, PrepareKey(c));
      KeyKeeps(c);
      t := Keys(c, s, StringStep(inp, c), key, max);
    } else if PrepareValue(c).stop {
      StopsUnchanged(c, s, max);
      t := s;
    } else {
      var v := PrepareValue(c);
      var os := Prepares(c, s, max);
      var text := CopiedLiteral(inp, v);
      LiteralIsAtom(text);
      t := ValueStep(v, os, CopyLiteral(inp, v), text, max);
    }
  }

  lemma KeyKeeps(c: Core)
    requires c.frames != []
    ensures PrepareKey(c).topDone == c.topDone
  {
  }

  lemma BareKeyShape(c: Core, w: Bytes, s: Shape, max: nat) returns (t: Shape)
    requires AtKeyPosition(c) && Matches(c, s, max)
    ensures Matches(BareKey(c, w), t, max)
  {
    hide Matches, PrepareKey, IsLiteral;
    PrintedLiteral(w);
    KeyKeeps(c);
    t := Keys(c, s, BareKey(c, w), SerializerSpec.PrintString(w, false), max);
  }

  lemma MovesOn(c: Core, s: Shape, p: nat, max: nat)
    requires Matches(c, s, max)
    ensures Matches(c.(pos := p), s, max) && AtKeyPosition(c.(pos := p)) == AtKeyPosition(c)
  {
    SameMatches(c, c.(pos := p), s, max);
  }

  lemma WordShape(inp: Bytes, c: Core, s: Shape, max: nat) returns (t: Shape)
    requires c.pos < |inp| && IsWordStart(inp[c.pos]) && Matches(c, s, max) && !c.stop
    ensures Matches(WordStep(inp, c), t, max) && (WordStep(inp, c).stop ==> WordStep(inp, c).frames == [])
  {
    hide Matches, PrepareValue, ValueDone, BareKey, WordValue, Poised, IsWordStart, IsAtom, AtKeyPosition;
    var e := WordEnd(inp, c.pos);
    var w, d := inp[c.pos..e], c.(pos := e);
    MovesOn(c, s, e, max);
    if AtKeyPosition(d) {
      t := BareKeyShape(d, w, s, max);
    } else if PrepareValue(d).stop {
      StopsUnchanged(d, s, max);
      t := s;
    } else {
      var v := PrepareValue(d);
      var os := Prepares(d, s, max);
      var text := WordAtom(v, w);
      t := ValueStep(v, os, WordValue(v, w), text, max);
    }
  }

  lemma NumberShape(inp: Bytes, c: Core, s: Shape, max: nat) returns (t: Shape)
    requires c.pos < |inp| && IsNumberStart(inp[c.pos]) && Matches(c, s, max) && !c.stop
    ensures Matches(NumberStep(inp, c), t, max) && (NumberStep(inp, c).stop ==> NumberStep(inp, c).frames == [])
  {
    hide Matches, PrepareValue, ValueDone, BareKey, RepairNumber, Poised, IsNumberStart, IsAtom, AtKeyPosition,
         IsNumberText;
    var e := NumberEnd(inp, c.pos);
    var w, d := inp[c.pos..e], c.(pos := e);
    MovesOn(c, s, e, max);
    if AtKeyPosition(d) {
      t := BareKeyShape(d, w, s, max);
    } else if PrepareValue(d).stop {
      StopsUnchanged(d, s, max);
      t := s;
    } else {
      var v := PrepareValue(d);
      var os := Prepares(d, s, max);
      if IsNumberText(w) {
        NumberIsAtom(w);
        t := ValueStep(v, os, Emit(v, w), w, max);
      } else {
        var text := NumberAtom(v, w);
        t := ValueStep(v, os, RepairNumber(v, w), text, max);
      }
    }
  }

  lemma NumberIsAtom(t: Bytes)
    requires IsNumberText(t)
    ensures IsAtom(t)
  {
  }

  // --- Containers and the depth cap ---

  /** What the parents' text ends with says what the innermost container is and whether it has items. */
  lemma PoisedEnds(c: Core, os: seq<Open>, max: nat)
    requires Poised(c, os, max) && c.frames != []
    ensures c.out != []
    ensures var o := os[|os| - 1];
            c.out[|c.out| - 1] == if o.OpenRecord? then COLON else if o.items == [] then OPEN_BRACKET else COMMA
    ensures Top(c).isObject == os[|os| - 1].OpenRecord?
  {
    hide RenderItems, RenderMembers, OpenFits;
    var n := |os| - 1;
    var o := os[n];
    assert c.out == Parents(os[..n]) + BeforeValue(o);
    BeforeEnds(o);
  }

  lemma BeforeEnds(o: Open)
    ensures var t := BeforeValue(o);
            t != [] && t[|t| - 1] == if o.OpenRecord? then COLON else if o.items == [] then OPEN_BRACKET else COMMA
  {
    hide RenderMembers;
    if o.OpenList? && o.items == [] {
      assert RenderItems(o.items) == [];
      assert BeforeValue(o) == [OPEN_BRACKET];
    }
  }

  /** A container that the cap cuts off before any item is simply empty or waits for a value. */
  lemma PoisedMatches(c: Core, os: seq<Open>, max: nat)
    requires Poised(c, os, max) && (c.frames != [] ==> c.out[|c.out| - 1] != COMMA) && (c.frames != [] ==> c.out != [])
    ensures Matches(c, Shape(os, None), max)
  {
    hide RenderItems, RenderMembers, OpenFits;
    if c.frames != [] {
      PoisedEnds(c, os, max);
      var n := |os| - 1;
      assert Parents(os) == Parents(os[..n]) + BeforeValue(os[n]);
      assert TopOk(c.frames[n], os[n]);
      EmptyBefore(os[n]);
      assert TopText(c.frames[n], os[n]) == BeforeValue(os[n]);
    }
  }

  lemma EmptyBefore(o: Open)
    ensures o.OpenList? && o.items == [] ==> BeforeValue(o) == OpenText(o)
  {
  }

  lemma OpenShape(c: Core, s: Shape, isObject: bool, max: nat) returns (t: Shape)
    requires Matches(c, s, max) && !c.stop
    ensures Shaped(OpenContainer(c, isObject, max), t, max)
  {
    hide Matches, Poised, PrepareValue;
    var v := PrepareValue(c);
    if v.stop {
      StopsUnchanged(c, s, max);
      t := s;
    } else {
      var os := Prepares(c, s, max);
      if |v.frames| >= max {
        var r := v.(stop := true);
        SamePoised(v, r, os, max);
        t := Shape(os, None);
        if r.frames != [] { PoisedEnds(r, os, max); }
        if !CutAfterComma(r) { PoisedMatches(r, os, max); }
      } else {
        Opens(v, os, isObject, max);
        t := Shape(os + [if isObject then OpenRecord([], None) else OpenList([])], None);
      }
    }
  }

  lemma SamePoised(a: Core, b: Core, os: seq<Open>, max: nat)
    requires a.out == b.out && a.frames == b.frames && a.topDone == b.topDone && Poised(a, os, max)
    ensures Poised(b, os, max)
  {
    hide ParentsOk, OpensFit, Parents;
  }

  // --- Steps and runs ---

  lemma TokenShape(inp: Bytes, c: Core, s: Shape, max: nat) returns (t: Shape)
    requires c.pos < |inp| && Matches(c, s, max) && !c.stop
    ensures Shaped(TokenStep(inp, c, max), t, max)
  {
    hide Matches, Poised, OpenContainer, CloseContainer, CommaStep, ColonStep, StringStep, NumberStep, WordStep,
         IsNumberStart, IsWordStart;
    var ch := inp[c.pos];
    var d := c.(pos := c.pos + 1);
    MovesOn(c, s, c.pos + 1, max);
    if ch == OPEN_BRACE || ch == OPEN_BRACKET {
      t := OpenShape(d, s, ch == OPEN_BRACE, max);
    } else if ch == CLOSE_BRACE || ch == CLOSE_BRACKET {
      if c.frames == [] {
        NothingToClose(d, ch);
        SameMatches(d, CloseContainer(d, ch), s, max);
        t := s;
      } else {
        t := Closes(d, s, ch, max);
      }
    } else if ch == COMMA {
      t := Commas(d, s, max);
    } else if ch == COLON || ch == EQUALS {
      t := Colons(d, s, ch, max);
    } else if ch == QUOTE || ch == APOSTROPHE || ch == BACKTICK {
      t := StringShape(inp, c, s, max);
    } else if IsNumberStart(ch) {
      t := NumberShape(inp, c, s, max);
    } else if IsWordStart(ch) {
      t := WordShape(inp, c, s, max);
    } else {
      SameMatches(c, TokenStep(inp, c, max), s, max);
      t := s;
    }
  }

  lemma NothingToClose(c: Core, ch: byte)
    requires c.frames == []
    ensures CloseContainer(c, ch) == Fix(c, Garbage)
  {
  }

  lemma StepShape(inp: Bytes, c: Core, s: Shape, max: nat) returns (t: Shape)
    requires c.pos < |inp| && Matches(c, s, max) && !c.stop
    ensures Shaped(Step(inp, c, max), t, max)
  {
    hide Matches, TokenStep, Poised, AtComment;
    if IsWs(inp[c.pos]) {
      MovesOn(c, s, c.pos + 1, max);
      t := s;
    } else if AtComment(inp, c.pos) {
      CommentKeeps(inp, c);
      SameMatches(c, CommentStep(inp, c), s, max);
      t := s;
    } else {
      t := TokenShape(inp, c, s, max);
    }
  }

  lemma CommentKeeps(inp: Bytes, c: Core)
    requires c.pos < |inp| && AtComment(inp, c.pos)
    ensures var r := CommentStep(inp, c); r.out == c.out && r.frames == c.frames && r.topDone == c.topDone
  {
  }

  /** Whatever the input, the shape is kept up to the end of the run. */
  lemma {:induction false} RunShape(inp: Bytes, c: Core, s: Shape, max: nat) returns (t: Shape)
    requires c.pos <= |inp| && Matches(c, s, max) && !c.stop
    ensures Shaped(Run(inp, c, max), t, max)
    decreases |inp| - c.pos
  {
    hide Matches, Step, Poised, Breaks;
    if c.pos >= |inp| {
      t := s;
    } else if Breaks(inp, c) {
      SameMatches(c, Fix(c, CodeFence), s, max);
      t := s;
    } else {
      var d := Step(inp, c, max);
      t := StepShape(inp, c, s, max);
      if !d.stop { t := RunShape(inp, d, t, max); }
    }
  }

  lemma {:induction false} CloseAllShape(c: Core, s: Shape, max: nat) returns (t: Shape)
    requires Matches(c, s, max)
    ensures Matches(CloseAll(c), t, max)
    decreases |c.frames|
  {
    hide Matches, CloseContainer;
    if c.frames == [] {
      t := s;
    } else {
      t := Closes(c, s, Closer(Top(c)), max);
      CloseShrinks(c);
      t := CloseAllShape(CloseContainer(c, Closer(Top(c))), t, max);
    }
  }

  lemma CloseShrinks(c: Core)
    requires c.frames != []
    ensures |CloseContainer(c, Closer(Top(c))).frames| == |c.frames| - 1
  {
  }

  lemma StartMatches(inp: Bytes, max: nat)
    ensures Matches(Start(inp), Shape([], None), max) && !Start(inp).stop
  {
  }

  /** The final text of a run that was not cut renders a well-formed tree. */
  lemma RepairedTree(inp: Bytes, max: nat) returns (v: Raw)
    requires Repair(inp, max).text.Some? && !CutAfterComma(Run(inp, Start(inp), max))
    ensures Fits(v, max) && Repair(inp, max).text == Some(Render(v))
  {
    hide Start, Run, CloseAll, Fits, Render, TopOk, OpensFit, ParentsOk, Parents, TopText;
    StartMatches(inp, max);
    var s := RunShape(inp, Start(inp), Shape([], None), max);
    var c := Run(inp, Start(inp), max);
    var d := if c.frames != [] then Fix(c, Unclosed) else c;
    SameMatches(c, d, s, max);
    var t := CloseAllShape(d, s, max);
    v := t.root.value;
  }

  /** Any input: what the repairer returns is structurally valid, unless the depth cap cut an array after a comma. */
  lemma RepairIsValid(inp: Bytes, max: nat)
    requires Repair(inp, max).text.Some? && !CutAfterComma(Run(inp, Start(inp), max))
    ensures StructurallyValid(Repair(inp, max).text.value, max)
  {
    hide Repair, Run, Fits, Render, StructurallyValid;
    var v := RepairedTree(inp, max);
    RenderIsValid(v, max);
  }

  /** Repairing the repaired text changes nothing and reports nothing. */
  lemma RepairIsIdempotent(inp: Bytes, max: nat)
    requires Repair(inp, max).text.Some? && !CutAfterComma(Run(inp, Start(inp), max))
    ensures var r := Repair(inp, max);
            Repair(r.text.value, max).text == r.text && Repair(r.text.value, max).fixes == 0
  {
    hide Repair, Run, Fits, Render, StructurallyValid, RepairTidy.Squeeze;
    var v := RepairedTree(inp, max);
    RenderIsValid(v, max);
    RepairAccepts.ValidTextIsLeftAlone(Render(v), max);
    RenderIsTight(v, max);
  }
}
