/** Structurally valid trees with their literals as text, their compact rendering, and how it reads. */
module RawTree {
  import opened Bytes
  import opened Texts
  import opened Options
  import opened Scan
  import opened NumberScan
  import opened ParserSpec
  import opened Structure

  datatype RawMember = RawMember(key: Bytes, value: Raw)

  datatype Raw = Atom(text: Bytes) | List(items: seq<Raw>) | Record(members: seq<RawMember>)

  /** A string literal with its quotes. */
  predicate IsLiteral(t: Bytes) { |t| >= 2 && t[0] == QUOTE && StringEnd(t, 1) == Some(|t|) }

  predicate IsAtom(t: Bytes)
  {
    t == TRUE_WORD || t == FALSE_WORD || t == NULL_WORD || IsNumberText(t) || IsLiteral(t)
  }

  /** The tree's literals are well formed and it nests at most `room` deep. */
  predicate Fits(v: Raw, room: nat)
  {
    match v
    case Atom(t) => IsAtom(t)
    case List(items) => room > 0 && forall i :: 0 <= i < |items| ==> Fits(items[i], room - 1)
    case Record(ms) => room > 0 && forall i :: 0 <= i < |ms| ==> IsLiteral(ms[i].key) && Fits(ms[i].value, room - 1)
  }

  function Render(v: Raw): Bytes
    decreases v, 1
  {
    match v
    case Atom(t) => t
    case List(items) => [OPEN_BRACKET] + RenderItems(items) + [CLOSE_BRACKET]
    case Record(ms) => [OPEN_BRACE] + RenderMembers(ms) + [CLOSE_BRACE]
  }

  /** The items separated by commas; the text grows at its end, as the repairer writes it. */
  function RenderItems(items: seq<Raw>): Bytes
    decreases items, 0
  {
    if items == [] then []
    else
      var n := |items| - 1;
      RenderItems(items[..n]) + (if n == 0 then [] else [COMMA]) + Render(items[n])
  }

  function RenderMembers(ms: seq<RawMember>): Bytes
    decreases ms, 0
  {
    if ms == [] then []
    else
      var n := |ms| - 1;
      RenderMembers(ms[..n]) + (if n == 0 then [] else [COMMA]) + (ms[n].key + [COLON] + Render(ms[n].value))
  }

  // --- The rendering reads back as one structurally valid value ---

  lemma {:induction false} StringEndMoves(t: Bytes, i: nat, inp: Bytes, p: nat)
    requires i <= |t| && StringEnd(t, i).Some? && Holds(inp, p, t)
    ensures StringEnd(inp, p + i) == Some(p + StringEnd(t, i).value)
    decreases |t| - i
  {
    hide SimpleEscape;
    HoldsAt(inp, p, t, i);
    if t[i] == QUOTE {
    } else if t[i] == BACKSLASH {
      HoldsAt(inp, p, t, i + 1);
      if SimpleEscape(t[i + 1]).Some? {
        StringEndMoves(t, i + 2, inp, p);
      } else {
        HexMoves(t, i + 2, inp, p);
        StringEndMoves(t, i + 6, inp, p);
      }
    } else {
      StringEndMoves(t, i + 1, inp, p);
    }
  }

  lemma HexMoves(t: Bytes, i: nat, inp: Bytes, p: nat)
    requires i + 4 <= |t| && Holds(inp, p, t)
    ensures Hex4(inp, p + i) == Hex4(t, i)
  {
    HoldsAt(inp, p, t, i);
    HoldsAt(inp, p, t, i + 1);
    HoldsAt(inp, p, t, i + 2);
    HoldsAt(inp, p, t, i + 3);
  }

  lemma LiteralReads(t: Bytes, inp: Bytes, p: nat)
    requires IsLiteral(t) && Holds(inp, p, t)
    ensures inp[p] == QUOTE && StringEnd(inp, p + 1) == Some(p + |t|)
  {
    HoldsAt(inp, p, t, 0);
    StringEndMoves(t, 1, inp, p);
  }

  lemma NumberReads(t: Bytes, inp: Bytes, p: nat)
    requires IsNumberText(t) && Holds(inp, p, t) && (p + |t| < |inp| ==> !IsNumberChar(inp[p + |t|]))
    ensures t != [] && p < |inp| && inp[p] == t[0] && (t[0] == MINUS || IsDigit(t[0]))
    ensures ScanNumber(inp, p, |inp|) == Some(p + |t|)
  {
    hide *;
    NumberBegins(t);
    TokenText(t, inp, p);
    HoldsFits(inp, p, t);
    ScanNumberWithin(inp, p, p + |t|);
    ScanNumberShifted(inp, p, p + |t|);
  }

  lemma TokenText(t: Bytes, inp: Bytes, p: nat)
    requires IsNumberText(t) && Holds(inp, p, t)
    ensures p + |t| <= |inp| && inp[p..p + |t|] == t && Shift(ScanNumber(t, 0, |t|), p) == Some(p + |t|)
  {
    hide ScanNumber;
  }

  lemma NumberBegins(t: Bytes)
    requires IsNumberText(t)
    ensures t != [] && (t[0] == MINUS || IsDigit(t[0]))
  {
  }

  /** A separator or a bracket follows, or nothing. */
  predicate Stops(inp: Bytes, e: nat)
  {
    e < |inp| ==> inp[e] == COMMA || inp[e] == CLOSE_BRACKET || inp[e] == CLOSE_BRACE
  }

  lemma AtomReads(t: Bytes, inp: Bytes, p: nat)
    requires IsAtom(t) && Holds(inp, p, t) && Stops(inp, p + |t|)
    ensures t != [] && p < |inp| && !IsWs(inp[p]) && !Closing(inp[p])
    ensures AtomEnd(inp, p) == Some(p + |t|) && inp[p] != OPEN_BRACE && inp[p] != OPEN_BRACKET
  {
    hide StringEnd, ScanNumber;
    if IsLiteral(t) {
      LiteralReads(t, inp, p);
    } else if IsNumberText(t) {
      NumberReads(t, inp, p);
    } else {
      HoldsAt(inp, p, t, 0);
    }
  }

  predicate Closing(c: byte) { c == CLOSE_BRACE || c == CLOSE_BRACKET }

  lemma NoSpace(inp: Bytes, p: nat)
    requires p < |inp| && !IsWs(inp[p])
    ensures SkipWs(inp, p) == p
  {
  }

  lemma RenderBegins(v: Raw, room: nat)
    requires Fits(v, room)
    ensures var t := Render(v); t != [] && !IsWs(t[0]) && !Closing(t[0])
  {
    match v
    case Atom(t) => if IsNumberText(t) { NumberBegins(t); }
    case List(items) => assert Render(v)[0] == OPEN_BRACKET;
    case Record(ms) => assert Render(v)[0] == OPEN_BRACE;
  }

  lemma {:induction false} RenderReads(v: Raw, inp: Bytes, p: nat, depth: nat, max: nat)
    requires depth <= max && Fits(v, max - depth) && Holds(inp, p, Render(v)) && Stops(inp, p + |Render(v)|)
    ensures ValueEnd(inp, p, depth, max) == Some(p + |Render(v)|)
    decreases v, 1
  {
    hide AtomEnd, ArrayEnd, ObjectEnd, ItemsEnd, MembersEnd, RenderItems, RenderMembers, IsAtom, IsLiteral, Stops;
    match v
    case Atom(t) =>
      AtomReads(t, inp, p);
      NoSpace(inp, p);
    case List(items) => ListReads(items, inp, p, depth, max);
    case Record(ms) => RecordReads(ms, inp, p, depth, max);
  }

  lemma {:induction false} ListReads(items: seq<Raw>, inp: Bytes, p: nat, depth: nat, max: nat)
    requires depth < max && forall i :: 0 <= i < |items| ==> Fits(items[i], max - depth - 1)
    requires Holds(inp, p, Render(List(items)))
    ensures ValueEnd(inp, p, depth, max) == Some(p + |Render(List(items))|)
    decreases items, 1
  {
    hide *;
    ListParts(items, inp, p);
    var e := p + 1 + |RenderItems(items)|;
    BracketStops(inp, e);
    ItemsBegin(items, max - depth - 1);
    if items != [] {
      HoldsAt(inp, p + 1, RenderItems(items), 0);
      NoSpace(inp, p + 1);
      assert items[..|items|] == items;
      ItemsRead(items, |items|, inp, p + 1, depth + 1, max);
    } else {
      BracketIsSpaceless(inp, e);
    }
    ArrayUnfolds(inp, p, depth, max);
  }

  lemma ListParts(items: seq<Raw>, inp: Bytes, p: nat)
    requires Holds(inp, p, Render(List(items)))
    ensures p < |inp| && inp[p] == OPEN_BRACKET && Holds(inp, p + 1, RenderItems(items))
    ensures var e := p + 1 + |RenderItems(items)|;
            e < |inp| && inp[e] == CLOSE_BRACKET && inp[e] != COMMA && p + |Render(List(items))| == e + 1
  {
    hide Holds, RenderItems;
    HoldsThree(inp, p, [OPEN_BRACKET], RenderItems(items), [CLOSE_BRACKET]);
    HoldsFits(inp, p, [OPEN_BRACKET]);
    HoldsFits(inp, p + 1 + |RenderItems(items)|, [CLOSE_BRACKET]);
  }

  lemma BracketStops(inp: Bytes, e: nat)
    requires e < |inp| && Closing(inp[e])
    ensures Stops(inp, e)
  {
  }

  lemma BracketIsSpaceless(inp: Bytes, e: nat)
    requires e < |inp| && Closing(inp[e])
    ensures SkipWs(inp, e) == e
  {
  }

  lemma ArrayUnfolds(inp: Bytes, p: nat, depth: nat, max: nat)
    requires p + 1 < |inp| && inp[p] == OPEN_BRACKET && depth < max && SkipWs(inp, p + 1) == p + 1
    ensures ValueEnd(inp, p, depth, max)
         == if inp[p + 1] == CLOSE_BRACKET then Some(p + 2) else ItemsEnd(inp, p + 1, depth + 1, max)
  {
    NoSpace(inp, p);
    hide ItemsEnd;
  }

  lemma {:induction false} RecordReads(ms: seq<RawMember>, inp: Bytes, p: nat, depth: nat, max: nat)
    requires depth < max
    requires forall i :: 0 <= i < |ms| ==> IsLiteral(ms[i].key) && Fits(ms[i].value, max - depth - 1)
    requires Holds(inp, p, Render(Record(ms)))
    ensures ValueEnd(inp, p, depth, max) == Some(p + |Render(Record(ms))|)
    decreases ms, 1
  {
    hide *;
    RecordParts(ms, inp, p);
    var e := p + 1 + |RenderMembers(ms)|;
    BracketStops(inp, e);
    MembersBegin(ms, max - depth - 1);
    if ms != [] {
      HoldsAt(inp, p + 1, RenderMembers(ms), 0);
      NoSpace(inp, p + 1);
      assert ms[..|ms|] == ms;
      MembersRead(ms, |ms|, inp, p + 1, depth + 1, max);
    } else {
      BracketIsSpaceless(inp, e);
    }
    ObjectUnfolds(inp, p, depth, max);
  }

  lemma RecordParts(ms: seq<RawMember>, inp: Bytes, p: nat)
    requires Holds(inp, p, Render(Record(ms)))
    ensures p < |inp| && inp[p] == OPEN_BRACE && Holds(inp, p + 1, RenderMembers(ms))
    ensures var e := p + 1 + |RenderMembers(ms)|;
            e < |inp| && inp[e] == CLOSE_BRACE && inp[e] != COMMA && p + |Render(Record(ms))| == e + 1
  {
    hide Holds, RenderMembers;
    HoldsThree(inp, p, [OPEN_BRACE], RenderMembers(ms), [CLOSE_BRACE]);
    HoldsFits(inp, p, [OPEN_BRACE]);
    HoldsFits(inp, p + 1 + |RenderMembers(ms)|, [CLOSE_BRACE]);
  }

  lemma ObjectUnfolds(inp: Bytes, p: nat, depth: nat, max: nat)
    requires p + 1 < |inp| && inp[p] == OPEN_BRACE && depth < max && SkipWs(inp, p + 1) == p + 1
    ensures ValueEnd(inp, p, depth, max)
         == if inp[p + 1] == CLOSE_BRACE then Some(p + 2) else MembersEnd(inp, p + 1, depth + 1, max)
  {
    NoSpace(inp, p);
    hide MembersEnd;
  }

  lemma {:induction false} ItemsBegin(items: seq<Raw>, room: nat)
    requires forall i :: 0 <= i < |items| ==> Fits(items[i], room)
    ensures items == [] ==> RenderItems(items) == []
    ensures items != [] ==> var t := RenderItems(items);
              t != [] && !IsWs(t[0]) && t[0] != CLOSE_BRACKET && t[0] != CLOSE_BRACE
    decreases |items|
  {
    if items != [] {
      var n := |items| - 1;
      ItemsBegin(items[..n], room);
      RenderBegins(items[n], room);
    }
  }

  lemma {:induction false} MembersBegin(ms: seq<RawMember>, room: nat)
    requires forall i :: 0 <= i < |ms| ==> IsLiteral(ms[i].key)
    ensures ms == [] ==> RenderMembers(ms) == []
    ensures ms != [] ==> var t := RenderMembers(ms); t != [] && t[0] == QUOTE && t[0] != CLOSE_BRACE && !IsWs(t[0])
    decreases |ms|
  {
    if ms != [] {
      var n := |ms| - 1;
      MembersBegin(ms[..n], room);
      assert (ms[n].key + [COLON] + Render(ms[n].value))[0] == ms[n].key[0];
    }
  }

  /** What is left of a list once the first n items are read. */
  lemma {:induction false} ItemsRead(items: seq<Raw>, n: nat, inp: Bytes, p: nat, depth: nat, max: nat)
    requires 0 < n <= |items| && depth <= max && forall i :: 0 <= i < |items| ==> Fits(items[i], max - depth)
    requires Holds(inp, p, RenderItems(items[..n])) && Stops(inp, p + |RenderItems(items[..n])|)
    requires p + |RenderItems(items[..n])| < |inp|
    ensures var e := p + |RenderItems(items[..n])|;
            ItemsEnd(inp, p, depth, max)
            == if inp[e] == COMMA then ItemsEnd(inp, e + 1, depth, max)
               else if inp[e] == CLOSE_BRACKET then Some(e + 1) else None
    decreases items, 0, n
  {
    hide *;
    var last := items[n - 1];
    var front := RenderItems(items[..n - 1]);
    var comma := if n == 1 then [] else [COMMA];
    ItemsUnfold(items, n);
    HoldsThree(inp, p, front, comma, Render(last));
    var q, e := p + |front| + |comma|, p + |RenderItems(items[..n])|;
    RenderReads(last, inp, q, depth, max);
    StopsNoSpace(inp, e);
    ItemsStep(inp, q, e, depth, max);
    if n > 1 {
      HoldsFits(inp, p + |front|, [COMMA]);
      CommaStops(inp, p + |front|);
      ItemsRead(items, n - 1, inp, p, depth, max);
    }
  }

  lemma ItemsUnfold(items: seq<Raw>, n: nat)
    requires 0 < n <= |items|
    ensures RenderItems(items[..n])
         == RenderItems(items[..n - 1]) + (if n == 1 then [] else [COMMA]) + Render(items[n - 1])
    ensures n == 1 ==> RenderItems(items[..n - 1]) == []
  {
    assert items[..n][..n - 1] == items[..n - 1];
    hide Render;
  }

  lemma ItemsStep(inp: Bytes, p: nat, e: nat, depth: nat, max: nat)
    requires p <= |inp| && ValueEnd(inp, p, depth, max) == Some(e) && e < |inp| && SkipWs(inp, e) == e
    ensures ItemsEnd(inp, p, depth, max)
         == if inp[e] == COMMA then ItemsEnd(inp, e + 1, depth, max)
            else if inp[e] == CLOSE_BRACKET then Some(e + 1) else None
  {
    hide ValueEnd;
  }

  lemma StopsNoSpace(inp: Bytes, e: nat)
    requires e < |inp| && Stops(inp, e)
    ensures SkipWs(inp, e) == e
  {
  }

  lemma CommaStops(inp: Bytes, e: nat)
    requires e < |inp| && inp[e] == COMMA
    ensures Stops(inp, e)
  {
  }

  lemma KeyReads(key: Bytes, inp: Bytes, p: nat)
    requires IsLiteral(key) && Holds(inp, p, key + [COLON])
    ensures KeyEnd(inp, p) == Some(p + |key| + 1)
  {
    hide StringEnd;
    HoldsParts(inp, p, key, [COLON]);
    HoldsAt(inp, p + |key|, [COLON], 0);
    LiteralReads(key, inp, p);
    NoSpace(inp, p);
    NoSpace(inp, p + |key|);
  }

  lemma {:induction false} MembersRead(ms: seq<RawMember>, n: nat, inp: Bytes, p: nat, depth: nat, max: nat)
    requires 0 < n <= |ms| && depth <= max
    requires forall i :: 0 <= i < |ms| ==> IsLiteral(ms[i].key) && Fits(ms[i].value, max - depth)
    requires Holds(inp, p, RenderMembers(ms[..n])) && Stops(inp, p + |RenderMembers(ms[..n])|)
    requires p + |RenderMembers(ms[..n])| < |inp|
    ensures var e := p + |RenderMembers(ms[..n])|;
            MembersEnd(inp, p, depth, max)
            == if inp[e] == COMMA then MembersEnd(inp, e + 1, depth, max)
               else if inp[e] == CLOSE_BRACE then Some(e + 1) else None
    decreases ms, 0, n
  {
    hide *;
    var last := ms[n - 1];
    var front := RenderMembers(ms[..n - 1]);
    var comma := if n == 1 then [] else [COMMA];
    var body := last.key + [COLON] + Render(last.value);
    MembersUnfold(ms, n);
    HoldsThree(inp, p, front, comma, body);
    var q, e := p + |front| + |comma|, p + |RenderMembers(ms[..n])|;
    HoldsParts(inp, q, last.key + [COLON], Render(last.value));
    KeyReads(last.key, inp, q);
    RenderReads(last.value, inp, q + |last.key| + 1, depth, max);
    StopsNoSpace(inp, e);
    MembersStep(inp, q, e, depth, max);
    if n > 1 {
      HoldsFits(inp, p + |front|, [COMMA]);
      CommaStops(inp, p + |front|);
      MembersRead(ms, n - 1, inp, p, depth, max);
    }
  }

  lemma MembersUnfold(ms: seq<RawMember>, n: nat)
    requires 0 < n <= |ms|
    ensures RenderMembers(ms[..n])
         == RenderMembers(ms[..n - 1]) + (if n == 1 then [] else [COMMA])
            + (ms[n - 1].key + [COLON] + Render(ms[n - 1].value))
    ensures n == 1 ==> RenderMembers(ms[..n - 1]) == []
  {
    assert ms[..n][..n - 1] == ms[..n - 1];
    hide Render;
  }

  lemma MembersStep(inp: Bytes, p: nat, e: nat, depth: nat, max: nat)
    requires p <= |inp| && KeyEnd(inp, p).Some? && ValueEnd(inp, KeyEnd(inp, p).value, depth, max) == Some(e)
    requires e < |inp| && SkipWs(inp, e) == e
    ensures MembersEnd(inp, p, depth, max)
         == if inp[e] == COMMA then MembersEnd(inp, e + 1, depth, max)
            else if inp[e] == CLOSE_BRACE then Some(e + 1) else None
  {
    hide ValueEnd, KeyEnd;
  }

  lemma RenderIsValid(v: Raw, max: nat)
    requires Fits(v, max)
    ensures StructurallyValid(Render(v), max) && BomLength(Render(v)) == 0
  {
    var t := Render(v);
    assert Holds(t, 0, t);
    RenderReads(v, t, 0, 0, max);
    NoBom(v, max);
    hide ValueEnd, Render, Fits;
    AllRead(t);
  }

  lemma AllRead(t: Bytes)
    ensures SkipWs(t, |t|) == |t|
  {
  }

  lemma NoBom(v: Raw, room: nat)
    requires Fits(v, room)
    ensures BomLength(Render(v)) == 0
  {
    var t := Render(v);
    FirstByte(v, room);
    assert |t| >= 3 ==> t[..3][0] == t[0];
  }

  lemma FirstByte(v: Raw, room: nat)
    requires Fits(v, room)
    ensures Render(v) != [] && Render(v)[0] < 0x80
  {
    match v
    case Atom(t) => if IsNumberText(t) { NumberBegins(t); }
    case List(items) => assert Render(v)[0] == OPEN_BRACKET;
    case Record(ms) => assert Render(v)[0] == OPEN_BRACE;
  }
}

/** The compact rendering holds no insignificant whitespace. */
module RawSqueeze {
  import opened Bytes
  import opened Texts
  import opened Options
  import opened Scan
  import opened Structure
  import opened RawTree
  import opened RepairTidy
  import RepairSpec
  import RepairAccepts

  lemma {:induction false} LiteralSqueezed(inp: Bytes, i: nat)
    requires i <= |inp| && StringEnd(inp, i).Some?
    ensures var e := StringEnd(inp, i).value; SqueezeString(inp, i) == inp[i..e] + Squeeze(inp, e)
    decreases |inp| - i
  {
    var e := StringEnd(inp, i).value;
    hide Squeeze, Hex4, SimpleEscape;
    if inp[i] == QUOTE {
      assert inp[i..i + 1] == [QUOTE];
    } else if inp[i] == BACKSLASH {
      var k := if SimpleEscape(inp[i + 1]).Some? then 2 else 6;
      LiteralSqueezed(inp, i + k);
      hide StringEnd, SqueezeString;
      EscapeSqueezed(inp, i, k);
      Spliced(inp, i, i + k, e, Squeeze(inp, e));
    } else {
      LiteralSqueezed(inp, i + 1);
      assert SqueezeString(inp, i) == [inp[i]] + SqueezeString(inp, i + 1);
      assert inp[i..i + 1] == [inp[i]];
      Spliced(inp, i, i + 1, e, Squeeze(inp, e));
    }
  }

  /** The text s stands at p and the squeezed input has it whole. */
  predicate Kept(inp: Bytes, p: nat, s: Bytes)
  {
    p + |s| <= |inp| && Squeeze(inp, p) == s + Squeeze(inp, p + |s|)
  }

  lemma KeptParts(inp: Bytes, p: nat, a: Bytes, b: Bytes)
    requires Kept(inp, p, a) && Kept(inp, p + |a|, b)
    ensures Kept(inp, p, a + b)
  {
    hide Squeeze;
    Associates(a, b, Squeeze(inp, p + |a + b|));
  }

  lemma KeptNothing(inp: Bytes, p: nat)
    requires p <= |inp|
    ensures Kept(inp, p, [])
  {
    hide Squeeze;
    assert [] + Squeeze(inp, p) == Squeeze(inp, p);
  }

  lemma KeptByte(inp: Bytes, p: nat, c: byte)
    requires Holds(inp, p, [c]) && !IsWs(c) && c != QUOTE
    ensures Kept(inp, p, [c])
  {
    HoldsAt(inp, p, [c], 0);
  }

  lemma LiteralKept(t: Bytes, inp: Bytes, p: nat)
    requires IsLiteral(t) && Holds(inp, p, t)
    ensures Kept(inp, p, t)
  {
    LiteralReads(t, inp, p);
    LiteralSqueezed(inp, p + 1);
    var e := p + |t|;
    assert Squeeze(inp, p) == [QUOTE] + SqueezeString(inp, p + 1);
    hide Squeeze, SqueezeString, StringEnd;
    assert inp[p..p + 1] == [QUOTE];
    Spliced(inp, p, p + 1, e, Squeeze(inp, e));
  }

  lemma PlainKept(t: Bytes, inp: Bytes, p: nat)
    requires Holds(inp, p, t) && forall k :: 0 <= k < |t| ==> !IsWs(t[k]) && t[k] != QUOTE
    ensures Kept(inp, p, t)
  {
    forall k | p <= k < p + |t| ensures !IsWs(inp[k]) && inp[k] != QUOTE {
      HoldsAt(inp, p, t, k - p);
    }
    SqueezePlain(inp, p, p + |t|);
  }

  lemma AtomKept(t: Bytes, inp: Bytes, p: nat)
    requires IsAtom(t) && Holds(inp, p, t)
    ensures Kept(inp, p, t)
  {
    hide Kept, Holds, StringEnd, ScanNumber;
    if IsLiteral(t) {
      LiteralKept(t, inp, p);
    } else {
      if IsNumberText(t) { NumberIsPlain(t); }
      PlainKept(t, inp, p);
    }
  }

  lemma NumberIsPlain(t: Bytes)
    requires IsNumberText(t)
    ensures forall k :: 0 <= k < |t| ==> !IsWs(t[k]) && t[k] != QUOTE
  {
    hide ScanNumber, RepairSpec.IsNumberRun;
    RepairAccepts.NumberRuns(t, 0);
    forall k | 0 <= k < |t| ensures !IsWs(t[k]) && t[k] != QUOTE { RunIsPlain(t[k]); }
  }

  lemma RunIsPlain(c: byte)
    requires RepairSpec.IsNumberRun(c)
    ensures !IsWs(c) && c != QUOTE
  {
  }

  lemma {:induction false} RenderKept(v: Raw, room: nat, inp: Bytes, p: nat)
    requires Fits(v, room) && Holds(inp, p, Render(v))
    ensures Kept(inp, p, Render(v))
    decreases v, 1
  {
    hide Kept, Holds, IsAtom, IsLiteral, RenderItems, RenderMembers;
    match v
    case Atom(t) => AtomKept(t, inp, p);
    case List(items) =>
      HoldsThree(inp, p, [OPEN_BRACKET], RenderItems(items), [CLOSE_BRACKET]);
      assert items[..|items|] == items;
      ItemsKept(items, |items|, room - 1, inp, p + 1);
      Bracketed(inp, p, OPEN_BRACKET, RenderItems(items), CLOSE_BRACKET);
    case Record(ms) =>
      HoldsThree(inp, p, [OPEN_BRACE], RenderMembers(ms), [CLOSE_BRACE]);
      assert ms[..|ms|] == ms;
      MembersKept(ms, |ms|, room - 1, inp, p + 1);
      Bracketed(inp, p, OPEN_BRACE, RenderMembers(ms), CLOSE_BRACE);
  }

  lemma Bracketed(inp: Bytes, p: nat, first: byte, body: Bytes, last: byte)
    requires Holds(inp, p, [first]) && Kept(inp, p + 1, body) && Holds(inp, p + 1 + |body|, [last])
    requires !IsWs(first) && !IsWs(last) && first != QUOTE && last != QUOTE
    ensures Kept(inp, p, [first] + body + [last])
  {
    hide Kept, Holds;
    KeptByte(inp, p, first);
    KeptParts(inp, p, [first], body);
    KeptByte(inp, p + 1 + |body|, last);
    KeptParts(inp, p, [first] + body, [last]);
  }

  lemma CommaKept(inp: Bytes, p: nat, comma: Bytes)
    requires Holds(inp, p, comma) && (comma == [] || comma == [COMMA])
    ensures Kept(inp, p, comma)
  {
    hide Kept;
    if comma == [] { KeptNothing(inp, p); } else { KeptByte(inp, p, COMMA); }
  }

  lemma {:induction false} ItemsKept(items: seq<Raw>, n: nat, room: nat, inp: Bytes, p: nat)
    requires n <= |items| && (forall i :: 0 <= i < |items| ==> Fits(items[i], room))
    requires Holds(inp, p, RenderItems(items[..n]))
    ensures Kept(inp, p, RenderItems(items[..n]))
    decreases items, 0, n
  {
    hide *;
    if n == 0 {
      NoItems(items);
      HoldsFits(inp, p, RenderItems(items[..0]));
      KeptNothing(inp, p);
    } else {
      ItemsUnfold(items, n);
      var front, last := RenderItems(items[..n - 1]), Render(items[n - 1]);
      var comma := if n == 1 then [] else [COMMA];
      HoldsThree(inp, p, front, comma, last);
      ItemsKept(items, n - 1, room, inp, p);
      CommaKept(inp, p + |front|, comma);
      KeptParts(inp, p, front, comma);
      RenderKept(items[n - 1], room, inp, p + |front| + |comma|);
      KeptParts(inp, p, front + comma, last);
    }
  }

  lemma NoItems(items: seq<Raw>)
    ensures RenderItems(items[..0]) == []
  {
  }

  lemma NoMembers(ms: seq<RawMember>)
    ensures RenderMembers(ms[..0]) == []
  {
  }

  lemma {:induction false} MembersKept(ms: seq<RawMember>, n: nat, room: nat, inp: Bytes, p: nat)
    requires n <= |ms| && (forall i :: 0 <= i < |ms| ==> IsLiteral(ms[i].key) && Fits(ms[i].value, room))
    requires Holds(inp, p, RenderMembers(ms[..n]))
    ensures Kept(inp, p, RenderMembers(ms[..n]))
    decreases ms, 0, n
  {
    hide *;
    if n == 0 {
      NoMembers(ms);
      HoldsFits(inp, p, RenderMembers(ms[..0]));
      KeptNothing(inp, p);
    } else {
      MembersUnfold(ms, n);
      var m := ms[n - 1];
      var front, last := RenderMembers(ms[..n - 1]), Render(m.value);
      var comma := if n == 1 then [] else [COMMA];
      HoldsThree(inp, p, front, comma, m.key + [COLON] + last);
      var q := p + |front| + |comma|;
      HoldsThree(inp, q, m.key, [COLON], last);
      MembersKept(ms, n - 1, room, inp, p);
      CommaKept(inp, p + |front|, comma);
      KeptParts(inp, p, front, comma);
      LiteralKept(m.key, inp, q);
      ColonKept(inp, q + |m.key|);
      KeptParts(inp, q, m.key, [COLON]);
      RenderKept(m.value, room, inp, q + |m.key| + 1);
      KeptParts(inp, q, m.key + [COLON], last);
      KeptParts(inp, p, front + comma, m.key + [COLON] + last);
    }
  }

  lemma ColonKept(inp: Bytes, p: nat)
    requires Holds(inp, p, [COLON])
    ensures Kept(inp, p, [COLON])
  {
    KeptByte(inp, p, COLON);
  }

  lemma RenderIsTight(v: Raw, room: nat)
    requires Fits(v, room)
    ensures Squeeze(Render(v), 0) == Render(v)
  {
    hide Render, Fits;
    var t := Render(v);
    assert Holds(t, 0, t);
    RenderKept(v, room, t, 0);
    assert Squeeze(t, |t|) == [];
  }
}
