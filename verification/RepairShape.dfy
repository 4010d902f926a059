/** What the repairer has written is always the beginning of a structurally valid text that its frames complete. */
module RepairShape {
  import opened Bytes
  import opened Texts
  import opened Options
  import opened Scan
  import opened RawTree
  import opened RepairSpec

  /** A container whose bracket is not written yet: its complete content, and a key that waits for its value. */
  datatype Open = OpenList(items: seq<Raw>) | OpenRecord(members: seq<RawMember>, key: Option<Bytes>)

  /** The open containers, outermost first, and the top-level value once it is complete. */
  datatype Shape = Shape(opens: seq<Open>, root: Option<Raw>)

  function Comma(first: bool): Bytes { if first then [] else [COMMA] }

  /** The text of a container as far as its last complete item, member or key. */
  function OpenText(o: Open): Bytes
  {
    match o
    case OpenList(items) => [OPEN_BRACKET] + RenderItems(items)
    case OpenRecord(ms, None) => [OPEN_BRACE] + RenderMembers(ms)
    case OpenRecord(ms, Some(k)) => [OPEN_BRACE] + RenderMembers(ms) + Comma(ms == []) + k
  }

  /** The same up to where the next value goes. */
  function BeforeValue(o: Open): Bytes
  {
    match o
    case OpenList(items) => OpenText(o) + Comma(items == [])
    case OpenRecord(_, _) => OpenText(o) + [COLON]
  }

  function Parents(os: seq<Open>): Bytes
  {
    if os == [] then [] else Parents(os[..|os| - 1]) + BeforeValue(os[|os| - 1])
  }

  predicate OpenFits(o: Open, room: nat)
  {
    match o
    case OpenList(items) => forall i :: 0 <= i < |items| ==> Fits(items[i], room)
    case OpenRecord(ms, key) =>
      && (forall i :: 0 <= i < |ms| ==> IsLiteral(ms[i].key) && Fits(ms[i].value, room))
      && (key.Some? ==> IsLiteral(key.value))
  }

  /** A container inside which another one is open. */
  predicate ParentOk(f: Frame, o: Open)
  {
    f.st == AtValue && f.isObject == o.OpenRecord? && (o.OpenRecord? ==> o.key.Some?)
  }

  predicate TopOk(f: Frame, o: Open)
  {
    match o
    case OpenList(items) => !f.isObject && (if items == [] then f.st == AtValue else f.st == AfterValue)
    case OpenRecord(ms, None) => f.isObject && (if ms == [] then f.st == AtKey else f.st == AfterValue)
    case OpenRecord(ms, Some(_)) => f.isObject && (f.st == AtColon || f.st == AtValue)
  }

  function TopText(f: Frame, o: Open): Bytes
  {
    if f.isObject && f.st == AtValue then OpenText(o) + [COLON] else OpenText(o)
  }

  predicate OpensFit(os: seq<Open>, max: nat)
  {
    |os| <= max && forall i :: 0 <= i < |os| ==> OpenFits(os[i], max - 1 - i)
  }

  predicate ParentsOk(fs: seq<Frame>, os: seq<Open>)
  {
    |fs| == |os| && forall i :: 0 <= i < |fs| ==> ParentOk(fs[i], os[i])
  }

  /** A value may be written right here. */
  predicate Poised(c: Core, os: seq<Open>, max: nat)
  {
    !c.topDone && ParentsOk(c.frames, os) && OpensFit(os, max) && c.out == Parents(os)
  }

  predicate Matches(c: Core, s: Shape, max: nat)
  {
    if c.frames == [] then
      && s.opens == []
      && (if c.topDone then s.root.Some? && Fits(s.root.value, max) && c.out == Render(s.root.value) else c.out == [])
    else
      var n := |c.frames| - 1;
      && |s.opens| == n + 1
      && !c.topDone
      && ParentsOk(c.frames[..n], s.opens[..n])
      && OpensFit(s.opens, max)
      && TopOk(c.frames[n], s.opens[n])
      && c.out == Parents(s.opens[..n]) + TopText(c.frames[n], s.opens[n])
  }

  // --- Completing a value ---

  lemma RenderItemsAppend(items: seq<Raw>, v: Raw)
    ensures RenderItems(items + [v]) == RenderItems(items) + Comma(items == []) + Render(v)
  {
    assert (items + [v])[..|items|] == items;
    hide Render;
  }

  lemma RenderMembersAppend(ms: seq<RawMember>, m: RawMember)
    ensures RenderMembers(ms + [m]) == RenderMembers(ms) + Comma(ms == []) + (m.key + [COLON] + Render(m.value))
  {
    assert (ms + [m])[..|ms|] == ms;
    hide Render;
  }

  /** The container with one more value in it. */
  function Added(o: Open, v: Raw): Open
    requires o.OpenRecord? ==> o.key.Some?
  {
    match o
    case OpenList(items) => OpenList(items + [v])
    case OpenRecord(ms, Some(k)) => OpenRecord(ms + [RawMember(k, v)], None)
  }

  lemma AddedText(o: Open, v: Raw)
    requires o.OpenRecord? ==> o.key.Some?
    ensures BeforeValue(o) + Render(v) == OpenText(Added(o, v))
  {
    hide Render, RenderItems, RenderMembers;
    match o
    case OpenList(items) =>
      RenderItemsAppend(items, v);
      ListAssociates([OPEN_BRACKET], RenderItems(items), Comma(items == []), Render(v));
    case OpenRecord(ms, Some(k)) =>
      RenderMembersAppend(ms, RawMember(k, v));
      RecordAssociates([OPEN_BRACE], RenderMembers(ms), Comma(ms == []), k, [COLON], Render(v));
  }

  lemma ListAssociates(a: Bytes, b: Bytes, c: Bytes, d: Bytes)
    ensures a + b + c + d == a + (b + c + d)
  {
    Associates(a, b, c);
    Associates(a, b + c, d);
  }

  lemma RecordAssociates(a: Bytes, b: Bytes, c: Bytes, d: Bytes, e: Bytes, f: Bytes)
    ensures a + b + c + d + e + f == a + (b + c + (d + e + f))
  {
    Associates(d, e, f);
    ListAssociates(a, b, c, d + e + f);
    Associates(a + b + c + d, e, f);
    Associates(a + b + c, d, e + f);
  }

  lemma AddedFits(o: Open, v: Raw, room: nat)
    requires OpenFits(o, room) && Fits(v, room) && (o.OpenRecord? ==> o.key.Some?)
    ensures OpenFits(Added(o, v), room)
  {
    hide Fits, IsLiteral;
  }

  /** The shape once v stands where the last value was awaited. */
  function Complete(os: seq<Open>, v: Raw): Shape
    requires forall i :: 0 <= i < |os| && os[i].OpenRecord? ==> os[i].key.Some?
  {
    if os == [] then Shape([], Some(v))
    else Shape(os[..|os| - 1] + [Added(os[|os| - 1], v)], None)
  }

  lemma Completes(c: Core, os: seq<Open>, v: Raw, max: nat)
    requires !c.topDone && ParentsOk(c.frames, os) && OpensFit(os, max) && Fits(v, max - |os|)
    requires c.out == Parents(os) + Render(v)
    ensures Matches(ValueDone(c), Complete(os, v), max)
  {
    hide Render, Fits, OpenText, BeforeValue, OpenFits, Added, IsLiteral;
    if os == [] {
      assert Parents(os) + Render(v) == Render(v);
    } else {
      var n := |os| - 1;
      AddedText(os[n], v);
      AddedFits(os[n], v, max - 1 - n);
      AddedTop(os[n], v);
      Associates(Parents(os[..n]), BeforeValue(os[n]), Render(v));
      var t := Complete(os, v);
      assert t.opens[..n] == os[..n] && t.opens[n] == Added(os[n], v);
      var d := ValueDone(c);
      assert d.frames[..n] == c.frames[..n];
    }
  }

  lemma AddedTop(o: Open, v: Raw)
    requires o.OpenRecord? ==> o.key.Some?
    ensures forall f: Frame :: f.isObject == o.OpenRecord? && f.st == AfterValue ==> TopOk(f, Added(o, v))
  {
  }

  // --- Separators ---

  /** The container with the key that a stray value is given. */
  function Keyed(f: Frame, o: Open): Open
  {
    match o
    case OpenRecord(ms, None) => OpenRecord(ms, Some([QUOTE, QUOTE]))
    case _ => o
  }

  function Separator(f: Frame, o: Open): Bytes
  {
    match o
    case OpenList(items) => Comma(items == [])
    case OpenRecord(ms, None) => Comma(ms == []) + EMPTY_KEY
    case OpenRecord(ms, Some(_)) => if f.st == AtColon then [COLON] else []
  }

  lemma EmptyKeyIsLiteral()
    ensures IsLiteral([QUOTE, QUOTE])
  {
  }

  lemma SeparatorText(f: Frame, o: Open)
    requires TopOk(f, o)
    ensures TopText(f, o) + Separator(f, o) == BeforeValue(Keyed(f, o))
  {
    hide RenderItems, RenderMembers;
    match o
    case OpenList(items) =>
    case OpenRecord(ms, None) =>
      assert EMPTY_KEY == [QUOTE, QUOTE] + [COLON];
      var t := OpenText(o);
      Associates(t, Comma(ms == []), EMPTY_KEY);
      Associates(t + Comma(ms == []), [QUOTE, QUOTE], [COLON]);
    case OpenRecord(ms, Some(k)) => NothingMore(TopText(f, o));
  }

  lemma PrepareWrites(c: Core, o: Open)
    requires c.frames != [] && TopOk(Top(c), o)
    ensures PrepareValue(c).out == c.out + Separator(Top(c), o)
    ensures var v := PrepareValue(c);
            v.stop == c.stop && v.topDone == c.topDone && v.frames == c.frames[..|c.frames| - 1] + [Top(c).(st := AtValue)]
  {
    NothingMore(c.out);
    Associates(c.out, [COMMA], EMPTY_KEY);
    assert [] + EMPTY_KEY == EMPTY_KEY;
  }

  lemma Prepares(c: Core, s: Shape, max: nat) returns (os: seq<Open>)
    requires Matches(c, s, max) && !PrepareValue(c).stop && !c.stop
    ensures Poised(PrepareValue(c), os, max)
  {
    hide OpenText, BeforeValue, TopText, Separator, OpenFits, RenderItems, RenderMembers, PutComma, PutKey;
    os := s.opens;
    if c.frames != [] {
      var n := |c.frames| - 1;
      var f, o := c.frames[n], s.opens[n];
      hide PrepareValue;
      PrepareWrites(c, o);
      SeparatorText(f, o);
      KeyedFits(f, o, max - 1 - n);
      os := s.opens[..n] + [Keyed(f, o)];
      assert os[..n] == s.opens[..n];
      Associates(Parents(s.opens[..n]), TopText(f, o), Separator(f, o));
    }
  }

  lemma KeyedFits(f: Frame, o: Open, room: nat)
    requires OpenFits(o, room) && TopOk(f, o)
    ensures OpenFits(Keyed(f, o), room) && ParentOk(f.(st := AtValue), Keyed(f, o))
  {
    hide Fits;
    EmptyKeyIsLiteral();
  }

  // --- Opening and closing ---

  lemma Opens(v: Core, os: seq<Open>, isObject: bool, max: nat)
    requires Poised(v, os, max) && |v.frames| < max
    ensures var r := Emit(v.(frames := v.frames + [Frame(isObject, if isObject then AtKey else AtValue, false)]),
                          [if isObject then OPEN_BRACE else OPEN_BRACKET]);
            Matches(r, Shape(os + [if isObject then OpenRecord([], None) else OpenList([])], None), max)
  {
    hide BeforeValue, OpenFits;
    var o := if isObject then OpenRecord([], None) else OpenList([]);
    var t := os + [o];
    assert t[..|os|] == os;
    FreshFits(isObject, max - 1 - |os|);
    assert (v.frames + [Frame(isObject, if isObject then AtKey else AtValue, false)])[..|os|] == v.frames;
    assert [OPEN_BRACE] + [] == [OPEN_BRACE] && [OPEN_BRACKET] + [] == [OPEN_BRACKET];
  }

  lemma FreshFits(isObject: bool, room: nat)
    ensures OpenFits(if isObject then OpenRecord([], None) else OpenList([]), room)
  {
  }

  /** The container with null for the value its key still waits for. */
  function Filled(o: Open): Open
  {
    match o
    case OpenRecord(ms, Some(k)) => OpenRecord(ms + [RawMember(k, Atom(NULL_WORD))], None)
    case _ => o
  }

  function FillText(f: Frame, o: Open): Bytes
  {
    match o
    case OpenRecord(ms, Some(_)) => if f.st == AtColon then [COLON] + NULL_WORD else NULL_WORD
    case _ => []
  }

  lemma FilledText(f: Frame, o: Open)
    requires TopOk(f, o)
    ensures TopText(f, o) + FillText(f, o) == OpenText(Filled(o))
  {
    hide RenderItems, RenderMembers, OpenText;
    match o
    case OpenRecord(ms, Some(k)) =>
      AddedText(o, Atom(NULL_WORD));
      BeforeIsText(o);
      Associates(OpenText(o), [COLON], NULL_WORD);
    case _ =>
      NothingMore(TopText(f, o));
  }

  lemma BeforeIsText(o: Open)
    requires o.OpenRecord?
    ensures BeforeValue(o) == OpenText(o) + [COLON]
  {
  }

  lemma FilledFits(o: Open, room: nat)
    requires OpenFits(o, room)
    ensures OpenFits(Filled(o), room)
  {
    hide IsLiteral;
  }

  lemma PendingWrites(c: Core, f: Frame, o: Open)
    requires TopOk(f, o)
    ensures ClosePending(c, f).out == c.out + FillText(f, o)
  {
    NothingMore(c.out);
  }

  /** The complete container. */
  function Closed(o: Open): Raw
  {
    match o
    case OpenList(items) => List(items)
    case OpenRecord(ms, _) => Record(ms)
  }

  lemma ClosedText(o: Open)
    requires o.OpenRecord? ==> o.key.None?
    ensures OpenText(o) + [if o.OpenRecord? then CLOSE_BRACE else CLOSE_BRACKET] == Render(Closed(o))
  {
    hide RenderItems, RenderMembers;
  }

  lemma ClosedFits(o: Open, room: nat)
    requires OpenFits(o, room)
    ensures Fits(Closed(o), room + 1)
  {
    hide IsLiteral;
  }

  lemma CloseWrites(c: Core, ch: byte)
    requires c.frames != []
    ensures var r := CloseContainer(c, ch);
            var d := c.(out := ClosePending(c, Top(c)).out + [Closer(Top(c))], frames := c.frames[..|c.frames| - 1]);
            r.out == ValueDone(d).out && r.frames == ValueDone(d).frames && r.topDone == ValueDone(d).topDone
  {
  }

  lemma SameMatches(a: Core, b: Core, s: Shape, max: nat)
    requires a.out == b.out && a.frames == b.frames && a.topDone == b.topDone && Matches(a, s, max)
    ensures Matches(b, s, max)
  {
    hide ParentsOk, OpensFit, TopOk, Parents, TopText, Fits, Render;
  }

  lemma CloseText(c: Core, f: Frame, o: Open, front: Bytes)
    requires TopOk(f, o) && c.out == front + TopText(f, o)
    ensures ClosePending(c, f).out + [Closer(f)] == front + Render(Closed(Filled(o)))
  {
    hide *;
    PendingWrites(c, f, o);
    FilledText(f, o);
    FilledKeyless(f, o);
    ClosedText(Filled(o));
    CloseAssociates(front, TopText(f, o), FillText(f, o), [Closer(f)]);
  }

  lemma Closes(c: Core, s: Shape, ch: byte, max: nat) returns (t: Shape)
    requires c.frames != [] && Matches(c, s, max)
    ensures Matches(CloseContainer(c, ch), t, max)
  {
    hide *;
    var n := |c.frames| - 1;
    MatchesOpen(c, s, max);
    var f, o, front := c.frames[n], s.opens[n], s.opens[..n];
    var v := Closed(Filled(o));
    CloseText(c, f, o, Parents(front));
    FilledFits(o, max - 1 - n);
    ClosedFits(Filled(o), max - 1 - n);
    CloseWrites(c, ch);
    FrontFits(s.opens, n, max);
    var d := c.(out := Parents(front) + Render(v), frames := c.frames[..n]);
    Completes(d, front, v, max);
    KeysWait(d.frames, front);
    t := Complete(front, v);
    SameMatches(ValueDone(d), CloseContainer(c, ch), t, max);
  }

  lemma KeysWait(fs: seq<Frame>, os: seq<Open>)
    requires ParentsOk(fs, os)
    ensures forall i :: 0 <= i < |os| && os[i].OpenRecord? ==> os[i].key.Some?
  {
  }

  lemma CloseAssociates(p: Bytes, a: Bytes, b: Bytes, c: Bytes)
    ensures p + a + b + c == p + (a + b + c)
  {
    Associates(p, a, b);
    Associates(p, a + b, c);
  }

  lemma MatchesOpen(c: Core, s: Shape, max: nat)
    requires c.frames != [] && Matches(c, s, max)
    ensures var n := |c.frames| - 1;
            && |s.opens| == n + 1
            && !c.topDone
            && n + 1 <= max
            && Top(c) == c.frames[n]
            && ParentsOk(c.frames[..n], s.opens[..n])
            && OpensFit(s.opens, max)
            && OpenFits(s.opens[n], max - 1 - n)
            && TopOk(c.frames[n], s.opens[n])
            && c.out == Parents(s.opens[..n]) + TopText(c.frames[n], s.opens[n])
  {
    hide ParentsOk, OpenFits, TopOk, Parents, TopText, Fits, Render;
  }

  lemma FrontFits(os: seq<Open>, n: nat, max: nat)
    requires OpensFit(os, max) && n <= |os|
    ensures OpensFit(os[..n], max)
  {
    hide OpenFits;
  }

  lemma FilledKeyless(f: Frame, o: Open)
    requires TopOk(f, o)
    ensures Filled(o).OpenRecord? == o.OpenRecord? && (o.OpenRecord? ==> Filled(o).key.None?)
    ensures Closer(f) == if Filled(o).OpenRecord? then CLOSE_BRACE else CLOSE_BRACKET
  {
  }

  // --- Commas and colons ---

  /** Replacing the top frame and the top container, with what was written in between. */
  lemma TopChanges(c: Core, s: Shape, d: Core, f: Frame, o: Open, w: Bytes, max: nat)
    requires c.frames != [] && Matches(c, s, max)
    requires var n := |c.frames| - 1;
             d.frames == c.frames[..n] + [f] && d.topDone == c.topDone && d.out == c.out + w &&
             TopOk(f, o) && OpenFits(o, max - 1 - n) && TopText(c.frames[n], s.opens[n]) + w == TopText(f, o)
    ensures Matches(d, Shape(s.opens[..|c.frames| - 1] + [o], None), max)
  {
    hide TopOk, OpenFits, TopText, Parents, ParentOk, Fits, Render;
    var n := |c.frames| - 1;
    var t := s.opens[..n] + [o];
    assert t[..n] == s.opens[..n] && d.frames[..n] == c.frames[..n];
    Associates(Parents(s.opens[..n]), TopText(c.frames[n], s.opens[n]), w);
  }

  lemma Commas(c: Core, s: Shape, max: nat) returns (t: Shape)
    requires Matches(c, s, max)
    ensures Matches(CommaStep(c), t, max)
  {
    hide OpenFits, OpenText, TopText, Parents, ParentsOk, OpensFit, Fits, Render, FillText;
    t := s;
    if c.frames != [] {
      var n := |c.frames| - 1;
      var f, o := c.frames[n], s.opens[n];
      MatchesOpen(c, s, max);
      var g := f.(st := AfterValue, commaSeen := true);
      if f.isObject && (f.st == AtColon || f.st == AtValue) {
        FilledText(f, o);
        FilledFits(o, max - 1 - n);
        PendingWrites(c, f, o);
        TextOfDone(g, Filled(o));
        TopChanges(c, s, CommaStep(c), g, Filled(o), FillText(f, o), max);
        t := Shape(s.opens[..n] + [Filled(o)], None);
      } else if f.st == AfterValue && !f.commaSeen {
        NothingMore(c.out);
        TextOfDone(f, o);
        TextOfDone(g, o);
        NothingMore(TopText(f, o));
        TopChanges(c, s, CommaStep(c), g, o, [], max);
        t := Shape(s.opens[..n] + [o], None);
      } else {
        SameMatches(c, CommaStep(c), s, max);
      }
    } else {
      SameMatches(c, CommaStep(c), s, max);
    }
  }

  lemma TextOfDone(f: Frame, o: Open)
    requires f.st != AtValue || !f.isObject
    ensures TopText(f, o) == OpenText(o)
  {
  }

  lemma Colons(c: Core, s: Shape, ch: byte, max: nat) returns (t: Shape)
    requires Matches(c, s, max)
    ensures Matches(ColonStep(c, ch), t, max)
  {
    hide OpenFits, OpenText, Parents, ParentsOk, OpensFit, Fits, Render;
    t := s;
    if c.frames != [] && Top(c).isObject && Top(c).st == AtColon {
      var n := |c.frames| - 1;
      var f, o := c.frames[n], s.opens[n];
      MatchesOpen(c, s, max);
      TopChanges(c, s, ColonStep(c, ch), f.(st := AtValue), o, [COLON], max);
      t := Shape(s.opens[..n] + [o], None);
    } else {
      SameMatches(c, ColonStep(c, ch), s, max);
    }
  }

  // --- Keys ---

  lemma Keys(c: Core, s: Shape, d: Core, key: Bytes, max: nat) returns (t: Shape)
    requires Matches(c, s, max) && AtKeyPosition(c) && IsLiteral(key)
    requires d.frames == PrepareKey(c).frames && d.topDone == c.topDone && d.out == PrepareKey(c).out + key
    ensures Matches(d, t, max)
  {
    hide OpenFits, Parents, ParentsOk, OpensFit, Fits, Render, IsLiteral, RenderMembers, RenderItems;
    var n := |c.frames| - 1;
    var f, o := c.frames[n], s.opens[n];
    MatchesOpen(c, s, max);
    var p := OpenRecord(o.members, Some(key));
    KeyFits(o, key, max - 1 - n);
    KeyWrites(c, o);
    var comma := Comma(o.members == []);
    Associates(c.out, comma, key);
    Associates(OpenText(o), comma, key);
    TopChanges(c, s, d, f.(st := AtColon), p, comma + key, max);
    t := Shape(s.opens[..n] + [p], None);
  }

  lemma KeyFits(o: Open, key: Bytes, room: nat)
    requires o.OpenRecord? && OpenFits(o, room) && IsLiteral(key)
    ensures OpenFits(OpenRecord(o.members, Some(key)), room)
  {
    hide IsLiteral, Fits;
  }

  lemma KeyWrites(c: Core, o: Open)
    requires AtKeyPosition(c) && TopOk(Top(c), o)
    ensures PrepareKey(c).out == c.out + Comma(o.members == [])
    ensures PrepareKey(c).frames == c.frames[..|c.frames| - 1] + [Top(c).(st := AtColon)]
    ensures PrepareKey(c).topDone == c.topDone
  {
    NothingMore(c.out);
  }
}
