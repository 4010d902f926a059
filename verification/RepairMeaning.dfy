/** What a loose text denotes is what its repaired text means. */
module LooseTrees {
  import opened Bytes
  import opened Texts
  import opened Options
  import opened JsonValue
  import opened Grammar
  import opened LooseText
  import opened RepairedWords
  import opened LooseTokens
  import ParserGrammar

  // --- The JSON text of a loose one ---

  ghost function Tree(v: Loose): Grammar.Text
    requires GoodLoose(v)
    decreases v, 1
  {
    hide GoodToken, GoodEntry, GoodField, GoodGap;
    match v
    case Leaf(k) => TokenTree(k)
    case List(es, _, _) => TArray(Trees(es), [])
    case Record(fs, _, _) => TObject(Mems(fs), [])
  }

  ghost function EntryTree(e: Entry): Item
    requires GoodEntry(e)
    decreases e, 2
  {
    hide GoodToken, GoodLoose, GoodGap;
    Item([], Tree(e.value), [])
  }

  ghost function Trees(es: seq<Entry>): (r: seq<Item>)
    requires forall i :: 0 <= i < |es| ==> GoodEntry(es[i])
    ensures |r| == |es|
    decreases es, 0
  {
    hide GoodToken, GoodLoose, GoodGap;
    if es == [] then [] else [EntryTree(es[0])] + Trees(es[1..])
  }

  ghost function FieldTree(f: Field): Mem
    requires GoodField(f)
    decreases f, 2
  {
    hide GoodToken, GoodLoose, GoodGap;
    Mem([], if f.key.Some? then KeyChars(f.key.value) else [], [],
        Item([], if f.value.Some? then Tree(f.value.value) else TNull, []))
  }

  ghost function Mems(fs: seq<Field>): (r: seq<Mem>)
    requires forall i :: 0 <= i < |fs| ==> GoodField(fs[i])
    ensures |r| == |fs|
    decreases fs, 0
  {
    hide GoodToken, GoodLoose, GoodGap;
    if fs == [] then [] else [FieldTree(fs[0])] + Mems(fs[1..])
  }

  lemma TreesUnfold(es: seq<Entry>)
    requires es != [] && forall i :: 0 <= i < |es| ==> GoodEntry(es[i])
    ensures Trees(es)[0] == EntryTree(es[0]) && Trees(es)[1..] == Trees(es[1..])
    ensures forall i :: 0 <= i < |es| - 1 ==> es[1..][i] == es[i + 1]
  {
    hide EntryTree, GoodEntry;
  }

  lemma MemsUnfold(fs: seq<Field>)
    requires fs != [] && forall i :: 0 <= i < |fs| ==> GoodField(fs[i])
    ensures Mems(fs)[0] == FieldTree(fs[0]) && Mems(fs)[1..] == Mems(fs[1..])
    ensures forall i :: 0 <= i < |fs| - 1 ==> fs[1..][i] == fs[i + 1]
  {
    hide FieldTree, GoodField;
  }

  /** The JSON text of a loose one means what that denotes. */
  lemma {:induction false} TreeIs(v: Loose)
    requires GoodLoose(v)
    ensures Good(Tree(v)) && Means(Tree(v)) == Says(v)
    decreases v, 1
  {
    hide GoodToken, GoodEntry, GoodField, GoodGap, TokenTree, TokenSays;
    hide GoodItem, GoodMem, MeanItems, MeanMems, EntriesSay, FieldsSay;
    match v
    case Leaf(k) => TokenTreeIs(k);
    case List(es, _, _) => TreesAre(es);
    case Record(fs, _, _) => MemsAre(fs);
  }

  lemma {:induction false} EntryIs(e: Entry)
    requires GoodEntry(e)
    ensures GoodItem(EntryTree(e)) && MeansItem(EntryTree(e)) == EntrySays(e)
    decreases e, 2
  {
    hide GoodLoose, GoodGap, Good, Means, Says, Tree;
    TreeIs(e.value);
  }

  lemma {:induction false} TreesAre(es: seq<Entry>)
    requires forall i :: 0 <= i < |es| ==> GoodEntry(es[i])
    ensures (forall i :: 0 <= i < |es| ==> GoodItem(Trees(es)[i])) && MeanItems(Trees(es)) == EntriesSay(es)
    decreases es, 0
  {
    hide GoodEntry, GoodItem, EntryTree, MeansItem, EntrySays;
    if es != [] {
      TreesUnfold(es);
      EntryIs(es[0]);
      TreesAre(es[1..]);
      var items := Trees(es);
      forall i | 0 <= i < |es| ensures GoodItem(items[i]) { if i > 0 { assert items[i] == items[1..][i - 1]; } }
    }
  }

  lemma {:induction false} FieldIs(f: Field)
    requires GoodField(f)
    ensures GoodMem(FieldTree(f)) && MeansMem(FieldTree(f)) == FieldSays(f)
    decreases f, 2
  {
    hide GoodLoose, GoodGap, GoodToken, Means, Says, Tree, KeyChars, KeySays, GoodChars, CharsMean;
    if f.key.Some? { KeyIs(f.key.value); } else { NoChars(); }
    if f.value.Some? { TreeIs(f.value.value); } else { NullIs(); }
    hide Good;
  }

  lemma NullIs()
    ensures Good(TNull) && Means(TNull) == Null
  {
  }

  lemma {:induction false} MemsAre(fs: seq<Field>)
    requires forall i :: 0 <= i < |fs| ==> GoodField(fs[i])
    ensures (forall i :: 0 <= i < |fs| ==> GoodMem(Mems(fs)[i])) && MeanMems(Mems(fs)) == FieldsSay(fs)
    decreases fs, 0
  {
    hide GoodField, GoodMem, FieldTree, MeansMem, FieldSays;
    if fs != [] {
      MemsUnfold(fs);
      FieldIs(fs[0]);
      MemsAre(fs[1..]);
      var ms := Mems(fs);
      forall i | 0 <= i < |fs| ensures GoodMem(ms[i]) { if i > 0 { assert ms[i] == ms[1..][i - 1]; } }
    }
  }

  /** It nests no deeper. */
  lemma {:induction false} TreeWithin(v: Loose, room: int)
    requires GoodLoose(v) && LooseText.Within(v, room)
    ensures Grammar.Within(Tree(v), room)
    decreases v, 1
  {
    hide GoodToken, GoodGap, TokenTree;
    match v
    case Leaf(k) => TokenWithin(k, room);
    case List(es, _, _) =>
      forall i | 0 <= i < |es| ensures Grammar.Within(Trees(es)[i].value, room - 1) {
        TreeAt(es, i);
        TreeWithin(es[i].value, room - 1);
      }
    case Record(fs, _, _) =>
      forall i | 0 <= i < |fs| ensures WithinMem(Mems(fs)[i], room - 1) {
        MemAt(fs, i);
        FieldWithin(fs[i], room - 1);
      }
  }

  lemma {:induction false} FieldWithin(f: Field, room: int)
    requires GoodField(f) && WithinField(f, room)
    ensures WithinMem(FieldTree(f), room)
    decreases f, 2
  {
    hide GoodToken, GoodGap, Tree, GoodLoose;
    if f.value.Some? { TreeWithin(f.value.value, room); }
  }

  lemma TokenWithin(k: Token, room: int)
    requires GoodToken(k)
    ensures Grammar.Within(TokenTree(k), room)
  {
    hide GoodToken, CharsText, Singles, PiecesChars, NumeralNumber;
  }

  lemma {:induction false} TreeAt(es: seq<Entry>, i: nat)
    requires i < |es| && forall i :: 0 <= i < |es| ==> GoodEntry(es[i])
    ensures Trees(es)[i] == EntryTree(es[i]) && Trees(es)[i].value == Tree(es[i].value)
    decreases i
  {
    hide GoodLoose, GoodGap, Tree;
    TreesUnfold(es);
    if i > 0 { TreeAt(es[1..], i - 1); }
  }

  lemma {:induction false} MemAt(fs: seq<Field>, i: nat)
    requires i < |fs| && forall i :: 0 <= i < |fs| ==> GoodField(fs[i])
    ensures Mems(fs)[i] == FieldTree(fs[i])
    decreases i
  {
    hide GoodField, FieldTree;
    MemsUnfold(fs);
    if i > 0 { MemAt(fs[1..], i - 1); }
  }
}

/** The repairer's main loop over a loose text, one construct after the other. */
module LooseRuns {
  import opened Bytes
  import opened Texts
  import opened Options
  import opened JsonValue
  import opened Grammar
  import opened LooseText
  import opened RepairedWords
  import opened LooseTokens
  import opened LooseTrees
  import RepairSpec

  type Frame = RepairSpec.Frame

  // --- States inside a container ---

  /** A state after more output, more flaws and a move, with another innermost frame. */
  function At(c: Core, s: Bytes, fl: seq<Kind>, f: Frame, p: nat): Core
    requires c.frames != []
  {
    RepairSpec.SetTop(Put(c, s, fl), f).(pos := p)
  }

  lemma AtFacts(c: Core, s: Bytes, fl: seq<Kind>, f: Frame, p: nat)
    requires c.frames != []
    ensures var r := At(c, s, fl, f, p);
            && r.frames != [] && |r.frames| == |c.frames| && RepairSpec.Top(r) == f && r.stop == c.stop && r.pos == p
            && Running(r) == !c.stop
            && (RepairSpec.AtKeyPosition(r) <==> f.isObject && (f.st == RepairSpec.AtKey || f.st == RepairSpec.AfterValue))
  {
  }

  lemma AtAt(c: Core, a: Bytes, fa: seq<Kind>, f: Frame, p: nat, b: Bytes, fb: seq<Kind>, g: Frame, q: nat)
    requires c.frames != []
    ensures At(c, a, fa, f, p).frames != []
    ensures At(At(c, a, fa, f, p), b, fb, g, q) == At(c, a + b, fa + fb, g, q)
  {
    PutPut(c, a, fa, b, fb);
    hide Kinds;
    var k := c.frames[..|c.frames| - 1];
    assert (k + [f])[..|c.frames| - 1] == k;
  }

  lemma AtPut(c: Core, s: Bytes, fl: seq<Kind>, p: nat)
    requires c.frames != []
    ensures Put(c, s, fl).(pos := p) == At(c, s, fl, RepairSpec.Top(c), p)
  {
    assert c.frames == c.frames[..|c.frames| - 1] + [RepairSpec.Top(c)];
    hide Kinds;
  }

  lemma AtHere(c: Core)
    requires c.frames != []
    ensures At(c, [], [], RepairSpec.Top(c), c.pos) == c
  {
    AtPut(c, [], [], c.pos);
    PutNothing(c);
    hide At, Put;
  }

  // --- What stands before a value ---

  /** The comma that was put off. */
  function Lead(f: Frame): Bytes { if f.st == RepairSpec.AfterValue then [0x2C] else [] }

  function LeadFlaws(f: Frame): seq<Kind>
  {
    If(f.st == RepairSpec.AfterValue && !f.commaSeen, RepairSpec.MissingComma)
  }

  /** An empty key or a colon that is missing. */
  function Link(f: Frame): Bytes
  {
    if !f.isObject || f.st == RepairSpec.AtValue then []
    else if f.st == RepairSpec.AtColon then [0x3A]
    else [0x22, 0x22, 0x3A]
  }

  function LinkFlaws(f: Frame): seq<Kind>
  {
    if !f.isObject || f.st == RepairSpec.AtValue then []
    else if f.st == RepairSpec.AtColon then [RepairSpec.MissingColon]
    else [RepairSpec.Garbage]
  }

  /** The frame after a value, and whether a comma came. */
  function Next(f: Frame, comma: bool): Frame { RepairSpec.Frame(f.isObject, RepairSpec.AfterValue, comma) }

  lemma CommaIs(c: Core, f: Frame)
    ensures RepairSpec.PutComma(c, f) == Put(c, Lead(f), LeadFlaws(f))
  {
    PutNothing(c);
    PutEmit(c, [0x2C]);
    PutFixEmit(c, RepairSpec.MissingComma, [0x2C]);
    hide Put;
  }

  lemma LinkIs(c: Core, f: Frame)
    ensures RepairSpec.PutKey(c, f) == Put(c, Link(f), LinkFlaws(f))
  {
    PutNothing(c);
    PutFixEmit(c, RepairSpec.Garbage, RepairSpec.EMPTY_KEY);
    PutFixEmit(c, RepairSpec.MissingColon, [0x3A]);
    hide Put;
  }

  lemma PrepareIs(c: Core)
    requires c.frames != []
    ensures RepairSpec.PrepareValue(c)
         == var f := RepairSpec.Top(c);
            At(c, Lead(f) + Link(f), LeadFlaws(f) + LinkFlaws(f), f.(st := RepairSpec.AtValue), c.pos)
  {
    var f := RepairSpec.Top(c);
    CommaIs(c, f);
    LinkIs(RepairSpec.PutComma(c, f), f);
    PutPut(c, Lead(f), LeadFlaws(f), Link(f), LinkFlaws(f));
    hide Put, Lead, LeadFlaws, Link, LinkFlaws, RepairSpec.PutComma, RepairSpec.PutKey;
    PutKeeps(c, Lead(f) + Link(f), LeadFlaws(f) + LinkFlaws(f));
  }

  lemma DoneIs(c: Core)
    requires c.frames != []
    ensures RepairSpec.ValueDone(c) == At(c, [], [], Next(RepairSpec.Top(c), false), c.pos)
  {
    PutNothing(c);
    hide Put;
  }

  lemma ValAt(c: Core, s: Bytes, fl: seq<Kind>)
    requires c.frames != []
    ensures var f := RepairSpec.Top(c);
            Val(c, s, fl) == At(c, Lead(f) + Link(f) + s, LeadFlaws(f) + LinkFlaws(f) + fl, Next(f, false), c.pos)
  {
    hide *;
    var f := RepairSpec.Top(c);
    var g := f.(st := RepairSpec.AtValue);
    var a, fa := Lead(f) + Link(f), LeadFlaws(f) + LinkFlaws(f);
    PrepareIs(c);
    ValIs(c, s, fl);
    var v := At(c, a, fa, g, c.pos);
    AtFacts(c, a, fa, g, c.pos);
    AtPut(v, s, fl, c.pos);
    PutKeeps(v, s, fl);
    AtAt(c, a, fa, g, c.pos, s, fl, g, c.pos);
    var w := At(c, a + s, fa + fl, g, c.pos);
    SamePos(Put(v, s, fl), c.pos);
    AtFacts(c, a + s, fa + fl, g, c.pos);
    DoneIs(w);
    AtAt(c, a + s, fa + fl, g, c.pos, [], [], Next(g, false), c.pos);
    NothingMore(a + s);
    assert fa + fl + [] == fa + fl;
    NextSame(f);
  }

  lemma SamePos(c: Core, p: nat)
    requires c.pos == p
    ensures c.(pos := p) == c
  {
  }

  lemma NextSame(f: Frame)
    ensures Next(f.(st := RepairSpec.AtValue), false) == Next(f, false)
  {
  }

  // --- Steps ---

  lemma FillAt(inp: Bytes, c: Core, s: Bytes, fl: seq<Kind>, f: Frame, p: nat, fill: Fill, max: nat)
    requires c.frames != [] && !c.stop && GoodGap(fill) && Holds(inp, p, FillText(fill))
    ensures p + |FillText(fill)| <= |inp|
    ensures RepairSpec.Run(inp, At(c, s, fl, f, p), max)
         == RepairSpec.Run(inp, At(c, s, fl + FillFlaws(fill), f, p + |FillText(fill)|), max)
  {
    hide *;
    var d := At(c, s, fl, f, p);
    var q := p + |FillText(fill)|;
    AtFacts(c, s, fl, f, p);
    GapIs(fill);
    FillRuns(fill, inp, d, max);
    AtPut(d, [], FillFlaws(fill), q);
    AtAt(c, s, fl, f, p, [], FillFlaws(fill), f, q);
    NothingMore(s);
  }

  lemma GapIs(s: Fill)
    requires GoodGap(s)
    ensures GoodFill(s)
  {
    hide GoodFill;
  }

  /** A byte that is punctuation. */
  lemma ByteStarts(inp: Bytes, c: Core, max: nat)
    requires c.pos < |inp| && !c.stop
    ensures inp[c.pos] == 0x2C ==>
              RepairSpec.Run(inp, c, max) == RepairSpec.Run(inp, RepairSpec.CommaStep(c.(pos := c.pos + 1)), max)
    ensures inp[c.pos] == 0x3A || inp[c.pos] == 0x3D ==>
              RepairSpec.Run(inp, c, max) == RepairSpec.Run(inp, RepairSpec.ColonStep(c.(pos := c.pos + 1), inp[c.pos]), max)
    ensures IsClose(inp[c.pos]) ==>
              RepairSpec.Run(inp, c, max) == RepairSpec.Run(inp, RepairSpec.CloseContainer(c.(pos := c.pos + 1), inp[c.pos]), max)
    ensures inp[c.pos] == 0x5B || inp[c.pos] == 0x7B ==>
              var r := RepairSpec.OpenContainer(c.(pos := c.pos + 1), inp[c.pos] == 0x7B, max);
              r.pos <= |inp| && RepairSpec.Run(inp, c, max) == RepairSpec.Run(inp, r, max)
  {
    hide RepairSpec.Run, RepairSpec.CommaStep, RepairSpec.ColonStep, RepairSpec.CloseContainer, RepairSpec.OpenContainer;
    var b := inp[c.pos];
    if b == 0x2C || b == 0x3A || b == 0x3D || IsClose(b) || b == 0x5B || b == 0x7B { OneToken(inp, c, max); }
  }

  lemma CommaSteps(c: Core, f: Frame)
    requires c.frames != [] && RepairSpec.Top(c) == f
    ensures f.st == RepairSpec.AfterValue && !f.commaSeen ==>
              RepairSpec.CommaStep(c) == At(c, [], [], Next(f, true), c.pos)
    ensures f.isObject && (f.st == RepairSpec.AtColon || f.st == RepairSpec.AtValue) ==>
              RepairSpec.CommaStep(c) == At(c, Pending(f), [RepairSpec.MissingValue], Next(f, true), c.pos)
  {
    PutNothing(c);
    PendingIs(c, f);
    hide Put, RepairSpec.ClosePending;
  }

  /** What is missing of the last member: a colon and null, or null. */
  function Pending(f: Frame): Bytes
  {
    if !f.isObject then []
    else if f.st == RepairSpec.AtColon then [0x3A, 0x6E, 0x75, 0x6C, 0x6C]
    else if f.st == RepairSpec.AtValue then [0x6E, 0x75, 0x6C, 0x6C]
    else []
  }

  lemma PendingIs(c: Core, f: Frame)
    ensures RepairSpec.ClosePending(c, f) == Put(c, Pending(f), If(Pending(f) != [], RepairSpec.MissingValue))
  {
    PutNothing(c);
    PutFixEmit(c, RepairSpec.MissingValue, [0x3A] + NULL_WORD);
    PutFixEmit(c, RepairSpec.MissingValue, NULL_WORD);
    assert [0x3A] + NULL_WORD == [0x3A, 0x6E, 0x75, 0x6C, 0x6C];
    hide Put;
  }

  /** A comma after a value. */
  lemma CommaAt(inp: Bytes, c: Core, s: Bytes, fl: seq<Kind>, f: Frame, p: nat, max: nat)
    requires c.frames != [] && !c.stop && Holds(inp, p, [0x2C])
    requires f.st == RepairSpec.AfterValue && !f.commaSeen
    ensures p + 1 <= |inp|
    ensures RepairSpec.Run(inp, At(c, s, fl, f, p), max) == RepairSpec.Run(inp, At(c, s, fl, Next(f, true), p + 1), max)
  {
    hide *;
    HoldsFits(inp, p, [0x2C]);
    HoldsAt(inp, p, [0x2C], 0);
    var d := At(c, s, fl, f, p);
    AtFacts(c, s, fl, f, p);
    ByteStarts(inp, d, max);
    AtMoves(c, s, fl, f, p, p + 1);
    AtFacts(c, s, fl, f, p + 1);
    CommaSteps(At(c, s, fl, f, p + 1), f);
    AtAt(c, s, fl, f, p + 1, [], [], Next(f, true), p + 1);
    NothingMore(s);
    assert fl + [] == fl;
  }

  lemma AtMoves(c: Core, s: Bytes, fl: seq<Kind>, f: Frame, p: nat, q: nat)
    requires c.frames != []
    ensures At(c, s, fl, f, p).(pos := q) == At(c, s, fl, f, q)
  {
    hide Put, RepairSpec.SetTop;
  }

  /** A comma where a value is missing. */
  lemma MissingAt(inp: Bytes, c: Core, s: Bytes, fl: seq<Kind>, f: Frame, p: nat, max: nat)
    requires c.frames != [] && !c.stop && Holds(inp, p, [0x2C])
    requires f.isObject && (f.st == RepairSpec.AtColon || f.st == RepairSpec.AtValue)
    ensures p + 1 <= |inp|
    ensures RepairSpec.Run(inp, At(c, s, fl, f, p), max)
         == RepairSpec.Run(inp, At(c, s + Pending(f), fl + [RepairSpec.MissingValue], Next(f, true), p + 1), max)
  {
    hide *;
    HoldsFits(inp, p, [0x2C]);
    HoldsAt(inp, p, [0x2C], 0);
    var d := At(c, s, fl, f, p);
    AtFacts(c, s, fl, f, p);
    ByteStarts(inp, d, max);
    AtMoves(c, s, fl, f, p, p + 1);
    AtFacts(c, s, fl, f, p + 1);
    CommaSteps(At(c, s, fl, f, p + 1), f);
    AtAt(c, s, fl, f, p + 1, Pending(f), [RepairSpec.MissingValue], Next(f, true), p + 1);
  }

  lemma ColonSteps(c: Core, f: Frame, b: byte)
    requires c.frames != [] && RepairSpec.Top(c) == f && f.isObject && f.st == RepairSpec.AtColon && (b == 0x3A || b == 0x3D)
    ensures RepairSpec.ColonStep(c, b)
         == At(c, [0x3A], If(b == 0x3D, RepairSpec.MissingColon), f.(st := RepairSpec.AtValue), c.pos)
  {
    PutEmit(c, [0x3A]);
    PutFixEmit(c, RepairSpec.MissingColon, [0x3A]);
    hide Put;
    PutKeeps(c, [0x3A], If(b == 0x3D, RepairSpec.MissingColon));
  }

  /** A colon, or an equals sign in its place. */
  lemma ColonAt(inp: Bytes, c: Core, s: Bytes, fl: seq<Kind>, f: Frame, p: nat, b: byte, max: nat)
    requires c.frames != [] && !c.stop && Holds(inp, p, [b]) && (b == 0x3A || b == 0x3D)
    requires f.isObject && f.st == RepairSpec.AtColon
    ensures p + 1 <= |inp|
    ensures RepairSpec.Run(inp, At(c, s, fl, f, p), max)
         == RepairSpec.Run(inp, At(c, s + [0x3A], fl + If(b == 0x3D, RepairSpec.MissingColon), f.(st := RepairSpec.AtValue), p + 1), max)
  {
    hide *;
    HoldsFits(inp, p, [b]);
    HoldsAt(inp, p, [b], 0);
    var d := At(c, s, fl, f, p);
    AtFacts(c, s, fl, f, p);
    ByteStarts(inp, d, max);
    AtMoves(c, s, fl, f, p, p + 1);
    AtFacts(c, s, fl, f, p + 1);
    ColonSteps(At(c, s, fl, f, p + 1), f, b);
    AtAt(c, s, fl, f, p + 1, [0x3A], If(b == 0x3D, RepairSpec.MissingColon), f.(st := RepairSpec.AtValue), p + 1);
  }

  lemma KeyPutAt(c: Core, s: Bytes, fl: seq<Kind>)
    requires c.frames != []
    ensures var f := RepairSpec.Top(c);
            KeyPut(c, s, fl) == At(c, Lead(f) + s, LeadFlaws(f) + fl, f.(st := RepairSpec.AtColon), c.pos)
  {
    var f := RepairSpec.Top(c);
    CommaIs(c, f);
    PutPut(c, Lead(f), LeadFlaws(f), s, fl);
    hide Kinds, Lead, LeadFlaws, RepairSpec.PutComma;
    Associates(c.out, Lead(f), s);
  }

  /** A key. */
  lemma KeyAt(inp: Bytes, c: Core, s: Bytes, fl: seq<Kind>, f: Frame, p: nat, k: Token, max: nat)
    requires c.frames != [] && !c.stop && GoodToken(k) && Holds(inp, p, TokenText(k)) && Parted(inp, p + |TokenText(k)|)
    requires f.isObject && (f.st == RepairSpec.AtKey || f.st == RepairSpec.AfterValue)
    ensures GoodChars(KeyChars(k)) && p + |TokenText(k)| <= |inp|
    ensures RepairSpec.Run(inp, At(c, s, fl, f, p), max)
         == RepairSpec.Run(inp, At(c, s + (Lead(f) + Quoted(KeyChars(k))), fl + (LeadFlaws(f) + KeyFlaws(k)),
                                   f.(st := RepairSpec.AtColon), p + |TokenText(k)|), max)
  {
    hide *;
    var d := At(c, s, fl, f, p);
    var q := p + |TokenText(k)|;
    AtFacts(c, s, fl, f, p);
    KeyRuns(k, inp, d, max);
    var w, fw, g := Lead(f) + Quoted(KeyChars(k)), LeadFlaws(f) + KeyFlaws(k), f.(st := RepairSpec.AtColon);
    KeyPutAt(d, Quoted(KeyChars(k)), KeyFlaws(k));
    AtMoves(d, w, fw, g, p, q);
    AtAt(c, s, fl, f, p, w, fw, g, q);
  }

  // --- Where a construct ends ---

  lemma SpaceParts(inp: Bytes, p: nat)
    requires p < |inp| && (IsSpace(inp[p]) || inp[p] == 0x2F || inp[p] == 0x23 || inp[p] == 0x2C || IsClose(inp[p])
                           || inp[p] == 0x3A || inp[p] == 0x3D)
    ensures Parted(inp, p)
  {
  }

  lemma FillerBegins(f: Filler)
    requires GoodFiller(f) && !f.Fence?
    ensures FillerText(f) != [] && (IsSpace(FillerText(f)[0]) || FillerText(f)[0] == 0x2F || FillerText(f)[0] == 0x23)
  {
  }

  /** Spaces and comments part a token from what follows. */
  lemma FillParts(inp: Bytes, p: nat, s: Fill)
    requires GoodGap(s) && Holds(inp, p, FillText(s)) && (s != [] || Parted(inp, p))
    ensures Parted(inp, p)
  {
    if s != [] {
      hide *;
      GapIs(s);
      FillUnfold(s);
      FillerBegins(s[0]);
      HoldsParts(inp, p, FillerText(s[0]), FillText(s[1..]));
      HoldsAt(inp, p, FillerText(s[0]), 0);
      HoldsFits(inp, p, FillerText(s[0]));
      SpaceParts(inp, p);
    }
  }

  lemma ByteParts(inp: Bytes, p: nat, b: byte)
    requires Holds(inp, p, [b]) && (b == 0x2C || IsClose(b) || b == 0x3A || b == 0x3D)
    ensures Parted(inp, p)
  {
    HoldsAt(inp, p, [b], 0);
  }

  // --- Opening and closing ---

  function Open(isObject: bool): byte { if isObject then 0x7B else 0x5B }

  function Close(isObject: bool): byte { if isObject then 0x7D else 0x5D }

  function FirstFrame(isObject: bool): Frame
  {
    RepairSpec.Frame(isObject, if isObject then RepairSpec.AtKey else RepairSpec.AtValue, false)
  }

  /** The state after an opening bracket. */
  function Opened(c: Core, isObject: bool): (r: Core)
    ensures r.frames != []
  {
    var v := RepairSpec.PrepareValue(c);
    Put(v.(frames := v.frames + [FirstFrame(isObject)]), [Open(isObject)], []).(pos := c.pos + 1)
  }

  lemma PrepareKeeps(c: Core)
    requires Running(c)
    ensures var v := RepairSpec.PrepareValue(c); |v.frames| == |c.frames| && !v.stop && v.pos == c.pos
  {
  }

  lemma OpenIs(c: Core, isObject: bool, max: nat)
    requires Running(c) && |c.frames| < max
    ensures RepairSpec.OpenContainer(c.(pos := c.pos + 1), isObject, max) == Opened(c, isObject)
    ensures |Opened(c, isObject).frames| == |c.frames| + 1 && RepairSpec.Top(Opened(c, isObject)) == FirstFrame(isObject)
    ensures !Opened(c, isObject).stop && Opened(c, isObject).pos == c.pos + 1
  {
    PrepareKeeps(c);
    PrepareMoves(c, c.pos + 1);
    var v := RepairSpec.PrepareValue(c);
    var w := v.(pos := c.pos + 1).(frames := v.frames + [FirstFrame(isObject)]);
    PutEmit(w, [Open(isObject)]);
    hide RepairSpec.PrepareValue, Kinds;
  }

  lemma Opens(inp: Bytes, c: Core, isObject: bool, max: nat)
    requires Running(c) && |c.frames| < max && Holds(inp, c.pos, [Open(isObject)])
    ensures var o := Opened(c, isObject);
            && o.pos == c.pos + 1 <= |inp| && RepairSpec.Run(inp, c, max) == RepairSpec.Run(inp, o, max)
            && |o.frames| == |c.frames| + 1 && RepairSpec.Top(o) == FirstFrame(isObject) && !o.stop
  {
    hide *;
    HoldsFits(inp, c.pos, [Open(isObject)]);
    HoldsAt(inp, c.pos, [Open(isObject)], 0);
    OpenByteIs(isObject);
    RunningIs(c);
    ByteStarts(inp, c, max);
    OpenIs(c, isObject, max);
  }

  lemma RunningIs(c: Core)
    requires Running(c)
    ensures !c.stop
  {
  }

  lemma OpenByteIs(isObject: bool)
    ensures Open(isObject) == 0x7B || Open(isObject) == 0x5B
    ensures isObject <==> Open(isObject) == 0x7B
  {
  }

  function CloseFlaws(f: Frame, b: byte): seq<Kind>
  {
    If(b != Close(f.isObject), RepairSpec.Bracket) + If(f.st == RepairSpec.AfterValue && f.commaSeen, RepairSpec.TrailingComma)
    + If(Pending(f) != [], RepairSpec.MissingValue)
  }

  lemma CloserIs(f: Frame)
    ensures RepairSpec.Closer(f) == Close(f.isObject)
  {
  }

  lemma IfPut(c: Core, b: bool, k: Kind)
    ensures (if b then RepairSpec.Fix(c, k) else c) == Put(c, [], If(b, k))
  {
    PutNothing(c);
    PutFix(c, k);
    hide Put;
  }

  lemma CloseIs(c: Core, f: Frame, b: byte)
    requires c.frames != [] && RepairSpec.Top(c) == f
    ensures RepairSpec.CloseContainer(c, b)
         == RepairSpec.ValueDone(Put(c, Pending(f) + [Close(f.isObject)], CloseFlaws(f, b))
                                 .(frames := c.frames[..|c.frames| - 1]))
  {
    var x, y, z := If(b != Close(f.isObject), RepairSpec.Bracket),
                   If(f.st == RepairSpec.AfterValue && f.commaSeen, RepairSpec.TrailingComma),
                   If(Pending(f) != [], RepairSpec.MissingValue);
    CloserIs(f);
    IfPut(c, b != Close(f.isObject), RepairSpec.Bracket);
    var c1 := Put(c, [], x);
    IfPut(c1, f.st == RepairSpec.AfterValue && f.commaSeen, RepairSpec.TrailingComma);
    var c2 := Put(c1, [], y);
    PendingIs(c2, f);
    var c3 := Put(c2, Pending(f), z);
    PutEmit(c3, [Close(f.isObject)]);
    PutFour(c, x, y, Pending(f), z, [Close(f.isObject)]);
    hide Put, If, Pending, Close;
    hide RepairSpec.ClosePending, RepairSpec.ValueDone, RepairSpec.Fix, RepairSpec.Emit, RepairSpec.Closer;
  }

  lemma PutFour(c: Core, x: seq<Kind>, y: seq<Kind>, a: Bytes, z: seq<Kind>, b: Bytes)
    ensures Put(Put(Put(Put(c, [], x), [], y), a, z), b, []) == Put(c, a + b, x + y + z)
  {
    hide *;
    PutPut(c, [], x, [], y);
    NothingBefore([]);
    PutPut(c, [], x + y, a, z);
    NothingBefore(a);
    PutPut(c, a, x + y + z, b, []);
    assert x + y + z + [] == x + y + z;
  }

  /** Closing a container completes the value that began where it was opened. */
  lemma ClosesAt(c: Core, isObject: bool, s: Bytes, fl: seq<Kind>, f: Frame, p: nat, b: byte)
    requires f.isObject == isObject
    ensures RepairSpec.CloseContainer(At(Opened(c, isObject), s, fl, f, p), b)
         == Val(c, [Open(isObject)] + s + (Pending(f) + [Close(isObject)]), fl + CloseFlaws(f, b)).(pos := p)
  {
    hide *;
    var o := Opened(c, isObject);
    var d := At(o, s, fl, f, p);
    AtFacts(o, s, fl, f, p);
    CloseIs(d, f, b);
    var e, fe := Pending(f) + [Close(isObject)], CloseFlaws(f, b);
    Unwraps(c, isObject, s, fl, f, p, e, fe);
    var w := Put(RepairSpec.PrepareValue(c), [Open(isObject)] + s + e, fl + fe);
    ValMoves(w, [], [], p);
    ValIs(c, [Open(isObject)] + s + e, fl + fe);
  }

  /** The frame of the container is gone, and what was written remains. */
  lemma Unwraps(c: Core, isObject: bool, s: Bytes, fl: seq<Kind>, f: Frame, p: nat, e: Bytes, fe: seq<Kind>)
    ensures var d := At(Opened(c, isObject), s, fl, f, p);
            && d.frames != []
            && Put(d, e, fe).(frames := d.frames[..|d.frames| - 1])
               == Put(RepairSpec.PrepareValue(c), [Open(isObject)] + s + e, fl + fe).(pos := p)
  {
    hide RepairSpec.PrepareValue, Open, FirstFrame;
    var v := RepairSpec.PrepareValue(c);
    var o := Opened(c, isObject);
    var d := At(o, s, fl, f, p);
    assert o.frames[..|o.frames| - 1] == v.frames;
    assert d.frames[..|d.frames| - 1] == v.frames;
    FourParts(v.out, [Open(isObject)], s, e);
    ThreeKinds(v.kinds, fl, fe);
    hide Kinds;
  }

  lemma FourParts(a: Bytes, b: Bytes, c: Bytes, d: Bytes)
    ensures a + b + c + d == a + (b + c + d)
  {
  }

  lemma ThreeKinds(k: set<Kind>, a: seq<Kind>, b: seq<Kind>)
    ensures k + Kinds([]) + Kinds(a) + Kinds(b) == k + Kinds(a + b)
  {
  }

  // --- Values ---

  ghost function TreeBytes(v: Loose): Bytes
    requires GoodLoose(v)
  {
    TreeIs(v);
    TextBytes(Tree(v))
  }

  lemma TreeBytesIs(v: Loose)
    requires GoodLoose(v)
    ensures Good(Tree(v)) && TreeBytes(v) == TextBytes(Tree(v))
  {
    TreeIs(v);
    hide TextBytes, GoodLoose, Tree, Good;
  }

  ghost predicate LineGood(es: seq<Entry>) { forall i :: 0 <= i < |es| ==> GoodEntry(es[i]) }

  ghost predicate FieldsGood(fs: seq<Field>) { forall i :: 0 <= i < |fs| ==> GoodField(fs[i]) }

  /** The entries as JSON items, behind a comma if one stands before. */
  ghost function Items(after: bool, es: seq<Entry>): Bytes
    requires LineGood(es)
  {
    TreesAre(es);
    if es == [] then [] else (if after then [0x2C] else []) + ItemsBytes(Trees(es))
  }

  ghost function Members(after: bool, fs: seq<Field>): Bytes
    requires FieldsGood(fs)
  {
    MemsAre(fs);
    if fs == [] then [] else (if after then [0x2C] else []) + MemsBytes(Mems(fs))
  }

  lemma ItemBytesIs(e: Entry)
    requires GoodEntry(e)
    ensures GoodItem(EntryTree(e)) && ItemBytes(EntryTree(e)) == TreeBytes(e.value)
  {
    EntryIs(e);
    TreeBytesIs(e.value);
    hide TextBytes, Tree, GoodLoose, Good, TreeBytes;
    NothingBefore(TextBytes(Tree(e.value)));
    NothingMore(TextBytes(Tree(e.value)));
  }

  lemma EntryValue(e: Entry)
    requires GoodEntry(e)
    ensures GoodLoose(e.value)
  {
    hide GoodGap, GoodLoose;
  }

  lemma ItemsUnfold(after: bool, es: seq<Entry>)
    requires es != [] && LineGood(es)
    ensures GoodEntry(es[0]) && LineGood(es[1..]) && GoodLoose(es[0].value)
    ensures forall i :: 0 <= i < |es[1..]| ==> GoodEntry(es[1..][i])
    ensures Items(after, es) == (if after then [0x2C] else []) + TreeBytes(es[0].value) + Items(true, es[1..])
    ensures EntriesText(es) == EntryText(es[0]) + EntriesText(es[1..])
  {
    var lead := if after then [0x2C] else [];
    TreesAre(es);
    TreesUnfold(es);
    TreesAre(es[1..]);
    ItemBytesIs(es[0]);
    EntryValue(es[0]);
    hide ItemBytes, TreeBytes, GoodEntry, GoodLoose, GoodItem, EntryText, Trees, EntryTree;
    var a := TreeBytes(es[0].value);
    if |es| == 1 {
      ParserGrammar.LastItem(Trees(es));
      assert es[1..] == [];
      NothingMore(lead + a);
    } else {
      ParserGrammar.MoreItems(Trees(es));
      var b := ItemsBytes(Trees(es[1..]));
      Associates(lead, a, [0x2C] + b);
    }
  }

  // --- Flaws ---

  lemma EntriesFlawsUnfold(es: seq<Entry>, unparted: bool)
    requires es != [] && LineGood(es)
    ensures EntriesFlaws(es, unparted) == EntryFlaws(es[0], unparted) + EntriesFlaws(es[1..], !es[0].comma)
  {
    hide EntryFlaws, GoodEntry;
  }

  // --- The run over a list ---

  ghost predicate ValueRunsHere(v: Loose, inp: Bytes, c: Core, max: nat)
    requires GoodLoose(v)
  {
    var e := c.pos + |LooseText.Text(v)|;
    c.pos <= |inp| && e <= |inp| && RepairSpec.Run(inp, c, max)
                                    == RepairSpec.Run(inp, Val(c, TreeBytes(v), Flaws(v)).(pos := e), max)
  }

  /** A value inside a container. */
  lemma ValueAt(v: Loose, inp: Bytes, c: Core, s: Bytes, fl: seq<Kind>, f: Frame, p: nat, max: nat)
    requires GoodLoose(v) && c.frames != [] && ValueRunsHere(v, inp, At(c, s, fl, f, p), max)
    ensures p <= |inp| && p + |LooseText.Text(v)| <= |inp|
    ensures RepairSpec.Run(inp, At(c, s, fl, f, p), max)
         == RepairSpec.Run(inp, At(c, s + (Lead(f) + Link(f) + TreeBytes(v)), fl + (LeadFlaws(f) + LinkFlaws(f) + Flaws(v)),
                                   Next(f, false), p + |LooseText.Text(v)|), max)
  {
    hide *;
    var d := At(c, s, fl, f, p);
    AtFacts(c, s, fl, f, p);
    RunsHereIs(v, inp, d, max);
    var q := p + |LooseText.Text(v)|;
    ValAt(d, TreeBytes(v), Flaws(v));
    var w, fw := Lead(f) + Link(f) + TreeBytes(v), LeadFlaws(f) + LinkFlaws(f) + Flaws(v);
    AtMoves(d, w, fw, Next(f, false), p, q);
    AtAt(c, s, fl, f, p, w, fw, Next(f, false), q);
  }

  lemma RunsHereIs(v: Loose, inp: Bytes, c: Core, max: nat)
    requires GoodLoose(v) && ValueRunsHere(v, inp, c, max)
    ensures var e := c.pos + |LooseText.Text(v)|;
            c.pos <= |inp| && e <= |inp| && RepairSpec.Run(inp, c, max)
                                            == RepairSpec.Run(inp, Val(c, TreeBytes(v), Flaws(v)).(pos := e), max)
  {
    hide RepairSpec.Run, Val, TreeBytes, Flaws, LooseText.Text, GoodLoose;
  }

  lemma LeafRuns(k: Token, inp: Bytes, c: Core, max: nat)
    requires GoodLoose(Leaf(k)) && Holds(inp, c.pos, LooseText.Text(Leaf(k)))
    requires Parted(inp, c.pos + |LooseText.Text(Leaf(k))|) && Running(c) && !RepairSpec.AtKeyPosition(c)
    ensures ValueRunsHere(Leaf(k), inp, c, max)
  {
    hide *;
    LeafIs(k);
    HoldsFits(inp, c.pos, TokenText(k));
    RunningIs(c);
    PrepareKeeps(c);
    TreeBytesIs(Leaf(k));
    TokenRuns(k, inp, c, max);
    RunsThere(Leaf(k), inp, c, max, c.pos + |TokenText(k)|);
  }

  lemma LeafIs(k: Token)
    requires GoodLoose(Leaf(k))
    ensures GoodToken(k) && LooseText.Text(Leaf(k)) == TokenText(k) && Tree(Leaf(k)) == TokenTree(k)
    ensures Flaws(Leaf(k)) == TokenFlaws(k)
  {
    hide GoodToken, TokenText, TokenTree, TokenFlaws;
  }

  lemma RunsThere(v: Loose, inp: Bytes, c: Core, max: nat, e: nat)
    requires GoodLoose(v) && c.pos <= |inp| && e == c.pos + |LooseText.Text(v)| <= |inp|
    requires RepairSpec.Run(inp, c, max) == RepairSpec.Run(inp, Val(c, TreeBytes(v), Flaws(v)).(pos := e), max)
    ensures ValueRunsHere(v, inp, c, max)
  {
    hide RepairSpec.Run, Val, TreeBytes, Flaws, LooseText.Text, GoodLoose;
  }

  lemma EntryParts(e: Entry)
    requires GoodEntry(e)
    ensures GoodGap(e.before) && GoodLoose(e.value) && GoodGap(e.after)
    ensures EntryText(e) == FillText(e.before) + LooseText.Text(e.value) + FillText(e.after) + CommaText(e.comma)
    ensures CommaText(true) == [0x2C] && CommaText(false) == []
  {
    hide GoodGap, GoodLoose, FillText, LooseText.Text;
  }

  lemma HoldsFour(inp: Bytes, p: nat, a: Bytes, b: Bytes, c: Bytes, d: Bytes)
    requires Holds(inp, p, a + b + c + d)
    ensures Holds(inp, p, a) && Holds(inp, p + |a|, b) && Holds(inp, p + |a| + |b|, c)
    ensures Holds(inp, p + |a| + |b| + |c|, d) && |a + b + c + d| == |a| + |b| + |c| + |d|
    ensures p + |a| + |b| + |c| + |d| <= |inp|
  {
    hide *;
    HoldsFits(inp, p, a + b + c + d);
    HoldsParts(inp, p, a + b + c, d);
    HoldsThree(inp, p, a, b, c);
  }

  /** Something parts the value from what follows it: a space, a comment, a comma, or what follows the whole. */
  lemma ValueParted(inp: Bytes, p: nat, after: Fill, comma: bool, e: nat)
    requires GoodGap(after) && Holds(inp, p, FillText(after)) && Holds(inp, p + |FillText(after)|, CommaText(comma))
    requires e == p + |FillText(after)| + |CommaText(comma)|
    requires comma || after != [] || Parted(inp, e)
    ensures Parted(inp, p)
  {
    CommaTextIs(comma);
    hide *;
    if comma && after == [] {
      NoFill();
      ByteParts(inp, p, 0x2C);
    } else if after == [] {
      NoFill();
    }
    FillParts(inp, p, after);
  }

  lemma CommaTextIs(comma: bool)
    ensures CommaText(comma) == if comma then [0x2C] else []
  {
  }

  lemma NoFill()
    ensures FillText([]) == [] && FillFlaws([]) == []
  {
  }

  predicate ListFrame(f: Frame) { !f.isObject && (f.st == RepairSpec.AtValue || f.st == RepairSpec.AfterValue) }

  predicate Unparted(f: Frame) { f.st == RepairSpec.AfterValue && !f.commaSeen }

  lemma LinkOfList(f: Frame, comma: bool)
    requires ListFrame(f)
    ensures Link(f) == [] && LinkFlaws(f) == [] && LeadFlaws(f) == If(Unparted(f), RepairSpec.MissingComma)
    ensures ListFrame(Next(f, comma)) && Unparted(Next(f, comma)) == !comma
    ensures Next(Next(f, false), comma) == Next(f, comma)
    ensures Next(f, false).st == RepairSpec.AfterValue && !Next(f, false).commaSeen && Lead(Next(f, comma)) == [0x2C]
    ensures Lead(f) == (if f.st == RepairSpec.AfterValue then [0x2C] else [])
  {
  }

  /** An entry: what stands before it, its value, what stands after it, and a comma or not. */
  lemma {:induction false} EntryRuns(e: Entry, inp: Bytes, c: Core, f: Frame, max: nat)
    requires c.frames != [] && RepairSpec.Top(c) == f && ListFrame(f) && !c.stop
    requires GoodEntry(e) && Holds(inp, c.pos, EntryText(e)) && LooseText.Within(e.value, max - |c.frames|)
    requires e.comma || e.after != [] || Parted(inp, c.pos + |EntryText(e)|)
    ensures c.pos + |EntryText(e)| <= |inp|
    ensures RepairSpec.Run(inp, c, max)
         == RepairSpec.Run(inp, At(c, Lead(f) + TreeBytes(e.value), EntryFlaws(e, Unparted(f)), Next(f, e.comma),
                                   c.pos + |EntryText(e)|), max)
    decreases e, 2
  {
    hide *;
    EntryParts(e);
    var a, b, d, g := FillText(e.before), LooseText.Text(e.value), FillText(e.after), CommaText(e.comma);
    HoldsFour(inp, c.pos, a, b, d, g);
    var p1, p2, p3 := c.pos + |a|, c.pos + |a| + |b|, c.pos + |a| + |b| + |d|;
    var f1, n := FillFlaws(e.before), Next(f, false);
    LinkOfList(f, e.comma);
    AtHere(c);
    FillAt(inp, c, [], [], f, c.pos, e.before, max);
    ValueParted(inp, p2, e.after, e.comma, c.pos + |EntryText(e)|);
    AtFacts(c, [], [] + f1, f, p1);
    ListIsNoKey(f);
    ValueRuns(e.value, inp, At(c, [], [] + f1, f, p1), max);
    ValueAt(e.value, inp, c, [], [] + f1, f, p1, max);
    var s2, f2 := [] + (Lead(f) + Link(f) + TreeBytes(e.value)), [] + f1 + (LeadFlaws(f) + LinkFlaws(f) + Flaws(e.value));
    FillAt(inp, c, s2, f2, n, p2, e.after, max);
    var f3 := f2 + FillFlaws(e.after);
    if e.comma { CommaAt(inp, c, s2, f3, n, p3, max); }
    CommaTextIs(e.comma);
    EntryWritten(e, f, s2, f3);
  }

  lemma ListIsNoKey(f: Frame)
    requires ListFrame(f)
    ensures !f.isObject
  {
  }

  lemma EntryWritten(e: Entry, f: Frame, s: Bytes, fl: seq<Kind>)
    requires GoodEntry(e) && ListFrame(f) && s == [] + (Lead(f) + Link(f) + TreeBytes(e.value))
    requires fl == [] + FillFlaws(e.before) + (LeadFlaws(f) + LinkFlaws(f) + Flaws(e.value)) + FillFlaws(e.after)
    ensures s == Lead(f) + TreeBytes(e.value) && fl == EntryFlaws(e, Unparted(f))
  {
    LinkOfList(f, false);
    hide TreeBytes, FillFlaws, Flaws, GoodGap, GoodLoose, Lead, Link, LeadFlaws, LinkFlaws, If;
    NothingMore(Lead(f));
    NothingBefore(Lead(f) + TreeBytes(e.value));
    FlawsJoin(FillFlaws(e.before), LeadFlaws(f), Flaws(e.value), FillFlaws(e.after));
  }

  lemma FlawsJoin(a: seq<Kind>, b: seq<Kind>, c: seq<Kind>, d: seq<Kind>)
    ensures [] + a + (b + [] + c) + d == a + b + c + d
  {
  }

  predicate Commas(es: seq<Entry>) { forall i :: 0 <= i < |es| - 1 ==> es[i].comma || es[i].after != [] }

  function EntriesEnd(f: Frame, es: seq<Entry>): Frame { if es == [] then f else Next(f, es[|es| - 1].comma) }

  ghost predicate EntriesWithin(es: seq<Entry>, room: int)
  {
    forall i :: 0 <= i < |es| ==> LooseText.Within(es[i].value, room)
  }

  lemma EntriesSplit(es: seq<Entry>, room: int, f: Frame)
    requires es != [] && Commas(es) && EntriesWithin(es, room) && ListFrame(f)
    ensures LooseText.Within(es[0].value, room) && EntriesWithin(es[1..], room) && Commas(es[1..])
    ensures es[1..] != [] ==> es[0].comma || es[0].after != []
    ensures EntriesEnd(f, es) == EntriesEnd(Next(f, es[0].comma), es[1..])
    ensures es[1..] == [] ==> EntriesText(es[1..]) == []
  {
    hide LooseText.Within;
  }

  lemma {:induction false} EntriesRun(es: seq<Entry>, inp: Bytes, c: Core, f: Frame, max: nat)
    requires c.frames != [] && RepairSpec.Top(c) == f && ListFrame(f) && !c.stop && c.pos <= |inp|
    requires LineGood(es) && Commas(es) && Holds(inp, c.pos, EntriesText(es)) && EntriesWithin(es, max - |c.frames|)
    requires Parted(inp, c.pos + |EntriesText(es)|)
    ensures c.pos + |EntriesText(es)| <= |inp|
    ensures RepairSpec.Run(inp, c, max)
         == RepairSpec.Run(inp, At(c, Items(f.st == RepairSpec.AfterValue, es), EntriesFlaws(es, Unparted(f)), EntriesEnd(f, es),
                                   c.pos + |EntriesText(es)|), max)
    decreases es, 3
  {
    hide *;
    if es == [] {
      NoEntries(f);
      AtHere(c);
    } else {
      ItemsUnfold(f.st == RepairSpec.AfterValue, es);
      EntriesFlawsUnfold(es, Unparted(f));
      EntriesSplit(es, max - |c.frames|, f);
      var a, b := EntryText(es[0]), EntriesText(es[1..]);
      HoldsParts(inp, c.pos, a, b);
      NothingMore(a);
      EntryRuns(es[0], inp, c, f, max);
      var p, n, s, fl := c.pos + |a|, Next(f, es[0].comma), Lead(f) + TreeBytes(es[0].value), EntryFlaws(es[0], Unparted(f));
      LinkOfList(f, es[0].comma);
      AtFacts(c, s, fl, n, p);
      NextIs(f, es[0].comma);
      EntriesRun(es[1..], inp, At(c, s, fl, n, p), n, max);
      AtAt(c, s, fl, n, p, Items(true, es[1..]), EntriesFlaws(es[1..], !es[0].comma), EntriesEnd(n, es[1..]), p + |b|);
    }
  }

  lemma NextIs(f: Frame, comma: bool)
    ensures Next(f, comma).st == RepairSpec.AfterValue && Next(f, comma).commaSeen == comma
    ensures Next(f, comma).isObject == f.isObject
  {
  }

  lemma NoEntries(f: Frame)
    ensures Items(f.st == RepairSpec.AfterValue, []) == [] && EntriesFlaws([], Unparted(f)) == [] && EntriesEnd(f, []) == f
    ensures EntriesText([]) == []
  {
  }

  lemma ListIs(v: Loose)
    requires GoodLoose(v) && v.List?
    ensures GoodGap(v.inner) && IsClose(v.close) && LineGood(v.entries) && Commas(v.entries)
    ensures forall i :: 0 <= i < |v.entries| ==> GoodEntry(v.entries[i])
    ensures LooseText.Text(v) == [Open(false)] + EntriesText(v.entries) + FillText(v.inner) + [v.close]
  {
    hide GoodEntry, GoodGap, EntriesText, FillText;
  }

  lemma ListWithin(v: Loose, room: int)
    requires v.List? && LooseText.Within(v, room)
    ensures room > 0 && EntriesWithin(v.entries, room - 1)
  {
  }

  lemma ListWritten(v: Loose, f: Frame)
    requires GoodLoose(v) && v.List? && f == EntriesEnd(FirstFrame(false), v.entries)
    ensures TreeBytes(v) == [Open(false)] + Items(false, v.entries) + (Pending(f) + [Close(false)])
    ensures Flaws(v) == EntriesFlaws(v.entries, false) + FillFlaws(v.inner) + CloseFlaws(f, v.close)
    ensures !f.isObject
  {
    TreeBytesIs(v);
    ListBytes(v);
    TreesAre(v.entries);
    hide TreeBytes, GoodLoose, GoodEntry, Tree, EntriesFlaws, FillFlaws, ItemsBytes, Trees;
    NothingBefore([0x5D]);
    var x, y := If(v.close != 0x5D, RepairSpec.Bracket),
                If(v.entries != [] && v.entries[|v.entries| - 1].comma, RepairSpec.TrailingComma);
    NoMoreFlaws(x + y);
    FlawsAppend(EntriesFlaws(v.entries, false), FillFlaws(v.inner), x, y);
  }

  lemma NoMoreFlaws(a: seq<Kind>)
    ensures a + [] == a && [] + a == a
  {
  }

  lemma FlawsAppend(a: seq<Kind>, b: seq<Kind>, c: seq<Kind>, d: seq<Kind>)
    ensures a + b + (c + d) == a + b + c + d
  {
  }

  lemma ListBytes(v: Loose)
    requires GoodLoose(v) && v.List?
    ensures Good(Tree(v)) && LineGood(v.entries)
    ensures TextBytes(Tree(v)) == [0x5B] + Items(false, v.entries) + [0x5D]
  {
    TreeIs(v);
    TreesAre(v.entries);
    hide GoodEntry, Trees, ItemsBytes, GoodItem;
    NothingBefore(ItemsBytes(Trees(v.entries)));
    NothingMore([0x5B]);
  }

  /** Whatever a value is, the run goes on behind it with what it denotes written and its flaws noted. */
  lemma {:induction false} ValueRuns(v: Loose, inp: Bytes, c: Core, max: nat)
    requires GoodLoose(v) && Holds(inp, c.pos, LooseText.Text(v)) && Running(c)
    requires v.Leaf? ==> Parted(inp, c.pos + |LooseText.Text(v)|) && !RepairSpec.AtKeyPosition(c)
    requires LooseText.Within(v, max - |c.frames|)
    ensures ValueRunsHere(v, inp, c, max)
    decreases v, 1
  {
    match v
    case Leaf(k) => LeafRuns(k, inp, c, max);
    case List(_, _, _) => ListRuns(v, inp, c, max);
    case Record(_, _, _) => RecordRuns(v, inp, c, max);
    hide *;
  }

  lemma {:induction false} ListRuns(v: Loose, inp: Bytes, c: Core, max: nat)
    requires GoodLoose(v) && v.List? && Holds(inp, c.pos, LooseText.Text(v)) && Running(c)
    requires LooseText.Within(v, max - |c.frames|)
    ensures ValueRunsHere(v, inp, c, max)
    decreases v, 0
  {
    hide *;
    ListIs(v);
    ListWithin(v, max - |c.frames|);
    var es := v.entries;
    var a, b := EntriesText(es), FillText(v.inner);
    HoldsFour(inp, c.pos, [Open(false)], a, b, [v.close]);
    Opens(inp, c, false, max);
    var o, p1, p2 := Opened(c, false), c.pos + 1 + |a|, c.pos + 1 + |a| + |b|;
    var f0 := FirstFrame(false);
    FirstIs(false);
    ByteParts(inp, p2, v.close);
    GapParts(inp, p1, v.inner);
    EntriesRun(es, inp, o, f0, max);
    var f, s, fl := EntriesEnd(f0, es), Items(false, es), EntriesFlaws(es, false);
    FillAt(inp, o, s, fl, f, p1, v.inner, max);
    ListWritten(v, f);
    Closing(inp, c, false, s, fl + FillFlaws(v.inner), f, p2, v.close, max);
    RunsThere(v, inp, c, max, p2 + 1);
  }

  lemma FirstIs(isObject: bool)
    ensures var f := FirstFrame(isObject);
            && f.isObject == isObject && f.st != RepairSpec.AfterValue && !Unparted(f) && (!isObject ==> ListFrame(f))
            && (isObject ==> f.st == RepairSpec.AtKey)
  {
  }

  lemma GapParts(inp: Bytes, p: nat, s: Fill)
    requires GoodGap(s) && Holds(inp, p, FillText(s)) && Parted(inp, p + |FillText(s)|)
    ensures Parted(inp, p)
  {
    hide *;
    if s == [] { NoFill(); }
    FillParts(inp, p, s);
  }

  lemma Closing(inp: Bytes, c: Core, isObject: bool, s: Bytes, fl: seq<Kind>, f: Frame, p: nat, b: byte, max: nat)
    requires f.isObject == isObject && IsClose(b) && Holds(inp, p, [b]) && !Opened(c, isObject).stop
    ensures p + 1 <= |inp|
    ensures RepairSpec.Run(inp, At(Opened(c, isObject), s, fl, f, p), max)
         == RepairSpec.Run(inp, Val(c, [Open(isObject)] + s + (Pending(f) + [Close(isObject)]), fl + CloseFlaws(f, b))
                                .(pos := p + 1), max)
  {
    hide *;
    HoldsFits(inp, p, [b]);
    HoldsAt(inp, p, [b], 0);
    var o := Opened(c, isObject);
    AtFacts(o, s, fl, f, p);
    ByteStarts(inp, At(o, s, fl, f, p), max);
    AtMoves(o, s, fl, f, p, p + 1);
    ClosesAt(c, isObject, s, fl, f, p + 1, b);
  }

  // --- The run over a record ---

  lemma FieldParts(f: Field)
    requires GoodField(f)
    ensures GoodGap(f.before) && GoodGap(f.between) && GoodGap(f.gap) && GoodGap(f.after)
    ensures f.link.Some? ==> f.link.value == 0x3A || f.link.value == 0x3D
    ensures f.link.None? ==> f.gap == [] && (f.key.Some? && f.value.Some? ==> f.between != [])
    ensures f.value.Some? ==> GoodLoose(f.value.value)
    ensures f.value.None? ==> f.after == []
    ensures f.key.Some? ==> GoodToken(f.key.value)
    ensures f.key.None? ==> f.between == [] && f.link.None? && f.gap == [] && f.value.Some? && !f.value.value.Leaf?
    ensures FieldText(f) == KeyText(f) + (if f.value.Some? then LooseText.Text(f.value.value) else []) + FillText(f.after)
                            + CommaText(f.comma)
  {
    hide GoodGap, GoodLoose, GoodToken, FillText, LooseText.Text, KeyText;
  }

  lemma KeyTextIs(f: Field)
    requires GoodField(f)
    ensures f.key.Some? ==> GoodToken(f.key.value) && KeyText(f) == FillText(f.before) + TokenText(f.key.value)
                                                                    + FillText(f.between) + SignText(f.link) + FillText(f.gap)
    ensures f.key.None? ==> KeyText(f) == FillText(f.before)
  {
    hide GoodGap, GoodLoose, GoodToken, LooseText.Text, TokenText;
    if f.key.None? {
      NothingMore(FillText(f.before));
    }
  }

  predicate FieldFrame(f: Frame) { f.isObject && (f.st == RepairSpec.AtKey || f.st == RepairSpec.AfterValue) }

  /** After a key, and after its link. */
  function KeyFrame(f: Frame, linked: bool): Frame
  {
    f.(st := if linked then RepairSpec.AtValue else RepairSpec.AtColon)
  }

  ghost function KeyOut(f: Frame, x: Field): Bytes
    requires GoodField(x)
  {
    if x.key.None? then []
    else
      FieldIsKeyed(x);
      Lead(f) + Quoted(KeyChars(x.key.value)) + (if x.link.Some? then [0x3A] else [])
  }

  lemma FieldIsKeyed(x: Field)
    requires GoodField(x) && x.key.Some?
    ensures GoodToken(x.key.value) && GoodChars(KeyChars(x.key.value))
  {
    hide GoodToken, GoodGap, GoodLoose, GoodChars;
    KeyIs(x.key.value);
  }

  function KeyEnd(f: Frame, x: Field): Frame { if x.key.None? then f else KeyFrame(f, x.link.Some?) }

  ghost function KeyNotes(f: Frame, x: Field): seq<Kind>
  {
    if x.key.None? then FillFlaws(x.before)
    else
      FillFlaws(x.before) + (LeadFlaws(f) + KeyFlaws(x.key.value)) + FillFlaws(x.between)
      + If(x.link == Some(0x3D), RepairSpec.MissingColon) + FillFlaws(x.gap)
  }

  lemma HoldsFive(inp: Bytes, p: nat, a: Bytes, b: Bytes, c: Bytes, d: Bytes, e: Bytes)
    requires Holds(inp, p, a + b + c + d + e)
    ensures Holds(inp, p, a) && Holds(inp, p + |a|, b) && Holds(inp, p + |a| + |b|, c)
    ensures Holds(inp, p + |a| + |b| + |c|, d) && Holds(inp, p + |a| + |b| + |c| + |d|, e)
    ensures |a + b + c + d + e| == |a| + |b| + |c| + |d| + |e|
    ensures p + |a| + |b| + |c| + |d| + |e| <= |inp|
  {
    hide *;
    HoldsFits(inp, p, a + b + c + d + e);
    HoldsParts(inp, p, a + b + c + d, e);
    HoldsFour(inp, p, a, b, c, d);
  }

  lemma SignTextIs(s: Option<byte>)
    ensures SignText(s) == if s.Some? then [s.value] else []
  {
  }

  /** The key of a member and its link. */
  lemma KeyStage(x: Field, inp: Bytes, c: Core, f: Frame, max: nat)
    requires c.frames != [] && RepairSpec.Top(c) == f && FieldFrame(f) && !c.stop && GoodField(x)
    requires Holds(inp, c.pos, KeyText(x))
    requires x.key.None? || x.link.Some? || x.between != [] || Parted(inp, c.pos + |KeyText(x)|)
    ensures c.pos + |KeyText(x)| <= |inp|
    ensures RepairSpec.Run(inp, c, max)
         == RepairSpec.Run(inp, At(c, KeyOut(f, x), KeyNotes(f, x), KeyEnd(f, x), c.pos + |KeyText(x)|), max)
  {
    hide *;
    FieldParts(x);
    KeyTextIs(x);
    KeyOutIs(f, x);
    AtHere(c);
    if x.key.None? {
      FillAt(inp, c, [], [], f, c.pos, x.before, max);
      NoMoreFlaws(FillFlaws(x.before));
    } else {
      var k, g := x.key.value, KeyFrame(f, false);
      var a, t, b, l, e := FillText(x.before), TokenText(k), FillText(x.between), SignText(x.link), FillText(x.gap);
      HoldsFive(inp, c.pos, a, t, b, l, e);
      var p1, p2, p3, p4 := c.pos + |a|, c.pos + |a| + |t|, c.pos + |a| + |t| + |b|, c.pos + |a| + |t| + |b| + |l|;
      SignTextIs(x.link);
      NoFill();
      LinkParted(x, inp, p3, p4);
      GapBefore(x.between, inp, p2);
      FieldIsKeyed(x);
      FrameIs(f, x.link.Some?);
      FillAt(inp, c, [], [], f, c.pos, x.before, max);
      var f1 := [] + FillFlaws(x.before);
      KeyAt(inp, c, [], f1, f, p1, k, max);
      var s2, f2 := [] + (Lead(f) + Quoted(KeyChars(k))), f1 + (LeadFlaws(f) + KeyFlaws(k));
      FillAt(inp, c, s2, f2, g, p2, x.between, max);
      var f3 := f2 + FillFlaws(x.between);
      if x.link.Some? {
        ColonAt(inp, c, s2, f3, g, p3, x.link.value, max);
        FillAt(inp, c, s2 + [0x3A], f3 + If(x.link.value == 0x3D, RepairSpec.MissingColon), KeyFrame(f, true), p4, x.gap, max);
      } else {
        NoFill();
      }
      KeyWritten(f, x, s2, f3);
    }
  }

  lemma GapBefore(s: Fill, inp: Bytes, p: nat)
    requires GoodGap(s) && Holds(inp, p, FillText(s)) && (s != [] || Parted(inp, p + |FillText(s)|))
    ensures Parted(inp, p)
  {
    hide *;
    NoFill();
    FillParts(inp, p, s);
  }

  lemma FrameIs(f: Frame, linked: bool)
    requires FieldFrame(f)
    ensures f.isObject && (f.st == RepairSpec.AtKey || f.st == RepairSpec.AfterValue)
    ensures KeyFrame(f, false) == f.(st := RepairSpec.AtColon) && KeyFrame(f, true) == f.(st := RepairSpec.AtValue)
    ensures KeyFrame(f, true) == KeyFrame(f, false).(st := RepairSpec.AtValue)
  {
  }

  lemma LinkParted(x: Field, inp: Bytes, p: nat, q: nat)
    requires Holds(inp, p, SignText(x.link)) && q == p + |SignText(x.link)| && Holds(inp, q, FillText(x.gap))
    requires x.link.Some? ==> x.link.value == 0x3A || x.link.value == 0x3D
    requires x.link.None? ==> x.gap == []
    requires x.link.Some? || x.between != [] || Parted(inp, q + |FillText(x.gap)|)
    ensures x.between != [] || Parted(inp, p)
  {
    hide *;
    SignTextIs(x.link);
    if x.link.Some? { ByteParts(inp, p, x.link.value); } else { NoFill(); }
  }

  lemma KeyOutIs(f: Frame, x: Field)
    requires GoodField(x)
    ensures x.key.None? ==> KeyOut(f, x) == [] && KeyNotes(f, x) == FillFlaws(x.before) && KeyEnd(f, x) == f
    ensures x.key.Some? ==> KeyEnd(f, x) == KeyFrame(f, x.link.Some?)
  {
    hide GoodField;
  }

  lemma KeyWritten(f: Frame, x: Field, s: Bytes, fl: seq<Kind>)
    requires GoodField(x) && x.key.Some? && GoodToken(x.key.value) && GoodChars(KeyChars(x.key.value))
    requires s == [] + (Lead(f) + Quoted(KeyChars(x.key.value))) && (x.link.None? ==> x.gap == [])
    requires fl == [] + FillFlaws(x.before) + (LeadFlaws(f) + KeyFlaws(x.key.value)) + FillFlaws(x.between)
    ensures KeyOut(f, x) == if x.link.Some? then s + [0x3A] else s
    ensures KeyNotes(f, x) == if x.link.Some? then fl + If(x.link.value == 0x3D, RepairSpec.MissingColon) + FillFlaws(x.gap) else fl
  {
    hide GoodField, GoodToken, GoodChars, KeyChars, Quoted, Lead, LeadFlaws, KeyFlaws, If;
    NothingBefore(Lead(f) + Quoted(KeyChars(x.key.value)));
    NothingMore(Lead(f) + Quoted(KeyChars(x.key.value)));
    NoMoreFlaws(FillFlaws(x.before));
    NoMoreFlaws(fl);
    if x.link.None? {
      NotIf(RepairSpec.MissingColon);
      NoFill();
    }
    hide FillFlaws;
  }

  lemma NotIf(k: Kind)
    ensures If(false, k) == [] && If(true, k) == [k]
  {
  }

  ghost function ValueOut(g: Frame, x: Field): Bytes
    requires x.value.Some? ==> GoodLoose(x.value.value)
  {
    if x.value.Some? then Lead(g) + Link(g) + TreeBytes(x.value.value) else if x.comma then Pending(g) else []
  }

  ghost function ValueNotes(g: Frame, x: Field): seq<Kind>
    requires x.value.Some? ==> GoodLoose(x.value.value)
  {
    if x.value.Some? then LeadFlaws(g) + LinkFlaws(g) + Flaws(x.value.value) + FillFlaws(x.after)
    else If(x.comma, RepairSpec.MissingValue)
  }

  function FieldEnd(g: Frame, x: Field): Frame { if x.value.Some? || x.comma then Next(g, x.comma) else g }

  /** The value of a member and what follows it. */
  lemma {:induction false} ValueStage(x: Field, inp: Bytes, c: Core, s: Bytes, fl: seq<Kind>, g: Frame, p: nat, max: nat)
    requires c.frames != [] && !c.stop && GoodField(x) && g.isObject && p <= |inp|
    requires x.value.Some? ==> GoodLoose(x.value.value) && LooseText.Within(x.value.value, max - |c.frames|)
    requires x.key.Some? || x.value.None? ==> g.st == RepairSpec.AtColon || g.st == RepairSpec.AtValue
    requires var t := (if x.value.Some? then LooseText.Text(x.value.value) else []) + FillText(x.after) + CommaText(x.comma);
             Holds(inp, p, t) && (x.comma || (x.value.Some? && x.after != []) || Parted(inp, p + |t|))
    ensures var t := (if x.value.Some? then LooseText.Text(x.value.value) else []) + FillText(x.after) + CommaText(x.comma);
            && p + |t| <= |inp|
            && RepairSpec.Run(inp, At(c, s, fl, g, p), max)
               == RepairSpec.Run(inp, At(c, s + ValueOut(g, x), fl + ValueNotes(g, x), FieldEnd(g, x), p + |t|), max)
    decreases x, 2
  {
    hide *;
    FieldParts(x);
    CommaTextIs(x.comma);
    NoFill();
    var b, d, e := if x.value.Some? then LooseText.Text(x.value.value) else [], FillText(x.after), CommaText(x.comma);
    HoldsThree(inp, p, b, d, e);
    AtFacts(c, s, fl, g, p);
    NotIf(RepairSpec.MissingValue);
    if x.value.Some? {
      var v, n := x.value.value, Next(g, false);
      var p2, p3 := p + |b|, p + |b| + |d|;
      ValueParted(inp, p2, x.after, x.comma, p + |b + d + e|);
      ValueRuns(v, inp, At(c, s, fl, g, p), max);
      ValueAt(v, inp, c, s, fl, g, p, max);
      var s2, f2 := s + (Lead(g) + Link(g) + TreeBytes(v)), fl + (LeadFlaws(g) + LinkFlaws(g) + Flaws(v));
      FillAt(inp, c, s2, f2, n, p2, x.after, max);
      NextIs(g, false);
      NextTwice(g, x.comma);
      if x.comma { CommaAt(inp, c, s2, f2 + FillFlaws(x.after), n, p3, max); }
      ValueIs(g, x);
      FlawsThree(fl, LeadFlaws(g) + LinkFlaws(g) + Flaws(v), FillFlaws(x.after));
    } else {
      ValueIs(g, x);
      if x.comma { MissingAt(inp, c, s, fl, g, p, max); }
      NothingMore(s);
      NoMoreFlaws(fl);
    }
  }

  lemma FlawsThree(a: seq<Kind>, b: seq<Kind>, c: seq<Kind>)
    ensures a + b + c == a + (b + c)
  {
  }

  lemma NextTwice(g: Frame, comma: bool)
    ensures Next(Next(g, false), comma) == Next(g, comma)
  {
  }

  lemma ValueIs(g: Frame, x: Field)
    requires x.value.Some? ==> GoodLoose(x.value.value)
    ensures ValueOut(g, x) == if x.value.Some? then Lead(g) + Link(g) + TreeBytes(x.value.value)
                              else if x.comma then Pending(g) else []
    ensures ValueNotes(g, x) == if x.value.Some? then LeadFlaws(g) + LinkFlaws(g) + Flaws(x.value.value) + FillFlaws(x.after)
                                else If(x.comma, RepairSpec.MissingValue)
    ensures FieldEnd(g, x) == if x.value.Some? || x.comma then Next(g, x.comma) else g
  {
    hide TreeBytes, Flaws, FillFlaws, GoodLoose;
  }

  // --- A member as a whole ---

  ghost function FieldOut(f: Frame, x: Field): Bytes
    requires GoodField(x)
  {
    FieldValue(x);
    KeyOut(f, x) + ValueOut(KeyEnd(f, x), x)
  }

  lemma FieldValue(x: Field)
    requires GoodField(x)
    ensures x.value.Some? ==> GoodLoose(x.value.value)
  {
    hide GoodToken, GoodGap, GoodLoose;
  }

  function MemberEnd(f: Frame, x: Field): Frame { FieldEnd(KeyEnd(f, x), x) }

  ghost function FieldNotes(f: Frame, x: Field): seq<Kind>
    requires GoodField(x)
  {
    FieldValue(x);
    KeyNotes(f, x) + ValueNotes(KeyEnd(f, x), x)
  }

  lemma FieldOutIs(f: Frame, x: Field)
    requires GoodField(x)
    ensures x.value.Some? ==> GoodLoose(x.value.value)
    ensures FieldOut(f, x) == KeyOut(f, x) + ValueOut(KeyEnd(f, x), x)
    ensures FieldNotes(f, x) == KeyNotes(f, x) + ValueNotes(KeyEnd(f, x), x)
    ensures MemberEnd(f, x) == FieldEnd(KeyEnd(f, x), x)
  {
    hide GoodField, GoodLoose, KeyOut, ValueOut, KeyNotes, ValueNotes;
    FieldValue(x);
  }

  lemma KeyEndIs(f: Frame, x: Field)
    requires GoodField(x) && FieldFrame(f)
    ensures var g := KeyEnd(f, x);
            && g.isObject && (x.key.Some? || x.value.None? ==> g.st == RepairSpec.AtColon || g.st == RepairSpec.AtValue)
            && (x.key.None? ==> g == f && x.value.Some?)
            && (x.key.Some? ==> g == f.(st := if x.link.Some? then RepairSpec.AtValue else RepairSpec.AtColon))
  {
    hide GoodToken, GoodGap, GoodLoose;
  }

  lemma WithinIs(x: Field, room: int)
    requires WithinField(x, room)
    ensures x.value.Some? ==> LooseText.Within(x.value.value, room)
  {
    hide LooseText.Within;
  }

  lemma FieldTextIs(x: Field)
    requires GoodField(x)
    ensures x.value.Some? ==> GoodLoose(x.value.value)
    ensures FieldText(x) == KeyText(x) + ((if x.value.Some? then LooseText.Text(x.value.value) else []) + FillText(x.after)
                                          + CommaText(x.comma))
  {
    FieldParts(x);
    hide GoodField, GoodLoose, KeyText, LooseText.Text, FillText, CommaText, FieldText;
    var b := if x.value.Some? then LooseText.Text(x.value.value) else [];
    JoinsFour(KeyText(x), b, FillText(x.after), CommaText(x.comma));
  }

  lemma JoinsFour(a: Bytes, b: Bytes, c: Bytes, d: Bytes)
    ensures a + b + c + d == a + (b + c + d)
  {
  }

  /** A member: a key, a link and a value, as far as they are there. */
  lemma {:induction false} FieldRuns(x: Field, inp: Bytes, c: Core, f: Frame, max: nat)
    requires c.frames != [] && RepairSpec.Top(c) == f && FieldFrame(f) && !c.stop && GoodField(x)
    requires Holds(inp, c.pos, FieldText(x)) && WithinField(x, max - |c.frames|)
    requires x.comma || (x.value.Some? && x.after != []) || Parted(inp, c.pos + |FieldText(x)|)
    ensures c.pos + |FieldText(x)| <= |inp|
    ensures RepairSpec.Run(inp, c, max)
         == RepairSpec.Run(inp, At(c, FieldOut(f, x), FieldNotes(f, x), MemberEnd(f, x), c.pos + |FieldText(x)|), max)
    decreases x, 3
  {
    hide *;
    FieldParts(x);
    FieldTextIs(x);
    FieldOutIs(f, x);
    KeyEndIs(f, x);
    WithinIs(x, max - |c.frames|);
    var k := KeyText(x);
    var t := (if x.value.Some? then LooseText.Text(x.value.value) else []) + FillText(x.after) + CommaText(x.comma);
    HoldsParts(inp, c.pos, k, t);
    HoldsFits(inp, c.pos, k);
    HoldsFits(inp, c.pos + |k|, t);
    if x.key.Some? && x.link.None? && x.between == [] { NoValueParted(x, inp, c.pos + |k|); }
    KeyStage(x, inp, c, f, max);
    ValueStage(x, inp, c, KeyOut(f, x), KeyNotes(f, x), KeyEnd(f, x), c.pos + |k|, max);
  }

  /** Where the value is missing, too, what follows parts the key from it. */
  lemma NoValueParted(x: Field, inp: Bytes, p: nat)
    requires x.value.None? && x.after == []
    requires Holds(inp, p, [] + FillText(x.after) + CommaText(x.comma))
    requires x.comma || Parted(inp, p + |[] + FillText(x.after) + CommaText(x.comma)|)
    ensures Parted(inp, p)
  {
    NoFill();
    CommaTextIs(x.comma);
    hide FillText, CommaText, Holds;
    NothingBefore(CommaText(x.comma));
    if x.comma { ByteParts(inp, p, 0x2C); }
  }

  /** What is written of a member, with what is written where its container closes. */
  lemma FieldWritten(x: Field, f: Frame)
    requires GoodField(x) && FieldFrame(f)
    ensures GoodMem(FieldTree(x)) && FieldOut(f, x) + Pending(MemberEnd(f, x)) == Lead(f) + MemBytes(FieldTree(x))
    ensures FieldNotes(f, x) == FieldFlaws(x, Unparted(f))
    ensures x.value.Some? || x.comma ==> FieldFrame(MemberEnd(f, x)) && MemberEnd(f, x) == Next(f, x.comma)
    ensures x.value.None? && !x.comma ==> Pending(MemberEnd(f, x)) != [] && MemberEnd(f, x).st != RepairSpec.AfterValue
    ensures MemberEnd(f, x).isObject
  {
    hide *;
    FieldIs(x);
    KeyEndIs(f, x);
    FieldOutIs(f, x);
    FieldBytes(x);
    FieldWrites(x, f);
    FieldNotesAre(x, f);
    FieldEnds(x, f);
  }

  lemma FieldEnds(x: Field, f: Frame)
    requires FieldFrame(f) && GoodField(x)
    ensures x.value.Some? || x.comma ==> FieldFrame(MemberEnd(f, x)) && MemberEnd(f, x) == Next(f, x.comma)
    ensures x.value.None? && !x.comma ==> Pending(MemberEnd(f, x)) != [] && MemberEnd(f, x).st != RepairSpec.AfterValue
    ensures MemberEnd(f, x).isObject
  {
    KeyEndIs(f, x);
    hide GoodField;
  }

  ghost function ValueBytes(x: Field): Bytes
    requires x.value.Some? ==> GoodLoose(x.value.value)
  {
    if x.value.Some? then TreeBytes(x.value.value) else [0x6E, 0x75, 0x6C, 0x6C]
  }

  ghost function KeyBytes(x: Field): Bytes
    requires GoodField(x)
  {
    if x.key.None? then [0x22, 0x22] else FieldIsKeyed(x); Quoted(KeyChars(x.key.value))
  }

  lemma FieldBytes(x: Field)
    requires GoodField(x)
    ensures GoodMem(FieldTree(x)) && (x.value.Some? ==> GoodLoose(x.value.value))
    ensures MemBytes(FieldTree(x)) == KeyBytes(x) + [0x3A] + ValueBytes(x)
  {
    hide *;
    FieldIs(x);
    FieldValue(x);
    TreeOfField(x);
    var m := FieldTree(x);
    if x.value.Some? { TreeBytesIs(x.value.value); }
    MemBytesIs(m);
    KeyBytesIs(x);
    ValueBytesIs(x);
  }

  lemma TreeOfField(x: Field)
    requires GoodField(x) && (x.value.Some? ==> GoodLoose(x.value.value))
    ensures x.key.Some? ==> GoodToken(x.key.value)
    ensures FieldTree(x) == Mem([], if x.key.Some? then KeyChars(x.key.value) else [], [],
                                Item([], if x.value.Some? then Tree(x.value.value) else TNull, []))
  {
    hide GoodToken, GoodGap, GoodLoose, Tree, KeyChars;
  }

  lemma MemBytesIs(m: Mem)
    requires GoodMem(m) && m.before == [] && m.after == [] && m.item.before == [] && m.item.after == []
    ensures GoodChars(m.key) && Good(m.item.value) && MemBytes(m) == Quoted(m.key) + [0x3A] + TextBytes(m.item.value)
  {
    hide GoodChars, Good, TextBytes, Quoted;
    NothingBefore(TextBytes(m.item.value));
    NothingMore(TextBytes(m.item.value));
    NothingBefore(Quoted(m.key));
    NothingMore(Quoted(m.key));
  }

  lemma KeyBytesIs(x: Field)
    requires GoodField(x)
    ensures x.key.None? ==> KeyBytes(x) == Quoted([])
    ensures x.key.Some? ==> GoodToken(x.key.value) && GoodChars(KeyChars(x.key.value)) && KeyBytes(x) == Quoted(KeyChars(x.key.value))
  {
    hide GoodField, GoodToken, GoodChars, KeyChars;
    if x.key.Some? { FieldIsKeyed(x); hide Quoted; }
  }

  lemma ValueBytesIs(x: Field)
    requires x.value.Some? ==> GoodLoose(x.value.value)
    ensures ValueBytes(x) == if x.value.Some? then TreeBytes(x.value.value) else TextBytes(TNull)
  {
    hide GoodLoose, TreeBytes;
  }

  lemma FieldWrites(x: Field, f: Frame)
    requires GoodField(x) && FieldFrame(f) && (x.value.Some? ==> GoodLoose(x.value.value))
    ensures FieldOut(f, x) + Pending(MemberEnd(f, x)) == Lead(f) + (KeyBytes(x) + [0x3A] + ValueBytes(x))
  {
    FieldOutIs(f, x);
    KeyEndIs(f, x);
    KeyOutSpelled(f, x);
    ValueOutSpelled(f, x);
    hide GoodField, GoodLoose, KeyOut, ValueOut, KeyBytes, ValueBytes, Lead, KeyEnd, MemberEnd, FieldOut, Pending;
    var k, v := KeyBytes(x), ValueBytes(x);
    var w := LinkOf(x);
    if x.key.None? {
      SpelledNone(Lead(f), [0x22, 0x22], v);
    } else {
      SpelledSome(Lead(f) + k, w, ValueOut(KeyEnd(f, x), x), Pending(MemberEnd(f, x)), v);
      Associates(Lead(f), k, [0x3A] + v);
      Associates(k, [0x3A], v);
    }
  }

  function LinkOf(x: Field): Bytes { if x.link.Some? then [0x3A] else [] }

  lemma SpelledNone(a: Bytes, k: Bytes, v: Bytes)
    ensures [] + (a + (k + [0x3A]) + v) + [] == a + (k + [0x3A] + v)
  {
  }

  lemma SpelledSome(a: Bytes, w: Bytes, o: Bytes, e: Bytes, v: Bytes)
    requires w + o + e == [0x3A] + v
    ensures a + w + o + e == a + ([0x3A] + v)
  {
    Associates(a, w, o);
    Associates(a, w + o, e);
  }

  lemma KeyOutSpelled(f: Frame, x: Field)
    requires GoodField(x)
    ensures x.key.None? ==> KeyOut(f, x) == [] && KeyBytes(x) == [0x22, 0x22]
    ensures x.key.Some? ==> KeyOut(f, x) == Lead(f) + KeyBytes(x) + LinkOf(x)
  {
    hide GoodField, KeyChars, Quoted, Lead;
    if x.key.Some? { FieldIsKeyed(x); }
  }

  lemma ValueOutSpelled(f: Frame, x: Field)
    requires GoodField(x) && FieldFrame(f) && (x.value.Some? ==> GoodLoose(x.value.value))
    ensures x.key.None? ==> ValueOut(KeyEnd(f, x), x) == Lead(f) + ([0x22, 0x22] + [0x3A]) + ValueBytes(x)
                            && Pending(MemberEnd(f, x)) == []
    ensures x.key.Some? ==> LinkOf(x) + ValueOut(KeyEnd(f, x), x) + Pending(MemberEnd(f, x)) == [0x3A] + ValueBytes(x)
  {
    hide *;
    KeyEndIs(f, x);
    var g := KeyEnd(f, x);
    ValueIs(g, x);
    ValueBytesAre(x);
    MemberEndIs(f, x);
    if x.key.None? { BareLink(g); } else { KeyedLink(g, x); }
    NextParts(g, x.comma);
    if x.value.Some? {
      LinkJoins(LinkOf(x), Lead(g) + Link(g), ValueBytes(x));
    } else {
      NothingMore(LinkOf(x) + Pending(g));
      NothingMore(LinkOf(x));
    }
  }

  lemma MemberEndIs(f: Frame, x: Field)
    ensures MemberEnd(f, x) == if x.value.Some? || x.comma then Next(KeyEnd(f, x), x.comma) else KeyEnd(f, x)
  {
  }

  lemma ValueBytesAre(x: Field)
    requires x.value.Some? ==> GoodLoose(x.value.value)
    ensures ValueBytes(x) == if x.value.Some? then TreeBytes(x.value.value) else [0x6E, 0x75, 0x6C, 0x6C]
  {
    hide GoodLoose, TreeBytes;
  }

  /** Before a container without a key, the empty one. */
  lemma BareLink(g: Frame)
    requires FieldFrame(g)
    ensures Link(g) == [0x22, 0x22] + [0x3A]
  {
  }

  /** After a key, a colon comes from its link, with the value, or with what is missing. */
  lemma KeyedLink(g: Frame, x: Field)
    requires g.isObject && g.st == (if x.link.Some? then RepairSpec.AtValue else RepairSpec.AtColon)
    ensures LinkOf(x) + (Lead(g) + Link(g)) == [0x3A]
    ensures LinkOf(x) + Pending(g) == [0x3A] + [0x6E, 0x75, 0x6C, 0x6C]
  {
  }

  lemma LinkJoins(a: Bytes, b: Bytes, v: Bytes)
    ensures a + (b + v) + [] == a + b + v
    ensures b + v + [] == b + v
  {
  }

  lemma FieldNotesAre(x: Field, f: Frame)
    requires GoodField(x) && FieldFrame(f)
    ensures FieldNotes(f, x) == FieldFlaws(x, Unparted(f))
  {
    hide *;
    FieldParts(x);
    FieldOutIs(f, x);
    KeyEndIs(f, x);
    FieldFlawsAre(x, Unparted(f));
    LeadIs(f);
    NoFill();
    NotIf(RepairSpec.MissingColon);
    NotIf(RepairSpec.MissingValue);
    KeyNotesAre(f, x);
    ValueIs(KeyEnd(f, x), x);
    LinkFlawsAre(f, x);
    var b, m, v := FillFlaws(x.before), LeadFlaws(f), ValuePart(x);
    if x.key.None? {
      NotesNone(b, m, [RepairSpec.Garbage], Flaws(x.value.value), FillFlaws(x.after));
    } else {
      NotesSome(b, m, KeyFlaws(x.key.value), FillFlaws(x.between), If(x.link == Some(0x3D), RepairSpec.MissingColon),
                FillFlaws(x.gap), LinkPart(x), v, FillFlaws(x.after), ValueNotes(KeyEnd(f, x), x));
    }
  }

  ghost function ValuePart(x: Field): seq<Kind>
    requires x.value.Some? ==> GoodLoose(x.value.value)
  {
    if x.value.Some? then Flaws(x.value.value) else If(x.comma, RepairSpec.MissingValue)
  }

  function LinkPart(x: Field): seq<Kind> { If(x.key.Some? && x.link.None? && x.value.Some?, RepairSpec.MissingColon) }

  lemma FieldFlawsAre(x: Field, unparted: bool)
    requires GoodField(x)
    ensures x.value.Some? ==> GoodLoose(x.value.value)
    ensures FieldFlaws(x, unparted)
         == FillFlaws(x.before) + If(unparted, RepairSpec.MissingComma)
            + (if x.key.Some? then KeyFlaws(x.key.value) else [RepairSpec.Garbage])
            + FillFlaws(x.between) + If(x.link == Some(0x3D), RepairSpec.MissingColon) + FillFlaws(x.gap)
            + LinkPart(x) + ValuePart(x) + FillFlaws(x.after)
  {
    hide GoodToken, GoodGap, GoodLoose, FillFlaws, KeyFlaws, Flaws, If;
  }

  lemma LeadIs(f: Frame)
    ensures LeadFlaws(f) == If(Unparted(f), RepairSpec.MissingComma)
  {
  }

  lemma KeyNotesAre(f: Frame, x: Field)
    ensures KeyNotes(f, x) == if x.key.None? then FillFlaws(x.before)
                              else
                                FillFlaws(x.before) + (LeadFlaws(f) + KeyFlaws(x.key.value)) + FillFlaws(x.between)
                                + If(x.link == Some(0x3D), RepairSpec.MissingColon) + FillFlaws(x.gap)
  {
    hide FillFlaws, KeyFlaws, LeadFlaws, If;
  }

  /** The notes before and on a value, in terms of the member. */
  lemma LinkFlawsAre(f: Frame, x: Field)
    requires GoodField(x) && FieldFrame(f) && (x.value.Some? ==> GoodLoose(x.value.value))
    ensures var g := KeyEnd(f, x);
            && (x.key.None? ==> x.value.Some? && LinkFlaws(g) == [RepairSpec.Garbage] && LeadFlaws(g) == LeadFlaws(f)
                                && If(x.link == Some(0x3D), RepairSpec.MissingColon) == [] && LinkPart(x) == []
                                && ValuePart(x) == Flaws(x.value.value) && x.between == [] && x.gap == [])
            && (x.key.Some? ==> ValueNotes(g, x) == LinkPart(x) + ValuePart(x) + FillFlaws(x.after))
  {
    KeyEndIs(f, x);
    FieldParts(x);
    NoFill();
    hide GoodField, GoodLoose, Flaws, FillFlaws, KeyEnd;
    if x.value.None? {
      NoMoreFlaws(ValuePart(x));
    } else {
      NoMoreFlaws(LinkPart(x));
    }
  }

  lemma NotesNone(b: seq<Kind>, m: seq<Kind>, g: seq<Kind>, v: seq<Kind>, a: seq<Kind>)
    ensures b + (m + g + v + a) == b + m + g + [] + [] + [] + [] + v + a
  {
  }

  lemma NotesSome(b: seq<Kind>, m: seq<Kind>, k: seq<Kind>, w: seq<Kind>, e: seq<Kind>, g: seq<Kind>, l: seq<Kind>,
                  v: seq<Kind>, a: seq<Kind>, n: seq<Kind>)
    requires n == l + v + a
    ensures b + (m + k) + w + e + g + n == b + m + k + w + e + g + l + v + a
  {
    var x := b + m + k + w + e + g;
    assert b + (m + k) + w + e + g == x;
    assert x + (l + v + a) == x + l + v + a;
  }

  // --- All members ---

  ghost function FieldsOut(f: Frame, fs: seq<Field>): Bytes
    requires FieldsGood(fs)
    decreases |fs|
  {
    if fs == [] then [] else FieldOut(f, fs[0]) + FieldsOut(MemberEnd(f, fs[0]), fs[1..])
  }

  function FieldsEnd(f: Frame, fs: seq<Field>): Frame
    decreases |fs|
  {
    if fs == [] then f else FieldsEnd(MemberEnd(f, fs[0]), fs[1..])
  }

  predicate FieldCommas(fs: seq<Field>)
  {
    forall i :: 0 <= i < |fs| - 1 ==> fs[i].comma || (fs[i].value.Some? && fs[i].after != [])
  }

  predicate FieldsWithin(fs: seq<Field>, room: int) { forall i :: 0 <= i < |fs| ==> WithinField(fs[i], room) }

  lemma FieldsSplit(fs: seq<Field>, room: int, f: Frame, unparted: bool)
    requires fs != [] && FieldsGood(fs) && FieldCommas(fs) && FieldsWithin(fs, room)
    ensures GoodField(fs[0]) && FieldsGood(fs[1..]) && WithinField(fs[0], room) && FieldsWithin(fs[1..], room)
    ensures FieldCommas(fs[1..])
    ensures forall i :: 0 <= i < |fs[1..]| ==> GoodField(fs[1..][i])
    ensures fs[1..] != [] ==> fs[0].comma || (fs[0].value.Some? && fs[0].after != [])
    ensures FieldsEnd(f, fs) == FieldsEnd(MemberEnd(f, fs[0]), fs[1..])
    ensures FieldsOut(f, fs) == FieldOut(f, fs[0]) + FieldsOut(MemberEnd(f, fs[0]), fs[1..])
    ensures FieldsText(fs) == FieldText(fs[0]) + FieldsText(fs[1..])
    ensures FieldsFlaws(fs, unparted) == FieldFlaws(fs[0], unparted) + FieldsFlaws(fs[1..], !fs[0].comma)
    ensures fs[1..] == [] ==> FieldsText(fs[1..]) == [] && FieldsFlaws(fs[1..], !fs[0].comma) == []
  {
    hide GoodField, WithinField, FieldOut, FieldText, FieldFlaws, MemberEnd;
  }

  lemma NoFields(f: Frame, unparted: bool)
    ensures FieldsText([]) == [] && FieldsFlaws([], unparted) == [] && FieldsOut(f, []) == [] && FieldsEnd(f, []) == f
  {
  }

  lemma {:induction false} FieldsRun(fs: seq<Field>, inp: Bytes, c: Core, f: Frame, max: nat)
    requires c.frames != [] && RepairSpec.Top(c) == f && FieldFrame(f) && !c.stop && c.pos <= |inp|
    requires FieldsGood(fs) && FieldCommas(fs) && FieldsWithin(fs, max - |c.frames|)
    requires forall i :: 0 <= i < |fs| ==> GoodField(fs[i])
    requires Holds(inp, c.pos, FieldsText(fs)) && Parted(inp, c.pos + |FieldsText(fs)|)
    ensures c.pos + |FieldsText(fs)| <= |inp|
    ensures RepairSpec.Run(inp, c, max)
         == RepairSpec.Run(inp, At(c, FieldsOut(f, fs), FieldsFlaws(fs, Unparted(f)), FieldsEnd(f, fs),
                                   c.pos + |FieldsText(fs)|), max)
    decreases fs, 4
  {
    hide *;
    if fs == [] {
      NoFields(f, Unparted(f));
      AtHere(c);
    } else {
      FieldsSplit(fs, max - |c.frames|, f, Unparted(f));
      var a, b := FieldText(fs[0]), FieldsText(fs[1..]);
      HoldsParts(inp, c.pos, a, b);
      HoldsFits(inp, c.pos, a);
      NothingMore(a);
      FieldRuns(fs[0], inp, c, f, max);
      FieldWritten(fs[0], f);
      var p, n, s, fl := c.pos + |a|, MemberEnd(f, fs[0]), FieldOut(f, fs[0]), FieldFlaws(fs[0], Unparted(f));
      if fs[1..] == [] {
        NoFields(n, !fs[0].comma);
        NothingMore(s);
        NoMoreFlaws(fl);
      } else {
        NextParts(f, fs[0].comma);
        AtFacts(c, s, fl, n, p);
        FieldsRun(fs[1..], inp, At(c, s, fl, n, p), n, max);
        AtAt(c, s, fl, n, p, FieldsOut(n, fs[1..]), FieldsFlaws(fs[1..], !fs[0].comma), FieldsEnd(n, fs[1..]), p + |b|);
      }
    }
  }

  lemma NextParts(f: Frame, comma: bool)
    ensures Unparted(Next(f, comma)) == !comma && Pending(Next(f, comma)) == [] && Lead(Next(f, comma)) == [0x2C]
    ensures Next(f, comma).st == RepairSpec.AfterValue && Next(f, comma).commaSeen == comma
  {
  }

  lemma MembersUnfold(after: bool, fs: seq<Field>)
    requires fs != [] && FieldsGood(fs)
    ensures GoodField(fs[0]) && GoodMem(FieldTree(fs[0])) && FieldsGood(fs[1..])
    ensures Members(after, fs) == (if after then [0x2C] else []) + MemBytes(FieldTree(fs[0])) + Members(true, fs[1..])
  {
    var lead := if after then [0x2C] else [];
    MemsAre(fs);
    MemsUnfold(fs);
    MemsAre(fs[1..]);
    FieldIs(fs[0]);
    hide MemBytes, GoodField, GoodMem, Mems, FieldTree;
    var a := MemBytes(FieldTree(fs[0]));
    if |fs| == 1 {
      ParserGrammar.LastMem(Mems(fs));
      assert fs[1..] == [];
      NothingMore(lead + a);
    } else {
      ParserGrammar.MoreMems(Mems(fs));
      var b := MemsBytes(Mems(fs[1..]));
      Associates(lead, a, [0x2C] + b);
    }
  }

  /** The members as they are written, with what is still missing of the last one. */
  lemma {:induction false} FieldsWritten(fs: seq<Field>, f: Frame)
    requires FieldsGood(fs) && FieldCommas(fs) && FieldFrame(f) && forall i :: 0 <= i < |fs| ==> GoodField(fs[i])
    ensures FieldsOut(f, fs) + Pending(FieldsEnd(f, fs)) == Members(f.st == RepairSpec.AfterValue, fs)
    ensures FieldsEnd(f, fs).isObject
    ensures fs == [] ==> FieldsEnd(f, fs) == f
    ensures fs != [] ==>
              && (FieldsEnd(f, fs).st == RepairSpec.AfterValue && FieldsEnd(f, fs).commaSeen <==> fs[|fs| - 1].comma)
              && (Pending(FieldsEnd(f, fs)) != [] <==> fs[|fs| - 1].value.None? && !fs[|fs| - 1].comma)
    decreases |fs|
  {
    hide *;
    if fs == [] {
      NoFields(f, false);
      NoMembers(f);
    } else {
      FieldsSplits(fs, f);
      FieldWritten(fs[0], f);
      MembersUnfold(f.st == RepairSpec.AfterValue, fs);
      LeadText(f);
      NextParts(f, fs[0].comma);
      var n, m := MemberEnd(f, fs[0]), MemBytes(FieldTree(fs[0]));
      if |fs| == 1 {
        NoFields(n, false);
        NothingMore(FieldOut(f, fs[0]));
        assert fs[1..] == [];
        NoMembers(n);
        NothingMore(Lead(f) + m);
      } else {
        NothingMore(FieldOut(f, fs[0]));
        FieldsWritten(fs[1..], n);
        assert fs[1..][|fs| - 2] == fs[|fs| - 1];
        Associates(Lead(f) + m, FieldsOut(n, fs[1..]), Pending(FieldsEnd(n, fs[1..])));
      }
    }
  }

  lemma FieldsSplits(fs: seq<Field>, f: Frame)
    requires fs != [] && FieldsGood(fs) && FieldCommas(fs)
    ensures GoodField(fs[0]) && FieldsGood(fs[1..]) && FieldCommas(fs[1..])
    ensures forall i :: 0 <= i < |fs[1..]| ==> GoodField(fs[1..][i])
    ensures |fs| > 1 ==> fs[0].comma || fs[0].value.Some?
    ensures FieldsEnd(f, fs) == FieldsEnd(MemberEnd(f, fs[0]), fs[1..])
    ensures FieldsOut(f, fs) == FieldOut(f, fs[0]) + FieldsOut(MemberEnd(f, fs[0]), fs[1..])
  {
    hide GoodField, FieldOut, MemberEnd;
  }

  lemma LeadText(f: Frame)
    ensures Lead(f) == if f.st == RepairSpec.AfterValue then [0x2C] else []
  {
  }

  lemma NoMembers(f: Frame)
    ensures Members(f.st == RepairSpec.AfterValue, []) == [] && Members(true, []) == []
    ensures FieldFrame(f) ==> f.isObject && Pending(f) == []
  {
  }

  lemma RecordIs(v: Loose)
    requires GoodLoose(v) && v.Record?
    ensures GoodGap(v.inner) && IsClose(v.close) && FieldsGood(v.fields) && FieldCommas(v.fields)
    ensures forall i :: 0 <= i < |v.fields| ==> GoodField(v.fields[i])
    ensures LooseText.Text(v) == [Open(true)] + FieldsText(v.fields) + FillText(v.inner) + [v.close]
  {
    hide GoodField, GoodGap, FieldsText, FillText;
  }

  lemma RecordWithin(v: Loose, room: int)
    requires v.Record? && LooseText.Within(v, room)
    ensures room > 0 && FieldsWithin(v.fields, room - 1)
  {
  }

  lemma RecordBytes(v: Loose)
    requires GoodLoose(v) && v.Record?
    ensures Good(Tree(v)) && FieldsGood(v.fields)
    ensures TextBytes(Tree(v)) == [0x7B] + Members(false, v.fields) + [0x7D]
  {
    TreeIs(v);
    MemsAre(v.fields);
    hide GoodField, Mems, MemsBytes, GoodMem;
    NothingBefore(MemsBytes(Mems(v.fields)));
    NothingMore([0x7B]);
  }

  lemma RecordWritten(v: Loose)
    requires GoodLoose(v) && v.Record? && FieldsGood(v.fields)
    ensures var f := FieldsEnd(FirstFrame(true), v.fields);
            && f.isObject
            && TreeBytes(v) == [Open(true)] + FieldsOut(FirstFrame(true), v.fields) + (Pending(f) + [Close(true)])
            && Flaws(v) == FieldsFlaws(v.fields, false) + FillFlaws(v.inner) + CloseFlaws(f, v.close)
  {
    hide *;
    var f0 := FirstFrame(true);
    FirstIs(true);
    FieldFrameIs(f0);
    RecordIs(v);
    TreeBytesIs(v);
    RecordBytes(v);
    FieldsWritten(v.fields, f0);
    var f := FieldsEnd(f0, v.fields);
    OpenCloseBytes();
    Around([0x7B], FieldsOut(f0, v.fields), Pending(f), [0x7D]);
    RecordFlaws(v);
    RecordClose(v, f);
    var x, y, z := If(v.close != 0x7D, RepairSpec.Bracket),
                   If(v.fields != [] && v.fields[|v.fields| - 1].comma, RepairSpec.TrailingComma),
                   If(v.fields != [] && v.fields[|v.fields| - 1].value.None? && !v.fields[|v.fields| - 1].comma,
                      RepairSpec.MissingValue);
    FlawsFive(FieldsFlaws(v.fields, false), FillFlaws(v.inner), x, y, z);
  }

  lemma FieldFrameIs(f: Frame)
    requires f.isObject && f.st == RepairSpec.AtKey
    ensures FieldFrame(f) && Pending(f) == [] && f.st != RepairSpec.AfterValue
  {
  }

  lemma OpenCloseBytes()
    ensures Open(true) == 0x7B && Close(true) == 0x7D
  {
  }

  lemma Around(a: Bytes, b: Bytes, c: Bytes, d: Bytes)
    ensures a + (b + c) + d == a + b + (c + d)
  {
  }

  lemma FlawsFive(a: seq<Kind>, b: seq<Kind>, c: seq<Kind>, d: seq<Kind>, e: seq<Kind>)
    ensures a + b + (c + d + e) == a + b + c + d + e
  {
  }

  lemma RecordFlaws(v: Loose)
    requires GoodLoose(v) && v.Record? && FieldsGood(v.fields)
    ensures Flaws(v) == FieldsFlaws(v.fields, false) + FillFlaws(v.inner) + If(v.close != 0x7D, RepairSpec.Bracket)
                        + If(v.fields != [] && v.fields[|v.fields| - 1].comma, RepairSpec.TrailingComma)
                        + If(v.fields != [] && v.fields[|v.fields| - 1].value.None? && !v.fields[|v.fields| - 1].comma,
                             RepairSpec.MissingValue)
  {
    hide GoodField, GoodGap, FieldsFlaws, FillFlaws, If;
  }

  lemma RecordClose(v: Loose, f: Frame)
    requires v.Record? && f.isObject
    requires v.fields == [] ==> Pending(f) == [] && f.st != RepairSpec.AfterValue
    requires v.fields != [] ==>
               && (f.st == RepairSpec.AfterValue && f.commaSeen <==> v.fields[|v.fields| - 1].comma)
               && (Pending(f) != [] <==> v.fields[|v.fields| - 1].value.None? && !v.fields[|v.fields| - 1].comma)
    ensures CloseFlaws(f, v.close)
         == If(v.close != 0x7D, RepairSpec.Bracket)
            + If(v.fields != [] && v.fields[|v.fields| - 1].comma, RepairSpec.TrailingComma)
            + If(v.fields != [] && v.fields[|v.fields| - 1].value.None? && !v.fields[|v.fields| - 1].comma,
                 RepairSpec.MissingValue)
  {
    hide Pending, If;
  }

  lemma {:induction false} RecordRuns(v: Loose, inp: Bytes, c: Core, max: nat)
    requires GoodLoose(v) && v.Record? && Holds(inp, c.pos, LooseText.Text(v)) && Running(c)
    requires LooseText.Within(v, max - |c.frames|)
    ensures ValueRunsHere(v, inp, c, max)
    decreases v, 0
  {
    hide *;
    RecordIs(v);
    RecordWithin(v, max - |c.frames|);
    var fs := v.fields;
    var a, b := FieldsText(fs), FillText(v.inner);
    HoldsFour(inp, c.pos, [Open(true)], a, b, [v.close]);
    Opens(inp, c, true, max);
    var o, p1, p2 := Opened(c, true), c.pos + 1 + |a|, c.pos + 1 + |a| + |b|;
    var f0 := FirstFrame(true);
    FirstIs(true);
    FieldFrameIs(f0);
    ByteParts(inp, p2, v.close);
    GapParts(inp, p1, v.inner);
    FieldsRun(fs, inp, o, f0, max);
    var f, s, fl := FieldsEnd(f0, fs), FieldsOut(f0, fs), FieldsFlaws(fs, false);
    FillAt(inp, o, s, fl, f, p1, v.inner, max);
    RecordWritten(v);
    Closing(inp, c, true, s, fl + FillFlaws(v.inner), f, p2, v.close, max);
    RunsThere(v, inp, c, max, p2 + 1);
  }
}

/** A loose text is repaired to a text that parses to what it denotes, and every flaw is reported. */
module RepairMeaning {
  import opened Bytes
  import opened Texts
  import opened Options
  import opened JsonValue
  import opened Grammar
  import opened LooseText
  import opened RepairedWords
  import opened LooseTokens
  import opened LooseTrees
  import opened LooseRuns
  import ParserSpec
  import ParserGrammar
  import RepairSpec

  const FRESH: Core := RepairSpec.Core(0, [], [], false, false, 0, {})

  lemma StartIs(inp: Bytes, mark: bool, body: Bytes)
    requires inp == MarkText(mark) + body
    requires !mark ==> !(|body| >= 3 && body[..3] == [0xEF, 0xBB, 0xBF])
    ensures RepairSpec.Start(inp) == Put(FRESH, [], If(mark, RepairSpec.ByteOrderMark)).(pos := |MarkText(mark)|)
  {
    PutNothing(FRESH);
    PutFix(FRESH, RepairSpec.ByteOrderMark);
    hide Put;
    if mark {
      assert inp[..3] == [0xEF, 0xBB, 0xBF];
    } else {
      NothingBefore(body);
    }
  }

  /** At the top level a value changes nothing but the output, the report and the mark that it is complete. */
  lemma TopValue(c: Core, s: Bytes, fl: seq<Kind>)
    requires c.frames == [] && !c.topDone
    ensures Val(c, s, fl) == Put(c, s, fl).(topDone := true)
  {
    hide Kinds;
  }

  /** The state of a document that is done. */
  function Ended(s: Bytes, fl: seq<Kind>, p: nat, done: bool): Core
  {
    Put(FRESH, s, fl).(pos := p, topDone := done)
  }

  lemma EndedFacts(s: Bytes, fl: seq<Kind>, p: nat, done: bool)
    ensures var c := Ended(s, fl, p, done);
            && c.frames == [] && c.topDone == done && !c.stop && c.pos == p && Running(c) == !done
            && !RepairSpec.AtKeyPosition(c) && |c.frames| == 0
  {
  }

  lemma EndedPut(s: Bytes, fl: seq<Kind>, p: nat, done: bool, t: Bytes, more: seq<Kind>, q: nat)
    ensures Put(Ended(s, fl, p, done), t, more).(pos := q) == Ended(s + t, fl + more, q, done)
  {
    PutPut(FRESH, s, fl, t, more);
    hide Kinds;
  }

  lemma EndedValue(s: Bytes, fl: seq<Kind>, p: nat, t: Bytes, more: seq<Kind>, q: nat)
    ensures Val(Ended(s, fl, p, false), t, more).(pos := q) == Ended(s + t, fl + more, q, true)
  {
    TopValue(Ended(s, fl, p, false), t, more);
    EndedPut(s, fl, p, false, t, more, q);
    hide Kinds, Val;
  }

  lemma DocumentParts(d: Document)
    requires GoodDocument(d)
    ensures ShapedDocument(d) && GoodFill(d.before) && GoodLoose(d.value) && GoodGap(d.after)
    ensures d.ending.Some? ==> d.after != []
    ensures DocumentText(d) == MarkText(d.mark) + BodyText(d)
    ensures !d.mark ==> !(|BodyText(d)| >= 3 && BodyText(d)[..3] == [0xEF, 0xBB, 0xBF])
    ensures BodyText(d) == FillText(d.before) + LooseText.Text(d.value) + FillText(d.after) + EndingText(d.ending)
    ensures DocumentFlaws(d) == If(d.mark, RepairSpec.ByteOrderMark) + FillFlaws(d.before) + Flaws(d.value)
                                + FillFlaws(d.after) + If(d.ending.Some?, RepairSpec.CodeFence)
  {
    hide GoodFill, GoodGap, GoodLoose, FillText, FillFlaws, Flaws, LooseText.Text, EndingText, If;
  }

  lemma EndingIs(e: Option<Bytes>)
    ensures e.None? ==> EndingText(e) == []
    ensures e.Some? ==> EndingText(e) == [0x60, 0x60, 0x60] + e.value
  {
  }

  /** The run ends with the input, or at a code fence. */
  lemma RunEnds(inp: Bytes, s: Bytes, fl: seq<Kind>, p: nat, e: Option<Bytes>, max: nat)
    requires Holds(inp, p, EndingText(e)) && |inp| == p + |EndingText(e)|
    ensures RepairSpec.Run(inp, Ended(s, fl, p, true), max)
         == Ended(s, fl + If(e.Some?, RepairSpec.CodeFence), p, true)
  {
    EndingIs(e);
    EndedFacts(s, fl, p, true);
    var c := Ended(s, fl, p, true);
    hide Put, RepairSpec.Step, Ended;
    if e.None? {
      NotIf(RepairSpec.CodeFence);
      NoMoreFlaws(fl);
    } else {
      HoldsParts(inp, p, [0x60, 0x60, 0x60], e.value);
      FenceIs(inp, c);
      PutFix(c, RepairSpec.CodeFence);
      PutKeeps(c, [], [RepairSpec.CodeFence]);
      SamePos(Put(c, [], [RepairSpec.CodeFence]), p);
      EndedPut(s, fl, p, true, [], [RepairSpec.CodeFence], p);
      NothingMore(s);
    }
  }

  /** The whole run. */
  lemma DocumentRuns(d: Document, max: nat)
    requires GoodDocument(d) && LooseText.Within(d.value, max)
    ensures GoodLoose(d.value)
    ensures var inp := DocumentText(d);
            exists p: nat :: RepairSpec.Run(inp, RepairSpec.Start(inp), max) == Ended(TreeBytes(d.value), DocumentFlaws(d), p, true)
  {
    hide *;
    DocumentParts(d);
    var inp, m := DocumentText(d), MarkText(d.mark);
    var a, b, g, z := FillText(d.before), LooseText.Text(d.value), FillText(d.after), EndingText(d.ending);
    WholeHolds(m, BodyText(d));
    HoldsFour(inp, |m|, a, b, g, z);
    var p1, p2, p3 := |m| + |a|, |m| + |a| + |b|, |m| + |a| + |b| + |g|;
    StartIs(inp, d.mark, BodyText(d));
    var f0 := If(d.mark, RepairSpec.ByteOrderMark);
    StartEnded(f0, |m|);
    EndedFacts([], f0, |m|, false);
    FillRuns(d.before, inp, Ended([], f0, |m|, false), max);
    EndedPut([], f0, |m|, false, [], FillFlaws(d.before), p1);
    NothingMore([]);
    var f1 := f0 + FillFlaws(d.before);
    EndedFacts([], f1, p1, false);
    EndingIs(d.ending);
    AtEnd(inp);
    NoFill();
    GapIs(d.after);
    FillParted(d.after, inp, p2);
    WithinAll(d.value, max);
    ValueRuns(d.value, inp, Ended([], f1, p1, false), max);
    RunsHereIs(d.value, inp, Ended([], f1, p1, false), max);
    EndedValue([], f1, p1, TreeBytes(d.value), Flaws(d.value), p2);
    NothingBefore(TreeBytes(d.value));
    var t, f2 := TreeBytes(d.value), f1 + Flaws(d.value);
    EndedFacts(t, f2, p2, true);
    FillRuns(d.after, inp, Ended(t, f2, p2, true), max);
    EndedPut(t, f2, p2, true, [], FillFlaws(d.after), p3);
    NothingMore(t);
    RunEnds(inp, t, f2 + FillFlaws(d.after), p3, d.ending, max);
  }

  lemma WithinAll(v: Loose, max: nat)
    requires LooseText.Within(v, max)
    ensures LooseText.Within(v, max - 0)
  {
  }

  lemma WholeHolds(m: Bytes, body: Bytes)
    ensures Holds(m + body, |m|, body) && |m + body| == |m| + |body|
  {
  }

  lemma StartEnded(fl: seq<Kind>, p: nat)
    ensures Put(FRESH, [], fl).(pos := p) == Ended([], fl, p, false)
  {
  }

  lemma AtEnd(inp: Bytes)
    ensures Parted(inp, |inp|)
  {
  }

  /** The value is parted from a code fence, and from nothing else but spaces and comments. */
  lemma FillParted(s: Fill, inp: Bytes, p: nat)
    requires GoodGap(s) && Holds(inp, p, FillText(s)) && (s == [] ==> p == |inp|)
    ensures Parted(inp, p)
  {
    hide *;
    AtEnd(inp);
    FillParts(inp, p, s);
  }

  lemma FinishIs(s: Bytes, fl: seq<Kind>, p: nat)
    ensures var r := RepairSpec.Finish(Ended(s, fl, p, true));
            r.topDone && r.out == s && r.fixes == |fl| && r.kinds == Kinds(fl)
  {
  }

  lemma RepairIs(inp: Bytes, max: nat, s: Bytes, fl: seq<Kind>, p: nat)
    requires RepairSpec.Run(inp, RepairSpec.Start(inp), max) == Ended(s, fl, p, true)
    ensures RepairSpec.Repair(inp, max) == RepairSpec.Repaired(Some(s), |fl|, Kinds(fl))
  {
    FinishIs(s, fl, p);
    hide RepairSpec.Run, RepairSpec.Start, RepairSpec.Finish, Ended, Kinds;
  }

  lemma TreeReads(v: Loose, max: nat)
    requires GoodLoose(v) && LooseText.Within(v, max)
    ensures ParserSpec.ReadDocument(TreeBytes(v), max) == Some(Says(v))
  {
    hide *;
    TreeIs(v);
    TreeWithin(v, max);
    TreeBytesIs(v);
    AloneIs(Tree(v));
    ParserGrammar.DocumentReads(TextBytes(Tree(v)), false, Item([], Tree(v), []), max);
  }

  lemma AloneIs(t: Grammar.Text)
    requires Good(t)
    ensures var i := Item([], t, []); GoodItem(i) && DocumentBytes(false, i) == TextBytes(t) && MeansItem(i) == Means(t)
  {
    hide Good, TextBytes, Means;
    NothingBefore(TextBytes(t));
    NothingMore(TextBytes(t));
    NothingBefore([] + TextBytes(t) + []);
  }

  /** Repairing a loosely written document gives a text that parses to the tree it denotes, and the report counts each
      of its flaws and names their kinds. */
  lemma RepairMeans(d: Document, max: nat)
    requires GoodDocument(d) && LooseText.Within(d.value, max)
    ensures var r := RepairSpec.Repair(DocumentText(d), max);
            && ShapedDocument(d)
            && r.text.Some? && ParserSpec.ReadDocument(r.text.value, max) == Some(Says(d.value))
            && r.fixes == |DocumentFlaws(d)| && r.kinds == set k | k in DocumentFlaws(d)
  {
    hide *;
    DocumentParts(d);
    DocumentRuns(d, max);
    var inp := DocumentText(d);
    var p: nat :| RepairSpec.Run(inp, RepairSpec.Start(inp), max) == Ended(TreeBytes(d.value), DocumentFlaws(d), p, true);
    RepairIs(inp, max, TreeBytes(d.value), DocumentFlaws(d), p);
    TreeReads(d.value, max);
    KindsAre(DocumentFlaws(d));
  }

  lemma KindsAre(fl: seq<Kind>)
    ensures Kinds(fl) == set k | k in fl
  {
  }
}
