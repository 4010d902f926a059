/** JSON Patch (RFC 6902): applying operations, computing them, and the round trip between the two. */
module PatchSpec {
  import opened Bytes
  import opened Options
  import opened Decimal
  import opened JsonValue
  import opened JsonOps
  import opened Pointer

  const OP: Bytes := [0x6F, 0x70]
  const PATH: Bytes := [0x70, 0x61, 0x74, 0x68]
  const VALUE: Bytes := [0x76, 0x61, 0x6C, 0x75, 0x65]
  const FROM: Bytes := [0x66, 0x72, 0x6F, 0x6D]
  const ADD: Bytes := [0x61, 0x64, 0x64]
  const REMOVE: Bytes := [0x72, 0x65, 0x6D, 0x6F, 0x76, 0x65]
  const REPLACE: Bytes := [0x72, 0x65, 0x70, 0x6C, 0x61, 0x63, 0x65]
  const MOVE: Bytes := [0x6D, 0x6F, 0x76, 0x65]
  const COPY: Bytes := [0x63, 0x6F, 0x70, 0x79]
  const TEST: Bytes := [0x74, 0x65, 0x73, 0x74]

  function Field(v: Json, key: Bytes): Option<Json>
  {
    if v.Obj? then GetMember(v.members, key) else None
  }

  function StringField(v: Json, key: Bytes): Option<Bytes>
  {
    var m := Field(v, key);
    if m.Some? && m.value.Str? then Some(m.value.s) else None
  }

  // --- Application ---

  function LastSlash(p: Bytes): (k: Option<nat>)
    ensures k.Some? ==> k.value < |p| && p[k.value] == SLASH && SLASH !in p[k.value + 1..]
    ensures k.None? ==> SLASH !in p
  {
    if p == [] then None
    else if p[|p| - 1] == SLASH then Some(|p| - 1)
    else
      var k := LastSlash(p[..|p| - 1]);
      assert p == p[..|p| - 1] + [p[|p| - 1]];
      if k.Some? then
        assert p[k.value + 1..] == p[..|p| - 1][k.value + 1..] + [p[|p| - 1]];
        k
      else None
  }

  /** The value a path is an entry of, and the entry's name in it. */
  datatype Parent = NoParent | Parent(pointer: Bytes, value: Json, last: Bytes)

  function ResolveParent(doc: Json, path: Bytes): (r: Parent)
    ensures r.Parent? ==> PointerGet(doc, r.pointer) == Some(r.value)
  {
    var slash := LastSlash(path);
    if slash.None? then NoParent else
    var pointer := path[..slash.value];
    var parent := PointerGet(doc, pointer);
    var last := NextToken(path[slash.value + 1..], []);
    if parent.None? || last.BadToken? then NoParent else Parent(pointer, parent.value, last.text)
  }

  function AddChild(parent: Json, k: Bytes, v: Json): Option<Json>
  {
    match parent
    case Obj(ms) => Some(Obj(SetMember(ms, k, v)))
    case Arr(items) =>
      var i := ParseIndex(k, |items|, true);
      if i.Some? then Some(Arr(InsertItem(items, i.value, v))) else None
    case _ => None
  }

  function RemoveChild(parent: Json, k: Bytes): Option<Json>
  {
    if GetChild(parent, k).None? then None else
    match parent
    case Obj(ms) => Some(Obj(DropMember(ms, k)))
    case Arr(items) => Some(Arr(RemoveItem(items, ParseIndex(k, |items|, false).value)))
  }

  function OpAdd(doc: Json, path: Bytes, v: Json): Option<Json>
  {
    if path == [] then Some(v) else
    var p := ResolveParent(doc, path);
    if p.NoParent? then None else
    var parent := AddChild(p.value, p.last, v);
    if parent.None? then None else Some(PointerPut(doc, p.pointer, parent.value))
  }

  /** The document without the value at the path, and that value. */
  datatype Detached = NotThere | Detached(doc: Json, value: Json)

  function OpDetach(doc: Json, path: Bytes): Detached
  {
    var p := if path == [] then NoParent else ResolveParent(doc, path);
    if p.NoParent? then NotThere else
    var parent := RemoveChild(p.value, p.last);
    if parent.None? then NotThere
    else Detached(PointerPut(doc, p.pointer, parent.value), GetChild(p.value, p.last).value)
  }

  predicate ValidPointer(p: Bytes) { p == [] || p[0] == SLASH }

  predicate IsPrefix(a: Bytes, b: Bytes) { |a| <= |b| && b[..|a|] == a }

  function MoveOrCopy(doc: Json, move: bool, from: Bytes, path: Bytes): Option<Json>
  {
    if move && from == path then Some(doc)
    else if move && IsPrefix(from + [SLASH], path) then None
    else if move then
      var d := OpDetach(doc, from);
      if d.NotThere? then None else OpAdd(d.doc, path, d.value)
    else
      var v := PointerGet(doc, from);
      if v.None? then None else OpAdd(doc, path, v.value)
  }

  /** One operation of a patch document: the new document, or None when it fails. */
  function ApplyOne(doc: Json, op: Json): Option<Json>
  {
    var name, path := StringField(op, OP), StringField(op, PATH);
    var value, from := Field(op, VALUE), StringField(op, FROM);
    if name.None? || path.None? || !ValidPointer(path.value) then None
    else if name.value == ADD then
      if value.None? then None else OpAdd(doc, path.value, value.value)
    else if name.value == REMOVE then
      var d := OpDetach(doc, path.value);
      if d.NotThere? then None else Some(d.doc)
    else if name.value == REPLACE then
      if value.None? || PointerGet(doc, path.value).None? then None
      else if path.value == [] then OpAdd(doc, [], value.value)
      else
        var d := OpDetach(doc, path.value);
        OpAdd(if d.NotThere? then doc else d.doc, path.value, value.value)
    else if name.value == MOVE || name.value == COPY then
      if from.None? || !ValidPointer(from.value) then None
      else MoveOrCopy(doc, name.value == MOVE, from.value, path.value)
    else if name.value == TEST then
      var cur := PointerGet(doc, path.value);
      if value.None? || cur.None? || !Equals(cur.value, value.value) then None else Some(doc)
    else None
  }

  /** The operations in order; the first failure fails the patch. */
  function ApplyAll(doc: Json, ops: seq<Json>): Option<Json>
    decreases |ops|
  {
    if ops == [] then Some(doc) else
    var d := ApplyOne(doc, ops[0]);
    if d.None? then None else ApplyAll(d.value, ops[1..])
  }

  function PatchApply(doc: Json, patch: Json): Option<Json>
  {
    if patch.Arr? then ApplyAll(doc, patch.items) else None
  }

  // --- Edits: operations on token paths ---

  datatype Edit =
    | Add(path: seq<Bytes>, value: Json)
    | Remove(path: seq<Bytes>)
    | Replace(path: seq<Bytes>, value: Json)

  /** The operation object that the diff emits for an edit. */
  function Render(e: Edit): Json
  {
    match e
    case Add(p, v) => Obj([Member(OP, Str(ADD)), Member(PATH, Str(PathText(p))), Member(VALUE, v)])
    case Remove(p) => Obj([Member(OP, Str(REMOVE)), Member(PATH, Str(PathText(p)))])
    case Replace(p, v) => Obj([Member(OP, Str(REPLACE)), Member(PATH, Str(PathText(p))), Member(VALUE, v)])
  }

  function RenderAll(es: seq<Edit>): seq<Json>
  {
    if es == [] then [] else [Render(es[0])] + RenderAll(es[1..])
  }

  function EditChild(parent: Json, k: Bytes, e: Edit): Option<Json>
  {
    match e
    case Add(_, v) => AddChild(parent, k, v)
    case Remove(_) => RemoveChild(parent, k)
    case Replace(_, v) =>
      var r := RemoveChild(parent, k);
      if r.None? then None else AddChild(r.value, k, v)
  }

  /** An edit acts at the end of its path and nowhere else. */
  function EditAt(doc: Json, path: seq<Bytes>, e: Edit): Option<Json>
    requires path != []
    decreases |path|
  {
    if |path| == 1 then EditChild(doc, path[0], e) else
    var child := GetChild(doc, path[0]);
    if child.None? then None else
    var r := EditAt(child.value, path[1..], e);
    if r.None? then None else Some(SetChild(doc, path[0], r.value))
  }

  function ApplyEdit(doc: Json, e: Edit): Option<Json>
  {
    if e.path == [] then (if e.Remove? then None else Some(e.value)) else EditAt(doc, e.path, e)
  }

  function ApplyEdits(doc: Json, es: seq<Edit>): Option<Json>
    decreases |es|
  {
    if es == [] then Some(doc) else
    var d := ApplyEdit(doc, es[0]);
    if d.None? then None else ApplyEdits(d.value, es[1..])
  }

  // --- Diff ---

  function Under(k: Bytes, es: seq<Edit>): (r: seq<Edit>)
    ensures |r| == |es|
    ensures forall i :: 0 <= i < |es| ==> r[i] == es[i].(path := [k] + es[i].path)
  {
    seq(|es|, i requires 0 <= i < |es| => es[i].(path := [k] + es[i].path))
  }

  function Diff(a: Json, b: Json): seq<Edit>
    decreases b, 1, 0
  {
    if Equals(a, b) then []
    else if a.Obj? && b.Obj? then
      Removals(a.members, b.members) + Updates(a.members, b.members)
    else if a.Arr? && b.Arr? then
      var na, nb := |a.items|, |b.items|;
      var common := if na < nb then na else nb;
      ItemDiffs(a.items, b.items, common, 0) + Appends(b.items, common) + Truncates(na, common)
    else [Replace([], b)]
  }

  /** The members of a whose keys b has not. */
  function Removals(a: seq<Member>, b: seq<Member>): seq<Edit>
  {
    if a == [] then []
    else (if HasKey(b, a[0].key) then [] else [Remove([a[0].key])]) + Removals(a[1..], b)
  }

  function MemberDiff(a: seq<Member>, m: Member): seq<Edit>
    decreases m, 2, 0
  {
    var av := GetMember(a, m.key);
    if av.None? then [Add([m.key], m.value)] else Under(m.key, Diff(av.value, m.value))
  }

  /** The members of b, in order: added when a has not the key, otherwise brought up to date. */
  function Updates(a: seq<Member>, b: seq<Member>): seq<Edit>
    decreases b, 0, 0
  {
    if b == [] then [] else MemberDiff(a, b[0]) + Updates(a, b[1..])
  }

  /** Items i up to n, brought up to date one by one. */
  function ItemDiffs(a: seq<Json>, b: seq<Json>, n: nat, i: nat): seq<Edit>
    requires n <= |a| && n <= |b|
    decreases b, 0, if i < n then n - i else 0
  {
    if i >= n then [] else Under(DecimalText(i), Diff(a[i], b[i])) + ItemDiffs(a, b, n, i + 1)
  }

  function Appends(b: seq<Json>, i: nat): seq<Edit>
    decreases |b| - i
  {
    if i >= |b| then [] else [Add([DecimalText(i)], b[i])] + Appends(b, i + 1)
  }

  /** Items n - 1 down to i. */
  function Truncates(n: nat, i: nat): seq<Edit>
    decreases n
  {
    if n <= i then [] else [Remove([DecimalText(n - 1)])] + Truncates(n - 1, i)
  }

  /** The patch document that the diff returns. */
  function DiffPatch(a: Json, b: Json): Json { Arr(RenderAll(Diff(a, b))) }
}
