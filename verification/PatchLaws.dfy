/** What each operation of RFC 6902 does, stated on documents; operations and fields are spelled out. */
module PatchLaws {
  import opened Bytes
  import opened Options
  import opened Scan
  import opened Decimal
  import opened JsonValue
  import opened JsonOps
  import opened Pointer
  import opened PatchSpec
  import opened PatchRoundTrip

  // --- Operations as documents ---

  lemma NamesSpelled()
    ensures OP == Ascii("op") && PATH == Ascii("path") && VALUE == Ascii("value") && FROM == Ascii("from")
    ensures ADD == Ascii("add") && REMOVE == Ascii("remove") && REPLACE == Ascii("replace")
    ensures MOVE == Ascii("move") && COPY == Ascii("copy") && TEST == Ascii("test")
  {
    FieldsSpelled();
    EditsSpelled();
    OthersSpelled();
    hide *;
  }

  lemma FieldsSpelled()
    ensures OP == Ascii("op") && PATH == Ascii("path") && VALUE == Ascii("value") && FROM == Ascii("from")
  {
  }

  lemma EditsSpelled()
    ensures ADD == Ascii("add") && REMOVE == Ascii("remove") && REPLACE == Ascii("replace")
  {
  }

  lemma OthersSpelled()
    ensures MOVE == Ascii("move") && COPY == Ascii("copy") && TEST == Ascii("test")
  {
  }

  /** The object is an operation of this name on this path, whatever else it holds. */
  predicate IsOp(op: Json, name: string, path: Bytes)
  {
    StringField(op, Ascii("op")) == Some(Ascii(name)) && StringField(op, Ascii("path")) == Some(path)
  }

  function AddOp(path: Bytes, v: Json): Json
  {
    Obj([Member(Ascii("op"), Str(Ascii("add"))), Member(Ascii("path"), Str(path)), Member(Ascii("value"), v)])
  }

  function RemoveOp(path: Bytes): Json
  {
    Obj([Member(Ascii("op"), Str(Ascii("remove"))), Member(Ascii("path"), Str(path))])
  }

  lemma AddOpIs(path: Bytes, v: Json)
    ensures IsOp(AddOp(path, v), "add", path) && Field(AddOp(path, v), VALUE) == Some(v)
  {
    NamesSpelled();
    hide Ascii;
    assert |OP| == 2 && |PATH| == 4 && |VALUE| == 5;
    var ms := AddOp(path, v).members;
    FirstIsFound(ms, OP, 0);
    FirstIsFound(ms, PATH, 1);
    FirstIsFound(ms, VALUE, 2);
  }

  lemma RemoveOpIs(path: Bytes)
    ensures IsOp(RemoveOp(path), "remove", path)
  {
    NamesSpelled();
    hide Ascii;
    assert |OP| == 2 && |PATH| == 4;
    var ms := RemoveOp(path).members;
    FirstIsFound(ms, OP, 0);
    FirstIsFound(ms, PATH, 1);
  }

  /** Only the six operations of the standard, each with a path, ever succeed. */
  lemma OnlyKnownOperations(doc: Json, op: Json)
    requires ApplyOne(doc, op).Some?
    ensures exists name, path :: name in ["add", "remove", "replace", "move", "copy", "test"] && IsOp(op, name, path)
                                 && (path == [] || path[0] == 0x2F)
  {
    NamesSpelled();
    hide Ascii, OpAdd, OpDetach, MoveOrCopy, PointerGet;
    var n, path := StringField(op, OP).value, StringField(op, PATH).value;
    if n == ADD { assert IsOp(op, "add", path); }
    else if n == REMOVE { assert IsOp(op, "remove", path); }
    else if n == REPLACE { assert IsOp(op, "replace", path); }
    else if n == MOVE { assert IsOp(op, "move", path); }
    else if n == COPY { assert IsOp(op, "copy", path); }
    else { assert IsOp(op, "test", path); }
  }

  lemma NamesDiffer()
    ensures ADD != REMOVE && ADD != REPLACE && ADD != MOVE && ADD != COPY && ADD != TEST
    ensures REMOVE != REPLACE && REMOVE != MOVE && REMOVE != COPY && REMOVE != TEST
    ensures REPLACE != MOVE && REPLACE != COPY && REPLACE != TEST
    ensures MOVE != COPY && MOVE != TEST && COPY != TEST
  {
    assert |ADD| == 3 && |REMOVE| == 6 && |REPLACE| == 7 && |MOVE| == 4 && |COPY| == 4 && |TEST| == 4;
    assert MOVE[0] == 0x6D && COPY[0] == 0x63 && TEST[0] == 0x74;
  }

  lemma AddApplies(doc: Json, path: Bytes, v: Json)
    requires ValidPointer(path)
    ensures ApplyAll(doc, [AddOp(path, v)]) == OpAdd(doc, path, v)
  {
    AddOpIs(path, v);
    NamesSpelled();
    hide OpAdd, AddOp, Ascii;
    OneOp(doc, AddOp(path, v));
  }

  lemma RemoveApplies(doc: Json, path: Bytes)
    requires ValidPointer(path)
    ensures ApplyOne(doc, RemoveOp(path))
         == if OpDetach(doc, path).NotThere? then None else Some(OpDetach(doc, path).doc)
  {
    RemoveOpIs(path);
    NamesSpelled();
    NamesDiffer();
    hide OpDetach, RemoveOp, Ascii;
  }

  lemma OneOp(doc: Json, op: Json)
    ensures ApplyAll(doc, [op]) == ApplyOne(doc, op)
  {
    hide ApplyOne;
  }

  lemma TwoOps(doc: Json, a: Json, b: Json)
    ensures ApplyAll(doc, [a, b]) == if ApplyOne(doc, a).None? then None else ApplyAll(ApplyOne(doc, a).value, [b])
  {
    hide ApplyOne;
    assert [a, b][1..] == [b];
  }

  // --- What is detached is what is there ---

  lemma {:induction false} NextAppends(p: Bytes, acc: Bytes, tail: Bytes)
    requires tail != [] && tail[0] == SLASH
    ensures NextToken(p + tail, acc)
         == match NextToken(p, acc)
            case BadToken => BadToken
            case Token(text, rest) => Token(text, rest + tail)
    decreases |p|
  {
    if p == [] {
      assert [] + tail == tail;
    } else if p[0] == SLASH {
    } else if p[0] == TILDE {
      if |p| >= 2 {
        assert (p + tail)[2..] == p[2..] + tail && (p + tail)[1] == p[1];
        if (p[1] == ZERO || p[1] == ONE) && |acc| + 1 < TOKEN_BUFFER {
          NextAppends(p[2..], acc + [if p[1] == ZERO then TILDE else SLASH], tail);
        }
      } else {
        assert (p + tail)[1] == SLASH;
      }
    } else {
      assert (p + tail)[1..] == p[1..] + tail;
      if |acc| + 1 < TOKEN_BUFFER { NextAppends(p[1..], acc + [p[0]], tail); }
    }
  }

  lemma {:induction false} NextRest(p: Bytes, acc: Bytes)
    ensures var t := NextToken(p, acc);
            t.Token? ==> ValidPointer(t.rest) && (SLASH !in p ==> t.rest == [])
    decreases |p|
  {
    if p != [] && p[0] == TILDE && |p| >= 2 {
      NextRest(p[2..], acc + [if p[1] == ZERO then TILDE else SLASH]);
    } else if p != [] {
      NextRest(p[1..], acc + [p[0]]);
    }
  }

  /** A pointer leads where its last token leads from where the rest of it leads. */
  lemma {:induction false} GetByParts(doc: Json, p: Bytes, q: Bytes)
    requires ValidPointer(p) && SLASH !in q
    ensures PointerGet(doc, p + [SLASH] + q)
         == var parent, t := PointerGet(doc, p), NextToken(q, []);
            if parent.None? || t.BadToken? then None else GetChild(parent.value, t.text)
    decreases |p|
  {
    hide NextToken, GetChild;
    var all := p + [SLASH] + q;
    NextRest(q, []);
    if p == [] {
      assert all[1..] == q;
    } else {
      assert all[1..] == p[1..] + ([SLASH] + q);
      NextAppends(p[1..], [], [SLASH] + q);
      NextRest(p[1..], []);
      var t := NextToken(p[1..], []);
      if t.Token? {
        assert t.rest + ([SLASH] + q) == t.rest + [SLASH] + q;
        var child := GetChild(doc, t.text);
        if child.Some? { GetByParts(child.value, t.rest, q); }
      }
    }
  }

  lemma DetachGives(doc: Json, from: Bytes)
    requires ValidPointer(from) && from != []
    ensures var d, v := OpDetach(doc, from), PointerGet(doc, from);
            (d.NotThere? <==> v.None?) && (d.Detached? ==> Some(d.value) == v)
  {
    var k := LastSlash(from).value;
    assert from == from[..k] + [SLASH] + from[k + 1..];
    assert ValidPointer(from[..k]);
    GetByParts(doc, from[..k], from[k + 1..]);
    hide PointerGet, NextToken, LastSlash;
  }

  // --- Move, copy and test ---

  /** The path leads into what the pointer `from` leads to. */
  predicate Below(path: Bytes, from: Bytes) { |path| > |from| && path[..|from|] == from && path[|from|] == 0x2F }

  predicate IsMove(op: Json, from: Bytes, path: Bytes)
  {
    IsOp(op, "move", path) && StringField(op, Ascii("from")) == Some(from)
  }

  predicate IsCopy(op: Json, from: Bytes, path: Bytes)
  {
    IsOp(op, "copy", path) && StringField(op, Ascii("from")) == Some(from)
  }

  lemma MoveUnfolds(doc: Json, op: Json, from: Bytes, path: Bytes)
    requires IsMove(op, from, path) && ValidPointer(from) && ValidPointer(path)
    ensures ApplyAll(doc, [op]) == MoveOrCopy(doc, true, from, path)
  {
    NamesSpelled();
    NamesDiffer();
    OneOp(doc, op);
    hide Ascii, MoveOrCopy;
  }

  lemma BelowIsPrefix(path: Bytes, from: Bytes)
    ensures Below(path, from) <==> IsPrefix(from + [SLASH], path)
  {
    if |path| > |from| { assert path[..|from| + 1] == path[..|from|] + [path[|from|]]; }
    if IsPrefix(from + [SLASH], path) {
      assert path[..|from|] == (from + [SLASH])[..|from|];
      assert path[|from|] == (from + [SLASH])[|from|];
    }
  }

  /** A move is a removal and an addition of what was removed. */
  lemma MoveIsRemoveThenAdd(doc: Json, op: Json, from: Bytes, path: Bytes)
    requires IsMove(op, from, path) && ValidPointer(from) && ValidPointer(path) && from != path && !Below(path, from)
    ensures var w := PointerGet(doc, from);
            ApplyAll(doc, [op]) == if w.None? || from == [] then None
                                   else ApplyAll(doc, [RemoveOp(from), AddOp(path, w.value)])
  {
    hide AddOp, RemoveOp, OpAdd, PointerGet, ApplyAll, ApplyOne, IsMove, OpDetach;
    MoveUnfolds(doc, op, from, path);
    BelowIsPrefix(path, from);
    if from == [] {
      RootIsAbove(path);
    } else {
      DetachGives(doc, from);
      var d, w := OpDetach(doc, from), PointerGet(doc, from);
      RemoveApplies(doc, from);
      if w.Some? {
        TwoOps(doc, RemoveOp(from), AddOp(path, w.value));
        AddApplies(d.doc, path, w.value);
      }
    }
  }

  lemma RootIsAbove(path: Bytes)
    requires ValidPointer(path) && path != []
    ensures Below(path, [])
  {
    assert path[..0] == [];
  }

  /** A move onto itself succeeds and changes nothing, even where there is nothing. */
  lemma MoveOntoItself(doc: Json, op: Json, from: Bytes)
    requires IsMove(op, from, from) && ValidPointer(from)
    ensures ApplyAll(doc, [op]) == Some(doc)
  {
    MoveUnfolds(doc, op, from, from);
  }

  /** Nothing can be moved into itself. */
  lemma MoveIntoItself(doc: Json, op: Json, from: Bytes, path: Bytes)
    requires IsMove(op, from, path) && ValidPointer(from) && ValidPointer(path) && Below(path, from)
    ensures ApplyAll(doc, [op]) == None
  {
    MoveUnfolds(doc, op, from, path);
    BelowIsPrefix(path, from);
  }

  /** A copy is an addition of what is there. */
  lemma CopyIsAdd(doc: Json, op: Json, from: Bytes, path: Bytes)
    requires IsCopy(op, from, path) && ValidPointer(from) && ValidPointer(path)
    ensures var w := PointerGet(doc, from);
            ApplyAll(doc, [op]) == if w.None? then None else ApplyAll(doc, [AddOp(path, w.value)])
  {
    NamesSpelled();
    NamesDiffer();
    OneOp(doc, op);
    var w := PointerGet(doc, from);
    if w.Some? { AddApplies(doc, path, w.value); }
    hide Ascii, AddOp, OpAdd, PointerGet;
  }

  /** A test succeeds exactly if an equal value is there, and changes nothing. */
  lemma TestDoes(doc: Json, op: Json, path: Bytes)
    requires IsOp(op, "test", path) && ValidPointer(path)
    ensures var cur, v := PointerGet(doc, path), Field(op, Ascii("value"));
            ApplyAll(doc, [op]) == if cur.Some? && v.Some? && Equals(cur.value, v.value) then Some(doc) else None
  {
    NamesSpelled();
    NamesDiffer();
    OneOp(doc, op);
    hide Ascii, Equals, PointerGet;
  }

  lemma OneToken(c: byte)
    requires c != TILDE && c != SLASH
    ensures PathText([] + [[c]]) == [0x2F, c] && ShortPath([] + [[c]])
  {
    assert EscapeToken([c]) == [c] by { assert [c][1..] == []; }
    assert PathText([]) == [];
    PathTextSplits([], [c]);
  }

  /** Moving a member to another name: the smallest case. */
  lemma MoveRenames(v: Json, op: Json)
    requires IsMove(op, [0x2F, 0x61], [0x2F, 0x62])
    ensures ApplyAll(Obj([Member([0x61], v)]), [op]) == Some(Obj([Member([0x62], v)]))
  {
    var doc := Obj([Member([0x61], v)]);
    MoveUnfolds(doc, op, [0x2F, 0x61], [0x2F, 0x62]);
    BelowIsPrefix([0x2F, 0x62], [0x2F, 0x61]);
    RemovesA(v);
    AddsB(v);
    assert !Below([0x2F, 0x62], [0x2F, 0x61]) && [0x2F, 0x61][1] != [0x2F, 0x62][1];
    hide OpAdd, OpDetach, Below, IsPrefix, IsMove;
  }

  lemma RemovesA(v: Json)
    ensures OpDetach(Obj([Member([0x61], v)]), [0x2F, 0x61]) == Detached(Obj([]), v)
  {
    var ms := [Member([0x61], v)];
    OneToken(0x61);
    ParentOfPath(Obj(ms), [], [0x61]);
    assert DropMember(ms, [0x61]) == [];
    hide PathText, ResolveParent;
  }

  lemma AddsB(v: Json)
    ensures OpAdd(Obj([]), [0x2F, 0x62], v) == Some(Obj([Member([0x62], v)]))
  {
    OneToken(0x62);
    ParentOfPath(Obj([]), [], [0x62]);
    assert SetMember([], [0x62], v) == [Member([0x62], v)];
    hide PathText, ResolveParent;
  }

  // --- Indices ---

  /** A token denotes a position exactly if it is its decimal text, or the end mark where that is allowed. */
  lemma IndexExactly(tok: Bytes, count: nat, allowEnd: bool, i: nat)
    requires count <= MAX_INDEX
    ensures ParseIndex(tok, count, allowEnd) == Some(i)
            <==> (i < count && tok == DecimalText(i))
                 || (allowEnd && i == count && (tok == DecimalText(i) || tok == [0x2D]))
  {
    DecimalValue(i);
    assert DecimalText(i)[0] != MINUS;
    if tok != [] && AllDigits(tok) && (tok[0] != ZERO || |tok| == 1) { TextOfDigits(tok); }
  }

  lemma {:induction false} TextOfDigits(t: Bytes)
    requires t != [] && AllDigits(t) && (t[0] != ZERO || |t| == 1)
    ensures DecimalText(DigitsValue(t)) == t
    decreases |t|
  {
    var n := |t| - 1;
    if n > 0 {
      TextOfDigits(t[..n]);
      DigitsPositive(t[..n]);
      assert t == t[..n] + [t[n]];
    } else {
      assert t[..0] == [];
    }
  }

  lemma {:induction false} DigitsPositive(t: Bytes)
    requires t != [] && AllDigits(t) && t[0] != ZERO
    ensures DigitsValue(t) > 0
    decreases |t|
  {
    var n := |t| - 1;
    if n > 0 { DigitsPositive(t[..n]); } else { assert t[..0] == []; }
  }

  lemma SameIndexSameToken(a: Bytes, b: Bytes, count: nat)
    requires ParseIndex(a, count, false).Some? && ParseIndex(a, count, false) == ParseIndex(b, count, false)
    ensures a == b
  {
    TextOfDigits(a);
    TextOfDigits(b);
  }

  // --- What is elsewhere stays ---

  lemma OtherChild(v: Json, k: Bytes, x: Json, j: Bytes)
    requires GetChild(v, k).Some? && j != k
    ensures GetChild(SetChild(v, k, x), j) == GetChild(v, j)
  {
    hide ParseIndex, SetMember;
    match v
    case Obj(ms) => SetThenGet(ms, k, x);
    case Arr(items) =>
      if ParseIndex(j, |items|, false) == ParseIndex(k, |items|, false) { SameIndexSameToken(k, j, |items|); }
  }

  /** Putting a value at one path leaves what is at a path that branches off from it. */
  lemma {:induction false} PutElsewhere(doc: Json, at: seq<Bytes>, x: Json, q: seq<Bytes>)
    requires Walk(doc, at).Some? && !(at <= q) && !(q <= at)
    ensures Walk(Put(doc, at, x), q) == Walk(doc, q)
    decreases |at|
  {
    hide GetChild, SetChild;
    var child := GetChild(doc, at[0]).value;
    var y := Put(child, at[1..], x);
    if at[0] == q[0] {
      ChildAfterSet(doc, at[0], y);
      assert at == [at[0]] + at[1..] && q == [q[0]] + q[1..];
      PutElsewhere(child, at[1..], x, q[1..]);
    } else {
      OtherChild(doc, at[0], y, q[0]);
    }
  }

  // --- Add, remove and replace ---

  /** The array with v before position i. */
  predicate Inserted(before: seq<Json>, i: nat, v: Json, after: seq<Json>)
  {
    && |after| == |before| + 1 && i <= |before|
    && forall j :: 0 <= j < |after| ==> after[j] == if j < i then before[j] else if j == i then v else before[j - 1]
  }

  /** The object in which the key has the value; a new key comes last. */
  ghost predicate Assigned(before: seq<Member>, k: Bytes, v: Json, after: seq<Member>)
  {
    && GetMember(after, k) == Some(v)
    && (forall j :: j != k ==> GetMember(after, j) == GetMember(before, j))
    && |after| == |before| + (if HasKey(before, k) then 0 else 1)
    && (forall i :: 0 <= i < |before| ==> after[i].key == before[i].key)
  }

  ghost predicate InsertedChild(parent: Json, k: Bytes, v: Json, after: Option<Json>)
  {
    match parent
    case Obj(ms) => after.Some? && after.value.Obj? && Assigned(ms, k, v, after.value.members)
    case Arr(items) =>
      if after.None? then ParseIndex(k, |items|, true).None?
      else ParseIndex(k, |items|, true).Some?
           && after.value.Arr? && Inserted(items, ParseIndex(k, |items|, true).value, v, after.value.items)
    case _ => after.None?
  }

  lemma AddChildDoes(parent: Json, k: Bytes, v: Json)
    ensures InsertedChild(parent, k, v, AddChild(parent, k, v))
  {
    hide ParseIndex;
    match parent
    case Obj(ms) => SetThenGet(ms, k, v);
    case _ =>
  }

  /** The branches that hold nothing of the parent stay as they are. */
  ghost predicate Elsewhere(doc: Json, r: Json, at: seq<Bytes>)
  {
    forall q: seq<Bytes> :: !(at <= q) && !(q <= at) ==> Walk(r, q) == Walk(doc, q)
  }

  lemma PutDoes(doc: Json, at: seq<Bytes>, x: Json)
    requires Walk(doc, at).Some?
    ensures Walk(Put(doc, at, x), at) == Some(x) && Elsewhere(doc, Put(doc, at, x), at)
  {
    WalkAfterPut(doc, at, x);
    forall q: seq<Bytes> | !(at <= q) && !(q <= at) ensures Walk(Put(doc, at, x), q) == Walk(doc, q) {
      PutElsewhere(doc, at, x, q);
    }
  }

  /** Add: a member is set, an item inserted before its position; the parent must be there, and nothing else changes. */
  lemma AddDoes(doc: Json, front: seq<Bytes>, last: Bytes, v: Json)
    requires ShortPath(front + [last])
    ensures var r, parent := ApplyAll(doc, [AddOp(PathText(front + [last]), v)]), Walk(doc, front);
            if parent.None? then r == None
            else if r.None? then InsertedChild(parent.value, last, v, None)
            else InsertedChild(parent.value, last, v, Walk(r.value, front)) && Elsewhere(doc, r.value, front)
  {
    hide PathText, AddOp, OpAdd, ApplyAll, EditAt, InsertedChild, Put, Walk, Elsewhere, AddChild;
    var path := front + [last];
    PathTextStarts(path);
    AddApplies(doc, PathText(path), v);
    AddsAt(doc, front, last, v);
    EditIsPut(doc, front, last, Add(path, v));
    var parent := Walk(doc, front);
    if parent.Some? {
      AddChildDoes(parent.value, last, v);
      assert EditChild(parent.value, last, Add(path, v)) == AddChild(parent.value, last, v);
      if AddChild(parent.value, last, v).Some? { PutDoes(doc, front, AddChild(parent.value, last, v).value); }
    }
  }

  /** The array without position i. */
  predicate Deleted(before: seq<Json>, i: nat, after: seq<Json>)
  {
    && i < |before| && |after| == |before| - 1
    && forall j :: 0 <= j < |after| ==> after[j] == before[if j < i then j else j + 1]
  }

  ghost predicate DeletedChild(parent: Json, k: Bytes, after: Option<Json>)
  {
    match parent
    case Obj(ms) =>
      if after.None? then !HasKey(ms, k)
      else HasKey(ms, k) && after.value.Obj?
           && |after.value.members| == |ms| - 1
           && (forall j :: j != k ==> GetMember(after.value.members, j) == GetMember(ms, j))
           && (UniqueMembers(ms) ==> GetMember(after.value.members, k) == None)
    case Arr(items) =>
      if after.None? then ParseIndex(k, |items|, false).None?
      else ParseIndex(k, |items|, false).Some?
           && after.value.Arr? && Deleted(items, ParseIndex(k, |items|, false).value, after.value.items)
    case _ => after.None?
  }

  lemma DropKeepsOthers(ms: seq<Member>, k: Bytes)
    requires HasKey(ms, k)
    ensures forall j :: j != k ==> GetMember(DropMember(ms, k), j) == GetMember(ms, j)
    ensures UniqueMembers(ms) ==> GetMember(DropMember(ms, k), k) == None
  {
    hide FindKey;
    var i, r := FindKey(ms, k), DropMember(ms, k);
    assert forall n :: 0 <= n < |r| ==> r[n] == ms[if n < i then n else n + 1];
    forall j | j != k ensures GetMember(r, j) == GetMember(ms, j) {
      var f := FindKey(ms, j);
      if f < |ms| { FirstIsFound(r, j, if f < i then f else f - 1); } else { AbsentIsNotFound(r, j); }
    }
    if UniqueMembers(ms) { AbsentIsNotFound(r, k); }
  }

  lemma RemoveChildDoes(parent: Json, k: Bytes)
    ensures DeletedChild(parent, k, RemoveChild(parent, k))
  {
    hide ParseIndex;
    match parent
    case Obj(ms) => if HasKey(ms, k) { DropKeepsOthers(ms, k); }
    case _ =>
  }

  /** Remove: what is at the path must be there; what follows an item moves up, and nothing else changes. */
  lemma RemoveDoes(doc: Json, front: seq<Bytes>, last: Bytes)
    requires ShortPath(front + [last])
    ensures var r, parent := ApplyAll(doc, [RemoveOp(PathText(front + [last]))]), Walk(doc, front);
            if parent.None? then r == None
            else if r.None? then DeletedChild(parent.value, last, None)
            else DeletedChild(parent.value, last, Walk(r.value, front)) && Elsewhere(doc, r.value, front)
  {
    hide PathText, RemoveOp, OpDetach, ApplyAll, ApplyOne, EditAt, DeletedChild, Put, Walk, Elsewhere, RemoveChild;
    var path := front + [last];
    PathTextStarts(path);
    OneOp(doc, RemoveOp(PathText(path)));
    RemoveApplies(doc, PathText(path));
    DetachesAt(doc, front, last);
    EditIsPut(doc, front, last, Remove(path));
    var parent := Walk(doc, front);
    if parent.Some? {
      RemoveChildDoes(parent.value, last);
      assert EditChild(parent.value, last, Remove(path)) == RemoveChild(parent.value, last);
      if RemoveChild(parent.value, last).Some? { PutDoes(doc, front, RemoveChild(parent.value, last).value); }
    }
  }

  function ReplaceOp(path: Bytes, v: Json): Json
  {
    Obj([Member(Ascii("op"), Str(Ascii("replace"))), Member(Ascii("path"), Str(path)), Member(Ascii("value"), v)])
  }

  ghost predicate ReplacedChild(parent: Json, k: Bytes, v: Json, after: Json)
  {
    match parent
    case Obj(ms) =>
      && after.Obj? && |after.members| == |ms| && GetMember(after.members, k) == Some(v)
      && forall j :: j != k ==> GetMember(after.members, j) == GetMember(ms, j)
    case Arr(items) =>
      && ParseIndex(k, |items|, false).Some? && after.Arr? && |after.items| == |items|
      && forall j :: 0 <= j < |items| ==> after.items[j] == if j == ParseIndex(k, |items|, false).value then v else items[j]
    case _ => false
  }

  lemma ReplaceChildDoes(parent: Json, k: Bytes, v: Json)
    requires GetChild(parent, k).Some? && (parent.Obj? ==> UniqueMembers(parent.members))
    ensures var less := RemoveChild(parent, k);
            less.Some? && AddChild(less.value, k, v).Some? && ReplacedChild(parent, k, v, AddChild(less.value, k, v).value)
  {
    match parent
    case Obj(ms) =>
      DropThenGet(ms, k);
      SetThenGet(DropMember(ms, k), k, v);
    case Arr(items) =>
      var i := ParseIndex(k, |items|, false).value;
      EndIndex(k, |items|);
      assert InsertItem(RemoveItem(items, i), i, v) == items[i := v];
  }

  /** A position in an array is still one, perhaps the end, when one item is gone. */
  lemma EndIndex(k: Bytes, count: nat)
    requires ParseIndex(k, count, false).Some?
    ensures ParseIndex(k, count - 1, true) == ParseIndex(k, count, false)
  {
  }

  /** Replace: what is at the path must be there; the value takes its place, and nothing else changes. */
  lemma ReplaceDoes(doc: Json, front: seq<Bytes>, last: Bytes, v: Json)
    requires ShortPath(front + [last])
    requires Walk(doc, front).Some? && Walk(doc, front).value.Obj? ==> UniqueMembers(Walk(doc, front).value.members)
    ensures var path := front + [last];
            var r := ApplyAll(doc, [ReplaceOp(PathText(path), v)]);
            && (r.Some? <==> Walk(doc, path).Some?)
            && (r.Some? ==>
                  && Walk(doc, front).Some? && Walk(r.value, front).Some? && Elsewhere(doc, r.value, front)
                  && ReplacedChild(Walk(doc, front).value, last, v, Walk(r.value, front).value))
  {
    hide PathText, OpDetach, OpAdd, ApplyOne, EditAt, ReplacedChild, Put, Walk, Elsewhere, RemoveChild, AddChild, GetChild;
    var path := front + [last];
    NamesSpelled();
    var e := Replace(path, v);
    assert ReplaceOp(PathText(path), v) == Render(e);
    hide Ascii, Render, ReplaceOp;
    OneOp(doc, Render(e));
    ReplacesAt(doc, front, last, v);
    EditIsPut(doc, front, last, e);
    WalkSplits(doc, front, last);
    var parent := Walk(doc, front);
    if parent.Some? {
      if GetChild(parent.value, last).Some? {
        ReplaceChildDoes(parent.value, last, v);
        PutDoes(doc, front, AddChild(RemoveChild(parent.value, last).value, last, v).value);
      } else {
        NothingToRemove(parent.value, last);
      }
    }
  }

  lemma NothingToRemove(parent: Json, k: Bytes)
    requires GetChild(parent, k).None?
    ensures RemoveChild(parent, k).None?
  {
  }

  // --- Escapes ---

  /** A tilde is spelled ~0 and a slash ~1; every other byte stands for itself, one after the other. */
  lemma TildeSpelled(c: byte, rest: Bytes)
    ensures EscapeToken([c] + rest)
         == (if c == 0x7E then [0x7E, 0x30] else if c == 0x2F then [0x7E, 0x31] else [c]) + EscapeToken(rest)
    ensures EscapeToken([]) == []
  {
    assert ([c] + rest)[1..] == rest;
  }

  // --- A diff holds nothing that is not needed ---

  /** The diff is empty exactly between equal trees. */
  lemma EmptyDiff(a: Json, b: Json)
    requires Unique(a) && Unique(b) && Counted(a) && Counted(b)
    ensures Diff(a, b) == [] <==> Equals(a, b)
  {
    if !Equals(a, b) { EditsWork(a, b); }
  }

  /** A member that both objects have alike is not edited. */
  lemma EqualMembersStay(a: seq<Member>, b: seq<Member>, k: Bytes)
    requires UniqueMembers(b) && HasKey(a, k) && HasKey(b, k)
    requires Equals(GetMember(a, k).value, GetMember(b, k).value)
    ensures forall e :: e in Diff(Obj(a), Obj(b)) ==> e.path != [] && e.path[0] != k
  {
    var u := Updates(a, b);
    RemovalsMiss(a, b, k);
    UpdatesMiss(a, b, k);
    hide Removals, Updates;
  }

  lemma {:induction false} RemovalsMiss(a: seq<Member>, b: seq<Member>, k: Bytes)
    requires HasKey(b, k)
    ensures forall e :: e in Removals(a, b) ==> e.path != [] && e.path[0] != k
    decreases |a|
  {
    if a != [] { RemovalsMiss(a[1..], b, k); }
  }

  lemma {:induction false} UpdatesMiss(a: seq<Member>, b: seq<Member>, k: Bytes)
    requires UniqueMembers(b) && HasKey(a, k)
    requires HasKey(b, k) ==> Equals(GetMember(a, k).value, GetMember(b, k).value)
    ensures forall e :: e in Updates(a, b) ==> e.path != [] && e.path[0] != k
    decreases |b|
  {
    if b != [] {
      assert b[0].key != k ==> GetMember(b[1..], k) == GetMember(b, k);
      if b[0].key == k { AbsentIsNotFound(b[1..], k); }
      UpdatesMiss(a, b[1..], k);
      hide Equals, GetMember, HasKey;
      forall e | e in MemberDiff(a, b[0]) ensures e.path != [] && e.path[0] != k {
        MemberDiffMisses(a, b[0], k, e);
      }
    }
  }

  lemma MemberDiffMisses(a: seq<Member>, m: Member, k: Bytes, e: Edit)
    requires e in MemberDiff(a, m) && HasKey(a, k)
    requires m.key == k ==> Equals(GetMember(a, k).value, m.value)
    ensures e.path != [] && e.path[0] != k
  {
    hide Equals;
    if GetMember(a, m.key).Some? {
      var es := Diff(GetMember(a, m.key).value, m.value);
      var n :| 0 <= n < |es| && e == Under(m.key, es)[n];
    }
  }
}
