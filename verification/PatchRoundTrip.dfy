/** Applying the computed patch turns one tree into the other. */
module PatchRoundTrip {
  import opened Bytes
  import opened Options
  import opened Decimal
  import opened JsonValue
  import opened JsonOps
  import opened Pointer
  import opened PatchSpec

  // --- The text of an operation and the edit it stands for ---

  lemma RenderedFields(e: Edit)
    ensures StringField(Render(e), PATH) == Some(PathText(e.path))
    ensures StringField(Render(e), OP) == Some(if e.Add? then ADD else if e.Remove? then REMOVE else REPLACE)
    ensures Field(Render(e), VALUE) == if e.Remove? then None else Some(e.value)
  {
    assert |OP| == 2 && |PATH| == 4 && |VALUE| == 5;
    var ms := Render(e).members;
    FirstIsFound(ms, OP, 0);
    FirstIsFound(ms, PATH, 1);
    if e.Remove? { AbsentIsNotFound(ms, VALUE); } else { FirstIsFound(ms, VALUE, 2); }
  }

  lemma {:induction false} PathTextSplits(front: seq<Bytes>, last: Bytes)
    ensures PathText(front + [last]) == PathText(front) + ([SLASH] + EscapeToken(last))
  {
    hide EscapeToken;
    var p := front + [last];
    if front == [] {
      assert p[1..] == [];
    } else {
      PathTextSplits(front[1..], last);
      assert p[1..] == front[1..] + [last];
      assert PathText(p) == [SLASH] + EscapeToken(front[0]) + PathText(front[1..] + [last]);
    }
  }

  lemma {:induction false} LastSlashIs(p: Bytes, tail: Bytes)
    requires SLASH !in tail
    ensures LastSlash(p + [SLASH] + tail) == Some(|p|)
    decreases |tail|
  {
    var s := p + [SLASH] + tail;
    if tail != [] {
      assert s[..|s| - 1] == p + [SLASH] + tail[..|tail| - 1];
      LastSlashIs(p, tail[..|tail| - 1]);
    }
  }

  /** The parent of a path of tokens, as the text-level lookup finds it. */
  lemma ParentOfPath(doc: Json, front: seq<Bytes>, last: Bytes)
    ensures ShortPath(front + [last]) && Walk(doc, front).Some? ==>
      ResolveParent(doc, PathText(front + [last])) == Parent(PathText(front), Walk(doc, front).value, last)
    ensures !ShortPath(front + [last]) || Walk(doc, front).None? ==>
      ResolveParent(doc, PathText(front + [last])) == NoParent
  {
    hide NextToken, EscapeToken, PathText, LastSlash, Walk, PointerGet;
    var path := PathText(front + [last]);
    PathTextSplits(front, last);
    LastSlashIs(PathText(front), EscapeToken(last));
    assert path == PathText(front) + [SLASH] + EscapeToken(last);
    assert path[..|PathText(front)|] == PathText(front);
    assert path[|PathText(front)| + 1..] == EscapeToken(last);
    assert EscapeToken(last) + [] == EscapeToken(last) && [] + last == last;
    TokenReadsBack(last, [], []);
    ShortSplits(front, last);
    if ShortPath(front) { PointerWalks(doc, front); } else { LongPointerFails(doc, front); }
  }

  lemma ShortSplits(front: seq<Bytes>, last: Bytes)
    ensures ShortPath(front + [last]) <==> ShortPath(front) && |last| < TOKEN_BUFFER
  {
    var p := front + [last];
    assert p[|front|] == last;
    assert forall i :: 0 <= i < |front| ==> p[i] == front[i];
  }

  /** An edit changes the parent of its last token and puts it back. */
  lemma {:induction false} EditIsPut(doc: Json, front: seq<Bytes>, last: Bytes, e: Edit)
    ensures EditAt(doc, front + [last], e)
         == if Walk(doc, front).None? || EditChild(Walk(doc, front).value, last, e).None? then None
            else Some(Put(doc, front, EditChild(Walk(doc, front).value, last, e).value))
    decreases |front|
  {
    if front != [] {
      assert (front + [last])[1..] == front[1..] + [last];
      var child := GetChild(doc, front[0]);
      if child.Some? { EditIsPut(child.value, front[1..], last, e); }
    }
  }

  lemma PathIsSplit(path: seq<Bytes>)
    requires path != []
    ensures path == path[..|path| - 1] + [path[|path| - 1]]
  {
  }

  lemma AddsAt(doc: Json, front: seq<Bytes>, last: Bytes, v: Json)
    requires ShortPath(front + [last])
    ensures OpAdd(doc, PathText(front + [last]), v) == EditAt(doc, front + [last], Add(front + [last], v))
  {
    ParentOfPath(doc, front, last);
    EditIsPut(doc, front, last, Add(front + [last], v));
    ShortSplits(front, last);
    PointerWalks(doc, front);
  }

  lemma DetachesAt(doc: Json, front: seq<Bytes>, last: Bytes)
    requires ShortPath(front + [last])
    ensures var d := OpDetach(doc, PathText(front + [last]));
            var r := EditAt(doc, front + [last], Remove(front + [last]));
            if d.NotThere? then r == None else r == Some(d.doc)
  {
    ParentOfPath(doc, front, last);
    EditIsPut(doc, front, last, Remove(front + [last]));
    ShortSplits(front, last);
    PointerWalks(doc, front);
  }

  lemma {:induction false} WalkSplits(doc: Json, front: seq<Bytes>, last: Bytes)
    ensures Walk(doc, front + [last])
         == if Walk(doc, front).None? then None else GetChild(Walk(doc, front).value, last)
    decreases |front|
  {
    var p := front + [last];
    if front == [] {
      assert p[1..] == [];
    } else {
      assert p[1..] == front[1..] + [last];
      var child := GetChild(doc, front[0]);
      if child.Some? { WalkSplits(child.value, front[1..], last); }
    }
  }

  /** Replacing is removing and then adding at the same path. */
  lemma ReplacesAt(doc: Json, front: seq<Bytes>, last: Bytes, v: Json)
    requires ShortPath(front + [last])
    ensures ApplyOne(doc, Render(Replace(front + [last], v)))
         == EditAt(doc, front + [last], Replace(front + [last], v))
  {
    hide OpAdd, OpDetach, PathText;
    var path := front + [last];
    var e := Replace(path, v);
    RenderedFields(e);
    PathTextStarts(path);
    PointerWalks(doc, path);
    WalkSplits(doc, front, last);
    EditIsPut(doc, front, last, e);
    if Walk(doc, path).Some? {
      DetachesAt(doc, front, last);
      EditIsPut(doc, front, last, Remove(path));
      var parent := Walk(doc, front).value;
      var less := RemoveChild(parent, last).value;
      var d := Put(doc, front, less);
      WalkAfterPut(doc, front, less);
      AddsAt(d, front, last, v);
      EditIsPut(d, front, last, Add(path, v));
    }
  }

  lemma PathTextStarts(path: seq<Bytes>)
    ensures ValidPointer(PathText(path)) && (PathText(path) == [] <==> path == [])
  {
  }

  /** An operation whose path fits does exactly what the edit does; one whose path does not fit fails. */
  lemma RenderApplies(doc: Json, e: Edit)
    ensures ApplyOne(doc, Render(e)) == if ShortPath(e.path) then ApplyEdit(doc, e) else None
  {
    hide OpAdd, OpDetach, PathText, ResolveParent;
    RenderedFields(e);
    PathTextStarts(e.path);
    assert |ADD| == 3 && |REMOVE| == 6 && |REPLACE| == 7;
    if e.path == [] {
      RootEdit(doc, e);
    } else {
      PathIsSplit(e.path);
      var front, last := e.path[..|e.path| - 1], e.path[|e.path| - 1];
      if ShortPath(e.path) {
        match e
        case Add(_, v) => AddsAt(doc, front, last, v);
        case Remove(_) => DetachesAt(doc, front, last);
        case Replace(_, v) => ReplacesAt(doc, front, last, v);
      } else {
        ParentOfPath(doc, front, last);
        LongPointerFails(doc, e.path);
        NoParentFails(doc, e.path);
      }
    }
  }

  lemma NoParentFails(doc: Json, path: seq<Bytes>)
    requires path != [] && ResolveParent(doc, PathText(path)) == NoParent
    ensures forall v :: OpAdd(doc, PathText(path), v) == None
    ensures OpDetach(doc, PathText(path)) == NotThere
  {
  }

  lemma RootEdit(doc: Json, e: Edit)
    requires e.path == []
    ensures ApplyOne(doc, Render(e)) == ApplyEdit(doc, e)
  {
    RenderedFields(e);
    assert |ADD| == 3 && |REMOVE| == 6 && |REPLACE| == 7;
  }

  predicate AllShort(es: seq<Edit>) { forall i :: 0 <= i < |es| ==> ShortPath(es[i].path) }

  /** The patch document does what the edits do, unless some path does not fit: then it fails. */
  lemma {:induction false} RenderAllApplies(doc: Json, es: seq<Edit>)
    ensures AllShort(es) ==> ApplyAll(doc, RenderAll(es)) == ApplyEdits(doc, es)
    ensures !AllShort(es) ==> ApplyAll(doc, RenderAll(es)) == None
    decreases |es|
  {
    hide ApplyOne, ApplyEdit, Render;
    if es != [] {
      RenderApplies(doc, es[0]);
      assert RenderAll(es)[0] == Render(es[0]) && RenderAll(es)[1..] == RenderAll(es[1..]);
      assert AllShort(es) <==> ShortPath(es[0].path) && AllShort(es[1..]);
      if ShortPath(es[0].path) && ApplyEdit(doc, es[0]).Some? {
        RenderAllApplies(ApplyEdit(doc, es[0]).value, es[1..]);
      }
    }
  }

  // --- Edits below a child stay below it ---

  lemma {:induction false} ApplyInTwo(doc: Json, es: seq<Edit>, fs: seq<Edit>)
    ensures ApplyEdits(doc, es + fs)
         == if ApplyEdits(doc, es).None? then None else ApplyEdits(ApplyEdits(doc, es).value, fs)
    decreases |es|
  {
    if es == [] {
      assert es + fs == fs;
    } else {
      assert (es + fs)[0] == es[0] && (es + fs)[1..] == es[1..] + fs;
      var d := ApplyEdit(doc, es[0]);
      if d.Some? { ApplyInTwo(d.value, es[1..], fs); }
    }
  }

  predicate Inner(es: seq<Edit>) { forall i :: 0 <= i < |es| ==> es[i].path != [] }

  lemma SetSame(doc: Json, k: Bytes)
    requires GetChild(doc, k).Some?
    ensures SetChild(doc, k, GetChild(doc, k).value) == doc
  {
  }

  lemma EditUnder(doc: Json, k: Bytes, e: Edit)
    requires e.path != [] && GetChild(doc, k).Some?
    ensures var r := ApplyEdit(GetChild(doc, k).value, e);
            ApplyEdit(doc, e.(path := [k] + e.path)) == if r.None? then None else Some(SetChild(doc, k, r.value))
  {
    var path := [k] + e.path;
    assert path[1..] == e.path && path[0] == k;
    var child := GetChild(doc, k).value;
    EditIgnoresPath(child, e.path, e, e.(path := path));
  }

  lemma {:induction false} EditIgnoresPath(doc: Json, path: seq<Bytes>, e: Edit, f: Edit)
    requires path != [] && f == e.(path := f.path)
    ensures EditAt(doc, path, e) == EditAt(doc, path, f)
    decreases |path|
  {
    if |path| > 1 {
      var child := GetChild(doc, path[0]);
      if child.Some? { EditIgnoresPath(child.value, path[1..], e, f); }
    }
  }

  /** Edits with non-empty paths, put under a child, change that child as they would change it alone. */
  lemma {:induction false} UnderActsOnChild(doc: Json, k: Bytes, es: seq<Edit>)
    requires Inner(es) && GetChild(doc, k).Some?
    ensures var r := ApplyEdits(GetChild(doc, k).value, es);
            ApplyEdits(doc, Under(k, es)) == if r.None? then None else Some(SetChild(doc, k, r.value))
    decreases |es|
  {
    hide ApplyEdit, SetChild, GetChild;
    SetSame(doc, k);
    if es != [] {
      var child := GetChild(doc, k).value;
      EditUnder(doc, k, es[0]);
      assert Under(k, es)[1..] == Under(k, es[1..]);
      var d := ApplyEdit(child, es[0]);
      if d.Some? {
        ChildAfterSet(doc, k, d.value);
        UnderActsOnChild(SetChild(doc, k, d.value), k, es[1..]);
      }
    }
  }

  /** A diff is one replacement of the whole, or edits inside. */
  lemma DiffShape(a: Json, b: Json)
    ensures Inner(Diff(a, b)) || Diff(a, b) == [Replace([], b)]
  {
    if !Equals(a, b) && a.Obj? && b.Obj? {
      RemovalsInner(a.members, b.members);
      UpdatesInner(a.members, b.members);
    } else if !Equals(a, b) && a.Arr? && b.Arr? {
      var common := if |a.items| < |b.items| then |a.items| else |b.items|;
      ItemDiffsInner(a.items, b.items, common, 0);
      AppendsInner(b.items, common);
      TruncatesInner(|a.items|, common);
    }
  }

  lemma {:induction false} RemovalsInner(a: seq<Member>, b: seq<Member>)
    ensures Inner(Removals(a, b))
  {
    if a != [] { RemovalsInner(a[1..], b); }
  }

  lemma {:induction false} UpdatesInner(a: seq<Member>, b: seq<Member>)
    ensures Inner(Updates(a, b))
  {
    hide Diff;
    if b != [] { UpdatesInner(a, b[1..]); }
  }

  lemma {:induction false} ItemDiffsInner(a: seq<Json>, b: seq<Json>, n: nat, i: nat)
    requires n <= |a| && n <= |b|
    ensures Inner(ItemDiffs(a, b, n, i))
    decreases if i < n then n - i else 0
  {
    hide Diff;
    if i < n { ItemDiffsInner(a, b, n, i + 1); }
  }

  lemma {:induction false} AppendsInner(b: seq<Json>, i: nat)
    ensures Inner(Appends(b, i))
    decreases |b| - i
  {
    if i < |b| { AppendsInner(b, i + 1); }
  }

  lemma {:induction false} TruncatesInner(n: nat, i: nat)
    ensures Inner(Truncates(n, i))
    decreases n
  {
    if n > i { TruncatesInner(n - 1, i); }
  }

  // --- The round trip ---

  predicate Works(a: Json, b: Json)
  {
    var r := ApplyEdits(a, Diff(a, b));
    r.Some? && Equals(r.value, b)
  }

  /** In d, entry k of doc equals v, and every other entry is that of doc. */
  ghost predicate ChildIs(doc: Json, d: Json, k: Bytes, v: Json)
  {
    match doc
    case Obj(ms) =>
      d.Obj? && UniqueMembers(d.members)
      && GetMember(d.members, k).Some? && Equals(GetMember(d.members, k).value, v)
      && forall j :: j != k ==> GetMember(d.members, j) == GetMember(ms, j)
    case Arr(items) =>
      var i := ParseIndex(k, |items|, false);
      i.Some? && d.Arr? && |d.items| == |items| && Equals(d.items[i.value], v)
      && forall j :: 0 <= j < |items| && j != i.value ==> d.items[j] == items[j]
    case _ => false
  }

  lemma DropThenGet(ms: seq<Member>, k: Bytes)
    requires UniqueMembers(ms)
    ensures UniqueMembers(DropMember(ms, k)) && GetMember(DropMember(ms, k), k) == None
    ensures forall j :: j != k ==> GetMember(DropMember(ms, k), j) == GetMember(ms, j)
  {
    var r := DropMember(ms, k);
    var i := FindKey(ms, k);
    assert forall x :: 0 <= x < |r| ==> r[x] == if x < i then ms[x] else ms[x + 1];
    AbsentIsNotFound(r, k);
    forall j | j != k ensures GetMember(r, j) == GetMember(ms, j) {
      var f := FindKey(ms, j);
      if f == |ms| { AbsentIsNotFound(r, j); } else { FirstIsFound(r, j, if f < i then f else f - 1); }
    }
  }

  lemma SetKeepsUnique(ms: seq<Member>, k: Bytes, v: Json)
    requires UniqueMembers(ms)
    ensures UniqueMembers(SetMember(ms, k, v))
  {
  }

  /** Replacing a child of an object moves it to the end; replacing an array item leaves it in place. */
  lemma ReplaceChild(doc: Json, k: Bytes, v: Json)
    requires GetChild(doc, k).Some? && (doc.Obj? ==> UniqueMembers(doc.members)) && Equals(v, v)
    ensures var r := ApplyEdits(doc, Under(k, [Replace([], v)]));
            r.Some? && ChildIs(doc, r.value, k, v)
  {
    var e := Replace([k] + [], v);
    assert Under(k, [Replace([], v)]) == [e] && e.path == [k];
    assert ApplyEdits(doc, [e]) == EditChild(doc, k, e);
    match doc
    case Obj(ms) =>
      DropThenGet(ms, k);
      SetThenGet(DropMember(ms, k), k, v);
      SetKeepsUnique(DropMember(ms, k), k, v);
    case Arr(items) =>
      var i := ParseIndex(k, |items|, false).value;
      assert InsertItem(RemoveItem(items, i), i, v) == items[i := v];
  }

  lemma UpdateChild(doc: Json, k: Bytes, v: Json)
    requires GetChild(doc, k).Some? && (doc.Obj? ==> UniqueMembers(doc.members)) && Equals(v, v)
    requires Works(GetChild(doc, k).value, v)
    ensures var r := ApplyEdits(doc, Under(k, Diff(GetChild(doc, k).value, v)));
            r.Some? && ChildIs(doc, r.value, k, v)
  {
    hide Diff, ApplyEdits, Equals;
    var child := GetChild(doc, k).value;
    DiffShape(child, v);
    if Inner(Diff(child, v)) {
      UnderActsOnChild(doc, k, Diff(child, v));
      var c := ApplyEdits(child, Diff(child, v)).value;
      if doc.Obj? {
        SetThenGet(doc.members, k, c);
        SetKeepsUnique(doc.members, k, c);
      }
    } else {
      ReplaceChild(doc, k, v);
    }
  }

  lemma {:induction false} RemovalsApply(cur: seq<Member>, a: seq<Member>, b: seq<Member>)
    requires UniqueMembers(cur) && UniqueMembers(a)
    requires forall k :: HasKey(a, k) ==> HasKey(cur, k)
    ensures var r := ApplyEdits(Obj(cur), Removals(a, b));
            r.Some? && r.value.Obj? && UniqueMembers(r.value.members)
            && forall k :: GetMember(r.value.members, k)
                        == if HasKey(a, k) && !HasKey(b, k) then None else GetMember(cur, k)
    decreases |a|
  {
    if a != [] {
      var k0 := a[0].key;
      var es := if HasKey(b, k0) then [] else [Remove([k0])];
      ApplyInTwo(Obj(cur), es, Removals(a[1..], b));
      forall k ensures HasKey(a, k) <==> k == k0 || HasKey(a[1..], k) {
      }
      assert !HasKey(a[1..], k0) by { AbsentIsNotFound(a[1..], k0); }
      if HasKey(b, k0) {
        RemovalsApply(cur, a[1..], b);
      } else {
        DropThenGet(cur, k0);
        var next := DropMember(cur, k0);
        assert HasKey(a, k0);
        assert ApplyEdits(Obj(cur), es) == Some(Obj(next));
        forall k | HasKey(a[1..], k) ensures HasKey(next, k) {
          assert k != k0 && HasKey(a, k) && HasKey(cur, k);
          assert GetMember(next, k) == GetMember(cur, k);
        }
        RemovalsApply(next, a[1..], b);
      }
    }
  }

  /** One member of the new object: added at the end, or brought up to date. */
  lemma MemberApplies(cur: seq<Member>, a: seq<Member>, m: Member)
    requires UniqueMembers(cur) && GetMember(cur, m.key) == GetMember(a, m.key) && Equals(m.value, m.value)
    requires HasKey(a, m.key) ==> Works(GetMember(a, m.key).value, m.value)
    ensures var r := ApplyEdits(Obj(cur), MemberDiff(a, m));
            r.Some? && r.value.Obj? && UniqueMembers(r.value.members)
            && GetMember(r.value.members, m.key).Some? && Equals(GetMember(r.value.members, m.key).value, m.value)
            && forall k :: k != m.key ==> GetMember(r.value.members, k) == GetMember(cur, k)
  {
    hide Diff, Equals;
    if HasKey(a, m.key) {
      UpdateChild(Obj(cur), m.key, m.value);
    } else {
      SetThenGet(cur, m.key, m.value);
      SetKeepsUnique(cur, m.key, m.value);
      assert ApplyEdits(Obj(cur), MemberDiff(a, m)) == Some(Obj(SetMember(cur, m.key, m.value)));
    }
  }

  lemma {:induction false} UpdatesApply(cur: seq<Member>, a: seq<Member>, b: seq<Member>)
    requires UniqueMembers(cur) && UniqueMembers(b)
    requires forall k :: HasKey(b, k) ==> GetMember(cur, k) == GetMember(a, k)
    requires forall i :: 0 <= i < |b| ==> Equals(b[i].value, b[i].value)
    requires forall i :: 0 <= i < |b| && HasKey(a, b[i].key) ==> Works(GetMember(a, b[i].key).value, b[i].value)
    ensures var r := ApplyEdits(Obj(cur), Updates(a, b));
            r.Some? && r.value.Obj? && UniqueMembers(r.value.members)
            && (forall k :: HasKey(b, k) ==> GetMember(r.value.members, k).Some?
                                             && Equals(GetMember(r.value.members, k).value, GetMember(b, k).value))
            && (forall k :: !HasKey(b, k) ==> GetMember(r.value.members, k) == GetMember(cur, k))
    decreases |b|
  {
    hide MemberDiff, Works, Equals;
    if b != [] {
      var m := b[0];
      ApplyInTwo(Obj(cur), MemberDiff(a, m), Updates(a, b[1..]));
      assert HasKey(b, m.key);
      MemberApplies(cur, a, m);
      var next := ApplyEdits(Obj(cur), MemberDiff(a, m)).value.members;
      AbsentIsNotFound(b[1..], m.key);
      forall k | k != m.key ensures GetMember(b, k) == GetMember(b[1..], k) {
      }
      UpdatesApply(next, a, b[1..]);
    }
  }

  lemma ObjectWorks(a: seq<Member>, b: seq<Member>)
    requires UniqueMembers(a) && UniqueMembers(b) && !Equals(Obj(a), Obj(b))
    requires forall i :: 0 <= i < |b| ==> Equals(b[i].value, b[i].value)
    requires forall i :: 0 <= i < |b| && HasKey(a, b[i].key) ==> Works(GetMember(a, b[i].key).value, b[i].value)
    ensures Works(Obj(a), Obj(b))
  {
    hide Updates, Removals;
    RemovalsApply(a, a, b);
    var mid := ApplyEdits(Obj(a), Removals(a, b)).value.members;
    forall k | HasKey(b, k) ensures GetMember(mid, k) == GetMember(a, k) { }
    UpdatesApply(mid, a, b);
    ApplyInTwo(Obj(a), Removals(a, b), Updates(a, b));
    var r := ApplyEdits(Obj(mid), Updates(a, b)).value.members;
    forall k ensures HasKey(r, k) <==> HasKey(b, k) {
      assert GetMember(mid, k).Some? ==> HasKey(b, k);
    }
    forall i | 0 <= i < |r| && HasKey(b, r[i].key) ensures Equals(r[i].value, GetMember(b, r[i].key).value) {
      FindUnique(r, i);
    }
    SameMembersEqual(r, b);
  }

  lemma {:induction false} ItemDiffsApply(cur: seq<Json>, a: seq<Json>, b: seq<Json>, n: nat, i: nat)
    requires i <= n <= |a| == |cur| && n <= |b| && |a| <= MAX_INDEX
    requires forall j :: i <= j < |a| ==> cur[j] == a[j]
    requires forall j :: i <= j < n ==> Works(a[j], b[j]) && Equals(b[j], b[j])
    ensures var r := ApplyEdits(Arr(cur), ItemDiffs(a, b, n, i));
            r.Some? && r.value.Arr? && |r.value.items| == |a|
            && (forall j :: 0 <= j < i || n <= j < |a| ==> r.value.items[j] == cur[j])
            && (forall j :: i <= j < n ==> Equals(r.value.items[j], b[j]))
    decreases n - i
  {
    hide Diff, Works, Equals;
    if i < n {
      var es := Under(DecimalText(i), Diff(a[i], b[i]));
      IndexReadsBack(i, |cur|, false);
      UpdateChild(Arr(cur), DecimalText(i), b[i]);
      ApplyInTwo(Arr(cur), es, ItemDiffs(a, b, n, i + 1));
      ItemDiffsApply(ApplyEdits(Arr(cur), es).value.items, a, b, n, i + 1);
    }
  }

  lemma {:induction false} AppendsApply(cur: seq<Json>, b: seq<Json>, i: nat)
    requires |cur| == i <= |b| <= MAX_INDEX
    ensures ApplyEdits(Arr(cur), Appends(b, i)) == Some(Arr(cur + b[i..]))
    decreases |b| - i
  {
    if i < |b| {
      IndexReadsBack(i, |cur|, true);
      var next := InsertItem(cur, i, b[i]);
      assert next == cur + [b[i]];
      AppendsApply(next, b, i + 1);
      assert next + b[i + 1..] == cur + b[i..];
      assert Appends(b, i)[1..] == Appends(b, i + 1);
      assert ApplyEdit(Arr(cur), Appends(b, i)[0]) == Some(Arr(next));
    } else {
      assert cur + b[i..] == cur;
    }
  }

  lemma {:induction false} TruncatesApply(cur: seq<Json>, n: nat, i: nat)
    requires i <= n == |cur| <= MAX_INDEX
    ensures ApplyEdits(Arr(cur), Truncates(n, i)) == Some(Arr(cur[..i]))
    decreases n
  {
    if n > i {
      IndexReadsBack(n - 1, n, false);
      var next := RemoveItem(cur, n - 1);
      assert next == cur[..n - 1];
      TruncatesApply(next, n - 1, i);
      assert Truncates(n, i)[1..] == Truncates(n - 1, i);
      assert ApplyEdit(Arr(cur), Truncates(n, i)[0]) == Some(Arr(next));
      assert next[..i] == cur[..i];
    } else {
      assert cur[..i] == cur;
    }
  }

  lemma ArrayWorks(a: seq<Json>, b: seq<Json>)
    requires |a| <= MAX_INDEX && |b| <= MAX_INDEX && !Equals(Arr(a), Arr(b))
    requires forall j :: 0 <= j < |b| ==> Equals(b[j], b[j])
    requires forall j :: 0 <= j < |a| && j < |b| ==> Works(a[j], b[j])
    ensures Works(Arr(a), Arr(b))
  {
    hide ItemDiffs, Appends, Truncates, ApplyEdits;
    var n := if |a| < |b| then |a| else |b|;
    ItemDiffsApply(a, a, b, n, 0);
    var mid := ApplyEdits(Arr(a), ItemDiffs(a, b, n, 0)).value.items;
    ApplyInTwo(Arr(a), ItemDiffs(a, b, n, 0) + Appends(b, n), Truncates(|a|, n));
    ApplyInTwo(Arr(a), ItemDiffs(a, b, n, 0), Appends(b, n));
    if |a| <= |b| {
      AppendsApply(mid, b, n);
      NoTruncates(mid + b[n..], |a|, n);
    } else {
      NoAppends(mid, b, n);
      TruncatesApply(mid, |a|, n);
    }
  }

  lemma NoTruncates(cur: seq<Json>, n: nat, i: nat)
    requires n <= i
    ensures ApplyEdits(Arr(cur), Truncates(n, i)) == Some(Arr(cur))
  {
  }

  lemma NoAppends(cur: seq<Json>, b: seq<Json>, i: nat)
    requires i >= |b|
    ensures ApplyEdits(Arr(cur), Appends(b, i)) == Some(Arr(cur))
  {
  }

  /** Arrays are counted in a C int. */
  predicate Counted(v: Json)
  {
    match v
    case Arr(x) => |x| <= MAX_INDEX && forall i :: 0 <= i < |x| ==> Counted(x[i])
    case Obj(x) => forall i :: 0 <= i < |x| ==> Counted(x[i].value)
    case _ => true
  }

  lemma {:induction false} EditsWork(a: Json, b: Json)
    requires Unique(a) && Unique(b) && Counted(a) && Counted(b)
    ensures Works(a, b)
    decreases b
  {
    hide ApplyEdits, Works, Diff;
    if Equals(a, b) {
      AlreadyEqual(a, b);
    } else if a.Obj? && b.Obj? {
      var x, y := a.members, b.members;
      forall i | 0 <= i < |y| ensures Equals(y[i].value, y[i].value) { EqualsReflexive(y[i].value); }
      forall i | 0 <= i < |y| && HasKey(x, y[i].key) ensures Works(GetMember(x, y[i].key).value, y[i].value) {
        EditsWork(x[FindKey(x, y[i].key)].value, y[i].value);
      }
      ObjectWorks(x, y);
    } else if a.Arr? && b.Arr? {
      forall j | 0 <= j < |b.items| ensures Equals(b.items[j], b.items[j]) { EqualsReflexive(b.items[j]); }
      forall j | 0 <= j < |a.items| && j < |b.items| ensures Works(a.items[j], b.items[j]) {
        EditsWork(a.items[j], b.items[j]);
      }
      ArrayWorks(a.items, b.items);
    } else {
      ReplacedWhole(a, b);
    }
  }

  lemma AlreadyEqual(a: Json, b: Json)
    requires Equals(a, b)
    ensures Works(a, b)
  {
  }

  lemma ReplacedWhole(a: Json, b: Json)
    requires !Equals(a, b) && !(a.Obj? && b.Obj?) && !(a.Arr? && b.Arr?) && Unique(b)
    ensures Works(a, b)
  {
    EqualsReflexive(b);
    assert ApplyEdits(a, [Replace([], b)]) == Some(b);
  }

  /** Applying the diff of two trees to the first gives a tree equal to the second, unless some edited path
      has a token that does not fit the token buffer: then the patch fails and changes nothing. */
  lemma DiffThenApply(a: Json, b: Json)
    requires Unique(a) && Unique(b) && Counted(a) && Counted(b)
    ensures PatchApply(a, DiffPatch(a, b)).Some? <==> AllShort(Diff(a, b))
    ensures PatchApply(a, DiffPatch(a, b)).Some? ==> Equals(PatchApply(a, DiffPatch(a, b)).value, b)
  {
    EditsWork(a, b);
    RenderAllApplies(a, Diff(a, b));
  }

  // --- Trees whose keys all fit ---

  predicate KeysFit(v: Json)
  {
    match v
    case Arr(x) => forall i :: 0 <= i < |x| ==> KeysFit(x[i])
    case Obj(x) => forall i :: 0 <= i < |x| ==> |x[i].key| < TOKEN_BUFFER && KeysFit(x[i].value)
    case _ => true
  }

  lemma UnderShort(k: Bytes, es: seq<Edit>)
    requires |k| < TOKEN_BUFFER && AllShort(es)
    ensures AllShort(Under(k, es))
  {
  }

  lemma {:induction false} DiffShort(a: Json, b: Json)
    requires KeysFit(a) && KeysFit(b) && Counted(a) && Counted(b)
    ensures AllShort(Diff(a, b))
    decreases b, 1, 0
  {
    hide Equals;
    if !Equals(a, b) && a.Obj? && b.Obj? {
      RemovalsShort(a.members, b.members);
      UpdatesShort(a.members, b.members);
    } else if !Equals(a, b) && a.Arr? && b.Arr? {
      var common := if |a.items| < |b.items| then |a.items| else |b.items|;
      ItemDiffsShort(a.items, b.items, common, 0);
      AppendsShort(b.items, common);
      TruncatesShort(|a.items|, common);
    }
  }

  lemma {:induction false} RemovalsShort(a: seq<Member>, b: seq<Member>)
    requires forall i :: 0 <= i < |a| ==> |a[i].key| < TOKEN_BUFFER
    ensures AllShort(Removals(a, b))
  {
    if a != [] { RemovalsShort(a[1..], b); }
  }

  lemma {:induction false} UpdatesShort(a: seq<Member>, b: seq<Member>)
    requires KeysFit(Obj(a)) && KeysFit(Obj(b)) && Counted(Obj(a)) && Counted(Obj(b))
    ensures AllShort(Updates(a, b))
    decreases b, 0, 0
  {
    hide Diff;
    if b != [] {
      var m := b[0];
      if HasKey(a, m.key) {
        var av := a[FindKey(a, m.key)].value;
        DiffShort(av, m.value);
        UnderShort(m.key, Diff(av, m.value));
      }
      UpdatesShort(a, b[1..]);
    }
  }

  lemma {:induction false} ItemDiffsShort(a: seq<Json>, b: seq<Json>, n: nat, i: nat)
    requires n <= |a| && n <= |b| && n <= MAX_INDEX
    requires KeysFit(Arr(a)) && KeysFit(Arr(b)) && Counted(Arr(a)) && Counted(Arr(b))
    ensures AllShort(ItemDiffs(a, b, n, i))
    decreases b, 0, if i < n then n - i else 0
  {
    hide Diff;
    if i < n {
      DiffShort(a[i], b[i]);
      IndexIsShort(i);
      UnderShort(DecimalText(i), Diff(a[i], b[i]));
      ItemDiffsShort(a, b, n, i + 1);
    }
  }

  lemma {:induction false} AppendsShort(b: seq<Json>, i: nat)
    requires |b| <= MAX_INDEX
    ensures AllShort(Appends(b, i))
    decreases |b| - i
  {
    if i < |b| {
      IndexIsShort(i);
      AppendsShort(b, i + 1);
    }
  }

  lemma {:induction false} TruncatesShort(n: nat, i: nat)
    requires n <= MAX_INDEX
    ensures AllShort(Truncates(n, i))
    decreases n
  {
    if n > i {
      IndexIsShort(n - 1);
      TruncatesShort(n - 1, i);
    }
  }

  /** With keys of at most 511 bytes the diff applies and gives the new tree. */
  lemma DiffThenApplyWithFittingKeys(a: Json, b: Json)
    requires Unique(a) && Unique(b) && Counted(a) && Counted(b) && KeysFit(a) && KeysFit(b)
    ensures var r := PatchApply(a, DiffPatch(a, b)); r.Some? && Equals(r.value, b)
  {
    DiffThenApply(a, b);
    DiffShort(a, b);
  }

  /** A key one byte longer is enough to lose the round trip. */
  lemma LongKeyBreaksTheRoundTrip(key: Bytes)
    requires |key| == TOKEN_BUFFER
    ensures PatchApply(Obj([]), DiffPatch(Obj([]), Obj([Member(key, Null)]))) == None
  {
    var a, b := Obj([]), Obj([Member(key, Null)]);
    DiffThenApply(a, b);
    assert Updates([], b.members) == [Add([key], Null)];
    assert Diff(a, b) == [Add([key], Null)];
    assert Diff(a, b)[0].path[0] == key;
  }
}
