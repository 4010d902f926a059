/** The patch code in its own form: loops over text, a document edited operation by operation, and a diff
    that pushes tokens on a path buffer and appends operations. */
module PatchLoops {
  import opened Bytes
  import opened Options
  import opened Scan
  import opened Decimal
  import opened JsonValue
  import opened JsonOps
  import opened Pointer
  import opened PatchSpec
  import opened PatchRoundTrip
  import opened MergePatch

  /** Reads one token into a buffer of TOKEN_BUFFER bytes. */
  method ReadToken(p: Bytes) returns (t: Token)
    ensures t == NextToken(p, [])
  {
    var out: Bytes := [];
    var i := 0;
    assert p[0..] == p;
    while i < |p| && p[i] != SLASH
      invariant 0 <= i <= |p|
      invariant NextToken(p[i..], out) == NextToken(p, [])
    {
      var ch := p[i];
      assert p[i..][1..] == p[i + 1..];
      i := i + 1;
      if ch == TILDE {
        if i < |p| && p[i] == ZERO { ch := TILDE; }
        else if i < |p| && p[i] == ONE { ch := SLASH; }
        else { return BadToken; }
        assert p[i - 1..][2..] == p[i + 1..];
        i := i + 1;
      }
      if |out| + 1 >= TOKEN_BUFFER { return BadToken; }
      out := out + [ch];
    }
    return Token(out, p[i..]);
  }

  lemma {:induction false} PrefixValue(tok: Bytes, i: nat, j: nat)
    requires AllDigits(tok) && i <= j <= |tok|
    ensures DigitsValue(tok[..i]) <= DigitsValue(tok[..j])
    decreases j - i
  {
    if i < j {
      PrefixValue(tok, i, j - 1);
      assert tok[..j][..j - 1] == tok[..j - 1];
    }
  }

  /** Reads an array index, giving up as soon as it exceeds a C int. */
  method ReadIndex(tok: Bytes, count: nat, allowEnd: bool) returns (r: Option<nat>)
    ensures r == ParseIndex(tok, count, allowEnd)
  {
    if allowEnd && tok == [MINUS] { return Some(count); }
    if tok == [] || (tok[0] == ZERO && |tok| > 1) { return None; }
    var v := 0;
    var i := 0;
    while i < |tok|
      invariant 0 <= i <= |tok| && AllDigits(tok[..i]) && v == DigitsValue(tok[..i]) && v <= MAX_INDEX
    {
      assert tok[..i + 1][..i] == tok[..i];
      if tok[i] < ZERO || tok[i] > NINE { return None; }
      assert AllDigits(tok[..i + 1]);
      v := v * 10 + (tok[i] - ZERO);
      if v > MAX_INDEX {
        if AllDigits(tok) { PrefixValue(tok, i + 1, |tok|); assert tok[..|tok|] == tok; }
        return None;
      }
      i := i + 1;
    }
    assert tok[..i] == tok;
    if v > count || (!allowEnd && v >= count) { return None; }
    return Some(v);
  }

  method GetAtPointer(root: Json, pointer: Bytes) returns (r: Option<Json>)
    ensures r == PointerGet(root, pointer)
  {
    var cur := root;
    var p := pointer;
    while p != []
      invariant PointerGet(cur, p) == PointerGet(root, pointer)
      decreases |p|
    {
      if p[0] != SLASH { return None; }
      var t := ReadToken(p[1..]);
      if t.BadToken? { return None; }
      match cur {
        case Obj(ms) =>
          var m := GetMember(ms, t.text);
          if m == None { return None; }
          cur := m.value;
        case Arr(items) =>
          var i := ReadIndex(t.text, |items|, false);
          if i == None { return None; }
          cur := items[i.value];
        case _ => return None;
      }
      p := t.rest;
    }
    return Some(cur);
  }

  method EqualsTree(a: Json, b: Json) returns (eq: bool)
    ensures eq == Equals(a, b)
    decreases a
  {
    match a {
      case Arr(x) =>
        if !b.Arr? || |x| != |b.items| { return false; }
        var i := 0;
        while i < |x|
          invariant 0 <= i <= |x|
          invariant forall j :: 0 <= j < i ==> Equals(x[j], b.items[j])
        {
          var same := EqualsTree(x[i], b.items[i]);
          if !same { return false; }
          i := i + 1;
        }
        return true;
      case Obj(x) =>
        if !b.Obj? || |x| != |b.members| { return false; }
        var i := 0;
        while i < |x|
          invariant 0 <= i <= |x|
          invariant forall j :: 0 <= j < i ==>
            GetMember(b.members, x[j].key).Some? && Equals(x[j].value, GetMember(b.members, x[j].key).value)
        {
          var other := GetMember(b.members, x[i].key);
          if other == None { return false; }
          var same := EqualsTree(x[i].value, other.value);
          if !same { return false; }
          i := i + 1;
        }
        return true;
      case _ => return a == b;
    }
  }

  // --- Applying ---

  class Document {
    var doc: Json

    constructor (doc: Json)
      ensures this.doc == doc
    {
      this.doc := doc;
    }

    method Add(path: Bytes, v: Json) returns (ok: bool)
      modifies this
      ensures ok == OpAdd(old(doc), path, v).Some?
      ensures doc == if ok then OpAdd(old(doc), path, v).value else old(doc)
    {
      if path == [] {
        doc := v;
        return true;
      }
      var p := ResolveParent(doc, path);
      if p.NoParent? { return false; }
      match p.value {
        case Obj(ms) =>
          doc := PointerPut(doc, p.pointer, Obj(SetMember(ms, p.last, v)));
          return true;
        case Arr(items) =>
          var i := ReadIndex(p.last, |items|, true);
          if i == None { return false; }
          doc := PointerPut(doc, p.pointer, Arr(InsertItem(items, i.value, v)));
          return true;
        case _ => return false;
      }
    }

    method Detach(path: Bytes) returns (out: Option<Json>)
      modifies this
      ensures var d := OpDetach(old(doc), path);
              if d.NotThere? then out == None && doc == old(doc) else out == Some(d.value) && doc == d.doc
    {
      if path == [] { return None; }
      var p := ResolveParent(doc, path);
      if p.NoParent? { return None; }
      match p.value {
        case Obj(ms) =>
          out := GetMember(ms, p.last);
          if out != None { doc := PointerPut(doc, p.pointer, Obj(DropMember(ms, p.last))); }
        case Arr(items) =>
          var i := ReadIndex(p.last, |items|, false);
          if i == None { return None; }
          out := Some(items[i.value]);
          doc := PointerPut(doc, p.pointer, Arr(RemoveItem(items, i.value)));
        case _ => return None;
      }
    }

    method Replace(path: Bytes, v: Json) returns (ok: bool)
      requires PointerGet(doc, path).Some?
      modifies this
      ensures var d := OpDetach(old(doc), path);
              var r := OpAdd(if path == [] || d.NotThere? then old(doc) else d.doc, path, v);
              ok == r.Some? && (ok ==> doc == r.value)
    {
      hide OpAdd, OpDetach;
      if path != [] {
        var gone := Detach(path);
      }
      ok := Add(path, v);
    }

    method Move(from: Bytes, path: Bytes) returns (ok: bool)
      modifies this
      ensures ok == MoveOrCopy(old(doc), true, from, path).Some?
      ensures ok ==> Some(doc) == MoveOrCopy(old(doc), true, from, path)
    {
      hide OpAdd, OpDetach;
      if from == path { return true; }
      if IsPrefix(from + [SLASH], path) { return false; }
      var v := Detach(from);
      if v == None { return false; }
      ok := Add(path, v.value);
    }

    method Copy(from: Bytes, path: Bytes) returns (ok: bool)
      modifies this
      ensures ok == MoveOrCopy(old(doc), false, from, path).Some?
      ensures ok ==> Some(doc) == MoveOrCopy(old(doc), false, from, path)
    {
      hide OpAdd, OpDetach;
      var src := GetAtPointer(doc, from);
      if src == None { return false; }
      ok := Add(path, src.value);
    }

    method ApplyOne(op: Json) returns (ok: bool)
      modifies this
      ensures ok == PatchSpec.ApplyOne(old(doc), op).Some?
      ensures ok ==> Some(doc) == PatchSpec.ApplyOne(old(doc), op)
    {
      hide OpAdd, OpDetach, MoveOrCopy, PointerGet, Equals, Field, StringField;
      assert |ADD| == 3 && |REMOVE| == 6 && |REPLACE| == 7 && |MOVE| == 4;
      assert MOVE[0] == 0x6D && COPY[0] == 0x63 && TEST[0] == 0x74;
      var name, path := StringField(op, OP), StringField(op, PATH);
      if name == None || path == None || !ValidPointer(path.value) { return false; }
      var value, from := Field(op, VALUE), StringField(op, FROM);
      if name.value == ADD {
        if value == None { return false; }
        ok := Add(path.value, value.value);
      } else if name.value == REMOVE {
        var v := Detach(path.value);
        ok := v != None;
      } else if name.value == REPLACE {
        if value == None { return false; }
        var cur := GetAtPointer(doc, path.value);
        if cur == None { return false; }
        ok := Replace(path.value, value.value);
      } else if name.value == MOVE || name.value == COPY {
        if from == None || !ValidPointer(from.value) { return false; }
        if name.value == MOVE { ok := Move(from.value, path.value); } else { ok := Copy(from.value, path.value); }
      } else if name.value == TEST {
        var cur := GetAtPointer(doc, path.value);
        if value == None || cur == None { return false; }
        ok := EqualsTree(cur.value, value.value);
      } else {
        ok := false;
      }
    }

    /** Applies a patch to a copy and keeps the copy only when every operation succeeds. */
    method Apply(patch: Json) returns (ok: bool)
      modifies this
      ensures ok == PatchApply(old(doc), patch).Some?
      ensures doc == if ok then PatchApply(old(doc), patch).value else old(doc)
    {
      hide PatchSpec.ApplyOne;
      if !patch.Arr? { return false; }
      var work := new Document(doc);
      var i := 0;
      assert patch.items[i..] == patch.items;
      while i < |patch.items|
        invariant 0 <= i <= |patch.items| && fresh(work) && doc == old(doc)
        invariant ApplyAll(work.doc, patch.items[i..]) == ApplyAll(old(doc), patch.items)
      {
        assert patch.items[i..][0] == patch.items[i] && patch.items[i..][1..] == patch.items[i + 1..];
        var done := work.ApplyOne(patch.items[i]);
        if !done { return false; }
        i := i + 1;
      }
      doc := work.doc;
      return true;
    }
  }

  // --- Computing ---

  /** The edits with a path in front of theirs. */
  function At(path: seq<Bytes>, es: seq<Edit>): (r: seq<Edit>)
    ensures |r| == |es|
    ensures forall i :: 0 <= i < |es| ==> r[i] == es[i].(path := path + es[i].path)
  {
    seq(|es|, i requires 0 <= i < |es| => es[i].(path := path + es[i].path))
  }

  lemma AtTwo(path: seq<Bytes>, es: seq<Edit>, fs: seq<Edit>)
    ensures At(path, es + fs) == At(path, es) + At(path, fs)
  {
  }

  lemma AtUnder(path: seq<Bytes>, k: Bytes, es: seq<Edit>)
    ensures At(path, Under(k, es)) == At(path + [k], es)
  {
    forall i | 0 <= i < |es| ensures At(path, Under(k, es))[i] == At(path + [k], es)[i] {
      assert path + ([k] + es[i].path) == path + [k] + es[i].path;
    }
  }

  lemma {:induction false} RenderTwo(es: seq<Edit>, fs: seq<Edit>)
    ensures RenderAll(es + fs) == RenderAll(es) + RenderAll(fs)
    decreases |es|
  {
    hide Render;
    if es == [] {
      assert es + fs == fs;
    } else {
      assert (es + fs)[0] == es[0] && (es + fs)[1..] == es[1..] + fs;
      RenderTwo(es[1..], fs);
    }
  }

  /** The operations that edits below a path are emitted as. */
  function Ops(path: seq<Bytes>, es: seq<Edit>): seq<Json> { RenderAll(At(path, es)) }

  lemma OpsTwo(path: seq<Bytes>, es: seq<Edit>, fs: seq<Edit>)
    ensures Ops(path, es + fs) == Ops(path, es) + Ops(path, fs)
  {
    AtTwo(path, es, fs);
    RenderTwo(At(path, es), At(path, fs));
  }

  lemma OpsOne(path: seq<Bytes>, e: Edit)
    ensures Ops(path, [e]) == [Render(e.(path := path + e.path))]
  {
    hide Render;
    var f := e.(path := path + e.path);
    assert At(path, [e]) == [f];
    assert [f][1..] == [];
    assert RenderAll([f]) == [Render(f)] + RenderAll([]);
  }

  lemma OpsNone(path: seq<Bytes>)
    ensures Ops(path, []) == []
  {
  }

  lemma OpsUnder(path: seq<Bytes>, k: Bytes, es: seq<Edit>)
    ensures Ops(path, Under(k, es)) == Ops(path + [k], es)
  {
    AtUnder(path, k, es);
  }

  class Differ {
    var ops: seq<Json>
    var path: Bytes

    constructor ()
      ensures ops == [] && path == []
    {
      ops, path := [], [];
    }

    method PushToken(tok: Bytes)
      modifies this`path
      ensures path == old(path) + ([SLASH] + EscapeToken(tok))
    {
      path := path + [SLASH];
      var i := 0;
      assert tok[0..] == tok;
      while i < |tok|
        invariant 0 <= i <= |tok|
        invariant path + EscapeToken(tok[i..]) == old(path) + [SLASH] + EscapeToken(tok)
      {
        assert tok[i..][1..] == tok[i + 1..];
        if tok[i] == TILDE { path := path + [TILDE, ZERO]; }
        else if tok[i] == SLASH { path := path + [TILDE, ONE]; }
        else { path := path + [tok[i]]; }
        i := i + 1;
      }
      assert path + [] == path;
      assert old(path) + [SLASH] + EscapeToken(tok) == old(path) + ([SLASH] + EscapeToken(tok));
    }

    static function OpObject(op: Bytes, path: Bytes, value: Option<Json>): Json
    {
      if value == None then Obj([Member(OP, Str(op)), Member(PATH, Str(path))])
      else Obj([Member(OP, Str(op)), Member(PATH, Str(path)), Member(VALUE, value.value)])
    }

    /** Appends the operation object for the current path. */
    method Emit(op: Bytes, value: Option<Json>)
      modifies this`ops
      ensures ops == old(ops) + [OpObject(op, path, value)]
    {
      var o := [Member(OP, Str(op)), Member(PATH, Str(path))];
      if value != None {
        o := o + [Member(VALUE, value.value)];
        assert o == [Member(OP, Str(op)), Member(PATH, Str(path)), Member(VALUE, value.value)];
      }
      ops := ops + [Obj(o)];
    }

    /** Emits one edit below the token path that the buffer holds. */
    method EmitEdit(e: Edit, ghost at: seq<Bytes>)
      requires path == PathText(at) && |e.path| <= 1
      modifies this
      ensures path == old(path) && ops == old(ops) + Ops(at, [e])
    {
      OpsOne(at, e);
      var mark := |path|;
      if e.path != [] {
        assert e.path == [e.path[0]];
        PathTextSplits(at, e.path[0]);
        PushToken(e.path[0]);
      } else {
        assert at + [] == at;
      }
      assert path == PathText(at + e.path);
      match e {
        case Add(_, v) => Emit(ADD, Some(v));
        case Remove(_) => Emit(REMOVE, None);
        case Replace(_, v) => Emit(REPLACE, Some(v));
      }
      path := path[..mark];
    }

    method DiffRec(a: Json, b: Json, ghost at: seq<Bytes>)
      requires path == PathText(at)
      modifies this
      ensures path == old(path) && ops == old(ops) + Ops(at, Diff(a, b))
      decreases b, 1
    {
      hide Equals, Removals, Updates, Ops, PathText;
      var same := EqualsTree(a, b);
      if same {
        OpsNone(at);
        assert ops + [] == ops;
        return;
      }
      if a.Obj? && b.Obj? {
        DiffRemoved(a.members, b.members, at);
        DiffMembers(a.members, b.members, at);
        OpsTwo(at, Removals(a.members, b.members), Updates(a.members, b.members));
        return;
      }
      if a.Arr? && b.Arr? {
        DiffArrays(a.items, b.items, at);
        return;
      }
      EmitEdit(Replace([], b), at);
    }

    method DiffArrays(a: seq<Json>, b: seq<Json>, ghost at: seq<Bytes>)
      requires path == PathText(at) && !Equals(Arr(a), Arr(b))
      modifies this
      ensures path == old(path) && ops == old(ops) + Ops(at, Diff(Arr(a), Arr(b)))
      decreases b, 1
    {
      hide Equals, ItemDiffs, Appends, Truncates, Ops, PathText;
      var common := if |a| < |b| then |a| else |b|;
      ghost var p, q, r := ItemDiffs(a, b, common, 0), Appends(b, common), Truncates(|a|, common);
      OpsTwo(at, p, q);
      OpsTwo(at, p + q, r);
      DiffItems(a, b, common, at);
      DiffAppended(b, common, at);
      assert ops == old(ops) + Ops(at, p + q);
      DiffTruncated(|a|, common, at);
    }

    method DiffRemoved(a: seq<Member>, b: seq<Member>, ghost at: seq<Bytes>)
      requires path == PathText(at)
      modifies this
      ensures path == old(path) && ops == old(ops) + Ops(at, Removals(a, b))
    {
      var i := 0;
      hide Ops, PathText, Render, FindKey;
      OpsNone(at);
      assert a[0..] == a;
      while i < |a|
        invariant 0 <= i <= |a| && path == old(path)
        invariant ops + Ops(at, Removals(a[i..], b)) == old(ops) + Ops(at, Removals(a, b))
      {
        assert a[i..][1..] == a[i + 1..];
        var e := Remove([a[i].key]);
        if !HasKey(b, a[i].key) {
          OpsTwo(at, [e], Removals(a[i + 1..], b));
          EmitEdit(e, at);
        } else {
          OpsTwo(at, [], Removals(a[i + 1..], b));
        }
        i := i + 1;
      }
      assert ops + [] == ops;
    }

    method DiffMembers(a: seq<Member>, b: seq<Member>, ghost at: seq<Bytes>)
      requires path == PathText(at)
      modifies this
      ensures path == old(path) && ops == old(ops) + Ops(at, Updates(a, b))
      decreases b, 0
    {
      hide Diff, Ops, PathText, Render, FindKey;
      OpsNone(at);
      var i := 0;
      assert b[0..] == b;
      while i < |b|
        invariant 0 <= i <= |b| && path == old(path)
        invariant ops + Ops(at, Updates(a, b[i..])) == old(ops) + Ops(at, Updates(a, b))
      {
        assert b[i..][1..] == b[i + 1..];
        var m := b[i];
        var av := GetMember(a, m.key);
        OpsTwo(at, MemberDiff(a, m), Updates(a, b[i + 1..]));
        if av == None {
          EmitEdit(Add([m.key], m.value), at);
        } else {
          DiffChild(av.value, m.value, m.key, at);
        }
        i := i + 1;
      }
      assert ops + [] == ops;
    }

    /** Pushes a token, diffs two children and truncates the path again. */
    method DiffChild(av: Json, bv: Json, key: Bytes, ghost at: seq<Bytes>)
      requires path == PathText(at)
      modifies this
      ensures path == old(path) && ops == old(ops) + Ops(at, Under(key, Diff(av, bv)))
      decreases bv, 2
    {
      var mark := |path|;
      PathTextSplits(at, key);
      OpsUnder(at, key, Diff(av, bv));
      PushToken(key);
      DiffRec(av, bv, at + [key]);
      path := path[..mark];
    }

    method DiffItems(a: seq<Json>, b: seq<Json>, n: nat, ghost at: seq<Bytes>)
      requires path == PathText(at) && n <= |a| && n <= |b|
      modifies this
      ensures path == old(path) && ops == old(ops) + Ops(at, ItemDiffs(a, b, n, 0))
      decreases b, 0
    {
      hide Diff;
      var i := 0;
      while i < n
        invariant 0 <= i <= n && path == old(path)
        invariant ops + Ops(at, ItemDiffs(a, b, n, i)) == old(ops) + Ops(at, ItemDiffs(a, b, n, 0))
      {
        OpsTwo(at, Under(DecimalText(i), Diff(a[i], b[i])), ItemDiffs(a, b, n, i + 1));
        DiffChild(a[i], b[i], DecimalText(i), at);
        i := i + 1;
      }
      assert ops + [] == ops;
    }

    method DiffAppended(b: seq<Json>, from: nat, ghost at: seq<Bytes>)
      requires path == PathText(at) && from <= |b|
      modifies this
      ensures path == old(path) && ops == old(ops) + Ops(at, Appends(b, from))
    {
      var i := from;
      while i < |b|
        invariant from <= i <= |b| && path == old(path)
        invariant ops + Ops(at, Appends(b, i)) == old(ops) + Ops(at, Appends(b, from))
      {
        OpsTwo(at, [Add([DecimalText(i)], b[i])], Appends(b, i + 1));
        EmitEdit(Add([DecimalText(i)], b[i]), at);
        i := i + 1;
      }
      assert ops + [] == ops;
    }

    method DiffTruncated(n: nat, common: nat, ghost at: seq<Bytes>)
      requires path == PathText(at) && common <= n
      modifies this
      ensures path == old(path) && ops == old(ops) + Ops(at, Truncates(n, common))
    {
      var i := n;
      while i > common
        invariant common <= i <= n && path == old(path)
        invariant ops + Ops(at, Truncates(i, common)) == old(ops) + Ops(at, Truncates(n, common))
      {
        OpsTwo(at, [Remove([DecimalText(i - 1)])], Truncates(i - 1, common));
        EmitEdit(Remove([DecimalText(i - 1)]), at);
        i := i - 1;
      }
      assert ops + [] == ops;
    }
  }

  method ComputeDiff(from: Json, goal: Json) returns (patch: Json)
    ensures patch == DiffPatch(from, goal)
  {
    var d := new Differ();
    d.DiffRec(from, goal, []);
    assert At([], Diff(from, goal)) == Diff(from, goal) by {
      forall i | 0 <= i < |Diff(from, goal)| ensures At([], Diff(from, goal))[i] == Diff(from, goal)[i] {
        assert [] + Diff(from, goal)[i].path == Diff(from, goal)[i].path;
      }
    }
    patch := Arr(d.ops);
  }

  // --- Merge patch ---

  method ApplyMerge(target: Option<Json>, patch: Json) returns (r: Json)
    ensures r == Merge(target, patch)
    decreases patch
  {
    if !patch.Obj? { return patch; }
    var ms := if target != None && target.value.Obj? then target.value.members else [];
    var i := 0;
    assert patch.members[0..] == patch.members;
    while i < |patch.members|
      invariant 0 <= i <= |patch.members|
      invariant Merge(target, patch) == Obj(MergeMembers(ms, patch.members[i..]))
    {
      var p := patch.members[i];
      assert patch.members[i..][1..] == patch.members[i + 1..];
      if p.value.Null? {
        ms := DropMember(ms, p.key);
      } else {
        var cur := GetMember(ms, p.key);
        ms := DropMember(ms, p.key);
        var merged := ApplyMerge(cur, p.value);
        ms := SetMember(ms, p.key, merged);
      }
      i := i + 1;
    }
    r := Obj(ms);
  }

  method ComputeMergeDiff(from: Json, goal: Json) returns (r: Json)
    ensures r == MergeDiff(from, goal)
    decreases goal, 1
  {
    hide DiffNulls, DiffSets;
    if !from.Obj? || !goal.Obj? { return goal; }
    var out := MarkRemoved(from.members, goal.members);
    out := SetChanged(out, from.members, goal.members);
    r := Obj(out);
  }

  method MarkRemoved(f: seq<Member>, t: seq<Member>) returns (out: seq<Member>)
    ensures out == DiffNulls([], f, t)
  {
    out := [];
    var i := 0;
    assert f[0..] == f;
    while i < |f|
      invariant 0 <= i <= |f|
      invariant DiffNulls(out, f[i..], t) == DiffNulls([], f, t)
    {
      assert f[i..][1..] == f[i + 1..];
      if !HasKey(t, f[i].key) { out := SetMember(out, f[i].key, Null); }
      i := i + 1;
    }
  }

  method SetChanged(start: seq<Member>, f: seq<Member>, t: seq<Member>) returns (out: seq<Member>)
    ensures out == DiffSets(start, f, t)
    decreases t, 0
  {
    hide Equals, MergeDiff;
    out := start;
    var i := 0;
    assert t[0..] == t;
    while i < |t|
      invariant 0 <= i <= |t|
      invariant DiffSets(out, f, t[i..]) == DiffSets(start, f, t)
    {
      assert t[i..][0] == t[i] && t[i..][1..] == t[i + 1..];
      var was := GetMember(f, t[i].key);
      if was == None {
        out := SetMember(out, t[i].key, t[i].value);
      } else {
        var same := EqualsTree(was.value, t[i].value);
        if !same {
          var d := MergeDiffOrCopy(was.value, t[i].value);
          out := SetMember(out, t[i].key, d);
        }
      }
      i := i + 1;
    }
  }

  method MergeDiffOrCopy(was: Json, v: Json) returns (d: Json)
    ensures d == MergeDiff(was, v)
    decreases v, 2
  {
    if was.Obj? && v.Obj? { d := ComputeMergeDiff(was, v); } else { d := v; }
  }
}
