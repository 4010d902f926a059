/** What the selectors and filters of a query select, spelled out. */
module QueryLaws {
  import opened Bytes
  import opened Options
  import opened JsonValue
  import opened JsonOps
  import opened QuerySpec
  import SerializerRoundTrip

  // --- Selectors ---

  /** An index selects the item at its position, a negative one counts from the end; elsewhere it selects nothing. */
  lemma IndexSelects(items: seq<Json>, i: int, root: Json, less: Order)
    ensures Select(Index(i), Arr(items), root, less)
         == if 0 <= i < |items| then [items[i]] else if -|items| <= i < 0 then [items[|items| + i]] else []
  {
  }

  /** A name selects the value of the first member with that key. */
  lemma NameSelects(ms: seq<JsonValue.Member>, name: Bytes, i: nat, root: Json, less: Order)
    requires i < |ms| && ms[i].key == name && forall k :: 0 <= k < i ==> ms[k].key != name
    ensures Select(Child(name), Obj(ms), root, less) == [ms[i].value]
  {
    FirstHas(ms, name, i);
  }

  lemma {:induction false} FirstHas(ms: seq<JsonValue.Member>, name: Bytes, i: nat)
    requires i < |ms| && ms[i].key == name && forall k :: 0 <= k < i ==> ms[k].key != name
    ensures GetMember(ms, name) == Some(ms[i].value)
  {
    assert FindKey(ms, name) == i;
  }

  /** Where there is no such member or item, nothing is selected. */
  lemma NothingSelected(v: Json, name: Bytes, i: int, root: Json, less: Order)
    ensures !v.Arr? ==> Select(Index(i), v, root, less) == [] && Select(Slice(None, None, 1), v, root, less) == []
    ensures !v.Obj? ==> Select(Child(name), v, root, less) == []
    ensures v.Obj? && (forall k :: 0 <= k < |v.members| ==> v.members[k].key != name) ==>
              Select(Child(name), v, root, less) == []
    ensures !v.Arr? && !v.Obj? ==> Select(Wildcard, v, root, less) == []
  {
  }

  /** A wildcard selects every item or member value, in order. */
  lemma WildcardSelects(v: Json, root: Json, less: Order)
    ensures v.Arr? ==> Select(Wildcard, v, root, less) == v.items
    ensures v.Obj? ==>
              var r := Select(Wildcard, v, root, less);
              |r| == |v.members| && forall i :: 0 <= i < |r| ==> r[i] == v.members[i].value
  {
  }

  /** A union is its selectors one after the other. */
  lemma UnionSelects(a: seq<Selector>, s: Selector, v: Json, root: Json, less: Order)
    ensures Select(Union([]), v, root, less) == []
    ensures Select(Union([s] + a), v, root, less)
         == Select(if s.Name? then Child(s.name) else Index(s.index), v, root, less) + Select(Union(a), v, root, less)
  {
    assert ([s] + a)[1..] == a;
  }

  /** A descendant segment meets a node first, then the subtrees of its children in the order of the wildcard. */
  lemma PreorderIs(v: Json, root: Json, less: Order)
    ensures Preorder(v) == [v] + PreorderItems(Select(Wildcard, v, root, less))
  {
    if v.Obj? { ValuesPreorder(v.members); }
  }

  lemma {:induction false} ValuesPreorder(ms: seq<JsonValue.Member>)
    ensures PreorderMembers(ms) == PreorderItems(Values(ms))
  {
    if ms != [] {
      ValuesPreorder(ms[1..]);
      assert Values(ms)[1..] == Values(ms[1..]);
    }
  }

  // --- Filters ---

  /** A filter goes over the children one by one, in order, and keeps exactly those for which it holds. */
  lemma {:induction false} FilterKeeps(f: Filter, a: seq<Json>, v: Json, b: seq<Json>, root: Json, less: Order)
    ensures Matching(f, [], root, less) == []
    ensures Matching(f, a + [v] + b, root, less)
         == Matching(f, a, root, less) + (if Holds(f, v, root, less) then [v] else []) + Matching(f, b, root, less)
    decreases |a|
  {
    hide Holds;
    if a == [] {
      assert a + [v] + b == [v] + b && ([v] + b)[1..] == b;
    } else {
      assert (a + [v] + b)[0] == a[0] && (a + [v] + b)[1..] == a[1..] + [v] + b;
      FilterKeeps(f, a[1..], v, b, root, less);
    }
  }

  lemma FilterSelects(f: Filter, v: Json, root: Json, less: Order)
    ensures Select(Filtered(f), v, root, less) == Matching(f, Select(Wildcard, v, root, less), root, less)
  {
  }

  /** The connectives of filters are those of logic; a value exists for a filter if it is there and not false. */
  lemma FilterLogic(a: Filter, b: Filter, o: Operand, cur: Json, root: Json, less: Order)
    ensures Holds(Or(a, b), cur, root, less) <==> Holds(a, cur, root, less) || Holds(b, cur, root, less)
    ensures Holds(And(a, b), cur, root, less) <==> Holds(a, cur, root, less) && Holds(b, cur, root, less)
    ensures Holds(Not(a), cur, root, less) <==> !Holds(a, cur, root, less)
    ensures Holds(Exists(o), cur, root, less)
            <==> OperandValue(o, cur, root).Some? && OperandValue(o, cur, root) != Some(Bool(false))
  {
  }

  /** A path in a filter is followed from the child or from the root, one selector after the other. */
  lemma PathFollowed(path: seq<Selector>, s: Selector, v: Json, cur: Json, root: Json, less: Order)
    ensures OperandValue(Literal(v), cur, root) == Some(v)
    ensures OperandValue(Current([]), cur, root) == Some(cur) && OperandValue(Root([]), cur, root) == Some(root)
    ensures var first := Select(if s.Name? then Child(s.name) else Index(s.index), cur, root, less);
            OperandValue(Current([s] + path), cur, root)
            == if first == [] then None else OperandValue(Current(path), first[0], root)
    ensures OperandValue(Root(path), cur, root) == OperandValue(Current(path), root, root)
  {
    assert ([s] + path)[1..] == path && ([s] + path)[0] == s;
    assert OperandValue(Current([s] + path), cur, root) == Resolve(Pick(cur, s), path);
    hide Pick;
    if Pick(cur, s).None? { assert Resolve(None, path) == None; }
  }

  function Comparison(op: CompareOp, a: Json, b: Json): Filter { Compare(op, Literal(a), Literal(b)) }

  /** Numbers compare by their order. */
  lemma NumbersCompare(x: Number, y: Number, cur: Json, root: Json, less: Order)
    requires (less(x, y) && !less(y, x) && x != y) || (!less(x, y) && less(y, x) && x != y) || (!less(x, y) && !less(y, x) && x == y)
    ensures Holds(Comparison(Eq, Num(x), Num(y)), cur, root, less) <==> x == y
    ensures Holds(Comparison(Ne, Num(x), Num(y)), cur, root, less) <==> x != y
    ensures Holds(Comparison(Lt, Num(x), Num(y)), cur, root, less) <==> less(x, y)
    ensures Holds(Comparison(Le, Num(x), Num(y)), cur, root, less) <==> !less(y, x)
    ensures Holds(Comparison(Gt, Num(x), Num(y)), cur, root, less) <==> less(y, x)
    ensures Holds(Comparison(Ge, Num(x), Num(y)), cur, root, less) <==> !less(x, y)
  {
  }

  /** Strings compare byte by byte. */
  lemma StringsCompare(x: Bytes, y: Bytes, cur: Json, root: Json, less: Order)
    ensures Holds(Comparison(Eq, Str(x), Str(y)), cur, root, less) <==> x == y
    ensures Holds(Comparison(Ne, Str(x), Str(y)), cur, root, less) <==> x != y
    ensures Holds(Comparison(Lt, Str(x), Str(y)), cur, root, less) <==> SerializerRoundTrip.Precedes(x, y)
    ensures Holds(Comparison(Le, Str(x), Str(y)), cur, root, less) <==> x == y || SerializerRoundTrip.Precedes(x, y)
    ensures Holds(Comparison(Gt, Str(x), Str(y)), cur, root, less) <==> SerializerRoundTrip.Precedes(y, x)
    ensures Holds(Comparison(Ge, Str(x), Str(y)), cur, root, less) <==> x == y || SerializerRoundTrip.Precedes(y, x)
  {
    SerializerRoundTrip.KeyLessIsPrecedes(x, y);
    SerializerRoundTrip.KeyLessIsPrecedes(y, x);
    SerializerRoundTrip.KeyLessTotal(x, y);
    SerializerRoundTrip.KeyLessTotal(y, x);
    if x == y { SerializerRoundTrip.KeyLessIrreflexive(x); } else { SerializerRoundTrip.KeyLessAsymmetric(x, y); }
  }

  /** Other values are equal or not, and never less or greater; a missing value differs from every value there is. */
  lemma OthersCompare(op: CompareOp, a: Json, b: Json, cur: Json, root: Json, less: Order)
    requires !(a.Num? && b.Num?) && !(a.Str? && b.Str?)
    ensures Holds(Comparison(op, a, b), cur, root, less) <==> (op.Eq? && Equals(a, b)) || (op.Ne? && !Equals(a, b))
  {
    hide Equals;
  }

  lemma MissingCompares(op: CompareOp, l: Operand, r: Operand, cur: Json, root: Json, less: Order)
    requires OperandValue(l, cur, root).None? || OperandValue(r, cur, root).None?
    ensures Holds(Compare(op, l, r), cur, root, less)
            <==> op.Ne? && (OperandValue(l, cur, root).Some? || OperandValue(r, cur, root).Some?)
  {
    hide OperandValue;
  }

  /** A query without segments gives the root; each segment goes over the nodes of the one before. */
  lemma QueryUnfolds(q: QuerySegment, qs: seq<QuerySegment>, v: Json, root: Json, less: Order)
    ensures Denote([], [v], root, less) == [v]
    ensures Denote([q] + qs, [v], root, less)
         == Denote(qs, if q.recursive then SelectAll(q.seg, Preorder(v), root, less) else Select(q.seg, v, root, less),
                   root, less)
  {
    hide Select, Preorder, SelectAll;
    assert ([q] + qs)[1..] == qs && [v][1..] == [];
    assert AppliedAll(q, [v], root, less) == Applied(q, v, root, less) + AppliedAll(q, [], root, less);
    assert Applied(q, v, root, less) + [] == Applied(q, v, root, less);
  }
}
