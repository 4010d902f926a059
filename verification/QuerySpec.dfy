/** JSONPath queries: what each segment selects, and what a whole query denotes. */
module QuerySpec {
  import opened Bytes
  import opened Options
  import opened JsonValue
  import opened JsonOps
  import SerializerSpec

  // --- Compiled queries ---

  /** A member name or an array index. */
  datatype Selector = Name(name: Bytes) | Position(index: int)

  datatype Operand = Literal(value: Json) | Current(path: seq<Selector>) | Root(path: seq<Selector>)

  datatype CompareOp = Eq | Ne | Lt | Le | Gt | Ge

  datatype Filter =
    | Or(a: Filter, b: Filter)
    | And(a: Filter, b: Filter)
    | Not(a: Filter)
    | Exists(operand: Operand)
    | Compare(op: CompareOp, lhs: Operand, rhs: Operand)

  datatype Segment =
    | Child(name: Bytes)
    | Index(index: int)
    | Slice(start: Option<int>, end: Option<int>, step: int)
    | Wildcard
    | Filtered(filter: Filter)
    | Union(items: seq<Selector>)

  /** `recursive` marks a descendant segment. */
  datatype QuerySegment = QuerySegment(seg: Segment, recursive: bool)

  /** The strict order of doubles is a parameter. */
  type Order = (Number, Number) -> bool

  // --- Selecting one node ---

  function Member(node: Json, name: Bytes): Option<Json>
  {
    if node.Obj? then GetMember(node.members, name) else None
  }

  /** A negative index counts from the end. */
  function Item(node: Json, index: int): Option<Json>
  {
    if !node.Arr? then None
    else
      var i := if index < 0 then index + |node.items| else index;
      if 0 <= i < |node.items| then Some(node.items[i]) else None
  }

  function Pick(node: Json, s: Selector): Option<Json>
  {
    match s
    case Name(name) => Member(node, name)
    case Position(i) => Item(node, i)
  }

  function Resolve(base: Option<Json>, path: seq<Selector>): Option<Json>
    decreases |path|
  {
    if path == [] || base.None? then base else Resolve(Pick(base.value, path[0]), path[1..])
  }

  function OperandValue(o: Operand, cur: Json, root: Json): Option<Json>
  {
    match o
    case Literal(v) => Some(v)
    case Current(path) => Resolve(Some(cur), path)
    case Root(path) => Resolve(Some(root), path)
  }

  function Ordered(op: CompareOp, less: bool, equal: bool): bool
  {
    match op
    case Eq => equal
    case Ne => !equal
    case Lt => less
    case Le => less || equal
    case Gt => !less && !equal
    case Ge => !less
  }

  predicate Compares(op: CompareOp, a: Option<Json>, b: Option<Json>, less: Order)
  {
    if a.None? || b.None? then op.Ne? && !(a.None? && b.None?)
    else if a.value.Num? && b.value.Num? then
      Ordered(op, less(a.value.n, b.value.n), a.value.n == b.value.n)
    else if a.value.Str? && b.value.Str? then
      Ordered(op, SerializerSpec.KeyLess(a.value.s, b.value.s), a.value.s == b.value.s)
    else match op
      case Eq => Equals(a.value, b.value)
      case Ne => !Equals(a.value, b.value)
      case _ => false
  }

  predicate Holds(f: Filter, cur: Json, root: Json, less: Order)
  {
    match f
    case Or(a, b) => Holds(a, cur, root, less) || Holds(b, cur, root, less)
    case And(a, b) => Holds(a, cur, root, less) && Holds(b, cur, root, less)
    case Not(a) => !Holds(a, cur, root, less)
    case Exists(o) =>
      var v := OperandValue(o, cur, root);
      v.Some? && v.value != Bool(false)
    case Compare(op, l, r) => Compares(op, OperandValue(l, cur, root), OperandValue(r, cur, root), less)
  }

  // --- Slices, as section 2.3.4.2.2 of RFC 9535 defines them ---

  function Max(a: int, b: int): int { if a > b then a else b }

  function Min(a: int, b: int): int { if a < b then a else b }

  function Normalize(i: int, len: nat): int { if i >= 0 then i else len + i }

  function Lower(s: Option<int>, e: Option<int>, step: int, len: nat): int
  {
    if step >= 0 then Min(Max(Normalize(if s.Some? then s.value else 0, len), 0), len)
    else Min(Max(Normalize(if e.Some? then e.value else -(len as int) - 1, len), -1), len - 1)
  }

  function Upper(s: Option<int>, e: Option<int>, step: int, len: nat): int
  {
    if step >= 0 then Min(Max(Normalize(if e.Some? then e.value else len, len), 0), len)
    else Min(Max(Normalize(if s.Some? then s.value else len - 1, len), -1), len - 1)
  }

  /** i, i + step, ... below the upper bound. */
  function Ascending(i: int, upper: int, step: int): seq<int>
    requires step > 0
    decreases upper - i
  {
    if i < upper then [i] + Ascending(i + step, upper, step) else []
  }

  /** i, i + step, ... above the lower bound, for a negative step. */
  function Descending(i: int, lower: int, step: int): seq<int>
    requires step < 0
    decreases i - lower
  {
    if i > lower then [i] + Descending(i + step, lower, step) else []
  }

  function SliceIndices(s: Option<int>, e: Option<int>, step: int, len: nat): seq<int>
  {
    if step > 0 then Ascending(Lower(s, e, step, len), Upper(s, e, step, len), step)
    else if step < 0 then Descending(Upper(s, e, step, len), Lower(s, e, step, len), step)
    else []
  }

  /** The items at these positions; positions outside the array select nothing. */
  function ItemsAt(items: seq<Json>, indices: seq<int>): seq<Json>
    decreases |indices|
  {
    if indices == [] then []
    else (if 0 <= indices[0] < |items| then [items[indices[0]]] else []) + ItemsAt(items, indices[1..])
  }

  // --- Segments ---

  function Opt(v: Option<Json>): seq<Json> { if v.Some? then [v.value] else [] }

  function Children(node: Json): seq<Json>
  {
    match node
    case Arr(items) => items
    case Obj(ms) => Values(ms)
    case _ => []
  }

  function Values(ms: seq<JsonValue.Member>): (r: seq<Json>)
    ensures |r| == |ms| && forall i :: 0 <= i < |ms| ==> r[i] == ms[i].value
  {
    if ms == [] then [] else [ms[0].value] + Values(ms[1..])
  }

  function Matching(f: Filter, nodes: seq<Json>, root: Json, less: Order): seq<Json>
    decreases |nodes|
  {
    if nodes == [] then []
    else (if Holds(f, nodes[0], root, less) then [nodes[0]] else []) + Matching(f, nodes[1..], root, less)
  }

  function PickAll(node: Json, items: seq<Selector>): seq<Json>
    decreases |items|
  {
    if items == [] then [] else Opt(Pick(node, items[0])) + PickAll(node, items[1..])
  }

  /** What a segment selects from one node, in order. */
  function Select(s: Segment, node: Json, root: Json, less: Order): seq<Json>
  {
    match s
    case Child(name) => Opt(Member(node, name))
    case Index(i) => Opt(Item(node, i))
    case Wildcard => Children(node)
    case Slice(b, e, step) => if node.Arr? then ItemsAt(node.items, SliceIndices(b, e, step, |node.items|)) else []
    case Filtered(f) => Matching(f, Children(node), root, less)
    case Union(items) => PickAll(node, items)
  }

  /** A node and all its descendants, parents before children, children in order. */
  function Preorder(node: Json): seq<Json>
    decreases node, 1
  {
    match node
    case Arr(items) => [node] + PreorderItems(items)
    case Obj(ms) => [node] + PreorderMembers(ms)
    case _ => [node]
  }

  function PreorderItems(items: seq<Json>): seq<Json>
    decreases items, 0
  {
    if items == [] then [] else Preorder(items[0]) + PreorderItems(items[1..])
  }

  function PreorderMembers(ms: seq<JsonValue.Member>): seq<Json>
    decreases ms, 0
  {
    if ms == [] then [] else Preorder(ms[0].value) + PreorderMembers(ms[1..])
  }

  /** The segment over every node of the list, the results one after the other. */
  function SelectAll(s: Segment, nodes: seq<Json>, root: Json, less: Order): seq<Json>
    decreases |nodes|
  {
    if nodes == [] then [] else Select(s, nodes[0], root, less) + SelectAll(s, nodes[1..], root, less)
  }

  /** A descendant segment selects from every node of the preorder. */
  function Applied(q: QuerySegment, node: Json, root: Json, less: Order): seq<Json>
  {
    if q.recursive then SelectAll(q.seg, Preorder(node), root, less) else Select(q.seg, node, root, less)
  }

  function AppliedAll(q: QuerySegment, nodes: seq<Json>, root: Json, less: Order): seq<Json>
    decreases |nodes|
  {
    if nodes == [] then [] else Applied(q, nodes[0], root, less) + AppliedAll(q, nodes[1..], root, less)
  }

  /** The left fold of the segments over the node list. */
  function Denote(qs: seq<QuerySegment>, nodes: seq<Json>, root: Json, less: Order): seq<Json>
    decreases |qs|
  {
    if qs == [] then nodes else Denote(qs[1..], AppliedAll(qs[0], nodes, root, less), root, less)
  }

  // --- Laws ---

  /** A slice with a positive step selects exactly the positions in the bounds at multiples of the step. */
  lemma {:induction false} AscendingExact(i: int, upper: int, step: int, k: int)
    requires step > 0
    ensures k in Ascending(i, upper, step) <==> i <= k < upper && (k - i) % step == 0
    decreases upper - i
  {
    if i < upper {
      AscendingExact(i + step, upper, step, k);
      var r := Ascending(i + step, upper, step);
      assert Ascending(i, upper, step) == [i] + r;
      assert k in Ascending(i, upper, step) <==> k == i || k in r;
      StepBack(k - i, step);
      if i <= k < i + step { SmallMultiple(k - i, step); }
    }
  }

  lemma StepBack(d: int, step: int)
    requires step > 0
    ensures (d - step) % step == d % step
  {
    var q, r := d / step, d % step;
    assert d - step == (q - 1) * step + r;
    Unique(d - step, q - 1, r, step);
  }

  lemma Unique(x: int, q: int, r: int, step: int)
    requires step > 0 && x == q * step + r && 0 <= r < step
    ensures x % step == r
  {
    var d := x / step - q;
    assert x == x / step * step + x % step;
    assert d * step == r - x % step;
    Multiple(d, step);
  }

  lemma Multiple(d: int, step: int)
    requires step > 0
    ensures d >= 1 ==> d * step >= step
    ensures d <= -1 ==> d * step <= -step
  {
  }

  lemma SmallMultiple(d: int, step: int)
    requires 0 <= d < step
    ensures d % step == 0 <==> d == 0
  {
    Unique(d, 0, d, step);
  }

  /** With a negative step the positions come down from the upper bound. */
  lemma {:induction false} DescendingExact(i: int, lower: int, step: int, k: int)
    requires step < 0
    ensures k in Descending(i, lower, step) <==> lower < k <= i && (i - k) % -step == 0
    decreases i - lower
  {
    if i > lower {
      DescendingExact(i + step, lower, step, k);
      var r := Descending(i + step, lower, step);
      assert Descending(i, lower, step) == [i] + r;
      assert k in Descending(i, lower, step) <==> k == i || k in r;
      StepBack(i - k, -step);
      if i + step < k <= i { SmallMultiple(i - k, -step); }
    }
  }

  /** Every selected position is inside the array. */
  lemma SliceInBounds(s: Option<int>, e: Option<int>, step: int, len: nat, k: int)
    requires k in SliceIndices(s, e, step, len)
    ensures 0 <= k < len
  {
    if step > 0 {
      AscendingExact(Lower(s, e, step, len), Upper(s, e, step, len), step, k);
    } else {
      DescendingExact(Upper(s, e, step, len), Lower(s, e, step, len), step, k);
    }
  }

  lemma {:induction false} AppliedAllAppends(q: QuerySegment, a: seq<Json>, b: seq<Json>, root: Json, less: Order)
    ensures AppliedAll(q, a + b, root, less) == AppliedAll(q, a, root, less) + AppliedAll(q, b, root, less)
    decreases |a|
  {
    hide Applied;
    if a == [] {
      assert a + b == b;
    } else {
      AppliedAllAppends(q, a[1..], b, root, less);
      assert (a + b)[1..] == a[1..] + b;
    }
  }

  /** A query over two lists gives the results over the first, then those over the second. */
  lemma {:induction false} DenoteAppends(qs: seq<QuerySegment>, a: seq<Json>, b: seq<Json>, root: Json, less: Order)
    ensures Denote(qs, a + b, root, less) == Denote(qs, a, root, less) + Denote(qs, b, root, less)
    decreases |qs|
  {
    hide AppliedAll;
    if qs != [] {
      AppliedAllAppends(qs[0], a, b, root, less);
      DenoteAppends(qs[1..], AppliedAll(qs[0], a, root, less), AppliedAll(qs[0], b, root, less), root, less);
    }
  }

  lemma {:induction false} SelectAllAppends(s: Segment, a: seq<Json>, b: seq<Json>, root: Json, less: Order)
    ensures SelectAll(s, a + b, root, less) == SelectAll(s, a, root, less) + SelectAll(s, b, root, less)
    decreases |a|
  {
    hide Select;
    if a == [] {
      assert a + b == b;
    } else {
      SelectAllAppends(s, a[1..], b, root, less);
      assert (a + b)[1..] == a[1..] + b;
    }
  }
}
