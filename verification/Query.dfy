/** Query execution in its own form: node lists that grow, two of them swapped after every segment. */
module Query {
  import opened Options
  import opened JsonValue
  import opened QuerySpec

  class NodeList {
    var items: array<Json>
    var count: nat

    ghost predicate Valid()
      reads this
    {
      count <= items.Length
    }

    ghost function Nodes(): seq<Json>
      requires Valid()
      reads this, items
    {
      items[..count]
    }

    constructor ()
      ensures Valid() && Nodes() == [] && fresh(items)
    {
      items := new Json[0];
      count := 0;
    }

    method Push(v: Json)
      requires Valid()
      modifies this, items
      ensures Valid() && Nodes() == old(Nodes()) + [v] && (items == old(items) || fresh(items))
    {
      if count == items.Length {
        var grown, from := new Json[if items.Length > 0 then items.Length * 2 else 16](_ => Null), items;
        var i := 0;
        while i < count
          invariant 0 <= i <= count <= grown.Length && items == from && count == from.Length == old(count)
          invariant from[..] == old(items[..]) && grown[..i] == from[..i]
        {
          grown[i] := from[i];
          i := i + 1;
        }
        items := grown;
      }
      items[count] := v;
      count := count + 1;
    }

    method PushIfSome(v: Option<Json>)
      requires Valid()
      modifies this, items
      ensures Valid() && Nodes() == old(Nodes()) + Opt(v) && (items == old(items) || fresh(items))
    {
      if v.Some? { Push(v.value); } else { NoMore(Nodes()); }
    }

    static lemma NoMore(a: seq<Json>)
      ensures a + [] == a
    {
    }

    method Clear()
      requires Valid()
      modifies this`count
      ensures Valid() && Nodes() == []
    {
      count := 0;
    }
  }

  class Evaluator {
    const root: Json
    const less: Order

    constructor (root: Json, less: Order)
      ensures this.root == root && this.less == less
    {
      this.root, this.less := root, less;
    }

    method PushChildren(node: Json, out: NodeList)
      requires out.Valid()
      modifies out, out.items
      ensures out.Valid() && out.Nodes() == old(out.Nodes()) + Children(node)
      ensures out.items == old(out.items) || fresh(out.items)
    {
      var cs := Children(node);
      var i := 0;
      while i < |cs|
        invariant 0 <= i <= |cs| && out.Valid() && (out.items == old(out.items) || fresh(out.items))
        invariant out.Nodes() == old(out.Nodes()) + cs[..i]
      {
        out.Push(cs[i]);
        assert cs[..i + 1] == cs[..i] + [cs[i]];
        i := i + 1;
      }
      assert cs[..i] == cs;
    }

    /** The slice as the source bounds it: only the two clamps that its loop needs. */
    method ApplySlice(items: seq<Json>, s: Option<int>, e: Option<int>, step: int, out: NodeList)
      requires out.Valid()
      modifies out, out.items
      ensures out.Valid() && out.Nodes() == old(out.Nodes()) + ItemsAt(items, SliceIndices(s, e, step, |items|))
      ensures out.items == old(out.items) || fresh(out.items)
    {
      if step == 0 {
        NodeList.NoMore(out.Nodes());
        return;
      }
      hide *;
      var n: int := |items|;
      var first := if s.Some? then s.value else if step > 0 then 0 else n - 1;
      var last := if e.Some? then e.value else if step > 0 then n else -n - 1;
      var start, end := first, last;
      if start < 0 { start := start + n; }
      if end < 0 { end := end + n; }
      if step > 0 {
        if start < 0 { start := 0; }
        if end > n { end := n; }
        BoundsUp(s, e, step, n, start, end);
        PushUp(items, start, end, step, out);
      } else {
        if start >= n { start := n - 1; }
        if end < -1 { end := -1; }
        BoundsDown(s, e, step, n, start, end);
        PushDown(items, start, end, step, out);
      }
    }

    static lemma BoundsUp(s: Option<int>, e: Option<int>, step: int, n: nat, start: int, end: int)
      requires step > 0
      requires var a := if s.Some? then s.value else 0; var b := if a < 0 then a + n else a;
               start == if b < 0 then 0 else b
      requires var a := if e.Some? then e.value else n; var b := if a < 0 then a + n else a;
               end == if b > n then n else b
      ensures SliceIndices(s, e, step, n) == Ascending(start, end, step)
    {
      ClampUp(start, end, step, n);
      hide Ascending;
    }

    static lemma BoundsDown(s: Option<int>, e: Option<int>, step: int, n: nat, start: int, end: int)
      requires step < 0
      requires var a := if s.Some? then s.value else n - 1; var b := if a < 0 then a + n else a;
               start == if b >= n then n - 1 else b
      requires var a := if e.Some? then e.value else -(n as int) - 1; var b := if a < 0 then a + n else a;
               end == if b < -1 then -1 else b
      ensures SliceIndices(s, e, step, n) == Descending(start, end, step)
    {
      ClampDown(start, end, step, n);
      hide Descending;
    }

    method PushUp(items: seq<Json>, start: int, end: int, step: int, out: NodeList)
      requires out.Valid() && step > 0 && start >= 0 && end <= |items|
      modifies out, out.items
      ensures out.Valid() && out.Nodes() == old(out.Nodes()) + ItemsAt(items, Ascending(start, end, step))
      ensures out.items == old(out.items) || fresh(out.items)
    {
      hide Ascending, ItemsAt;
      var i := start;
      while i < end
        invariant start <= i && out.Valid() && (out.items == old(out.items) || fresh(out.items))
        invariant out.Nodes() + ItemsAt(items, Ascending(i, end, step))
               == old(out.Nodes()) + ItemsAt(items, Ascending(start, end, step))
        decreases end - i
      {
        NextUp(items, i, end, step);
        Splits(out.Nodes(), items[i], ItemsAt(items, Ascending(i + step, end, step)));
        out.Push(items[i]);
        i := i + step;
      }
      NoneUp(items, i, end, step);
      NodeList.NoMore(out.Nodes());
    }

    method PushDown(items: seq<Json>, start: int, end: int, step: int, out: NodeList)
      requires out.Valid() && step < 0 && start < |items| && end >= -1
      modifies out, out.items
      ensures out.Valid() && out.Nodes() == old(out.Nodes()) + ItemsAt(items, Descending(start, end, step))
      ensures out.items == old(out.items) || fresh(out.items)
    {
      hide Descending, ItemsAt;
      var i := start;
      while i > end
        invariant i <= start && out.Valid() && (out.items == old(out.items) || fresh(out.items))
        invariant out.Nodes() + ItemsAt(items, Descending(i, end, step))
               == old(out.Nodes()) + ItemsAt(items, Descending(start, end, step))
        decreases i - end
      {
        NextDown(items, i, end, step);
        Splits(out.Nodes(), items[i], ItemsAt(items, Descending(i + step, end, step)));
        out.Push(items[i]);
        i := i + step;
      }
      NoneDown(items, i, end, step);
      NodeList.NoMore(out.Nodes());
    }

    static lemma Splits(a: seq<Json>, v: Json, rest: seq<Json>)
      ensures a + ([v] + rest) == a + [v] + rest
    {
    }

    /** Clamping the start from below and the end from above is enough. */
    static lemma ClampUp(start: int, end: int, step: int, n: int)
      requires step > 0 && n >= 0 && start >= 0 && end <= n
      ensures Ascending(start, end, step) == Ascending(Min(start, n), Max(end, 0), step)
    {
    }

    static lemma ClampDown(start: int, end: int, step: int, n: int)
      requires step < 0 && n >= 0 && start < n && end >= -1
      ensures Descending(start, end, step) == Descending(Max(start, -1), Min(end, n - 1), step)
    {
    }

    static lemma NextUp(items: seq<Json>, i: int, end: int, step: int)
      requires step > 0 && 0 <= i < end <= |items|
      ensures ItemsAt(items, Ascending(i, end, step)) == [items[i]] + ItemsAt(items, Ascending(i + step, end, step))
    {
    }

    static lemma NoneUp(items: seq<Json>, i: int, end: int, step: int)
      requires step > 0 && i >= end
      ensures ItemsAt(items, Ascending(i, end, step)) == []
    {
    }

    static lemma NextDown(items: seq<Json>, i: int, end: int, step: int)
      requires step < 0 && -1 <= end < i < |items|
      ensures ItemsAt(items, Descending(i, end, step)) == [items[i]] + ItemsAt(items, Descending(i + step, end, step))
    {
    }

    static lemma NoneDown(items: seq<Json>, i: int, end: int, step: int)
      requires step < 0 && i <= end
      ensures ItemsAt(items, Descending(i, end, step)) == []
    {
    }

    method PushMatching(f: Filter, nodes: seq<Json>, out: NodeList)
      requires out.Valid()
      modifies out, out.items
      ensures out.Valid() && out.Nodes() == old(out.Nodes()) + Matching(f, nodes, root, less)
      ensures out.items == old(out.items) || fresh(out.items)
    {
      hide Holds;
      var i := 0;
      assert nodes[0..] == nodes;
      while i < |nodes|
        invariant 0 <= i <= |nodes| && out.Valid() && (out.items == old(out.items) || fresh(out.items))
        invariant out.Nodes() + Matching(f, nodes[i..], root, less) == old(out.Nodes()) + Matching(f, nodes, root, less)
      {
        assert nodes[i..][1..] == nodes[i + 1..] && nodes[i..][0] == nodes[i];
        ghost var rest := Matching(f, nodes[i + 1..], root, less);
        assert [] + rest == rest;
        if Holds(f, nodes[i], root, less) {
          Splits(out.Nodes(), nodes[i], rest);
          out.Push(nodes[i]);
        }
        i := i + 1;
      }
      NodeList.NoMore(out.Nodes());
    }

    method PushUnion(node: Json, items: seq<Selector>, out: NodeList)
      requires out.Valid()
      modifies out, out.items
      ensures out.Valid() && out.Nodes() == old(out.Nodes()) + PickAll(node, items)
      ensures out.items == old(out.items) || fresh(out.items)
    {
      hide Pick;
      var i := 0;
      assert items[0..] == items;
      while i < |items|
        invariant 0 <= i <= |items| && out.Valid() && (out.items == old(out.items) || fresh(out.items))
        invariant out.Nodes() + PickAll(node, items[i..]) == old(out.Nodes()) + PickAll(node, items)
      {
        assert items[i..][1..] == items[i + 1..] && items[i..][0] == items[i];
        SplitsOpt(out.Nodes(), Opt(Pick(node, items[i])), PickAll(node, items[i + 1..]));
        out.PushIfSome(Pick(node, items[i]));
        i := i + 1;
      }
      NodeList.NoMore(out.Nodes());
    }

    static lemma SplitsOpt(a: seq<Json>, b: seq<Json>, c: seq<Json>)
      ensures a + (b + c) == a + b + c
    {
    }

    method ApplySegment(s: Segment, node: Json, out: NodeList)
      requires out.Valid()
      modifies out, out.items
      ensures out.Valid() && out.Nodes() == old(out.Nodes()) + Select(s, node, root, less)
      ensures out.items == old(out.items) || fresh(out.items)
    {
      hide QuerySpec.Member, Item, Children, Matching, PickAll, ItemsAt, SliceIndices;
      match s {
        case Child(name) => out.PushIfSome(QuerySpec.Member(node, name));
        case Index(i) => out.PushIfSome(Item(node, i));
        case Wildcard => PushChildren(node, out);
        case Slice(b, e, step) =>
          if node.Arr? { ApplySlice(node.items, b, e, step, out); } else { NodeList.NoMore(out.Nodes()); }
        case Filtered(f) => PushMatching(f, Children(node), out);
        case Union(items) => PushUnion(node, items, out);
      }
    }

    /** The segment on the node, then on its children, and so on down. */
    method ApplyRecursive(s: Segment, node: Json, out: NodeList)
      requires out.Valid()
      modifies out, out.items
      ensures out.Valid() && out.Nodes() == old(out.Nodes()) + SelectAll(s, Preorder(node), root, less)
      ensures out.items == old(out.items) || fresh(out.items)
      decreases node, 1
    {
      hide Select, SelectAll, PreorderItems, PreorderMembers;
      ghost var first := Select(s, node, root, less);
      OneNode(s, node, root, less);
      ApplySegment(s, node, out);
      match node {
        case Arr(items) =>
          RecurseItems(s, items, out);
          SelectAllAppends(s, [node], PreorderItems(items), root, less);
          SplitsOpt(old(out.Nodes()), first, SelectAll(s, PreorderItems(items), root, less));
        case Obj(ms) =>
          RecurseMembers(s, ms, out);
          SelectAllAppends(s, [node], PreorderMembers(ms), root, less);
          SplitsOpt(old(out.Nodes()), first, SelectAll(s, PreorderMembers(ms), root, less));
        case _ =>
      }
    }

    static lemma OneNode(s: Segment, node: Json, root: Json, less: Order)
      ensures SelectAll(s, [node], root, less) == Select(s, node, root, less)
    {
      hide Select;
      assert [node][1..] == [];
    }

    method RecurseItems(s: Segment, items: seq<Json>, out: NodeList)
      requires out.Valid()
      modifies out, out.items
      ensures out.Valid() && out.Nodes() == old(out.Nodes()) + SelectAll(s, PreorderItems(items), root, less)
      ensures out.items == old(out.items) || fresh(out.items)
      decreases items, 0
    {
      hide SelectAll, Preorder;
      var i := 0;
      assert items[0..] == items;
      while i < |items|
        invariant 0 <= i <= |items| && out.Valid() && (out.items == old(out.items) || fresh(out.items))
        invariant out.Nodes() + SelectAll(s, PreorderItems(items[i..]), root, less)
               == old(out.Nodes()) + SelectAll(s, PreorderItems(items), root, less)
      {
        assert items[i..][1..] == items[i + 1..] && items[i..][0] == items[i];
        var rest := PreorderItems(items[i + 1..]);
        SelectAllAppends(s, Preorder(items[i]), rest, root, less);
        SplitsOpt(out.Nodes(), SelectAll(s, Preorder(items[i]), root, less), SelectAll(s, rest, root, less));
        ApplyRecursive(s, items[i], out);
        i := i + 1;
      }
      NoNodes(s, root, less);
      NodeList.NoMore(out.Nodes());
    }

    static lemma NoNodes(s: Segment, root: Json, less: Order)
      ensures SelectAll(s, [], root, less) == []
    {
    }

    method RecurseMembers(s: Segment, ms: seq<JsonValue.Member>, out: NodeList)
      requires out.Valid()
      modifies out, out.items
      ensures out.Valid() && out.Nodes() == old(out.Nodes()) + SelectAll(s, PreorderMembers(ms), root, less)
      ensures out.items == old(out.items) || fresh(out.items)
      decreases ms, 0
    {
      hide SelectAll, Preorder;
      var i := 0;
      assert ms[0..] == ms;
      while i < |ms|
        invariant 0 <= i <= |ms| && out.Valid() && (out.items == old(out.items) || fresh(out.items))
        invariant out.Nodes() + SelectAll(s, PreorderMembers(ms[i..]), root, less)
               == old(out.Nodes()) + SelectAll(s, PreorderMembers(ms), root, less)
      {
        assert ms[i..][1..] == ms[i + 1..] && ms[i..][0] == ms[i];
        var rest := PreorderMembers(ms[i + 1..]);
        SelectAllAppends(s, Preorder(ms[i].value), rest, root, less);
        SplitsOpt(out.Nodes(), SelectAll(s, Preorder(ms[i].value), root, less), SelectAll(s, rest, root, less));
        ApplyRecursive(s, ms[i].value, out);
        i := i + 1;
      }
      NoNodes(s, root, less);
      NodeList.NoMore(out.Nodes());
    }

    method Apply(q: QuerySegment, node: Json, out: NodeList)
      requires out.Valid()
      modifies out, out.items
      ensures out.Valid() && out.Nodes() == old(out.Nodes()) + Applied(q, node, root, less)
      ensures out.items == old(out.items) || fresh(out.items)
    {
      hide Select, SelectAll, Preorder;
      if q.recursive { ApplyRecursive(q.seg, node, out); } else { ApplySegment(q.seg, node, out); }
    }

    /** One segment over the whole current list, into the other list. */
    method ApplyToAll(q: QuerySegment, cur: NodeList, next: NodeList)
      requires cur.Valid() && next.Valid() && cur != next && cur.items != next.items
      modifies next, next.items
      ensures cur.Valid() && next.Valid() && next.Nodes() == AppliedAll(q, old(cur.Nodes()), root, less)
      ensures next.items == old(next.items) || fresh(next.items)
    {
      hide Applied;
      next.Clear();
      ghost var nodes := cur.Nodes();
      var k := 0;
      assert nodes[0..] == nodes;
      while k < cur.count
        invariant 0 <= k <= cur.count && cur.Valid() && next.Valid() && cur.Nodes() == nodes
        invariant cur.items != next.items && (next.items == old(next.items) || fresh(next.items))
        invariant next.Nodes() + AppliedAll(q, nodes[k..], root, less) == AppliedAll(q, nodes, root, less)
      {
        assert nodes[k..][1..] == nodes[k + 1..] && nodes[k..][0] == nodes[k] == cur.items[k];
        SplitsOpt(next.Nodes(), Applied(q, nodes[k], root, less), AppliedAll(q, nodes[k + 1..], root, less));
        Apply(q, cur.items[k], next);
        k := k + 1;
      }
      NodeList.NoMore(next.Nodes());
    }

    /**
     * Runs a query and shows the results to the visitor until it asks to stop; its answer may change from call to call.
     * A call without a visitor is one with a visitor that always goes on.
     */
    method Exec(qs: seq<QuerySegment>, goesOn: (nat, Json) -> bool) returns (n: nat, shown: seq<Json>)
      ensures n == |shown| && shown <= Denote(qs, [root], root, less)
      ensures forall k :: 0 <= k < n - 1 ==> goesOn(k, shown[k])
      ensures n < |Denote(qs, [root], root, less)| ==> n > 0 && !goesOn(n - 1, shown[n - 1])
    {
      hide Denote;
      var nodes := ResultNodes(qs);
      n, shown := 0, [];
      while n < |nodes|
        invariant 0 <= n <= |nodes| && shown == nodes[..n]
        invariant forall k :: 0 <= k < n ==> goesOn(k, shown[k])
      {
        var node := nodes[n];
        shown := shown + [node];
        n := n + 1;
        if !goesOn(n - 1, node) { break; }
      }
    }

    /** Runs the segments from left to right, swapping the two lists after each. */
    method ResultNodes(qs: seq<QuerySegment>) returns (result: seq<Json>)
      ensures result == Denote(qs, [root], root, less)
    {
      hide AppliedAll;
      var cur := new NodeList();
      var next := new NodeList();
      cur.Push(root);
      assert cur.Nodes() == [root];
      assert qs[0..] == qs;
      var i := 0;
      while i < |qs|
        invariant 0 <= i <= |qs| && cur.Valid() && next.Valid() && cur != next && cur.items != next.items
        invariant fresh(cur) && fresh(next) && fresh(cur.items) && fresh(next.items)
        invariant Denote(qs[i..], cur.Nodes(), root, less) == Denote(qs, [root], root, less)
      {
        assert qs[i..][0] == qs[i] && qs[i..][1..] == qs[i + 1..];
        ApplyToAll(qs[i], cur, next);
        var t := cur;
        cur := next;
        next := t;
        i := i + 1;
      }
      result := cur.items[..cur.count];
    }
  }
}
