/** The value tree of the library: an object is a list of pairs, because order and duplicates matter. */
module JsonValue {
  import opened Bytes

  /** A double: an integer of magnitude at most 2^53 by its value, any other number by its text. */
  datatype Number = Int(i: int) | Float(text: Bytes)

  datatype Member = Member(key: Bytes, value: Json)

  datatype Json =
    | Null
    | Bool(b: bool)
    | Num(n: Number)
    | Str(s: Bytes)
    | Arr(items: seq<Json>)
    | Obj(members: seq<Member>)
}

/** The operations of value.c on trees: lookup, set, detach and comparison. */
module JsonOps {
  import opened Bytes
  import opened Options
  import opened JsonValue

  /** Index of the first member with this key, or the number of members. */
  function FindKey(ms: seq<Member>, key: Bytes): (i: nat)
    ensures i <= |ms|
    ensures i < |ms| ==> ms[i].key == key
    ensures forall k :: 0 <= k < i ==> ms[k].key != key
  {
    if ms == [] then 0 else if ms[0].key == key then 0 else 1 + FindKey(ms[1..], key)
  }

  predicate HasKey(ms: seq<Member>, key: Bytes) { FindKey(ms, key) < |ms| }

  function GetMember(ms: seq<Member>, key: Bytes): Option<Json>
  {
    var i := FindKey(ms, key);
    if i < |ms| then Some(ms[i].value) else None
  }

  /** Replaces the value of the first member with this key, or appends a member. */
  function SetMember(ms: seq<Member>, key: Bytes, v: Json): seq<Member>
  {
    var i := FindKey(ms, key);
    if i < |ms| then ms[i := Member(key, v)] else ms + [Member(key, v)]
  }

  /** Removes the first member with this key, if there is one. */
  function DropMember(ms: seq<Member>, key: Bytes): seq<Member>
  {
    var i := FindKey(ms, key);
    if i < |ms| then ms[..i] + ms[i + 1..] else ms
  }

  function InsertItem(items: seq<Json>, i: nat, v: Json): seq<Json>
    requires i <= |items|
  {
    items[..i] + [v] + items[i..]
  }

  function RemoveItem(items: seq<Json>, i: nat): seq<Json>
    requires i < |items|
  {
    items[..i] + items[i + 1..]
  }

  /** Comparison: arrays in order, objects whatever the order of their members. */
  predicate Equals(a: Json, b: Json)
    decreases a
  {
    match a
    case Arr(x) => b.Arr? && |x| == |b.items| && forall i :: 0 <= i < |x| ==> Equals(x[i], b.items[i])
    case Obj(x) =>
      b.Obj? && |x| == |b.members| &&
      forall i :: 0 <= i < |x| ==>
        GetMember(b.members, x[i].key).Some? && Equals(x[i].value, GetMember(b.members, x[i].key).value)
    case _ => a == b
  }

  predicate UniqueMembers(ms: seq<Member>)
  {
    forall i, j :: 0 <= i < j < |ms| ==> ms[i].key != ms[j].key
  }

  /** No object anywhere in the tree repeats a key. */
  predicate Unique(v: Json)
  {
    match v
    case Arr(x) => forall i :: 0 <= i < |x| ==> Unique(x[i])
    case Obj(x) => UniqueMembers(x) && forall i :: 0 <= i < |x| ==> Unique(x[i].value)
    case _ => true
  }

  lemma FindUnique(ms: seq<Member>, i: nat)
    requires UniqueMembers(ms) && i < |ms|
    ensures FindKey(ms, ms[i].key) == i
  {
  }

  ghost function KeySet(ms: seq<Member>): set<Bytes> { set i | 0 <= i < |ms| :: ms[i].key }

  lemma {:induction false} UniqueCount(ms: seq<Member>)
    requires UniqueMembers(ms)
    ensures |KeySet(ms)| == |ms|
  {
    if ms != [] {
      var last, rest := ms[|ms| - 1], ms[..|ms| - 1];
      UniqueCount(rest);
      assert KeySet(ms) == KeySet(rest) + {last.key};
      assert last.key !in KeySet(rest);
    }
  }

  /** Objects with the same unique keys and pairwise equal members are equal. */
  lemma SameMembersEqual(x: seq<Member>, y: seq<Member>)
    requires UniqueMembers(x) && UniqueMembers(y)
    requires forall k :: HasKey(x, k) <==> HasKey(y, k)
    requires forall i :: 0 <= i < |x| && HasKey(y, x[i].key) ==> Equals(x[i].value, GetMember(y, x[i].key).value)
    ensures Equals(Obj(x), Obj(y))
  {
    UniqueCount(x);
    UniqueCount(y);
    assert KeySet(x) == KeySet(y) by {
      forall k ensures k in KeySet(x) <==> HasKey(x, k) { KeyInSet(x, k); }
      forall k ensures k in KeySet(y) <==> HasKey(y, k) { KeyInSet(y, k); }
    }
    forall i | 0 <= i < |x| ensures HasKey(y, x[i].key) {
      assert HasKey(x, x[i].key);
    }
  }

  lemma KeyInSet(ms: seq<Member>, k: Bytes)
    ensures k in KeySet(ms) <==> HasKey(ms, k)
  {
    if HasKey(ms, k) { assert ms[FindKey(ms, k)].key == k; }
  }

  // --- Equality is an equivalence on trees with unique keys ---

  lemma {:induction false} EqualsReflexive(v: Json)
    requires Unique(v)
    ensures Equals(v, v)
    decreases v
  {
    match v
    case Arr(x) =>
      forall i | 0 <= i < |x| ensures Equals(x[i], x[i]) { EqualsReflexive(x[i]); }
    case Obj(x) =>
      forall i | 0 <= i < |x|
        ensures GetMember(x, x[i].key).Some? && Equals(x[i].value, GetMember(x, x[i].key).value)
      {
        FindUnique(x, i);
        EqualsReflexive(x[i].value);
      }
    case _ =>
  }

  lemma EqualKeys(x: seq<Member>, y: seq<Member>)
    requires UniqueMembers(x) && UniqueMembers(y) && Equals(Obj(x), Obj(y))
    ensures forall k :: HasKey(x, k) <==> HasKey(y, k)
  {
    UniqueCount(x);
    UniqueCount(y);
    forall k ensures k in KeySet(x) <==> HasKey(x, k) { KeyInSet(x, k); }
    forall k ensures k in KeySet(y) <==> HasKey(y, k) { KeyInSet(y, k); }
    assert KeySet(x) <= KeySet(y);
    SubsetOfSameSize(KeySet(x), KeySet(y));
  }

  lemma SubsetOfSameSize<T>(a: set<T>, b: set<T>)
    requires a <= b && |a| == |b|
    ensures a == b
  {
    assert |b - a| == |b| - |a|;
  }

  lemma {:induction false} EqualsSymmetric(a: Json, b: Json)
    requires Unique(a) && Unique(b) && Equals(a, b)
    ensures Equals(b, a)
    decreases a
  {
    match a
    case Arr(x) =>
      forall i | 0 <= i < |x| ensures Equals(b.items[i], x[i]) { EqualsSymmetric(x[i], b.items[i]); }
    case Obj(x) =>
      var y := b.members;
      EqualKeys(x, y);
      forall j | 0 <= j < |y| && HasKey(x, y[j].key)
        ensures Equals(y[j].value, GetMember(x, y[j].key).value)
      {
        var i := FindKey(x, y[j].key);
        FindUnique(y, j);
        EqualsSymmetric(x[i].value, y[j].value);
      }
      SameMembersEqual(y, x);
    case _ =>
  }

  lemma {:induction false} EqualsTransitive(a: Json, b: Json, c: Json)
    requires Equals(a, b) && Equals(b, c)
    ensures Equals(a, c)
    decreases a
  {
    match a
    case Arr(x) =>
      forall i | 0 <= i < |x| ensures Equals(x[i], c.items[i]) {
        EqualsTransitive(x[i], b.items[i], c.items[i]);
      }
    case Obj(x) =>
      forall i | 0 <= i < |x|
        ensures GetMember(c.members, x[i].key).Some? && Equals(x[i].value, GetMember(c.members, x[i].key).value)
      {
        var j := FindKey(b.members, x[i].key);
        assert GetMember(c.members, b.members[j].key).Some?;
        EqualsTransitive(x[i].value, b.members[j].value, GetMember(c.members, x[i].key).value);
      }
    case _ =>
  }
}
