/** Equality of trees is equality of their canonical forms, in which every object has its members in key order. */
module Canonical {
  import opened Bytes
  import opened Options
  import opened JsonValue
  import opened JsonOps
  import opened SerializerSpec
  import opened SerializerRoundTrip

  /** What each key of the arranged members holds. */
  lemma ArrangedLookup(ms: seq<Member>, k: Bytes)
    requires UniqueMembers(ms)
    ensures UniqueMembers(ArrangedMembers(ms, true))
    ensures var v := GetMember(ms, k);
            GetMember(ArrangedMembers(ms, true), k) == if v.None? then None else Some(Arranged(v.value, true))
  {
    hide Arranged;
    ArrangedEach(ms, true);
    SameKeysFound(ArrangedMembers(ms, true), ms, k);
  }

  lemma {:induction false} SameSorted(r: seq<Member>, q: seq<Member>)
    requires InKeyOrder(r) && InKeyOrder(q) && UniqueMembers(r) && UniqueMembers(q) && multiset(r) == multiset(q)
    ensures r == q
    decreases |r|
  {
    if r == [] {
      assert multiset(q) == multiset{};
    } else {
      SameFirst(r, q);
      SameRest(r, q);
      RestSorted(r);
      RestSorted(q);
      hide *;
      SameSorted(r[1..], q[1..]);
      assert r == [r[0]] + r[1..] && q == [q[0]] + q[1..];
    }
  }

  lemma RestSorted(r: seq<Member>)
    requires r != [] && InKeyOrder(r) && UniqueMembers(r)
    ensures InKeyOrder(r[1..]) && UniqueMembers(r[1..])
  {
    hide KeyLess;
  }

  lemma SameRest(r: seq<Member>, q: seq<Member>)
    requires r != [] && q != [] && r[0] == q[0] && multiset(r) == multiset(q)
    ensures multiset(r[1..]) == multiset(q[1..])
  {
    assert r == [r[0]] + r[1..] && q == [q[0]] + q[1..];
    assert multiset(r[1..]) == multiset(r) - multiset{r[0]};
    assert multiset(q[1..]) == multiset(q) - multiset{q[0]};
  }

  lemma SameFirst(r: seq<Member>, q: seq<Member>)
    requires r != [] && InKeyOrder(r) && InKeyOrder(q) && UniqueMembers(r) && UniqueMembers(q)
    requires multiset(r) == multiset(q)
    ensures q != [] && r[0] == q[0]
  {
    hide KeyLess;
    assert r[0] in multiset(q);
    var j :| 0 <= j < |q| && q[j] == r[0];
    assert q[0] in multiset(r);
    var i :| 0 <= i < |r| && r[i] == q[0];
    KeyLessTotal(r[0].key, q[0].key);
  }

  lemma OnceOnly(ms: seq<Member>, a: nat)
    requires UniqueMembers(ms) && a < |ms|
    ensures multiset(ms)[ms[a]] == 1
  {
    assert ms == ms[..a] + [ms[a]] + ms[a + 1..];
    assert ms[a] !in ms[..a] && ms[a] !in ms[a + 1..];
  }

  lemma SameLookupSameMembers(x: seq<Member>, y: seq<Member>)
    requires UniqueMembers(x) && UniqueMembers(y) && forall k :: GetMember(x, k) == GetMember(y, k)
    ensures multiset(x) == multiset(y)
  {
    forall m ensures multiset(x)[m] == multiset(y)[m] {
      CountIs(x, m);
      CountIs(y, m);
      assert GetMember(x, m.key) == GetMember(y, m.key);
    }
  }

  lemma CountIs(ms: seq<Member>, m: Member)
    requires UniqueMembers(ms)
    ensures multiset(ms)[m] == if GetMember(ms, m.key) == Some(m.value) then 1 else 0
  {
    var i := FindKey(ms, m.key);
    if i < |ms| && ms[i] == m {
      OnceOnly(ms, i);
    } else if m in ms {
      var j :| 0 <= j < |ms| && ms[j] == m;
      FindUnique(ms, j);
    }
  }

  /** Trees with unique keys are equal exactly if they have the same canonical form. */
  lemma {:induction false} EqualsExactly(a: Json, b: Json)
    requires Unique(a) && Unique(b)
    ensures Equals(a, b) <==> Arranged(a, true) == Arranged(b, true)
    decreases a
  {
    match a
    case Arr(x) =>
      if b.Arr? && |b.items| == |x| {
        ArrangedEachItem(x, true);
        ArrangedEachItem(b.items, true);
        forall i | 0 <= i < |x| ensures Equals(x[i], b.items[i]) <==> Arranged(x[i], true) == Arranged(b.items[i], true) {
          EqualsExactly(x[i], b.items[i]);
        }
      }
    case Obj(x) =>
      if b.Obj? {
        var y := b.members;
        forall i | 0 <= i < |x| && HasKey(y, x[i].key)
          ensures Equals(x[i].value, GetMember(y, x[i].key).value)
                  <==> Arranged(x[i].value, true) == Arranged(GetMember(y, x[i].key).value, true)
        {
          EqualsExactly(x[i].value, GetMember(y, x[i].key).value);
        }
        ObjectsExactly(x, y);
      }
    case _ =>
  }

  lemma ObjectsExactly(x: seq<Member>, y: seq<Member>)
    requires UniqueMembers(x) && UniqueMembers(y)
    requires forall i :: 0 <= i < |x| && HasKey(y, x[i].key) ==>
               (Equals(x[i].value, GetMember(y, x[i].key).value)
                <==> Arranged(x[i].value, true) == Arranged(GetMember(y, x[i].key).value, true))
    ensures Equals(Obj(x), Obj(y)) <==> Arranged(Obj(x), true) == Arranged(Obj(y), true)
  {
    var p, q := ArrangedMembers(x, true), ArrangedMembers(y, true);
    assert Arranged(Obj(x), true) == Obj(SortByKey(p)) && Arranged(Obj(y), true) == Obj(SortByKey(q));
    ArrangedLookup(x, []);
    ArrangedLookup(y, []);
    if Equals(Obj(x), Obj(y)) { EqualToArranged(x, y); }
    if SortByKey(p) == SortByKey(q) { ArrangedToEqual(x, y); }
  }

  lemma EqualToArranged(x: seq<Member>, y: seq<Member>)
    requires UniqueMembers(x) && UniqueMembers(y) && Equals(Obj(x), Obj(y))
    requires forall i :: 0 <= i < |x| && HasKey(y, x[i].key) ==>
               (Equals(x[i].value, GetMember(y, x[i].key).value)
                <==> Arranged(x[i].value, true) == Arranged(GetMember(y, x[i].key).value, true))
    ensures SortByKey(ArrangedMembers(x, true)) == SortByKey(ArrangedMembers(y, true))
  {
    var p, q := ArrangedMembers(x, true), ArrangedMembers(y, true);
    EqualKeys(x, y);
    ArrangedLookup(x, []);
    ArrangedLookup(y, []);
    forall k ensures GetMember(p, k) == GetMember(q, k) {
      ArrangedLookup(x, k);
      ArrangedLookup(y, k);
      if HasKey(x, k) { FindUnique(x, FindKey(x, k)); assert HasKey(y, k); }
    }
    hide Equals, Arranged, ArrangedMembers, GetMember, HasKey;
    SameLookupSameMembers(p, q);
    SortsInKeyOrder(p);
    SortsInKeyOrder(q);
    SortLookup(p);
    SortLookup(q);
    SameSorted(SortByKey(p), SortByKey(q));
  }

  lemma ArrangedToEqual(x: seq<Member>, y: seq<Member>)
    requires UniqueMembers(x) && UniqueMembers(y)
    requires forall i :: 0 <= i < |x| && HasKey(y, x[i].key) ==>
               (Equals(x[i].value, GetMember(y, x[i].key).value)
                <==> Arranged(x[i].value, true) == Arranged(GetMember(y, x[i].key).value, true))
    requires SortByKey(ArrangedMembers(x, true)) == SortByKey(ArrangedMembers(y, true))
    ensures Equals(Obj(x), Obj(y))
  {
    var p, q := ArrangedMembers(x, true), ArrangedMembers(y, true);
    ArrangedLookup(x, []);
    ArrangedLookup(y, []);
    SortLookup(p);
    SortLookup(q);
    forall k ensures GetMember(p, k) == GetMember(q, k) {
      assert GetMember(SortByKey(p), k) == GetMember(p, k) && GetMember(SortByKey(q), k) == GetMember(q, k);
    }
    forall k ensures HasKey(x, k) <==> HasKey(y, k) {
      ArrangedLookup(x, k);
      ArrangedLookup(y, k);
      assert GetMember(p, k) == GetMember(q, k);
    }
    forall i | 0 <= i < |x| && HasKey(y, x[i].key) ensures Equals(x[i].value, GetMember(y, x[i].key).value) {
      FindUnique(x, i);
      ArrangedLookup(x, x[i].key);
      ArrangedLookup(y, x[i].key);
      assert GetMember(p, x[i].key) == GetMember(q, x[i].key);
    }
    hide Equals, Arranged, ArrangedMembers;
    SameMembersEqual(x, y);
  }
}
