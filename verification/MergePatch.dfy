/** JSON Merge Patch (RFC 7386): application, computation, and when the two are inverse. */
module MergePatch {
  import opened Bytes
  import opened Options
  import opened JsonValue
  import opened JsonOps
  import opened Pointer
  import opened PatchRoundTrip

  /** Merging a patch into a target that may be absent. */
  function Merge(target: Option<Json>, patch: Json): Json
    decreases patch, 1
  {
    if !patch.Obj? then patch
    else Obj(MergeMembers(if target.Some? && target.value.Obj? then target.value.members else [], patch.members))
  }

  function MergeMembers(ms: seq<Member>, ps: seq<Member>): seq<Member>
    decreases ps, 0
  {
    if ps == [] then ms else
    var p := ps[0];
    var next := if p.value.Null? then DropMember(ms, p.key)
                else SetMember(DropMember(ms, p.key), p.key, Merge(GetMember(ms, p.key), p.value));
    MergeMembers(next, ps[1..])
  }

  function MergeDiff(from: Json, goal: Json): Json
    decreases goal, 1
  {
    if !from.Obj? || !goal.Obj? then goal
    else Obj(DiffSets(DiffNulls([], from.members, goal.members), from.members, goal.members))
  }

  function DiffNulls(out: seq<Member>, from: seq<Member>, goal: seq<Member>): seq<Member>
    decreases |from|
  {
    if from == [] then out
    else DiffNulls(if HasKey(goal, from[0].key) then out else SetMember(out, from[0].key, Null), from[1..], goal)
  }

  function DiffSets(out: seq<Member>, from: seq<Member>, goal: seq<Member>): seq<Member>
    decreases goal, 0
  {
    if goal == [] then out else
    var p := goal[0];
    var was := GetMember(from, p.key);
    var next := if was.None? then SetMember(out, p.key, p.value)
                else if Equals(was.value, p.value) then out
                else SetMember(out, p.key, MergeDiff(was.value, p.value));
    DiffSets(next, from, goal[1..])
  }

  // --- What ends up under each key ---

  function MergedEntry(ms: seq<Member>, ps: seq<Member>, k: Bytes): Option<Json>
  {
    var p := GetMember(ps, k);
    if p.None? then GetMember(ms, k)
    else if p.value.Null? then None
    else Some(Merge(GetMember(ms, k), p.value))
  }

  lemma TailLookup(ms: seq<Member>)
    requires UniqueMembers(ms) && ms != []
    ensures UniqueMembers(ms[1..]) && GetMember(ms[1..], ms[0].key) == None
    ensures GetMember(ms, ms[0].key) == Some(ms[0].value)
    ensures forall k :: k != ms[0].key ==> GetMember(ms, k) == GetMember(ms[1..], k)
  {
    AbsentIsNotFound(ms[1..], ms[0].key);
  }

  lemma {:induction false} MergeLookup(ms: seq<Member>, ps: seq<Member>)
    requires UniqueMembers(ms) && UniqueMembers(ps)
    ensures UniqueMembers(MergeMembers(ms, ps))
    ensures forall k :: GetMember(MergeMembers(ms, ps), k) == MergedEntry(ms, ps, k)
    decreases |ps|
  {
    if ps != [] {
      hide Merge;
      var p := ps[0];
      TailLookup(ps);
      var less := DropMember(ms, p.key);
      DropThenGet(ms, p.key);
      var v := Merge(GetMember(ms, p.key), p.value);
      SetThenGet(less, p.key, v);
      SetKeepsUnique(less, p.key, v);
      MergeLookup(if p.value.Null? then less else SetMember(less, p.key, v), ps[1..]);
    }
  }

  function DiffEntry(from: seq<Member>, goal: seq<Member>, k: Bytes): Option<Json>
  {
    var was, new_ := GetMember(from, k), GetMember(goal, k);
    if new_.None? then (if was.None? then None else Some(Null))
    else if was.None? then new_
    else if Equals(was.value, new_.value) then None
    else Some(MergeDiff(was.value, new_.value))
  }

  lemma {:induction false} NullsLookup(out: seq<Member>, from: seq<Member>, goal: seq<Member>)
    requires UniqueMembers(out) && UniqueMembers(from)
    ensures var r := DiffNulls(out, from, goal);
            UniqueMembers(r)
            && forall k :: GetMember(r, k) == if HasKey(from, k) && !HasKey(goal, k) then Some(Null) else GetMember(out, k)
    decreases |from|
  {
    if from != [] {
      var k0 := from[0].key;
      TailLookup(from);
      SetThenGet(out, k0, Null);
      SetKeepsUnique(out, k0, Null);
      NullsLookup(if HasKey(goal, k0) then out else SetMember(out, k0, Null), from[1..], goal);
      forall k ensures HasKey(from, k) <==> k == k0 || HasKey(from[1..], k) {
        assert k != k0 ==> GetMember(from, k) == GetMember(from[1..], k);
      }
    }
  }

  lemma {:induction false} SetsLookup(out: seq<Member>, from: seq<Member>, goal: seq<Member>)
    requires UniqueMembers(out) && UniqueMembers(from) && UniqueMembers(goal)
    requires forall k :: HasKey(goal, k) ==> !HasKey(out, k)
    ensures var r := DiffSets(out, from, goal);
            UniqueMembers(r)
            && forall k :: GetMember(r, k) == if HasKey(goal, k) then DiffEntry(from, goal, k) else GetMember(out, k)
    decreases |goal|
  {
    if goal != [] {
      hide MergeDiff, Equals;
      var p := goal[0];
      TailLookup(goal);
      var was := GetMember(from, p.key);
      var v := if was.None? then p.value else MergeDiff(was.value, p.value);
      SetThenGet(out, p.key, v);
      SetKeepsUnique(out, p.key, v);
      var next := if was.Some? && Equals(was.value, p.value) then out else SetMember(out, p.key, v);
      forall k ensures HasKey(goal, k) <==> k == p.key || HasKey(goal[1..], k) {
        assert k != p.key ==> GetMember(goal, k) == GetMember(goal[1..], k);
      }
      assert !HasKey(goal[1..], p.key);
      forall k | HasKey(goal[1..], k) ensures !HasKey(next, k) {
        assert GetMember(next, k) == GetMember(out, k);
      }
      SetsLookup(next, from, goal[1..]);
    }
  }

  lemma DiffLookup(from: seq<Member>, goal: seq<Member>)
    requires UniqueMembers(from) && UniqueMembers(goal)
    ensures UniqueMembers(MergeDiff(Obj(from), Obj(goal)).members)
    ensures forall k :: GetMember(MergeDiff(Obj(from), Obj(goal)).members, k) == DiffEntry(from, goal, k)
  {
    NullsLookup([], from, goal);
    SetsLookup(DiffNulls([], from, goal), from, goal);
  }

  // --- When the merge patch of the diff is the new tree ---

  /** No member reachable through objects is null. */
  predicate NoNulls(v: Json)
  {
    v.Obj? ==> forall i :: 0 <= i < |v.members| ==> v.members[i].value != Null && NoNulls(v.members[i].value)
  }

  /** Every null that the patch would have to carry is in a part of the tree that does not change. */
  predicate Mergeable(from: Json, goal: Json)
    decreases goal, 0
  {
    if !goal.Obj? then true
    else if !from.Obj? then NoNulls(goal)
    else forall i :: 0 <= i < |goal.members| ==> EntryMergeable(GetMember(from.members, goal.members[i].key), goal.members[i].value)
  }

  predicate EntryMergeable(was: Option<Json>, v: Json)
    decreases v, 1
  {
    if was.None? then v != Null && NoNulls(v)
    else Equals(was.value, v) || (v != Null && Mergeable(was.value, v))
  }

  /** An object without keys of its own is equal to another exactly when it has an equal value under every key. */
  lemma EqualByKey(r: seq<Member>, t: seq<Member>)
    requires UniqueMembers(r) && UniqueMembers(t)
    requires forall k :: HasKey(r, k) ==> HasKey(t, k)
    ensures Equals(Obj(r), Obj(t))
       <==> forall i :: 0 <= i < |t| ==> GetMember(r, t[i].key).Some? && Equals(GetMember(r, t[i].key).value, t[i].value)
  {
    if Equals(Obj(r), Obj(t)) {
      EqualKeys(r, t);
      forall i | 0 <= i < |t|
        ensures GetMember(r, t[i].key).Some? && Equals(GetMember(r, t[i].key).value, t[i].value)
      {
        assert HasKey(t, t[i].key);
        FindUnique(t, i);
        var j := FindKey(r, t[i].key);
        assert r[j].key == t[i].key;
      }
    }
    if forall i :: 0 <= i < |t| ==> GetMember(r, t[i].key).Some? && Equals(GetMember(r, t[i].key).value, t[i].value) {
      forall k ensures HasKey(r, k) <==> HasKey(t, k) {
        if HasKey(t, k) { assert t[FindKey(t, k)].key == k; }
      }
      forall j | 0 <= j < |r| && HasKey(t, r[j].key) ensures Equals(r[j].value, GetMember(t, r[j].key).value) {
        var i := FindKey(t, r[j].key);
        FindUnique(r, j);
        assert t[i].key == r[j].key;
      }
      SameMembersEqual(r, t);
    }
  }

  /** Merging a tree into nothing gives the tree back exactly when it has no null member. */
  lemma {:induction false} MergeIntoNothing(v: Json)
    requires Unique(v)
    ensures Equals(Merge(None, v), v) <==> NoNulls(v)
    decreases v
  {
    if v.Obj? {
      hide Merge, Equals;
      var t := v.members;
      var r := MergeMembers([], t);
      MergeLookup([], t);
      forall i | 0 <= i < |t|
        ensures GetMember(r, t[i].key) == if t[i].value.Null? then None else Some(Merge(None, t[i].value))
        ensures Equals(Merge(None, t[i].value), t[i].value) <==> NoNulls(t[i].value)
      {
        FindUnique(t, i);
        MergeIntoNothing(t[i].value);
      }
      forall k | HasKey(r, k) ensures HasKey(t, k) {
        assert GetMember(r, k) == MergedEntry([], t, k);
      }
      EqualByKey(r, t);
      MergedObject(v);
    } else {
      EqualsReflexive(v);
    }
  }

  lemma MergedObject(v: Json)
    requires v.Obj?
    ensures Merge(None, v) == Obj(MergeMembers([], v.members))
  {
  }

  /** What the merge of the diff leaves under a key that had `was` and should have v. */
  function EntryResult(was: Option<Json>, v: Json): Option<Json>
  {
    if was.Some? && Equals(was.value, v) then was
    else
      var p := if was.None? then v else MergeDiff(was.value, v);
      if p.Null? then None else Some(Merge(was, p))
  }

  lemma NonObjectTarget(t: Json, v: Json)
    requires !t.Obj?
    ensures Merge(Some(t), v) == Merge(None, v)
  {
  }

  /** Merging the merge diff of two trees into the first gives the second exactly when every null member
      of the second is in a part that does not change. */
  lemma {:induction false} MergeDiffThenMerge(from: Json, goal: Json)
    requires Unique(from) && Unique(goal)
    ensures Equals(Merge(Some(from), MergeDiff(from, goal)), goal) <==> Mergeable(from, goal)
    decreases goal
  {
    if !goal.Obj? {
      EqualsReflexive(goal);
    } else if !from.Obj? {
      NonObjectTarget(from, goal);
      MergeIntoNothing(goal);
    } else {
      hide Merge, MergeDiff, Equals, Mergeable;
      var f, t := from.members, goal.members;
      forall i | 0 <= i < |t|
        ensures EntryOk(GetMember(f, t[i].key), t[i].value) <==> EntryMergeable(GetMember(f, t[i].key), t[i].value)
      {
        var was := GetMember(f, t[i].key);
        if was.None? {
          MergeIntoNothing(t[i].value);
        } else {
          MergeDiffThenMerge(was.value, t[i].value);
        }
        EntryWorks(was, t[i].value);
      }
      MergedMembers(f, t);
      ObjectCase(from, goal);
    }
  }

  /** A tree without null members is always reached. */
  lemma {:induction false} NoNullsMerge(from: Json, goal: Json)
    requires Unique(from) && Unique(goal) && NoNulls(goal)
    ensures Equals(Merge(Some(from), MergeDiff(from, goal)), goal)
  {
    NoNullsMergeable(from, goal);
    MergeDiffThenMerge(from, goal);
  }

  lemma {:induction false} NoNullsMergeable(from: Json, goal: Json)
    requires NoNulls(goal)
    ensures Mergeable(from, goal)
    decreases goal
  {
    if goal.Obj? && from.Obj? {
      forall i | 0 <= i < |goal.members|
        ensures EntryMergeable(GetMember(from.members, goal.members[i].key), goal.members[i].value)
      {
        var was := GetMember(from.members, goal.members[i].key);
        if was.Some? { NoNullsMergeable(was.value, goal.members[i].value); }
      }
    }
  }

  predicate EntryOk(was: Option<Json>, v: Json)
  {
    EntryResult(was, v).Some? && Equals(EntryResult(was, v).value, v)
  }

  /** The merged object is the new one exactly when every entry is. */
  lemma MergedMembers(f: seq<Member>, t: seq<Member>)
    requires UniqueMembers(f) && UniqueMembers(t)
    ensures Equals(Obj(MergeMembers(f, MergeDiff(Obj(f), Obj(t)).members)), Obj(t))
       <==> forall i :: 0 <= i < |t| ==> EntryOk(GetMember(f, t[i].key), t[i].value)
  {
    var d := MergeDiff(Obj(f), Obj(t)).members;
    hide Merge, MergeDiff, Equals;
    DiffLookup(f, t);
    MergeLookup(f, d);
    var r := MergeMembers(f, d);
    forall k | HasKey(r, k) ensures HasKey(t, k) {
      assert GetMember(r, k) == MergedEntry(f, d, k);
      DiffedEntry(f, t, d, k);
    }
    forall i | 0 <= i < |t| ensures GetMember(r, t[i].key) == EntryResult(GetMember(f, t[i].key), t[i].value) {
      FindUnique(t, i);
      DiffedEntry(f, t, d, t[i].key);
    }
    EqualByKey(r, t);
  }

  lemma DiffedEntry(f: seq<Member>, t: seq<Member>, d: seq<Member>, k: Bytes)
    requires GetMember(d, k) == DiffEntry(f, t, k)
    ensures GetMember(t, k).None? ==> MergedEntry(f, d, k) == None
    ensures GetMember(t, k).Some? ==> MergedEntry(f, d, k) == EntryResult(GetMember(f, k), GetMember(t, k).value)
  {
    hide Merge, Equals;
  }

  lemma EntryWorks(was: Option<Json>, v: Json)
    requires was.None? ==> (Equals(Merge(None, v), v) <==> NoNulls(v))
    requires was.Some? ==> (Equals(Merge(was, MergeDiff(was.value, v)), v) <==> Mergeable(was.value, v))
    ensures EntryOk(was, v) <==> EntryMergeable(was, v)
  {
    hide Merge, Equals, Mergeable, NoNulls;
  }

  lemma ObjectCase(from: Json, goal: Json)
    requires from.Obj? && goal.Obj?
    ensures MergeDiff(from, goal).Obj?
    ensures Merge(Some(from), MergeDiff(from, goal)) == Obj(MergeMembers(from.members, MergeDiff(from, goal).members))
    ensures Mergeable(from, goal) <==> forall i :: 0 <= i < |goal.members| ==>
              EntryMergeable(GetMember(from.members, goal.members[i].key), goal.members[i].value)
  {
  }
}
