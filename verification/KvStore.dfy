/** The key-value store in its own form: buckets of chains changed in place. */
module Kv {
  import opened Bytes
  import opened Options
  import opened JsonValue
  import opened KvSpec
  import opened KvTable

  class KvStore {
    var buckets: array<Chain>
    var count: nat
    var hits: nat
    var misses: nat
    var expired: nat
    var sets: nat
    const add: Adder
    ghost var store: Store

    ghost predicate Table()
      reads this`buckets, this`store, this`count, buckets
    {
      && buckets.Length >= 16
      && PowerOfTwo(buckets.Length)
      && Represents(buckets[..], store)
      && count == TotalLength(buckets[..])
      && count == |store|
    }

    /** A table whose load is at most three quarters. */
    ghost predicate Valid()
      reads this`buckets, this`store, this`count, buckets
    {
      Table() && count <= buckets.Length * 3 / 4
    }

    constructor (initialCapacity: nat, add: Adder)
      ensures Valid() && fresh(buckets) && store == map[] && buckets.Length >= initialCapacity && this.add == add
    {
      var n := 16;
      Sixteen();
      while n < initialCapacity
        invariant n >= 16 && PowerOfTwo(n)
      {
        n := n * 2;
      }
      this.add := add;
      buckets := new Chain[n](_ => []);
      count, hits, misses, expired, sets, store := 0, 0, 0, 0, 0, map[];
      new;
      Empty(buckets[..]);
    }

    static lemma Sixteen()
      ensures PowerOfTwo(16)
    {
      assert PowerOfTwo(2);
      assert PowerOfTwo(4);
      assert PowerOfTwo(8);
    }

    /** Replaces one chain; the ghost store follows. */
    method SetChain(b: nat, c: Chain, ghost after: Store)
      requires b < buckets.Length
      modifies buckets, this`store
      ensures buckets == old(buckets) && buckets[..] == old(buckets[..])[b := c] && store == after
    {
      buckets[b] := c;
      store := after;
      assert buckets[..] == old(buckets[..])[b := c];
    }

    /** Unlinks entry i of bucket b. */
    method Unlink(b: nat, i: nat)
      requires Table() && b < buckets.Length && i < |buckets[b]|
      modifies this`count, this`store, buckets
      ensures Table() && buckets == old(buckets) && count + 1 == old(count)
      ensures store == old(store) - {old(buckets[b][i].key)}
      ensures buckets[..] == old(buckets[..])[b := old(buckets[b][..i] + buckets[b][i + 1..])]
    {
      hide Represents, TotalLength, PowerOfTwo;
      var c := buckets[b];
      var rest := c[..i] + c[i + 1..];
      Removes(buckets[..], store, b, i);
      TotalReplaced(buckets[..], b, rest);
      EntryStored(buckets[..], store, b, i);
      RemovedSize(store, c[i].key);
      SetChain(b, rest, store - {c[i].key});
      count := count - 1;
    }

    static lemma RemovedSize(m: Store, key: Bytes)
      requires key in m
      ensures |m - {key}| == |m| - 1
    {
      assert (m - {key})[key := m[key]] == m;
    }

    static lemma EntryStored(bs: seq<Chain>, m: Store, b: nat, i: nat)
      requires Represents(bs, m) && b < |bs| && i < |bs[b]|
      ensures bs[b][i].key in m && m[bs[b][i].key] == SlotOf(bs[b][i])
      ensures Bucket(bs[b][i].key, |bs|) == b && bs[b][i].hash == HashKey(bs[b][i].key)
    {
      assert ChainOk(bs[b], b, |bs|, m);
    }

    /** Walks the key's chain to its live entry; an expired one is unlinked on the way. */
    method Find(key: Bytes, now: nat) returns (found: Option<nat>)
      requires Table()
      modifies this`count, this`store, this`expired, buckets
      ensures Table() && buckets == old(buckets) && store == Evicted(old(store), key, now) && count <= old(count)
      ensures found.Some? <==> LiveSlot(old(store), key, now).Some?
      ensures found.Some? ==>
                var c := buckets[Bucket(key, buckets.Length)];
                found.value < |c| && c[found.value].key == key && c[found.value].hash == HashKey(key)
                && LiveSlot(old(store), key, now) == Some(SlotOf(c[found.value])) && store == old(store)
    {
      hide Represents, TotalLength, PowerOfTwo, HashKey, Bucket;
      var h := HashKey(key);
      var b := Bucket(key, buckets.Length);
      var c := buckets[b];
      Lookup(buckets[..], store, key);
      var i := 0;
      while i < |c|
        invariant 0 <= i <= |c| && Table() && buckets[..] == old(buckets[..]) && store == old(store)
        invariant count == old(count) && buckets == old(buckets)
        invariant forall j :: 0 <= j < i ==> c[j].key != key
      {
        if c[i].hash == h && c[i].key == key {
          if c[i].expires != 0 && c[i].expires <= now {
            Unlink(b, i);
            expired := expired + 1;
            return None;
          }
          return Some(i);
        }
        EntryStored(buckets[..], store, b, i);
        i := i + 1;
      }
      return None;
    }

    /** Moves every entry to a table of twice the size. */
    method Grow()
      requires Table()
      modifies this`buckets
      ensures Table() && fresh(buckets) && buckets.Length == old(buckets.Length) * 2
    {
      hide Represents, TotalLength, PowerOfTwo, HashKey, Bucket, Moved;
      var n := buckets.Length * 2;
      var nb := new Chain[n](_ => []);
      ghost var moved: Store := map[];
      Empty(nb[..]);
      NoneMoved(buckets[..], store);
      DoublePower(buckets.Length);
      var i := 0;
      while i < buckets.Length
        invariant 0 <= i <= buckets.Length && Table() && buckets == old(buckets) && fresh(nb) && nb.Length == n
        invariant buckets[..] == old(buckets[..])
        invariant Represents(nb[..], moved) && TotalLength(nb[..]) == |moved|
        invariant Moved(buckets[..], store, moved, i, 0)
      {
        moved := MoveChain(buckets[i], nb, buckets[..], store, moved, i);
        MovesOn(buckets[..], store, moved, i);
        i := i + 1;
      }
      AllMoved(buckets[..], store, moved);
      buckets := nb;
    }

    /** Moves the entries of bucket i. */
    static method MoveChain(c: Chain, nb: array<Chain>, ghost bs: seq<Chain>, ghost m: Store, ghost before: Store,
                            ghost i: nat)
      returns (ghost moved: Store)
      requires Represents(bs, m) && i < |bs| && bs[i] == c
      requires Represents(nb[..], before) && TotalLength(nb[..]) == |before| && Moved(bs, m, before, i, 0)
      modifies nb
      ensures Represents(nb[..], moved) && TotalLength(nb[..]) == |moved| && Moved(bs, m, moved, i, |c|)
    {
      hide Represents, TotalLength, HashKey, Bucket, Moved;
      moved := before;
      var j := 0;
      while j < |c|
        invariant 0 <= j <= |c| && Represents(nb[..], moved) && TotalLength(nb[..]) == |moved|
        invariant Moved(bs, m, moved, i, j)
      {
        EntryStored(bs, m, i, j);
        MovesOne(bs, m, moved, i, j);
        Push(nb, c[j], moved);
        moved := moved[c[j].key := SlotOf(c[j])];
        j := j + 1;
      }
    }

    /** Puts an entry at the head of its chain in the new table. */
    static method Push(nb: array<Chain>, e: Entry, ghost moved: Store)
      requires Represents(nb[..], moved) && TotalLength(nb[..]) == |moved|
      requires e.key !in moved && e.hash == HashKey(e.key)
      modifies nb
      ensures Represents(nb[..], moved[e.key := SlotOf(e)]) && TotalLength(nb[..]) == |moved[e.key := SlotOf(e)]|
    {
      Inserts(nb[..], moved, e);
      ghost var before := nb[..];
      assert 0 < nb.Length;
      hide Represents, TotalLength, HashKey, Bucket;
      var b := Bucket(e.key, nb.Length);
      TotalReplaced(nb[..], b, [e] + nb[b]);
      nb[b] := [e] + nb[b];
      assert nb[..] == before[b := [e] + before[b]];
    }

    static lemma DoublePower(n: nat)
      requires n >= 1 && PowerOfTwo(n)
      ensures PowerOfTwo(n * 2)
    {
    }

    /** The moved entries are those of the buckets before i and the first j of bucket i. */
    static ghost predicate Moved(bs: seq<Chain>, m: Store, moved: Store, i: nat, j: nat)
    {
      && 0 < |bs|
      && (forall k :: k in moved ==> k in m && moved[k] == m[k])
      && (forall k :: k in m ==>
            var b := Bucket(k, |bs|); (k in moved <==> b < i || (b == i && IndexOf(bs[b], k) < j)))
    }

    static lemma NoneMoved(bs: seq<Chain>, m: Store)
      requires 0 < |bs|
      ensures Moved(bs, m, map[], 0, 0)
    {
    }

    static lemma MovesOne(bs: seq<Chain>, m: Store, moved: Store, i: nat, j: nat)
      requires Represents(bs, m) && Moved(bs, m, moved, i, j) && i < |bs| && j < |bs[i]|
      ensures var e := bs[i][j]; e.key !in moved && Moved(bs, m, moved[e.key := SlotOf(e)], i, j + 1)
    {
      hide HashKey, Bucket;
      var e := bs[i][j];
      EntryStored(bs, m, i, j);
      OnlyIndex(bs[i], j) by { assert ChainOk(bs[i], i, |bs|, m); }
      forall k | k in m && Bucket(k, |bs|) == i ensures IndexOf(bs[i], k) == j ==> k == e.key {
        Lookup(bs, m, k);
      }
    }

    static lemma MovesOn(bs: seq<Chain>, m: Store, moved: Store, i: nat)
      requires Represents(bs, m) && i < |bs| && Moved(bs, m, moved, i, |bs[i]|)
      ensures Moved(bs, m, moved, i + 1, 0)
    {
      hide HashKey, Bucket;
      forall k | k in m ensures HasEntry(bs[Bucket(k, |bs|)], k) { Lookup(bs, m, k); }
    }

    static lemma AllMoved(bs: seq<Chain>, m: Store, moved: Store)
      requires Represents(bs, m) && Moved(bs, m, moved, |bs|, 0)
      ensures moved == m
    {
      hide HashKey;
    }

    /** Replaces the value and the expiry time of entry i of the key's chain. */
    method Update(key: Bytes, i: nat, value: Json, expires: nat)
      requires Table()
      requires var c := buckets[Bucket(key, buckets.Length)]; i < |c| && c[i].key == key
      modifies this`store, buckets
      ensures Table() && buckets == old(buckets) && store == old(store)[key := Slot(value, expires)]
    {
      hide Represents, TotalLength, PowerOfTwo, HashKey, Bucket;
      var b := Bucket(key, buckets.Length);
      var c := buckets[b];
      var e := c[i].(value := value, expires := expires);
      Updates(buckets[..], store, b, i, e);
      TotalReplaced(buckets[..], b, c[i := e]);
      EntryStored(buckets[..], store, b, i);
      SetChain(b, c[i := e], store[key := SlotOf(e)]);
      SameSize(old(store), key, SlotOf(e));
    }

    static lemma SameSize(m: Store, key: Bytes, s: Slot)
      requires key in m
      ensures |m[key := s]| == |m|
    {
      assert m[key := s].Keys == m.Keys;
      assert |m.Keys| == |m| && |m[key := s].Keys| == |m[key := s]|;
    }

    method SetOwned(key: Bytes, value: Json, ttl: nat, now: nat, later: nat)
      requires Valid()
      modifies this`buckets, this`count, this`store, this`expired, this`sets, buckets
      ensures Valid() && (buckets == old(buckets) || fresh(buckets))
      ensures store == old(store)[key := Slot(value, ExpiryAt(ttl, later))]
    {
      hide Represents, TotalLength, PowerOfTwo, HashKey, Bucket;
      var found := Find(key, now);
      var expires := if ttl > 0 then later + ttl else 0;
      sets := sets + 1;
      if found.Some? {
        Update(key, found.value, value, expires);
        return;
      }
      EvictedAbsent(old(store), key, now, Slot(value, expires));
      var e := Entry(key, HashKey(key), value, expires);
      var b := Bucket(key, buckets.Length);
      Inserts(buckets[..], store, e);
      TotalReplaced(buckets[..], b, [e] + buckets[b]);
      SetChain(b, [e] + buckets[b], store[key := SlotOf(e)]);
      count := count + 1;
      if count > buckets.Length * 3 / 4 { Grow(); }
    }

    static lemma EvictedAbsent(m: Store, key: Bytes, now: nat, s: Slot)
      requires LiveSlot(m, key, now).None?
      ensures key !in Evicted(m, key, now) && Evicted(m, key, now)[key := s] == m[key := s]
    {
    }

    method Set(key: Bytes, value: Json, ttl: nat, now: nat, later: nat) returns (ok: bool)
      requires Valid()
      modifies this`buckets, this`count, this`store, this`expired, this`sets, buckets
      ensures Valid() && (buckets == old(buckets) || fresh(buckets))
      ensures (store, Result.Done(ok)) == Apply(old(store), Op.Set(key, value, ttl), now, later, add)
    {
      SetOwned(key, value, ttl, now, later);
      return true;
    }

    method Get(key: Bytes, now: nat) returns (value: Option<Json>)
      requires Valid()
      modifies this`count, this`store, this`expired, this`hits, this`misses, buckets
      ensures Valid() && buckets == old(buckets)
      ensures (store, Found(value)) == Apply(old(store), Op.Get(key), now, now, add)
      ensures hits + misses == old(hits + misses) + 1 && (hits > old(hits) <==> value.Some?)
    {
      hide Represents, TotalLength, PowerOfTwo, HashKey, Bucket;
      var found := Find(key, now);
      if found.Some? {
        hits := hits + 1;
        return Some(buckets[Bucket(key, buckets.Length)][found.value].value);
      }
      misses := misses + 1;
      return None;
    }

    method Del(key: Bytes, now: nat) returns (existed: bool)
      requires Valid()
      modifies this`count, this`store, this`expired, buckets
      ensures Valid() && buckets == old(buckets)
      ensures (store, Result.Done(existed)) == Apply(old(store), Op.Del(key), now, now, add)
    {
      hide Represents, TotalLength, PowerOfTwo, HashKey, Bucket;
      var found := Find(key, now);
      EvictedGone(old(store), key, now);
      if found.Some? { Unlink(Bucket(key, buckets.Length), found.value); }
      return found.Some?;
    }

    static lemma EvictedGone(m: Store, key: Bytes, now: nat)
      ensures LiveSlot(m, key, now).None? ==> Evicted(m, key, now) == m - {key}
    {
    }

    method Exists(key: Bytes, now: nat) returns (found: bool)
      requires Valid()
      modifies this`count, this`store, this`expired, buckets
      ensures Valid() && buckets == old(buckets)
      ensures (store, Result.Done(found)) == Apply(old(store), Op.Exists(key), now, now, add)
    {
      hide Represents, TotalLength, PowerOfTwo, HashKey, Bucket;
      var e := Find(key, now);
      return e.Some?;
    }

    /** Adds to a counter, or creates it; a value that is no number is left alone. */
    method Incr(key: Bytes, delta: Number, now: nat, later: nat) returns (total: Option<Number>)
      requires Valid() && now <= later
      modifies this`buckets, this`count, this`store, this`expired, this`sets, buckets
      ensures Valid() && (buckets == old(buckets) || fresh(buckets))
      ensures (store, Sum(total)) == Apply(old(store), Op.Incr(key, delta), now, later, add)
    {
      hide Represents, TotalLength, PowerOfTwo, HashKey, Bucket;
      var found := Find(key, now);
      if found.None? {
        EvictedAbsent(old(store), key, now, Slot(Num(delta), 0));
        SetOwned(key, Num(delta), 0, later, later);
        return Some(delta);
      }
      var e := buckets[Bucket(key, buckets.Length)][found.value];
      if !e.value.Num? { return None; }
      var sum := add(e.value.n, delta);
      Update(key, found.value, Num(sum), e.expires);
      return Some(sum);
    }

    method Expire(key: Bytes, ttl: nat, now: nat, later: nat) returns (ok: bool)
      requires Valid()
      modifies this`count, this`store, this`expired, buckets
      ensures Valid() && buckets == old(buckets)
      ensures (store, Result.Done(ok)) == Apply(old(store), Op.Expire(key, ttl), now, later, add)
    {
      hide Represents, TotalLength, PowerOfTwo, HashKey, Bucket;
      var found := Find(key, now);
      if found.None? { return false; }
      var e := buckets[Bucket(key, buckets.Length)][found.value];
      Update(key, found.value, e.value, if ttl > 0 then later + ttl else 0);
      return true;
    }

    method Ttl(key: Bytes, now: nat, later: nat) returns (ms: int)
      requires Valid()
      modifies this`count, this`store, this`expired, buckets
      ensures Valid() && buckets == old(buckets)
      ensures (store, Left(ms)) == Apply(old(store), Op.Ttl(key), now, later, add)
    {
      hide Represents, TotalLength, PowerOfTwo, HashKey, Bucket;
      var found := Find(key, now);
      if found.None? { return -2; }
      var expires := buckets[Bucket(key, buckets.Length)][found.value].expires;
      if expires == 0 { return -1; }
      var left := expires - later;
      return if left < 0 then 0 else left;
    }

    /** Unlinks the expired entries of one bucket. */
    method SweepBucket(b: nat, now: nat) returns (removed: nat)
      requires Table() && b < buckets.Length
      modifies this`count, this`store, buckets
      ensures Table() && buckets == old(buckets) && count + removed == old(count)
      ensures Live(store, now) == Live(old(store), now) && Fresh(buckets[b], now)
      ensures buckets[..] == old(buckets[..])[b := buckets[b]]
    {
      hide Represents, TotalLength, PowerOfTwo, HashKey, Bucket, Live;
      removed := 0;
      var j := 0;
      while j < |buckets[b]|
        invariant 0 <= j <= |buckets[b]| && Table() && buckets == old(buckets)
        invariant count + removed == old(count) && Live(store, now) == Live(old(store), now)
        invariant buckets[..] == old(buckets[..])[b := buckets[b]]
        invariant Fresh(buckets[b][..j], now)
        decreases |buckets[b]| - j
      {
        ghost var c := buckets[b];
        var e := buckets[b][j];
        EntryStored(buckets[..], store, b, j);
        if e.expires != 0 && e.expires <= now {
          DropsExpired(store, e.key, now);
          Unlink(b, j);
          assert buckets[b][..j] == c[..j];
          removed := removed + 1;
        } else {
          assert buckets[b][..j + 1] == buckets[b][..j] + [e];
          j := j + 1;
        }
      }
      assert buckets[b][..j] == buckets[b];
    }

    /** Unlinks every expired entry and counts them. */
    method Sweep(now: nat) returns (removed: nat)
      requires Valid()
      modifies this`count, this`store, this`expired, buckets
      ensures Valid() && buckets == old(buckets) && count + removed == old(count)
      ensures store == Live(old(store), now) && expired == old(expired) + removed
      ensures (store, Removed(removed)) == Apply(old(store), Op.Sweep, now, now, add)
    {
      LiveAndStale(store, now);
      hide Represents, TotalLength, PowerOfTwo, HashKey, Bucket, Live, Stale, Fresh;
      removed := 0;
      var i := 0;
      while i < buckets.Length
        invariant 0 <= i <= buckets.Length && Table() && buckets == old(buckets) && expired == old(expired)
        invariant count + removed == old(count) && Live(store, now) == Live(old(store), now)
        invariant forall b :: 0 <= b < i ==> Fresh(buckets[b], now)
      {
        ghost var bs := buckets[..];
        var n := SweepBucket(i, now);
        assert forall b :: 0 <= b < i ==> buckets[..][b] == bs[b];
        removed := removed + n;
        i := i + 1;
      }
      AllFresh(buckets[..], store, now);
      expired := expired + removed;
    }

    static predicate Fresh(c: Chain, now: nat) { forall j :: 0 <= j < |c| ==> !Expired(SlotOf(c[j]), now) }

    static lemma DropsExpired(m: Store, key: Bytes, now: nat)
      requires key in m && Expired(m[key], now)
      ensures Live(m - {key}, now) == Live(m, now)
    {
    }

    static lemma AllFresh(bs: seq<Chain>, m: Store, now: nat)
      requires Represents(bs, m) && forall b :: 0 <= b < |bs| ==> Fresh(bs[b], now)
      ensures Live(m, now) == m
    {
      forall k | k in m ensures !Expired(m[k], now) {
        Lookup(bs, m, k);
        assert Fresh(bs[Bucket(k, |bs|)], now);
      }
    }

    method Clear()
      requires Valid()
      modifies this`count, this`store, buckets
      ensures Valid() && buckets == old(buckets) && store == map[] && count == 0
      ensures forall now, later :: Apply(old(store), Op.Clear, now, later, add) == (store, Result.Done(true))
    {
      hide PowerOfTwo, Represents, TotalLength, HashKey, Bucket;
      var i := 0;
      while i < buckets.Length
        invariant 0 <= i <= buckets.Length && buckets == old(buckets)
        invariant forall b :: 0 <= b < i ==> buckets[b] == []
      {
        buckets[i] := [];
        i := i + 1;
      }
      count, store := 0, map[];
      Empty(buckets[..]);
    }

    /** How many entries are stored, expired ones that nobody looked up included. */
    method Count() returns (n: nat)
      requires Valid()
      ensures n == |store|
      ensures forall now, later :: Apply(store, Op.Count, now, later, add) == (store, Stored(n))
    {
      hide Represents, TotalLength, PowerOfTwo, HashKey, Bucket, Live, Stale;
      n := count;
    }
  }
}
