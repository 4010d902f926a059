/** The key-value store as a map with expiry times, and why lazy eviction cannot be observed. */
module KvSpec {
  import opened Bytes
  import opened Options
  import opened JsonValue

  /** A stored value; expires == 0 means never. */
  datatype Slot = Slot(value: Json, expires: nat)

  type Store = map<Bytes, Slot>

  predicate Expired(s: Slot, now: nat) { s.expires != 0 && s.expires <= now }

  /** The entries that have not expired. */
  function Live(m: Store, now: nat): Store { map k | k in m && !Expired(m[k], now) :: m[k] }

  /** The entries that have. */
  function Stale(m: Store, now: nat): Store { map k | k in m && Expired(m[k], now) :: m[k] }

  lemma LiveAndStale(m: Store, now: nat)
    ensures |m| == |Live(m, now)| + |Stale(m, now)|
  {
    assert m.Keys == Live(m, now).Keys + Stale(m, now).Keys;
    assert |m.Keys| == |m| && |Live(m, now).Keys| == |Live(m, now)| && |Stale(m, now).Keys| == |Stale(m, now)|;
  }

  function LiveSlot(m: Store, key: Bytes, now: nat): Option<Slot>
  {
    if key in m && !Expired(m[key], now) then Some(m[key]) else None
  }

  /** The store once a lookup of this key has dropped its expired entry. */
  function Evicted(m: Store, key: Bytes, now: nat): Store
  {
    if key in m && Expired(m[key], now) then m - {key} else m
  }

  function ExpiryAt(ttl: nat, now: nat): nat { if ttl == 0 then 0 else now + ttl }

  /** The sum of two doubles is a parameter. */
  type Adder = (Number, Number) -> Number

  datatype Op =
    | Set(key: Bytes, value: Json, ttl: nat)
    | Get(key: Bytes)
    | Del(key: Bytes)
    | Exists(key: Bytes)
    | Incr(key: Bytes, delta: Number)
    | Expire(key: Bytes, ttl: nat)
    | Ttl(key: Bytes)
    | Sweep
    | Count
    | Clear

  datatype Result =
    | Done(ok: bool) | Found(value: Option<Json>) | Sum(total: Option<Number>) | Left(ms: int)
    | Removed(n: nat) | Stored(n: nat)

  /** The clock is read when the entry is looked up and, for an expiry time, once more after that. */
  function Apply(m: Store, op: Op, now: nat, later: nat, add: Adder): (Store, Result)
  {
    match op
    case Set(key, value, ttl) => (m[key := Slot(value, ExpiryAt(ttl, later))], Done(true))
    case Get(key) =>
      var s := LiveSlot(m, key, now);
      (Evicted(m, key, now), Found(if s.Some? then Some(s.value.value) else None))
    case Del(key) => (m - {key}, Done(LiveSlot(m, key, now).Some?))
    case Exists(key) => (Evicted(m, key, now), Done(LiveSlot(m, key, now).Some?))
    case Incr(key, delta) =>
      var s := LiveSlot(m, key, now);
      if s.None? then (m[key := Slot(Num(delta), 0)], Sum(Some(delta)))
      else if !s.value.value.Num? then (m, Sum(None))
      else
        var total := add(s.value.value.n, delta);
        (m[key := s.value.(value := Num(total))], Sum(Some(total)))
    case Expire(key, ttl) =>
      var s := LiveSlot(m, key, now);
      if s.None? then (Evicted(m, key, now), Done(false))
      else (m[key := s.value.(expires := ExpiryAt(ttl, later))], Done(true))
    case Ttl(key) =>
      var s := LiveSlot(m, key, now);
      (Evicted(m, key, now), Left(if s.None? then -2 else TimeLeft(s.value, later)))
    case Sweep => (Live(m, now), Removed(|Stale(m, now)|))
    case Count => (m, Stored(|m|))
    case Clear => (map[], Done(true))
  }

  /** -1 without an expiry time, otherwise the milliseconds left, never negative. */
  function TimeLeft(s: Slot, now: nat): int
  {
    if s.expires == 0 then -1 else if s.expires < now then 0 else s.expires - now
  }

  // --- Runs under a clock that does not go back ---

  datatype Call = Call(op: Op, now: nat, later: nat)

  function Later(a: nat, b: nat): nat { if a < b then b else a }

  /** The clock was last read at t, and each call reads it after those before it; but a sweep may have read it earlier. */
  predicate Ordered(calls: seq<Call>, t: nat)
  {
    calls != [] ==>
      var c := calls[0];
      c.now <= c.later && (t <= c.now || c.op.Sweep?) && Ordered(calls[1..], Later(t, c.later))
  }

  /** The results of the calls on a store; before each call any expired entries in `drops` are gone as well. */
  function Results(m: Store, calls: seq<Call>, drops: seq<set<Bytes>>, add: Adder): (r: seq<Result>)
    requires |drops| == |calls|
    ensures |r| == |calls|
    decreases |calls|
  {
    if calls == [] then []
    else
      var c := calls[0];
      var r := Apply(Dropped(m, drops[0], c.now), c.op, c.now, c.later, add);
      [r.1] + Results(r.0, calls[1..], drops[1..], add)
  }

  /** The store that call k of such a run finds. */
  function Before(m: Store, calls: seq<Call>, drops: seq<set<Bytes>>, add: Adder, k: nat): Store
    requires |drops| == |calls| && k < |calls|
    decreases |calls|
  {
    var c := calls[0];
    var x := Dropped(m, drops[0], c.now);
    if k == 0 then x else Before(Apply(x, c.op, c.now, c.later, add).0, calls[1..], drops[1..], add, k - 1)
  }

  /** The calls whose answer counts entries. */
  predicate Counting(op: Op) { op.Sweep? || op.Count? }

  /** The store without the expired entries among these keys. */
  function Dropped(m: Store, keys: set<Bytes>, now: nat): Store
  {
    map k | k in m && !(k in keys && Expired(m[k], now)) :: m[k]
  }

  lemma LiveLater(m: Store, a: nat, b: nat)
    requires a <= b
    ensures Live(Live(m, a), b) == Live(m, b)
  {
  }

  lemma LiveAlike(m: Store, i: Store, a: nat, b: nat)
    requires Live(m, a) == Live(i, a) && a <= b
    ensures Live(m, b) == Live(i, b)
  {
    LiveLater(m, a, b);
    LiveLater(i, a, b);
  }

  lemma SlotsAlike(m: Store, i: Store, key: Bytes, now: nat)
    requires Live(m, now) == Live(i, now)
    ensures LiveSlot(m, key, now) == LiveSlot(i, key, now)
  {
    assert LiveSlot(m, key, now) == if key in Live(m, now) then Some(Live(m, now)[key]) else None;
    assert LiveSlot(i, key, now) == if key in Live(i, now) then Some(Live(i, now)[key]) else None;
  }

  lemma EvictedIsLive(m: Store, key: Bytes, now: nat)
    ensures Live(Evicted(m, key, now), now) == Live(m, now)
  {
  }

  lemma DroppedIsLive(m: Store, keys: set<Bytes>, now: nat)
    ensures Live(Dropped(m, keys, now), now) == Live(m, now)
  {
  }

  lemma PutAlike(m: Store, i: Store, key: Bytes, s: Slot, now: nat)
    requires Live(m, now) == Live(i, now)
    ensures Live(m[key := s], now) == Live(i[key := s], now)
  {
    PutLive(m, key, s, now);
    PutLive(i, key, s, now);
  }

  lemma PutLive(m: Store, key: Bytes, s: Slot, now: nat)
    ensures Live(m[key := s], now) == if Expired(s, now) then Live(m, now) - {key} else Live(m, now)[key := s]
  {
  }

  lemma RemoveAlike(m: Store, i: Store, key: Bytes, now: nat)
    requires Live(m, now) == Live(i, now)
    ensures Live(m - {key}, now) == Live(i - {key}, now)
  {
    assert Live(m - {key}, now) == Live(m, now) - {key};
    assert Live(i - {key}, now) == Live(i, now) - {key};
  }

  /** Stores with the same live entries are of one size exactly if they hold equally many expired ones. */
  lemma SizesAlike(m: Store, i: Store, now: nat)
    requires Live(m, now) == Live(i, now)
    ensures |m| == |i| <==> |Stale(m, now)| == |Stale(i, now)|
  {
    hide Live, Stale;
    LiveAndStale(m, now);
    LiveAndStale(i, now);
  }

  /** A call changes only what is live, and its answer depends on that alone unless it counts entries. */
  lemma CallsAlike(m: Store, i: Store, c: Call, add: Adder)
    requires Live(m, c.now) == Live(i, c.now)
    ensures var x, y := Apply(m, c.op, c.now, c.later, add), Apply(i, c.op, c.now, c.later, add);
            && Live(x.0, c.now) == Live(y.0, c.now)
            && (x.1 == y.1 <==> !Counting(c.op) || |Stale(m, c.now)| == |Stale(i, c.now)|)
  {
    hide Live, LiveSlot, Evicted, Stale;
    match c.op
    case Set(key, value, ttl) => PutAlike(m, i, key, Slot(value, ExpiryAt(ttl, c.later)), c.now);
    case Del(key) => SlotsAlike(m, i, key, c.now); RemoveAlike(m, i, key, c.now);
    case Incr(key, delta) =>
      SlotsAlike(m, i, key, c.now);
      var s := LiveSlot(m, key, c.now);
      PutAlike(m, i, key, Slot(Num(delta), 0), c.now);
      if s.Some? && s.value.value.Num? {
        PutAlike(m, i, key, s.value.(value := Num(add(s.value.value.n, delta))), c.now);
      }
    case Expire(key, ttl) =>
      SlotsAlike(m, i, key, c.now);
      EvictedIsLive(m, key, c.now);
      EvictedIsLive(i, key, c.now);
      var s := LiveSlot(m, key, c.now);
      if s.Some? { PutAlike(m, i, key, s.value.(expires := ExpiryAt(ttl, c.later)), c.now); }
    case Sweep => LiveLater(m, c.now, c.now); LiveLater(i, c.now, c.now);
    case Count => SizesAlike(m, i, c.now);
    case Clear =>
    case _ =>
      SlotsAlike(m, i, c.op.key, c.now);
      EvictedIsLive(m, c.op.key, c.now);
      EvictedIsLive(i, c.op.key, c.now);
  }

  /** A sweep with an old reading of the clock leaves what is live now alone. */
  lemma LateSweep(m: Store, keys: set<Bytes>, now: nat, t: nat)
    requires now <= t
    ensures Live(Live(Dropped(m, keys, now), now), t) == Live(m, t)
  {
    DroppedIsLive(m, keys, now);
    LiveLater(m, now, t);
  }

  /** One call on two stores that hold the same live entries, whichever expired ones are dropped first. */
  lemma StepsAlike(m: Store, i: Store, c: Call, drops: set<Bytes>, keeps: set<Bytes>, t: nat, add: Adder)
    requires Live(m, t) == Live(i, t) && c.now <= c.later && (t <= c.now || c.op.Sweep?)
    ensures var x, y := Dropped(m, drops, c.now), Dropped(i, keeps, c.now);
            var a, b := Apply(x, c.op, c.now, c.later, add), Apply(y, c.op, c.now, c.later, add);
            && Live(a.0, Later(t, c.later)) == Live(b.0, Later(t, c.later))
            && (a.1 == b.1 <==> !Counting(c.op) || |Stale(x, c.now)| == |Stale(y, c.now)|)
  {
    hide Live, Dropped, Stale;
    var x, y := Dropped(m, drops, c.now), Dropped(i, keeps, c.now);
    if t <= c.now {
      hide Apply;
      LiveAlike(m, i, t, c.now);
      DroppedIsLive(m, drops, c.now);
      DroppedIsLive(i, keeps, c.now);
      CallsAlike(x, y, c, add);
      LiveAlike(Apply(x, c.op, c.now, c.later, add).0, Apply(y, c.op, c.now, c.later, add).0, c.now, Later(t, c.later));
    } else {
      LateSweep(m, drops, c.now, t);
      LateSweep(i, keeps, c.now, t);
      LiveAlike(Live(x, c.now), Live(y, c.now), t, Later(t, c.later));
    }
  }

  /**
   * Whichever expired entries are dropped along the way, and when: a call of the run answers the same, unless it counts
   * entries; then it does exactly if it finds equally many expired ones.
   */
  lemma {:induction false} EvictionIsInvisible(
      m: Store, i: Store, calls: seq<Call>, drops: seq<set<Bytes>>, keeps: seq<set<Bytes>>, t: nat, add: Adder, k: nat)
    requires Live(m, t) == Live(i, t) && Ordered(calls, t) && |drops| == |calls| == |keeps| && k < |calls|
    ensures var x, y := Before(m, calls, drops, add, k), Before(i, calls, keeps, add, k);
            Results(m, calls, drops, add)[k] == Results(i, calls, keeps, add)[k]
            <==> !Counting(calls[k].op) || |Stale(x, calls[k].now)| == |Stale(y, calls[k].now)|
    decreases |calls|
  {
    hide Live, Apply, Dropped, Stale;
    var c := calls[0];
    StepsAlike(m, i, c, drops[0], keeps[0], t, add);
    if k > 0 {
      var x, y := Dropped(m, drops[0], c.now), Dropped(i, keeps[0], c.now);
      EvictionIsInvisible(
        Apply(x, c.op, c.now, c.later, add).0, Apply(y, c.op, c.now, c.later, add).0,
        calls[1..], drops[1..], keeps[1..], Later(t, c.later), add, k - 1);
    }
  }

  /** With one expired entry, a sweep and a count tell whether it was dropped before. */
  lemma CountsTell(key: Bytes, v: Json, now: nat, op: Op, add: Adder)
    requires now >= 1 && Counting(op)
    ensures var m, calls := map[key := Slot(v, 1)], [Call(op, now, now)];
            Results(m, calls, [{}], add)[0].n == 1 && Results(m, calls, [{key}], add)[0].n == 0
  {
    var m := map[key := Slot(v, 1)];
    assert Dropped(m, {}, now) == m && Stale(m, now) == m;
    assert Dropped(m, {key}, now) == map[] && Stale(map[], now) == map[];
  }
}

/** What each call answers, and what it leaves to be found later. */
module KvLaws {
  import opened Bytes
  import opened Options
  import opened JsonValue
  import opened KvSpec

  /** Until when a key set at this time is found: forever, or as long as its time to live has not passed. */
  predicate InTime(ttl: nat, since: nat, u: nat) { ttl == 0 || u < since + ttl }

  /** A key that was set is found with its value before its time is up, and not from then on. */
  lemma SetDoes(m: Store, key: Bytes, v: Json, ttl: nat, now: nat, later: nat, u: nat, add: Adder)
    ensures var (r, a) := Apply(m, Set(key, v, ttl), now, later, add);
            && a == Done(true)
            && Apply(r, Get(key), u, u, add).1 == Found(if InTime(ttl, later, u) then Some(v) else None)
            && Apply(r, Exists(key), u, u, add).1 == Done(InTime(ttl, later, u))
            && Apply(r, Ttl(key), u, u, add).1
               == Left(if !InTime(ttl, later, u) then -2 else if ttl == 0 then -1 else later + ttl - u)
  {
  }

  lemma DelDoes(m: Store, key: Bytes, now: nat, u: nat, add: Adder)
    ensures var (r, a) := Apply(m, Del(key), now, now, add);
            && a == Apply(m, Exists(key), now, now, add).1
            && Apply(r, Get(key), u, u, add).1 == Found(None)
  {
  }

  /** A new time to live counts from now; the value stays, and a key that is not there stays away. */
  lemma ExpireDoes(m: Store, key: Bytes, ttl: nat, now: nat, later: nat, u: nat, add: Adder)
    requires now <= u
    ensures var (r, a) := Apply(m, Expire(key, ttl), now, later, add);
            && a == Apply(m, Exists(key), now, now, add).1
            && Apply(r, Get(key), u, u, add).1
               == (if a == Done(true) && InTime(ttl, later, u) then Apply(m, Get(key), now, now, add).1 else Found(None))
  {
  }

  /** A counter moves by the delta and keeps its time; a missing one starts at the delta; anything else is refused. */
  lemma IncrDoes(m: Store, key: Bytes, delta: Number, now: nat, u: nat, add: Adder)
    requires now <= u
    ensures var (r, a) := Apply(m, Incr(key, delta), now, now, add);
            match Apply(m, Get(key), now, now, add).1
            case Found(None) =>
              a == Sum(Some(delta)) && Apply(r, Get(key), u, u, add).1 == Found(Some(Num(delta)))
            case Found(Some(Num(n))) =>
              && a == Sum(Some(add(n, delta)))
              && Apply(r, Get(key), u, u, add).1
                 == (if Apply(m, Exists(key), u, u, add).1 == Done(true) then Found(Some(Num(add(n, delta)))) else Found(None))
              && Apply(r, Ttl(key), u, u, add).1 == Apply(m, Ttl(key), u, u, add).1
            case _ => a == Sum(None) && Apply(r, Get(key), u, u, add).1 == Apply(m, Get(key), u, u, add).1
  {
  }

  lemma ClearDoes(m: Store, now: nat, key: Bytes, u: nat, add: Adder)
    ensures Apply(Apply(m, Clear, now, now, add).0, Get(key), u, u, add).1 == Found(None)
  {
  }

  /** The call changes what is stored under this key. */
  predicate Touches(op: Op, key: Bytes)
  {
    match op
    case Set(k, _, _) => k == key
    case Del(k) => k == key
    case Incr(k, _) => k == key
    case Expire(k, _) => k == key
    case Clear => true
    case _ => false
  }

  /** Every other call leaves what will be found under the key alone. */
  lemma OthersLeave(m: Store, c: Call, key: Bytes, u: nat, add: Adder)
    requires !Touches(c.op, key) && c.now <= u
    ensures LiveSlot(Apply(m, c.op, c.now, c.later, add).0, key, u) == LiveSlot(m, key, u)
  {
  }

  lemma {:induction false} RunLeaves(
      m: Store, calls: seq<Call>, drops: seq<set<Bytes>>, key: Bytes, u: nat, add: Adder, k: nat)
    requires |drops| == |calls| && k < |calls| && forall i :: 0 <= i <= k ==> calls[i].now <= u
    requires forall i :: 0 <= i < k ==> !Touches(calls[i].op, key)
    ensures LiveSlot(Before(m, calls, drops, add, k), key, u) == LiveSlot(m, key, u)
    decreases k
  {
    hide Apply;
    var c := calls[0];
    var x := Dropped(m, drops[0], c.now);
    if k > 0 {
      OthersLeave(x, c, key, u, add);
      RunLeaves(Apply(x, c.op, c.now, c.later, add).0, calls[1..], drops[1..], key, u, add, k - 1);
    }
  }

  lemma {:induction false} ResultBefore(m: Store, calls: seq<Call>, drops: seq<set<Bytes>>, add: Adder, k: nat)
    requires |drops| == |calls| && k < |calls|
    ensures Results(m, calls, drops, add)[k]
         == Apply(Before(m, calls, drops, add, k), calls[k].op, calls[k].now, calls[k].later, add).1
    decreases k
  {
    hide Apply, Dropped;
    if k > 0 {
      var c := calls[0];
      ResultBefore(Apply(Dropped(m, drops[0], c.now), c.op, c.now, c.later, add).0, calls[1..], drops[1..], add, k - 1);
    }
  }

  /**
   * In every run whose clock does not go back, whatever is evicted: after a key was set, and with no other call that
   * changes it in between, a look at it finds the value before its time to live has passed, and nothing from then on.
   */
  lemma FoundUntilItExpires(
      m: Store, calls: seq<Call>, drops: seq<set<Bytes>>, key: Bytes, v: Json, ttl: nat, add: Adder, k: nat)
    requires |drops| == |calls| && 0 < k < |calls|
    requires calls[0].op == Set(key, v, ttl) && calls[k].op == Get(key)
    requires forall i :: 0 < i < k ==> !Touches(calls[i].op, key)
    requires forall i :: 0 <= i <= k ==> calls[i].now <= calls[k].now
    ensures Results(m, calls, drops, add)[k]
         == Found(if InTime(ttl, calls[0].later, calls[k].now) then Some(v) else None)
  {
    var c, u := calls[0], calls[k].now;
    var r := Apply(Dropped(m, drops[0], c.now), c.op, c.now, c.later, add).0;
    ResultBefore(m, calls, drops, add, k);
    assert calls[1..][k - 1] == calls[k];
    RunLeaves(r, calls[1..], drops[1..], key, u, add, k - 1);
    assert Before(m, calls, drops, add, k) == Before(r, calls[1..], drops[1..], add, k - 1);
    hide Before, Results;
    assert LiveSlot(r, key, u) == if InTime(ttl, c.later, u) then Some(Slot(v, ExpiryAt(ttl, c.later))) else None;
  }
}

/** The hash table: chains of entries in buckets, and what it means that they hold a store. */
module KvTable {
  import opened Bytes
  import opened JsonValue
  import opened KvSpec
  import opened Modular

  const WORD: nat := 0x1_0000_0000_0000_0000
  const PRIME: nat := 0x100_0000_01B3

  datatype Entry = Entry(key: Bytes, hash: nat, value: Json, expires: nat)

  type Chain = seq<Entry>

  /** One round of the hash: exclusive or with a byte, times the prime, in 64 bits. */
  function Mix(h: nat, c: byte): (r: nat)
    requires h < WORD
    ensures r < WORD
  {
    ((h as bv64) ^ (c as bv64)) as nat * PRIME % WORD
  }

  function HashFrom(h: nat, s: Bytes): (r: nat)
    requires h < WORD
    ensures r < WORD
    decreases |s|
  {
    if s == [] then h else HashFrom(Mix(h, s[0]), s[1..])
  }

  function HashKey(s: Bytes): (r: nat)
    ensures r < WORD
  {
    HashFrom(0xCBF2_9CE4_8422_2325, s)
  }

  /** Bit by bit. */
  function And(a: nat, b: nat): (r: nat)
    ensures r <= b
  {
    if b == 0 then 0 else And(a / 2, b / 2) * 2 + a % 2 * (b % 2)
  }

  /** The bucket of a key: its hash masked with one less than the number of buckets. */
  function Bucket(key: Bytes, n: nat): (b: nat)
    requires 0 < n
    ensures b < n
  {
    And(HashKey(key), n - 1)
  }

  predicate PowerOfTwo(n: nat)
  {
    n == 1 || (n > 0 && n % 2 == 0 && PowerOfTwo(n / 2))
  }

  /** With a power of two of buckets the mask is the remainder. */
  lemma {:induction false} MaskIsRemainder(h: nat, n: nat)
    requires PowerOfTwo(n)
    ensures And(h, n - 1) == h % n
  {
    if n > 1 {
      var m := n / 2;
      MaskIsRemainder(h / 2, m);
      HalvesRemain(h, m);
    }
  }

  lemma HalvesRemain(h: nat, m: nat)
    requires 0 < m
    ensures h % (2 * m) == h / 2 % m * 2 + h % 2
  {
    var q, r := h / 2 / m, h / 2 % m;
    assert h == 2 * (h / 2) + h % 2 && h / 2 == m * q + r;
    assert 2 * (m * q) == 2 * m * q;
    ModUnique(h, q, r * 2 + h % 2, 2 * m);
  }

  function SlotOf(e: Entry): Slot { Slot(e.value, e.expires) }

  function IndexOf(c: Chain, key: Bytes): (i: nat)
    ensures i <= |c| && (i < |c| ==> c[i].key == key)
    ensures forall j :: 0 <= j < i ==> c[j].key != key
  {
    if c == [] || c[0].key == key then 0 else 1 + IndexOf(c[1..], key)
  }

  predicate HasEntry(c: Chain, key: Bytes) { IndexOf(c, key) < |c| }

  predicate DistinctKeys(c: Chain) { forall i, j :: 0 <= i < j < |c| ==> c[i].key != c[j].key }

  /** Every entry sits in the bucket of its hash, no key occurs twice, and the entries are those of the store. */
  ghost predicate Represents(bs: seq<Chain>, m: Store)
  {
    && 0 < |bs|
    && (forall b :: 0 <= b < |bs| ==> ChainOk(bs[b], b, |bs|, m))
    && (forall k :: k in m ==> HasEntry(bs[Bucket(k, |bs|)], k))
  }

  predicate ChainOk(c: Chain, b: nat, n: nat, m: Store)
    requires 0 < n
  {
    && DistinctKeys(c)
    && forall j :: 0 <= j < |c| ==>
         c[j].hash == HashKey(c[j].key) && Bucket(c[j].key, n) == b && c[j].key in m && m[c[j].key] == SlotOf(c[j])
  }

  function TotalLength(bs: seq<Chain>): nat
  {
    if bs == [] then 0 else |bs[0]| + TotalLength(bs[1..])
  }

  lemma {:induction false} TotalReplaced(bs: seq<Chain>, b: nat, c: Chain)
    requires b < |bs|
    ensures TotalLength(bs[b := c]) + |bs[b]| == TotalLength(bs) + |c|
  {
    if b > 0 {
      TotalReplaced(bs[1..], b - 1, c);
      assert bs[b := c][1..] == bs[1..][b - 1 := c];
    } else {
      assert bs[b := c][1..] == bs[1..];
    }
  }

  lemma {:induction false} NoEntries(bs: seq<Chain>)
    requires forall b :: 0 <= b < |bs| ==> bs[b] == []
    ensures TotalLength(bs) == 0
  {
    if bs != [] { NoEntries(bs[1..]); }
  }

  /** The position of a key in its chain is the only one. */
  lemma OnlyIndex(c: Chain, i: nat)
    requires DistinctKeys(c) && i < |c|
    ensures IndexOf(c, c[i].key) == i
  {
  }

  lemma Lookup(bs: seq<Chain>, m: Store, key: Bytes)
    requires Represents(bs, m)
    ensures var c := bs[Bucket(key, |bs|)];
            (key in m <==> HasEntry(c, key)) && (key in m ==> m[key] == SlotOf(c[IndexOf(c, key)]))
  {
    var b := Bucket(key, |bs|);
    assert ChainOk(bs[b], b, |bs|, m);
  }

  // --- The four ways a table changes ---

  lemma Inserts(bs: seq<Chain>, m: Store, e: Entry)
    requires Represents(bs, m) && e.key !in m && e.hash == HashKey(e.key)
    ensures var b := Bucket(e.key, |bs|); Represents(bs[b := [e] + bs[b]], m[e.key := SlotOf(e)])
  {
    hide Bucket, HashKey;
    var n, b := |bs|, Bucket(e.key, |bs|);
    var after, store := bs[b := [e] + bs[b]], m[e.key := SlotOf(e)];
    forall a | 0 <= a < n ensures ChainOk(after[a], a, n, store) {
      assert ChainOk(bs[a], a, n, m);
    }
    forall k | k in store ensures HasEntry(after[Bucket(k, n)], k) {
      if k == e.key { assert after[b][0].key == k; } else { KeptInFront(bs[b], e, k); }
    }
  }

  lemma KeptInFront(c: Chain, e: Entry, key: Bytes)
    ensures HasEntry(c, key) ==> HasEntry([e] + c, key)
  {
    var i := IndexOf(c, key);
    assert i < |c| ==> ([e] + c)[i + 1].key == key;
  }

  lemma Removes(bs: seq<Chain>, m: Store, b: nat, i: nat)
    requires Represents(bs, m) && b < |bs| && i < |bs[b]|
    ensures var c := bs[b]; Represents(bs[b := c[..i] + c[i + 1..]], m - {c[i].key})
  {
    hide Bucket, HashKey;
    var n, c := |bs|, bs[b];
    var key := c[i].key;
    var after, store := bs[b := c[..i] + c[i + 1..]], m - {key};
    forall a | 0 <= a < n ensures ChainOk(after[a], a, n, store) {
      assert ChainOk(bs[a], a, n, m);
      assert ChainOk(c, b, n, m);
    }
    forall k | k in store ensures HasEntry(after[Bucket(k, n)], k) { KeptInRest(c, i, k); }
  }

  lemma KeptInRest(c: Chain, i: nat, key: Bytes)
    requires i < |c| && key != c[i].key
    ensures HasEntry(c, key) ==> HasEntry(c[..i] + c[i + 1..], key)
  {
    var j, rest := IndexOf(c, key), c[..i] + c[i + 1..];
    assert j < |c| && j < i ==> rest[j].key == key;
    assert j < |c| && j > i ==> rest[j - 1].key == key;
  }

  lemma Updates(bs: seq<Chain>, m: Store, b: nat, i: nat, e: Entry)
    requires Represents(bs, m) && b < |bs| && i < |bs[b]| && e.key == bs[b][i].key && e.hash == bs[b][i].hash
    ensures Represents(bs[b := bs[b][i := e]], m[e.key := SlotOf(e)])
  {
    hide Bucket, HashKey;
    var n, c := |bs|, bs[b];
    var after, store := bs[b := c[i := e]], m[e.key := SlotOf(e)];
    forall a | 0 <= a < n ensures ChainOk(after[a], a, n, store) {
      assert ChainOk(bs[a], a, n, m);
      assert ChainOk(c, b, n, m);
    }
    forall k | k in store ensures HasEntry(after[Bucket(k, n)], k) {
      assert k != e.key ==> HasEntry(bs[Bucket(k, n)], k);
      KeptInPlace(c, i, e, k);
      assert c[i := e][i].key == e.key;
    }
  }

  lemma KeptInPlace(c: Chain, i: nat, e: Entry, key: Bytes)
    requires i < |c| && e.key == c[i].key
    ensures HasEntry(c, key) <==> HasEntry(c[i := e], key)
  {
    var d := c[i := e];
    assert HasEntry(c, key) ==> d[IndexOf(c, key)].key == key;
    assert HasEntry(d, key) ==> c[IndexOf(d, key)].key == key;
  }

  lemma Empty(bs: seq<Chain>)
    requires 0 < |bs| && forall b :: 0 <= b < |bs| ==> bs[b] == []
    ensures Represents(bs, map[]) && TotalLength(bs) == 0
  {
    NoEntries(bs);
  }
}
