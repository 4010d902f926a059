/** Positions in a circular buffer. */
module Modular {
  lemma Multiples(cap: nat, d: int)
    requires 0 < cap
    ensures d >= 1 ==> cap * d >= cap
    ensures d <= -1 ==> cap * d <= -(cap as int)
  {
  }

  lemma ModUnique(x: nat, q: nat, r: nat, cap: nat)
    requires 0 < cap && x == cap * q + r && r < cap
    ensures x % cap == r
  {
    var d := x / cap - q;
    assert x == cap * (x / cap) + x % cap;
    assert cap * (x / cap) - cap * q == cap * d;
    Multiples(cap, d);
  }

  /** Positions less than a capacity apart fall on different bytes. */
  lemma DifferentSlots(cap: nat, a: nat, b: nat)
    requires 0 < cap && a < b < a + cap
    ensures a % cap != b % cap
  {
    var d := b / cap - a / cap;
    assert b - a == cap * d + (b % cap - a % cap) by {
      assert cap * (b / cap) - cap * (a / cap) == cap * d;
    }
    Multiples(cap, d);
  }
}

/** The single-producer single-consumer ring in shared memory: frames, and where the copies put their bytes. */
module RingFrames {
  import opened Bytes
  import opened Modular

  const MAX_LENGTH: nat := 0xFFFFFFFF

  /** The four bytes of a length, least significant first. */
  function Prefix32(n: nat): (r: Bytes)
    requires n <= MAX_LENGTH
    ensures |r| == 4
  {
    [n % 256, n / 256 % 256, n / 65536 % 256, n / 16777216]
  }

  function Value32(b: Bytes): nat
    requires |b| == 4
  {
    var b0: nat, b1: nat, b2: nat, b3: nat := b[0], b[1], b[2], b[3];
    b0 + 256 * b1 + 65536 * b2 + 16777216 * b3
  }

  lemma PrefixReadsBack(n: nat)
    requires n <= MAX_LENGTH
    ensures Value32(Prefix32(n)) == n
  {
    assert n / 256 == n / 65536 * 256 + n / 256 % 256;
    assert n / 65536 == n / 16777216 * 256 + n / 65536 % 256;
  }

  /** A message that fits the length field. */
  type Message = m: Bytes | |m| <= MAX_LENGTH

  function Frame(m: Message): (r: Bytes)
    ensures |r| == 4 + |m|
  {
    Prefix32(|m|) + m
  }

  function Frames(ms: seq<Message>): Bytes
  {
    if ms == [] then [] else Frame(ms[0]) + Frames(ms[1..])
  }

  lemma {:induction false} FramesOfSum(a: seq<Message>, b: seq<Message>)
    ensures Frames(a + b) == Frames(a) + Frames(b)
    decreases |a|
  {
    if a == [] {
      assert a + b == b;
    } else {
      FramesOfSum(a[1..], b);
      assert (a + b)[1..] == a[1..] + b;
      hide Frame;
      assert Frame(a[0]) + (Frames(a[1..]) + Frames(b)) == (Frame(a[0]) + Frames(a[1..])) + Frames(b);
    }
  }

  lemma FramesOfOne(m: Message)
    ensures Frames([m]) == Frame(m)
  {
    assert Frames([m]) == Frame(m) + [];
  }

  /** The byte of the ring that takes byte k of an n-byte copy at pos: two straight copies, split at the end. */
  function CopySlot(cap: nat, pos: nat, n: nat, k: nat): (r: nat)
    requires 0 < cap && k < n <= cap
  {
    var off := pos % cap;
    var first := if n < cap - off then n else cap - off;
    if k < first then off + k else k - first
  }

  /** The split copy is the copy modulo the capacity. */
  lemma SlotIsModular(cap: nat, pos: nat, n: nat, k: nat)
    requires 0 < cap && k < n <= cap
    ensures CopySlot(cap, pos, n, k) == (pos + k) % cap < cap
  {
    var off, q := pos % cap, pos / cap;
    if off + k < cap {
      ModUnique(pos + k, q, off + k, cap);
    } else {
      assert cap * (q + 1) == cap * q + cap;
      ModUnique(pos + k, q + 1, off + k - cap, cap);
    }
  }

  /** The ring holds s from position pos on. */
  predicate Stored(data: Bytes, pos: nat, s: Bytes)
  {
    0 < |data| && forall k :: 0 <= k < |s| ==> data[(pos + k) % |data|] == s[k]
  }

  lemma StoredParts(data: Bytes, pos: nat, a: Bytes, b: Bytes)
    requires 0 < |data|
    ensures Stored(data, pos, a + b) <==> Stored(data, pos, a) && Stored(data, pos + |a|, b)
  {
    if Stored(data, pos, a + b) {
      forall k | 0 <= k < |a| ensures data[(pos + k) % |data|] == a[k] {
        assert (a + b)[k] == a[k];
      }
      forall k | 0 <= k < |b| ensures data[(pos + |a| + k) % |data|] == b[k] {
        assert (a + b)[|a| + k] == b[k];
      }
    }
    if Stored(data, pos, a) && Stored(data, pos + |a|, b) {
      forall k | 0 <= k < |a + b| ensures data[(pos + k) % |data|] == (a + b)[k] {
        if k >= |a| { assert (a + b)[k] == b[k - |a|] && pos + k == pos + |a| + (k - |a|); }
      }
    }
  }

  /** Writing a byte outside the window leaves the window's contents alone. */
  lemma StoredElsewhere(data: Bytes, pos: nat, s: Bytes, at: nat, c: byte)
    requires Stored(data, pos, s) && pos + |s| <= at < pos + |data|
    ensures at % |data| < |data| && Stored(data[at % |data| := c], pos, s)
  {
    var after := data[at % |data| := c];
    forall k | 0 <= k < |s| ensures after[(pos + k) % |after|] == s[k] {
      DifferentSlots(|data|, pos + k, at);
    }
  }
}

/** The ring as a state machine: every load, byte copy and publish is a step, and the two sides interleave freely. */
module RingSteps {
  import opened Bytes
  import opened Modular
  import opened RingFrames

  /** Where the producer stands inside a write. */
  datatype Producer =
    | WriteIdle
    | HeadLoaded(msg: Message, head: nat)
    | CopyingIn(msg: Message, tail: nat, todo: set<nat>)

  /** Where the consumer stands inside a read. */
  datatype Consumer =
    | ReadIdle
    | TailLoaded(tail: nat)
    | CopyingHeader(tail: nat, head: nat, buf: Bytes, todo: set<nat>)
    | CopyingBody(head: nat, buf: Bytes, todo: set<nat>)
    | Corrupted

  datatype State = State(
    data: Bytes,
    head: nat,
    tail: nat,
    producer: Producer,
    consumer: Consumer,
    accepted: seq<Message>,
    delivered: seq<Message>)

  datatype Event =
    | BeginWrite(msg: Bytes)
    | CheckRoom
    | StoreByte(k: nat)
    | PublishTail
    | BeginRead
    | LoadHead
    | LoadByte(k: nat)
    | CheckHeader
    | PublishHead

  function Init(data: Bytes): State
  {
    State(data, 0, 0, WriteIdle, ReadIdle, [], [])
  }

  function Offsets(n: nat): (r: set<nat>)
    ensures forall k :: k in r <==> 0 <= k < n
  {
    if n == 0 then {} else Offsets(n - 1) + {n - 1}
  }

  /** The byte of the ring for byte k of a frame at tail: the header and the body are copied by separate calls. */
  function FrameSlot(cap: nat, tail: nat, len: nat, k: nat): nat
    requires 4 + len <= cap && k < 4 + len
  {
    if k < 4 then CopySlot(cap, tail, 4, k) else CopySlot(cap, tail + 4, len, k - 4)
  }

  /** One step of either side; an event that is not enabled changes nothing. */
  function Next(s: State, e: Event): State
  {
    match e
    case BeginWrite(msg) =>
      if !s.producer.WriteIdle? || |msg| > MAX_LENGTH then s
      else s.(producer := HeadLoaded(msg, s.head))
    case CheckRoom =>
      if !s.producer.HeadLoaded? then s
      else if |s.data| - (s.tail - s.producer.head) < 4 + |s.producer.msg| then s.(producer := WriteIdle)
      else s.(producer := CopyingIn(s.producer.msg, s.tail, Offsets(4 + |s.producer.msg|)))
    case StoreByte(k) => Store(s, k)
    case PublishTail =>
      if !s.producer.CopyingIn? || s.producer.todo != {} then s
      else s.(tail := s.producer.tail + 4 + |s.producer.msg|, producer := WriteIdle,
              accepted := s.accepted + [s.producer.msg])
    case BeginRead =>
      if !s.consumer.ReadIdle? then s else s.(consumer := TailLoaded(s.tail))
    case LoadHead =>
      if !s.consumer.TailLoaded? then s
      else if s.head == s.consumer.tail then s.(consumer := ReadIdle)
      else s.(consumer := CopyingHeader(s.consumer.tail, s.head, Blank(4), Offsets(4)))
    case LoadByte(k) => Load(s, k)
    case CheckHeader =>
      if !s.consumer.CopyingHeader? || s.consumer.todo != {} || |s.consumer.buf| != 4 then s
      else
        var n := Value32(s.consumer.buf);
        if n + 4 > s.consumer.tail - s.consumer.head then s.(consumer := Corrupted)
        else s.(consumer := CopyingBody(s.consumer.head, Blank(n), Offsets(n)))
    case PublishHead =>
      if !s.consumer.CopyingBody? || s.consumer.todo != {} || |s.consumer.buf| > MAX_LENGTH then s
      else s.(head := s.consumer.head + 4 + |s.consumer.buf|, consumer := ReadIdle,
              delivered := s.delivered + [s.consumer.buf])
  }

  function Blank(n: nat): (b: Bytes)
    ensures |b| == n
  {
    seq(n, _ => 0)
  }

  /** The producer copies byte k of its frame; the bytes of a copy go in any order. */
  function Store(s: State, k: nat): State
  {
    if !s.producer.CopyingIn? then s else
    var msg := s.producer.msg;
    if k !in s.producer.todo || 4 + |msg| > |s.data| || k >= 4 + |msg| then s else
    var slot := FrameSlot(|s.data|, s.producer.tail, |msg|, k);
    if slot >= |s.data| then s
    else s.(data := s.data[slot := Frame(msg)[k]], producer := s.producer.(todo := s.producer.todo - {k}))
  }

  /** The consumer copies byte k of the header or of the body. */
  function Load(s: State, k: nat): State
  {
    var c := s.consumer;
    if !(c.CopyingHeader? || c.CopyingBody?) then s
    else if k !in c.todo || k >= |c.buf| || |c.buf| > |s.data| then s else
    var slot := CopySlot(|s.data|, if c.CopyingHeader? then c.head else c.head + 4, |c.buf|, k);
    if slot >= |s.data| then s
    else s.(consumer := c.(buf := c.buf[k := s.data[slot]], todo := c.todo - {k}))
  }

  // --- The invariant ---

  ghost predicate Counted(s: State)
  {
    && 64 <= |s.data|
    && s.delivered <= s.accepted
    && s.head == |Frames(s.delivered)|
    && s.tail == |Frames(s.accepted)|
    && s.head <= s.tail <= s.head + |s.data|
  }

  function Pending(s: State): seq<Message>
    requires s.delivered <= s.accepted
  {
    s.accepted[|s.delivered|..]
  }

  /** The bytes between head and tail are the frames of the messages accepted and not yet delivered. */
  ghost predicate Holding(s: State)
    requires s.delivered <= s.accepted
  {
    Stored(s.data, s.head, Frames(Pending(s)))
  }

  ghost predicate ProducerOk(s: State)
  {
    match s.producer
    case WriteIdle => true
    case HeadLoaded(_, head) => head <= s.head && s.tail <= head + |s.data|
    case CopyingIn(msg, tail, todo) =>
      && tail == s.tail
      && tail + 4 + |msg| <= s.head + |s.data|
      && Copied(s.data, tail, todo, Frame(msg))
  }

  /** The ring holds every byte of the frame that was copied already. */
  predicate Copied(data: Bytes, tail: nat, todo: set<nat>, frame: Bytes)
  {
    0 < |data| && forall k :: 0 <= k < |frame| && k !in todo ==> data[(tail + k) % |data|] == frame[k]
  }

  /** Buffer contents that agree with s wherever they were copied. */
  predicate Partly(buf: Bytes, todo: set<nat>, s: Bytes)
  {
    |buf| == |s| && forall k :: 0 <= k < |s| && k !in todo ==> buf[k] == s[k]
  }

  ghost predicate ConsumerOk(s: State)
    requires s.delivered <= s.accepted
  {
    var p := Pending(s);
    match s.consumer
    case ReadIdle => true
    case TailLoaded(tail) => tail == s.head || (p != [] && tail >= s.head + 4 + |p[0]|)
    case CopyingHeader(tail, head, buf, todo) =>
      head == s.head && p != [] && tail >= head + 4 + |p[0]| && Partly(buf, todo, Prefix32(|p[0]|))
    case CopyingBody(head, buf, todo) => head == s.head && p != [] && Partly(buf, todo, p[0])
    case Corrupted => false
  }

  ghost predicate Inv(s: State)
  {
    Counted(s) && Holding(s) && ProducerOk(s) && ConsumerOk(s)
  }

  // --- Facts about the pending frames ---

  lemma PendingFrames(s: State)
    requires s.delivered <= s.accepted
    ensures |Frames(s.accepted)| == |Frames(s.delivered)| + |Frames(Pending(s))|
    ensures Pending(s) != [] ==> Frames(Pending(s)) == Frame(Pending(s)[0]) + Frames(Pending(s)[1..])
  {
    assert s.accepted == s.delivered + Pending(s);
    FramesOfSum(s.delivered, Pending(s));
  }

  lemma FirstFrame(s: State)
    requires Counted(s) && Holding(s) && Pending(s) != []
    ensures var m := Pending(s)[0];
            && 4 + |m| <= |s.data|
            && Stored(s.data, s.head, Prefix32(|m|))
            && Stored(s.data, s.head + 4, m)
            && Stored(s.data, s.head + 4 + |m|, Frames(Pending(s)[1..]))
  {
    var m := Pending(s)[0];
    PendingFrames(s);
    StoredParts(s.data, s.head, Frame(m), Frames(Pending(s)[1..]));
    StoredParts(s.data, s.head, Prefix32(|m|), m);
  }

  // --- Every step keeps the invariant ---

  lemma CheckRoomKeeps(s: State)
    requires Inv(s)
    ensures Inv(Next(s, CheckRoom))
  {
    hide Frames;
  }

  lemma CopiesOne(data: Bytes, tail: nat, todo: set<nat>, frame: Bytes, k: nat)
    requires Copied(data, tail, todo, frame) && k < |frame| <= |data|
    ensures Copied(data[(tail + k) % |data| := frame[k]], tail, todo - {k}, frame)
  {
    var after := data[(tail + k) % |data| := frame[k]];
    forall j | 0 <= j < |frame| && j !in todo - {k} ensures after[(tail + j) % |after|] == frame[j] {
      if j < k {
        DifferentSlots(|data|, tail + j, tail + k);
      } else if j > k {
        DifferentSlots(|data|, tail + k, tail + j);
      }
    }
  }

  lemma StoreKeeps(s: State, k: nat)
    requires Inv(s)
    ensures Inv(Store(s, k))
  {
    hide Frames, Frame, Copied, Stored, FrameSlot;
    if s.producer.CopyingIn? && k in s.producer.todo && k < 4 + |s.producer.msg| {
      var cap, tail, msg := |s.data|, s.tail, s.producer.msg;
      SlotOfFrame(cap, tail, |msg|, k);
      PendingFrames(s);
      StoredElsewhere(s.data, s.head, Frames(Pending(s)), tail + k, Frame(msg)[k]);
      CopiesOne(s.data, tail, s.producer.todo, Frame(msg), k);
      assert Pending(Store(s, k)) == Pending(s);
    }
  }

  lemma SlotOfFrame(cap: nat, tail: nat, len: nat, k: nat)
    requires 4 + len <= cap && k < 4 + len
    ensures FrameSlot(cap, tail, len, k) == (tail + k) % cap < cap
  {
    if k < 4 { SlotIsModular(cap, tail, 4, k); } else { SlotIsModular(cap, tail + 4, len, k - 4); }
  }

  lemma PublishTailKeeps(s: State)
    requires Inv(s)
    ensures Inv(Next(s, PublishTail))
  {
    hide Frames, Frame, Stored, Copied;
    if s.producer.CopyingIn? && s.producer.todo == {} {
      var msg := s.producer.msg;
      FramesOfSum(s.accepted, [msg]);
      FramesOfSum(Pending(s), [msg]);
      FramesOfOne(msg);
      assert Pending(Next(s, PublishTail)) == Pending(s) + [msg];
      PendingFrames(s);
      AllCopied(s.data, s.tail, Frame(msg));
      StoredParts(s.data, s.head, Frames(Pending(s)), Frame(msg));
    }
  }

  lemma AllCopied(data: Bytes, tail: nat, frame: Bytes)
    requires Copied(data, tail, {}, frame)
    ensures Stored(data, tail, frame)
  {
  }

  lemma BeginReadKeeps(s: State)
    requires Inv(s)
    ensures Inv(Next(s, BeginRead))
  {
    hide Stored, Copied, Frame;
    PendingFrames(s);
  }

  lemma LoadHeadKeeps(s: State)
    requires Inv(s)
    ensures Inv(Next(s, LoadHead))
  {
    hide Frames, Stored, Frame;
  }

  lemma LoadKeeps(s: State, k: nat)
    requires Inv(s)
    ensures Inv(Load(s, k))
  {
    hide Frames, Frame, Prefix32;
    var c := s.consumer;
    if (c.CopyingHeader? || c.CopyingBody?) && k in c.todo && k < |c.buf| {
      FirstFrame(s);
      SlotIsModular(|s.data|, if c.CopyingHeader? then c.head else c.head + 4, |c.buf|, k);
      assert Load(s, k).data == s.data;
    }
  }

  /** The length that the consumer reads is the one the producer wrote: no header looks corrupted. */
  lemma CheckHeaderKeeps(s: State)
    requires Inv(s)
    ensures Inv(Next(s, CheckHeader))
  {
    hide Frames, Stored, Frame;
    if s.consumer.CopyingHeader? && s.consumer.todo == {} {
      var m := Pending(s)[0];
      assert s.consumer.buf == Prefix32(|m|);
      PrefixReadsBack(|m|);
      hide Prefix32, Value32;
      assert Next(s, CheckHeader).consumer == CopyingBody(s.head, Blank(|m|), Offsets(|m|));
    }
  }

  lemma PublishHeadKeeps(s: State)
    requires Inv(s)
    ensures Inv(Next(s, PublishHead))
  {
    hide Frames, Frame;
    if s.consumer.CopyingBody? && s.consumer.todo == {} {
      var m := Pending(s)[0];
      assert s.consumer.buf == m;
      var after := Next(s, PublishHead);
      assert after.delivered == s.delivered + [m];
      assert after.delivered <= after.accepted by {
        assert s.accepted == s.delivered + Pending(s);
        assert Pending(s)[..1] == [m];
        assert s.accepted[..|s.delivered| + 1] == s.delivered + [m];
      }
      assert Pending(after) == Pending(s)[1..];
      FramesOfSum(s.delivered, [m]);
      FramesOfOne(m);
      FirstFrame(s);
      PendingFrames(s);
      PendingFrames(after);
    }
  }

  lemma NextKeeps(s: State, e: Event)
    requires Inv(s)
    ensures Inv(Next(s, e))
  {
    hide Frames, Stored, Frame, Store, Load;
    match e
    case BeginWrite(_) =>
    case CheckRoom => CheckRoomKeeps(s);
    case StoreByte(k) => StoreKeeps(s, k);
    case PublishTail => PublishTailKeeps(s);
    case BeginRead => BeginReadKeeps(s);
    case LoadHead => LoadHeadKeeps(s);
    case LoadByte(k) => LoadKeeps(s, k);
    case CheckHeader => CheckHeaderKeeps(s);
    case PublishHead => PublishHeadKeeps(s);
  }

  // --- Runs ---

  function Run(s: State, es: seq<Event>): State
    decreases |es|
  {
    if es == [] then s else Run(Next(s, es[0]), es[1..])
  }

  lemma {:induction false} RunKeeps(s: State, es: seq<Event>)
    requires Inv(s)
    ensures Inv(Run(s, es))
    decreases |es|
  {
    hide Inv, Next;
    if es != [] {
      NextKeeps(s, es[0]);
      RunKeeps(Next(s, es[0]), es[1..]);
    }
  }

  /**
   * In every interleaving: the positions stay within a capacity of each other, the bytes between them are the
   * pending frames, what was read is a prefix of what was written, no header was ever found corrupted, and the free
   * space that a write computes from the head it has loaded is never negative.
   */
  lemma EveryInterleaving(data: Bytes, es: seq<Event>)
    requires 64 <= |data|
    ensures var s := Run(Init(data), es);
            && s.head <= s.tail <= s.head + |s.data|
            && s.delivered <= s.accepted
            && s.tail - s.head == |Frames(Pending(s))|
            && Stored(s.data, s.head, Frames(Pending(s)))
            && !s.consumer.Corrupted?
            && (s.producer.HeadLoaded? ==> s.producer.head <= s.tail <= s.producer.head + |s.data|)
  {
    var s := Run(Init(data), es);
    assert Inv(Init(data));
    RunKeeps(Init(data), es);
    hide Run, Frames, Stored;
    PendingFrames(s);
  }

  /** Once the consumer has caught up, everything that was written has been read, in order. */
  lemma NothingLost(data: Bytes, es: seq<Event>)
    requires 64 <= |data|
    ensures var s := Run(Init(data), es); s.head == s.tail ==> s.delivered == s.accepted
  {
    var s := Run(Init(data), es);
    EveryInterleaving(data, es);
    hide Run;
    if s.head == s.tail {
      assert Pending(s) == [];
    }
  }

  // --- A write against whatever the consumer does meanwhile ---

  predicate ByConsumer(e: Event) { e.BeginRead? || e.LoadHead? || e.LoadByte? || e.CheckHeader? || e.PublishHead? }

  lemma {:induction false} ConsumerRuns(s: State, es: seq<Event>)
    requires forall k :: 0 <= k < |es| ==> ByConsumer(es[k])
    ensures var r := Run(s, es); r.producer == s.producer && r.tail == s.tail && r.data == s.data
    decreases |es|
  {
    if es != [] { ConsumerRuns(Next(s, es[0]), es[1..]); }
  }

  /** A write is turned away exactly if its frame does not fit beside what was unread when it began. */
  lemma RefusedExactlyWhenFull(s: State, msg: Message, es: seq<Event>)
    requires Inv(s) && s.producer.WriteIdle? && forall k :: 0 <= k < |es| ==> ByConsumer(es[k])
    ensures var t := Run(Next(s, BeginWrite(msg)), es);
            Next(t, CheckRoom).producer.WriteIdle? <==> |Frames(Pending(s))| + 4 + |msg| > |s.data|
  {
    ConsumerRuns(Next(s, BeginWrite(msg)), es);
    PendingFrames(s);
    hide Run, Frames, Stored;
  }

  // --- A call that is not interrupted ---

  lemma {:induction false} RunsOn(s: State, a: seq<Event>, b: seq<Event>)
    ensures Run(s, a + b) == Run(Run(s, a), b)
    decreases |a|
  {
    if a == [] {
      assert a + b == b;
    } else {
      assert (a + b)[1..] == a[1..] + b;
      RunsOn(Next(s, a[0]), a[1..], b);
    }
  }

  function Stores(k: nat, n: nat): seq<Event>
    decreases n - k
  {
    if k >= n then [] else [StoreByte(k)] + Stores(k + 1, n)
  }

  function Loads(k: nat, n: nat): seq<Event>
    decreases n - k
  {
    if k >= n then [] else [LoadByte(k)] + Loads(k + 1, n)
  }

  /** The numbers from k on below n. */
  function Rest(k: nat, n: nat): (r: set<nat>)
    ensures forall j :: j in r <==> k <= j < n
    decreases n - k
  {
    if k >= n then {} else {k} + Rest(k + 1, n)
  }

  lemma {:induction false} StoresAll(s: State, k: nat, n: nat)
    requires Inv(s) && s.producer.CopyingIn? && n == 4 + |s.producer.msg| && k <= n && s.producer.todo == Rest(k, n)
    ensures var r := Run(s, Stores(k, n));
            Inv(r) && r == s.(data := r.data, producer := s.producer.(todo := {})) && |r.data| == |s.data|
    decreases n - k
  {
    if k < n {
      var t := Store(s, k);
      StoreKeeps(s, k);
      SlotOfFrame(|s.data|, s.tail, |s.producer.msg|, k);
      assert Rest(k, n) - {k} == Rest(k + 1, n);
      assert t == s.(data := t.data, producer := s.producer.(todo := Rest(k + 1, n))) && |t.data| == |s.data|;
      assert Stores(k, n)[1..] == Stores(k + 1, n);
      hide Inv, Store;
      StoresAll(t, k + 1, n);
    } else {
      assert s.producer.todo == {};
    }
  }

  /** The steps of one write, in program order. */
  function WriteSteps(msg: Message): seq<Event>
  {
    [BeginWrite(msg), CheckRoom] + Stores(0, 4 + |msg|) + [PublishTail]
  }

  lemma {:induction false} IdleStores(s: State, k: nat, n: nat)
    requires s.producer.WriteIdle?
    ensures Run(s, Stores(k, n)) == s
    decreases n - k
  {
    if k < n {
      assert Stores(k, n)[1..] == Stores(k + 1, n);
      IdleStores(s, k + 1, n);
    }
  }

  lemma RunsTwo(s: State, a: Event, b: Event)
    ensures Run(s, [a, b]) == Next(Next(s, a), b)
  {
    hide Next;
    assert [a, b][1..] == [b];
    RunsOne(Next(s, a), b);
  }

  lemma RunsOne(s: State, a: Event)
    ensures Run(s, [a]) == Next(s, a)
  {
    hide Next;
  }

  lemma ChecksRoom(s: State, msg: Message)
    requires Inv(s) && s.producer.WriteIdle?
    ensures var t := Next(Next(s, BeginWrite(msg)), CheckRoom);
            t == if |Frames(Pending(s))| + 4 + |msg| <= |s.data|
                 then s.(producer := CopyingIn(msg, s.tail, Rest(0, 4 + |msg|))) else s
  {
    PendingFrames(s);
    AllOffsets(4 + |msg|);
    hide Frames, Stored, Pending, Offsets, Rest, ConsumerOk, Holding, Frame, Copied;
  }

  lemma AllOffsets(n: nat)
    ensures Offsets(n) == Rest(0, n)
  {
  }

  /** Uninterrupted, a write that fits appends the message to what is pending, and one that does not changes nothing. */
  lemma UninterruptedWrite(s: State, msg: Message)
    requires Inv(s) && s.producer.WriteIdle?
    ensures var t := Run(s, WriteSteps(msg));
            && Inv(t) && t.consumer == s.consumer && t.head == s.head && t.delivered == s.delivered
            && if |Frames(Pending(s))| + 4 + |msg| <= |s.data|
               then t.producer.WriteIdle? && t.accepted == s.accepted + [msg] && t.tail == s.tail + 4 + |msg|
               else t == s
  {
    hide Next, Run, Inv, Frames, Stores, Rest;
    var n := 4 + |msg|;
    var b := Next(Next(s, BeginWrite(msg)), CheckRoom);
    RunsTwo(s, BeginWrite(msg), CheckRoom);
    RunsOn(s, [BeginWrite(msg), CheckRoom] + Stores(0, n), [PublishTail]);
    RunsOn(s, [BeginWrite(msg), CheckRoom], Stores(0, n));
    var c := Run(b, Stores(0, n));
    RunsOne(c, PublishTail);
    ChecksRoom(s, msg);
    NextKeeps(s, BeginWrite(msg));
    NextKeeps(Next(s, BeginWrite(msg)), CheckRoom);
    if b.producer.CopyingIn? { StoresAll(b, 0, n); } else { IdleStores(b, 0, n); }
    NextKeeps(c, PublishTail);
    Published(c);
  }

  lemma Published(c: State)
    ensures c.producer.WriteIdle? ==> Next(c, PublishTail) == c
    ensures c.producer.CopyingIn? && c.producer.todo == {} ==>
              Next(c, PublishTail) == c.(tail := c.producer.tail + 4 + |c.producer.msg|, producer := WriteIdle,
                                         accepted := c.accepted + [c.producer.msg])
  {
  }

  lemma {:induction false} LoadsAll(s: State, k: nat, n: nat)
    requires Inv(s) && k <= n && (s.consumer.CopyingHeader? || s.consumer.CopyingBody?)
    requires n == |s.consumer.buf| && s.consumer.todo == Rest(k, n)
    ensures var r := Run(s, Loads(k, n));
            && Inv(r) && r == s.(consumer := r.consumer)
            && (r.consumer.CopyingHeader? || r.consumer.CopyingBody?) && |r.consumer.buf| == n
            && r.consumer == s.consumer.(buf := r.consumer.buf, todo := {})
    decreases n - k
  {
    if k < n {
      var t := Load(s, k);
      LoadKeeps(s, k);
      LoadsOne(s, k, n);
      assert Loads(k, n)[1..] == Loads(k + 1, n);
      hide Inv, Load;
      LoadsAll(t, k + 1, n);
    } else {
      assert s.consumer.todo == {};
    }
  }

  lemma LoadsOne(s: State, k: nat, n: nat)
    requires Inv(s) && k < n && (s.consumer.CopyingHeader? || s.consumer.CopyingBody?)
    requires n == |s.consumer.buf| && s.consumer.todo == Rest(k, n)
    ensures var t := Load(s, k);
            && (t.consumer.CopyingHeader? || t.consumer.CopyingBody?) && |t.consumer.buf| == n
            && t == s.(consumer := s.consumer.(buf := t.consumer.buf, todo := Rest(k + 1, n)))
  {
    hide Frames, Frame, Stored, Prefix32;
    FirstFrame(s);
    SlotIsModular(|s.data|, if s.consumer.CopyingHeader? then s.consumer.head else s.consumer.head + 4, n, k);
    assert Rest(k, n) - {k} == Rest(k + 1, n);
  }

  /** The steps of one read that finds a message of n bytes, in program order. */
  function ReadSteps(n: nat): seq<Event>
  {
    [BeginRead, LoadHead] + Loads(0, 4) + [CheckHeader] + Loads(0, n) + [PublishHead]
  }

  /** Uninterrupted, a read of a ring that is not empty gives the oldest pending message and frees its frame. */
  lemma UninterruptedRead(s: State)
    requires Inv(s) && s.consumer.ReadIdle? && Pending(s) != []
    ensures var m := Pending(s)[0];
            var t := Run(s, ReadSteps(|m|));
            && Inv(t) && t.consumer.ReadIdle? && t.producer == s.producer && t.data == s.data
            && t.tail == s.tail && t.accepted == s.accepted
            && t.delivered == s.delivered + [m] && t.head == s.head + 4 + |m|
  {
    var m := Pending(s)[0];
    hide Next, Run, Inv, Frames, Loads, Rest;
    var n := |m|;
    var a, b := Next(s, BeginRead), Next(Next(s, BeginRead), LoadHead);
    RunsTwo(s, BeginRead, LoadHead);
    FindsMessage(s);
    NextKeeps(s, BeginRead);
    NextKeeps(a, LoadHead);
    LoadsAll(b, 0, 4);
    var c := Run(b, Loads(0, 4));
    var d := Next(c, CheckHeader);
    FindsLength(c, m);
    NextKeeps(c, CheckHeader);
    LoadsAll(d, 0, n);
    var e := Run(d, Loads(0, n));
    FindsBody(e, m);
    NextKeeps(e, PublishHead);
    RunsParts(s, [BeginRead, LoadHead], Loads(0, 4), CheckHeader, Loads(0, n), PublishHead);
  }

  lemma RunsParts(s: State, a: seq<Event>, b: seq<Event>, c: Event, d: seq<Event>, e: Event)
    ensures Run(s, a + b + [c] + d + [e]) == Next(Run(Next(Run(Run(s, a), b), c), d), e)
  {
    hide Run, Next;
    RunsOn(s, a, b);
    RunsOn(s, a + b, [c]);
    RunsOne(Run(s, a + b), c);
    RunsOn(s, a + b + [c], d);
    RunsOn(s, a + b + [c] + d, [e]);
    RunsOne(Run(s, a + b + [c] + d), e);
  }

  lemma FindsMessage(s: State)
    requires Inv(s) && s.consumer.ReadIdle? && Pending(s) != []
    ensures var t := Next(Next(s, BeginRead), LoadHead);
            t == s.(consumer := CopyingHeader(s.tail, s.head, Blank(4), Rest(0, 4)))
  {
    hide Frames, Stored, Frame;
    PendingFrames(s);
    AllOffsets(4);
  }

  lemma FindsLength(s: State, m: Message)
    requires Inv(s) && Pending(s) != [] && Pending(s)[0] == m && s.consumer.CopyingHeader? && s.consumer.todo == {}
    ensures Next(s, CheckHeader) == s.(consumer := CopyingBody(s.head, Blank(|m|), Rest(0, |m|)))
  {
    hide Frames, Stored, Frame;
    assert s.consumer.buf == Prefix32(|m|);
    PrefixReadsBack(|m|);
    hide Prefix32, Value32;
    AllOffsets(|m|);
  }

  lemma FindsBody(s: State, m: Message)
    requires Inv(s) && Pending(s) != [] && Pending(s)[0] == m && s.consumer.CopyingBody? && s.consumer.todo == {}
    ensures Next(s, PublishHead)
         == s.(head := s.head + 4 + |m|, consumer := ReadIdle, delivered := s.delivered + [m])
  {
    hide Frames, Stored, Frame;
    assert s.consumer.buf == m;
  }

  /** A read of an empty ring ends at once. */
  lemma UninterruptedReadOfNothing(s: State)
    requires Inv(s) && s.consumer.ReadIdle? && Pending(s) == []
    ensures Run(s, [BeginRead, LoadHead]) == s
  {
    hide Stored, Frame;
    PendingFrames(s);
    RunsTwo(s, BeginRead, LoadHead);
  }
}
