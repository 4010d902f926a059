/** The ring as the two sides use it when one call runs at a time: an array, two positions, split copies. */
module SharedRing {
  import opened Bytes
  import opened Options
  import opened Modular
  import opened RingFrames
  import opened RingSteps

  /** after is before with src written at pos, round the end if need be. */
  ghost predicate Overwritten(before: Bytes, after: Bytes, pos: nat, src: Bytes)
  {
    && |before| == |after|
    && Stored(after, pos, src)
    && (forall at :: pos + |src| <= at < pos + |before| ==> after[at % |before|] == before[at % |before|])
  }

  /** The two straight copies write exactly the window. */
  lemma SplitCopy(before: Bytes, after: Bytes, pos: nat, src: Bytes)
    requires 0 < |before| == |after| && |src| <= |before|
    requires forall k :: 0 <= k < |src| ==> CopySlot(|before|, pos, |src|, k) < |before|
    requires forall k :: 0 <= k < |src| ==> after[CopySlot(|before|, pos, |src|, k)] == src[k]
    requires forall i :: 0 <= i < |before| && !InCopy(|before|, pos, |src|, i) ==> after[i] == before[i]
    ensures Overwritten(before, after, pos, src)
  {
    var cap := |before|;
    forall k | 0 <= k < |src| ensures after[(pos + k) % cap] == src[k] {
      SlotIsModular(cap, pos, |src|, k);
    }
    forall at | pos + |src| <= at < pos + cap ensures after[at % cap] == before[at % cap] {
      NotInCopy(cap, pos, |src|, at);
    }
  }

  predicate InCopy(cap: nat, pos: nat, n: nat, i: nat)
    requires 0 < cap && n <= cap
  {
    var off := pos % cap;
    var first := if n < cap - off then n else cap - off;
    off <= i < off + first || i < n - first
  }

  lemma NotInCopy(cap: nat, pos: nat, n: nat, at: nat)
    requires 0 < cap && n <= cap && pos + n <= at < pos + cap
    ensures !InCopy(cap, pos, n, at % cap)
  {
    var i := at % cap;
    if InCopy(cap, pos, n, i) {
      var off := pos % cap;
      var k := if off <= i < off + n then i - off else i + cap - off;
      SlotIsModular(cap, pos, n, k);
      DifferentSlots(cap, pos + k, at);
    }
  }

  lemma StoredApart(before: Bytes, after: Bytes, pos: nat, src: Bytes, at: nat, s: Bytes)
    requires Overwritten(before, after, pos, src) && Stored(before, at, s)
    requires at + |s| <= pos && pos + |src| <= at + |before|
    ensures Stored(after, at, s)
  {
    forall k | 0 <= k < |s| ensures after[(at + k) % |after|] == s[k] {
      var j := at + k + |before|;
      ModUnique(j, (at + k) / |before| + 1, (at + k) % |before|, |before|) by {
        assert |before| * ((at + k) / |before| + 1) == |before| * ((at + k) / |before|) + |before|;
      }
      assert after[j % |before|] == before[j % |before|];
    }
  }

  // --- The state of the interleaving machine between two calls ---

  /** Nobody is in a call; `delivered` was read before and `pending` is unread. */
  function Between(data: Bytes, head: nat, tail: nat, delivered: seq<Message>, pending: seq<Message>): State
  {
    State(data, head, tail, WriteIdle, ReadIdle, delivered + pending, delivered)
  }

  ghost predicate Holds(data: Bytes, head: nat, tail: nat, pending: seq<Message>)
  {
    && 64 <= |data|
    && head <= tail <= head + |data|
    && tail - head == |Frames(pending)|
    && Stored(data, head, Frames(pending))
  }

  /** The same but for bytes that hold nothing. */
  ghost predicate Alike(a: State, b: State)
  {
    a.(data := b.data) == b && |a.data| == |b.data| && b.delivered <= b.accepted
    && Stored(a.data, a.head, Frames(Pending(b))) && Stored(b.data, b.head, Frames(Pending(b)))
  }

  lemma BetweenHolds(data: Bytes, head: nat, tail: nat, delivered: seq<Message>, pending: seq<Message>)
    requires Holds(data, head, tail, pending) && |Frames(delivered)| == head
    ensures var s := Between(data, head, tail, delivered, pending); Inv(s) && Pending(s) == pending
  {
    FramesOfSum(delivered, pending);
    hide Frames, Stored;
    assert (delivered + pending)[|delivered|..] == pending;
  }

  /** Run without interruption, the steps of a write do what the method does. */
  lemma WriteAlike(
      data: Bytes, after: Bytes, head: nat, tail: nat, newTail: nat, delivered: seq<Message>, pending: seq<Message>,
      msg: Message, ok: bool)
    requires Holds(data, head, tail, pending) && |Frames(delivered)| == head && |after| == |data|
    requires ok == (|Frames(pending)| + 4 + |msg| <= |data|)
    requires if ok then newTail == tail + 4 + |msg| && Stored(after, head, Frames(pending + [msg]))
             else newTail == tail && after == data
    ensures Alike(Run(Between(data, head, tail, delivered, pending), WriteSteps(msg)),
                  Between(after, head, newTail, delivered, if ok then pending + [msg] else pending))
  {
    BetweenHolds(data, head, tail, delivered, pending);
    var s := Between(data, head, tail, delivered, pending);
    UninterruptedWrite(s, msg);
    hide Frames, Stored, Run, WriteSteps;
    var t := Run(s, WriteSteps(msg));
    if ok { assert t.accepted == delivered + (pending + [msg]); }
    var p := if ok then pending + [msg] else pending;
    assert (delivered + p)[|delivered|..] == p;
    SameSize(s, WriteSteps(msg));
  }

  /** The same for a read. */
  lemma ReadAlike(
      data: Bytes, head: nat, tail: nat, delivered: seq<Message>, pending: seq<Message>)
    requires Holds(data, head, tail, pending) && |Frames(delivered)| == head && pending != []
    ensures var m := pending[0];
            Alike(Run(Between(data, head, tail, delivered, pending), ReadSteps(|m|)),
                  Between(data, head + 4 + |m|, tail, delivered + [m], pending[1..]))
  {
    BetweenHolds(data, head, tail, delivered, pending);
    var s, m := Between(data, head, tail, delivered, pending), pending[0];
    UninterruptedRead(s);
    hide Frames, Stored, Run, ReadSteps;
    assert delivered + pending == delivered + [m] + pending[1..];
    assert (delivered + [m] + pending[1..])[|delivered + [m]|..] == pending[1..];
  }

  lemma {:induction false} SameSize(s: State, es: seq<Event>)
    ensures |Run(s, es).data| == |s.data|
    decreases |es|
  {
    hide FrameSlot, Frame;
    if es != [] { SameSize(Next(s, es[0]), es[1..]); }
  }

  class Ring {
    const data: array<byte>
    var head: nat
    var tail: nat
    ghost var pending: seq<Message>

    ghost predicate Valid()
      reads this, data
    {
      Holds(data[..], head, tail, pending)
    }

    constructor (capacity: nat)
      requires capacity >= 64
      ensures Valid() && fresh(data) && data.Length == capacity && pending == []
    {
      data := new byte[capacity];
      head, tail, pending := 0, 0, [];
    }

    method CopyIn(pos: nat, src: Bytes)
      requires |src| <= data.Length && 0 < data.Length
      modifies data
      ensures Overwritten(old(data[..]), data[..], pos, src)
    {
      var cap := data.Length;
      var off := pos % cap;
      var first := if |src| < cap - off then |src| else cap - off;
      var i := 0;
      while i < first
        invariant 0 <= i <= first
        invariant forall k :: 0 <= k < i ==> data[off + k] == src[k]
        invariant forall j :: 0 <= j < cap && !(off <= j < off + i) ==> data[j] == old(data[j])
      {
        data[off + i] := src[i];
        i := i + 1;
      }
      while i < |src|
        invariant first <= i <= |src|
        invariant forall k :: 0 <= k < first ==> data[off + k] == src[k]
        invariant forall k :: first <= k < i ==> data[k - first] == src[k]
        invariant forall j :: 0 <= j < cap && !(off <= j < off + first || j < i - first) ==> data[j] == old(data[j])
      {
        data[i - first] := src[i];
        i := i + 1;
      }
      SplitCopy(old(data[..]), data[..], pos, src);
    }

    method CopyOut(pos: nat, n: nat) returns (dst: Bytes)
      requires n <= data.Length && 0 < data.Length
      ensures |dst| == n && Stored(data[..], pos, dst)
    {
      var cap := data.Length;
      var off := pos % cap;
      var first := if n < cap - off then n else cap - off;
      dst := data[off..off + first] + data[..n - first];
      forall k | 0 <= k < n ensures data[..][(pos + k) % cap] == dst[k] {
        SlotIsModular(cap, pos, n, k);
      }
    }

    /** A message is taken exactly when its frame fits, and then it is the newest pending one. */
    method Write(msg: Bytes) returns (ok: bool)
      requires Valid()
      modifies this`tail, this`pending, data
      ensures Valid()
      ensures ok == (|msg| <= MAX_LENGTH && |Frames(old(pending))| + 4 + |msg| <= data.Length)
      ensures ok ==> pending == old(pending) + [msg]
      ensures !ok ==> pending == old(pending) && tail == old(tail) && data[..] == old(data[..])
      ensures forall delivered :: |msg| <= MAX_LENGTH && |Frames(delivered)| == head ==>
                Alike(Run(Between(old(data[..]), head, old(tail), delivered, old(pending)), WriteSteps(msg)),
                      Between(data[..], head, tail, delivered, pending))
    {
      hide Frames, Frame, Stored, Overwritten;
      if |msg| > MAX_LENGTH { return false; }
      var need := 4 + |msg|;
      if data.Length - (tail - head) < need {
        forall delivered | |Frames(delivered)| == head
          ensures Alike(Run(Between(data[..], head, tail, delivered, pending), WriteSteps(msg)),
                        Between(data[..], head, tail, delivered, pending))
        {
          WriteAlike(data[..], data[..], head, tail, tail, delivered, pending, msg, false);
        }
        return false;
      }
      ghost var was := data[..];
      CopyIn(tail, Prefix32(|msg|));
      ghost var halfway := data[..];
      CopyIn(tail + 4, msg);
      Overwritings(was, halfway, data[..], head, Frames(pending), tail, msg);
      tail := tail + need;
      FramesOfSum(pending, [msg]);
      FramesOfOne(msg);
      ghost var before := pending;
      pending := pending + [msg];
      forall delivered | |Frames(delivered)| == head
        ensures Alike(Run(Between(was, head, tail - need, delivered, before), WriteSteps(msg)),
                      Between(data[..], head, tail, delivered, pending))
      {
        WriteAlike(was, data[..], head, tail - need, tail, delivered, before, msg, true);
      }
      return true;
    }

    static lemma Overwritings(
        was: Bytes, halfway: Bytes, now: Bytes, head: nat, frames: Bytes, tail: nat, msg: Message)
      requires Overwritten(was, halfway, tail, Prefix32(|msg|)) && Overwritten(halfway, now, tail + 4, msg)
      requires Stored(was, head, frames) && tail == head + |frames| && tail + 4 + |msg| <= head + |was|
      ensures Stored(now, head, frames + Frame(msg))
    {
      StoredApart(was, halfway, tail, Prefix32(|msg|), head, frames);
      StoredApart(halfway, now, tail + 4, msg, head, frames);
      StoredApart(halfway, now, tail + 4, msg, tail, Prefix32(|msg|));
      StoredParts(now, tail, Prefix32(|msg|), msg);
      StoredParts(now, head, frames, Frame(msg));
    }

    /** Gives the oldest pending message, or none when nothing is pending. */
    method Read() returns (msg: Option<Bytes>)
      requires Valid()
      modifies this`head, this`pending
      ensures Valid()
      ensures old(pending) == [] ==> msg == None && pending == [] && head == old(head)
      ensures old(pending) == [] ==>
                forall delivered :: |Frames(delivered)| == head ==>
                  var s := Between(data[..], head, tail, delivered, []); Run(s, [BeginRead, LoadHead]) == s
      ensures old(pending) != [] ==> msg == Some(old(pending)[0]) && pending == old(pending)[1..]
      ensures old(pending) != [] ==>
                var m := old(pending)[0];
                forall delivered :: |Frames(delivered)| == old(head) ==>
                  Alike(Run(Between(data[..], old(head), tail, delivered, old(pending)), ReadSteps(|m|)),
                        Between(data[..], head, tail, delivered + [m], pending))
    {
      hide Frame, Stored;
      if head == tail {
        assert pending == [];
        forall delivered | |Frames(delivered)| == head
          ensures var s := Between(data[..], head, tail, delivered, []); Run(s, [BeginRead, LoadHead]) == s
        {
          BetweenHolds(data[..], head, tail, delivered, []);
          UninterruptedReadOfNothing(Between(data[..], head, tail, delivered, []));
        }
        return None;
      }
      ghost var m := pending[0];
      hide Frames;
      ghost var rest := pending[1..];
      Oldest(data[..], head, pending);
      var prefix := CopyOut(head, 4);
      SameStored(data[..], head, prefix, Prefix32(|m|));
      PrefixReadsBack(|m|);
      var n := Value32(prefix);
      if n + 4 > tail - head {
        assert false; // a corrupted header: not in a ring that only Write has filled
        return None;
      }
      var out := CopyOut(head + 4, n);
      SameStored(data[..], head + 4, out, m);
      forall delivered | |Frames(delivered)| == head
        ensures Alike(Run(Between(data[..], head, tail, delivered, pending), ReadSteps(|m|)),
                      Between(data[..], head + 4 + n, tail, delivered + [m], rest))
      {
        ReadAlike(data[..], head, tail, delivered, pending);
      }
      head := head + 4 + n;
      pending := rest;
      return Some(out);
    }

    static lemma SameStored(data: Bytes, pos: nat, a: Bytes, b: Bytes)
      requires Stored(data, pos, a) && Stored(data, pos, b) && |a| == |b|
      ensures a == b
    {
      forall k | 0 <= k < |a| ensures a[k] == b[k] {
        assert data[(pos + k) % |data|] == a[k];
      }
    }

    static lemma Oldest(data: Bytes, head: nat, pending: seq<Message>)
      requires pending != [] && Stored(data, head, Frames(pending))
      ensures var m := pending[0];
              && Stored(data, head, Prefix32(|m|))
              && Stored(data, head + 4, m)
              && Stored(data, head + 4 + |m|, Frames(pending[1..]))
              && |Frames(pending)| == 4 + |m| + |Frames(pending[1..])|
    {
      var m := pending[0];
      StoredParts(data, head, Frame(m), Frames(pending[1..]));
      StoredParts(data, head, Prefix32(|m|), m);
    }
  }
}
