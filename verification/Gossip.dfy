/** The gossip protocol: heartbeat merge and failure detection over a network that loses, repeats and reorders. */
module GossipSpec {
  datatype Status = Alive | Suspect | Dead

  datatype Peer = Peer(id: nat, heartbeat: nat, status: Status, lastSeen: nat)

  /** One entry of a datagram. */
  datatype Item = Item(id: nat, hb: nat)

  datatype Config = Config(suspectMs: nat, deadMs: nat)

  // --- One node ---

  /** Index of the peer with this id, or the number of peers. */
  function FindPeer(ms: seq<Peer>, id: nat): (i: nat)
    ensures i <= |ms| && (i < |ms| ==> ms[i].id == id)
    ensures forall k :: 0 <= k < i ==> ms[k].id != id
  {
    if ms == [] || ms[0].id == id then 0 else 1 + FindPeer(ms[1..], id)
  }

  /** An entry is taken when it is about a new peer or newer than what is stored. */
  predicate Fresh(ms: seq<Peer>, self: nat, m: Item)
  {
    var i := FindPeer(ms, m.id);
    m.id != self && (i == |ms| || m.hb > ms[i].heartbeat)
  }

  function MergeOne(ms: seq<Peer>, self: nat, m: Item, now: nat): seq<Peer>
  {
    var i := FindPeer(ms, m.id);
    var p := Peer(m.id, m.hb, Alive, now);
    if !Fresh(ms, self, m) then ms else if i < |ms| then ms[i := p] else ms + [p]
  }

  function Merge(ms: seq<Peer>, self: nat, items: seq<Item>, now: nat): seq<Peer>
    decreases |items|
  {
    if items == [] then ms else Merge(MergeOne(ms, self, items[0], now), self, items[1..], now)
  }

  function StatusAt(age: nat, cfg: Config): Status
  {
    if age >= cfg.deadMs then Dead else if age >= cfg.suspectMs then Suspect else Alive
  }

  const WORD: nat := 0x1_0000_0000_0000_0000

  /** The milliseconds since a peer was heard; the subtraction wraps round for one heard after now. */
  function Age(p: Peer, now: nat): nat { if p.lastSeen <= now then now - p.lastSeen else (now - p.lastSeen) % WORD }

  function Checked(p: Peer, now: nat, cfg: Config): Peer { p.(status := StatusAt(Age(p, now), cfg)) }

  function CheckAll(ms: seq<Peer>, now: nat, cfg: Config): (r: seq<Peer>)
    ensures |r| == |ms| && forall i :: 0 <= i < |ms| ==> r[i] == Checked(ms[i], now, cfg)
  {
    if ms == [] then [] else [Checked(ms[0], now, cfg)] + CheckAll(ms[1..], now, cfg)
  }

  /** The entries about peers that are not dead. */
  function Entries(ms: seq<Peer>): seq<Item>
  {
    if ms == [] then []
    else
      var front, last := ms[..|ms| - 1], ms[|ms| - 1];
      if last.status.Dead? then Entries(front) else Entries(front) + [Item(last.id, last.heartbeat)]
  }

  // --- The network ---

  datatype Node = Node(heartbeat: nat, members: seq<Peer>, clock: nat)

  /** `sent` holds every datagram ever sent: it may be delivered to anyone, at any later time, any number of times. */
  datatype Net = Net(nodes: seq<Node>, sent: set<seq<Item>>)

  datatype Event = Tick(i: nat, now: nat) | Deliver(i: nat, msg: seq<Item>, now: nat)

  function Ticked(n: Node, i: nat, now: nat, cfg: Config): (Node, seq<Item>)
  {
    var ms := CheckAll(n.members, now, cfg);
    (Node(n.heartbeat + 1, ms, now), [Item(i, n.heartbeat + 1)] + Entries(ms))
  }

  predicate Enabled(net: Net, e: Event)
  {
    e.i < |net.nodes| && net.nodes[e.i].clock <= e.now && (e.Deliver? ==> e.msg in net.sent)
  }

  function Next(net: Net, e: Event, cfg: Config): Net
  {
    if !Enabled(net, e) then net
    else
      var n := net.nodes[e.i];
      match e
      case Tick(i, now) =>
        var r := Ticked(n, i, now, cfg);
        Net(net.nodes[i := r.0], net.sent + {r.1})
      case Deliver(i, msg, now) =>
        net.(nodes := net.nodes[i := n.(members := Merge(n.members, i, msg, now), clock := now)])
  }

  function Run(net: Net, es: seq<Event>, cfg: Config): Net
    decreases |es|
  {
    if es == [] then net else Run(Next(net, es[0], cfg), es[1..], cfg)
  }

  /** Nodes that have just started and know of nobody. */
  function Start(count: nat): Net { Net(seq(count, _ => Node(0, [], 0)), {}) }
}

module GossipProofs {
  import opened GossipSpec

  // --- Heartbeats never run ahead of their owner ---

  predicate ItemOk(nodes: seq<Node>, m: Item) { m.id < |nodes| && m.hb <= nodes[m.id].heartbeat }

  predicate PeerOk(nodes: seq<Node>, i: nat, p: Peer)
  {
    p.id < |nodes| && p.id != i && p.heartbeat <= nodes[p.id].heartbeat
  }

  predicate DistinctIds(ms: seq<Peer>) { forall a, b :: 0 <= a < b < |ms| ==> ms[a].id != ms[b].id }

  predicate MembersOk(nodes: seq<Node>, i: nat, ms: seq<Peer>, clock: nat)
  {
    DistinctIds(ms) && forall k :: 0 <= k < |ms| ==> PeerOk(nodes, i, ms[k]) && ms[k].lastSeen <= clock
  }

  predicate MessageOk(nodes: seq<Node>, msg: seq<Item>) { forall k :: 0 <= k < |msg| ==> ItemOk(nodes, msg[k]) }

  ghost predicate Inv(net: Net)
  {
    && (forall i :: 0 <= i < |net.nodes| ==>
          MembersOk(net.nodes, i, net.nodes[i].members, net.nodes[i].clock))
    && (forall msg :: msg in net.sent ==> MessageOk(net.nodes, msg))
  }

  /** The counters of `after` are at least those of `before`. */
  predicate Advanced(before: seq<Node>, after: seq<Node>)
  {
    |before| == |after| && forall i :: 0 <= i < |before| ==> before[i].heartbeat <= after[i].heartbeat
  }

  lemma {:induction false} MergeOk(nodes: seq<Node>, i: nat, ms: seq<Peer>, msg: seq<Item>, clock: nat, now: nat)
    requires MembersOk(nodes, i, ms, clock) && MessageOk(nodes, msg) && clock <= now
    ensures MembersOk(nodes, i, Merge(ms, i, msg, now), now)
    decreases |msg|
  {
    if msg != [] {
      var one := MergeOne(ms, i, msg[0], now);
      assert ItemOk(nodes, msg[0]);
      MergeOneOk(nodes, i, ms, msg[0], clock, now);
      forall k | 0 <= k < |msg[1..]| ensures ItemOk(nodes, msg[1..][k]) { assert ItemOk(nodes, msg[k + 1]); }
      hide MergeOne;
      MergeOk(nodes, i, one, msg[1..], now, now);
    }
  }

  lemma MergeOneOk(nodes: seq<Node>, i: nat, ms: seq<Peer>, m: Item, clock: nat, now: nat)
    requires MembersOk(nodes, i, ms, clock) && ItemOk(nodes, m) && clock <= now
    ensures MembersOk(nodes, i, MergeOne(ms, i, m, now), now)
  {
  }

  lemma CheckedOk(nodes: seq<Node>, i: nat, ms: seq<Peer>, clock: nat, now: nat, cfg: Config)
    requires MembersOk(nodes, i, ms, clock) && clock <= now
    ensures MembersOk(nodes, i, CheckAll(ms, now, cfg), now)
  {
    forall k | 0 <= k < |ms| ensures PeerOk(nodes, i, CheckAll(ms, now, cfg)[k]) { assert PeerOk(nodes, i, ms[k]); }
  }

  lemma OthersOk(before: seq<Node>, after: seq<Node>, i: nat, ms: seq<Peer>, clock: nat)
    requires Advanced(before, after) && MembersOk(before, i, ms, clock)
    ensures MembersOk(after, i, ms, clock)
  {
    forall k | 0 <= k < |ms| ensures PeerOk(after, i, ms[k]) { assert PeerOk(before, i, ms[k]); }
  }

  lemma MessagesOk(before: seq<Node>, after: seq<Node>, msg: seq<Item>)
    requires Advanced(before, after) && MessageOk(before, msg)
    ensures MessageOk(after, msg)
  {
    forall k | 0 <= k < |msg| ensures ItemOk(after, msg[k]) { assert ItemOk(before, msg[k]); }
  }

  lemma {:induction false} EntriesOk(nodes: seq<Node>, i: nat, ms: seq<Peer>, clock: nat)
    requires MembersOk(nodes, i, ms, clock)
    ensures MessageOk(nodes, Entries(ms))
    decreases |ms|
  {
    if ms != [] {
      var front, last := ms[..|ms| - 1], ms[|ms| - 1];
      assert PeerOk(nodes, i, last);
      forall k | 0 <= k < |front| ensures PeerOk(nodes, i, front[k]) { assert PeerOk(nodes, i, ms[k]); }
      EntriesOk(nodes, i, front, clock);
    }
  }

  lemma DatagramOk(nodes: seq<Node>, i: nat, ms: seq<Peer>, clock: nat)
    requires i < |nodes| && MembersOk(nodes, i, ms, clock)
    ensures MessageOk(nodes, [Item(i, nodes[i].heartbeat)] + Entries(ms))
  {
    EntriesOk(nodes, i, ms, clock);
    hide Entries;
    var msg := [Item(i, nodes[i].heartbeat)] + Entries(ms);
    forall k | 0 <= k < |msg| ensures ItemOk(nodes, msg[k]) {
      if k > 0 { assert ItemOk(nodes, Entries(ms)[k - 1]); }
    }
  }

  lemma NextKeeps(net: Net, e: Event, cfg: Config)
    requires Inv(net)
    ensures Inv(Next(net, e, cfg)) && Advanced(net.nodes, Next(net, e, cfg).nodes)
  {
    hide MembersOk, MessageOk, Merge, CheckAll, Entries;
    if Enabled(net, e) {
      var after := Next(net, e, cfg);
      var n := net.nodes[e.i];
      assert Advanced(net.nodes, after.nodes);
      forall msg | msg in net.sent ensures MessageOk(after.nodes, msg) { MessagesOk(net.nodes, after.nodes, msg); }
      forall i | 0 <= i < |net.nodes|
        ensures MembersOk(after.nodes, i, after.nodes[i].members, after.nodes[i].clock)
      {
        if i == e.i {
          if e.Tick? {
            CheckedOk(net.nodes, i, n.members, n.clock, e.now, cfg);
          } else {
            MergeOk(net.nodes, i, n.members, e.msg, n.clock, e.now);
          }
        }
        OthersOk(net.nodes, after.nodes, i, after.nodes[i].members, after.nodes[i].clock);
      }
      if e.Tick? { DatagramOk(after.nodes, e.i, after.nodes[e.i].members, e.now); }
    }
  }

  lemma {:induction false} RunKeeps(net: Net, es: seq<Event>, cfg: Config)
    requires Inv(net)
    ensures Inv(Run(net, es, cfg)) && Advanced(net.nodes, Run(net, es, cfg).nodes)
    decreases |es|
  {
    hide Inv, Next;
    if es != [] {
      NextKeeps(net, es[0], cfg);
      RunKeeps(Next(net, es[0], cfg), es[1..], cfg);
    }
  }

  /** In every run from the start, a stored or sent heartbeat never exceeds its owner's counter. */
  lemma HeartbeatsAreHonest(count: nat, es: seq<Event>, cfg: Config)
    ensures var net := Run(Start(count), es, cfg);
            && (forall i, k :: 0 <= i < |net.nodes| && 0 <= k < |net.nodes[i].members| ==>
                  PeerOk(net.nodes, i, net.nodes[i].members[k]))
            && (forall msg, k :: msg in net.sent && 0 <= k < |msg| ==> ItemOk(net.nodes, msg[k]))
  {
    assert Inv(Start(count));
    RunKeeps(Start(count), es, cfg);
    var net := Run(Start(count), es, cfg);
    forall i, k | 0 <= i < |net.nodes| && 0 <= k < |net.nodes[i].members|
      ensures PeerOk(net.nodes, i, net.nodes[i].members[k])
    {
      assert MembersOk(net.nodes, i, net.nodes[i].members, net.nodes[i].clock);
    }
    forall msg, k | msg in net.sent && 0 <= k < |msg| ensures ItemOk(net.nodes, msg[k]) {
      assert MessageOk(net.nodes, msg);
    }
  }

  /** In every run from the start, no peer was heard after the latest reading of a node's clock: no age wraps round. */
  lemma NoAgeWraps(count: nat, es: seq<Event>, cfg: Config, i: nat, k: nat, now: nat)
    requires var net := Run(Start(count), es, cfg);
             i < |net.nodes| && k < |net.nodes[i].members| && net.nodes[i].clock <= now
    ensures var p := Run(Start(count), es, cfg).nodes[i].members[k]; p.lastSeen <= now && Age(p, now) == now - p.lastSeen
  {
    assert Inv(Start(count));
    RunKeeps(Start(count), es, cfg);
    var net := Run(Start(count), es, cfg);
    assert MembersOk(net.nodes, i, net.nodes[i].members, net.nodes[i].clock);
    assert PeerOk(net.nodes, i, net.nodes[i].members[k]);
  }

  // --- What one node knows of another ---

  /** The stored heartbeat, or -1 for a peer not known yet. */
  function Stored(ms: seq<Peer>, j: nat): int
  {
    var i := FindPeer(ms, j);
    if i < |ms| then ms[i].heartbeat else -1
  }

  predicate Knows(ms: seq<Peer>, j: nat) { FindPeer(ms, j) < |ms| }

  function PeerOf(ms: seq<Peer>, j: nat): Peer
    requires Knows(ms, j)
  {
    ms[FindPeer(ms, j)]
  }

  /** How often the entries of a datagram refresh what is known of j. */
  function Refreshes(ms: seq<Peer>, self: nat, items: seq<Item>, now: nat, j: nat): nat
    decreases |items|
  {
    if items == [] then 0
    else
      (if items[0].id == j && Fresh(ms, self, items[0]) then 1 else 0)
      + Refreshes(MergeOne(ms, self, items[0], now), self, items[1..], now, j)
  }

  /** How often node i refreshes what it knows of j in a run. */
  function RunRefreshes(net: Net, es: seq<Event>, cfg: Config, i: nat, j: nat): nat
    requires i < |net.nodes|
    decreases |es|
  {
    if es == [] then 0
    else
      var after := Next(net, es[0], cfg);
      (if es[0].Deliver? && es[0].i == i && Enabled(net, es[0])
       then Refreshes(net.nodes[i].members, i, es[0].msg, es[0].now, j) else 0)
      + RunRefreshes(after, es[1..], cfg, i, j)
  }

  lemma {:induction false} FindAfterAppend(ms: seq<Peer>, p: Peer, j: nat)
    ensures FindPeer(ms + [p], j)
         == if FindPeer(ms, j) < |ms| then FindPeer(ms, j) else if p.id == j then |ms| else |ms| + 1
  {
    if ms != [] && ms[0].id != j {
      FindAfterAppend(ms[1..], p, j);
      assert (ms + [p])[1..] == ms[1..] + [p];
    } else if ms == [] {
      assert (ms + [p])[1..] == [];
    }
  }

  lemma {:induction false} FindAfterUpdate(ms: seq<Peer>, i: nat, p: Peer, j: nat)
    requires i < |ms| && p.id == ms[i].id
    ensures FindPeer(ms[i := p], j) == FindPeer(ms, j)
  {
    if ms[0].id != j && i > 0 {
      FindAfterUpdate(ms[1..], i - 1, p, j);
      assert ms[i := p][1..] == ms[1..][i - 1 := p];
    } else if i == 0 {
      assert ms[i := p][1..] == ms[1..];
    }
  }

  /** A merged entry touches j only if it is about j, and then only to raise its heartbeat. */
  lemma MergeOneRaises(ms: seq<Peer>, self: nat, m: Item, now: nat, j: nat)
    ensures var r := MergeOne(ms, self, m, now);
            if m.id == j && Fresh(ms, self, m)
            then Knows(r, j) && PeerOf(r, j) == Peer(j, m.hb, Alive, now) && Stored(r, j) == m.hb > Stored(ms, j)
            else Knows(r, j) == Knows(ms, j) && (Knows(ms, j) ==> PeerOf(r, j) == PeerOf(ms, j))
                 && Stored(r, j) == Stored(ms, j)
  {
    hide FindPeer;
    var i, p := FindPeer(ms, m.id), Peer(m.id, m.hb, Alive, now);
    if i < |ms| { FindAfterUpdate(ms, i, p, j); }
    FindAfterAppend(ms, p, j);
  }

  /** Every refresh raises the stored heartbeat by at least one; without a refresh nothing changes. */
  lemma {:induction false} MergeRaises(ms: seq<Peer>, self: nat, items: seq<Item>, now: nat, j: nat)
    ensures var r, n := Merge(ms, self, items, now), Refreshes(ms, self, items, now, j);
            && Stored(ms, j) + n <= Stored(r, j)
            && (n == 0 ==> Knows(r, j) == Knows(ms, j) && (Knows(ms, j) ==> PeerOf(r, j) == PeerOf(ms, j)))
    decreases |items|
  {
    if items != [] {
      hide MergeOne, Stored, Knows, PeerOf, Fresh;
      MergeOneRaises(ms, self, items[0], now, j);
      MergeRaises(MergeOne(ms, self, items[0], now), self, items[1..], now, j);
    }
  }

  lemma {:induction false} FindAfterCheck(ms: seq<Peer>, now: nat, cfg: Config, j: nat)
    ensures FindPeer(CheckAll(ms, now, cfg), j) == FindPeer(ms, j)
  {
    if ms != [] {
      FindAfterCheck(ms[1..], now, cfg, j);
      assert CheckAll(ms, now, cfg)[1..] == CheckAll(ms[1..], now, cfg);
    }
  }

  /** One step of the network, seen from what node i knows of j. */
  lemma StepRaises(net: Net, e: Event, cfg: Config, i: nat, j: nat)
    requires i < |net.nodes|
    ensures var after := Next(net, e, cfg);
            var n := if e.Deliver? && e.i == i && Enabled(net, e)
                     then Refreshes(net.nodes[i].members, i, e.msg, e.now, j) else 0;
            && |after.nodes| == |net.nodes|
            && Stored(net.nodes[i].members, j) + n <= Stored(after.nodes[i].members, j)
  {
    if Enabled(net, e) && e.i == i {
      var ms := net.nodes[i].members;
      if e.Tick? {
        FindAfterCheck(ms, e.now, cfg, j);
        hide FindPeer;
        assert FindPeer(ms, j) < |ms| ==> CheckAll(ms, e.now, cfg)[FindPeer(ms, j)].heartbeat == ms[FindPeer(ms, j)].heartbeat;
      } else {
        hide Merge, Refreshes, Stored;
        MergeRaises(ms, i, e.msg, e.now, j);
      }
    }
  }

  /** Stored heartbeats never decrease, and every refresh on the way raises them. */
  lemma {:induction false} RunRaises(net: Net, es: seq<Event>, cfg: Config, i: nat, j: nat)
    requires i < |net.nodes|
    ensures var r := Run(net, es, cfg);
            && |r.nodes| == |net.nodes|
            && Stored(net.nodes[i].members, j) + RunRefreshes(net, es, cfg, i, j) <= Stored(r.nodes[i].members, j)
    decreases |es|
  {
    if es != [] {
      hide Next, Stored, Refreshes;
      StepRaises(net, es[0], cfg, i, j);
      RunRaises(Next(net, es[0], cfg), es[1..], cfg, i, j);
    }
  }

  // --- A node that has stopped ---

  predicate NoTick(es: seq<Event>, j: nat) { forall k :: 0 <= k < |es| ==> !(es[k].Tick? && es[k].i == j) }

  lemma {:induction false} CounterStands(net: Net, es: seq<Event>, cfg: Config, j: nat)
    requires j < |net.nodes| && NoTick(es, j)
    ensures |Run(net, es, cfg).nodes| == |net.nodes|
    ensures Run(net, es, cfg).nodes[j].heartbeat == net.nodes[j].heartbeat
    decreases |es|
  {
    if es != [] {
      hide Merge, CheckAll, Entries;
      CounterStands(Next(net, es[0], cfg), es[1..], cfg, j);
    }
  }

  lemma StoredIsHonest(net: Net, i: nat, j: nat)
    requires Inv(net) && i < |net.nodes| && j < |net.nodes|
    ensures Stored(net.nodes[i].members, j) <= net.nodes[j].heartbeat
  {
    var ms := net.nodes[i].members;
    assert MembersOk(net.nodes, i, ms, net.nodes[i].clock);
    var k := FindPeer(ms, j);
    if k < |ms| { assert PeerOk(net.nodes, i, ms[k]); }
  }

  /**
   * Once j has stopped ticking, a node refreshes what it knows of j at most as often as the counter of j is ahead
   * of what it has stored, however many datagrams are repeated, lost or late.
   */
  lemma RefreshesAreBounded(net: Net, es: seq<Event>, cfg: Config, i: nat, j: nat)
    requires Inv(net) && i < |net.nodes| && j < |net.nodes| && NoTick(es, j)
    ensures RunRefreshes(net, es, cfg, i, j) <= net.nodes[j].heartbeat - Stored(net.nodes[i].members, j)
  {
    RunKeeps(net, es, cfg);
    RunRaises(net, es, cfg, i, j);
    CounterStands(net, es, cfg, j);
    hide Inv, Run, Stored, RunRefreshes;
    StoredIsHonest(Run(net, es, cfg), i, j);
  }

  // --- Death is noticed and final ---

  /** Node i has not heard of j for the dead time. */
  predicate Overdue(net: Net, i: nat, j: nat, now: nat, cfg: Config)
    requires i < |net.nodes|
  {
    var ms := net.nodes[i].members;
    Knows(ms, j) && PeerOf(ms, j).lastSeen + cfg.deadMs <= now
  }

  predicate ReportsDead(net: Net, i: nat, j: nat)
    requires i < |net.nodes|
  {
    Knows(net.nodes[i].members, j) && PeerOf(net.nodes[i].members, j).status.Dead?
  }

  lemma TickReportsDead(net: Net, cfg: Config, i: nat, j: nat, now: nat)
    requires i < |net.nodes| && Overdue(net, i, j, now, cfg) && net.nodes[i].clock <= now
    ensures var after := Next(net, Tick(i, now), cfg);
            ReportsDead(after, i, j) && Overdue(after, i, j, after.nodes[i].clock, cfg)
  {
    var ms := net.nodes[i].members;
    FindAfterCheck(ms, now, cfg, j);
    hide FindPeer;
    var k := FindPeer(ms, j);
    assert CheckAll(ms, now, cfg)[k] == Checked(ms[k], now, cfg);
  }

  /** A peer reported dead after the dead time stays so as long as no newer heartbeat arrives. */
  lemma StepStaysDead(net: Net, e: Event, cfg: Config, i: nat, j: nat)
    requires i < |net.nodes| && ReportsDead(net, i, j) && Overdue(net, i, j, net.nodes[i].clock, cfg)
    requires e.Deliver? && e.i == i && Enabled(net, e) ==> Refreshes(net.nodes[i].members, i, e.msg, e.now, j) == 0
    ensures var after := Next(net, e, cfg);
            |after.nodes| == |net.nodes| && ReportsDead(after, i, j) && Overdue(after, i, j, after.nodes[i].clock, cfg)
  {
    if Enabled(net, e) && e.i == i {
      if e.Tick? {
        TickReportsDead(net, cfg, i, j, e.now);
      } else {
        hide Merge, Refreshes, Knows, PeerOf;
        MergeRaises(net.nodes[i].members, i, e.msg, e.now, j);
      }
    }
  }

  lemma {:induction false} StaysDead(net: Net, es: seq<Event>, cfg: Config, i: nat, j: nat)
    requires i < |net.nodes| && ReportsDead(net, i, j) && Overdue(net, i, j, net.nodes[i].clock, cfg)
    requires RunRefreshes(net, es, cfg, i, j) == 0
    ensures |Run(net, es, cfg).nodes| == |net.nodes| && ReportsDead(Run(net, es, cfg), i, j)
    decreases |es|
  {
    if es != [] {
      hide Next, ReportsDead, Overdue, Refreshes;
      StepStaysDead(net, es[0], cfg, i, j);
      StaysDead(Next(net, es[0], cfg), es[1..], cfg, i, j);
    }
  }

  /**
   * After j has stopped and node i has heard its last heartbeat, the first tick of i past the dead time reports j
   * dead, and no gossip of any kind revives it.
   */
  lemma NothingRevives(net: Net, es: seq<Event>, cfg: Config, i: nat, j: nat, now: nat)
    requires Inv(net) && i < |net.nodes| && j < |net.nodes| && i != j && NoTick(es, j)
    requires Stored(net.nodes[i].members, j) == net.nodes[j].heartbeat
    requires Overdue(net, i, j, now, cfg) && net.nodes[i].clock <= now
    ensures var after := Next(net, Tick(i, now), cfg);
            && |after.nodes| == |net.nodes| && ReportsDead(after, i, j)
            && |Run(after, es, cfg).nodes| == |net.nodes| && ReportsDead(Run(after, es, cfg), i, j)
  {
    var after := Next(net, Tick(i, now), cfg);
    assert |after.nodes| == |net.nodes| && after.nodes[j].heartbeat == net.nodes[j].heartbeat;
    NextKeeps(net, Tick(i, now), cfg);
    StepRaises(net, Tick(i, now), cfg, i, j);
    TickReportsDead(net, cfg, i, j, now);
    hide Next, Inv, Run, Stored, RunRefreshes;
    StoredIsHonest(after, i, j);
    RefreshesAreBounded(after, es, cfg, i, j);
    StaysDead(after, es, cfg, i, j);
  }
}

/** What one tick and one datagram do, peer by peer. */
module GossipLaws {
  import opened GossipSpec
  import opened GossipProofs

  /** A tick moves the own counter on by one and gives every peer the status of its silence; nothing else changes. */
  lemma TickDoes(net: Net, i: nat, now: nat, cfg: Config, k: nat)
    requires i < |net.nodes| && net.nodes[i].clock <= now
    requires k < |net.nodes[i].members| && net.nodes[i].members[k].lastSeen <= now
    ensures var before, after := net.nodes[i], Next(net, Tick(i, now), cfg).nodes[i];
            var p, q := before.members[k], after.members[k];
            && after.heartbeat == before.heartbeat + 1 && |after.members| == |before.members|
            && q == p.(status := q.status)
            && (q.status.Dead? <==> now - p.lastSeen >= cfg.deadMs)
            && (q.status.Suspect? <==> cfg.suspectMs <= now - p.lastSeen < cfg.deadMs)
            && (q.status.Alive? <==> now - p.lastSeen < cfg.deadMs && now - p.lastSeen < cfg.suspectMs)
  {
  }

  /** The datagram of a tick tells of the sender and of exactly the peers that are not dead. */
  lemma TickSends(net: Net, i: nat, now: nat, cfg: Config)
    requires i < |net.nodes| && net.nodes[i].clock <= now
    ensures var after := Next(net, Tick(i, now), cfg);
            var msg := Ticked(net.nodes[i], i, now, cfg).1;
            && after.sent == net.sent + {msg}
            && msg != [] && msg[0] == Item(i, net.nodes[i].heartbeat + 1)
            && (forall m :: m in msg[1..] <==> exists k :: Tells(after.nodes[i].members, k, m))
  {
    var ms := CheckAll(net.nodes[i].members, now, cfg);
    forall m ensures m in Entries(ms) <==> exists k :: Tells(ms, k, m) { EntriesTell(ms, m); }
    hide Entries, CheckAll;
    var msg := Ticked(net.nodes[i], i, now, cfg).1;
    assert msg[1..] == Entries(ms);
  }

  /** The entry is about peer k, which is not dead. */
  predicate Tells(ms: seq<Peer>, k: int, m: Item)
  {
    0 <= k < |ms| && !ms[k].status.Dead? && m == Item(ms[k].id, ms[k].heartbeat)
  }

  lemma {:induction false} EntriesTell(ms: seq<Peer>, m: Item)
    ensures m in Entries(ms) <==> exists k :: Tells(ms, k, m)
    decreases |ms|
  {
    if ms != [] {
      var front, n := ms[..|ms| - 1], |ms| - 1;
      EntriesTell(front, m);
      assert forall k :: 0 <= k < n ==> (Tells(ms, k, m) <==> Tells(front, k, m));
      if Tells(ms, n, m) { assert m in Entries(ms); }
      if k :| Tells(front, k, m) { assert Tells(ms, k, m); }
      if k :| Tells(ms, k, m) { assert k == n || Tells(front, k, m); }
    }
  }

  /** The highest heartbeat that these entries give for j, or -1. */
  function Newest(items: seq<Item>, j: nat): (r: int)
    ensures r >= -1
  {
    if items == [] then -1
    else
      var rest := Newest(items[1..], j);
      if items[0].id == j && items[0].hb > rest then items[0].hb else rest
  }

  /** News of another node is taken whole, makes it alive and starts its silence anew; old news changes nothing. */
  lemma {:induction false} MergeTakesNews(ms: seq<Peer>, self: nat, items: seq<Item>, now: nat, j: nat)
    requires j != self
    ensures var r := Merge(ms, self, items, now);
            if Newest(items, j) > Stored(ms, j)
            then Knows(r, j) && PeerOf(r, j) == Peer(j, Newest(items, j), Alive, now)
            else Knows(r, j) == Knows(ms, j) && (Knows(ms, j) ==> PeerOf(r, j) == PeerOf(ms, j))
    decreases |items|
  {
    if items != [] {
      var one := MergeOne(ms, self, items[0], now);
      MergeOneRaises(ms, self, items[0], now, j);
      hide MergeOne;
      MergeTakesNews(one, self, items[1..], now, j);
    }
  }

  /** What others say of this node itself is ignored. */
  lemma {:induction false} OwnNewsIsIgnored(ms: seq<Peer>, self: nat, items: seq<Item>, now: nat)
    ensures var r := Merge(ms, self, items, now);
            Knows(r, self) == Knows(ms, self) && (Knows(ms, self) ==> PeerOf(r, self) == PeerOf(ms, self))
    decreases |items|
  {
    if items != [] {
      MergeOneRaises(ms, self, items[0], now, self);
      hide MergeOne;
      OwnNewsIsIgnored(MergeOne(ms, self, items[0], now), self, items[1..], now);
    }
  }
}

/** One node in its own form: a growing array of members overwritten in loops. */
module Gossip {
  import opened GossipSpec

  class Cluster {
    const self: nat
    const cfg: Config
    var heartbeat: nat
    var members: array<Peer>
    var count: nat

    ghost predicate Valid()
      reads this`members, this`count
    {
      count <= members.Length
    }

    ghost function Peers(): seq<Peer>
      requires Valid()
      reads this`members, this`count, members
    {
      members[..count]
    }

    /** Times that are not positive give the defaults. */
    constructor (self: nat, suspectAfterMs: int, deadAfterMs: int)
      ensures Valid() && fresh(members) && this.self == self && heartbeat == 0 && Peers() == []
      ensures cfg == Config(if suspectAfterMs > 0 then suspectAfterMs else 5000,
                            if deadAfterMs > 0 then deadAfterMs else 15000)
    {
      this.self := self;
      cfg := Config(if suspectAfterMs > 0 then suspectAfterMs else 5000, if deadAfterMs > 0 then deadAfterMs else 15000);
      heartbeat, count := 0, 0;
      members := new Peer[0];
    }

    method FindMember(id: nat) returns (i: nat)
      requires Valid()
      ensures i == FindPeer(Peers(), id)
    {
      i := 0;
      while i < count && members[i].id != id
        invariant 0 <= i <= count && forall k :: 0 <= k < i ==> members[k].id != id
      {
        i := i + 1;
      }
      FirstIs(Peers(), id, i);
    }

    static lemma {:induction false} FirstIs(ms: seq<Peer>, id: nat, i: nat)
      requires i <= |ms| && (i < |ms| ==> ms[i].id == id) && forall k :: 0 <= k < i ==> ms[k].id != id
      ensures FindPeer(ms, id) == i
    {
    }

    method Append(p: Peer)
      requires Valid()
      modifies this`members, this`count, members
      ensures Valid() && Peers() == old(Peers()) + [p] && (members == old(members) || fresh(members))
    {
      if count == members.Length {
        var grown, from := new Peer[if members.Length > 0 then members.Length * 2 else 8], members;
        var i := 0;
        while i < count
          invariant 0 <= i <= count <= grown.Length && members == from && count == from.Length == old(count)
          invariant from[..] == old(members[..]) && grown[..i] == from[..i]
        {
          grown[i] := from[i];
          i := i + 1;
        }
        members := grown;
      }
      members[count] := p;
      count := count + 1;
    }

    /** Takes the entries of a datagram that are news. */
    method MergeList(list: seq<Item>, now: nat)
      requires Valid()
      modifies this`members, this`count, members
      ensures Valid() && Peers() == Merge(old(Peers()), self, list, now)
      ensures members == old(members) || fresh(members)
    {
      hide FindPeer;
      var i := 0;
      assert list[0..] == list;
      while i < |list|
        invariant 0 <= i <= |list| && Valid() && (members == old(members) || fresh(members))
        invariant Merge(Peers(), self, list[i..], now) == Merge(old(Peers()), self, list, now)
      {
        var m := list[i];
        assert list[i..][0] == m && list[i..][1..] == list[i + 1..];
        i := i + 1;
        if m.id == self { continue; }
        var e := FindMember(m.id);
        if e == count {
          Append(Peer(m.id, m.hb, Alive, now));
        } else if m.hb > members[e].heartbeat {
          ghost var before := Peers();
          members[e] := Peer(m.id, m.hb, Alive, now);
          assert Peers() == before[e := Peer(m.id, m.hb, Alive, now)];
        }
      }
    }

    /** Advances the own counter, updates every status and gives the datagram to send. */
    method GossipTick(now: nat) returns (msg: seq<Item>)
      requires Valid()
      modifies this`heartbeat, members
      ensures Valid() && members == old(members) && count == old(count)
      ensures (Node(heartbeat, Peers(), now), msg) == Ticked(Node(old(heartbeat), old(Peers()), now), self, now, cfg)
    {
      hide Entries, CheckAll;
      heartbeat := heartbeat + 1;
      var entries := CheckMembers(now);
      msg := [Item(self, heartbeat)] + entries;
    }

    /** Updates every status; gives the entries about the peers that are not dead. */
    method CheckMembers(now: nat) returns (entries: seq<Item>)
      requires Valid()
      modifies members
      ensures Valid() && Peers() == CheckAll(old(Peers()), now, cfg) && entries == Entries(Peers())
    {
      hide Entries, CheckAll, StatusAt, Age, Checked;
      ghost var before, done := Peers(), CheckAll(Peers(), now, cfg);
      NoEntries();
      assert done[..0] == [];
      entries := [];
      var d, n, i := members, count, 0;
      while i < n
        invariant 0 <= i <= n == count && d == members
        invariant forall k :: 0 <= k < i ==> d[k] == done[k]
        invariant forall k :: i <= k < n ==> d[k] == before[k]
        invariant entries == Entries(done[..i])
      {
        var m := d[i];
        EntriesNext(done, i);
        var age := if m.lastSeen <= now then now - m.lastSeen else (now - m.lastSeen) % WORD;
        var st := if age >= cfg.deadMs then Dead else if age >= cfg.suspectMs then Suspect else Alive;
        CheckedIs(m, now, cfg, age, st);
        d[i] := m.(status := st);
        if st != Dead { entries := entries + [Item(m.id, m.heartbeat)]; }
        i := i + 1;
      }
      assert done[..i] == done;
      assert Peers() == done;
    }

    static lemma NoEntries()
      ensures Entries([]) == []
    {
    }

    static lemma CheckedIs(p: Peer, now: nat, cfg: Config, age: nat, st: Status)
      requires age == (if p.lastSeen <= now then now - p.lastSeen else (now - p.lastSeen) % WORD)
      requires st == if age >= cfg.deadMs then Dead else if age >= cfg.suspectMs then Suspect else Alive
      ensures Checked(p, now, cfg) == p.(status := st)
    {
    }

    static lemma EntriesNext(ms: seq<Peer>, i: nat)
      requires i < |ms|
      ensures Entries(ms[..i + 1])
           == if ms[i].status.Dead? then Entries(ms[..i]) else Entries(ms[..i]) + [Item(ms[i].id, ms[i].heartbeat)]
    {
      assert ms[..i + 1][..i] == ms[..i];
    }

    /** This node and the peers it takes for alive. */
    method AliveCount() returns (n: nat)
      requires Valid()
      ensures n == 1 + |set k | 0 <= k < |Peers()| && Peers()[k].status.Alive?|
    {
      n := 1;
      var i := 0;
      ghost var alive: set<int> := {};
      while i < count
        invariant 0 <= i <= count && n == 1 + |alive|
        invariant alive == set k | 0 <= k < i && Peers()[k].status.Alive?
      {
        if members[i].status == Alive {
          n := n + 1;
          alive := alive + {i};
        }
        i := i + 1;
      }
      assert alive == set k | 0 <= k < |Peers()| && Peers()[k].status.Alive?;
    }
  }
}
