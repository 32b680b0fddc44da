/** A closed network falls silent: without new blocks, connections or requests only boundedly many
    deliveries are possible (`handleMessage` of internal/p2p/server.go). */
module Quiescence {
  import opened Chains
  import opened Protocol
  import opened Network

  /** What a message can still set off. */
  function Weight(m: Message): nat {
    match m
    case Version(_) => PAGE_LIMIT + 7
    case VerAck => PAGE_LIMIT + 6
    case GetBlocks(_) => PAGE_LIMIT + 3
    case Inv(vecs) => |vecs| + 2
    case GetData(vecs) => |vecs| + 1
    case FindBlock(_) => 2
    case GetPeers => 2
    case _ => 1
  }

  function MessagesWeight(ms: seq<Message>): nat {
    if ms == [] then 0 else MessagesWeight(ms[..|ms| - 1]) + Weight(ms[|ms| - 1])
  }

  function FlightWeight(ps: seq<Packet>): nat {
    if ps == [] then 0 else FlightWeight(ps[..|ps| - 1]) + Weight(ps[|ps| - 1].message)
  }

  /** How many blocks the nodes can still accept when no chain grows beyond `top` blocks. */
  function Room(nodes: seq<Node>, top: nat): int {
    if nodes == [] then 0 else Room(nodes[..|nodes| - 1], top) + top - |nodes[|nodes| - 1].chain|
  }

  /** No block with an index of `top` or more exists. */
  predicate Bounded(net: Net, top: nat) {
    && AllValid(net)
    && (forall n :: 0 <= n < |net.nodes| ==> |net.nodes[n].chain| <= top)
    && (forall i :: 0 <= i < |net.flight| ==> CarriesBelow(net.flight[i].message, top))
  }

  predicate CarriesBelow(m: Message, top: nat) {
    Carried(m).Some? ==> Carried(m).value.index < top
  }

  /** Deliveries and losses are what is counted; a clean-up may happen at any time. */
  predicate Closed(s: Step) {
    s.Deliver? || s.Drop? || s.Tidy?
  }

  // ----- Weights -----

  lemma {:induction false} FlightWeightConcat(a: seq<Packet>, b: seq<Packet>)
    ensures FlightWeight(a + b) == FlightWeight(a) + FlightWeight(b)
  {
    if b == [] {
      assert a + b == a;
    } else {
      var n := |b| - 1;
      FlightWeightConcat(a, b[..n]);
      assert (a + b)[..|a + b| - 1] == a + b[..n];
    }
  }

  lemma FlightWeightWithout(flight: seq<Packet>, i: nat)
    requires i < |flight|
    ensures FlightWeight(Without(flight, i)) == FlightWeight(flight) - Weight(flight[i].message)
  {
    var a, b := flight[..i], flight[i + 1..];
    FlightWeightConcat(a, b);
    FlightWeightConcat(flight[..i + 1], b);
    assert flight[..i + 1] + b == flight;
    assert flight[..i + 1][..i] == a;
  }

  lemma {:induction false} RepliesWeight(src: nat, dst: nat, ms: seq<Message>)
    ensures FlightWeight(Replies(src, dst, ms)) == MessagesWeight(ms)
  {
    if ms != [] {
      var n := |ms| - 1;
      RepliesWeight(src, dst, ms[..n]);
      assert Replies(src, dst, ms)[..n] == Replies(src, dst, ms[..n]);
    }
  }

  lemma {:induction false} MulticastWeight(src: nat, peers: set<nat>, n: nat, m: Message)
    requires Weight(m) == 1
    ensures FlightWeight(Multicast(src, peers, n, m)) <= n
  {
    if n > 0 {
      MulticastWeight(src, peers, n - 1, m);
      var last := if n - 1 in peers then [Packet(src, n - 1, m)] else [];
      FlightWeightConcat(Multicast(src, peers, n - 1, m), last);
      if n - 1 in peers {
        assert last[..0] == [];
      }
    }
  }

  lemma {:induction false} AnswersWeight(c: Chain, vecs: seq<InvVec>)
    ensures MessagesWeight(Answers(c, vecs)) <= |vecs|
  {
    if vecs != [] {
      var n := |vecs| - 1;
      AnswersWeight(c, vecs[..n]);
      var r, a := Answers(c, vecs[..n]), Answer(c, vecs[n]);
      if a == [] {
        assert r + a == r;
      } else {
        assert (r + a)[..|r + a| - 1] == r && Weight(a[0]) == 1;
      }
    }
  }

  lemma OneMessageWeight(m: Message)
    ensures MessagesWeight([m]) == Weight(m)
  {
    assert [m][..0] == [];
  }

  lemma TwoMessagesWeight(x: Message, y: Message)
    ensures MessagesWeight([x] + [y]) == Weight(x) + Weight(y)
  {
    OneMessageWeight(x);
    assert ([x] + [y])[..1] == [x];
  }

  lemma VerAckWeight(n: Node, from: nat)
    requires n.chain != []
    ensures MessagesWeight(VerAckReply(n, from)) < Weight(VerAck)
  {
    var q := GetBlocks(Last(n.chain).hash);
    if AskFor(n, from) == [] {
      OneMessageWeight(GetPeers);
      assert [] + [GetPeers] == [GetPeers];
    } else {
      assert AskFor(n, from) == [q];
      TwoMessagesWeight(q, GetPeers);
    }
  }

  /** Every answer weighs less than what it answers. */
  lemma ReplyWeighsLess(n: Node, from: nat, m: Message)
    requires n.chain != []
    ensures MessagesWeight(Reply(n, from, m)) < Weight(m)
  {
    match m
    case Version(_) => OneMessageWeight(VerAck);
    case VerAck => VerAckWeight(n, from);
    case GetBlocks(startHash) => OneMessageWeight(Inv(VecsOf(Page(n.chain, startHash, PAGE_LIMIT))));
    case Inv(vecs) => OneMessageWeight(GetData(Missing(vecs, n.processed)));
    case GetData(vecs) => AnswersWeight(n.chain, vecs);
    case GetPeers => OneMessageWeight(Peers);
    case FindBlock(hash) => OneMessageWeight(FindReply(n.chain, hash));
    case _ =>
  }

  // ----- Room -----

  lemma {:induction false} RoomUpdate(nodes: seq<Node>, n: nat, x: Node, top: nat)
    requires n < |nodes|
    ensures Room(nodes[n := x], top) == Room(nodes, top) + |nodes[n].chain| - |x.chain|
  {
    var k := |nodes| - 1;
    if n == k {
      assert nodes[n := x][..k] == nodes[..k];
    } else {
      RoomUpdate(nodes[..k], n, x, top);
      assert nodes[n := x][..k] == nodes[..k][n := x];
    }
  }

  lemma {:induction false} RoomIsNatural(nodes: seq<Node>, top: nat)
    requires forall n :: 0 <= n < |nodes| ==> |nodes[n].chain| <= top
    ensures Room(nodes, top) >= 0
  {
    if nodes != [] {
      RoomIsNatural(nodes[..|nodes| - 1], top);
    }
  }

  // ----- The measure -----

  /** Accepting a block costs one unit of room, worth more than the broadcast it sets off. */
  function Potential(net: Net, top: nat): int {
    Room(net.nodes, top) * (|net.nodes| + 1) + FlightWeight(net.flight)
  }

  lemma PotentialIsNatural(net: Net, top: nat)
    requires Bounded(net, top)
    ensures Potential(net, top) >= 0
  {
    RoomIsNatural(net.nodes, top);
    assert Room(net.nodes, top) * (|net.nodes| + 1) >= 0;
  }

  lemma DeliveryParts(net: Net, s: Step, top: nat)
    requires Enabled(net, s) && s.Deliver?
    ensures var p := net.flight[s.i];
            var n := net.nodes[p.dst];
            var e := Receive(n, p.src, p.message, s.now, s.mark);
            var out := Outgoing(net.(flight := Without(net.flight, s.i)), p.dst, e, p.src);
            && Room(Apply(net, s).nodes, top) == Room(net.nodes, top) + |n.chain| - |e.node.chain|
            && FlightWeight(Apply(net, s).flight)
               == FlightWeight(net.flight) - Weight(p.message) + FlightWeight(out)
  {
    var p := net.flight[s.i];
    var e := Receive(net.nodes[p.dst], p.src, p.message, s.now, s.mark);
    var rest := net.(flight := Without(net.flight, s.i));
    FlightWeightWithout(net.flight, s.i);
    FlightWeightConcat(rest.flight, Outgoing(rest, p.dst, e, p.src));
    RoomUpdate(net.nodes, p.dst, e.node, top);
  }

  lemma DeliveryLowersPotential(net: Net, s: Step, top: nat)
    requires Bounded(net, top) && Enabled(net, s) && s.Deliver?
    ensures Potential(Apply(net, s), top) < Potential(net, top)
  {
    var p := net.flight[s.i];
    var n, rest := net.nodes[p.dst], net.(flight := Without(net.flight, s.i));
    var e := Receive(n, p.src, p.message, s.now, s.mark);
    DeliveryParts(net, s, top);
    ReceiveAppends(n, p.src, p.message, s.now, s.mark);
    OutgoingWeight(rest, p.dst, n, p.src, p.message, s.now, s.mark);
    RoomPays(Room(net.nodes, top), Room(Apply(net, s).nodes, top), |net.nodes| + 1, FlightWeight(net.flight),
             Weight(p.message), FlightWeight(Outgoing(rest, p.dst, e, p.src)));
  }

  /** One unit of room is worth `k`: more than the broadcast that it pays for. */
  lemma RoomPays(r: int, r': int, k: nat, flight: int, weight: int, out: int)
    requires r' == r || r' == r - 1
    requires out < weight + if r' == r then 0 else k - 1
    ensures r' * k + (flight - weight + out) < r * k + flight
  {
    assert (r - 1) * k == r * k - k;
  }

  /** What a delivery sends weighs less than the message, plus one unit a node if a block was accepted. */
  lemma OutgoingWeight(rest: Net, dst: nat, n: Node, src: nat, m: Message, now: int, mark: int)
    requires n.chain != [] && n.clock <= now <= mark
    ensures var e := Receive(n, src, m, now, mark);
            FlightWeight(Outgoing(rest, dst, e, src))
            < Weight(m) + if e.node.chain == n.chain then 0 else |rest.nodes|
  {
    var e := Receive(n, src, m, now, mark);
    assert e.gossip == [] || e.node.chain != n.chain by {
      ReceiveAppends(n, src, m, now, mark);
    }
    assert MessagesWeight(e.reply) < Weight(m) by {
      ReceiveReplies(n, src, m, now, mark);
      ReplyWeighsLess(n, src, m);
    }
    EffectWeight(rest, dst, e, src);
  }

  lemma EffectWeight(rest: Net, dst: nat, e: Effect, src: nat)
    ensures FlightWeight(Outgoing(rest, dst, e, src))
         <= MessagesWeight(e.reply) + if e.gossip == [] then 0 else |rest.nodes|
  {
    var cast := if e.gossip == [] then []
                else Multicast(dst, e.node.heights.Keys, |rest.nodes|, BlockMsg(e.gossip[0]));
    RepliesWeight(dst, src, e.reply);
    FlightWeightConcat(cast, Replies(dst, src, e.reply));
    if e.gossip != [] {
      MulticastWeight(dst, e.node.heights.Keys, |rest.nodes|, BlockMsg(e.gossip[0]));
    }
  }

  lemma StepLowersPotential(net: Net, s: Step, top: nat)
    requires Bounded(net, top) && Enabled(net, s) && Closed(s)
    ensures Potential(Apply(net, s), top) <= Potential(net, top) - if s.Tidy? then 0 else 1
  {
    if s.Deliver? {
      DeliveryLowersPotential(net, s, top);
    } else if s.Drop? {
      FlightWeightWithout(net.flight, s.i);
    } else {
      TidyKeepsPotential(net, s, top);
    }
  }

  lemma TidyKeepsPotential(net: Net, s: Step, top: nat)
    requires Enabled(net, s) && s.Tidy?
    ensures Potential(Apply(net, s), top) == Potential(net, top)
  {
    RoomUpdate(net.nodes, s.n, CleanUp(net.nodes[s.n], s.now), top);
  }

  lemma StepKeepsBounded(net: Net, s: Step, top: nat)
    requires Bounded(net, top) && Enabled(net, s) && Closed(s)
    ensures Bounded(Apply(net, s), top)
  {
    StepKeepsAllValid(net, s);
    StepIsEvent(net, s);
    if s.Deliver? {
      DeliveredStaysBelow(net, s, top);
      FlightStaysBelow(net, s, top);
    }
  }

  lemma DeliveredStaysBelow(net: Net, s: Step, top: nat)
    requires Bounded(net, top) && Enabled(net, s) && s.Deliver?
    ensures var n := net.flight[s.i].dst;
            var c := Apply(net, s).nodes[n].chain;
            |c| <= top && forall i :: 0 <= i < |c| ==> c[i].index == i
  {
    var n, e := net.flight[s.i].dst, EventOf(net, s);
    StepKeepsAllValid(net, s);
    StepIsEvent(net, s);
    EventAppends(net.nodes[n], e);
    var c := Apply(net, s).nodes[n].chain;
    IndexIsPosition(c, Apply(net, s).nodes[n].clock, |c|);
    assert CarriesBelow(net.flight[s.i].message, top);
  }

  lemma FlightStaysBelow(net: Net, s: Step, top: nat)
    requires Enabled(net, s) && s.Deliver?
    requires forall i :: 0 <= i < |net.flight| ==> CarriesBelow(net.flight[i].message, top)
    requires var c := Apply(net, s).nodes[net.flight[s.i].dst].chain;
             |c| <= top && forall i :: 0 <= i < |c| ==> c[i].index == i
    ensures forall i :: 0 <= i < |Apply(net, s).flight| ==> CarriesBelow(Apply(net, s).flight[i].message, top)
  {
    var p := net.flight[s.i];
    var e := Receive(net.nodes[p.dst], p.src, p.message, s.now, s.mark);
    var rest := net.(flight := Without(net.flight, s.i));
    var sent := Outgoing(rest, p.dst, e, p.src);
    ReceiveSendsOwnBlocks(net.nodes[p.dst], p.src, p.message, s.now, s.mark);
    OutgoingCarriesOnly(rest, p.dst, e, p.src);
    OwnBlocksAreBelow(sent, e.node.chain, top);
    assert Apply(net, s).flight == rest.flight + sent;
    SentStaysBelow(net.flight, s.i, sent, top);
  }

  lemma SentStaysBelow(flight: seq<Packet>, i: nat, sent: seq<Packet>, top: nat)
    requires i < |flight| && forall j :: 0 <= j < |flight| ==> CarriesBelow(flight[j].message, top)
    requires forall j :: 0 <= j < |sent| ==> CarriesBelow(sent[j].message, top)
    ensures forall j :: 0 <= j < |Without(flight, i) + sent| ==>
              CarriesBelow((Without(flight, i) + sent)[j].message, top)
  {
  }

  lemma OwnBlocksAreBelow(sent: seq<Packet>, c: Chain, top: nat)
    requires CarriesOnly(sent, c) && |c| <= top && forall i :: 0 <= i < |c| ==> c[i].index == i
    ensures forall i :: 0 <= i < |sent| ==> CarriesBelow(sent[i].message, top)
  {
    forall i | 0 <= i < |sent|
      ensures CarriesBelow(sent[i].message, top)
    {
      assert CarriedIn(sent[i].message, c);
    }
  }

  function Counted(steps: seq<Step>): nat {
    if steps == [] then 0
    else Counted(steps[..|steps| - 1]) + if steps[|steps| - 1].Tidy? then 0 else 1
  }

  /** All steps count but the clean-ups. */
  lemma {:induction false} CountedExactly(steps: seq<Step>)
    ensures Counted(steps) == |set k | 0 <= k < |steps| && !steps[k].Tidy?|
  {
    var counted := set k | 0 <= k < |steps| && !steps[k].Tidy?;
    if steps == [] {
      assert counted == {};
    } else {
      var n := |steps| - 1;
      var before := set k | 0 <= k < n && !steps[..n][k].Tidy?;
      CountedExactly(steps[..n]);
      assert counted == before + if steps[n].Tidy? then {} else {n};
    }
  }

  /** Quiescence: whatever is delivered or lost in whatever order, a closed network allows no more
      deliveries and losses than its potential at the start. */
  lemma {:induction false} ClosedRunsAreBounded(nets: seq<Net>, steps: seq<Step>, top: nat, k: nat)
    requires IsNetRun(nets, steps) && Bounded(nets[0], top) && k <= |steps|
    requires forall i :: 0 <= i < |steps| ==> Closed(steps[i])
    ensures Bounded(nets[k], top)
    ensures Counted(steps[..k]) + Potential(nets[k], top) <= Potential(nets[0], top)
    ensures Counted(steps[..k]) <= Potential(nets[0], top)
  {
    if k > 0 {
      ClosedRunsAreBounded(nets, steps, top, k - 1);
      assert IsNetStep(nets, steps, k - 1);
      StepKeepsBounded(nets[k - 1], steps[k - 1], top);
      StepLowersPotential(nets[k - 1], steps[k - 1], top);
      assert steps[..k][..k - 1] == steps[..k - 1];
    }
    PotentialIsNatural(nets[k], top);
  }

  /** A bound exists for every network whose chains are valid, so every closed network falls silent. */
  lemma EveryNetIsBounded(net: Net) returns (top: nat)
    requires AllValid(net)
    ensures Bounded(net, top)
  {
    top := 0;
    var n := 0;
    while n < |net.nodes|
      invariant 0 <= n <= |net.nodes|
      invariant forall k :: 0 <= k < n ==> |net.nodes[k].chain| <= top
    {
      top := Max(top, |net.nodes[n].chain|);
      n := n + 1;
    }
    var i := 0;
    while i < |net.flight|
      invariant 0 <= i <= |net.flight|
      invariant forall k :: 0 <= k < |net.nodes| ==> |net.nodes[k].chain| <= top
      invariant forall k :: 0 <= k < i ==> CarriesBelow(net.flight[k].message, top)
    {
      var b := Carried(net.flight[i].message);
      top := if b.Some? then Max(top, b.value.index + 1) else top;
      i := i + 1;
    }
  }
}
