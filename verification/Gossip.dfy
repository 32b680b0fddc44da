/** Gossip: with one node that adds blocks and links that neither lose nor reorder messages, broadcasting
    alone brings every block to every node that can be reached (internal/p2p/server.go). */
module Gossip {
  import opened Timestamps
  import opened Blocks
  import opened Chains
  import opened Protocol
  import opened Network
  import opened Links
  import opened Exchanges

  // ----- What the links carry -----

  function Hashes(c: Chain): set<string> {
    set x | x in c :: x.hash
  }

  /** What a node with chain `v` lacks of `u`, when one is a prefix of the other. */
  function Lacking(u: Chain, v: Chain): seq<Block> {
    if |v| <= |u| then u[|v|..] else []
  }

  predicate IsGossip(p: Packet, graph: seq<set<nat>>) {
    p.message.BlockMsg? && p.src < |graph| && p.dst < |graph| && p.dst in graph[p.src]
  }

  /** What is under way from `x` to `y` is, in order, what `y` lacks of the chain of `x`. */
  predicate Carries(net: Net, x: nat, y: nat)
    requires x < |net.nodes| && y < |net.nodes|
  {
    Busy(net.flight, x, y, net.nodes[y].chain) == BlockMsgs(Lacking(net.nodes[x].chain, net.nodes[y].chain))
  }

  /** The peers of each node are those of the graph, and each has marked only blocks it has. */
  predicate Settings(net: Net, graph: seq<set<nat>>) {
    && |net.nodes| == |graph|
    && forall n :: 0 <= n < |graph| ==>
         net.nodes[n].heights.Keys == graph[n] && net.nodes[n].processed.Keys <= Hashes(net.nodes[n].chain)
  }

  /** Only blocks are in flight, and every link carries what its receiver lacks. */
  predicate Gossiping(net: Net, graph: seq<set<nat>>, w: nat) {
    && SingleWriter(net, w) && DistinctHashes(net.nodes[w].chain) && Settings(net, graph)
    && (forall i :: 0 <= i < |net.flight| ==> IsGossip(net.flight[i], graph))
    && forall x, y :: 0 <= x < |graph| && y in graph[x] && y < |graph| ==> Carries(net, x, y)
  }

  // ----- A node gets one block more -----

  lemma LackingLess(u: Chain, v: Chain, z: Block, c: Chain)
    requires u <= c && v + [z] <= c && DistinctHashes(c)
    ensures Keep(BlockMsgs(Lacking(u, v)), v + [z]) == BlockMsgs(Lacking(u, v + [z]))
  {
    var n := |v|;
    assert v + [z] == c[..n + 1];
    if n <= |u| {
      assert u[n..] == c[n..|u|];
      KeepWindow(c, n, |u|, n + 1);
      if n < |u| {
        assert u[n + 1..] == c[n + 1..|u|];
      }
    } else {
      assert Keep([], v + [z]) == [];
    }
  }

  lemma LackingMore(u: Chain, v: Chain, z: Block, c: Chain)
    requires u + [z] <= c && v <= c && DistinctHashes(c)
    ensures BlockMsgs(Lacking(u, v)) + Keep([BlockMsg(z)], v) == BlockMsgs(Lacking(u + [z], v))
  {
    KeepOne(BlockMsg(z), v);
    NoRepeats(c, |v|, |u|);
    assert v == c[..|v|] && z == c[|u|];
    if |v| <= |u| {
      assert (u + [z])[|v|..] == u[|v|..] + [z];
    }
  }

  /** A packet carrying `z` to `y` has been delivered, or no packet has. */
  predicate TakenFrom(base: seq<Packet>, flight: seq<Packet>, y: nat, z: Block) {
    base == flight
    || exists i :: 0 <= i < |flight| && flight[i].dst == y && flight[i].message == BlockMsg(z)
                   && base == Without(flight, i)
  }

  /** Node `y` has `z` now: its links have less to bring. */
  lemma BusyTaken(base: seq<Packet>, flight: seq<Packet>, y: nat, z: Block, u: nat, v: nat, have: Chain)
    requires TakenFrom(base, flight, y, z)
    ensures Busy(base, u, v, have + [z]) == Keep(Busy(flight, u, v, have), have + [z])
    ensures v != y ==> Busy(base, u, v, have) == Busy(flight, u, v, have)
  {
    KeepAgain(OnLink(flight, u, v), have, z);
    if base != flight {
      var i :| 0 <= i < |flight| && flight[i].dst == y && flight[i].message == BlockMsg(z)
               && base == Without(flight, i);
      BusyAfterAccept(flight, i, have, z, u, v);
      if v != y {
        IdleRemoved(flight, i, u, v, have);
      }
    }
  }

  /** The chain of `y` has grown by `z`, which `y` has sent to all its peers. */
  predicate Advanced(net: Net, after: Net, graph: seq<set<nat>>, y: nat, z: Block, base: seq<Packet>) {
    && |net.nodes| == |after.nodes| == |graph| && y < |graph|
    && TakenFrom(base, net.flight, y, z)
    && after.flight == base + Multicast(y, graph[y], |graph|, BlockMsg(z))
    && after.nodes[y].chain == net.nodes[y].chain + [z]
    && forall n :: 0 <= n < |graph| && n != y ==> after.nodes[n].chain == net.nodes[n].chain
  }

  lemma LinkAfterAdvance(net: Net, after: Net, graph: seq<set<nat>>, y: nat, z: Block, base: seq<Packet>, c: Chain,
                         u: nat, v: nat)
    requires Advanced(net, after, graph, y, z, base) && DistinctHashes(c)
    requires forall n :: 0 <= n < |graph| ==> after.nodes[n].chain <= c
    requires u < |graph| && v < |graph| && v in graph[u] && Carries(net, u, v)
    ensures Carries(after, u, v)
  {
    AdvancedBusy(net, after, graph, y, z, base, u, v);
    if v == y {
      LinkIntoAdvanced(net.nodes[u].chain, after.nodes[u].chain, net.nodes[v].chain, z, c);
    } else if u == y {
      LackingMore(net.nodes[u].chain, after.nodes[v].chain, z, c);
    }
  }

  /** What is under way then: less into `y`, `z` out of `y` unless it is idle there, and the same elsewhere. */
  lemma AdvancedBusy(net: Net, after: Net, graph: seq<set<nat>>, y: nat, z: Block, base: seq<Packet>, u: nat, v: nat)
    requires Advanced(net, after, graph, y, z, base) && u < |graph| && v < |graph| && v in graph[u]
    ensures var have := after.nodes[v].chain;
            Busy(after.flight, u, v, have)
            == if v == y then Keep(Busy(net.flight, u, v, net.nodes[v].chain), have)
               else if u == y then Busy(net.flight, u, v, have) + Keep([BlockMsg(z)], have)
               else Busy(net.flight, u, v, have)
  {
    var have := after.nodes[v].chain;
    var cast := Multicast(y, graph[y], |graph|, BlockMsg(z));
    BusyTaken(base, net.flight, y, z, u, v, net.nodes[v].chain);
    BusyConcat(base, cast, u, v, have);
    MulticastOnLink(y, graph[y], |graph|, BlockMsg(z), u, v);
    KeepOne(BlockMsg(z), have);
    assert Keep([], have) == [];
    assert Busy(base, u, v, have) + [] == Busy(base, u, v, have);
  }

  lemma LinkIntoAdvanced(u: Chain, u': Chain, v: Chain, z: Block, c: Chain)
    requires u' <= c && v + [z] <= c && DistinctHashes(c)
    requires u' == u || (u == v && u' == v + [z])
    ensures Keep(BlockMsgs(Lacking(u, v)), v + [z]) == BlockMsgs(Lacking(u', v + [z]))
  {
    LackingLess(u, v, z, c);
    assert Lacking(v, v) == [] && Lacking(v, v + [z]) == Lacking(v + [z], v + [z]) == [];
  }

  lemma AdvanceKeepsLinks(net: Net, after: Net, graph: seq<set<nat>>, w: nat, y: nat, z: Block, base: seq<Packet>)
    requires Gossiping(net, graph, w) && Advanced(net, after, graph, y, z, base)
    requires SingleWriter(after, w) && DistinctHashes(after.nodes[w].chain)
    ensures forall i :: 0 <= i < |after.flight| ==> IsGossip(after.flight[i], graph)
    ensures forall u, v :: 0 <= u < |graph| && v in graph[u] && v < |graph| ==> Carries(after, u, v)
  {
    forall u, v | 0 <= u < |graph| && v in graph[u] && v < |graph|
      ensures Carries(after, u, v)
    {
      LinkAfterAdvance(net, after, graph, y, z, base, after.nodes[w].chain, u, v);
    }
    CastIsGossip(graph, y, z);
    forall i | 0 <= i < |after.flight|
      ensures IsGossip(after.flight[i], graph)
    {
      if i < |base| {
        assert after.flight[i] in net.flight;
      }
    }
  }

  lemma CastIsGossip(graph: seq<set<nat>>, y: nat, z: Block)
    requires y < |graph|
    ensures forall p :: p in Multicast(y, graph[y], |graph|, BlockMsg(z)) ==> IsGossip(p, graph)
  {
    MulticastForm(y, graph[y], |graph|, BlockMsg(z));
    MulticastToPeers(y, graph[y], |graph|, BlockMsg(z));
  }

  // ----- Steps -----

  /** A lossless step in which only `w` adds blocks and the clock of a receiver admits the block it gets. */
  predicate Spreads(net: Net, s: Step, w: nat) {
    match s
    case Mine(n, _, _, _, _) => n == w
    case Deliver(i, now, _) =>
      IsFirst(net.flight, i)
      && (net.flight[i].message.BlockMsg? ==>
            Instant(net.flight[i].message.block.timestamp) <= now + MAX_TIME_DRIFT)
    case Tidy(_, _) => true
    case _ => false
  }

  /** What is in flight loses an idle packet at most. */
  predicate LosesIdle(net: Net, flight: seq<Packet>) {
    flight == net.flight
    || exists i :: 0 <= i < |net.flight| && net.flight[i].dst < |net.nodes|
                   && Idle(net.flight[i].message, net.nodes[net.flight[i].dst].chain)
                   && flight == Without(net.flight, i)
  }

  lemma LosingIdle(net: Net, flight: seq<Packet>, u: nat, v: nat)
    requires LosesIdle(net, flight) && v < |net.nodes|
    ensures forall p :: p in flight ==> p in net.flight
    ensures Busy(flight, u, v, net.nodes[v].chain) == Busy(net.flight, u, v, net.nodes[v].chain)
  {
    if flight != net.flight {
      var i :| 0 <= i < |net.flight| && net.flight[i].dst < |net.nodes|
               && Idle(net.flight[i].message, net.nodes[net.flight[i].dst].chain) && flight == Without(net.flight, i);
      IdleRemoved(net.flight, i, u, v, net.nodes[v].chain);
    }
  }

  lemma QuietLink(net: Net, after: Net, u: nat, v: nat)
    requires |after.nodes| == |net.nodes| && u < |net.nodes| && v < |net.nodes| && Carries(net, u, v)
    requires after.nodes[u].chain == net.nodes[u].chain && after.nodes[v].chain == net.nodes[v].chain
    requires LosesIdle(net, after.flight)
    ensures Carries(after, u, v)
  {
    LosingIdle(net, after.flight, u, v);
  }

  /** Nothing but the marks and the clock of a node changes. */
  predicate IsQuiet(n: Node, m: Node) {
    m.chain == n.chain && m.heights == n.heights && m.processed.Keys <= Hashes(n.chain)
  }

  /** Nothing but marks and clocks changes: every link still carries what it has to. */
  lemma QuietKeepsGossip(net: Net, after: Net, graph: seq<set<nat>>, w: nat)
    requires Gossiping(net, graph, w) && SingleWriter(after, w) && |after.nodes| == |net.nodes|
    requires forall n :: 0 <= n < |graph| ==> IsQuiet(net.nodes[n], after.nodes[n])
    requires LosesIdle(net, after.flight)
    ensures Gossiping(after, graph, w)
  {
    assert forall i :: 0 <= i < |after.flight| ==> IsGossip(after.flight[i], graph) by {
      LosingIdle(net, after.flight, w, w);
      assert forall p :: p in net.flight ==> IsGossip(p, graph);
      assert forall i :: 0 <= i < |after.flight| ==> after.flight[i] in after.flight;
    }
    forall u, v | 0 <= u < |graph| && v in graph[u] && v < |graph|
      ensures Carries(after, u, v)
    {
      assert IsQuiet(net.nodes[u], after.nodes[u]) && IsQuiet(net.nodes[v], after.nodes[v]);
      QuietLink(net, after, u, v);
    }
  }

  /** A block already held: nothing comes of it. */
  lemma HeldBlockReceived(n: Node, from: nat, b: Block, now: int, mark: int)
    requires ValidChain(n.chain, n.clock) && n.clock <= now <= mark && b in n.chain
    requires n.processed.Keys <= Hashes(n.chain)
    ensures var e := Receive(n, from, BlockMsg(b), now, mark);
            && e.node.chain == n.chain && e.gossip == [] && e.reply == []
            && e.node.heights == n.heights && e.node.processed.Keys <= Hashes(n.chain)
  {
    HeldBlockRejected(n, b, now);
    RejectedBlock(n, b, now, mark);
    assert b.hash in Hashes(n.chain);
  }

  lemma HeldBlockRejected(n: Node, b: Block, now: int)
    requires ValidChain(n.chain, n.clock) && n.clock <= now && b in n.chain
    ensures !Accepts(n.chain, b, now)
  {
    ExtendKeepsValidLater(n.chain, b, n.clock, now);
    if Accepts(n.chain, b, now) {
      AppendedIsNew(n.chain, b, n.clock, now);
    }
  }

  lemma RejectedBlock(n: Node, b: Block, now: int, mark: int)
    requires n.chain != [] && !Accepts(n.chain, b, now)
    ensures var e := OnBlock(n, b, now, mark);
            && e.node.chain == n.chain && e.gossip == [] && e.reply == [] && e.node.heights == n.heights
            && e.node.processed.Keys <= n.processed.Keys + {b.hash}
  {
  }

  lemma UnmarkedTaken(n: Node, z: Block, now: int, mark: int)
    requires n.chain != [] && Accepts(n.chain, z, now)
    requires n.processed.Keys <= Hashes(n.chain) && DistinctHashes(n.chain + [z])
    ensures var e := Offer(n, z, now, mark);
            && e.node.chain == n.chain + [z] && e.gossip == [z] && e.reply == []
            && e.node.heights == n.heights && e.node.processed.Keys == n.processed.Keys + {z.hash}
            && e.node.processed.Keys <= Hashes(n.chain + [z])
    ensures z.hash !in n.processed
  {
    NewHash(n.chain, z);
  }

  lemma NewHash(c: Chain, z: Block)
    requires DistinctHashes(c + [z])
    ensures z.hash !in Hashes(c) && Hashes(c + [z]) == Hashes(c) + {z.hash}
  {
    forall x | x in c
      ensures x.hash != z.hash
    {
      var i :| 0 <= i < |c| && c[i] == x;
      assert (c + [z])[i].hash != (c + [z])[|c|].hash;
    }
  }

  /** The next block of a chain one has a prefix of is appended and passed on, and nothing else. */
  lemma NextBlockReceived(n: Node, from: nat, c: Chain, now: int, mark: int)
    requires n.chain != [] && n.chain <= c && |n.chain| < |c| && Linked(c) && DistinctHashes(c)
    requires n.processed.Keys <= Hashes(n.chain)
    requires Instant(c[|n.chain|].timestamp) <= now + MAX_TIME_DRIFT
    ensures var z := c[|n.chain|];
            var e := Receive(n, from, BlockMsg(z), now, mark);
            && e.node.chain == n.chain + [z] <= c && e.gossip == [z] && e.reply == []
            && e.node.heights == n.heights && e.node.processed.Keys <= Hashes(n.chain + [z])
  {
    var z := c[|n.chain|];
    NextBlockAccepted(n.chain, c, now);
    PrefixDistinct(n.chain + [z], c);
    UnmarkedTaken(n, z, now, mark);
    UnmarkedReceived(n, from, z, now, mark);
  }

  lemma UnmarkedReceived(n: Node, from: nat, z: Block, now: int, mark: int)
    requires n.chain != [] && z.hash !in n.processed
    ensures var e, f := Receive(n, from, BlockMsg(z), now, mark), Offer(n, z, now, mark);
            && e.node.chain == f.node.chain && e.gossip == f.gossip && e.reply == f.reply
            && e.node.heights == f.node.heights && e.node.processed.Keys == f.node.processed.Keys + {z.hash}
  {
    assert Receive(n, from, BlockMsg(z), now, mark) == Mark(Offer(n, z, now, mark), z.hash, mark);
  }

  // ----- Deliveries and additions keep the links -----

  lemma DeliveryForm(net: Net, s: Step, b: Block)
    requires Enabled(net, s) && s.Deliver? && net.flight[s.i].message == BlockMsg(b)
    ensures var p := net.flight[s.i];
            var e := Receive(net.nodes[p.dst], p.src, p.message, s.now, s.mark);
            && Apply(net, s).nodes == net.nodes[p.dst := e.node]
            && (e.gossip == [] && e.reply == [] ==> Apply(net, s).flight == Without(net.flight, s.i))
            && (e.gossip == [b] && e.reply == [] ==>
                  Apply(net, s).flight
                  == Without(net.flight, s.i) + Multicast(p.dst, e.node.heights.Keys, |net.nodes|, BlockMsg(b)))
  {
    var p, rest := net.flight[s.i], Without(net.flight, s.i);
    var e := Receive(net.nodes[p.dst], p.src, p.message, s.now, s.mark);
    assert rest + ([] + []) == rest;
    var cast := Multicast(p.dst, e.node.heights.Keys, |net.nodes|, BlockMsg(b));
    assert cast + [] == cast;
  }

  lemma HeldBlockKeepsGossip(net: Net, s: Step, graph: seq<set<nat>>, w: nat)
    requires Gossiping(net, graph, w) && Enabled(net, s) && s.Deliver?
    requires Idle(net.flight[s.i].message, net.nodes[net.flight[s.i].dst].chain)
    ensures Gossiping(Apply(net, s), graph, w)
  {
    assert IsGossip(net.flight[s.i], graph);
    HeldBlockDelivered(net, s);
    StepKeepsSingleWriter(net, s, w);
    QuietKeepsGossip(net, Apply(net, s), graph, w);
  }

  lemma HeldBlockDelivered(net: Net, s: Step)
    requires Enabled(net, s) && s.Deliver? && net.flight[s.i].message.BlockMsg? && AllValid(net)
    requires Idle(net.flight[s.i].message, net.nodes[net.flight[s.i].dst].chain)
    requires forall n :: 0 <= n < |net.nodes| ==> net.nodes[n].processed.Keys <= Hashes(net.nodes[n].chain)
    ensures var after := Apply(net, s);
            && LosesIdle(net, after.flight) && |after.nodes| == |net.nodes|
            && forall n :: 0 <= n < |net.nodes| ==> IsQuiet(net.nodes[n], after.nodes[n])
  {
    var p := net.flight[s.i];
    assert CarriedIn(p.message, net.nodes[p.dst].chain);
    HeldBlockReceived(net.nodes[p.dst], p.src, p.message.block, s.now, s.mark);
    DeliveryForm(net, s, p.message.block);
  }

  /** The first packet on a link that is not idle is the next block its receiver lacks. */
  lemma FirstIsNext(net: Net, i: nat, graph: seq<set<nat>>, w: nat)
    requires Gossiping(net, graph, w) && IsFirst(net.flight, i)
    requires net.flight[i].dst < |net.nodes| && !Idle(net.flight[i].message, net.nodes[net.flight[i].dst].chain)
    ensures var v, c := net.nodes[net.flight[i].dst].chain, net.nodes[w].chain;
            v <= c && |v| < |c| && net.flight[i].message == BlockMsg(c[|v|])
  {
    var p := net.flight[i];
    assert IsGossip(p, graph);
    var u, v := net.nodes[p.src].chain, net.nodes[p.dst].chain;
    assert Carries(net, p.src, p.dst);
    FirstRemoved(net.flight, i, v);
    assert BlockMsgs(Lacking(u, v))[0] == p.message;
  }

  lemma NewBlockKeepsGossip(net: Net, s: Step, graph: seq<set<nat>>, w: nat)
    requires Gossiping(net, graph, w) && Enabled(net, s) && s.Deliver? && Spreads(net, s, w)
    requires !Idle(net.flight[s.i].message, net.nodes[net.flight[s.i].dst].chain)
    requires DistinctHashes(Apply(net, s).nodes[w].chain)
    ensures Gossiping(Apply(net, s), graph, w)
  {
    var p, c := net.flight[s.i], net.nodes[w].chain;
    var n := net.nodes[p.dst];
    FirstIsNext(net, s.i, graph, w);
    var z := c[|n.chain|];
    assert Linked(c) by {
      ValidIffLinkedAndTimely(c, net.nodes[w].clock);
    }
    NextBlockReceived(n, p.src, c, s.now, s.mark);
    DeliveryForm(net, s, z);
    StepKeepsSingleWriter(net, s, w);
    assert TakenFrom(Without(net.flight, s.i), net.flight, p.dst, z);
    NodeAdvances(net, Apply(net, s), graph, w, p.dst, z, Without(net.flight, s.i));
  }

  /** Node `y` has got `z`, has passed it on, and has marked no block that it does not have. */
  lemma NodeAdvances(net: Net, after: Net, graph: seq<set<nat>>, w: nat, y: nat, z: Block, base: seq<Packet>)
    requires Gossiping(net, graph, w) && y < |graph| && TakenFrom(base, net.flight, y, z)
    requires SingleWriter(after, w) && DistinctHashes(after.nodes[w].chain)
    requires after.flight == base + Multicast(y, graph[y], |graph|, BlockMsg(z))
    requires |after.nodes| == |net.nodes| && after.nodes == net.nodes[y := after.nodes[y]]
    requires var n := after.nodes[y];
             && n.chain == net.nodes[y].chain + [z] && n.heights.Keys == graph[y]
             && n.processed.Keys <= Hashes(n.chain)
    ensures Gossiping(after, graph, w)
  {
    AdvanceKeepsLinks(net, after, graph, w, y, z, base);
  }

  lemma MineForm(net: Net, s: Step)
    requires Enabled(net, s) && s.Mine?
    ensures var z := NextBlock(net.nodes[s.n].chain, s.bpm, s.timestamp);
            var e := Offer(net.nodes[s.n], z, s.now, s.mark);
            && Apply(net, s).nodes == net.nodes[s.n := e.node]
            && (e.gossip == [] && e.reply == [] ==> Apply(net, s).flight == net.flight)
            && (e.gossip == [z] && e.reply == [] ==>
                  Apply(net, s).flight
                  == net.flight + Multicast(s.n, e.node.heights.Keys, |net.nodes|, BlockMsg(z)))
  {
    var z := NextBlock(net.nodes[s.n].chain, s.bpm, s.timestamp);
    var cast := Multicast(s.n, Offer(net.nodes[s.n], z, s.now, s.mark).node.heights.Keys, |net.nodes|, BlockMsg(z));
    assert net.flight + ([] + []) == net.flight;
    assert cast + [] == cast;
  }

  lemma MineKeepsGossip(net: Net, s: Step, graph: seq<set<nat>>, w: nat)
    requires Gossiping(net, graph, w) && Enabled(net, s) && s.Mine? && s.n == w
    requires DistinctHashes(Apply(net, s).nodes[w].chain)
    ensures Gossiping(Apply(net, s), graph, w)
  {
    StepKeepsSingleWriter(net, s, w);
    var n, z := net.nodes[w], NextBlock(net.nodes[w].chain, s.bpm, s.timestamp);
    MineForm(net, s);
    if Accepts(n.chain, z, s.now) {
      assert Apply(net, s).nodes[w].chain == n.chain + [z] by {
        OfferExtends(n, z, s.now, s.mark);
      }
      UnmarkedTaken(n, z, s.now, s.mark);
      NodeAdvances(net, Apply(net, s), graph, w, w, z, net.flight);
    } else {
      NothingMade(net, s);
      QuietKeepsGossip(net, Apply(net, s), graph, w);
    }
  }

  lemma NothingMade(net: Net, s: Step)
    requires Enabled(net, s) && s.Mine?
    requires !Accepts(net.nodes[s.n].chain, NextBlock(net.nodes[s.n].chain, s.bpm, s.timestamp), s.now)
    requires forall n :: 0 <= n < |net.nodes| ==> net.nodes[n].processed.Keys <= Hashes(net.nodes[n].chain)
    ensures var after := Apply(net, s);
            && after.flight == net.flight && |after.nodes| == |net.nodes|
            && forall n :: 0 <= n < |net.nodes| ==> IsQuiet(net.nodes[n], after.nodes[n])
  {
    MineForm(net, s);
  }

  lemma TidyKeepsGossip(net: Net, s: Step, graph: seq<set<nat>>, w: nat)
    requires Gossiping(net, graph, w) && Enabled(net, s) && s.Tidy?
    ensures Gossiping(Apply(net, s), graph, w)
  {
    TidyForm(net, s);
    StepKeepsSingleWriter(net, s, w);
    forall n | 0 <= n < |graph|
      ensures IsQuiet(net.nodes[n], Apply(net, s).nodes[n])
    {
      assert IsTidied(net.nodes[n], Apply(net, s).nodes[n]);
    }
    QuietKeepsGossip(net, Apply(net, s), graph, w);
  }

  /** Whichever block is delivered or added next, every link carries, in order, what its receiver lacks. */
  lemma StepKeepsGossip(net: Net, s: Step, graph: seq<set<nat>>, w: nat)
    requires Gossiping(net, graph, w) && Enabled(net, s) && Spreads(net, s, w)
    requires DistinctHashes(Apply(net, s).nodes[w].chain)
    ensures Gossiping(Apply(net, s), graph, w)
  {
    if s.Mine? {
      MineKeepsGossip(net, s, graph, w);
    } else if s.Tidy? {
      TidyKeepsGossip(net, s, graph, w);
    } else if Idle(net.flight[s.i].message, net.nodes[net.flight[s.i].dst].chain) {
      HeldBlockKeepsGossip(net, s, graph, w);
    } else {
      NewBlockKeepsGossip(net, s, graph, w);
    }
  }

  // ----- Whole runs -----

  /** Nodes just started, with their peers as in the graph. */
  predicate IsStart(net: Net, graph: seq<set<nat>>) {
    && IsFresh(net) && |net.nodes| == |graph|
    && forall n :: 0 <= n < |graph| ==> net.nodes[n].heights.Keys == graph[n] && net.nodes[n].processed == map[]
  }

  /** The run is lossless, only `w` adds blocks, and the clocks admit the blocks. */
  predicate IsGossipRun(nets: seq<Net>, steps: seq<Step>, w: nat) {
    IsNetRun(nets, steps) && forall k :: 0 <= k < |steps| ==> Spreads(nets[k], steps[k], w)
  }

  lemma StartGossips(net: Net, graph: seq<set<nat>>, w: nat)
    requires IsStart(net, graph) && w < |graph|
    ensures Gossiping(net, graph, w)
  {
    forall n | 0 <= n < |net.nodes|
      ensures ValidChain(net.nodes[n].chain, net.nodes[n].clock)
    {
      NewChainIsValid(net.nodes[n].clock);
    }
    forall x, y | 0 <= x < |graph| && y in graph[x] && y < |graph|
      ensures Carries(net, x, y)
    {
      NothingBusy([], x, y, net.nodes[y].chain);
    }
  }

  lemma {:induction false} RunKeepsGossip(nets: seq<Net>, steps: seq<Step>, graph: seq<set<nat>>, w: nat, k: nat)
    requires IsGossipRun(nets, steps, w) && IsStart(nets[0], graph) && w < |graph| && k < |nets|
    requires forall j :: 0 <= j <= k ==> w < |nets[j].nodes| && DistinctHashes(nets[j].nodes[w].chain)
    ensures Gossiping(nets[k], graph, w)
  {
    if k == 0 {
      StartGossips(nets[0], graph, w);
    } else {
      RunKeepsGossip(nets, steps, graph, w, k - 1);
      assert IsNetStep(nets, steps, k - 1);
      StepKeepsGossip(nets[k - 1], steps[k - 1], graph, w);
    }
  }

  /** From peer to peer. */
  predicate IsPath(graph: seq<set<nat>>, path: seq<nat>) {
    && path != [] && (forall i :: 0 <= i < |path| ==> path[i] < |graph|)
    && forall i :: 0 <= i < |path| - 1 ==> IsHop(graph, path, i)
  }

  predicate IsHop(graph: seq<set<nat>>, path: seq<nat>, i: nat)
    requires i + 1 < |path| && path[i] < |graph|
  {
    path[i + 1] in graph[path[i]]
  }

  ghost predicate Reaches(graph: seq<set<nat>>, w: nat, d: nat) {
    exists path :: IsPath(graph, path) && path[0] == w && path[|path| - 1] == d
  }

  lemma SilentLink(net: Net, graph: seq<set<nat>>, w: nat, x: nat, y: nat)
    requires Gossiping(net, graph, w) && net.flight == []
    requires x < |graph| && y < |graph| && y in graph[x]
    ensures |net.nodes[x].chain| <= |net.nodes[y].chain|
  {
    assert Carries(net, x, y);
    NothingBusy([], x, y, net.nodes[y].chain);
    assert |BlockMsgs(Lacking(net.nodes[x].chain, net.nodes[y].chain))| == 0;
  }

  /** No node is behind any of the nodes whose peer it is. */
  predicate Level(net: Net, graph: seq<set<nat>>, w: nat) {
    && |net.nodes| == |graph| && w < |graph|
    && (forall n :: 0 <= n < |graph| ==> net.nodes[n].chain <= net.nodes[w].chain)
    && forall x, y :: 0 <= x < |graph| && y in graph[x] && y < |graph| ==>
         |net.nodes[x].chain| <= |net.nodes[y].chain|
  }

  lemma SilentIsLevel(net: Net, graph: seq<set<nat>>, w: nat)
    requires Gossiping(net, graph, w) && net.flight == []
    ensures Level(net, graph, w)
  {
    forall x, y | 0 <= x < |graph| && y in graph[x] && y < |graph|
      ensures |net.nodes[x].chain| <= |net.nodes[y].chain|
    {
      SilentLink(net, graph, w, x, y);
    }
  }

  lemma {:induction false} LevelPath(net: Net, graph: seq<set<nat>>, w: nat, path: seq<nat>, k: nat)
    requires Level(net, graph, w) && IsPath(graph, path) && path[0] == w && k < |path|
    ensures net.nodes[path[k]].chain == net.nodes[w].chain
  {
    if k > 0 {
      LevelPath(net, graph, w, path, k - 1);
      assert IsHop(graph, path, k - 1);
    }
  }

  /** The writer's chain has only grown: if its hashes are distinct now, they always were. */
  lemma {:induction false} WasDistinct(nets: seq<Net>, steps: seq<Step>, w: nat, j: nat, k: nat)
    requires IsNetRun(nets, steps) && AllValid(nets[0]) && w < |nets[0].nodes| && j <= k < |nets|
    requires w < |nets[k].nodes| && DistinctHashes(nets[k].nodes[w].chain)
    ensures w < |nets[j].nodes| && DistinctHashes(nets[j].nodes[w].chain)
    decreases k - j
  {
    ChainsStayValid(nets, steps, j, w);
    if j < k {
      WasDistinct(nets, steps, w, j + 1, k);
      assert IsNetStep(nets, steps, j);
      StepKeepsAllValid(nets[j], steps[j]);
      PrefixDistinct(nets[j].nodes[w].chain, nets[j + 1].nodes[w].chain);
    }
  }

  /** In every state of such a run every link carries what its receiver lacks. */
  lemma GossipHolds(nets: seq<Net>, steps: seq<Step>, graph: seq<set<nat>>, w: nat, k: nat)
    requires IsGossipRun(nets, steps, w) && IsStart(nets[0], graph) && w < |graph| && k < |nets|
    requires w < |nets[k].nodes| && DistinctHashes(nets[k].nodes[w].chain)
    ensures Gossiping(nets[k], graph, w)
  {
    StartGossips(nets[0], graph, w);
    forall j | 0 <= j <= k
      ensures w < |nets[j].nodes| && DistinctHashes(nets[j].nodes[w].chain)
    {
      WasDistinct(nets, steps, w, j, k);
    }
    RunKeepsGossip(nets, steps, graph, w, k);
  }

  lemma DistinctOrCollision(net: Net, n: nat)
    requires AllValid(net) && n < |net.nodes|
    ensures var c := net.nodes[n].chain; Collision(c, c) || DistinctHashes(c)
  {
    ValidIffLinkedAndTimely(net.nodes[n].chain, net.nodes[n].clock);
    HashesDistinct(net.nodes[n].chain);
  }

  lemma LevelNode(net: Net, graph: seq<set<nat>>, w: nat, d: nat)
    requires Level(net, graph, w) && Reaches(graph, w, d)
    ensures d < |net.nodes| && net.nodes[d].chain == net.nodes[w].chain
  {
    var path :| IsPath(graph, path) && path[0] == w && path[|path| - 1] == d;
    LevelPath(net, graph, w, path, |path| - 1);
  }

  lemma RunKeepsSize(nets: seq<Net>, steps: seq<Step>, graph: seq<set<nat>>, w: nat, k: nat)
    requires IsNetRun(nets, steps) && IsStart(nets[0], graph) && w < |graph| && k < |nets|
    ensures AllValid(nets[k]) && |nets[k].nodes| == |graph|
  {
    StartGossips(nets[0], graph, w);
    ChainsStayValid(nets, steps, k, w);
  }

  /** Gossip convergence: in every lossless run from fresh nodes in which only `w` adds blocks and the clocks
      admit them, with clean-ups at any time, whenever nothing is in flight every node that `w` reaches
      through peers of peers has the chain of `w`; unless that chain exhibits a hash collision. */
  lemma GossipConverges(nets: seq<Net>, steps: seq<Step>, graph: seq<set<nat>>, w: nat, k: nat, d: nat)
    requires IsGossipRun(nets, steps, w) && IsStart(nets[0], graph) && w < |graph| && k < |nets|
    requires nets[k].flight == [] && d < |graph| && Reaches(graph, w, d)
    ensures |nets[k].nodes| == |graph|
    ensures var c := nets[k].nodes[w].chain; Collision(c, c) || nets[k].nodes[d].chain == c
  {
    RunKeepsSize(nets, steps, graph, w, k);
    DistinctOrCollision(nets[k], w);
    if DistinctHashes(nets[k].nodes[w].chain) {
      GossipHolds(nets, steps, graph, w, k);
      SilentIsLevel(nets[k], graph, w);
      LevelNode(nets[k], graph, w, d);
    }
  }
}
