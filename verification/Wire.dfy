/** What goes over the wire: the outboxes of the server object get, peer by peer, what the network puts under
    way, and every step of the network is said by what it does to nodes and links (internal/p2p/server.go). */
module Wire {
  import opened Timestamps
  import opened Blocks
  import opened Chains
  import opened Protocol
  import opened Network
  import opened Links
  import P2pServer

  /** Sending to all peers: the outbox of each peer gets exactly what the network puts on the link to it. */
  lemma OutboxesAreCast(o: P2pServer.Outbox, src: nat, size: nat, m: Message, p: nat)
    requires p < size
    ensures P2pServer.ToAll(o, [m]).Keys == o.Keys
    ensures var cast := OnLink(Multicast(src, o.Keys, size, m), src, p);
            if p in o then P2pServer.ToAll(o, [m])[p] == o[p] + cast else cast == []
  {
    MulticastOnLink(src, o.Keys, size, m, src, p);
  }

  /** A message handled: the outbox of each peer gets exactly what the network puts on the link to it. */
  lemma OutboxesAreOutgoing(o: P2pServer.Outbox, net: Net, src: nat, e: Effect, from: nat, p: nat)
    requires p < |net.nodes| && o.Keys == e.node.heights.Keys && |e.gossip| <= 1 && from in o
    ensures var after := P2pServer.ToOne(P2pServer.ToAll(o, BlockMsgs(e.gossip)), from, e.reply);
            var sent := OnLink(Outgoing(net, src, e, from), src, p);
            after.Keys == o.Keys && if p in o then after[p] == o[p] + sent else sent == []
  {
    OutgoingOnLink(net, src, e, from, p);
    if p in o {
      OutboxAfter(o, BlockMsgs(e.gossip), from, e.reply, p);
    }
  }

  lemma OutboxAfter(o: P2pServer.Outbox, gossip: seq<Message>, from: nat, reply: seq<Message>, p: nat)
    requires p in o
    ensures P2pServer.ToOne(P2pServer.ToAll(o, gossip), from, reply)[p]
         == o[p] + (gossip + if p == from then reply else [])
  {
    if p == from {
      assert o[p] + gossip + reply == o[p] + (gossip + reply);
    } else {
      assert gossip + [] == gossip;
    }
  }

  lemma OutgoingOnLink(net: Net, src: nat, e: Effect, from: nat, p: nat)
    requires p < |net.nodes| && |e.gossip| <= 1
    ensures OnLink(Outgoing(net, src, e, from), src, p)
         == (if p in e.node.heights then BlockMsgs(e.gossip) else []) + if p == from then e.reply else []
  {
    var peers := e.node.heights.Keys;
    var cast := if e.gossip == [] then [] else Multicast(src, peers, |net.nodes|, BlockMsg(e.gossip[0]));
    OnLinkConcat(cast, Replies(src, from, e.reply), src, p);
    RepliesOnLink(src, from, e.reply, src, p);
    if e.gossip != [] {
      MulticastOnLink(src, peers, |net.nodes|, BlockMsg(e.gossip[0]), src, p);
      assert BlockMsgs(e.gossip) == [BlockMsg(e.gossip[0])];
    }
  }

  // ----- The steps of the network -----

  /** Any message may be lost or doubled, and no node notices. */
  lemma LossAndDoubling(net: Net, i: nat)
    requires i < |net.flight|
    ensures Enabled(net, Drop(i)) && Apply(net, Drop(i)).nodes == net.nodes
    ensures multiset(Apply(net, Drop(i)).flight) == multiset(net.flight) - multiset{net.flight[i]}
    ensures Enabled(net, Duplicate(i)) && Apply(net, Duplicate(i)).nodes == net.nodes
    ensures multiset(Apply(net, Duplicate(i)).flight) == multiset(net.flight) + multiset{net.flight[i]}
  {
    WithoutOne(net.flight, i);
  }

  lemma WithoutOne(flight: seq<Packet>, i: nat)
    requires i < |flight|
    ensures multiset(Without(flight, i)) == multiset(flight) - multiset{flight[i]}
  {
    assert flight == flight[..i] + [flight[i]] + flight[i + 1..];
  }

  /** Any message may be delivered next, whenever the clock of the receiver stands: the receiver handles it,
      nobody else does anything, and what the receiver sends is under way. */
  lemma AnyMessageMayArrive(net: Net, i: nat, now: int, mark: int)
    requires i < |net.flight| && net.flight[i].dst < |net.nodes| && net.nodes[net.flight[i].dst].chain != []
    requires net.nodes[net.flight[i].dst].clock <= now <= mark
    ensures var s, p := Deliver(i, now, mark), net.flight[i];
            var e := Receive(net.nodes[p.dst], p.src, p.message, now, mark);
            && Enabled(net, s) && |Apply(net, s).nodes| == |net.nodes| && Apply(net, s).nodes[p.dst] == e.node
            && (forall n :: 0 <= n < |net.nodes| && n != p.dst ==> Apply(net, s).nodes[n] == net.nodes[n])
            && multiset(Apply(net, s).flight)
               == multiset(net.flight) - multiset{p} + multiset(Outgoing(net, p.dst, e, p.src))
  {
    WithoutOne(net.flight, i);
  }

  /** A block made at a node is appended there and put under way to each of its peers. */
  lemma MinedBlockIsSent(net: Net, n: nat, bpm: int, t: Timestamp, now: int, mark: int, p: nat)
    requires n < |net.nodes| && net.nodes[n].chain != [] && net.nodes[n].clock <= Instant(t) <= now <= mark
    requires bpm >= 0 && NextBlock(net.nodes[n].chain, bpm, t).hash !in net.nodes[n].processed
    requires p < |net.nodes|
    ensures Enabled(net, Mine(n, bpm, t, now, mark))
    ensures var after, c := Apply(net, Mine(n, bpm, t, now, mark)), net.nodes[n].chain;
            var b := Last(after.nodes[n].chain);
            && after.nodes[n].chain == c + [b] && b.bpm == bpm && b.timestamp == t && b.prevHash == Last(c).hash
            && (forall x :: 0 <= x < |net.nodes| && x != n ==> after.nodes[x] == net.nodes[x])
            && OnLink(after.flight, n, p)
               == OnLink(net.flight, n, p) + if p in net.nodes[n].heights then [BlockMsg(b)] else []
  {
    var node, b := net.nodes[n], NextBlock(net.nodes[n].chain, bpm, t);
    var e := AddLocal(node, bpm, t, now, mark);
    AddedIsBroadcast(node, bpm, t, now, mark);
    NextBlockFields(node.chain, bpm, t);
    assert Apply(net, Mine(n, bpm, t, now, mark)) == Act(net, n, e, n);
    ActOnLink(net, n, e, b, p);
  }

  lemma ActOnLink(net: Net, n: nat, e: Effect, b: Block, p: nat)
    requires n < |net.nodes| && p < |net.nodes| && e.gossip == [b] && e.reply == []
    ensures OnLink(Act(net, n, e, n).flight, n, p)
         == OnLink(net.flight, n, p) + if p in e.node.heights then [BlockMsg(b)] else []
  {
    OutgoingOnLink(net, n, e, n, p);
    OnLinkConcat(net.flight, Outgoing(net, n, e, n), n, p);
    assert BlockMsgs([b]) == [BlockMsg(b)];
  }

  /** What a node says of its own accord: its version, a question after its tip, a question from the front and
      a search, to one node or to all its peers. No node changes. */
  predicate IsSaid(net: Net, s: Step, n: nat, p: nat, said: seq<Message>)
    requires n < |net.nodes| && net.nodes[n].chain != []
  {
    Enabled(net, s) && Apply(net, s).nodes == net.nodes
    && OnLink(Apply(net, s).flight, n, p) == OnLink(net.flight, n, p) + said
  }

  lemma SaidToOne(net: Net, n: nat, p: nat)
    requires n < |net.nodes| && net.nodes[n].chain != [] && p < |net.nodes|
    ensures var c := net.nodes[n].chain;
            && IsSaid(net, Greet(n, p), n, p, [Version(|c|)])
            && IsSaid(net, AskAfterTip(n, p), n, p, [GetBlocks(c[|c| - 1].hash)])
  {
    var c := net.nodes[n].chain;
    OnePacket(net.flight, n, p, Version(|c|));
    OnePacket(net.flight, n, p, GetBlocks(Last(c).hash));
  }

  lemma SaidToAll(net: Net, n: nat, p: nat, hash: string)
    requires n < |net.nodes| && net.nodes[n].chain != [] && p < |net.nodes|
    ensures IsSaid(net, AskAll(n), n, p, if p in net.nodes[n].heights then [GetBlocks("")] else [])
    ensures IsSaid(net, Seek(n, hash), n, p, if p in net.nodes[n].heights then [FindBlock(hash)] else [])
  {
    ManyPackets(net, n, p, GetBlocks(""));
    ManyPackets(net, n, p, FindBlock(hash));
  }

  lemma OnePacket(flight: seq<Packet>, n: nat, p: nat, m: Message)
    ensures OnLink(flight + [Packet(n, p, m)], n, p) == OnLink(flight, n, p) + [m]
  {
    assert (flight + [Packet(n, p, m)])[..|flight|] == flight;
  }

  lemma ManyPackets(net: Net, n: nat, p: nat, m: Message)
    requires n < |net.nodes| && p < |net.nodes|
    ensures OnLink(SayToAll(net, n, m).flight, n, p)
         == OnLink(net.flight, n, p) + if p in net.nodes[n].heights then [m] else []
  {
    var peers := net.nodes[n].heights.Keys;
    OnLinkConcat(net.flight, Multicast(n, peers, |net.nodes|, m), n, p);
    MulticastOnLink(n, peers, |net.nodes|, m, n, p);
  }

  /** A clean-up forgets old marks at one node and does nothing else. */
  lemma OneNodeTidies(net: Net, n: nat, now: int)
    requires n < |net.nodes| && net.nodes[n].chain != [] && net.nodes[n].clock <= now
    ensures Enabled(net, Tidy(n, now))
    ensures Apply(net, Tidy(n, now)) == Net(net.nodes[n := CleanUp(net.nodes[n], now)], net.flight)
  {
  }
}
