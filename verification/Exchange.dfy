/** A node exchanging blocks with some peers in a network: what every step of a lossless first-in first-out
    network keeps, whatever order it delivers messages in (internal/p2p/server.go). */
module Exchanges {
  import opened Timestamps
  import opened Blocks
  import opened Chains
  import opened Protocol
  import opened Network
  import opened Links

  // ----- The exchange in a network -----

  /** Under way between `b` and one of the peers it exchanges blocks with. */
  predicate Asked(p: Packet, b: nat, peers: set<nat>) {
    (p.dst == b && p.src in peers) || (p.src == b && p.dst in peers)
  }

  predicate Harmless(p: Packet, size: nat, b: nat, peers: set<nat>, have: Chain) {
    p.src < size && p.dst < size && (Idle(p.message, have) || Asked(p, b, peers))
  }

  predicate Traffic(flight: seq<Packet>, size: nat, b: nat, peers: set<nat>, have: Chain) {
    forall i :: 0 <= i < |flight| ==> Harmless(flight[i], size, b, peers, have)
  }

  /** Node `b` has some first blocks of `c`, has marked none of the others, and its clock admits them all. */
  predicate Prepared(n: Node, c: Chain) {
    0 < |n.chain| && n.chain <= c && NoneMarked(c, |n.chain|, n.processed) && Timely(c, n.clock)
  }

  /** Node `a` has the chain `c`, of which node `b` and the peers it exchanges blocks with have some first
      blocks; the other nodes may have any valid chains. */
  predicate Parties(net: Net, a: nat, b: nat, c: Chain, peers: set<nat>) {
    && AllValid(net) && Linked(c) && DistinctHashes(c)
    && a in peers && b !in peers && b < |net.nodes| && Prepared(net.nodes[b], c)
    && (forall d :: d in peers ==> d < |net.nodes| && net.nodes[d].chain <= c)
    && net.nodes[a].chain == c
  }

  /** How far the exchange with `d` has come: what it still brings takes `b` to at least `low` and at most
      `hi` blocks. */
  predicate Served(net: Net, d: nat, b: nat, c: Chain, low: nat, hi: nat) {
    && b < |net.nodes| && d < |net.nodes| && |net.nodes[b].chain| <= |c|
    && var have := net.nodes[b].chain;
       Stage(Busy(net.flight, b, d, have), Busy(net.flight, d, b, have), net.nodes[d].chain, c, |have|, low, hi)
  }

  predicate AllServed(net: Net, a: nat, b: nat, c: Chain, peers: set<nat>, hi: nat) {
    forall d :: d in peers ==> Served(net, d, b, c, if d == a then hi else 0, hi)
  }

  /** An exchange of `b` with some peers that takes it to exactly `hi` blocks, at any point. */
  predicate Exchange(net: Net, a: nat, b: nat, c: Chain, peers: set<nat>, hi: nat) {
    && Parties(net, a, b, c, peers)
    && |net.nodes[b].chain| <= hi <= |c|
    && Traffic(net.flight, |net.nodes|, b, peers, net.nodes[b].chain)
    && AllServed(net, a, b, c, peers, hi)
  }

  // ----- Idle messages change nothing that matters -----

  lemma AppendedIsNew(c: Chain, x: Block, now: int, later: int)
    requires ValidChain(c, now) && ValidChain(c + [x], later)
    ensures x !in c
  {
    IndexIsPosition(c, now, |c|);
    IndexIsPosition(c + [x], later, |c| + 1);
    assert (c + [x])[|c|].index == |c|;
  }

  /** What a node does with an idle message: it may pass on a block under way and mark its hash. */
  lemma IdleReceived(n: Node, from: nat, m: Message, now: int, mark: int, have: Chain)
    requires n.chain != [] && n.clock <= now <= mark && Idle(m, have)
    ensures var e := Receive(n, from, m, now, mark);
            (forall x :: x in e.gossip ==> x in have) && (forall r :: r in e.reply ==> Idle(r, have))
  {
    ReceiveAppends(n, from, m, now, mark);
    ReceiveReplies(n, from, m, now, mark);
  }

  lemma IdleMarks(n: Node, from: nat, m: Message, now: int, mark: int, have: Chain, h: string)
    requires n.chain != [] && Idle(m, have) && forall x :: x in have ==> x.hash != h
    ensures h in Receive(n, from, m, now, mark).node.processed ==> h in n.processed
  {
    if Carried(m).Some? {
      assert Carried(m).value in have;
    }
  }

  /** The delivery of an idle message, with the node that gets it and what that does. */
  predicate IdleDelivery(net: Net, s: Step, b: nat) {
    Enabled(net, s) && s.Deliver? && b < |net.nodes| && Idle(net.flight[s.i].message, net.nodes[b].chain)
  }

  /** A node with a chain at least as long as the blocks under way keeps it; one that is behind may get one
      of those blocks. */
  lemma IdleChains(net: Net, s: Step, b: nat, c: Chain, d: nat)
    requires IdleDelivery(net, s, b) && AllValid(net) && d < |net.nodes|
    requires net.nodes[b].chain <= c && net.nodes[d].chain <= c
    ensures var have, own, own' := net.nodes[b].chain, net.nodes[d].chain, Apply(net, s).nodes[d].chain;
            own' == own || (own <= have && own' <= have)
  {
    StepIsEvent(net, s);
    StepKeepsAllValid(net, s);
    var have, own, own' := net.nodes[b].chain, net.nodes[d].chain, Apply(net, s).nodes[d].chain;
    if own' != own {
      var e := EventOf(net, s);
      EventAppends(net.nodes[d], e);
      var x := Brought(net.nodes[d], e).value;
      assert own' == own + [x] && x in have;
      if own <= have {
        NextBlockOfPrefix(own, x, have, net.nodes[b].clock, Apply(net, s).nodes[d].clock);
      } else {
        assert have <= own;
        AppendedIsNew(own, x, net.nodes[d].clock, Apply(net, s).nodes[d].clock);
      }
    }
  }

  lemma IdleParties(net: Net, s: Step, a: nat, b: nat, c: Chain, peers: set<nat>)
    requires IdleDelivery(net, s, b) && Parties(net, a, b, c, peers)
    ensures Parties(Apply(net, s), a, b, c, peers) && Apply(net, s).nodes[b].chain == net.nodes[b].chain
  {
    StepIsEvent(net, s);
    StepKeepsAllValid(net, s);
    forall d | d in peers
      ensures Apply(net, s).nodes[d].chain <= c
    {
      IdleChains(net, s, b, c, d);
    }
    IdleChains(net, s, b, c, a);
    IdleChains(net, s, b, c, b);
    IdlePrepares(net, s, b, c);
  }

  lemma IdlePrepares(net: Net, s: Step, b: nat, c: Chain)
    requires IdleDelivery(net, s, b) && DistinctHashes(c) && Prepared(net.nodes[b], c)
    requires Apply(net, s).nodes[b].chain == net.nodes[b].chain
    ensures Prepared(Apply(net, s).nodes[b], c)
  {
    StepIsEvent(net, s);
    var p, n := net.flight[s.i], net.nodes[b];
    if p.dst == b {
      var have := n.chain;
      EventAppends(n, EventOf(net, s));
      forall k | |have| <= k < |c|
        ensures c[k].hash !in Apply(net, s).nodes[b].processed
      {
        forall x | x in have
          ensures x.hash != c[k].hash
        {
          var j :| 0 <= j < |have| && have[j] == x;
          assert c[j] == x;
        }
        IdleMarks(n, p.src, p.message, s.now, s.mark, have, c[k].hash);
      }
    }
  }

  /** What is sent then is idle again. */
  lemma IdleSends(net: Net, s: Step, b: nat, i: nat)
    requires IdleDelivery(net, s, b) && net.flight[s.i].src < |net.nodes|
    requires |Without(net.flight, s.i)| <= i < |Apply(net, s).flight|
    ensures var q := Apply(net, s).flight[i];
            q.src < |net.nodes| && q.dst < |net.nodes| && Idle(q.message, net.nodes[b].chain)
  {
    var p, have := net.flight[s.i], net.nodes[b].chain;
    var rest := net.(flight := Without(net.flight, s.i));
    var e := Receive(net.nodes[p.dst], p.src, p.message, s.now, s.mark);
    IdleReceived(net.nodes[p.dst], p.src, p.message, s.now, s.mark, have);
    if e.gossip != [] {
      MulticastForm(p.dst, e.node.heights.Keys, |net.nodes|, BlockMsg(e.gossip[0]));
    }
    var q := Outgoing(rest, p.dst, e, p.src)[i - |rest.flight|];
    assert Apply(net, s).flight == rest.flight + Outgoing(rest, p.dst, e, p.src);
  }

  lemma IdleTraffic(net: Net, s: Step, b: nat, peers: set<nat>, x: nat, y: nat)
    requires IdleDelivery(net, s, b) && Traffic(net.flight, |net.nodes|, b, peers, net.nodes[b].chain)
    ensures var have := net.nodes[b].chain;
            && Traffic(Apply(net, s).flight, |net.nodes|, b, peers, have)
            && Busy(Apply(net, s).flight, x, y, have) == Busy(net.flight, x, y, have)
  {
    var have, rest, after := net.nodes[b].chain, Without(net.flight, s.i), Apply(net, s).flight;
    assert Harmless(net.flight[s.i], |net.nodes|, b, peers, have);
    assert rest == after[..|rest|];
    forall i | 0 <= i < |after|
      ensures Harmless(after[i], |net.nodes|, b, peers, have)
      ensures i >= |rest| ==> Irrelevant(after[i], x, y, have)
    {
      if i < |rest| {
        assert Harmless(net.flight[if i < s.i then i else i + 1], |net.nodes|, b, peers, have);
      } else {
        IdleSends(net, s, b, i);
      }
    }
    IdleRemoved(net.flight, s.i, x, y, have);
    var sent := after[|rest|..];
    NothingBusy(sent, x, y, have);
    BusyConcat(rest, sent, x, y, have);
    assert rest + sent == after;
  }

  lemma IdleKeepsExchange(net: Net, s: Step, a: nat, b: nat, c: Chain, peers: set<nat>, hi: nat)
    requires IdleDelivery(net, s, b) && Exchange(net, a, b, c, peers, hi)
    ensures Exchange(Apply(net, s), a, b, c, peers, hi)
  {
    var after := Apply(net, s);
    IdleParties(net, s, a, b, c, peers);
    StepKeepsAllValid(net, s);
    IdleTraffic(net, s, b, peers, b, b);
    forall d | d in peers
      ensures Served(after, d, b, c, if d == a then hi else 0, hi)
    {
      IdleServed(net, s, a, b, c, peers, hi, d);
    }
  }

  lemma IdleServed(net: Net, s: Step, a: nat, b: nat, c: Chain, peers: set<nat>, hi: nat, d: nat)
    requires IdleDelivery(net, s, b) && Exchange(net, a, b, c, peers, hi) && d in peers
    ensures Served(Apply(net, s), d, b, c, if d == a then hi else 0, hi)
  {
    var after, have, low := Apply(net, s), net.nodes[b].chain, if d == a then hi else 0;
    IdleParties(net, s, a, b, c, peers);
    StepKeepsAllValid(net, s);
    IdleTraffic(net, s, b, peers, b, d);
    IdleTraffic(net, s, b, peers, d, b);
    IdleChains(net, s, b, c, d);
    assert Served(net, d, b, c, low, hi);
    assert have == c[..|have|];
    if after.nodes[d].chain != net.nodes[d].chain {
      StageOwnGrows(Busy(net.flight, b, d, have), Busy(net.flight, d, b, have), net.nodes[d].chain,
                    after.nodes[d].chain, c, |have|, low, hi);
    }
  }

  // ----- Questions and announcements -----

  /** A message is delivered that changes no node and is answered with `ms`. */
  lemma Answered(flight: seq<Packet>, i: nat, ms: seq<Message>, have: Chain, x: nat, y: nat)
    requires IsFirst(flight, i) && !Idle(flight[i].message, have) && flight[i].src != flight[i].dst
    ensures var p := flight[i];
            var after := Without(flight, i) + Replies(p.dst, p.src, ms);
            && Busy(flight, p.src, p.dst, have) == [p.message] + Busy(Without(flight, i), p.src, p.dst, have)
            && Busy(after, x, y, have)
               == if x == p.src && y == p.dst then Busy(Without(flight, i), x, y, have)
                  else if x == p.dst && y == p.src then Busy(flight, x, y, have) + Keep(ms, have)
                  else Busy(flight, x, y, have)
  {
    var p := flight[i];
    FirstRemoved(flight, i, have);
    BusyConcat(Without(flight, i), Replies(p.dst, p.src, ms), x, y, have);
    RepliesOnLink(p.dst, p.src, ms, x, y);
    if x != p.src || y != p.dst {
      IdleRemoved(flight, i, x, y, have);
    }
  }

  /** A step that changes no node and puts `ms` in flight as the answer to the message delivered. */
  predicate IsAnswered(net: Net, s: Step, ms: seq<Message>) {
    && Enabled(net, s) && s.Deliver? && IsFirst(net.flight, s.i)
    && var p := net.flight[s.i];
       && p.src != p.dst
       && Apply(net, s) == Net(net.nodes, Without(net.flight, s.i) + Replies(p.dst, p.src, ms))
  }

  lemma QuestionAnswered(net: Net, s: Step, ms: seq<Message>)
    requires Enabled(net, s) && s.Deliver? && IsFirst(net.flight, s.i)
    requires var p := net.flight[s.i];
             && p.src != p.dst && (p.message.GetBlocks? || p.message.Inv? || p.message.GetData?)
             && ms == if p.message.Inv? then GetDataReply(p.message.vecs, net.nodes[p.dst].processed)
                      else UpReply(p.message, net.nodes[p.dst].chain)
    ensures IsAnswered(net, s, ms)
  {
    var p := net.flight[s.i];
    var n := net.nodes[p.dst];
    assert Receive(n, p.src, p.message, s.now, s.mark) == Effect(n, [], ms);
    assert net.nodes[p.dst := n] == net.nodes;
    assert [] + Replies(p.dst, p.src, ms) == Replies(p.dst, p.src, ms);
  }

  /** The exchange `d` is engaged in moves on by a question or an announcement being answered. */
  lemma AnswerKeepsExchange(net: Net, s: Step, ms: seq<Message>, a: nat, b: nat, c: Chain, peers: set<nat>, hi: nat,
                            d: nat)
    requires IsAnswered(net, s, ms) && Exchange(net, a, b, c, peers, hi) && d in peers
    requires var p := net.flight[s.i]; (p.src == b && p.dst == d) || (p.src == d && p.dst == b)
    requires !Idle(net.flight[s.i].message, net.nodes[b].chain)
    requires Served(Apply(net, s), d, b, c, if d == a then hi else 0, hi)
    ensures Exchange(Apply(net, s), a, b, c, peers, hi)
  {
    var p, have, after := net.flight[s.i], net.nodes[b].chain, Apply(net, s);
    forall x | x in peers
      ensures Served(after, x, b, c, if x == a then hi else 0, hi)
    {
      assert Served(net, x, b, c, if x == a then hi else 0, hi);
      Answered(net.flight, s.i, ms, have, b, x);
      Answered(net.flight, s.i, ms, have, x, b);
    }
    TrafficAfterAnswer(net.flight, s.i, ms, |net.nodes|, b, peers, have);
  }

  lemma TrafficAfterAnswer(flight: seq<Packet>, i: nat, ms: seq<Message>, size: nat, b: nat, peers: set<nat>,
                           have: Chain)
    requires i < |flight| && Asked(flight[i], b, peers) && Traffic(flight, size, b, peers, have)
    ensures Traffic(Without(flight, i) + Replies(flight[i].dst, flight[i].src, ms), size, b, peers, have)
  {
    var p, rest := flight[i], Without(flight, i);
    var after := rest + Replies(p.dst, p.src, ms);
    assert Harmless(p, size, b, peers, have);
    forall j | 0 <= j < |after|
      ensures Harmless(after[j], size, b, peers, have)
    {
      if j < |rest| {
        assert Harmless(flight[if j < i then j else j + 1], size, b, peers, have);
      }
    }
  }

  lemma UpStage(flight: seq<Packet>, i: nat, ms: seq<Message>, b: nat, d: nat, own: Chain, c: Chain, n: nat,
                low: nat, hi: nat)
    requires IsFirst(flight, i) && n <= |c| && !Idle(flight[i].message, c[..n]) && own <= c && DistinctHashes(c)
    requires flight[i].src == b && flight[i].dst == d && b != d
    requires Stage(Busy(flight, b, d, c[..n]), Busy(flight, d, b, c[..n]), own, c, n, low, hi)
    ensures var m, after := flight[i].message, Without(flight, i) + Replies(d, b, ms);
            && (m.GetBlocks? || m.GetData?)
            && (ms == UpReply(m, own) ==>
                  Stage(Busy(after, b, d, c[..n]), Busy(after, d, b, c[..n]), own, c, n, low, hi))
  {
    var m, down := flight[i].message, Busy(flight, d, b, c[..n]);
    Answered(flight, i, ms, c[..n], b, d);
    Answered(flight, i, ms, c[..n], d, b);
    FirstUp(m, Busy(Without(flight, i), b, d, c[..n]), down, own, c, n, low, hi);
    assert Busy(flight, b, d, c[..n]) == [m];
    assert [] + Keep(ms, c[..n]) == Keep(ms, c[..n]);
    StageReplied(m, own, c, n, low, hi);
  }

  function UpReply(m: Message, own: Chain): seq<Message> {
    match m
    case GetBlocks(h) => InvReply(own, h)
    case GetData(vecs) => Answers(own, vecs)
    case _ => []
  }

  lemma StageReplied(m: Message, own: Chain, c: Chain, n: nat, low: nat, hi: nat)
    requires n <= |c| && own <= c && DistinctHashes(c) && Stage([m], [], own, c, n, low, hi)
    requires m.GetBlocks? || m.GetData?
    ensures Stage([], Keep(UpReply(m, own), c[..n]), own, c, n, low, hi)
  {
    if m.GetBlocks? {
      StageAnnounced(m.startHash, own, c, n, low, hi);
    } else {
      assert [m][0] == m;
    }
  }

  lemma UpDelivered(net: Net, s: Step, a: nat, b: nat, c: Chain, peers: set<nat>, hi: nat)
    requires Enabled(net, s) && s.Deliver? && IsFirst(net.flight, s.i) && Exchange(net, a, b, c, peers, hi)
    requires net.flight[s.i].src == b && net.flight[s.i].dst in peers
    requires !Idle(net.flight[s.i].message, net.nodes[b].chain)
    ensures Exchange(Apply(net, s), a, b, c, peers, hi)
  {
    var p := net.flight[s.i];
    var ms := UpReply(p.message, net.nodes[p.dst].chain);
    UpServed(net, s.i, b, p.dst, c, if p.dst == a then hi else 0, hi);
    QuestionAnswered(net, s, ms);
    AnswerKeepsExchange(net, s, ms, a, b, c, peers, hi, p.dst);
  }

  lemma UpServed(net: Net, i: nat, b: nat, d: nat, c: Chain, low: nat, hi: nat)
    requires IsFirst(net.flight, i) && Served(net, d, b, c, low, hi) && b != d && DistinctHashes(c)
    requires net.nodes[b].chain <= c && net.nodes[d].chain <= c
    requires net.flight[i].src == b && net.flight[i].dst == d && !Idle(net.flight[i].message, net.nodes[b].chain)
    ensures net.flight[i].message.GetBlocks? || net.flight[i].message.GetData?
    ensures var ms := UpReply(net.flight[i].message, net.nodes[d].chain);
            Served(Net(net.nodes, Without(net.flight, i) + Replies(d, b, ms)), d, b, c, low, hi)
  {
    var n, own := |net.nodes[b].chain|, net.nodes[d].chain;
    assert net.nodes[b].chain == c[..n];
    UpStage(net.flight, i, UpReply(net.flight[i].message, own), b, d, own, c, n, low, hi);
  }

  lemma InvStage(flight: seq<Packet>, i: nat, processed: map<string, int>, b: nat, d: nat, own: Chain, c: Chain,
                 n: nat, low: nat, hi: nat)
    requires IsFirst(flight, i) && n <= |c| && own <= c && NoneMarked(c, n, processed)
    requires flight[i].src == d && flight[i].dst == b && b != d && flight[i].message.Inv?
    requires Stage(Busy(flight, b, d, c[..n]), Busy(flight, d, b, c[..n]), own, c, n, low, hi)
    ensures var after := Without(flight, i) + Replies(b, d, GetDataReply(flight[i].message.vecs, processed));
            Stage(Busy(after, b, d, c[..n]), Busy(after, d, b, c[..n]), own, c, n, low, hi)
  {
    var m, up := flight[i].message, Busy(flight, b, d, c[..n]);
    var ms := GetDataReply(m.vecs, processed);
    Answered(flight, i, ms, c[..n], b, d);
    Answered(flight, i, ms, c[..n], d, b);
    FirstDown(up, m, Busy(Without(flight, i), d, b, c[..n]), own, c, n, low, hi);
    assert Busy(flight, d, b, c[..n]) == [m];
    assert [] + Keep(ms, c[..n]) == Keep(ms, c[..n]);
    StageAsked(m.vecs, own, c, n, low, hi, processed);
  }

  lemma InvDelivered(net: Net, s: Step, a: nat, b: nat, c: Chain, peers: set<nat>, hi: nat)
    requires Enabled(net, s) && s.Deliver? && IsFirst(net.flight, s.i) && Exchange(net, a, b, c, peers, hi)
    requires net.flight[s.i].dst == b && net.flight[s.i].src in peers && net.flight[s.i].message.Inv?
    ensures Exchange(Apply(net, s), a, b, c, peers, hi)
  {
    var p, n := net.flight[s.i], |net.nodes[b].chain|;
    var d := p.src;
    var low := if d == a then hi else 0;
    assert Served(net, d, b, c, low, hi) && net.nodes[b].chain == c[..n];
    InvStage(net.flight, s.i, net.nodes[b].processed, b, d, net.nodes[d].chain, c, n, low, hi);
    QuestionAnswered(net, s, GetDataReply(p.message.vecs, net.nodes[b].processed));
    AnswerKeepsExchange(net, s, GetDataReply(p.message.vecs, net.nodes[b].processed), a, b, c, peers, hi, d);
  }

  // ----- The next block -----

  /** A node handed the next block, which it has not marked, appends it and broadcasts nothing else. */
  lemma NextBlockTaken(n: Node, c: Chain, now: int, mark: int)
    requires Prepared(n, c) && Linked(c) && DistinctHashes(c) && |n.chain| < |c| && n.clock <= now <= mark
    ensures var k := |n.chain|;
            var e := OnBlock(n, c[k], now, mark);
            && e.node.chain == c[..k + 1] && e.reply == [] && e.gossip == [c[k]] && Prepared(e.node, c)
  {
    var k := |n.chain|;
    NextBlockAccepted(n.chain, c, now);
    UnmarkedBlock(n, c[k], now, mark);
    StillPrepared(n, OnBlock(n, c[k], now, mark).node, c);
  }

  lemma UnmarkedBlock(n: Node, b: Block, now: int, mark: int)
    requires n.chain != [] && Accepts(n.chain, b, now) && b.hash !in n.processed
    ensures var e := OnBlock(n, b, now, mark);
            && e.node.chain == n.chain + [b] && e.reply == [] && e.gossip == [b]
            && e.node.processed.Keys == n.processed.Keys + {b.hash} && e.node.clock == mark
  {
  }

  lemma StillPrepared(n: Node, m: Node, c: Chain)
    requires Prepared(n, c) && DistinctHashes(c) && |n.chain| < |c|
    requires m.chain == c[..|n.chain| + 1] && n.clock <= m.clock
    requires m.processed.Keys == n.processed.Keys + {c[|n.chain|].hash}
    ensures Prepared(m, c)
  {
  }

  lemma NextBlockAccepted(own: Chain, c: Chain, now: int)
    requires own != [] && own <= c && Linked(c) && |own| < |c|
    requires Instant(c[|own|].timestamp) <= now + MAX_TIME_DRIFT
    ensures Accepts(own, c[|own|], now) && own + [c[|own|]] == c[..|own| + 1]
  {
    assert Last(own) == c[|own| - 1];
  }

  lemma BlockStage(flight: seq<Packet>, i: nat, sent: seq<Packet>, b: nat, d: nat, own: Chain, c: Chain, n: nat,
                   low: nat, hi: nat)
    requires i < |flight| && DistinctHashes(c) && n < hi <= |c| && flight[i].message == BlockMsg(c[n])
    requires forall j :: 0 <= j < |sent| ==> Idle(sent[j].message, c[..n + 1])
    requires Stage(Busy(flight, b, d, c[..n]), Busy(flight, d, b, c[..n]), own, c, n, low, hi)
    ensures var after := Without(flight, i) + sent;
            Stage(Busy(after, b, d, c[..n + 1]), Busy(after, d, b, c[..n + 1]), own, c, n + 1, low, hi)
  {
    StageNext(Busy(flight, b, d, c[..n]), Busy(flight, d, b, c[..n]), own, c, n, low, hi);
    BlockTakenOff(flight, i, sent, b, d, c, n);
    BlockTakenOff(flight, i, sent, d, b, c, n);
  }

  lemma BlockTakenOff(flight: seq<Packet>, i: nat, sent: seq<Packet>, x: nat, y: nat, c: Chain, n: nat)
    requires i < |flight| && n < |c| && flight[i].message == BlockMsg(c[n])
    requires forall j :: 0 <= j < |sent| ==> Idle(sent[j].message, c[..n + 1])
    ensures Busy(Without(flight, i) + sent, x, y, c[..n + 1]) == Keep(Busy(flight, x, y, c[..n]), c[..n + 1])
  {
    assert c[..n] + [c[n]] == c[..n + 1];
    BusyAfterAccept(flight, i, c[..n], c[n], x, y);
    NothingBusy(sent, x, y, c[..n + 1]);
    BusyConcat(Without(flight, i), sent, x, y, c[..n + 1]);
  }

  lemma TrafficAfterAccept(flight: seq<Packet>, i: nat, sent: seq<Packet>, size: nat, b: nat, peers: set<nat>,
                           c: Chain, n: nat)
    requires i < |flight| && n < |c| && Traffic(flight, size, b, peers, c[..n])
    requires forall j :: 0 <= j < |sent| ==> Harmless(sent[j], size, b, peers, c[..n + 1])
    ensures Traffic(Without(flight, i) + sent, size, b, peers, c[..n + 1])
  {
    var rest := Without(flight, i);
    assert c[..n] + [c[n]] == c[..n + 1];
    forall j | 0 <= j < |rest + sent|
      ensures Harmless((rest + sent)[j], size, b, peers, c[..n + 1])
    {
      if j < |rest| {
        var p := flight[if j < i then j else j + 1];
        assert Harmless(p, size, b, peers, c[..n]);
        assert Idle(p.message, c[..n]) ==> Idle(p.message, c[..n] + [c[n]]);
      } else {
        assert Harmless(sent[j - |rest|], size, b, peers, c[..n + 1]);
      }
    }
  }

  /** The delivery of the next block, with what `b` then sends: only that block. */
  lemma BlockDelivery(net: Net, s: Step, b: nat, c: Chain) returns (sent: seq<Packet>)
    requires Enabled(net, s) && s.Deliver? && b < |net.nodes| && net.flight[s.i].dst == b
    requires Prepared(net.nodes[b], c) && Linked(c) && DistinctHashes(c) && |net.nodes[b].chain| < |c|
    requires net.flight[s.i].message == BlockMsg(c[|net.nodes[b].chain|])
    ensures var n := |net.nodes[b].chain|;
            && Apply(net, s).flight == Without(net.flight, s.i) + sent
            && (forall j :: 0 <= j < |sent| ==>
                  sent[j].src == b && sent[j].dst < |net.nodes| && Idle(sent[j].message, c[..n + 1]))
            && |Apply(net, s).nodes| == |net.nodes| && Prepared(Apply(net, s).nodes[b], c)
            && Apply(net, s).nodes[b].chain == c[..n + 1]
            && (forall d :: 0 <= d < |net.nodes| && d != b ==> Apply(net, s).nodes[d] == net.nodes[d])
  {
    var p, n := net.flight[s.i], |net.nodes[b].chain|;
    var e := OnBlock(net.nodes[b], c[n], s.now, s.mark);
    NextBlockTaken(net.nodes[b], c, s.now, s.mark);
    sent := Outgoing(net.(flight := Without(net.flight, s.i)), b, e, p.src);
    BlockPassedOn(net.(flight := Without(net.flight, s.i)), b, e, p.src, c, n);
  }

  lemma BlockPassedOn(net: Net, b: nat, e: Effect, dst: nat, c: Chain, n: nat)
    requires n < |c| && e.gossip == [c[n]] && e.reply == []
    ensures var sent := Outgoing(net, b, e, dst);
            forall j :: 0 <= j < |sent| ==>
              sent[j].src == b && sent[j].dst < |net.nodes| && Idle(sent[j].message, c[..n + 1])
  {
    MulticastForm(b, e.node.heights.Keys, |net.nodes|, BlockMsg(c[n]));
    assert c[..n + 1][n] == c[n];
  }

  lemma BlockDelivered(net: Net, s: Step, a: nat, b: nat, c: Chain, peers: set<nat>, hi: nat)
    requires Enabled(net, s) && s.Deliver? && Exchange(net, a, b, c, peers, hi)
    requires net.flight[s.i].dst == b && |net.nodes[b].chain| < hi
    requires net.flight[s.i].message == BlockMsg(c[|net.nodes[b].chain|])
    ensures Exchange(Apply(net, s), a, b, c, peers, hi)
  {
    assert net.nodes[b].chain == c[..|net.nodes[b].chain|];
    StepKeepsAllValid(net, s);
    var sent := BlockDelivery(net, s, b, c);
    BlockTaken(net, Apply(net, s), s.i, sent, a, b, c, peers, hi);
  }

  lemma BlockTaken(net: Net, after: Net, i: nat, sent: seq<Packet>, a: nat, b: nat, c: Chain, peers: set<nat>, hi: nat)
    requires Exchange(net, a, b, c, peers, hi) && AllValid(after)
    requires var n := |net.nodes[b].chain|;
             && n < hi && net.nodes[b].chain == c[..n] && after.nodes != [] && |after.nodes| == |net.nodes|
             && after.nodes[b].chain == c[..n + 1] && Prepared(after.nodes[b], c)
             && i < |net.flight| && net.flight[i].dst == b && net.flight[i].message == BlockMsg(c[n])
             && after.flight == Without(net.flight, i) + sent
             && (forall j :: 0 <= j < |sent| ==>
                   sent[j].src == b && sent[j].dst < |net.nodes| && Idle(sent[j].message, c[..n + 1]))
    requires forall d :: 0 <= d < |net.nodes| && d != b ==> after.nodes[d] == net.nodes[d]
    ensures Exchange(after, a, b, c, peers, hi)
  {
    var n := |net.nodes[b].chain|;
    TrafficAfterAccept(net.flight, i, sent, |net.nodes|, b, peers, c, n);
    forall d | d in peers
      ensures Served(after, d, b, c, if d == a then hi else 0, hi)
    {
      assert Served(net, d, b, c, if d == a then hi else 0, hi);
      BlockStage(net.flight, i, sent, b, d, net.nodes[d].chain, c, n, if d == a then hi else 0, hi);
    }
  }

  // ----- Whole runs -----

  /** A step of a lossless network: a message overtaken by no other between the same two nodes is
      delivered, or a node cleans up. */
  predicate Lossless(net: Net, s: Step) {
    s.Tidy? || (s.Deliver? && IsFirst(net.flight, s.i))
  }

  lemma DeliveryKeepsExchange(net: Net, s: Step, a: nat, b: nat, c: Chain, peers: set<nat>, hi: nat)
    requires Enabled(net, s) && s.Deliver? && IsFirst(net.flight, s.i) && Exchange(net, a, b, c, peers, hi)
    ensures Exchange(Apply(net, s), a, b, c, peers, hi)
  {
    var p, have := net.flight[s.i], net.nodes[b].chain;
    assert Harmless(p, |net.nodes|, b, peers, have);
    if Idle(p.message, have) {
      IdleKeepsExchange(net, s, a, b, c, peers, hi);
    } else if p.src == b {
      UpDelivered(net, s, a, b, c, peers, hi);
    } else {
      var low := if p.src == a then hi else 0;
      assert Served(net, p.src, b, c, low, hi);
      FirstRemoved(net.flight, s.i, have);
      FirstDown(Busy(net.flight, b, p.src, have), p.message, Busy(Without(net.flight, s.i), p.src, b, have),
                net.nodes[p.src].chain, c, |have|, low, hi);
      if p.message.Inv? {
        InvDelivered(net, s, a, b, c, peers, hi);
      } else {
        BlockDelivered(net, s, a, b, c, peers, hi);
      }
    }
  }

  /** A clean-up makes a node forget marks; nothing else changes but its clock. */
  lemma TidyForm(net: Net, s: Step)
    requires Enabled(net, s) && s.Tidy?
    ensures var after := Apply(net, s);
            && after.flight == net.flight && |after.nodes| == |net.nodes|
            && forall n :: 0 <= n < |net.nodes| ==> IsTidied(net.nodes[n], after.nodes[n])
  {
  }

  predicate IsTidied(n: Node, m: Node) {
    m.chain == n.chain && m.heights == n.heights && m.processed.Keys <= n.processed.Keys && n.clock <= m.clock
  }

  lemma TidyKeepsExchange(net: Net, s: Step, a: nat, b: nat, c: Chain, peers: set<nat>, hi: nat)
    requires Enabled(net, s) && s.Tidy? && Exchange(net, a, b, c, peers, hi)
    ensures Exchange(Apply(net, s), a, b, c, peers, hi)
  {
    TidyForm(net, s);
    StepKeepsAllValid(net, s);
    TidiedExchange(net, Apply(net, s), a, b, c, peers, hi);
  }

  lemma TidiedExchange(net: Net, after: Net, a: nat, b: nat, c: Chain, peers: set<nat>, hi: nat)
    requires Exchange(net, a, b, c, peers, hi) && AllValid(after)
    requires |after.nodes| == |net.nodes| && after.flight == net.flight
    requires forall n :: 0 <= n < |net.nodes| ==> IsTidied(net.nodes[n], after.nodes[n])
    ensures Exchange(after, a, b, c, peers, hi)
  {
    forall d | d in peers
      ensures Served(after, d, b, c, if d == a then hi else 0, hi)
    {
      assert Served(net, d, b, c, if d == a then hi else 0, hi);
    }
  }

  lemma StepKeepsExchange(net: Net, s: Step, a: nat, b: nat, c: Chain, peers: set<nat>, hi: nat)
    requires Enabled(net, s) && Lossless(net, s) && Exchange(net, a, b, c, peers, hi)
    ensures Exchange(Apply(net, s), a, b, c, peers, hi)
  {
    if s.Tidy? {
      TidyKeepsExchange(net, s, a, b, c, peers, hi);
    } else {
      DeliveryKeepsExchange(net, s, a, b, c, peers, hi);
    }
  }

  /** A run of the network. */
  datatype NetRun = NetRun(nets: seq<Net>, steps: seq<Step>)

  /** From its step `from` on, the run is lossless. */
  predicate IsLossless(r: NetRun, from: nat) {
    && IsNetRun(r.nets, r.steps) && from <= |r.steps|
    && forall k :: from <= k < |r.steps| ==> Lossless(r.nets[k], r.steps[k])
  }

  lemma RunStep(r: NetRun, from: nat, k: nat)
    requires IsLossless(r, from) && from <= k < |r.steps|
    ensures Enabled(r.nets[k], r.steps[k]) && Lossless(r.nets[k], r.steps[k])
    ensures r.nets[k + 1] == Apply(r.nets[k], r.steps[k])
  {
    assert IsNetStep(r.nets, r.steps, k);
  }

  /** No lossless step makes `inv` false. */
  ghost predicate IsInvariant(inv: Net -> bool) {
    forall net, s :: inv(net) && Enabled(net, s) && Lossless(net, s) ==> inv(Apply(net, s))
  }

  lemma {:induction false} InvariantHolds(r: NetRun, from: nat, k: nat, inv: Net -> bool)
    requires IsLossless(r, from) && from <= k <= |r.steps| && inv(r.nets[from]) && IsInvariant(inv)
    ensures inv(r.nets[k])
  {
    if k > from {
      InvariantHolds(r, from, k - 1, inv);
      RunStep(r, from, k - 1);
    }
  }

  lemma ExchangeIsInvariant(a: nat, b: nat, c: Chain, peers: set<nat>, hi: nat)
    ensures IsInvariant(net => Exchange(net, a, b, c, peers, hi))
  {
    forall net, s | Exchange(net, a, b, c, peers, hi) && Enabled(net, s) && Lossless(net, s)
      ensures Exchange(Apply(net, s), a, b, c, peers, hi)
    {
      StepKeepsExchange(net, s, a, b, c, peers, hi);
    }
  }

  lemma RunKeepsExchange(r: NetRun, from: nat, k: nat, a: nat, b: nat, c: Chain, peers: set<nat>, hi: nat)
    requires IsLossless(r, from) && from <= k <= |r.steps|
    requires Exchange(r.nets[from], a, b, c, peers, hi)
    ensures Exchange(r.nets[k], a, b, c, peers, hi)
  {
    ExchangeIsInvariant(a, b, c, peers, hi);
    InvariantHolds(r, from, k, net => Exchange(net, a, b, c, peers, hi));
  }

  /** Nothing is under way any more that could bring anything to `b`; in particular so if nothing is. */
  predicate Settled(net: Net, b: nat) {
    b < |net.nodes| && Traffic(net.flight, |net.nodes|, b, {}, net.nodes[b].chain)
  }

  lemma SettledIsSilent(net: Net, b: nat, x: nat, y: nat)
    requires Settled(net, b)
    ensures Busy(net.flight, x, y, net.nodes[b].chain) == []
  {
    forall i | 0 <= i < |net.flight|
      ensures Irrelevant(net.flight[i], x, y, net.nodes[b].chain)
    {
      assert Harmless(net.flight[i], |net.nodes|, b, {}, net.nodes[b].chain);
    }
    NothingBusy(net.flight, x, y, net.nodes[b].chain);
  }

  lemma SettledIsDone(net: Net, a: nat, b: nat, c: Chain, peers: set<nat>, hi: nat)
    requires Exchange(net, a, b, c, peers, hi) && Settled(net, b)
    ensures net.nodes[b].chain == c[..hi]
  {
    SettledIsSilent(net, b, a, b);
    SettledIsSilent(net, b, b, a);
    assert Served(net, a, b, c, hi, hi);
  }
}
