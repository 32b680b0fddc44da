/** A network of nodes and the messages in flight between them (internal/p2p/server.go). Any message may be
    delivered next, lost or doubled. */
module Network {
  import opened Options
  import opened Timestamps
  import opened Blocks
  import opened Chains
  import opened Protocol

  datatype Packet = Packet(src: nat, dst: nat, message: Message)

  datatype Net = Net(nodes: seq<Node>, flight: seq<Packet>)

  datatype Step =
    | Deliver(i: nat, now: int, mark: int)
    | Drop(i: nat)
    | Duplicate(i: nat)
    | Tidy(n: nat, now: int)
    | Mine(n: nat, bpm: int, timestamp: Timestamp, now: int, mark: int)
    | Greet(n: nat, to: nat)
    | AskAfterTip(n: nat, to: nat)
    | AskAll(n: nat)
    | Seek(n: nat, hash: string)

  // ----- Sending -----

  /** One message from `src` to each of its peers among nodes `0..n`. */
  function Multicast(src: nat, peers: set<nat>, n: nat, m: Message): seq<Packet> {
    if n == 0 then []
    else Multicast(src, peers, n - 1, m) + if n - 1 in peers then [Packet(src, n - 1, m)] else []
  }

  function Replies(src: nat, dst: nat, messages: seq<Message>): seq<Packet> {
    seq(|messages|, i requires 0 <= i < |messages| => Packet(src, dst, messages[i]))
  }

  /** What node `src` sends: its gossip (at most one block) to all peers, its replies to `dst`. */
  function Outgoing(net: Net, src: nat, e: Effect, dst: nat): seq<Packet> {
    (if e.gossip == [] then [] else Multicast(src, e.node.heights.Keys, |net.nodes|, BlockMsg(e.gossip[0])))
    + Replies(src, dst, e.reply)
  }

  function Act(net: Net, n: nat, e: Effect, dst: nat): Net
    requires n < |net.nodes|
  {
    Net(net.nodes[n := e.node], net.flight + Outgoing(net, n, e, dst))
  }

  function Without(flight: seq<Packet>, i: nat): seq<Packet>
    requires i < |flight|
  {
    flight[..i] + flight[i + 1..]
  }

  // ----- Steps -----

  predicate IsNode(net: Net, n: nat) {
    n < |net.nodes| && net.nodes[n].chain != []
  }

  predicate Enabled(net: Net, s: Step) {
    match s
    case Deliver(i, now, mark) =>
      i < |net.flight| && IsNode(net, net.flight[i].dst) && net.nodes[net.flight[i].dst].clock <= now <= mark
    case Drop(i) => i < |net.flight|
    case Duplicate(i) => i < |net.flight|
    case Tidy(n, now) => IsNode(net, n) && net.nodes[n].clock <= now
    case Mine(n, _, t, now, mark) => IsNode(net, n) && net.nodes[n].clock <= Instant(t) <= now <= mark
    case Greet(n, to) => IsNode(net, n) && to < |net.nodes|
    case AskAfterTip(n, to) => IsNode(net, n) && to < |net.nodes|
    case AskAll(n) => IsNode(net, n)
    case Seek(n, _) => IsNode(net, n)
  }

  function Apply(net: Net, s: Step): Net
    requires Enabled(net, s)
  {
    match s
    case Deliver(i, now, mark) =>
      var p := net.flight[i];
      Act(net.(flight := Without(net.flight, i)), p.dst,
          Receive(net.nodes[p.dst], p.src, p.message, now, mark), p.src)
    case Drop(i) => net.(flight := Without(net.flight, i))
    case Duplicate(i) => net.(flight := net.flight + [net.flight[i]])
    case Tidy(n, now) => net.(nodes := net.nodes[n := CleanUp(net.nodes[n], now)])
    case Mine(n, bpm, t, now, mark) => Act(net, n, AddLocal(net.nodes[n], bpm, t, now, mark), n)
    case Greet(n, to) => Say(net, n, to, Version(|net.nodes[n].chain|))
    case AskAfterTip(n, to) => Say(net, n, to, GetBlocks(Last(net.nodes[n].chain).hash))
    case AskAll(n) => SayToAll(net, n, GetBlocks(""))
    case Seek(n, hash) => SayToAll(net, n, FindBlock(hash))
  }

  function Say(net: Net, n: nat, to: nat, m: Message): Net {
    net.(flight := net.flight + [Packet(n, to, m)])
  }

  function SayToAll(net: Net, n: nat, m: Message): Net
    requires n < |net.nodes|
  {
    net.(flight := net.flight + Multicast(n, net.nodes[n].heights.Keys, |net.nodes|, m))
  }

  // ----- What is in flight -----

  /** Every block carried by the packets satisfies membership in `c`. */
  predicate CarriesOnly(flight: seq<Packet>, c: Chain) {
    forall i :: 0 <= i < |flight| ==> CarriedIn(flight[i].message, c)
  }

  predicate Within(blocks: seq<Block>, c: seq<Block>) {
    forall b :: b in blocks ==> b in c
  }

  predicate CarriedIn(m: Message, c: Chain) {
    Carried(m).Some? ==> Carried(m).value in c
  }

  lemma {:induction false} MulticastForm(src: nat, peers: set<nat>, n: nat, m: Message)
    ensures var ps := Multicast(src, peers, n, m);
            |ps| <= n && forall i :: 0 <= i < |ps| ==> ps[i].src == src && ps[i].dst < n && ps[i].message == m
  {
    if n > 0 {
      MulticastForm(src, peers, n - 1, m);
    }
  }

  /** A node sends only blocks that are in its chain afterwards. */
  lemma OutgoingCarriesOnly(net: Net, src: nat, e: Effect, dst: nat)
    requires forall b :: b in e.gossip ==> b in e.node.chain
    requires forall m :: m in e.reply ==> CarriedIn(m, e.node.chain)
    ensures CarriesOnly(Outgoing(net, src, e, dst), e.node.chain)
  {
    if e.gossip != [] {
      MulticastForm(src, e.node.heights.Keys, |net.nodes|, BlockMsg(e.gossip[0]));
    }
  }

  lemma ReplyCarriesOwnBlocks(n: Node, from: nat, m: Message)
    requires n.chain != []
    ensures forall r :: r in Reply(n, from, m) ==> CarriedIn(r, n.chain)
  {
    if m.GetData? {
      AnswersAreOwnBlocks(n.chain, m.vecs);
    }
  }

  lemma ReceiveSendsOwnBlocks(n: Node, from: nat, m: Message, now: int, mark: int)
    requires n.chain != [] && n.clock <= now <= mark
    ensures var e := Receive(n, from, m, now, mark);
            && (forall b :: b in e.gossip ==> b in e.node.chain)
            && (forall r :: r in e.reply ==> CarriedIn(r, e.node.chain))
  {
    ReceiveAppends(n, from, m, now, mark);
    ReceiveReplies(n, from, m, now, mark);
    ReplyCarriesOwnBlocks(n, from, m);
  }

  // ----- Chains stay valid -----

  predicate AllValid(net: Net) {
    forall n :: 0 <= n < |net.nodes| ==> ValidChain(net.nodes[n].chain, net.nodes[n].clock)
  }

  /** The node a step changes and what it does there, if it changes one. */
  function ActorOf(net: Net, s: Step): Option<nat>
    requires Enabled(net, s)
  {
    match s
    case Deliver(i, _, _) => Some(net.flight[i].dst)
    case Tidy(n, _) => Some(n)
    case Mine(n, _, _, _, _) => Some(n)
    case _ => None
  }

  function EventOf(net: Net, s: Step): Event
    requires Enabled(net, s) && ActorOf(net, s).Some?
  {
    match s
    case Deliver(i, now, mark) => Received(net.flight[i].src, net.flight[i].message, now, mark)
    case Mine(_, bpm, t, now, mark) => Added(bpm, t, now, mark)
    case Tidy(_, now) => Cleaned(now)
  }

  /** A step is an event at one node, or changes no node at all. */
  lemma StepIsEvent(net: Net, s: Step)
    requires Enabled(net, s)
    ensures match ActorOf(net, s)
            case None => Apply(net, s).nodes == net.nodes
            case Some(n) =>
              && IsNode(net, n) && Readable(net.nodes[n], EventOf(net, s))
              && Apply(net, s).nodes == net.nodes[n := Handle(net.nodes[n], EventOf(net, s)).node]
  {
  }

  /** Whoever adds blocks: every node's chain stays valid at the node's clock, and only grows. */
  lemma StepKeepsAllValid(net: Net, s: Step)
    requires AllValid(net) && Enabled(net, s)
    ensures var after := Apply(net, s);
            && AllValid(after) && |after.nodes| == |net.nodes|
            && forall n :: 0 <= n < |net.nodes| ==> net.nodes[n].chain <= after.nodes[n].chain
  {
    StepIsEvent(net, s);
    var actor := ActorOf(net, s);
    if actor.Some? {
      EventAppends(net.nodes[actor.value], EventOf(net, s));
    }
  }

  // ----- One writer -----

  /** Only node `w` has ever added blocks: every chain is a prefix of its chain, and only blocks of its
      chain are in flight. */
  predicate SingleWriter(net: Net, w: nat) {
    && w < |net.nodes| && AllValid(net)
    && (forall n :: 0 <= n < |net.nodes| ==> net.nodes[n].chain <= net.nodes[w].chain)
    && CarriesOnly(net.flight, net.nodes[w].chain)
  }

  /** A valid chain that is longer by one block of `c` than a prefix of `c` is again a prefix of `c`. */
  lemma NextBlockOfPrefix(p: Chain, b: Block, c: Chain, now: int, later: int)
    requires ValidChain(c, now) && ValidChain(p + [b], later)
    requires p <= c && b in c
    ensures p + [b] <= c
  {
    IndexIsPosition(c, now, |c|);
    IndexIsPosition(p + [b], later, |p| + 1);
    assert (p + [b])[|p|].index == |p|;
    var j :| 0 <= j < |c| && c[j] == b;
  }

  lemma StepStaysBehindWriter(net: Net, s: Step, w: nat)
    requires SingleWriter(net, w) && Enabled(net, s)
    requires s.Mine? ==> s.n == w
    ensures var after := Apply(net, s);
            && |after.nodes| == |net.nodes| && net.nodes[w].chain <= after.nodes[w].chain
            && forall n :: 0 <= n < |net.nodes| ==> after.nodes[n].chain <= after.nodes[w].chain
  {
    StepIsEvent(net, s);
    StepKeepsAllValid(net, s);
    var after, actor := Apply(net, s), ActorOf(net, s);
    if actor.Some? && actor.value == w && s.Mine? {
      forall n | 0 <= n < |net.nodes|
        ensures after.nodes[n].chain <= after.nodes[w].chain
      {
        assert net.nodes[n].chain <= net.nodes[w].chain <= after.nodes[w].chain;
      }
    } else if actor.Some? {
      EventAppends(net.nodes[actor.value], EventOf(net, s));
      ReaderStaysBehind(net, s, w);
    }
  }

  lemma ReaderStaysBehind(net: Net, s: Step, w: nat)
    requires SingleWriter(net, w) && Enabled(net, s) && !s.Mine?
    ensures var after := Apply(net, s);
            && |after.nodes| == |net.nodes| && after.nodes[w].chain == net.nodes[w].chain
            && forall n :: 0 <= n < |net.nodes| ==> after.nodes[n].chain <= net.nodes[w].chain
  {
    StepIsEvent(net, s);
    StepKeepsAllValid(net, s);
    var actor := ActorOf(net, s);
    if actor.Some? {
      ActorStaysBehind(net, s, w);
    }
  }

  lemma ActorStaysBehind(net: Net, s: Step, w: nat)
    requires SingleWriter(net, w) && Enabled(net, s) && !s.Mine? && ActorOf(net, s).Some?
    ensures var n := ActorOf(net, s).value;
            n < |net.nodes| && Handle(net.nodes[n], EventOf(net, s)).node.chain <= net.nodes[w].chain
  {
    StepIsEvent(net, s);
    var n, e := ActorOf(net, s).value, EventOf(net, s);
    var f := Handle(net.nodes[n], e);
    EventAppends(net.nodes[n], e);
    if f.node.chain != net.nodes[n].chain {
      assert CarriedIn(net.flight[s.i].message, net.nodes[w].chain);
      NextBlockOfPrefix(net.nodes[n].chain, Brought(net.nodes[n], e).value, net.nodes[w].chain,
                        net.nodes[w].clock, f.node.clock);
    }
  }

  /** What a step puts in flight carries only blocks of the node that acts. */
  lemma StepCarriesOnly(net: Net, s: Step, c: Chain)
    requires Enabled(net, s) && CarriesOnly(net.flight, c)
    requires ActorOf(net, s).Some? ==> Within(Apply(net, s).nodes[ActorOf(net, s).value].chain, c)
    ensures CarriesOnly(Apply(net, s).flight, c)
  {
    match s
    case Deliver(i, now, mark) => DeliverCarriesOnly(net, i, now, mark, c);
    case Mine(n, bpm, t, now, mark) => MineCarriesOnly(net, s, c);
    case AskAll(n) => SayToAllCarriesOnly(net, n, GetBlocks(""), c);
    case Seek(n, hash) => SayToAllCarriesOnly(net, n, FindBlock(hash), c);
    case _ => OtherCarriesOnly(net, s, c);
  }

  lemma MineCarriesOnly(net: Net, s: Step, c: Chain)
    requires Enabled(net, s) && s.Mine? && CarriesOnly(net.flight, c) && Within(Apply(net, s).nodes[s.n].chain, c)
    ensures CarriesOnly(Apply(net, s).flight, c)
  {
    EventAppends(net.nodes[s.n], Added(s.bpm, s.timestamp, s.now, s.mark));
    OutgoingCarriesOnly(net, s.n, AddLocal(net.nodes[s.n], s.bpm, s.timestamp, s.now, s.mark), s.n);
  }

  lemma SayToAllCarriesOnly(net: Net, n: nat, m: Message, c: Chain)
    requires n < |net.nodes| && CarriesOnly(net.flight, c) && Carried(m).None?
    ensures CarriesOnly(SayToAll(net, n, m).flight, c)
  {
    MulticastForm(n, net.nodes[n].heights.Keys, |net.nodes|, m);
  }

  lemma OtherCarriesOnly(net: Net, s: Step, c: Chain)
    requires Enabled(net, s) && CarriesOnly(net.flight, c)
    requires s.Drop? || s.Duplicate? || s.Tidy? || s.Greet? || s.AskAfterTip?
    ensures CarriesOnly(Apply(net, s).flight, c)
  {
  }

  lemma DeliverCarriesOnly(net: Net, i: nat, now: int, mark: int, c: Chain)
    requires Enabled(net, Deliver(i, now, mark)) && CarriesOnly(net.flight, c)
    requires var p := net.flight[i];
             Within(Receive(net.nodes[p.dst], p.src, p.message, now, mark).node.chain, c)
    ensures CarriesOnly(Apply(net, Deliver(i, now, mark)).flight, c)
  {
    var p := net.flight[i];
    var rest := net.(flight := Without(net.flight, i));
    var e := Receive(net.nodes[p.dst], p.src, p.message, now, mark);
    ReceiveSendsOwnBlocks(net.nodes[p.dst], p.src, p.message, now, mark);
    OutgoingCarriesOnly(rest, p.dst, e, p.src);
    assert Apply(net, Deliver(i, now, mark)).flight == rest.flight + Outgoing(rest, p.dst, e, p.src);
  }

  lemma StepKeepsSingleWriter(net: Net, s: Step, w: nat)
    requires SingleWriter(net, w) && Enabled(net, s)
    requires s.Mine? ==> s.n == w
    ensures SingleWriter(Apply(net, s), w)
  {
    StepKeepsAllValid(net, s);
    StepStaysBehindWriter(net, s, w);
    var c, d := net.nodes[w].chain, Apply(net, s).nodes[w].chain;
    forall i | 0 <= i < |net.flight|
      ensures CarriedIn(net.flight[i].message, d)
    {
      assert CarriedIn(net.flight[i].message, c);
    }
    StepCarriesOnly(net, s, d);
  }

  predicate IsNetStep(nets: seq<Net>, steps: seq<Step>, k: nat)
    requires |nets| == |steps| + 1 && k < |steps|
  {
    Enabled(nets[k], steps[k]) && nets[k + 1] == Apply(nets[k], steps[k])
  }

  predicate IsNetRun(nets: seq<Net>, steps: seq<Step>) {
    |nets| == |steps| + 1 && forall k :: 0 <= k < |steps| ==> IsNetStep(nets, steps, k)
  }

  /** A network whose nodes have just been started. */
  predicate IsFresh(net: Net) {
    && net.flight == []
    && forall n :: 0 <= n < |net.nodes| ==>
         net.nodes[n].chain == [Genesis()] && Instant(EPOCH) <= net.nodes[n].clock + MAX_TIME_DRIFT
  }

  /** Single-writer prefix consistency: if only node `w` adds blocks, then in every state of every run, under
      any loss, duplication, reordering and clean-up, every chain is valid and a prefix of the chain of
      `w`, and so any two chains are prefixes one of the other. */
  lemma {:induction false} ChainsArePrefixes(nets: seq<Net>, steps: seq<Step>, w: nat, k: nat)
    requires IsNetRun(nets, steps) && IsFresh(nets[0]) && w < |nets[0].nodes|
    requires forall i :: 0 <= i < |steps| && steps[i].Mine? ==> steps[i].n == w
    requires k < |nets|
    ensures SingleWriter(nets[k], w) && |nets[k].nodes| == |nets[0].nodes|
  {
    if k == 0 {
      forall n | 0 <= n < |nets[0].nodes|
        ensures ValidChain(nets[0].nodes[n].chain, nets[0].nodes[n].clock)
      {
        NewChainIsValid(nets[0].nodes[n].clock);
      }
    } else {
      ChainsArePrefixes(nets, steps, w, k - 1);
      assert IsNetStep(nets, steps, k - 1);
      StepKeepsSingleWriter(nets[k - 1], steps[k - 1], w);
      StepKeepsAllValid(nets[k - 1], steps[k - 1]);
    }
  }

  /** With any number of writers, every chain is valid at its node's clock in every state of every run,
      and no chain ever loses a block. */
  lemma {:induction false} ChainsStayValid(nets: seq<Net>, steps: seq<Step>, k: nat, n: nat)
    requires IsNetRun(nets, steps) && AllValid(nets[0]) && k < |nets| && n < |nets[0].nodes|
    ensures AllValid(nets[k]) && |nets[k].nodes| == |nets[0].nodes|
    ensures nets[0].nodes[n].chain <= nets[k].nodes[n].chain
  {
    if k > 0 {
      ChainsStayValid(nets, steps, k - 1, n);
      assert IsNetStep(nets, steps, k - 1);
      StepKeepsAllValid(nets[k - 1], steps[k - 1]);
    }
  }

  // ----- Longer runs -----

  /** Step `k` is a move, as some relation says; a run can be grown without looking into the moves. */
  predicate Follows(nets: seq<Net>, steps: seq<Step>, move: (Net, Step, Net) -> bool, k: nat)
    requires |nets| == |steps| + 1 && k < |steps|
  {
    move(nets[k], steps[k], nets[k + 1])
  }

  lemma OneMoreFollows(nets: seq<Net>, steps: seq<Step>, s: Step, after: Net, move: (Net, Step, Net) -> bool)
    requires |nets| == |steps| + 1 && move(nets[|steps|], s, after)
    requires forall k :: 0 <= k < |steps| ==> Follows(nets, steps, move, k)
    ensures forall k :: 0 <= k < |steps| + 1 ==> Follows(nets + [after], steps + [s], move, k)
  {
    forall k | 0 <= k < |steps| + 1
      ensures Follows(nets + [after], steps + [s], move, k)
    {
      assert k < |steps| ==> Follows(nets, steps, move, k);
    }
  }

  /** The moves of the network, as a relation. */
  function Move(): (Net, Step, Net) -> bool {
    (net: Net, s: Step, after: Net) => Enabled(net, s) && after == Apply(net, s)
  }

  lemma RunExtended(nets: seq<Net>, steps: seq<Step>, s: Step, after: Net)
    requires IsNetRun(nets, steps) && Move()(nets[|steps|], s, after)
    ensures IsNetRun(nets + [after], steps + [s])
  {
    forall k | 0 <= k < |steps|
      ensures Follows(nets, steps, Move(), k)
    {
      assert IsNetStep(nets, steps, k);
    }
    OneMoreFollows(nets, steps, s, after, Move());
    forall k | 0 <= k < |steps| + 1
      ensures IsNetStep(nets + [after], steps + [s], k)
    {
      assert Follows(nets + [after], steps + [s], Move(), k);
    }
  }

  lemma OneBeforeFollows(nets: seq<Net>, steps: seq<Step>, s: Step, before: Net, move: (Net, Step, Net) -> bool)
    requires |nets| == |steps| + 1 && move(before, s, nets[0])
    requires forall k :: 0 <= k < |steps| ==> Follows(nets, steps, move, k)
    ensures forall k :: 0 <= k < |steps| + 1 ==> Follows([before] + nets, [s] + steps, move, k)
  {
    forall k | 0 <= k < |steps| + 1
      ensures Follows([before] + nets, [s] + steps, move, k)
    {
      assert k > 0 ==> Follows(nets, steps, move, k - 1);
    }
  }

  lemma RunPreceded(nets: seq<Net>, steps: seq<Step>, s: Step, before: Net)
    requires IsNetRun(nets, steps) && Move()(before, s, nets[0])
    ensures IsNetRun([before] + nets, [s] + steps)
  {
    forall k | 0 <= k < |steps|
      ensures Follows(nets, steps, Move(), k)
    {
      assert IsNetStep(nets, steps, k);
    }
    OneBeforeFollows(nets, steps, s, before, Move());
    forall k | 0 <= k < |steps| + 1
      ensures IsNetStep([before] + nets, [s] + steps, k)
    {
      assert Follows([before] + nets, [s] + steps, Move(), k);
    }
  }
}
