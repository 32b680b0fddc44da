/** Forks do not heal: exchanging blocks changes a network exactly as long as some node's chain continues
    the chain of another (internal/p2p/server.go). */
module Forks {
  import opened Options
  import opened Timestamps
  import opened Blocks
  import opened Chains
  import opened Protocol
  import opened Network
  import opened Links

  function ChainsOf(net: Net): seq<Chain> {
    seq(|net.nodes|, n requires 0 <= n < |net.nodes| => net.nodes[n].chain)
  }

  /** The chain `a` continues the chain `b`, as far as hashes tell. */
  predicate Continues(a: Chain, b: Chain) {
    |b| < |a| && SameHashes(b, a[..|b|])
  }

  predicate NoneContinues(cs: seq<Chain>) {
    forall x, y :: 0 <= x < |cs| && 0 <= y < |cs| ==> !Continues(cs[x], cs[y])
  }

  ghost predicate NoCollisions(cs: seq<Chain>) {
    forall x, y :: 0 <= x < |cs| && 0 <= y < |cs| ==> !Collision(cs[x], cs[y])
  }

  function AllBlocks(cs: seq<Chain>): seq<Block> {
    if cs == [] then [] else AllBlocks(cs[..|cs| - 1]) + cs[|cs| - 1]
  }

  lemma {:induction false} FromSomeChain(cs: seq<Chain>, b: Block)
    ensures b in AllBlocks(cs) <==> exists n :: 0 <= n < |cs| && b in cs[n]
  {
    if cs != [] {
      FromSomeChain(cs[..|cs| - 1], b);
      assert forall n :: 0 <= n < |cs| - 1 ==> cs[..|cs| - 1][n] == cs[n];
    }
  }

  lemma ChainIsWithin(cs: seq<Chain>, n: nat)
    requires n < |cs|
    ensures Within(cs[n], AllBlocks(cs))
  {
    forall b | b in cs[n]
      ensures b in AllBlocks(cs)
    {
      FromSomeChain(cs, b);
    }
  }

  // ----- A network that stands still -----

  /** No chain continues another, and only blocks that some node has are in flight. */
  ghost predicate Still(net: Net) {
    && AllValid(net) && NoCollisions(ChainsOf(net)) && NoneContinues(ChainsOf(net))
    && CarriesOnly(net.flight, AllBlocks(ChainsOf(net)))
  }

  lemma ValidlyAppended(b: Chain, x: Block, later: int)
    requires b != []
    ensures ValidChain(b + [x], later) ==> Accepts(b, x, later)
  {
    if ValidChain(b + [x], later) {
      assert Passes(b + [x], |b|, later);
    }
  }

  /** No block of a chain that does not continue one's own can be appended. */
  lemma NothingToAppend(b: Chain, x: Block, a: Chain, before: int, later: int, now: int)
    requires ValidChain(b, before) && ValidChain(a, now) && x in a && !Collision(a, b) && !Continues(a, b)
    ensures !ValidChain(b + [x], later)
  {
    var i :| 0 <= i < |a| && a[i] == x;
    ValidIffLinkedAndTimely(a, now);
    ValidIffLinkedAndTimely(b, before);
    AcceptanceCharacterised(a, i, b, later);
    ValidlyAppended(b, x, later);
  }

  lemma NothingToOffer(net: Net, n: nat, x: Block, later: int)
    requires Still(net) && n < |net.nodes| && x in AllBlocks(ChainsOf(net))
    ensures !ValidChain(net.nodes[n].chain + [x], later)
  {
    var cs := ChainsOf(net);
    FromSomeChain(cs, x);
    var m :| 0 <= m < |cs| && x in cs[m];
    assert !Collision(cs[m], cs[n]) && !Continues(cs[m], cs[n]);
    NothingToAppend(net.nodes[n].chain, x, net.nodes[m].chain, net.nodes[n].clock, later, net.nodes[m].clock);
  }

  lemma StillChain(net: Net, s: Step, n: nat)
    requires Still(net) && Enabled(net, s) && !s.Mine? && n < |net.nodes|
    ensures |Apply(net, s).nodes| == |net.nodes| && Apply(net, s).nodes[n].chain == net.nodes[n].chain
  {
    StepIsEvent(net, s);
    StepKeepsAllValid(net, s);
    if ActorOf(net, s) == Some(n) {
      var e := EventOf(net, s);
      EventAppends(net.nodes[n], e);
      var x := Brought(net.nodes[n], e);
      if x.Some? {
        assert CarriedIn(net.flight[s.i].message, AllBlocks(ChainsOf(net)));
        NothingToOffer(net, n, x.value, Apply(net, s).nodes[n].clock);
      }
    }
  }

  lemma StepStaysStill(net: Net, s: Step)
    requires Still(net) && Enabled(net, s) && !s.Mine?
    ensures Still(Apply(net, s)) && ChainsOf(Apply(net, s)) == ChainsOf(net)
  {
    var after, cs := Apply(net, s), ChainsOf(net);
    StepKeepsAllValid(net, s);
    forall n | 0 <= n < |net.nodes|
      ensures after.nodes[n].chain == net.nodes[n].chain
    {
      StillChain(net, s, n);
    }
    assert ChainsOf(after) == cs;
    StepIsEvent(net, s);
    if ActorOf(net, s).Some? {
      ChainIsWithin(cs, ActorOf(net, s).value);
    }
    StepCarriesOnly(net, s, AllBlocks(cs));
  }

  /** A run in which no block is added. */
  predicate AddsNothing(nets: seq<Net>, steps: seq<Step>) {
    IsNetRun(nets, steps) && forall k :: 0 <= k < |steps| ==> !steps[k].Mine?
  }

  /** If no chain continues another, then nothing that nodes ask each other, no find and no handshake, no
      loss and no repetition ever changes any chain. */
  lemma {:induction false} StandsStill(nets: seq<Net>, steps: seq<Step>, k: nat)
    requires AddsNothing(nets, steps) && Still(nets[0]) && k < |nets|
    ensures Still(nets[k]) && ChainsOf(nets[k]) == ChainsOf(nets[0])
  {
    if k > 0 {
      StandsStill(nets, steps, k - 1);
      assert IsNetStep(nets, steps, k - 1);
      StepStaysStill(nets[k - 1], steps[k - 1]);
    }
  }

  lemma DifferingNeverContinues(a: Chain, b: Chain, i: nat)
    requires i < |a| && i < |b| && a[i].hash != b[i].hash
    ensures !Continues(a, b) && !Continues(b, a)
  {
    if |b| < |a| {
      assert a[..|b|][i] == a[i];
    } else if |a| < |b| {
      assert b[..|a|][i] == b[i];
    }
  }

  /** In particular forks do not heal: two nodes whose chains differ at some position keep both chains. */
  lemma ForkNeverHeals(nets: seq<Net>, steps: seq<Step>, i: nat, k: nat)
    requires AddsNothing(nets, steps) && |nets[0].nodes| == 2 && AllValid(nets[0]) && nets[0].flight == []
    requires var a, b := nets[0].nodes[0].chain, nets[0].nodes[1].chain;
             i < |a| && i < |b| && a[i].hash != b[i].hash
    requires NoCollisions(ChainsOf(nets[0])) && k < |nets|
    ensures ChainsOf(nets[k]) == ChainsOf(nets[0])
  {
    ForkIsStill(nets[0], i);
    StandsStill(nets, steps, k);
  }

  lemma ForkIsStill(net: Net, i: nat)
    requires |net.nodes| == 2 && AllValid(net) && net.flight == [] && NoCollisions(ChainsOf(net))
    requires var a, b := net.nodes[0].chain, net.nodes[1].chain; i < |a| && i < |b| && a[i].hash != b[i].hash
    ensures Still(net)
  {
    TwoForked(ChainsOf(net), i);
  }

  lemma TwoForked(cs: seq<Chain>, i: nat)
    requires |cs| == 2 && i < |cs[0]| && i < |cs[1]| && cs[0][i].hash != cs[1][i].hash
    ensures NoneContinues(cs)
  {
    DifferingNeverContinues(cs[0], cs[1], i);
    forall x, y | 0 <= x < |cs| && 0 <= y < |cs|
      ensures !Continues(cs[x], cs[y])
    {
      assert x == y || (x == 0 && y == 1) || (x == 1 && y == 0);
    }
  }

  // ----- A network that can move -----

  /** A reading of the clock from which a node has forgotten all its marks and admits all blocks. */
  predicate LateEnough(n: Node, c: Chain, late: int) {
    && n.clock <= late && Timely(c, late)
    && forall h :: h in n.processed ==> late - n.processed[h] > PROCESSED_AGE
  }

  lemma SomeReadingIsLate(n: Node, c: Chain) returns (late: int)
    ensures LateEnough(n, c, late)
  {
    late := n.clock;
    for i := 0 to |c|
      invariant n.clock <= late
      invariant forall k :: 0 <= k < i ==> Instant(c[k].timestamp) <= late + MAX_TIME_DRIFT
    {
      late := Max(late, Instant(c[i].timestamp) - MAX_TIME_DRIFT);
    }
    var todo := n.processed.Keys;
    while todo != {}
      invariant n.clock <= late && Timely(c, late) && todo <= n.processed.Keys
      invariant forall h :: h in n.processed.Keys - todo ==> late - n.processed[h] > PROCESSED_AGE
      decreases todo
    {
      var h :| h in todo;
      late := Max(late, n.processed[h] + PROCESSED_AGE + 1);
      todo := todo - {h};
    }
  }

  lemma {:induction false} AllMissing(blocks: seq<Block>)
    ensures Missing(VecsOf(blocks), map[]) == VecsOf(blocks)
  {
    if blocks != [] {
      var n := |blocks| - 1;
      AllMissing(blocks[..n]);
      var v := InvVec("block", blocks[n].hash);
      assert VecsOf(blocks) == VecsOf(blocks[..n]) + [v];
      OneMoreMissing(VecsOf(blocks[..n]), v);
    }
  }

  lemma OneMoreMissing(vecs: seq<InvVec>, v: InvVec)
    requires v.kind == "block"
    ensures Missing(vecs + [v], map[]) == Missing(vecs, map[]) + [v]
  {
    assert (vecs + [v])[..|vecs|] == vecs;
  }

  lemma AsksForAll(page: seq<Block>)
    requires page != []
    ensures GetDataReply(VecsOf(page), map[]) == [GetData(VecsOf(page))]
  {
    AllMissing(page);
    assert |VecsOf(page)| == |page|;
  }

  /** The last packet in flight, a question or an announcement, is answered. */
  lemma LastAnswered(net: Net, rest: seq<Packet>, p: Packet, ms: seq<Message>) returns (s: Step)
    requires net.flight == rest + [p] && IsNode(net, p.dst)
    requires p.message.GetBlocks? || p.message.Inv? || p.message.GetData?
    requires ms == Reply(net.nodes[p.dst], p.src, p.message)
    ensures Enabled(net, s) && !s.Mine? && Apply(net, s) == Net(net.nodes, rest + Replies(p.dst, p.src, ms))
  {
    var n := net.nodes[p.dst];
    s := Deliver(|rest|, n.clock, n.clock);
    assert Without(net.flight, |rest|) == rest;
    assert Receive(n, p.src, p.message, n.clock, n.clock) == Effect(n, [], ms);
    assert net.nodes[p.dst := n] == net.nodes;
    assert [] + Replies(p.dst, p.src, ms) == Replies(p.dst, p.src, ms);
  }

  /** The blocks that a node with chain `a` announces to one whose chain it continues. */
  lemma PageContinues(a: Chain, b: Chain, before: int, now: int)
    requires ValidChain(a, now) && ValidChain(b, before) && Continues(a, b) && !Collision(a, a)
    ensures var page := Page(a, Last(b).hash, PAGE_LIMIT);
            && page != [] && page[0] == a[|b|]
            && InvReply(a, Last(b).hash) == [Inv(VecsOf(page))] && Answers(a, VecsOf(page)) == BlockMsgs(page)
  {
    ValidIffLinkedAndTimely(a, now);
    HashesDistinct(a);
    assert b[|b| - 1].hash == a[..|b|][|b| - 1].hash;
    PageStartAfter(a, |b|);
    AnswersOwn(a, Page(a, Last(b).hash, PAGE_LIMIT));
  }

  /** A run without additions from one network to another. */
  predicate Leads(nets: seq<Net>, steps: seq<Step>, from: Net, to: Net) {
    AddsNothing(nets, steps) && nets[0] == from && nets[|steps|] == to
  }

  lemma Further(nets: seq<Net>, steps: seq<Step>, from: Net, to: Net, s: Step)
    requires Leads(nets, steps, from, to) && Enabled(to, s) && !s.Mine?
    ensures Leads(nets + [Apply(to, s)], steps + [s], from, Apply(to, s))
  {
    RunExtended(nets, steps, s, Apply(to, s));
  }

  /** The four messages of an exchange, each delivered at once: `b` asks after its tip, `a` announces, */
  lemma PageTold(net: Net, a: nat, b: nat, page: seq<Block>) returns (s: Step, t: Step)
    requires IsNode(net, a) && IsNode(net, b)
    requires InvReply(net.nodes[a].chain, Last(net.nodes[b].chain).hash) == [Inv(VecsOf(page))]
    ensures !s.Mine? && !t.Mine? && Enabled(net, s) && Enabled(Apply(net, s), t)
    ensures Apply(Apply(net, s), t) == Net(net.nodes, net.flight + [Packet(a, b, Inv(VecsOf(page)))])
  {
    var q := Packet(b, a, GetBlocks(Last(net.nodes[b].chain).hash));
    s := AskAfterTip(b, a);
    t := LastAnswered(Net(net.nodes, net.flight + [q]), net.flight, q, [Inv(VecsOf(page))]);
    assert Replies(a, b, [Inv(VecsOf(page))]) == [Packet(a, b, Inv(VecsOf(page)))];
  }

  /** `b` asks for everything, `a` sends it. */
  lemma PageFetched(net: Net, rest: seq<Packet>, a: nat, b: nat, page: seq<Block>) returns (u: Step, v: Step)
    requires IsNode(net, a) && IsNode(net, b) && net.nodes[b].processed == map[] && page != []
    requires net.flight == rest + [Packet(a, b, Inv(VecsOf(page)))]
    requires Answers(net.nodes[a].chain, VecsOf(page)) == BlockMsgs(page)
    ensures !u.Mine? && !v.Mine? && Enabled(net, u) && Enabled(Apply(net, u), v)
    ensures Apply(Apply(net, u), v) == Net(net.nodes, rest + Replies(a, b, BlockMsgs(page)))
  {
    var d := Packet(b, a, GetData(VecsOf(page)));
    AsksForAll(page);
    u := LastAnswered(net, rest, Packet(a, b, Inv(VecsOf(page))), [d.message]);
    assert Replies(b, a, [d.message]) == [d];
    v := LastAnswered(Net(net.nodes, rest + [d]), rest, d, BlockMsgs(page));
  }

  lemma BlockArrives(net: Net, rest: seq<Packet>, a: nat, b: nat, page: seq<Block>, ca: Chain)
    requires AllValid(net) && b < |net.nodes| && page != []
    requires net.flight == rest + Replies(a, b, BlockMsgs(page))
    requires var n := net.nodes[b];
             && n.processed == map[] && Linked(ca) && Timely(ca, n.clock) && !Collision(ca, n.chain)
             && Continues(ca, n.chain) && page[0] == ca[|n.chain|]
    ensures var s := Deliver(|rest|, net.nodes[b].clock, net.nodes[b].clock);
            Enabled(net, s) && Apply(net, s).nodes[b].chain != net.nodes[b].chain
  {
    var n, x := net.nodes[b], page[0];
    assert net.flight[|rest|] == Packet(a, b, BlockMsg(x));
    ValidIffLinkedAndTimely(n.chain, n.clock);
    AcceptanceCharacterised(ca, |n.chain|, n.chain, n.clock);
    assert OnBlock(n, x, n.clock, n.clock).node.chain == n.chain + [x];
  }

  /** A node whose chain another one continues can catch up, by clean-up and ordinary messages. */
  lemma CanMove(net: Net, a: nat, b: nat) returns (nets: seq<Net>, steps: seq<Step>)
    requires AllValid(net) && a < |net.nodes| && b < |net.nodes|
    requires var ca, cb := net.nodes[a].chain, net.nodes[b].chain;
             Continues(ca, cb) && !Collision(ca, ca) && !Collision(ca, cb)
    ensures AddsNothing(nets, steps) && nets[0] == net
    ensures ChainsOf(nets[|steps|]) != ChainsOf(net)
  {
    var late := SomeReadingIsLate(net.nodes[b], net.nodes[a].chain);
    var s := Tidy(b, late);
    var tidied := Apply(net, s);
    TidiedNode(net, a, b, late);
    Further([net], [], net, net, s);
    nets, steps := Continued([net, tidied], [s], net, tidied, a, b, late);
  }

  lemma TidiedNode(net: Net, a: nat, b: nat, late: int)
    requires AllValid(net) && a < |net.nodes| && b < |net.nodes| && a != b
    requires LateEnough(net.nodes[b], net.nodes[a].chain, late)
    ensures var s := Tidy(b, late);
            && Enabled(net, s) && AllValid(Apply(net, s)) && ChainsOf(Apply(net, s)) == ChainsOf(net)
            && |Apply(net, s).nodes| == |net.nodes|
            && Apply(net, s).nodes[a] == net.nodes[a] && Apply(net, s).nodes[b].chain == net.nodes[b].chain
            && Apply(net, s).nodes[b].processed == map[] && Apply(net, s).nodes[b].clock == late
  {
    StepKeepsAllValid(net, Tidy(b, late));
  }

  lemma Continued(before: seq<Net>, done: seq<Step>, from: Net, net: Net, a: nat, b: nat, late: int)
    returns (nets: seq<Net>, steps: seq<Step>)
    requires Leads(before, done, from, net) && ChainsOf(net) == ChainsOf(from)
    requires AllValid(net) && a < |net.nodes| && b < |net.nodes|
    requires net.nodes[b].processed == map[] && net.nodes[b].clock == late && Timely(net.nodes[a].chain, late)
    requires var ca, cb := net.nodes[a].chain, net.nodes[b].chain;
             Continues(ca, cb) && !Collision(ca, ca) && !Collision(ca, cb)
    ensures AddsNothing(nets, steps) && nets[0] == from
    ensures ChainsOf(nets[|steps|]) != ChainsOf(from)
  {
    var ca, cb := net.nodes[a].chain, net.nodes[b].chain;
    var page := Page(ca, Last(cb).hash, PAGE_LIMIT);
    PageContinues(ca, cb, net.nodes[b].clock, net.nodes[a].clock);
    var fetched := Net(net.nodes, net.flight + Replies(a, b, BlockMsgs(page)));
    nets, steps := Fetched(before, done, from, net, a, b, page, fetched);
    ValidIffLinkedAndTimely(ca, net.nodes[a].clock);
    BlockArrives(fetched, net.flight, a, b, page, ca);
    var t := Deliver(|net.flight|, late, late);
    Further(nets, steps, from, fetched, t);
    nets, steps := nets + [Apply(fetched, t)], steps + [t];
    assert ChainsOf(Apply(fetched, t))[b] != ChainsOf(from)[b];
  }

  lemma TwoMore(before: seq<Net>, done: seq<Step>, from: Net, to: Net, s: Step, t: Step)
    returns (nets: seq<Net>, steps: seq<Step>)
    requires Leads(before, done, from, to) && !s.Mine? && !t.Mine? && Enabled(to, s) && Enabled(Apply(to, s), t)
    ensures Leads(nets, steps, from, Apply(Apply(to, s), t))
  {
    var next := Apply(to, s);
    Further(before, done, from, to, s);
    Further(before + [next], done + [s], from, next, t);
    nets, steps := before + [next] + [Apply(next, t)], done + [s] + [t];
  }

  lemma Fetched(before: seq<Net>, done: seq<Step>, from: Net, net: Net, a: nat, b: nat, page: seq<Block>, fetched: Net)
    returns (nets: seq<Net>, steps: seq<Step>)
    requires Leads(before, done, from, net)
    requires IsNode(net, a) && IsNode(net, b) && net.nodes[b].processed == map[]
    requires InvReply(net.nodes[a].chain, Last(net.nodes[b].chain).hash) == [Inv(VecsOf(page))] && page != []
    requires Answers(net.nodes[a].chain, VecsOf(page)) == BlockMsgs(page)
    requires fetched == Net(net.nodes, net.flight + Replies(a, b, BlockMsgs(page)))
    ensures Leads(nets, steps, from, fetched)
  {
    var s, t := PageTold(net, a, b, page);
    nets, steps := TwoMore(before, done, from, net, s, t);
    var told := Apply(Apply(net, s), t);
    var u, v := PageFetched(told, net.flight, a, b, page);
    nets, steps := TwoMore(nets, steps, from, told, u, v);
  }

  /** Every run in which no block is added leaves every chain as it is. */
  ghost predicate Frozen(net: Net) {
    forall nets, steps :: AddsNothing(nets, steps) && nets[0] == net ==>
      ChainsOf(nets[|steps|]) == ChainsOf(net)
  }

  /** When a network heals, exactly: chains can change without a block being added if and only if some
      chain continues another. */
  lemma FrozenIffNoneContinues(net: Net)
    requires AllValid(net) && NoCollisions(ChainsOf(net)) && CarriesOnly(net.flight, AllBlocks(ChainsOf(net)))
    ensures Frozen(net) <==> NoneContinues(ChainsOf(net))
  {
    var cs := ChainsOf(net);
    if NoneContinues(cs) {
      forall nets, steps | AddsNothing(nets, steps) && nets[0] == net
        ensures ChainsOf(nets[|steps|]) == cs
      {
        StandsStill(nets, steps, |steps|);
      }
    } else {
      var a, b :| 0 <= a < |cs| && 0 <= b < |cs| && Continues(cs[a], cs[b]);
      assert !Collision(cs[a], cs[a]) && !Collision(cs[a], cs[b]);
      var nets, steps := CanMove(net, a, b);
    }
  }
}
