/** Synchronisation: once an exchange started by `sendGetBlocks` or `RequestSync` has settled, the node that
    was behind has exactly the blocks of one page more (internal/p2p/server.go). */
module Sync {
  import opened Chains
  import opened Protocol
  import opened Network
  import opened Quiescence
  import opened Links
  import opened Exchanges

  // ----- One round from the tip -----

  /** Everything is settled, and `b` is behind `a`, which has the chain `c`. */
  predicate Ready(net: Net, a: nat, b: nat, c: Chain) {
    Parties(net, a, b, c, {a}) && Settled(net, b)
  }

  lemma AskedFlight(flight: seq<Packet>, sent: seq<Packet>, size: nat, b: nat, peers: set<nat>, have: Chain)
    requires Traffic(flight, size, b, {}, have) && Traffic(sent, size, b, peers, have)
    ensures Traffic(flight + sent, size, b, peers, have)
  {
    forall i | 0 <= i < |flight + sent|
      ensures Harmless((flight + sent)[i], size, b, peers, have)
    {
      if i < |flight| {
        assert Harmless(flight[i], size, b, {}, have);
      } else {
        assert Harmless(sent[i - |flight|], size, b, peers, have);
      }
    }
  }

  /** A page that starts no later than what a node has feeds it up to the end of the page. */
  lemma PageFeeds(own: Chain, c: Chain, h: string, n: nat)
    requires own <= c && DistinctHashes(c) && 0 < n <= |c| && PageStart(own, h) <= n
    ensures var e := Max(n, Min(|own|, PageStart(own, h) + PAGE_LIMIT));
            Feeds(Keep(Brings(GetBlocks(h), own), c[..n]), c, n, e, e)
  {
    var s := PageStart(own, h);
    var e := Min(|own|, s + PAGE_LIMIT);
    assert Page(own, h, PAGE_LIMIT) == own[s..e] == c[s..e];
    KeepWindow(c, s, e, n);
  }

  /** A `getblocks` sent to `d` when all is settled starts an exchange that ends with the page asked for. */
  lemma AskServed(net: Net, sent: seq<Packet>, b: nat, d: nat, c: Chain, h: string, low: nat, hi: nat)
    requires Settled(net, b) && d < |net.nodes| && net.nodes[d].chain <= c && DistinctHashes(c)
    requires var have := net.nodes[b].chain;
             && 0 < |have| && have <= c
             && Busy(sent, b, d, have) == [GetBlocks(h)] && Busy(sent, d, b, have) == []
    requires var own, n := net.nodes[d].chain, |net.nodes[b].chain|;
             PageStart(own, h) <= n && low <= Max(n, Min(|own|, PageStart(own, h) + PAGE_LIMIT)) <= hi <= |c|
    ensures Served(Net(net.nodes, net.flight + sent), d, b, c, low, hi)
  {
    var have := net.nodes[b].chain;
    assert have == c[..|have|];
    PageFeeds(net.nodes[d].chain, c, h, |have|);
    SettledThenSent(net, sent, b, d, b);
    SettledThenSent(net, sent, b, b, d);
  }

  lemma SettledThenSent(net: Net, sent: seq<Packet>, b: nat, x: nat, y: nat)
    requires Settled(net, b)
    ensures var have := net.nodes[b].chain; Busy(net.flight + sent, x, y, have) == Busy(sent, x, y, have)
  {
    var have := net.nodes[b].chain;
    SettledIsSilent(net, b, x, y);
    BusyConcat(net.flight, sent, x, y, have);
    assert [] + Busy(sent, x, y, have) == Busy(sent, x, y, have);
  }

  lemma AskStartsExchange(net: Net, a: nat, b: nat, c: Chain)
    requires Ready(net, a, b, c) && Enabled(net, AskAfterTip(b, a))
    ensures Exchange(Apply(net, AskAfterTip(b, a)), a, b, c, {a}, Min(|c|, |net.nodes[b].chain| + PAGE_LIMIT))
  {
    AskedOnce(net, Packet(b, a, GetBlocks(Last(net.nodes[b].chain).hash)), a, b, c);
  }

  lemma AskedOnce(net: Net, q: Packet, a: nat, b: nat, c: Chain)
    requires Ready(net, a, b, c) && q == Packet(b, a, GetBlocks(Last(net.nodes[b].chain).hash))
    ensures Exchange(Net(net.nodes, net.flight + [q]), a, b, c, {a}, Min(|c|, |net.nodes[b].chain| + PAGE_LIMIT))
  {
    AskedFromTip(net, q, a, b, c);
    AskedFlight(net.flight, [q], |net.nodes|, b, {a}, net.nodes[b].chain);
  }

  lemma AskedFromTip(net: Net, q: Packet, a: nat, b: nat, c: Chain)
    requires Ready(net, a, b, c) && q == Packet(b, a, GetBlocks(Last(net.nodes[b].chain).hash))
    ensures var hi := Min(|c|, |net.nodes[b].chain| + PAGE_LIMIT);
            Served(Net(net.nodes, net.flight + [q]), a, b, c, hi, hi)
  {
    var have, hi := net.nodes[b].chain, Min(|c|, |net.nodes[b].chain| + PAGE_LIMIT);
    assert Last(have) == c[|have| - 1];
    PageStartAfter(c, |have|);
    OneBusy(q, a, b, have);
    OneBusy(q, b, a, have);
    AskServed(net, [q], b, a, c, Last(have).hash, hi, hi);
  }

  /** A round of synchronisation from the tip: `sendGetBlocks`, then a lossless run. */
  predicate IsRound(r: NetRun, a: nat, b: nat) {
    IsLossless(r, 1) && r.steps[0] == AskAfterTip(b, a)
  }

  function End(r: NetRun): Net
    requires r.nets != []
  {
    r.nets[|r.nets| - 1]
  }

  /** Sync convergence, one round: in whatever order messages are delivered, once everything has settled
      `b` has exactly the next `min(500, gap)` blocks, and everything is ready for another round. At no
      time does `b` have anything else than first blocks of the chain of `a`. */
  lemma SyncRound(r: NetRun, a: nat, b: nat, c: Chain, k: nat)
    requires IsRound(r, a, b) && Ready(r.nets[0], a, b, c) && 0 < k <= |r.steps|
    ensures var n := |r.nets[0].nodes[b].chain|;
            && Parties(r.nets[k], a, b, c, {a})
            && |r.nets[k].nodes[b].chain| <= Min(|c|, n + PAGE_LIMIT)
            && (Settled(r.nets[k], b) ==>
                  r.nets[k].nodes[b].chain == c[..Min(|c|, n + PAGE_LIMIT)] && Ready(r.nets[k], a, b, c))
  {
    var hi := Min(|c|, |r.nets[0].nodes[b].chain| + PAGE_LIMIT);
    assert IsNetStep(r.nets, r.steps, 0);
    AskStartsExchange(r.nets[0], a, b, c);
    RunKeepsExchange(r, 1, k, a, b, c, {a}, hi);
    if Settled(r.nets[k], b) {
      SettledIsDone(r.nets[k], a, b, c, {a}, hi);
    }
  }

  /** Rounds one after the other, each starting when the one before has settled. */
  predicate AreRounds(rounds: seq<NetRun>, a: nat, b: nat) {
    && (forall i :: 0 <= i < |rounds| ==> IsRound(rounds[i], a, b) && Settled(End(rounds[i]), b))
    && (forall i :: 0 < i < |rounds| ==> rounds[i].nets[0] == End(rounds[i - 1]))
  }

  /** Sync convergence: after `k` rounds `b` has exactly the next `min(500 k, gap)` blocks. */
  lemma {:induction false} SyncRounds(rounds: seq<NetRun>, a: nat, b: nat, c: Chain, k: nat)
    requires AreRounds(rounds, a, b) && 0 < k <= |rounds| && Ready(rounds[0].nets[0], a, b, c)
    ensures var end := End(rounds[k - 1]);
            && Ready(end, a, b, c)
            && end.nodes[b].chain == c[..Min(|c|, |rounds[0].nets[0].nodes[b].chain| + PAGE_LIMIT * k)]
  {
    if k > 1 {
      SyncRounds(rounds, a, b, c, k - 1);
    }
    SyncRound(rounds[k - 1], a, b, c, |rounds[k - 1].steps|);
  }

  /** In particular `ceil(gap / 500)` rounds make the chains equal. */
  lemma SyncConverges(rounds: seq<NetRun>, a: nat, b: nat, c: Chain)
    requires AreRounds(rounds, a, b) && rounds != [] && Ready(rounds[0].nets[0], a, b, c)
    requires |rounds| >= (|c| - |rounds[0].nets[0].nodes[b].chain| + PAGE_LIMIT - 1) / PAGE_LIMIT
    ensures var end := End(rounds[|rounds| - 1]);
            Ready(end, a, b, c) && end.nodes[a].chain == end.nodes[b].chain == c
  {
    var k, lo := |rounds|, |rounds[0].nets[0].nodes[b].chain|;
    SyncRounds(rounds, a, b, c, k);
    assert lo + PAGE_LIMIT * k >= |c|;
    assert c[..|c|] == c;
  }

  // ----- RequestSync -----

  /** All is settled, and `b` and its peers, among them `a`, have first blocks of the chain of `a`. */
  predicate ReadyToAsk(net: Net, a: nat, b: nat, c: Chain, peers: set<nat>) {
    && Parties(net, a, b, c, peers) && Settled(net, b)
    && forall d :: 0 <= d < |net.nodes| ==> (d in peers <==> d in net.nodes[b].heights)
  }

  lemma MulticastBusy(src: nat, peers: set<nat>, n: nat, m: Message, x: nat, y: nat, have: Chain)
    requires !Idle(m, have)
    ensures Busy(Multicast(src, peers, n, m), x, y, have) == if Hears(src, peers, n, x, y) then [m] else []
  {
    MulticastOnLink(src, peers, n, m, x, y);
    KeepOne(m, have);
  }

  lemma RequestStartsExchange(net: Net, a: nat, b: nat, c: Chain, peers: set<nat>)
    requires ReadyToAsk(net, a, b, c, peers) && Enabled(net, AskAll(b))
    ensures Exchange(Apply(net, AskAll(b)), a, b, c, peers, Max(|net.nodes[b].chain|, Min(|c|, PAGE_LIMIT)))
  {
    var have, m := net.nodes[b].chain, GetBlocks("");
    var hi := Max(|have|, Min(|c|, PAGE_LIMIT));
    var sent := Multicast(b, net.nodes[b].heights.Keys, |net.nodes|, m);
    MulticastAsks(net, b, peers);
    AskedFlight(net.flight, sent, |net.nodes|, b, peers, have);
    forall d | d in peers
      ensures Served(Net(net.nodes, net.flight + sent), d, b, c, if d == a then hi else 0, hi)
    {
      MulticastBusy(b, net.nodes[b].heights.Keys, |net.nodes|, m, b, d, have);
      MulticastBusy(b, net.nodes[b].heights.Keys, |net.nodes|, m, d, b, have);
      AskServed(net, sent, b, d, c, "", if d == a then hi else 0, hi);
    }
  }

  lemma MulticastAsks(net: Net, b: nat, peers: set<nat>)
    requires b < |net.nodes| && forall d :: 0 <= d < |net.nodes| ==> (d in peers <==> d in net.nodes[b].heights)
    ensures Traffic(Multicast(b, net.nodes[b].heights.Keys, |net.nodes|, GetBlocks("")), |net.nodes|, b, peers,
                    net.nodes[b].chain)
  {
    MulticastForm(b, net.nodes[b].heights.Keys, |net.nodes|, GetBlocks(""));
    MulticastToPeers(b, net.nodes[b].heights.Keys, |net.nodes|, GetBlocks(""));
  }

  /** RequestSync bound: it asks all peers from the front, so once everything has settled `b` has
      `max(|b|, min(500, |a|))` blocks and no more, however the answers of the peers overlap. */
  lemma RequestSyncBound(r: NetRun, a: nat, b: nat, c: Chain, peers: set<nat>, k: nat)
    requires IsLossless(r, 1) && r.steps[0] == AskAll(b) && 0 < k <= |r.steps|
    requires ReadyToAsk(r.nets[0], a, b, c, peers)
    ensures var hi := Max(|r.nets[0].nodes[b].chain|, Min(|c|, PAGE_LIMIT));
            && Parties(r.nets[k], a, b, c, peers) && |r.nets[k].nodes[b].chain| <= hi
            && (Settled(r.nets[k], b) ==> r.nets[k].nodes[b].chain == c[..hi])
  {
    var hi := Max(|r.nets[0].nodes[b].chain|, Min(|c|, PAGE_LIMIT));
    assert IsNetStep(r.nets, r.steps, 0);
    RequestStartsExchange(r.nets[0], a, b, c, peers);
    RunKeepsExchange(r, 1, k, a, b, c, peers, hi);
    if Settled(r.nets[k], b) {
      SettledIsDone(r.nets[k], a, b, c, peers, hi);
    }
  }

  // ----- Exchanges end -----

  lemma FlightCanMove(net: Net, b: nat, peers: set<nat>, have: Chain) returns (s: Step)
    requires AllValid(net) && Traffic(net.flight, |net.nodes|, b, peers, have) && net.flight != []
    ensures Enabled(net, s) && s.Deliver? && Lossless(net, s)
  {
    var p := net.flight[0];
    assert Harmless(p, |net.nodes|, b, peers, have);
    assert ValidChain(net.nodes[p.dst].chain, net.nodes[p.dst].clock);
    s := Deliver(0, net.nodes[p.dst].clock, net.nodes[p.dst].clock);
  }

  /** Whatever has happened in an exchange so far, it can go on losslessly, and then it falls silent after
      a bounded number of deliveries with the blocks promised. */
  lemma {:induction false} ExchangeFallsSilent(net: Net, a: nat, b: nat, c: Chain, peers: set<nat>, hi: nat, top: nat)
    returns (r: NetRun)
    requires Exchange(net, a, b, c, peers, hi) && Bounded(net, top)
    ensures IsLossless(r, 0) && r.nets[0] == net && End(r).flight == []
    ensures |r.steps| <= Potential(net, top)
    ensures b < |End(r).nodes| && End(r).nodes[b].chain == c[..hi]
    decreases Potential(net, top)
  {
    PotentialIsNatural(net, top);
    if net.flight == [] {
      r := NetRun([net], []);
      SettledIsDone(net, a, b, c, peers, hi);
    } else {
      var s := FlightCanMove(net, b, peers, net.nodes[b].chain);
      var next := Apply(net, s);
      StepKeepsExchange(net, s, a, b, c, peers, hi);
      StepKeepsBounded(net, s, top);
      StepLowersPotential(net, s, top);
      PotentialIsNatural(next, top);
      var rest := ExchangeFallsSilent(next, a, b, c, peers, hi, top);
      r := NetRun([net] + rest.nets, [s] + rest.steps);
      StepInFront(net, s, rest);
    }
  }

  lemma StepInFront(net: Net, s: Step, rest: NetRun)
    requires Enabled(net, s) && Lossless(net, s) && IsLossless(rest, 0) && rest.nets[0] == Apply(net, s)
    ensures IsLossless(NetRun([net] + rest.nets, [s] + rest.steps), 0)
  {
    RunPreceded(rest.nets, rest.steps, s, net);
  }
}
