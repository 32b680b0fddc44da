/** The handshake of two peers: when connecting makes the one that is behind catch up, exactly
    (internal/p2p/server.go). */
module Handshake {
  import opened Chains
  import opened Protocol
  import opened Network
  import opened Quiescence
  import opened Links
  import opened Exchanges
  import opened Sync

  // ----- How far a handshake has come -----

  /** Of the versions of `a` and `b` and the acknowledgements they send in answer: 0 stands for not sent
      yet, 1 for under way, 2 for handled. `first` is false once `a` has handled the version of `b` before
      it has sent its own. */
  datatype Phase = Phase(versionA: nat, versionB: nat, ackA: nat, ackB: nat, first: bool)

  predicate Sensible(p: Phase) {
    && p.versionA <= 2 && p.versionB <= 2 && p.ackA <= 2 && p.ackB <= 2
    && (p.ackA >= 1 <==> p.versionB == 2) && (p.ackB >= 1 <==> p.versionA == 2)
    && (p.versionB <= 1 ==> p.first) && (p.versionA == 0 && p.versionB == 2 ==> !p.first)
    && (p.first && p.ackA == 2 ==> p.versionA == 2) && (!p.first && p.versionA == 2 ==> p.ackA == 2)
  }

  function When(cond: bool, m: Message): seq<Message> {
    if cond then [m] else []
  }

  /** `b` has had reason to ask: it knew the height of `a` when it handled the acknowledgement. */
  predicate Asks(p: Phase, have: Chain, c: Chain) {
    p.ackA == 2 && p.first && |have| < |c|
  }

  /** What may be under way from `b` to `a`. */
  predicate IsUp(up: seq<Message>, p: Phase, have: Chain, c: Chain)
    requires have != []
  {
    var v := Version(|have|);
    if p.versionB == 1 && p.ackB == 1 then up == [v, VerAck] || up == [VerAck, v]
    else up == When(p.versionB == 1, v) + When(p.ackB == 1, VerAck)
               + When(Asks(p, have, c), GetBlocks(Last(have).hash))
  }

  /** And from `a` to `b`. */
  predicate IsDown(down: seq<Message>, p: Phase, c: Chain) {
    var v := Version(|c|);
    if p.versionA == 1 && p.ackA == 1 then down == if p.first then [v, VerAck] else [VerAck, v]
    else down == When(p.versionA == 1, v) + When(p.ackA == 1, VerAck)
  }

  predicate Heights(net: Net, a: nat, b: nat, c: Chain, p: Phase)
    requires a < |net.nodes| && b < |net.nodes|
  {
    && a in net.nodes[b].heights && b in net.nodes[a].heights
    && net.nodes[b].heights[a] == (if p.versionA == 2 then |c| else 0)
    && net.nodes[a].heights[b] == if p.versionB == 2 then |net.nodes[b].chain| else 0
  }

  predicate Greeting(net: Net, a: nat, b: nat, c: Chain, p: Phase) {
    && Parties(net, a, b, c, {a}) && Sensible(p)
    && Traffic(net.flight, |net.nodes|, b, {a}, net.nodes[b].chain)
    && Heights(net, a, b, c, p)
    && var have := net.nodes[b].chain;
       IsUp(Busy(net.flight, b, a, have), p, have, c) && IsDown(Busy(net.flight, a, b, have), p, c)
  }

  // ----- A message of the handshake is handled -----

  /** `a` has handled the version of `b`. */
  function HeardA(p: Phase): Phase {
    p.(versionB := 2, ackA := 1, first := p.first && p.versionA > 0)
  }

  /** `b` has handled the version of `a`. */
  function HeardB(p: Phase): Phase {
    p.(versionA := 2, ackB := 1)
  }

  /** The message that leaves the link, and what stays of it. */
  lemma UpHandled(p: Phase, have: Chain, c: Chain, m: Message, rest: seq<Message>)
    requires Sensible(p) && have != [] && IsUp([m] + rest, p, have, c) && !(Asks(p, have, c) && p.ackB == 2)
    ensures (m == Version(|have|) && p.versionB == 1 && p.ackA == 0 && IsUp(rest, HeardA(p), have, c))
         || (m == VerAck && p.ackB == 1 && IsUp(rest, p.(ackB := 2), have, c))
  {
    var up := [m] + rest;
    assert up[0] == m && up[1..] == rest;
  }

  lemma DownHandled(p: Phase, c: Chain, m: Message, rest: seq<Message>)
    requires Sensible(p) && IsDown([m] + rest, p, c)
    ensures (m == Version(|c|) && p.versionA == 1 && p.ackB == 0 && IsDown(rest, HeardB(p), c))
         || (m == VerAck && p.ackA == 1 && IsDown(rest, p.(ackA := 2), c))
  {
    var down := [m] + rest;
    assert down[0] == m && down[1..] == rest;
  }

  lemma DownAcknowledged(down: seq<Message>, p: Phase, c: Chain)
    requires Sensible(p) && IsDown(down, p, c) && p.versionB == 1
    ensures Sensible(HeardA(p)) && IsDown(down + [VerAck], HeardA(p), c)
  {
  }

  lemma UpAcknowledged(up: seq<Message>, p: Phase, have: Chain, c: Chain)
    requires Sensible(p) && have != [] && IsUp(up, p, have, c) && p.versionA == 1
    requires p.first || p.ackA != 1
    ensures Sensible(HeardB(p)) && IsUp(up + [VerAck], HeardB(p), have, c)
  {
  }

  /** `b` handles the acknowledgement, and asks if it knows that `a` has more. */
  lemma UpAsked(up: seq<Message>, p: Phase, have: Chain, c: Chain)
    requires Sensible(p) && have != [] && IsUp(up, p, have, c) && p.ackA == 1
    requires p.first ==> p.versionA == 2
    ensures Sensible(p.(ackA := 2))
    ensures IsUp(up + When(p.versionA == 2 && |have| < |c|, GetBlocks(Last(have).hash)), p.(ackA := 2), have, c)
  {
  }

  /** A message of the handshake is delivered: only a height changes. */
  lemma HelloDelivered(net: Net, s: Step)
    requires Enabled(net, s) && s.Deliver?
    requires net.flight[s.i].message.Version? || net.flight[s.i].message.VerAck?
    ensures var p := net.flight[s.i];
            var n := net.nodes[p.dst];
            Apply(net, s) == Net(net.nodes[p.dst := Learn(n, p.src, p.message)],
                                 Without(net.flight, s.i) + Replies(p.dst, p.src, Reply(n, p.src, p.message)))
  {
    var p := net.flight[s.i];
    var n := net.nodes[p.dst];
    var r := Replies(p.dst, p.src, Reply(n, p.src, p.message));
    assert Receive(n, p.src, p.message, s.now, s.mark)
        == Effect(Learn(n, p.src, p.message), [], Reply(n, p.src, p.message));
    assert [] + r == r;
  }

  /** Heights are of no account to anything but the handshake. */
  lemma PartiesLearn(net: Net, after: Net, y: nat, from: nat, m: Message, a: nat, b: nat, c: Chain, peers: set<nat>)
    requires Parties(net, a, b, c, peers) && y < |net.nodes|
    requires after.nodes == net.nodes[y := Learn(net.nodes[y], from, m)]
    ensures Parties(after, a, b, c, peers) && after.nodes[b].chain == net.nodes[b].chain
  {
  }

  lemma KeepReplies(n: Node, from: nat, have: Chain)
    requires n.chain != [] && from in n.heights
    ensures Keep([VerAck], have) == [VerAck]
    ensures Keep(VerAckReply(n, from), have)
         == When(|n.chain| < n.heights[from], GetBlocks(Last(n.chain).hash))
  {
    var ask := AskFor(n, from);
    KeepOne(VerAck, have);
    KeepOne(GetPeers, have);
    KeepOne(GetBlocks(Last(n.chain).hash), have);
    KeepConcat(ask, [GetPeers], have);
    assert Keep([], have) == [];
  }

  /** A message from `b` is handled by `a`, whose node is `n`. */
  lemma UpLink(flight: seq<Packet>, i: nat, n: Node, a: nat, b: nat, c: Chain, p: Phase, have: Chain) returns (q: Phase)
    requires IsFirst(flight, i) && flight[i].src == b && flight[i].dst == a && a != b && !Idle(flight[i].message, have)
    requires have != [] && Sensible(p) && !(Asks(p, have, c) && p.ackB == 2)
    requires IsUp(Busy(flight, b, a, have), p, have, c) && IsDown(Busy(flight, a, b, have), p, c)
    requires n.chain != [] && b in n.heights && n.heights[b] <= |n.chain|
    ensures flight[i].message == Version(|have|) || flight[i].message == VerAck
    ensures q == if flight[i].message.Version? then HeardA(p) else p.(ackB := 2)
    ensures if flight[i].message.Version? then p.versionB == 1 else p.ackB == 1
    ensures Sensible(q)
    ensures var after := Without(flight, i) + Replies(a, b, Reply(n, b, flight[i].message));
            IsUp(Busy(after, b, a, have), q, have, c) && IsDown(Busy(after, a, b, have), q, c)
  {
    var m, down := flight[i].message, Busy(flight, a, b, have);
    FirstRemoved(flight, i, have);
    UpHandled(p, have, c, m, Busy(Without(flight, i), b, a, have));
    Answered(flight, i, Reply(n, b, m), have, b, a);
    Answered(flight, i, Reply(n, b, m), have, a, b);
    KeepReplies(n, b, have);
    if m.Version? {
      q := HeardA(p);
      DownAcknowledged(down, p, c);
    } else {
      q := p.(ackB := 2);
      assert down + [] == down;
    }
  }

  /** A message from `a` is handled by `b`, whose node is `n`. */
  lemma DownLink(flight: seq<Packet>, i: nat, n: Node, a: nat, b: nat, c: Chain, p: Phase) returns (q: Phase)
    requires IsFirst(flight, i) && flight[i].src == a && flight[i].dst == b && a != b
    requires !Idle(flight[i].message, n.chain) && n.chain != [] && Sensible(p)
    requires IsUp(Busy(flight, b, a, n.chain), p, n.chain, c) && IsDown(Busy(flight, a, b, n.chain), p, c)
    requires a in n.heights && n.heights[a] == if p.versionA == 2 then |c| else 0
    ensures flight[i].message == Version(|c|) || flight[i].message == VerAck
    ensures q == if flight[i].message.Version? then HeardB(p) else p.(ackA := 2)
    ensures if flight[i].message.Version? then p.versionA == 1 else p.ackA == 1
    ensures Sensible(q)
    ensures var after := Without(flight, i) + Replies(b, a, Reply(n, a, flight[i].message));
            IsUp(Busy(after, b, a, n.chain), q, n.chain, c) && IsDown(Busy(after, a, b, n.chain), q, c)
  {
    var m, up := flight[i].message, Busy(flight, b, a, n.chain);
    FirstRemoved(flight, i, n.chain);
    var rest := Busy(Without(flight, i), a, b, n.chain);
    DownHandled(p, c, m, rest);
    FirstOfBoth(p, c, m, rest);
    Answered(flight, i, Reply(n, a, m), n.chain, b, a);
    Answered(flight, i, Reply(n, a, m), n.chain, a, b);
    KeepReplies(n, a, n.chain);
    if m.Version? {
      q := HeardB(p);
      UpAcknowledged(up, p, n.chain, c);
    } else {
      q := p.(ackA := 2);
      UpAsked(up, p, n.chain, c);
    }
  }

  /** The order in which `a` has sent its two messages is the order in which `b` handles them. */
  lemma FirstOfBoth(p: Phase, c: Chain, m: Message, rest: seq<Message>)
    requires Sensible(p) && IsDown([m] + rest, p, c)
    ensures m.Version? ==> p.first || p.ackA != 1
    ensures m == VerAck && p.first ==> p.versionA == 2
  {
    assert ([m] + rest)[0] == m;
  }

  lemma UpDelivered(net: Net, s: Step, a: nat, b: nat, c: Chain, p: Phase) returns (q: Phase)
    requires Enabled(net, s) && s.Deliver? && IsFirst(net.flight, s.i) && Greeting(net, a, b, c, p)
    requires net.flight[s.i].src == b && net.flight[s.i].dst == a
    requires !Idle(net.flight[s.i].message, net.nodes[b].chain)
    requires !(Asks(p, net.nodes[b].chain, c) && p.ackB == 2)
    ensures Greeting(Apply(net, s), a, b, c, q) && Apply(net, s).nodes[b].chain == net.nodes[b].chain
    ensures q == if net.flight[s.i].message.Version? then HeardA(p) else p.(ackB := 2)
    ensures net.flight[s.i].message.Version? ==> p.versionB == 1
  {
    var m, have := net.flight[s.i].message, net.nodes[b].chain;
    q := UpLink(net.flight, s.i, net.nodes[a], a, b, c, p, have);
    HelloDelivered(net, s);
    TrafficAfterAnswer(net.flight, s.i, Reply(net.nodes[a], b, m), |net.nodes|, b, {a}, have);
    PartiesLearn(net, Apply(net, s), a, b, m, a, b, c, {a});
  }

  lemma DownDelivered(net: Net, s: Step, a: nat, b: nat, c: Chain, p: Phase) returns (q: Phase)
    requires Enabled(net, s) && s.Deliver? && IsFirst(net.flight, s.i) && Greeting(net, a, b, c, p)
    requires net.flight[s.i].src == a && net.flight[s.i].dst == b
    requires !Idle(net.flight[s.i].message, net.nodes[b].chain)
    ensures Greeting(Apply(net, s), a, b, c, q) && Apply(net, s).nodes[b].chain == net.nodes[b].chain
    ensures q == if net.flight[s.i].message.Version? then HeardB(p) else p.(ackA := 2)
    ensures net.flight[s.i].message.Version? ==> p.versionA == 1
  {
    var m := net.flight[s.i].message;
    q := DownLink(net.flight, s.i, net.nodes[b], a, b, c, p);
    HelloDelivered(net, s);
    TrafficAfterAnswer(net.flight, s.i, Reply(net.nodes[b], a, m), |net.nodes|, b, {a}, net.nodes[b].chain);
    PartiesLearn(net, Apply(net, s), b, a, m, a, b, c, {a});
  }

  // ----- Other steps -----

  lemma HeightsKept(net: Net, s: Step, b: nat, n: nat)
    requires IdleDelivery(net, s, b) && n < |net.nodes|
    ensures |Apply(net, s).nodes| == |net.nodes| && Apply(net, s).nodes[n].heights == net.nodes[n].heights
  {
    StepIsEvent(net, s);
    var p := net.flight[s.i];
    ReceiveKeepsHeights(net.nodes[p.dst], p.src, p.message, s.now, s.mark);
  }

  lemma ReceiveKeepsHeights(n: Node, from: nat, m: Message, now: int, mark: int)
    requires n.chain != [] && !m.Version?
    ensures Receive(n, from, m, now, mark).node.heights == n.heights
  {
  }

  lemma IdleKeepsGreeting(net: Net, s: Step, a: nat, b: nat, c: Chain, p: Phase)
    requires IdleDelivery(net, s, b) && Greeting(net, a, b, c, p)
    ensures Greeting(Apply(net, s), a, b, c, p) && Apply(net, s).nodes[b].chain == net.nodes[b].chain
  {
    IdleParties(net, s, a, b, c, {a});
    IdleTraffic(net, s, b, {a}, b, a);
    IdleTraffic(net, s, b, {a}, a, b);
    HeightsKept(net, s, b, a);
    HeightsKept(net, s, b, b);
  }

  lemma TidyKeepsGreeting(net: Net, s: Step, a: nat, b: nat, c: Chain, p: Phase)
    requires Enabled(net, s) && s.Tidy? && Greeting(net, a, b, c, p)
    ensures Greeting(Apply(net, s), a, b, c, p) && Apply(net, s).nodes[b].chain == net.nodes[b].chain
  {
    TidyForm(net, s);
    StepKeepsAllValid(net, s);
    TidiedGreeting(net, Apply(net, s), a, b, c, p);
  }

  lemma TidiedGreeting(net: Net, after: Net, a: nat, b: nat, c: Chain, p: Phase)
    requires Greeting(net, a, b, c, p) && AllValid(after)
    requires |after.nodes| == |net.nodes| && after.flight == net.flight
    requires forall n :: 0 <= n < |net.nodes| ==> IsTidied(net.nodes[n], after.nodes[n])
    ensures Greeting(after, a, b, c, p) && after.nodes[b].chain == net.nodes[b].chain
  {
  }

  /** One of the two sends its version. */
  lemma Greeted(net: Net, x: nat, y: nat, a: nat, b: nat, c: Chain, p: Phase) returns (q: Phase)
    requires Greeting(net, a, b, c, p)
    requires (x == a && y == b && p.versionA == 0) || (x == b && y == a && p.versionB == 0)
    ensures q == if x == a then p.(versionA := 1) else p.(versionB := 1)
    ensures Greeting(Net(net.nodes, net.flight + [Packet(x, y, Version(|net.nodes[x].chain|))]), a, b, c, q)
  {
    var have := net.nodes[b].chain;
    var v := Packet(x, y, Version(|net.nodes[x].chain|));
    q := if x == a then p.(versionA := 1) else p.(versionB := 1);
    VersionUnderWay(net.flight, v, a, b, have, c, p, q);
    OneMoreAsked(net.flight, v, |net.nodes|, b, {a}, have);
  }

  lemma VersionUnderWay(flight: seq<Packet>, v: Packet, a: nat, b: nat, have: Chain, c: Chain, p: Phase, q: Phase)
    requires a != b && have != [] && Sensible(p)
    requires IsUp(Busy(flight, b, a, have), p, have, c) && IsDown(Busy(flight, a, b, have), p, c)
    requires (v == Packet(a, b, Version(|c|)) && p.versionA == 0 && q == p.(versionA := 1))
          || (v == Packet(b, a, Version(|have|)) && p.versionB == 0 && q == p.(versionB := 1))
    ensures Sensible(q)
    ensures IsUp(Busy(flight + [v], b, a, have), q, have, c) && IsDown(Busy(flight + [v], a, b, have), q, c)
  {
    OneMoreBusy(flight, v, a, b, have);
    OneMoreBusy(flight, v, b, a, have);
    GreetedLinks(Busy(flight, b, a, have), Busy(flight, a, b, have), have, c, p);
  }

  lemma OneMoreBusy(flight: seq<Packet>, p: Packet, x: nat, y: nat, have: Chain)
    ensures Busy(flight + [p], x, y, have)
         == if Irrelevant(p, x, y, have) then Busy(flight, x, y, have) else Busy(flight, x, y, have) + [p.message]
  {
    BusyConcat(flight, [p], x, y, have);
    OneBusy(p, x, y, have);
    assert Busy(flight, x, y, have) + [] == Busy(flight, x, y, have);
  }

  lemma GreetedLinks(up: seq<Message>, down: seq<Message>, have: Chain, c: Chain, p: Phase)
    requires Sensible(p) && have != [] && IsUp(up, p, have, c) && IsDown(down, p, c)
    ensures p.versionA == 0 ==>
              var q := p.(versionA := 1);
              Sensible(q) && IsUp(up, q, have, c) && IsDown(down + [Version(|c|)], q, c)
    ensures p.versionB == 0 ==>
              var q := p.(versionB := 1);
              Sensible(q) && IsUp(up + [Version(|have|)], q, have, c) && IsDown(down, q, c)
  {
  }

  lemma OneMoreAsked(flight: seq<Packet>, p: Packet, size: nat, b: nat, peers: set<nat>, have: Chain)
    requires Traffic(flight, size, b, peers, have) && Harmless(p, size, b, peers, have)
    ensures Traffic(flight + [p], size, b, peers, have)
  {
    forall i | 0 <= i < |flight| + 1
      ensures Harmless((flight + [p])[i], size, b, peers, have)
    {
      assert i < |flight| ==> Harmless(flight[i], size, b, peers, have);
    }
  }

  // ----- Whole runs -----

  /** Still greeting each other, or exchanging blocks because `a` greeted first. */
  datatype Progress = Hello(phase: Phase) | Trading

  predicate Connecting(net: Net, a: nat, b: nat, c: Chain, lo: nat, g: Progress) {
    match g
    case Hello(p) =>
      && Greeting(net, a, b, c, p) && |net.nodes[b].chain| == lo
      && !(Asks(p, net.nodes[b].chain, c) && p.ackB == 2)
    case Trading => lo < |c| && Exchange(net, a, b, c, {a}, Min(|c|, lo + PAGE_LIMIT))
  }

  function GreetedA(g: Progress): bool {
    g.Trading? || g.phase.versionA > 0
  }

  function GreetedB(g: Progress): bool {
    g.Trading? || g.phase.versionB > 0
  }

  function First(g: Progress): bool {
    g.Trading? || g.phase.first
  }

  /** The step delivers the version of `b` to `a`. */
  predicate HearsVersion(net: Net, s: Step, a: nat, b: nat) {
    s.Deliver? && s.i < |net.flight|
    && var p := net.flight[s.i]; p.src == b && p.dst == a && p.message.Version?
  }

  /** The handshake is over: `b` has asked for blocks. */
  lemma GreetingStartsExchange(net: Net, a: nat, b: nat, c: Chain, p: Phase)
    requires Greeting(net, a, b, c, p) && Asks(p, net.nodes[b].chain, c) && p.ackB == 2
    ensures Exchange(net, a, b, c, {a}, Min(|c|, |net.nodes[b].chain| + PAGE_LIMIT))
  {
    var have := net.nodes[b].chain;
    TipFeeds(have, c);
    assert Busy(net.flight, b, a, have) == [GetBlocks(Last(have).hash)] && Busy(net.flight, a, b, have) == [];
  }

  lemma TipFeeds(have: Chain, c: Chain)
    requires have != [] && have <= c && Linked(c) && DistinctHashes(c)
    ensures have == c[..|have|]
    ensures var e := Min(|c|, |have| + PAGE_LIMIT);
            Feeds(Keep(Brings(GetBlocks(Last(have).hash), c), c[..|have|]), c, |have|, e, e)
  {
    assert Last(have) == c[|have| - 1];
    PageStartAfter(c, |have|);
    PageFeeds(c, c, Last(have).hash, |have|);
  }

  /** Whichever message is delivered next, and whichever of the two sends its version next, the handshake
      moves on; all that matters is whether `a` handles the version of `b` before it has sent its own. */
  lemma GreetingStep(net: Net, s: Step, a: nat, b: nat, c: Chain, p: Phase) returns (q: Phase)
    requires Enabled(net, s) && Greeting(net, a, b, c, p) && !(Asks(p, net.nodes[b].chain, c) && p.ackB == 2)
    requires Lossless(net, s) || (s == Greet(a, b) && p.versionA == 0) || (s == Greet(b, a) && p.versionB == 0)
    ensures Greeting(Apply(net, s), a, b, c, q) && Apply(net, s).nodes[b].chain == net.nodes[b].chain
    ensures q.versionA > 0 <==> p.versionA > 0 || s == Greet(a, b)
    ensures q.versionB > 0 <==> p.versionB > 0 || s == Greet(b, a)
    ensures q.first <==> p.first && !(HearsVersion(net, s, a, b) && p.versionA == 0)
  {
    if s.Greet? {
      q := Greeted(net, s.n, s.to, a, b, c, p);
    } else if s.Tidy? {
      q := p;
      TidyKeepsGreeting(net, s, a, b, c, p);
    } else {
      q := GreetingDelivery(net, s, a, b, c, p);
    }
  }

  lemma GreetingDelivery(net: Net, s: Step, a: nat, b: nat, c: Chain, p: Phase) returns (q: Phase)
    requires Enabled(net, s) && Greeting(net, a, b, c, p) && !(Asks(p, net.nodes[b].chain, c) && p.ackB == 2)
    requires s.Deliver? && Lossless(net, s)
    ensures Greeting(Apply(net, s), a, b, c, q) && Apply(net, s).nodes[b].chain == net.nodes[b].chain
    ensures q.versionA > 0 <==> p.versionA > 0
    ensures q.versionB > 0 <==> p.versionB > 0
    ensures q.first <==> p.first && !(HearsVersion(net, s, a, b) && p.versionA == 0)
  {
    if Idle(net.flight[s.i].message, net.nodes[b].chain) {
      q := p;
      IdleKeepsGreeting(net, s, a, b, c, p);
    } else {
      assert Harmless(net.flight[s.i], |net.nodes|, b, {a}, net.nodes[b].chain);
      if net.flight[s.i].src == b {
        q := UpDelivered(net, s, a, b, c, p);
      } else {
        q := DownDelivered(net, s, a, b, c, p);
      }
    }
  }

  lemma ConnectingStep(net: Net, s: Step, a: nat, b: nat, c: Chain, lo: nat, g: Progress) returns (h: Progress)
    requires Enabled(net, s) && Connecting(net, a, b, c, lo, g)
    requires Lossless(net, s) || (s == Greet(a, b) && !GreetedA(g)) || (s == Greet(b, a) && !GreetedB(g))
    ensures Connecting(Apply(net, s), a, b, c, lo, h)
    ensures GreetedA(h) <==> GreetedA(g) || s == Greet(a, b)
    ensures GreetedB(h) <==> GreetedB(g) || s == Greet(b, a)
    ensures First(h) <==> First(g) && !(HearsVersion(net, s, a, b) && !GreetedA(g))
  {
    if g.Trading? {
      StepKeepsExchange(net, s, a, b, c, {a}, Min(|c|, lo + PAGE_LIMIT));
      h := g;
    } else {
      var q := GreetingStep(net, s, a, b, c, g.phase);
      h := HelloOrTrading(Apply(net, s), a, b, c, lo, q);
    }
  }

  lemma ConnectingMove(net: Net, s: Step, after: Net, a: nat, b: nat, c: Chain, lo: nat, g: Progress)
    returns (h: Progress)
    requires Move()(net, s, after) && Connecting(net, a, b, c, lo, g)
    requires Lossless(net, s) || (s == Greet(a, b) && !GreetedA(g)) || (s == Greet(b, a) && !GreetedB(g))
    ensures Connecting(after, a, b, c, lo, h)
    ensures GreetedA(h) <==> GreetedA(g) || s == Greet(a, b)
    ensures GreetedB(h) <==> GreetedB(g) || s == Greet(b, a)
    ensures First(h) <==> First(g) && !(HearsVersion(net, s, a, b) && !GreetedA(g))
  {
    h := ConnectingStep(net, s, a, b, c, lo, g);
  }

  lemma HelloOrTrading(net: Net, a: nat, b: nat, c: Chain, lo: nat, q: Phase) returns (h: Progress)
    requires Greeting(net, a, b, c, q) && |net.nodes[b].chain| == lo
    ensures Connecting(net, a, b, c, lo, h)
    ensures GreetedA(h) == (q.versionA > 0) && GreetedB(h) == (q.versionB > 0) && First(h) == q.first
  {
    if Asks(q, net.nodes[b].chain, c) && q.ackB == 2 {
      GreetingStartsExchange(net, a, b, c, q);
      h := Trading;
    } else {
      h := Hello(q);
    }
  }

  /** `a` and `b` connect: each sends its version once, at steps `i` and `j`; all other steps are lossless. */
  predicate IsHandshake(r: NetRun, a: nat, b: nat, i: nat, j: nat) {
    && IsNetRun(r.nets, r.steps) && i < |r.steps| && j < |r.steps|
    && r.steps[i] == Greet(a, b) && r.steps[j] == Greet(b, a)
    && forall k :: 0 <= k < |r.steps| && k != i && k != j ==> Lossless(r.nets[k], r.steps[k])
  }

  /** Of the first `k` steps before step `i`, at which `a` sends its version, none delivers that of `b`. */
  predicate GreetsFirst(r: NetRun, a: nat, b: nat, i: nat, k: nat)
    requires |r.nets| == |r.steps| + 1 && k <= |r.steps|
  {
    forall h :: 0 <= h < k && h < i ==> !HearsVersion(r.nets[h], r.steps[h], a, b)
  }

  /** Both nodes have just met: they know no heights of each other, and nothing is under way that matters. */
  predicate Met(net: Net, a: nat, b: nat, c: Chain) {
    && Ready(net, a, b, c)
    && b in net.nodes[a].heights && net.nodes[a].heights[b] == 0
    && a in net.nodes[b].heights && net.nodes[b].heights[a] == 0
  }

  lemma MetIsGreeting(net: Net, a: nat, b: nat, c: Chain)
    requires Met(net, a, b, c)
    ensures Greeting(net, a, b, c, Phase(0, 0, 0, 0, true))
  {
    SettledIsSilent(net, b, a, b);
    SettledIsSilent(net, b, b, a);
    AskedFlight(net.flight, [], |net.nodes|, b, {a}, net.nodes[b].chain);
    assert net.flight + [] == net.flight;
  }

  lemma HandshakeMove(r: NetRun, a: nat, b: nat, i: nat, j: nat, k: nat)
    requires IsHandshake(r, a, b, i, j) && k < |r.steps|
    ensures Move()(r.nets[k], r.steps[k], r.nets[k + 1])
    ensures (k == i && r.steps[k] == Greet(a, b)) || (k == j && r.steps[k] == Greet(b, a))
         || (k != i && k != j && Lossless(r.nets[k], r.steps[k]))
  {
    assert IsNetStep(r.nets, r.steps, k);
  }

  /** Where a handshake has come to after `k` steps. */
  predicate Reached(r: NetRun, a: nat, b: nat, c: Chain, lo: nat, i: nat, j: nat, k: nat, g: Progress)
    requires |r.nets| == |r.steps| + 1 && k <= |r.steps|
  {
    && Connecting(r.nets[k], a, b, c, lo, g)
    && (GreetedA(g) <==> i < k) && (GreetedB(g) <==> j < k) && (First(g) <==> GreetsFirst(r, a, b, i, k))
  }

  lemma GreetsFirstSoFar(r: NetRun, a: nat, b: nat, i: nat, k: nat)
    requires |r.nets| == |r.steps| + 1 && k < |r.steps|
    ensures GreetsFirst(r, a, b, i, k + 1)
       <==> GreetsFirst(r, a, b, i, k) && !(HearsVersion(r.nets[k], r.steps[k], a, b) && k < i)
  {
  }

  lemma OneStepFurther(r: NetRun, a: nat, b: nat, c: Chain, lo: nat, i: nat, j: nat, k: nat, f: Progress)
    returns (g: Progress)
    requires IsHandshake(r, a, b, i, j) && k < |r.steps| && Reached(r, a, b, c, lo, i, j, k, f) && a != b
    ensures Reached(r, a, b, c, lo, i, j, k + 1, g)
  {
    HandshakeMove(r, a, b, i, j, k);
    GreetsFirstSoFar(r, a, b, i, k);
    g := ConnectingMove(r.nets[k], r.steps[k], r.nets[k + 1], a, b, c, lo, f);
  }

  lemma {:induction false} HandshakeProgress(r: NetRun, a: nat, b: nat, c: Chain, i: nat, j: nat, k: nat)
    returns (g: Progress)
    requires IsHandshake(r, a, b, i, j) && Met(r.nets[0], a, b, c) && k <= |r.steps|
    ensures Reached(r, a, b, c, |r.nets[0].nodes[b].chain|, i, j, k, g)
  {
    if k == 0 {
      g := Hello(Phase(0, 0, 0, 0, true));
      MetIsGreeting(r.nets[0], a, b, c);
    } else {
      var f := HandshakeProgress(r, a, b, c, i, j, k - 1);
      g := OneStepFurther(r, a, b, c, |r.nets[0].nodes[b].chain|, i, j, k - 1, f);
    }
  }

  /** A settled handshake in which both have sent their versions: `b` has caught up or never asked. */
  lemma SettledConnecting(net: Net, a: nat, b: nat, c: Chain, lo: nat, g: Progress)
    requires Connecting(net, a, b, c, lo, g) && GreetedA(g) && GreetedB(g) && Settled(net, b)
    ensures net.nodes[b].chain == c[..if First(g) then Min(|c|, lo + PAGE_LIMIT) else lo]
  {
    if g.Trading? {
      SettledIsDone(net, a, b, c, {a}, Min(|c|, lo + PAGE_LIMIT));
    } else {
      SettledIsSilent(net, b, a, b);
      SettledIsSilent(net, b, b, a);
    }
  }

  lemma ConnectingIsPrefix(net: Net, a: nat, b: nat, c: Chain, lo: nat, g: Progress)
    requires Connecting(net, a, b, c, lo, g)
    ensures Parties(net, a, b, c, {a}) && net.nodes[b].chain <= c[..Min(|c|, lo + PAGE_LIMIT)]
  {
  }

  /** When connecting synchronises, exactly. Two peers send their versions, each at any time of a run that
      is lossless otherwise. Once everything has settled, the one that is behind has caught up by
      `min(500, gap)` blocks if the other one sent its version before it handled that of its peer; if not,
      it has not asked for anything, and has the chain it had. */
  lemma HandshakeSynchronises(r: NetRun, a: nat, b: nat, c: Chain, i: nat, j: nat, k: nat)
    requires IsHandshake(r, a, b, i, j) && Met(r.nets[0], a, b, c) && k <= |r.steps|
    ensures Parties(r.nets[k], a, b, c, {a})
    ensures var n, d := |r.nets[0].nodes[b].chain|, r.nets[k].nodes[b].chain;
            var caughtUp := c[..Min(|c|, n + PAGE_LIMIT)];
            && d <= caughtUp
            && (i < k && j < k && Settled(r.nets[k], b) ==>
                  && d == (if GreetsFirst(r, a, b, i, i) then caughtUp else c[..n])
                  && (n < |c| ==> (d == caughtUp <==> GreetsFirst(r, a, b, i, i))))
  {
    var n := |r.nets[0].nodes[b].chain|;
    var g := HandshakeProgress(r, a, b, c, i, j, k);
    ConnectingIsPrefix(r.nets[k], a, b, c, n, g);
    if i < k && j < k && Settled(r.nets[k], b) {
      assert First(g) <==> GreetsFirst(r, a, b, i, i);
      SettledConnecting(r.nets[k], a, b, c, n, g);
    }
  }

  // ----- Both outcomes happen -----

  /** A message of the handshake can be delivered, and then less is left to do. */
  lemma ConnectingGoesOn(net: Net, a: nat, b: nat, c: Chain, lo: nat, g: Progress, top: nat)
    returns (s: Step, after: Net, h: Progress)
    requires Connecting(net, a, b, c, lo, g) && Bounded(net, top) && net.flight != []
    ensures Enabled(net, s) && Lossless(net, s) && after == Apply(net, s)
    ensures Connecting(after, a, b, c, lo, h) && Bounded(after, top)
    ensures 0 <= Potential(after, top) < Potential(net, top)
  {
    ConnectingIsPrefix(net, a, b, c, lo, g);
    s := FlightCanMove(net, b, {a}, net.nodes[b].chain);
    after := Apply(net, s);
    h := ConnectingStep(net, s, a, b, c, lo, g);
    StepKeepsBounded(net, s, top);
    StepLowersPotential(net, s, top);
    PotentialIsNatural(after, top);
  }

  /** A handshake falls silent too: it can go on losslessly from any point, for a bounded number of steps. */
  lemma {:induction false} HandshakeFallsSilent(net: Net, a: nat, b: nat, c: Chain, lo: nat, g: Progress, top: nat)
    returns (r: NetRun)
    requires Connecting(net, a, b, c, lo, g) && Bounded(net, top)
    ensures IsLossless(r, 0) && r.nets[0] == net && End(r).flight == [] && |r.steps| <= Potential(net, top)
    decreases Potential(net, top)
  {
    PotentialIsNatural(net, top);
    if net.flight == [] {
      r := NetRun([net], []);
    } else {
      var s, after, h := ConnectingGoesOn(net, a, b, c, lo, g, top);
      var rest := HandshakeFallsSilent(after, a, b, c, lo, h, top);
      StepInFront(net, s, rest);
      r := NetRun([net] + rest.nets, [s] + rest.steps);
    }
  }

  lemma ThreeSteps(net: Net, a: nat, b: nat, c: Chain, s: Step, t: Step, u: Step) returns (g: Progress)
    requires Met(net, a, b, c) && s == Greet(b, a) && u == Greet(a, b)
    requires Enabled(net, s) && Enabled(Apply(net, s), t) && Enabled(Apply(Apply(net, s), t), u)
    requires Lossless(Apply(net, s), t)
    ensures Connecting(Apply(Apply(Apply(net, s), t), u), a, b, c, |net.nodes[b].chain|, g)
  {
    var one := Apply(net, s);
    var lo := |net.nodes[b].chain|;
    MetIsGreeting(net, a, b, c);
    g := ConnectingStep(net, s, a, b, c, lo, Hello(Phase(0, 0, 0, 0, true)));
    g := ConnectingStep(one, t, a, b, c, lo, g);
    g := ConnectingStep(Apply(one, t), u, a, b, c, lo, g);
  }

  lemma ThreeInFront(net: Net, s: Step, one: Net, t: Step, two: Net, u: Step, rest: NetRun) returns (r: NetRun)
    requires IsNetRun(rest.nets, rest.steps)
    requires Move()(net, s, one) && Move()(one, t, two) && Move()(two, u, rest.nets[0])
    ensures r.nets == [net] + ([one] + ([two] + rest.nets)) && r.steps == [s] + ([t] + ([u] + rest.steps))
    ensures IsNetRun(r.nets, r.steps)
  {
    r := InFront(two, u, rest);
    r := InFront(one, t, r);
    r := InFront(net, s, r);
  }

  lemma InFront(net: Net, s: Step, rest: NetRun) returns (r: NetRun)
    requires IsNetRun(rest.nets, rest.steps) && Move()(net, s, rest.nets[0])
    ensures r == NetRun([net] + rest.nets, [s] + rest.steps) && IsNetRun(r.nets, r.steps)
  {
    RunPreceded(rest.nets, rest.steps, s, net);
    r := NetRun([net] + rest.nets, [s] + rest.steps);
  }

  lemma ThreeBefore<T>(x: T, y: T, z: T, ts: seq<T>)
    ensures var q := [x] + ([y] + ([z] + ts));
            && |q| == |ts| + 3 && q[0] == x && q[1] == y && q[2] == z
            && forall k :: 3 <= k < |q| ==> q[k] == ts[k - 3]
  {
  }

  lemma Assembled(r: NetRun, rest: NetRun, a: nat, b: nat)
    requires IsNetRun(r.nets, r.steps) && IsLossless(rest, 0) && |r.steps| == |rest.steps| + 3
    requires r.steps[0] == Greet(b, a) && Lossless(r.nets[1], r.steps[1]) && r.steps[2] == Greet(a, b)
    requires forall k :: 3 <= k < |r.nets| ==> r.nets[k] == rest.nets[k - 3]
    requires forall k :: 3 <= k < |r.steps| ==> r.steps[k] == rest.steps[k - 3]
    ensures IsHandshake(r, a, b, 2, 0) && End(r) == End(rest)
  {
    forall k | 0 <= k < |r.steps| && k != 2 && k != 0
      ensures Lossless(r.nets[k], r.steps[k])
    {
      assert k > 2 ==> Lossless(rest.nets[k - 3], rest.steps[k - 3]);
    }
  }

  /** Continued losslessly until nothing is in flight, after three steps of which the first and the third
      are the two versions being sent. */
  lemma Finished(net: Net, a: nat, b: nat, c: Chain, s: Step, t: Step, u: Step) returns (r: NetRun)
    requires Met(net, a, b, c) && s == Greet(b, a) && u == Greet(a, b)
    requires Enabled(net, s) && Enabled(Apply(net, s), t) && Enabled(Apply(Apply(net, s), t), u)
    requires Lossless(Apply(net, s), t)
    ensures IsHandshake(r, a, b, 2, 0) && r.nets[0] == net && End(r).flight == []
    ensures r.nets[1] == Apply(net, s) && r.steps[1] == t
  {
    var g := ThreeSteps(net, a, b, c, s, t, u);
    r := FinishedFrom(net, s, Apply(net, s), t, Apply(Apply(net, s), t), u, Apply(Apply(Apply(net, s), t), u),
                      a, b, c, |net.nodes[b].chain|, g);
  }

  lemma SilentFrom(net: Net, a: nat, b: nat, c: Chain, lo: nat, g: Progress) returns (r: NetRun)
    requires Connecting(net, a, b, c, lo, g)
    ensures IsLossless(r, 0) && r.nets[0] == net && End(r).flight == []
  {
    ConnectingIsPrefix(net, a, b, c, lo, g);
    var top := EveryNetIsBounded(net);
    r := HandshakeFallsSilent(net, a, b, c, lo, g, top);
  }

  lemma FinishedFrom(net: Net, s: Step, one: Net, t: Step, two: Net, u: Step, three: Net,
                     a: nat, b: nat, c: Chain, lo: nat, g: Progress) returns (r: NetRun)
    requires Move()(net, s, one) && Move()(one, t, two) && Move()(two, u, three)
    requires s == Greet(b, a) && Lossless(one, t) && u == Greet(a, b) && Connecting(three, a, b, c, lo, g)
    ensures IsHandshake(r, a, b, 2, 0) && r.nets[0] == net && End(r).flight == []
    ensures r.nets[1] == one && r.steps[1] == t
  {
    var rest := SilentFrom(three, a, b, c, lo, g);
    r := ThreeInFront(net, s, one, t, two, u, rest);
    AssembledFrom(net, s, one, t, two, u, rest, r, a, b);
  }

  lemma AssembledFrom(net: Net, s: Step, one: Net, t: Step, two: Net, u: Step, rest: NetRun, r: NetRun,
                      a: nat, b: nat)
    requires r.nets == [net] + ([one] + ([two] + rest.nets)) && r.steps == [s] + ([t] + ([u] + rest.steps))
    requires IsNetRun(r.nets, r.steps) && IsLossless(rest, 0)
    requires s == Greet(b, a) && Lossless(one, t) && u == Greet(a, b)
    ensures IsHandshake(r, a, b, 2, 0) && End(r) == End(rest)
    ensures r.nets[0] == net && r.nets[1] == one && r.steps[1] == t
  {
    ThreeBefore(net, one, two, rest.nets);
    ThreeBefore(s, t, u, rest.steps);
    Assembled(r, rest, a, b);
  }

  lemma AcknowledgesFirst(net: Net, a: nat, b: nat, c: Chain)
    requires Met(net, a, b, c) && net.flight == []
    ensures var s, t := Greet(b, a), Deliver(0, net.nodes[a].clock, net.nodes[a].clock);
            && Enabled(net, s) && Enabled(Apply(net, s), t) && Enabled(Apply(Apply(net, s), t), Greet(a, b))
            && Lossless(Apply(net, s), t) && HearsVersion(Apply(net, s), t, a, b)
  {
    var s := Greet(b, a);
    assert Apply(net, s) == Net(net.nodes, [Packet(b, a, Version(|net.nodes[b].chain|))]);
  }

  /** Connecting does not always synchronise: whenever `b` is behind, there is a run in which `b` sends its
      version, `a` acknowledges it and only then sends its own, all messages arrive in order, and `b` ends
      with the chain it had, because it knew no height of `a` when the acknowledgement came. */
  lemma HandshakeCanFail(net: Net, a: nat, b: nat, c: Chain) returns (r: NetRun)
    requires Met(net, a, b, c) && net.flight == [] && |net.nodes[b].chain| < |c|
    ensures IsHandshake(r, a, b, 2, 0) && r.nets[0] == net && End(r).flight == []
    ensures a < |End(r).nodes| && b < |End(r).nodes|
    ensures End(r).nodes[b].chain == net.nodes[b].chain && End(r).nodes[a].chain == c
  {
    var s := Greet(b, a);
    var t := Deliver(0, net.nodes[a].clock, net.nodes[a].clock);
    AcknowledgesFirst(net, a, b, c);
    r := Finished(net, a, b, c, s, t, Greet(a, b));
    assert HearsVersion(r.nets[1], r.steps[1], a, b);
    HandshakeSynchronises(r, a, b, c, 2, 0, |r.steps|);
    assert net.nodes[b].chain == c[..|net.nodes[b].chain|];
  }
}
