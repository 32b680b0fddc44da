/** What is under way between two nodes that exchange blocks, and how far their exchange has come: from
    `getblocks` over `inv` and `getdata` to the blocks (internal/p2p/server.go). */
module Links {
  import opened Blocks
  import opened Chains
  import opened Protocol
  import opened Network

  // ----- Messages under way between two nodes -----

  /** A message that cannot bring anything to a node that has the blocks `have`, nor make anyone send such
      a message. */
  predicate Idle(m: Message, have: Chain) {
    && !m.Version? && !m.VerAck? && !m.GetBlocks? && !m.Inv? && !m.GetData? && !m.FindBlock?
    && CarriedIn(m, have)
  }

  function Keep(ms: seq<Message>, have: Chain): seq<Message> {
    if ms == [] then []
    else
      var n := |ms| - 1;
      Keep(ms[..n], have) + if Idle(ms[n], have) then [] else [ms[n]]
  }

  function OnLink(flight: seq<Packet>, x: nat, y: nat): seq<Message> {
    if flight == [] then []
    else
      var n := |flight| - 1;
      OnLink(flight[..n], x, y) + if flight[n].src == x && flight[n].dst == y then [flight[n].message] else []
  }

  /** What is under way from `x` to `y` and not idle, in order. */
  function Busy(flight: seq<Packet>, x: nat, y: nat, have: Chain): seq<Message> {
    Keep(OnLink(flight, x, y), have)
  }

  lemma {:induction false} KeepConcat(a: seq<Message>, b: seq<Message>, have: Chain)
    ensures Keep(a + b, have) == Keep(a, have) + Keep(b, have)
  {
    if b == [] {
      assert a + b == a;
    } else {
      var n := |b| - 1;
      KeepConcat(a, b[..n], have);
      assert (a + b)[..|a + b| - 1] == a + b[..n];
    }
  }

  lemma {:induction false} OnLinkConcat(a: seq<Packet>, b: seq<Packet>, x: nat, y: nat)
    ensures OnLink(a + b, x, y) == OnLink(a, x, y) + OnLink(b, x, y)
  {
    if b == [] {
      assert a + b == a;
    } else {
      var n := |b| - 1;
      OnLinkConcat(a, b[..n], x, y);
      assert (a + b)[..|a + b| - 1] == a + b[..n];
    }
  }

  lemma BusyConcat(a: seq<Packet>, b: seq<Packet>, x: nat, y: nat, have: Chain)
    ensures Busy(a + b, x, y, have) == Busy(a, x, y, have) + Busy(b, x, y, have)
  {
    OnLinkConcat(a, b, x, y);
    KeepConcat(OnLink(a, x, y), OnLink(b, x, y), have);
  }

  /** The packet is not under way from `x` to `y`, or it is idle. */
  predicate Irrelevant(p: Packet, x: nat, y: nat, have: Chain) {
    p.src == x && p.dst == y ==> Idle(p.message, have)
  }

  lemma {:induction false} NothingBusy(flight: seq<Packet>, x: nat, y: nat, have: Chain)
    requires forall i :: 0 <= i < |flight| ==> Irrelevant(flight[i], x, y, have)
    ensures Busy(flight, x, y, have) == []
  {
    if flight != [] {
      var n := |flight| - 1;
      NothingBusy(flight[..n], x, y, have);
      assert Irrelevant(flight[n], x, y, have);
      OneBusy(flight[n], x, y, have);
      BusyConcat(flight[..n], [flight[n]], x, y, have);
      assert flight[..n] + [flight[n]] == flight;
    }
  }

  lemma OneBusy(p: Packet, x: nat, y: nat, have: Chain)
    ensures Busy([p], x, y, have) == if Irrelevant(p, x, y, have) then [] else [p.message]
  {
    KeepOne(p.message, have);
    assert [p][..0] == [];
    assert OnLink([p], x, y) == OnLink([], x, y) + if p.src == x && p.dst == y then [p.message] else [];
  }

  lemma SplitFlight(flight: seq<Packet>, i: nat, x: nat, y: nat, have: Chain)
    requires i < |flight|
    ensures Busy(flight, x, y, have)
         == Busy(flight[..i], x, y, have) + Busy([flight[i]], x, y, have) + Busy(flight[i + 1..], x, y, have)
    ensures Busy(Without(flight, i), x, y, have)
         == Busy(flight[..i], x, y, have) + Busy(flight[i + 1..], x, y, have)
  {
    BusyConcat(flight[..i], flight[i + 1..], x, y, have);
    BusyConcat(flight[..i], [flight[i]], x, y, have);
    BusyConcat(flight[..i] + [flight[i]], flight[i + 1..], x, y, have);
    assert flight == flight[..i] + [flight[i]] + flight[i + 1..];
  }

  lemma IdleRemoved(flight: seq<Packet>, i: nat, x: nat, y: nat, have: Chain)
    requires i < |flight| && Irrelevant(flight[i], x, y, have)
    ensures Busy(Without(flight, i), x, y, have) == Busy(flight, x, y, have)
  {
    SplitFlight(flight, i, x, y, have);
    OneBusy(flight[i], x, y, have);
  }

  /** No earlier packet is under way between the same two nodes. */
  predicate IsFirst(flight: seq<Packet>, i: nat) {
    && i < |flight|
    && forall j :: 0 <= j < i ==> !(flight[j].src == flight[i].src && flight[j].dst == flight[i].dst)
  }

  lemma FirstRemoved(flight: seq<Packet>, i: nat, have: Chain)
    requires IsFirst(flight, i) && !Idle(flight[i].message, have)
    ensures var p := flight[i];
            Busy(flight, p.src, p.dst, have) == [p.message] + Busy(Without(flight, i), p.src, p.dst, have)
  {
    var p := flight[i];
    NothingBusy(flight[..i], p.src, p.dst, have);
    SplitFlight(flight, i, p.src, p.dst, have);
    OneBusy(p, p.src, p.dst, have);
  }

  lemma {:induction false} RepliesOnLink(src: nat, dst: nat, ms: seq<Message>, x: nat, y: nat)
    ensures OnLink(Replies(src, dst, ms), x, y) == if x == src && y == dst then ms else []
  {
    if ms != [] {
      var n := |ms| - 1;
      RepliesOnLink(src, dst, ms[..n], x, y);
      assert Replies(src, dst, ms)[..n] == Replies(src, dst, ms[..n]);
      assert ms[..n] + [ms[n]] == ms;
    }
  }

  predicate Hears(src: nat, peers: set<nat>, n: nat, x: nat, y: nat) {
    x == src && y in peers && y < n
  }

  lemma {:induction false} MulticastOnLink(src: nat, peers: set<nat>, n: nat, m: Message, x: nat, y: nat)
    ensures OnLink(Multicast(src, peers, n, m), x, y) == if Hears(src, peers, n, x, y) then [m] else []
  {
    if n == 0 {
      assert Multicast(src, peers, n, m) == [];
    } else {
      MulticastOnLink(src, peers, n - 1, m, x, y);
      OneMoreOnLink(Multicast(src, peers, n - 1, m), Packet(src, n - 1, m), n - 1 in peers, x, y);
    }
  }

  lemma OneMoreOnLink(flight: seq<Packet>, p: Packet, sent: bool, x: nat, y: nat)
    ensures OnLink(flight + if sent then [p] else [], x, y)
         == OnLink(flight, x, y) + if sent && p.src == x && p.dst == y then [p.message] else []
  {
    if sent {
      assert (flight + [p])[..|flight|] == flight;
    } else {
      assert flight + [] == flight;
    }
  }

  lemma {:induction false} MulticastToPeers(src: nat, peers: set<nat>, n: nat, m: Message)
    ensures forall i :: 0 <= i < |Multicast(src, peers, n, m)| ==> Multicast(src, peers, n, m)[i].dst in peers
  {
    if n > 0 {
      MulticastToPeers(src, peers, n - 1, m);
    }
  }

  /** One block more: what is kept is what was kept before without that block. */
  lemma {:induction false} KeepAgain(ms: seq<Message>, have: Chain, b: Block)
    ensures Keep(Keep(ms, have), have + [b]) == Keep(ms, have + [b])
  {
    if ms != [] {
      var n := |ms| - 1;
      KeepAgain(ms[..n], have, b);
      if Idle(ms[n], have) {
        assert Idle(ms[n], have + [b]);
        assert Keep(ms[..n], have) + [] == Keep(ms[..n], have);
      } else {
        KeepConcat(Keep(ms[..n], have), [ms[n]], have + [b]);
        assert [ms[n]][..0] == [];
      }
    }
  }

  /** The block just accepted has gone idle wherever it still is under way. */
  lemma BusyAfterAccept(flight: seq<Packet>, i: nat, have: Chain, b: Block, x: nat, y: nat)
    requires i < |flight| && flight[i].message == BlockMsg(b)
    ensures Busy(Without(flight, i), x, y, have + [b]) == Keep(Busy(flight, x, y, have), have + [b])
  {
    IdleRemoved(flight, i, x, y, have + [b]);
    KeepAgain(OnLink(flight, x, y), have, b);
  }

  // ----- How far an exchange with one peer has come -----

  /** The messages are exactly the blocks of `c` from position `n` up to somewhere between `low` and `hi`. */
  predicate Feeds(ms: seq<Message>, c: Chain, n: nat, low: nat, hi: nat) {
    var e := n + |ms|;
    low <= e <= hi <= |c| && ms == BlockMsgs(c[n..e])
  }

  /** The blocks a question or announcement leads to, when it is a peer with chain `own` that sends them. */
  function Brings(q: Message, own: Chain): seq<Message> {
    match q
    case GetBlocks(h) => BlockMsgs(Page(own, h, PAGE_LIMIT))
    case Inv(vecs) => Answers(own, vecs)
    case GetData(vecs) => Answers(own, vecs)
    case _ => []
  }

  /** Blocks are on their way down, or one message is under way that leads to them. */
  predicate Stage(up: seq<Message>, down: seq<Message>, own: Chain, c: Chain, n: nat, low: nat, hi: nat)
    requires n <= |c|
  {
    || (up == [] && Feeds(down, c, n, low, hi))
    || (up == [] && |down| == 1 && down[0].Inv? && Feeds(Keep(Brings(down[0], own), c[..n]), c, n, low, hi))
    || (down == [] && |up| == 1 && (up[0].GetBlocks? || up[0].GetData?)
        && Feeds(Keep(Brings(up[0], own), c[..n]), c, n, low, hi))
  }

  lemma KeepOne(m: Message, have: Chain)
    ensures Keep([m], have) == if Idle(m, have) then [] else [m]
  {
    assert [m][..0] == [];
  }

  lemma NoRepeats(c: Chain, n: nat, k: nat)
    requires DistinctHashes(c) && n <= |c| && k < |c|
    ensures c[k] in c[..n] <==> k < n
  {
    if k < n {
      assert c[..n][k] == c[k];
    }
  }

  /** Of blocks `s` to `e`, a node with the first `n` blocks lacks those from `n` on. */
  lemma {:induction false} KeepWindow(c: Chain, s: nat, e: nat, n: nat)
    requires DistinctHashes(c) && s <= n <= |c| && s <= e <= |c|
    ensures Keep(BlockMsgs(c[s..e]), c[..n]) == BlockMsgs(c[n..Max(n, e)])
    decreases e
  {
    if s < e {
      KeepWindow(c, s, e - 1, n);
      KeepWindowMore(c, s, e - 1, n);
    }
  }

  lemma KeepWindowMore(c: Chain, s: nat, e: nat, n: nat)
    requires DistinctHashes(c) && s <= n <= |c| && s <= e < |c|
    requires Keep(BlockMsgs(c[s..e]), c[..n]) == BlockMsgs(c[n..Max(n, e)])
    ensures Keep(BlockMsgs(c[s..e + 1]), c[..n]) == BlockMsgs(c[n..Max(n, e + 1)])
  {
    var m := BlockMsg(c[e]);
    OneMoreMsg(c, s, e);
    KeepConcat(BlockMsgs(c[s..e]), [m], c[..n]);
    assert Keep([m], c[..n]) == if e < n then [] else [m] by {
      NoRepeats(c, n, e);
      KeepOne(m, c[..n]);
    }
    if n <= e {
      OneMoreMsg(c, n, e);
    }
  }

  lemma OneMoreMsg(c: Chain, s: nat, e: nat)
    requires s <= e < |c|
    ensures BlockMsgs(c[s..e + 1]) == BlockMsgs(c[s..e]) + [BlockMsg(c[e])]
  {
  }

  lemma FeedsBlocks(ms: seq<Message>, c: Chain, n: nat, low: nat, hi: nat)
    requires Feeds(ms, c, n, low, hi) && ms != []
    ensures n < |c| && ms[0] == BlockMsg(c[n])
  {
  }

  /** One block more. */
  lemma FeedsNext(ms: seq<Message>, c: Chain, n: nat, low: nat, hi: nat)
    requires DistinctHashes(c) && Feeds(ms, c, n, low, hi) && n < hi
    ensures Feeds(Keep(ms, c[..n + 1]), c, n + 1, low, hi)
  {
    if ms != [] {
      KeepWindow(c, n, n + |ms|, n + 1);
    }
  }

  lemma StageNext(up: seq<Message>, down: seq<Message>, own: Chain, c: Chain, n: nat, low: nat, hi: nat)
    requires DistinctHashes(c) && n < hi <= |c| && Stage(up, down, own, c, n, low, hi)
    ensures Stage(Keep(up, c[..n + 1]), Keep(down, c[..n + 1]), own, c, n + 1, low, hi)
  {
    assert c[..n] + [c[n]] == c[..n + 1];
    if up == [] && Feeds(down, c, n, low, hi) {
      FeedsNext(down, c, n, low, hi);
    } else {
      var q := if up == [] then down[0] else up[0];
      KeepOne(q, c[..n + 1]);
      assert [q] == if up == [] then down else up;
      FeedsNext(Keep(Brings(q, own), c[..n]), c, n, low, hi);
      KeepAgain(Brings(q, own), c[..n], c[n]);
    }
  }

  lemma AnswerOwn(c: Chain, b: Block)
    requires DistinctHashes(c) && b in c
    ensures Answer(c, InvVec("block", b.hash)) == [BlockMsg(b)]
  {
    var i :| 0 <= i < |c| && c[i] == b;
    LookupInvertsPosition(c, i);
  }

  /** A peer asked for some of its own blocks sends exactly those, in order. */
  lemma {:induction false} AnswersOwn(own: Chain, blocks: seq<Block>)
    requires DistinctHashes(own) && forall b :: b in blocks ==> b in own
    ensures Answers(own, VecsOf(blocks)) == BlockMsgs(blocks)
  {
    if blocks != [] {
      var n := |blocks| - 1;
      AnswersOwn(own, blocks[..n]);
      AnswerOwn(own, blocks[n]);
      assert VecsOf(blocks)[..n] == VecsOf(blocks[..n]);
      assert BlockMsgs(blocks) == BlockMsgs(blocks[..n]) + [BlockMsg(blocks[n])];
    }
  }

  lemma PrefixDistinct(own: Chain, c: Chain)
    requires own <= c && DistinctHashes(c)
    ensures DistinctHashes(own)
  {
    forall i, j | 0 <= i < j < |own|
      ensures own[i].hash != own[j].hash
    {
      assert own[i] == c[i] && own[j] == c[j];
    }
  }

  lemma PageAnswers(h: string, own: Chain, c: Chain)
    requires own <= c && DistinctHashes(c)
    ensures var page := Page(own, h, PAGE_LIMIT); Answers(own, VecsOf(page)) == BlockMsgs(page)
  {
    PrefixDistinct(own, c);
    AnswersOwn(own, Page(own, h, PAGE_LIMIT));
  }

  /** `getblocks` has been answered. */
  lemma StageAnnounced(h: string, own: Chain, c: Chain, n: nat, low: nat, hi: nat)
    requires n <= |c| && own <= c && DistinctHashes(c)
    requires Stage([GetBlocks(h)], [], own, c, n, low, hi)
    ensures Stage([], Keep(InvReply(own, h), c[..n]), own, c, n, low, hi)
  {
    assert [GetBlocks(h)][0] == GetBlocks(h);
    PageAnswers(h, own, c);
    PageAnnounced(Page(own, h, PAGE_LIMIT), own, c, n, low, hi);
  }

  lemma StageOfInv(vecs: seq<InvVec>, own: Chain, c: Chain, n: nat, low: nat, hi: nat)
    requires n <= |c| && Feeds(Keep(Answers(own, vecs), c[..n]), c, n, low, hi)
    ensures Stage([], [Inv(vecs)], own, c, n, low, hi)
  {
    assert [Inv(vecs)][0] == Inv(vecs);
  }

  lemma PageAnnounced(page: seq<Block>, own: Chain, c: Chain, n: nat, low: nat, hi: nat)
    requires n <= |c| && Answers(own, VecsOf(page)) == BlockMsgs(page)
    requires Feeds(Keep(BlockMsgs(page), c[..n]), c, n, low, hi)
    ensures Stage([], Keep(if page == [] then [] else [Inv(VecsOf(page))], c[..n]), own, c, n, low, hi)
  {
    if page == [] {
      assert Keep([], c[..n]) == [] && BlockMsgs(page) == [];
    } else {
      KeepOne(Inv(VecsOf(page)), c[..n]);
      StageOfInv(VecsOf(page), own, c, n, low, hi);
    }
  }

  /** None of the blocks of `c` from position `n` on is marked. */
  predicate NoneMarked(c: Chain, n: nat, processed: map<string, int>) {
    forall k :: n <= k < |c| ==> c[k].hash !in processed
  }

  lemma AnswerHeld(own: Chain, c: Chain, n: nat, v: InvVec, processed: map<string, int>)
    requires own <= c && n <= |c| && NoneMarked(c, n, processed) && !Wanted(v, processed)
    ensures Keep(Answer(own, v), c[..n]) == []
  {
    if Answer(own, v) != [] {
      var k := PositionOf(own, v.hash);
      assert k < n;
      assert c[..n][k] == own[k];
      KeepOne(BlockMsg(own[k]), c[..n]);
    }
  }

  /** Not asking for marked blocks costs nothing: those are held already. */
  lemma {:induction false} AnswersToMissing(own: Chain, c: Chain, n: nat, vecs: seq<InvVec>, processed: map<string,
                                            int>)
    requires own <= c && n <= |c| && NoneMarked(c, n, processed)
    ensures Keep(Answers(own, Missing(vecs, processed)), c[..n]) == Keep(Answers(own, vecs), c[..n])
  {
    if vecs != [] {
      var k := |vecs| - 1;
      var missing := Missing(vecs[..k], processed);
      AnswersToMissing(own, c, n, vecs[..k], processed);
      KeepConcat(Answers(own, vecs[..k]), Answer(own, vecs[k]), c[..n]);
      if Wanted(vecs[k], processed) {
        assert (missing + [vecs[k]])[..|missing|] == missing;
        KeepConcat(Answers(own, missing), Answer(own, vecs[k]), c[..n]);
      } else {
        AnswerHeld(own, c, n, vecs[k], processed);
        assert missing + [] == missing;
      }
    }
  }

  /** An announcement has been answered. */
  lemma StageAsked(vecs: seq<InvVec>, own: Chain, c: Chain, n: nat, low: nat, hi: nat, processed: map<string, int>)
    requires n <= |c| && own <= c && NoneMarked(c, n, processed)
    requires Stage([], [Inv(vecs)], own, c, n, low, hi)
    ensures Stage(Keep(GetDataReply(vecs, processed), c[..n]), [], own, c, n, low, hi)
  {
    AnnouncementFeeds(vecs, own, c, n, low, hi);
    AnswersToMissing(own, c, n, vecs, processed);
    MissingFeeds(Missing(vecs, processed), own, c, n, low, hi);
  }

  lemma AnnouncementFeeds(vecs: seq<InvVec>, own: Chain, c: Chain, n: nat, low: nat, hi: nat)
    requires n <= |c| && Stage([], [Inv(vecs)], own, c, n, low, hi)
    ensures Feeds(Keep(Answers(own, vecs), c[..n]), c, n, low, hi)
  {
    if Feeds([Inv(vecs)], c, n, low, hi) {
      FeedsBlocks([Inv(vecs)], c, n, low, hi);
    } else {
      assert [Inv(vecs)][0] == Inv(vecs);
    }
  }

  lemma MissingFeeds(missing: seq<InvVec>, own: Chain, c: Chain, n: nat, low: nat, hi: nat)
    requires n <= |c| && Feeds(Keep(Answers(own, missing), c[..n]), c, n, low, hi)
    ensures Stage(Keep(if missing == [] then [] else [GetData(missing)], c[..n]), [], own, c, n, low, hi)
  {
    if missing == [] {
      assert Keep(Answers(own, missing), c[..n]) == [];
    } else {
      KeepOne(GetData(missing), c[..n]);
      assert [GetData(missing)][0] == GetData(missing);
    }
  }

  lemma {:induction false} KeepNothing(ms: seq<Message>, have: Chain)
    requires forall m :: m in ms ==> Idle(m, have)
    ensures Keep(ms, have) == []
  {
    if ms != [] {
      KeepNothing(ms[..|ms| - 1], have);
    }
  }

  lemma NothingNew(q: Message, own: Chain, have: Chain)
    requires own <= have
    ensures Keep(Brings(q, own), have) == []
  {
    forall m | m in Brings(q, own)
      ensures Idle(m, have)
    {
      if q.Inv? || q.GetData? {
        AnswersAreOwnBlocks(own, q.vecs);
      }
      assert m.BlockMsg? && m.block in own;
    }
    KeepNothing(Brings(q, own), have);
  }

  /** A peer that is behind may itself be handed blocks: that changes nothing. */
  lemma StageOwnGrows(up: seq<Message>, down: seq<Message>, own: Chain, own': Chain, c: Chain, n: nat, low: nat,
                      hi: nat)
    requires n <= |c| && own <= c[..n] && own' <= c[..n] && Stage(up, down, own, c, n, low, hi)
    ensures Stage(up, down, own', c, n, low, hi)
  {
    var q := if up != [] then up[0] else if down != [] then down[0] else VerAck;
    NothingNew(q, own, c[..n]);
    NothingNew(q, own', c[..n]);
  }

  /** A message that comes down is the next block or an announcement. */
  lemma FirstDown(up: seq<Message>, m: Message, rest: seq<Message>, own: Chain, c: Chain, n: nat, low: nat, hi: nat)
    requires n <= |c| && Stage(up, [m] + rest, own, c, n, low, hi)
    ensures up == []
    ensures (m.Inv? && rest == []) || (n < hi <= |c| && m == BlockMsg(c[n]))
  {
    if Feeds([m] + rest, c, n, low, hi) {
      FeedsBlocks([m] + rest, c, n, low, hi);
    }
  }

  lemma FirstUp(m: Message, rest: seq<Message>, down: seq<Message>, own: Chain, c: Chain, n: nat, low: nat, hi: nat)
    requires n <= |c| && Stage([m] + rest, down, own, c, n, low, hi)
    ensures rest == [] && down == [] && (m.GetBlocks? || m.GetData?)
  {
  }
}
