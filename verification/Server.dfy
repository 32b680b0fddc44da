/** The server object (internal/p2p/server.go). Streams to peers are outboxes of messages; every method is
    tied to what the protocol says the node does. */
module P2pServer {
  import opened Options
  import opened Timestamps
  import opened Blocks
  import opened Chains
  import opened Selections
  import opened LinkedChain
  import opened Protocol

  type Outbox = map<nat, seq<Message>>

  function ToAll(outbox: Outbox, messages: seq<Message>): Outbox {
    map p | p in outbox :: outbox[p] + messages
  }

  function ToOne(outbox: Outbox, to: nat, messages: seq<Message>): Outbox {
    map p | p in outbox :: if p == to then outbox[p] + messages else outbox[p]
  }

  lemma FirstMessage(outbox: Outbox, to: nat, messages: seq<Message>)
    ensures ToOne(outbox[to := []], to, messages) == outbox[to := messages]
  {
    assert [] + messages == messages;
  }

  lemma NothingSent(outbox: Outbox, to: nat)
    ensures ToAll(outbox, []) == outbox && ToOne(outbox, to, []) == outbox
  {
    forall p | p in outbox
      ensures outbox[p] + [] == outbox[p]
    {
    }
  }

  lemma SentTogether(outbox: Outbox, to: nat, first: seq<Message>, next: seq<Message>)
    ensures ToOne(ToOne(outbox, to, first), to, next) == ToOne(outbox, to, first + next)
  {
    if to in outbox {
      assert outbox[to] + first + next == outbox[to] + (first + next);
    }
  }

  method BuildInv(blocks: seq<Block>) returns (vecs: seq<InvVec>)
    ensures vecs == VecsOf(blocks)
  {
    vecs := [];
    for i := 0 to |blocks|
      invariant vecs == VecsOf(blocks)[..i]
    {
      vecs := vecs + [InvVec("block", blocks[i].hash)];
    }
  }

  method FilterMissing(vecs: seq<InvVec>, processed: map<string, int>) returns (missing: seq<InvVec>)
    ensures missing == Missing(vecs, processed)
    ensures forall v: InvVec :: v in missing ==> v.kind == "block" && v.hash !in processed
    ensures forall v: InvVec :: v.kind == "block" && v.hash !in processed ==> multiset(missing)[v] == multiset(vecs)[v]
  {
    missing := [];
    for i := 0 to |vecs|
      invariant missing == Missing(vecs[..i], processed)
    {
      OneMoreVec(vecs, i);
      if vecs[i].kind == "block" && vecs[i].hash !in processed {
        missing := missing + [vecs[i]];
      }
    }
    assert vecs[..|vecs|] == vecs;
    MissingCounts(vecs, processed);
  }

  class Server {
    const bc: Blockchain
    var processed: map<string, int>
    var heights: map<nat, int>
    var outbox: Outbox

    ghost predicate Valid()
      reads this, bc, bc.nodes
    {
      bc.Valid() && outbox.Keys == heights.Keys
    }

    ghost function State(): Node
      reads this, bc, bc.clock
    {
      Node(bc.Blocks(), processed, heights, bc.clock.Time())
    }

    /** State and outboxes are what effect `e` of a message from `from` makes of them. */
    ghost predicate Did(before: Outbox, e: Effect, from: nat)
      reads this, bc, bc.clock
    {
      State() == e.node && outbox == ToOne(ToAll(before, BlockMsgs(e.gossip)), from, e.reply)
    }

    constructor (bc: Blockchain)
      requires bc.Valid()
      ensures Valid() && this.bc == bc
      ensures State() == Node(bc.Blocks(), map[], map[], bc.clock.Time())
    {
      this.bc := bc;
      processed, heights, outbox := map[], map[], map[];
    }

    // ----- Sending -----

    /** Peer `p` has been sent these messages, and no other peer anything. */
    twostate predicate SentOnlyTo(p: nat, messages: seq<Message>)
      reads this
    {
      && outbox.Keys == old(outbox).Keys
      && forall x :: x in outbox ==> outbox[x] == if x == p then old(outbox)[x] + messages else old(outbox)[x]
    }

    /** Every peer has been sent these messages. */
    twostate predicate SentToEach(messages: seq<Message>)
      reads this
    {
      && outbox.Keys == old(outbox).Keys == heights.Keys
      && forall x :: x in heights ==> outbox[x] == old(outbox)[x] + messages
    }

    method SendMessage(p: nat, m: Message)
      requires Valid() && p in heights
      modifies this`outbox
      ensures Valid() && outbox == ToOne(old(outbox), p, [m])
      ensures SentOnlyTo(p, [m])
    {
      outbox := outbox[p := outbox[p] + [m]];
    }

    method SendToAll(m: Message)
      requires Valid()
      modifies this`outbox
      ensures Valid() && outbox == ToAll(old(outbox), [m])
      ensures SentToEach([m])
    {
      var todo := heights.Keys;
      while todo != {}
        invariant Valid() && todo <= heights.Keys
        invariant forall p :: p in heights ==>
          outbox[p] == if p in todo then old(outbox)[p] else old(outbox)[p] + [m]
        decreases todo
      {
        var p :| p in todo;
        outbox := outbox[p := outbox[p] + [m]];
        todo := todo - {p};
      }
    }

    method SendVersion(p: nat)
      requires Valid() && p in heights
      modifies this`outbox
      ensures Valid() && outbox == ToOne(old(outbox), p, [Version(|State().chain|)])
      ensures SentOnlyTo(p, [Version(|bc.Blocks()|)])
    {
      var length := bc.Length();
      SendMessage(p, Version(length));
    }

    method SendGetBlocks(p: nat)
      requires Valid() && p in heights
      modifies this`outbox
      ensures Valid() && outbox == ToOne(old(outbox), p, [GetBlocks(Last(State().chain).hash)])
    {
      var last := bc.GetLastBlock();
      SendMessage(p, GetBlocks(last.hash));
    }

    /** A stream of a peer that is already known is dropped. */
    method HandleStream(p: nat)
      requires Valid()
      modifies this`heights, this`outbox
      ensures Valid()
      ensures if p in old(heights) then heights == old(heights) && outbox == old(outbox)
              else heights == old(heights)[p := 0] && outbox == old(outbox)[p := [Version(|State().chain|)]]
    {
      if p in heights {
        return;
      }
      AddPeer(p);
    }

    method AddPeer(p: nat)
      requires Valid() && p !in heights
      modifies this`heights, this`outbox
      ensures Valid() && heights == old(heights)[p := 0]
      ensures outbox == old(outbox)[p := [Version(|bc.Blocks()|)]]
    {
      var length := bc.Length();
      FirstMessage(outbox, p, [Version(length)]);
      heights, outbox := heights[p := 0], outbox[p := []];
      SendMessage(p, Version(length));
    }

    method RequestSync()
      requires Valid()
      modifies this`outbox
      ensures Valid() && outbox == ToAll(old(outbox), [GetBlocks("")])
      ensures SentToEach([GetBlocks("")])
    {
      SendToAll(GetBlocks(""));
    }

    method FindBlock(hash: string)
      requires Valid()
      modifies this`outbox
      ensures Valid() && outbox == ToAll(old(outbox), [Message.FindBlock(hash)])
      ensures SentToEach([Message.FindBlock(hash)])
    {
      SendToAll(Message.FindBlock(hash));
    }

    // ----- Blocks arriving -----

    method BroadcastBlock(b: Block) returns (ghost mark: int)
      requires Valid()
      modifies this`processed, this`outbox, bc.clock
      ensures Valid() && old(bc.clock.Time()) <= mark == bc.clock.Time()
      ensures processed == old(processed)[b.hash := mark]
      ensures outbox == ToAll(old(outbox), [BlockMsg(b)]) && SentToEach([BlockMsg(b)])
    {
      var now := bc.clock.Now();
      mark := Instant(now);
      processed := processed[b.hash := Instant(now)];
      SendToAll(BlockMsg(b));
    }

    /** The subscribed callback. */
    method OnNewBlock(b: Block) returns (ghost mark: int)
      requires Valid()
      modifies this`processed, this`outbox, bc.clock
      ensures Valid() && old(bc.clock.Time()) <= mark == bc.clock.Time()
      ensures var e := OnAppended(old(State()), b, mark);
              State() == e.node && outbox == ToAll(old(outbox), BlockMsgs(e.gossip))
      ensures b.hash in old(processed) ==> processed == old(processed) && outbox == old(outbox)
      ensures b.hash !in old(processed) ==>
                processed == old(processed)[b.hash := mark] && SentToEach([BlockMsg(b)])
    {
      NothingSent(outbox, 0);
      if b.hash in processed {
        return bc.clock.Time();
      }
      var now := bc.clock.Now();
      processed := processed[b.hash := Instant(now)];
      mark := BroadcastBlock(b);
      assert processed == old(processed)[b.hash := mark];
      assert BlockMsgs([b]) == [BlockMsg(b)];
    }

    /** `ProcessBlock` with the subscribed callback. */
    method ProcessBlock(b: Block) returns (ghost now: int, ghost mark: int)
      requires Valid()
      modifies this`processed, this`outbox, bc, bc.tail, bc.clock
      ensures Valid() && (bc.tail == old(bc.tail) || fresh(bc.tail))
      ensures old(bc.clock.Time()) <= now <= mark == bc.clock.Time()
      ensures var e := Offer(old(State()), b, now, mark);
              State() == e.node && outbox == ToAll(old(outbox), BlockMsgs(e.gossip))
    {
      var appended;
      appended, now := OfferToChain(b);
      mark := CallBack(appended, b);
      OfferInSteps(old(State()), b, now, mark);
    }

    method OfferToChain(b: Block) returns (appended: bool, ghost now: int)
      requires Valid()
      modifies bc, bc.tail, bc.clock
      ensures Valid() && (bc.tail == old(bc.tail) || fresh(bc.tail))
      ensures old(bc.clock.Time()) <= now == bc.clock.Time()
      ensures appended == Accepts(old(bc.Blocks()), b, now)
      ensures State() == Decided(old(State()), b, appended, now)
    {
      appended, now := bc.ProcessBlock(b);
    }

    method AddToChain(bpm: int) returns (b: Block, appended: bool, ghost timestamp: Timestamp, ghost now: int)
      requires Valid()
      modifies bc, bc.tail, bc.clock
      ensures Valid() && (bc.tail == old(bc.tail) || fresh(bc.tail))
      ensures old(bc.clock.Time()) <= Instant(timestamp) <= now
      ensures b == NextBlock(old(bc.Blocks()), bpm, timestamp) && appended == (bpm >= 0)
      ensures State() == Decided(old(State()), b, appended, now)
    {
      b, appended, timestamp, now := bc.AddBlock(bpm);
    }

    /** The chain runs its callbacks only if it took the block. */
    method CallBack(appended: bool, b: Block) returns (ghost mark: int)
      requires Valid()
      modifies this`processed, this`outbox, bc.clock
      ensures Valid() && old(bc.clock.Time()) <= mark == bc.clock.Time()
      ensures var e := CalledBack(old(State()), b, appended, mark);
              State() == e.node && outbox == ToAll(old(outbox), BlockMsgs(e.gossip))
    {
      NothingSent(outbox, 0);
      mark := bc.clock.Time();
      if appended {
        mark := OnNewBlock(b);
      }
    }

    method AddBlock(bpm: int) returns (ghost timestamp: Timestamp, ghost now: int, ghost mark: int)
      requires Valid()
      modifies this`processed, this`outbox, bc, bc.tail, bc.clock
      ensures Valid() && (bc.tail == old(bc.tail) || fresh(bc.tail))
      ensures old(bc.clock.Time()) <= Instant(timestamp) <= now <= mark == bc.clock.Time()
      ensures var e := AddLocal(old(State()), bpm, timestamp, now, mark);
              State() == e.node && outbox == ToAll(old(outbox), BlockMsgs(e.gossip))
    {
      var b, appended;
      b, appended, timestamp, now := AddToChain(bpm);
      mark := CallBack(appended, b);
      AddInSteps(old(State()), bpm, timestamp, now, mark);
    }

    method MarkProcessed(hash: string) returns (ghost mark: int)
      requires Valid()
      modifies this`processed, bc.clock
      ensures Valid() && old(bc.clock.Time()) <= mark
      ensures State() == Mark(Effect(old(State()), [], []), hash, mark).node
    {
      var t := bc.clock.Now();
      mark := Instant(t);
      processed := processed[hash := Instant(t)];
    }

    method HandleBlock(p: nat, b: Block) returns (ghost now: int, ghost mark: int)
      requires Valid()
      modifies this`processed, this`outbox, bc, bc.tail, bc.clock
      ensures Valid()
      ensures old(bc.clock.Time()) <= now <= mark
      ensures Did(old(outbox), OnBlock(old(State()), b, now, mark), p)
    {
      NothingSent(outbox, p);
      if b.hash in processed {
        return bc.clock.Time(), bc.clock.Time();
      }
      ghost var before;
      now, before := ProcessBlock(b);
      mark := MarkProcessed(b.hash);
      MarkedLast(old(State()), b, Accepts(old(bc.Blocks()), b, now), before, mark);
      NothingSent(outbox, p);
    }

    method HandleBlockFound(p: nat, found: bool, b: Option<Block>) returns (ghost now: int, ghost mark: int)
      requires Valid()
      modifies this`processed, this`outbox, bc, bc.tail, bc.clock
      ensures Valid()
      ensures old(bc.clock.Time()) <= now <= mark
      ensures Did(old(outbox), OnBlockFound(old(State()), found, b, now, mark), p)
    {
      NothingSent(outbox, p);
      now, mark := bc.clock.Time(), bc.clock.Time();
      if found && b.Some? {
        now, mark := ProcessBlock(b.value);
        NothingSent(outbox, p);
      }
    }

    // ----- Questions and answers -----

    /** What is sent announces the blocks after the one with the start hash, or those in front. */
    method HandleGetBlocks(p: nat, startHash: string) returns (ghost sent: seq<Message>)
      requires Valid() && p in heights
      modifies this`outbox
      ensures Valid() && outbox == ToOne(old(outbox), p, InvReply(State().chain, startHash))
      ensures SentOnlyTo(p, sent)
      ensures startHash == "" || IsUnknown(bc.Blocks(), startHash) ==> Announces(sent, bc.Blocks(), 0)
      ensures forall i: nat :: startHash != "" && IsFirstWith(bc.Blocks(), startHash, i) ==>
                Announces(sent, bc.Blocks(), i + 1)
    {
      sent := InvReply(bc.Blocks(), startHash);
      InvAnnounces(bc.Blocks(), startHash);
      var blocks := bc.GetBlocksAfter(startHash, PAGE_LIMIT);
      if |blocks| > 0 {
        var invVecs := BuildInv(blocks);
        SendMessage(p, Inv(invVecs));
      } else {
        NothingSent(outbox, p);
      }
    }

    /** What is asked for are the entries at `picks`: those that announce a block whose hash is not marked. */
    method HandleInv(p: nat, vecs: seq<InvVec>) returns (ghost picks: seq<nat>)
      requires Valid() && p in heights
      modifies this`outbox
      ensures Valid() && outbox == ToOne(old(outbox), p, GetDataReply(vecs, processed))
      ensures var marked := processed; IsSelection(picks, |vecs|, (i: nat) => IsMissing(vecs, marked, i))
      ensures picks == [] ==> outbox == old(outbox)
      ensures picks != [] ==>
                SentOnlyTo(p, [GetData(seq(|picks|, k requires 0 <= k < |picks| => vecs[picks[k]]))])
    {
      picks := MissingExactly(vecs, processed);
      MissingEntries(vecs, processed, picks);
      var missing := FilterMissing(vecs, processed);
      if |missing| > 0 {
        SendMessage(p, GetData(missing));
      } else {
        NothingSent(outbox, p);
      }
    }

    /** What is sent answers the entries at `picks`: those that ask for a block of the chain. */
    method HandleGetData(p: nat, vecs: seq<InvVec>) returns (ghost sent: seq<Message>, ghost picks: seq<nat>)
      requires Valid() && p in heights
      modifies this`outbox
      ensures Valid() && outbox == ToOne(old(outbox), p, Answers(State().chain, vecs))
      ensures SentOnlyTo(p, sent)
      ensures var c := old(bc.Blocks());
              Picks(sent, picks, |vecs|, (i: nat) => IsHeld(c, vecs, i),
                    (i: nat, m: Message) => IsAnswer(c, vecs, i, m))
    {
      sent := Answers(bc.Blocks(), vecs);
      picks := AnswersExactly(bc.Blocks(), vecs);
      NothingSent(outbox, p);
      for i := 0 to |vecs|
        invariant Valid() && outbox == ToOne(old(outbox), p, Answers(bc.Blocks(), vecs[..i]))
      {
        OneMoreVec(vecs, i);
        AnswerOne(p, vecs[i]);
        SentTogether(old(outbox), p, Answers(bc.Blocks(), vecs[..i]), Answer(bc.Blocks(), vecs[i]));
      }
      assert vecs[..|vecs|] == vecs;
    }

    method AnswerOne(p: nat, v: InvVec)
      requires Valid() && p in heights
      modifies this`outbox
      ensures Valid() && outbox == ToOne(old(outbox), p, Answer(bc.Blocks(), v))
    {
      if v.kind == "block" {
        var block := bc.GetBlockByHash(v.hash);
        if block.Some? {
          assert Answer(bc.Blocks(), v) == [BlockMsg(block.value)];
          SendMessage(p, BlockMsg(block.value));
          return;
        }
      }
      NothingSent(outbox, p);
    }

    method HandleFindBlock(p: nat, hash: string)
      requires Valid() && p in heights
      modifies this`outbox
      ensures Valid() && outbox == ToOne(old(outbox), p, [FindReply(State().chain, hash)])
      ensures IsUnknown(bc.Blocks(), hash) ==> SentOnlyTo(p, [BlockFound(false, None)])
      ensures forall i: nat :: IsFirstWith(bc.Blocks(), hash, i) ==>
                SentOnlyTo(p, [BlockFound(true, Some(bc.Blocks()[i]))])
    {
      LookupExactly(bc.Blocks(), hash);
      var block := bc.GetBlockByHash(hash);
      if block.Some? {
        SendMessage(p, BlockFound(true, block));
      } else {
        SendMessage(p, BlockFound(false, None));
      }
    }

    method HandleVerAck(p: nat)
      requires Valid() && p in heights
      modifies this`outbox
      ensures Valid() && outbox == ToOne(old(outbox), p, VerAckReply(State(), p))
    {
      var length := bc.Length();
      AskIfHigher(p, length);
      SendMessage(p, GetPeers);
      SentTogether(old(outbox), p, AskFor(State(), p), [GetPeers]);
    }

    method AskIfHigher(p: nat, length: int)
      requires Valid() && p in heights && length == |bc.Blocks()|
      modifies this`outbox
      ensures Valid() && outbox == ToOne(old(outbox), p, AskFor(State(), p))
    {
      NothingSent(outbox, p);
      if heights[p] > length {
        SendGetBlocks(p);
      }
    }

    method HandleQuestion(p: nat, m: Message)
      requires Valid() && p in heights && !m.Version?
      modifies this`outbox
      ensures Valid() && outbox == ToOne(old(outbox), p, Reply(State(), p, m))
    {
      if m.VerAck? {
        HandleVerAck(p);
      } else if m.GetPeers? {
        SendMessage(p, Peers);
      } else if m.FindBlock? {
        HandleFindBlock(p, m.hash);
      } else {
        HandleExchange(p, m);
      }
    }

    method HandleExchange(p: nat, m: Message)
      requires Valid() && p in heights && !m.Version? && !m.VerAck? && !m.GetPeers? && !m.FindBlock?
      modifies this`outbox
      ensures Valid() && outbox == ToOne(old(outbox), p, Reply(State(), p, m))
    {
      NothingSent(outbox, p);
      match m
      case GetBlocks(startHash) => ghost var sent := HandleGetBlocks(p, startHash);
      case Inv(vecs) => ghost var picks := HandleInv(p, vecs);
      case GetData(vecs) => ghost var sent, picks := HandleGetData(p, vecs);
      case _ =>
    }

    method HandleOther(p: nat, m: Message)
      requires Valid() && p in heights && !m.BlockMsg? && !m.BlockFound?
      modifies this`heights, this`outbox
      ensures Valid() && State() == Learn(old(State()), p, m)
      ensures outbox == ToOne(old(outbox), p, Reply(old(State()), p, m))
    {
      if m.Version? {
        heights := heights[p := m.bestHeight];
        SendMessage(p, VerAck);
      } else {
        HandleQuestion(p, m);
      }
    }

    /** The handler does exactly what the protocol says, whatever the message. */
    method HandleMessage(p: nat, m: Message) returns (ghost now: int, ghost mark: int)
      requires Valid() && p in heights
      modifies this, bc, bc.tail, bc.clock
      ensures Valid()
      ensures old(bc.clock.Time()) <= now <= mark
      ensures Did(old(outbox), Receive(old(State()), p, m, now, mark), p)
    {
      if m.BlockMsg? {
        now, mark := HandleBlock(p, m.block);
      } else if m.BlockFound? {
        now, mark := HandleBlockFound(p, m.found, m.foundBlock);
      } else {
        now, mark := bc.clock.Time(), bc.clock.Time();
        NothingSent(outbox, p);
        assert BlockMsgs([]) == [];
        HandleOther(p, m);
      }
    }

    /** One tick of the clean-up: hashes marked more than ten minutes ago are forgotten. */
    method CleanupProcessedBlocks() returns (ghost now: int)
      requires Valid()
      modifies this`processed, bc.clock
      ensures Valid() && old(bc.clock.Time()) <= now
      ensures State() == CleanUp(old(State()), now)
      ensures forall h :: h in processed <==> h in old(processed) && now - old(processed)[h] <= 600_000_000_000
      ensures forall h :: h in processed ==> processed[h] == old(processed)[h]
    {
      var t := bc.clock.Now();
      now := bc.clock.Time();
      var todo := processed.Keys;
      while todo != {}
        invariant bc.clock.Time() == now
        invariant todo <= processed.Keys <= old(processed).Keys
        invariant forall h :: h in old(processed) ==>
          (h in processed <==> h in todo || now - old(processed)[h] <= PROCESSED_AGE)
        invariant forall h :: h in processed ==> processed[h] == old(processed)[h]
        decreases todo
      {
        var h :| h in todo;
        if Instant(t) - processed[h] > PROCESSED_AGE {
          processed := processed - {h};
        }
        todo := todo - {h};
      }
      assert processed == CleanUp(old(State()), now).processed;
    }
  }
}
