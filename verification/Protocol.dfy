/** One node of the gossip protocol as a value: what each message, local addition and clean-up does to its
    state and what it sends (internal/p2p/server.go). */
module Protocol {
  import opened Options
  import opened Timestamps
  import opened Blocks
  import opened Chains
  import opened Selections

  /** The most blocks that one `getblocks` is answered with. */
  const PAGE_LIMIT := 500

  /** Ten minutes, after which a processed hash is forgotten, in nanoseconds. */
  const PROCESSED_AGE := 600_000_000_000

  datatype InvVec = InvVec(kind: string, hash: string)

  /** Decoded messages; `Other` is any type or payload that the handler ignores. */
  datatype Message =
    | Version(bestHeight: int)
    | VerAck
    | GetBlocks(startHash: string)
    | BlockMsg(block: Block)
    | Inv(vecs: seq<InvVec>)
    | GetData(vecs: seq<InvVec>)
    | GetPeers
    | Peers
    | FindBlock(hash: string)
    | BlockFound(found: bool, foundBlock: Option<Block>)
    | Other

  /** The chain, the processed hashes with the time they were marked, the peers with their best heights,
      and the last clock reading. */
  datatype Node = Node(chain: Chain, processed: map<string, int>, heights: map<nat, int>, clock: int)

  /** A new state, blocks to broadcast to every peer, and messages back to the sender. */
  datatype Effect = Effect(node: Node, gossip: seq<Block>, reply: seq<Message>)

  // ----- Blocks arriving -----

  /** The callback that `NewServer` subscribes: a block not marked yet is marked and broadcast. */
  function OnAppended(n: Node, b: Block, mark: int): Effect {
    if b.hash in n.processed then Effect(n, [], [])
    else Effect(n.(processed := n.processed[b.hash := mark], clock := mark), [b], [])
  }

  function Settle(n: Node, b: Block, accepted: bool, mark: int): Effect {
    if accepted then OnAppended(n.(chain := n.chain + [b], clock := mark), b, mark)
    else Effect(n.(clock := mark), [], [])
  }

  /** `ProcessBlock` with that callback: the block is validated at reading `now`. */
  function Offer(n: Node, b: Block, now: int, mark: int): Effect
    requires n.chain != []
  {
    Settle(n, b, Accepts(n.chain, b, now), mark)
  }

  function Mark(e: Effect, hash: string, mark: int): Effect {
    e.(node := e.node.(processed := e.node.processed[hash := mark], clock := mark))
  }

  function OnBlock(n: Node, b: Block, now: int, mark: int): Effect
    requires n.chain != []
  {
    if b.hash in n.processed then Effect(n, [], []) else Mark(Offer(n, b, now, mark), b.hash, mark)
  }

  function OnBlockFound(n: Node, found: bool, b: Option<Block>, now: int, mark: int): Effect
    requires n.chain != []
  {
    if found && b.Some? then Offer(n, b.value, now, mark) else Effect(n, [], [])
  }

  /** `AddBlock`, with the callback. */
  function AddLocal(n: Node, bpm: int, timestamp: Timestamp, now: int, mark: int): Effect
    requires n.chain != []
  {
    Offer(n, NextBlock(n.chain, bpm, timestamp), now, mark)
  }

  /** The node right after the chain has decided, before its callback runs. */
  function Decided(n: Node, b: Block, accepted: bool, now: int): Node {
    n.(chain := if accepted then n.chain + [b] else n.chain, clock := now)
  }

  /** What the callback does, if it runs at all. */
  function CalledBack(n: Node, b: Block, accepted: bool, mark: int): Effect {
    if accepted then OnAppended(n, b, mark) else Effect(n, [], [])
  }

  lemma SettleInSteps(n: Node, b: Block, accepted: bool, now: int, mark: int)
    requires CalledBack(Decided(n, b, accepted, now), b, accepted, mark).node.clock == mark
    ensures CalledBack(Decided(n, b, accepted, now), b, accepted, mark) == Settle(n, b, accepted, mark)
  {
  }

  lemma OfferInSteps(n: Node, b: Block, now: int, mark: int)
    requires n.chain != []
    requires var accepted := Accepts(n.chain, b, now);
             CalledBack(Decided(n, b, accepted, now), b, accepted, mark).node.clock == mark
    ensures var accepted := Accepts(n.chain, b, now);
            CalledBack(Decided(n, b, accepted, now), b, accepted, mark) == Offer(n, b, now, mark)
  {
    SettleInSteps(n, b, Accepts(n.chain, b, now), now, mark);
  }

  lemma AddInSteps(n: Node, bpm: int, timestamp: Timestamp, now: int, mark: int)
    requires n.chain != [] && Instant(timestamp) <= now
    requires var b := NextBlock(n.chain, bpm, timestamp);
             CalledBack(Decided(n, b, bpm >= 0, now), b, bpm >= 0, mark).node.clock == mark
    ensures var b := NextBlock(n.chain, bpm, timestamp);
            CalledBack(Decided(n, b, bpm >= 0, now), b, bpm >= 0, mark) == AddLocal(n, bpm, timestamp, now, mark)
  {
    NextBlockExtends(n.chain, bpm, timestamp, now);
    SettleInSteps(n, NextBlock(n.chain, bpm, timestamp), bpm >= 0, now, mark);
  }

  /** The marks made on the way do not matter: the last one is what stays. */
  lemma MarkedLast(n: Node, b: Block, accepted: bool, before: int, mark: int)
    requires b.hash !in n.processed
    ensures Mark(Settle(n, b, accepted, before), b.hash, mark) == Mark(Settle(n, b, accepted, mark), b.hash, mark)
  {
    var p := n.processed;
    assert p[b.hash := before][b.hash := mark] == p[b.hash := mark] == p[b.hash := mark][b.hash := mark];
  }

  // ----- Questions and answers -----

  function VecsOf(blocks: seq<Block>): seq<InvVec> {
    seq(|blocks|, i requires 0 <= i < |blocks| => InvVec("block", blocks[i].hash))
  }

  function BlockMsgs(blocks: seq<Block>): seq<Message> {
    seq(|blocks|, i requires 0 <= i < |blocks| => BlockMsg(blocks[i]))
  }

  function InvReply(c: Chain, startHash: string): seq<Message> {
    var page := Page(c, startHash, PAGE_LIMIT);
    if page == [] then [] else [Inv(VecsOf(page))]
  }

  predicate Wanted(v: InvVec, processed: map<string, int>) {
    v.kind == "block" && v.hash !in processed
  }

  /** The announced blocks that are not marked as processed. */
  function Missing(vecs: seq<InvVec>, processed: map<string, int>): (r: seq<InvVec>)
    ensures |r| <= |vecs|
  {
    if vecs == [] then []
    else
      var n := |vecs| - 1;
      Missing(vecs[..n], processed) + if Wanted(vecs[n], processed) then [vecs[n]] else []
  }

  /** Entry `i` announces a block whose hash is not marked. */
  predicate IsMissing(vecs: seq<InvVec>, processed: map<string, int>, i: nat) {
    i < |vecs| && vecs[i].kind == "block" && vecs[i].hash !in processed.Keys
  }

  predicate IsEntry(vecs: seq<InvVec>, i: nat, v: InvVec) {
    i < |vecs| && v == vecs[i]
  }

  /** What is asked for, exactly: the announced blocks whose hash is not marked, each as often as announced and
      in the same order. */
  lemma {:induction false} MissingExactly(vecs: seq<InvVec>, processed: map<string, int>) returns (picks: seq<nat>)
    ensures Picks(Missing(vecs, processed), picks, |vecs|, (i: nat) => IsMissing(vecs, processed, i),
                  (i: nat, v: InvVec) => IsEntry(vecs, i, v))
  {
    picks := MissingSoFar(vecs, processed, |vecs|);
    assert vecs[..|vecs|] == vecs;
  }

  lemma {:induction false} MissingSoFar(vecs: seq<InvVec>, processed: map<string, int>, n: nat)
    returns (picks: seq<nat>)
    requires n <= |vecs|
    ensures Picks(Missing(vecs[..n], processed), picks, n, (i: nat) => IsMissing(vecs, processed, i),
                  (i: nat, v: InvVec) => IsEntry(vecs, i, v))
  {
    if n == 0 {
      picks := [];
    } else {
      picks := MissingSoFar(vecs, processed, n - 1);
      OneMoreVec(vecs, n - 1);
      OneMorePicked(Missing(vecs[..n - 1], processed), picks, n - 1, (i: nat) => IsMissing(vecs, processed, i),
                    (i: nat, v: InvVec) => IsEntry(vecs, i, v),
                    if Wanted(vecs[n - 1], processed) then [vecs[n - 1]] else []);
      picks := if IsMissing(vecs, processed, n - 1) then picks + [n - 1] else picks;
    }
  }

  lemma MissingEntries(vecs: seq<InvVec>, processed: map<string, int>, picks: seq<nat>)
    requires Picks(Missing(vecs, processed), picks, |vecs|, (i: nat) => IsMissing(vecs, processed, i),
                   (i: nat, v: InvVec) => IsEntry(vecs, i, v))
    ensures Missing(vecs, processed) == seq(|picks|, k requires 0 <= k < |picks| => vecs[picks[k]])
  {
    forall k | 0 <= k < |picks|
      ensures Missing(vecs, processed)[k] == vecs[picks[k]]
    {
      assert IsEntry(vecs, picks[k], Missing(vecs, processed)[k]);
    }
  }

  /** Counted without regard to order: nothing but unmarked blocks is asked for, each as often as announced. */
  lemma {:induction false} MissingCounts(vecs: seq<InvVec>, processed: map<string, int>)
    ensures forall v: InvVec :: v in Missing(vecs, processed) ==> v.kind == "block" && v.hash !in processed
    ensures forall v: InvVec :: v.kind == "block" && v.hash !in processed ==>
              multiset(Missing(vecs, processed))[v] == multiset(vecs)[v]
  {
    if vecs != [] {
      var n := |vecs| - 1;
      MissingCounts(vecs[..n], processed);
      assert vecs == vecs[..n] + [vecs[n]];
    }
  }

  function GetDataReply(vecs: seq<InvVec>, processed: map<string, int>): seq<Message> {
    var missing := Missing(vecs, processed);
    if missing == [] then [] else [GetData(missing)]
  }

  function Answer(c: Chain, v: InvVec): seq<Message> {
    var b := Lookup(c, v.hash);
    if v.kind == "block" && b.Some? then [BlockMsg(b.value)] else []
  }

  /** The asked-for blocks that the chain has, in the order asked. */
  function Answers(c: Chain, vecs: seq<InvVec>): seq<Message> {
    if vecs == [] then []
    else
      var n := |vecs| - 1;
      Answers(c, vecs[..n]) + Answer(c, vecs[n])
  }

  /** Entry `i` asks for a block that the chain has. */
  predicate IsHeld(c: Chain, vecs: seq<InvVec>, i: nat) {
    i < |vecs| && vecs[i].kind == "block" && !IsUnknown(c, vecs[i].hash)
  }

  /** The message answers entry `i` with the first block of the chain with its hash. */
  ghost predicate IsAnswer(c: Chain, vecs: seq<InvVec>, i: nat, m: Message) {
    i < |vecs| && SendsFirst(m, c, vecs[i].hash)
  }

  /** What is sent, exactly: for each entry of kind "block" whose hash is known the first block with that hash,
      in the order asked, and nothing for any other entry. */
  lemma {:induction false} AnswersExactly(c: Chain, vecs: seq<InvVec>) returns (picks: seq<nat>)
    ensures Picks(Answers(c, vecs), picks, |vecs|, (i: nat) => IsHeld(c, vecs, i),
                  (i: nat, m: Message) => IsAnswer(c, vecs, i, m))
  {
    picks := AnswersSoFar(c, vecs, |vecs|);
    assert vecs[..|vecs|] == vecs;
  }

  lemma {:induction false} AnswersSoFar(c: Chain, vecs: seq<InvVec>, n: nat) returns (picks: seq<nat>)
    requires n <= |vecs|
    ensures Picks(Answers(c, vecs[..n]), picks, n, (i: nat) => IsHeld(c, vecs, i),
                  (i: nat, m: Message) => IsAnswer(c, vecs, i, m))
  {
    if n == 0 {
      picks := [];
    } else {
      picks := AnswersSoFar(c, vecs, n - 1);
      OneMoreVec(vecs, n - 1);
      AnswerExactly(c, vecs[n - 1]);
      OneMorePicked(Answers(c, vecs[..n - 1]), picks, n - 1, (i: nat) => IsHeld(c, vecs, i),
                    (i: nat, m: Message) => IsAnswer(c, vecs, i, m), Answer(c, vecs[n - 1]));
      picks := if IsHeld(c, vecs, n - 1) then picks + [n - 1] else picks;
    }
  }

  lemma AnswerExactly(c: Chain, v: InvVec)
    ensures if v.kind == "block" && !IsUnknown(c, v.hash)
            then |Answer(c, v)| == 1 && SendsFirst(Answer(c, v)[0], c, v.hash)
            else Answer(c, v) == []
  {
    var p := PositionOf(c, v.hash);
    assert p < |c| ==> IsFirstWith(c, v.hash, p);
  }

  /** The message carries the first block of the chain with the hash. */
  ghost predicate SendsFirst(m: Message, c: Chain, hash: string) {
    m.BlockMsg? && exists p: nat :: IsFirstWith(c, hash, p) && m.block == c[p]
  }

  /** Answers carry only blocks of the chain, at most one for each block asked for. */
  lemma {:induction false} AnswersAreOwnBlocks(c: Chain, vecs: seq<InvVec>)
    ensures |Answers(c, vecs)| <= |vecs|
    ensures forall m :: m in Answers(c, vecs) ==> m.BlockMsg? && m.block in c
  {
    if vecs != [] {
      AnswersAreOwnBlocks(c, vecs[..|vecs| - 1]);
    }
  }

  lemma OneMoreVec(vecs: seq<InvVec>, i: nat)
    requires i < |vecs|
    ensures vecs[..i + 1][..i] == vecs[..i] && vecs[..i + 1][i] == vecs[i] && vecs[..|vecs|] == vecs
  {
  }

  function FindReply(c: Chain, hash: string): Message {
    var b := Lookup(c, hash);
    BlockFound(b.Some?, b)
  }

  /** On an acknowledgement, the blocks after the tip are asked for if the peer announced more blocks. */
  function AskFor(n: Node, from: nat): seq<Message>
    requires n.chain != []
  {
    var best := if from in n.heights then n.heights[from] else 0;
    if best > |n.chain| then [GetBlocks(Last(n.chain).hash)] else []
  }

  function VerAckReply(n: Node, from: nat): seq<Message>
    requires n.chain != []
  {
    AskFor(n, from) + [GetPeers]
  }

  /** What a node keeps of a message that carries no block: the height a version announces. */
  function Learn(n: Node, from: nat, m: Message): Node {
    if m.Version? && from in n.heights then n.(heights := n.heights[from := m.bestHeight]) else n
  }

  function Reply(n: Node, from: nat, m: Message): seq<Message>
    requires n.chain != []
  {
    match m
    case Version(_) => [VerAck]
    case VerAck => VerAckReply(n, from)
    case GetBlocks(startHash) => InvReply(n.chain, startHash)
    case Inv(vecs) => GetDataReply(vecs, n.processed)
    case GetData(vecs) => Answers(n.chain, vecs)
    case GetPeers => [Peers]
    case FindBlock(hash) => [FindReply(n.chain, hash)]
    case _ => []
  }

  /** `handleMessage`. */
  function Receive(n: Node, from: nat, m: Message, now: int, mark: int): Effect
    requires n.chain != []
  {
    if m.BlockMsg? then OnBlock(n, m.block, now, mark)
    else if m.BlockFound? then OnBlockFound(n, m.found, m.foundBlock, now, mark)
    else Effect(Learn(n, from, m), [], Reply(n, from, m))
  }

  /** One tick of `cleanupProcessedBlocks`. */
  function CleanUp(n: Node, now: int): Node {
    n.(processed := map h | h in n.processed && now - n.processed[h] <= PROCESSED_AGE :: n.processed[h], clock := now)
  }

  // ----- What each message does, without the definitions above -----

  /** A block whose hash is marked is ignored. */
  lemma MarkedBlockIgnored(n: Node, from: nat, b: Block, now: int, mark: int)
    requires n.chain != [] && b.hash in n.processed
    ensures Receive(n, from, BlockMsg(b), now, mark) == Effect(n, [], [])
  {
  }

  /** Any other is offered to the chain and marked, whether it is accepted or not; no other mark changes. */
  lemma UnmarkedBlockOffered(n: Node, from: nat, b: Block, now: int, mark: int)
    requires n.chain != [] && b.hash !in n.processed
    ensures var e := Receive(n, from, BlockMsg(b), now, mark);
            && e.node == Node(Extend(n.chain, b, now), n.processed[b.hash := mark], n.heights, mark)
            && e.gossip == (if Accepts(n.chain, b, now) then [b] else []) && e.reply == []
  {
    assert n.processed[b.hash := mark][b.hash := mark] == n.processed[b.hash := mark];
  }

  /** A found block is offered too, but only an accepted one is marked and broadcast, unless its hash was
      marked already; a rejected one changes nothing but the clock, and no block at all changes nothing. */
  lemma FoundBlockOffered(n: Node, from: nat, found: bool, b: Option<Block>, now: int, mark: int)
    requires n.chain != []
    ensures var e := Receive(n, from, BlockFound(found, b), now, mark);
            && e.reply == []
            && (!found || b.None? ==> e == Effect(n, [], []))
            && (found && b.Some? && !Accepts(n.chain, b.value, now) ==> e == Effect(n.(clock := mark), [], []))
            && (found && b.Some? && Accepts(n.chain, b.value, now) ==>
                  && e.node.chain == n.chain + [b.value] && e.node.heights == n.heights && e.node.clock == mark
                  && (b.value.hash in n.processed ==> e.gossip == [] && e.node.processed == n.processed)
                  && (b.value.hash !in n.processed ==>
                        e.gossip == [b.value] && e.node.processed == n.processed[b.value.hash := mark]))
  {
  }

  /** A local addition: a block with the given beats is appended, marked and broadcast. */
  lemma AddedIsBroadcast(n: Node, bpm: int, timestamp: Timestamp, now: int, mark: int)
    requires n.chain != [] && Instant(timestamp) <= now
    ensures var e, b := AddLocal(n, bpm, timestamp, now, mark), NextBlock(n.chain, bpm, timestamp);
            && e.reply == [] && e.node.heights == n.heights && e.node.clock == mark
            && e.node.chain == (if bpm >= 0 then n.chain + [b] else n.chain)
            && (bpm < 0 || b.hash in n.processed ==> e.gossip == [] && e.node.processed == n.processed)
            && (bpm >= 0 && b.hash !in n.processed ==>
                  e.gossip == [b] && e.node.processed == n.processed[b.hash := mark])
  {
    NextBlockExtends(n.chain, bpm, timestamp, now);
  }

  /** All other messages change nothing but the height of the sender, which a version announces, and only
      questions and announcements are answered. */
  lemma OtherMessages(n: Node, from: nat, m: Message, now: int, mark: int)
    requires n.chain != [] && !m.BlockMsg? && !m.BlockFound?
    ensures var e := Receive(n, from, m, now, mark);
            && e.gossip == [] && e.node.chain == n.chain && e.node.processed == n.processed
            && e.node.clock == n.clock && e.node.heights.Keys == n.heights.Keys
            && (forall x :: x in n.heights ==>
                  e.node.heights[x] == if m.Version? && x == from then m.bestHeight else n.heights[x])
            && (m.Version? ==> e.reply == [VerAck])
            && (m.GetPeers? ==> e.reply == [Peers])
            && (m.Peers? || m.Other? ==> e.reply == [])
  {
  }

  /** An acknowledgement makes the node ask for the blocks after its tip exactly if the peer announced more
      blocks than it has, and then, always, for the peers of the peer. */
  lemma AcknowledgementAnswered(n: Node, from: nat, now: int, mark: int)
    requires n.chain != []
    ensures var r := Receive(n, from, VerAck, now, mark).reply;
            if from in n.heights && n.heights[from] > |n.chain|
            then r == [GetBlocks(n.chain[|n.chain| - 1].hash), GetPeers] else r == [GetPeers]
  {
  }

  /** The announcement holds the hashes of the blocks of `c` from position `s` on, 500 at most; without any
      there is no announcement. */
  predicate Announces(r: seq<Message>, c: Chain, s: nat) {
    if s >= |c| then r == []
    else
      && |r| == 1 && r[0].Inv? && |r[0].vecs| == (if |c| - s < 500 then |c| - s else 500)
      && forall k :: 0 <= k < |r[0].vecs| ==> r[0].vecs[k] == InvVec("block", c[s + k].hash)
  }

  lemma PageAnnounces(page: Chain, c: Chain, s: nat)
    requires IsPage(page, c, s, 500)
    ensures Announces(if page == [] then [] else [Inv(VecsOf(page))], c, s)
  {
  }

  lemma InvAnnounces(c: Chain, h: string)
    ensures h == "" || IsUnknown(c, h) ==> Announces(InvReply(c, h), c, 0)
    ensures forall p: nat :: h != "" && IsFirstWith(c, h, p) ==> Announces(InvReply(c, h), c, p + 1)
  {
    var page := Page(c, h, 500);
    PageExactly(c, h, 500);
    forall s: nat | IsPage(page, c, s, 500)
      ensures Announces(InvReply(c, h), c, s)
    {
      PageAnnounces(page, c, s);
    }
  }

  /** A request for blocks is answered from the position after the block with the start hash, and from the
      front for the empty hash and for one that is not known. */
  lemma GetBlocksAnswered(n: Node, from: nat, h: string, now: int, mark: int)
    requires n.chain != []
    ensures var r := Receive(n, from, GetBlocks(h), now, mark).reply;
            && (h == "" || IsUnknown(n.chain, h) ==> Announces(r, n.chain, 0))
            && forall p: nat :: h != "" && IsFirstWith(n.chain, h, p) ==> Announces(r, n.chain, p + 1)
  {
    InvAnnounces(n.chain, h);
  }

  /** An announcement is answered by asking for the entries at `picks`, those of blocks not marked, if any. */
  lemma InvAnswered(n: Node, from: nat, vecs: seq<InvVec>, now: int, mark: int) returns (picks: seq<nat>)
    requires n.chain != []
    ensures IsSelection(picks, |vecs|, (i: nat) => IsMissing(vecs, n.processed, i))
    ensures Receive(n, from, Inv(vecs), now, mark).reply
         == if picks == [] then [] else [GetData(seq(|picks|, k requires 0 <= k < |picks| => vecs[picks[k]]))]
  {
    picks := MissingExactly(vecs, n.processed);
    MissingEntries(vecs, n.processed, picks);
  }

  /** A request for data is answered entry by entry. */
  lemma GetDataAnswered(n: Node, from: nat, vecs: seq<InvVec>, now: int, mark: int) returns (picks: seq<nat>)
    requires n.chain != []
    ensures Picks(Receive(n, from, GetData(vecs), now, mark).reply, picks, |vecs|,
                  (i: nat) => IsHeld(n.chain, vecs, i), (i: nat, m: Message) => IsAnswer(n.chain, vecs, i, m))
  {
    picks := AnswersExactly(n.chain, vecs);
  }

  /** A search is answered with the first block that has the hash, or with the answer that there is none. */
  lemma FindBlockAnswered(n: Node, from: nat, h: string, now: int, mark: int)
    requires n.chain != []
    ensures var r := Receive(n, from, FindBlock(h), now, mark).reply;
            && (IsUnknown(n.chain, h) ==> r == [BlockFound(false, None)])
            && forall p: nat :: IsFirstWith(n.chain, h, p) ==> r == [BlockFound(true, Some(n.chain[p]))]
  {
    LookupExactly(n.chain, h);
  }

  // ----- How long marks stay -----

  /** A clean-up keeps exactly the marks that are not more than ten minutes old, with their times. */
  lemma CleanUpExactly(n: Node, now: int)
    ensures var m := CleanUp(n, now);
            && m.chain == n.chain && m.heights == n.heights && m.clock == now
            && (forall h :: h in m.processed <==> h in n.processed && now - n.processed[h] <= 600_000_000_000)
            && forall h :: h in m.processed ==> m.processed[h] == n.processed[h]
  {
  }

  /** No event but a late enough clean-up forgets a mark, and none renews it. */
  lemma EventKeepsMark(n: Node, e: Event, h: string)
    requires n.chain != [] && h in n.processed
    requires e.Cleaned? ==> e.now - n.processed[h] <= 600_000_000_000
    ensures var m := Handle(n, e).node; h in m.processed && m.processed[h] == n.processed[h]
  {
    match e
    case Received(from, m, now, mark) => MessageKeepsMark(n, from, m, now, mark, h);
    case Added(bpm, t, now, mark) => OfferKeepsMark(n, NextBlock(n.chain, bpm, t), now, mark, h);
    case Cleaned(now) => CleanUpExactly(n, now);
  }

  lemma MessageKeepsMark(n: Node, from: nat, m: Message, now: int, mark: int, h: string)
    requires n.chain != [] && h in n.processed
    ensures var x := Receive(n, from, m, now, mark).node;
            h in x.processed && x.processed[h] == n.processed[h]
  {
    if m.BlockMsg? {
      if m.block.hash in n.processed {
        MarkedBlockIgnored(n, from, m.block, now, mark);
      } else {
        UnmarkedBlockOffered(n, from, m.block, now, mark);
      }
    } else if m.BlockFound? {
      FoundBlockOffered(n, from, m.found, m.foundBlock, now, mark);
    } else {
      OtherMessages(n, from, m, now, mark);
    }
  }

  lemma OfferKeepsMark(n: Node, b: Block, now: int, mark: int, h: string)
    requires n.chain != [] && h in n.processed
    ensures var x := Offer(n, b, now, mark).node;
            h in x.processed && x.processed[h] == n.processed[h]
  {
    SettleKeepsMark(n, b, Accepts(n.chain, b, now), mark, h);
  }

  lemma SettleKeepsMark(n: Node, b: Block, accepted: bool, mark: int, h: string)
    requires h in n.processed
    ensures var x := Settle(n, b, accepted, mark).node;
            h in x.processed && x.processed[h] == n.processed[h]
  {
  }

  // ----- What every event does to the chain and to the gossip -----

  datatype Event =
    | Received(from: nat, message: Message, now: int, mark: int)
    | Added(bpm: int, timestamp: Timestamp, now: int, mark: int)
    | Cleaned(now: int)

  predicate Readable(n: Node, e: Event) {
    match e
    case Received(_, _, now, mark) => n.clock <= now <= mark
    case Added(_, t, now, mark) => n.clock <= Instant(t) <= now <= mark
    case Cleaned(now) => n.clock <= now
  }

  function Handle(n: Node, e: Event): Effect
    requires n.chain != []
  {
    match e
    case Received(from, m, now, mark) => Receive(n, from, m, now, mark)
    case Added(bpm, t, now, mark) => AddLocal(n, bpm, t, now, mark)
    case Cleaned(now) => Effect(CleanUp(n, now), [], [])
  }

  /** The block a message carries, if any. */
  function Carried(m: Message): Option<Block> {
    match m
    case BlockMsg(b) => Some(b)
    case BlockFound(_, b) => b
    case _ => None
  }

  /** The block an event brings along, if any. */
  function Brought(n: Node, e: Event): Option<Block>
    requires n.chain != []
  {
    match e
    case Received(_, m, _, _) => Carried(m)
    case Added(bpm, t, _, _) => Some(NextBlock(n.chain, bpm, t))
    case Cleaned(_) => None
  }

  /** The chain is left as it is, or that block is appended to it. */
  predicate AppendsOnly(n: Node, f: Effect, b: Option<Block>) {
    f.node.chain == n.chain || (b.Some? && f.node.chain == n.chain + [b.value])
  }

  lemma OfferAppends(n: Node, b: Block, now: int, mark: int)
    requires n.chain != [] && n.clock <= now <= mark
    ensures var e := Offer(n, b, now, mark);
            Grows(n, e) && AppendsOnly(n, e, Some(b))
  {
    ExtendKeepsValidLater(n.chain, b, n.clock, now);
    StillValid(Extend(n.chain, b, now), now, mark);
    SettleGrows(n, b, Accepts(n.chain, b, now), mark);
  }

  lemma SettleGrows(n: Node, b: Block, accepted: bool, mark: int)
    requires n.clock <= mark
    requires ValidChain(n.chain, n.clock) ==> ValidChain(if accepted then n.chain + [b] else n.chain, mark)
    ensures Grows(n, Settle(n, b, accepted, mark)) && AppendsOnly(n, Settle(n, b, accepted, mark), Some(b))
  {
  }

  lemma OfferExtends(n: Node, b: Block, now: int, mark: int)
    requires n.chain != []
    ensures Offer(n, b, now, mark).node.chain == Extend(n.chain, b, now)
  {
  }

  /** The chain is left as it is or one block is appended to it; a chain valid at the node's clock stays
      so; and only the block just appended is broadcast. */
  predicate Grows(n: Node, f: Effect) {
    && (f.node.chain == n.chain || (f.node.chain != [] && f.node.chain == n.chain + [Last(f.node.chain)]))
    && (f.gossip == [] || (|f.gossip| == 1 && f.node.chain == n.chain + f.gossip))
    && (ValidChain(n.chain, n.clock) ==> ValidChain(f.node.chain, f.node.clock))
    && n.clock <= f.node.clock
  }

  lemma EventAppends(n: Node, e: Event)
    requires n.chain != [] && Readable(n, e)
    ensures Grows(n, Handle(n, e)) && AppendsOnly(n, Handle(n, e), Brought(n, e))
  {
    match e
    case Received(from, m, now, mark) => ReceiveAppends(n, from, m, now, mark);
    case Added(bpm, t, now, mark) => OfferAppends(n, NextBlock(n.chain, bpm, t), now, mark);
    case Cleaned(now) => StillValid(n.chain, n.clock, now);
  }

  /** Any message leaves the chain alone or appends the block it carries, keeps the chain valid, and makes
      the node broadcast no other block. */
  lemma ReceiveAppends(n: Node, from: nat, m: Message, now: int, mark: int)
    requires n.chain != [] && n.clock <= now <= mark
    ensures var f := Receive(n, from, m, now, mark);
            Grows(n, f) && AppendsOnly(n, f, Carried(m))
  {
    if m.BlockMsg? {
      BlockMsgAppends(n, from, m.block, now, mark);
    } else if m.BlockFound? {
      BlockFoundAppends(n, from, m.found, m.foundBlock, now, mark);
    } else {
      QuestionAppends(n, from, m, now, mark);
    }
  }

  lemma BlockMsgAppends(n: Node, from: nat, b: Block, now: int, mark: int)
    requires n.chain != [] && n.clock <= now <= mark
    ensures var f := Receive(n, from, BlockMsg(b), now, mark);
            Grows(n, f) && AppendsOnly(n, f, Some(b))
  {
    OnBlockAppends(n, b, now, mark);
  }

  lemma BlockFoundAppends(n: Node, from: nat, found: bool, b: Option<Block>, now: int, mark: int)
    requires n.chain != [] && n.clock <= now <= mark
    ensures var f := Receive(n, from, BlockFound(found, b), now, mark);
            Grows(n, f) && AppendsOnly(n, f, b)
  {
    OnBlockFoundAppends(n, found, b, now, mark);
  }

  lemma QuestionAppends(n: Node, from: nat, m: Message, now: int, mark: int)
    requires n.chain != [] && !m.BlockMsg? && !m.BlockFound?
    ensures var f := Receive(n, from, m, now, mark);
            Grows(n, f) && AppendsOnly(n, f, Carried(m))
  {
    NothingGrows(n, Receive(n, from, m, now, mark), Carried(m));
  }

  lemma NothingGrows(n: Node, f: Effect, b: Option<Block>)
    requires f.node.chain == n.chain && f.node.clock == n.clock && f.gossip == []
    ensures Grows(n, f) && AppendsOnly(n, f, b)
  {
  }

  lemma ReceiveReplies(n: Node, from: nat, m: Message, now: int, mark: int)
    requires n.chain != []
    ensures Receive(n, from, m, now, mark).reply
         == if m.BlockMsg? || m.BlockFound? then [] else Reply(n, from, m)
  {
  }

  lemma OnBlockAppends(n: Node, b: Block, now: int, mark: int)
    requires n.chain != [] && n.clock <= now <= mark
    ensures Grows(n, OnBlock(n, b, now, mark)) && AppendsOnly(n, OnBlock(n, b, now, mark), Some(b))
  {
    OfferAppends(n, b, now, mark);
  }

  lemma OnBlockFoundAppends(n: Node, found: bool, b: Option<Block>, now: int, mark: int)
    requires n.chain != [] && n.clock <= now <= mark
    ensures var f := OnBlockFound(n, found, b, now, mark); Grows(n, f) && AppendsOnly(n, f, b)
  {
    if found && b.Some? {
      OfferAppends(n, b.value, now, mark);
    } else {
      NothingGrows(n, OnBlockFound(n, found, b, now, mark), b);
    }
  }

  /** A run of one node: its states before, between and after the events, and what each event did. */
  datatype Run = Run(nodes: seq<Node>, events: seq<Event>, effects: seq<Effect>)

  predicate IsEvent(r: Run, k: nat)
    requires |r.nodes| == |r.events| + 1 == |r.effects| + 1 && k < |r.events|
  {
    && r.nodes[k].chain != [] && Readable(r.nodes[k], r.events[k])
    && r.effects[k] == Handle(r.nodes[k], r.events[k]) && r.nodes[k + 1] == r.effects[k].node
  }

  predicate IsRun(r: Run) {
    && |r.nodes| == |r.events| + 1 == |r.effects| + 1 && r.nodes[0].chain != []
    && forall k :: 0 <= k < |r.events| ==> IsEvent(r, k)
  }

  /** All blocks broadcast during the first `k` events, in order. */
  function Gossiped(effects: seq<Effect>, k: nat): seq<Block>
    requires k <= |effects|
  {
    if k == 0 then [] else Gossiped(effects, k - 1) + effects[k - 1].gossip
  }

  lemma RunGrows(r: Run, k: nat)
    requires IsRun(r) && k < |r.events|
    ensures Grows(r.nodes[k], r.effects[k]) && r.nodes[k + 1] == r.effects[k].node
  {
    assert IsEvent(r, k);
    EventAppends(r.nodes[k], r.events[k]);
  }

  /** The block stands in the chain at the position its index gives, from `start` on. */
  predicate StandsAt(b: Block, c: Chain, start: nat) {
    start <= b.index < |c| && c[b.index] == b
  }

  /** The log consists of blocks of the chain at positions from `start` on, each position at most once and
      in ascending order. */
  predicate InChainOrder(log: seq<Block>, c: Chain, start: nat) {
    && (forall i :: 0 <= i < |log| ==> StandsAt(log[i], c, start))
    && (forall i, j :: 0 <= i < j < |log| ==> log[i].index < log[j].index)
  }

  lemma {:induction false} RunStaysValid(r: Run, k: nat)
    requires IsRun(r) && k <= |r.events|
    requires ValidChain(r.nodes[0].chain, r.nodes[0].clock)
    ensures ValidChain(r.nodes[k].chain, r.nodes[k].clock) && Linked(r.nodes[k].chain)
    ensures r.nodes[0].chain <= r.nodes[k].chain
  {
    if k > 0 {
      RunStaysValid(r, k - 1);
      RunGrows(r, k - 1);
    }
    ValidIffLinkedAndTimely(r.nodes[k].chain, r.nodes[k].clock);
  }

  /** In a run a mark set at time `t` stays, with that time, as long as no clean-up comes more than ten minutes
      after `t`. */
  lemma {:induction false} MarkStays(r: Run, h: string, i: nat, j: nat)
    requires IsRun(r) && i <= j <= |r.events| && h in r.nodes[i].processed
    requires forall k :: i <= k < j && r.events[k].Cleaned? ==>
               r.events[k].now - r.nodes[i].processed[h] <= 600_000_000_000
    ensures h in r.nodes[j].processed && r.nodes[j].processed[h] == r.nodes[i].processed[h]
  {
    if i < j {
      MarkStays(r, h, i, j - 1);
      assert IsEvent(r, j - 1);
      EventKeepsMark(r.nodes[j - 1], r.events[j - 1], h);
    }
  }

  /** And the first clean-up that comes later forgets it: the mark is held exactly until then. */
  lemma MarkExpires(r: Run, h: string, i: nat, j: nat)
    requires IsRun(r) && i <= j < |r.events| && h in r.nodes[i].processed
    requires forall k :: i <= k < j && r.events[k].Cleaned? ==>
               r.events[k].now - r.nodes[i].processed[h] <= 600_000_000_000
    ensures h in r.nodes[j].processed
    ensures r.events[j].Cleaned? ==>
              (h !in r.nodes[j + 1].processed <==> r.events[j].now - r.nodes[i].processed[h] > 600_000_000_000)
  {
    MarkStays(r, h, i, j);
    assert IsEvent(r, j);
    if r.events[j].Cleaned? {
      CleanUpExactly(r.nodes[j], r.events[j].now);
    }
  }

  /** What a node has broadcast so far are blocks of its chain, in the order of the chain, none twice, and
      none of the blocks it started with. */
  lemma {:induction false} GossipFollowsChain(r: Run, k: nat)
    requires IsRun(r) && k <= |r.events|
    requires ValidChain(r.nodes[0].chain, r.nodes[0].clock)
    ensures InChainOrder(Gossiped(r.effects, k), r.nodes[k].chain, |r.nodes[0].chain|)
  {
    if k > 0 {
      GossipFollowsChain(r, k - 1);
      GossipGrows(r, k - 1);
    }
  }

  lemma GossipGrows(r: Run, k: nat)
    requires IsRun(r) && k < |r.events| && ValidChain(r.nodes[0].chain, r.nodes[0].clock)
    requires InChainOrder(Gossiped(r.effects, k), r.nodes[k].chain, |r.nodes[0].chain|)
    ensures InChainOrder(Gossiped(r.effects, k + 1), r.nodes[k + 1].chain, |r.nodes[0].chain|)
  {
    var c, d := r.nodes[k].chain, r.nodes[k + 1].chain;
    assert |r.nodes[0].chain| <= |c| && Linked(d) by {
      RunStaysValid(r, k);
      RunStaysValid(r, k + 1);
    }
    assert c <= d && (r.effects[k].gossip == [] || (d == c + r.effects[k].gossip && |r.effects[k].gossip| == 1)) by {
      RunGrows(r, k);
    }
    LogGrows(Gossiped(r.effects, k), c, r.effects[k].gossip, d, |r.nodes[0].chain|);
  }

  lemma LogGrows(log: seq<Block>, c: Chain, gossip: seq<Block>, d: Chain, start: nat)
    requires InChainOrder(log, c, start) && start <= |c| && c <= d && Linked(d)
    requires gossip == [] || (d == c + gossip && |gossip| == 1)
    ensures InChainOrder(log + gossip, d, start)
  {
    if gossip == [] {
      assert log + gossip == log;
    } else {
      assert d[|c|] == gossip[0] && gossip[0].index == |c|;
      assert log + gossip == log + [gossip[0]];
    }
    forall i | 0 <= i < |log + gossip|
      ensures StandsAt((log + gossip)[i], d, start)
    {
      assert i < |log| ==> StandsAt(log[i], c, start);
    }
  }

  /** No two effects broadcast blocks with one hash. */
  predicate NoHashTwice(effects: seq<Effect>) {
    forall j, k, x, y ::
      0 <= j < k < |effects| && x in effects[j].gossip && y in effects[k].gossip ==> x.hash != y.hash
  }

  /** Over the whole run of a node no hash is broadcast twice, even though the clean-up forgets processed
      hashes and blocks may be delivered again, unless its chain exhibits a hash collision: each event
      broadcasts at most one block, and no two events blocks with one hash. */
  lemma EachHashBroadcastOnce(r: Run)
    requires IsRun(r) && ValidChain(r.nodes[0].chain, r.nodes[0].clock)
    ensures var c := r.nodes[|r.events|].chain;
            Collision(c, c) || DistinctHashes(Gossiped(r.effects, |r.events|))
    ensures forall k :: 0 <= k < |r.events| ==> |r.effects[k].gossip| <= 1
    ensures var c := r.nodes[|r.events|].chain;
            Collision(c, c) || NoHashTwice(r.effects)
  {
    LogIsDistinct(r);
    forall k | 0 <= k < |r.events|
      ensures |r.effects[k].gossip| <= 1
    {
      RunGrows(r, k);
    }
    if DistinctHashes(Gossiped(r.effects, |r.events|)) {
      DistinctLog(r.effects);
    }
  }

  lemma LogIsDistinct(r: Run)
    requires IsRun(r) && ValidChain(r.nodes[0].chain, r.nodes[0].clock)
    ensures var c := r.nodes[|r.events|].chain;
            Collision(c, c) || DistinctHashes(Gossiped(r.effects, |r.events|))
  {
    GossipFollowsChain(r, |r.events|);
    RunStaysValid(r, |r.events|);
    HashesDistinct(r.nodes[|r.events|].chain);
  }

  lemma DistinctLog(effects: seq<Effect>)
    requires DistinctHashes(Gossiped(effects, |effects|))
    ensures NoHashTwice(effects)
  {
    forall j, k, x, y | 0 <= j < k < |effects| && x in effects[j].gossip && y in effects[k].gossip
      ensures x.hash != y.hash
    {
      TwoGossiped(effects, j, k, x, y);
    }
  }

  lemma {:induction false} GossipedHolds(effects: seq<Effect>, j: nat, n: nat, x: Block)
    requires j < n <= |effects| && x in effects[j].gossip
    ensures x in Gossiped(effects, n)
  {
    if j < n - 1 {
      GossipedHolds(effects, j, n - 1, x);
    }
  }

  lemma {:induction false} GossipedStays(effects: seq<Effect>, m: nat, n: nat)
    requires m <= n <= |effects|
    ensures Gossiped(effects, m) <= Gossiped(effects, n)
  {
    if m < n {
      GossipedStays(effects, m, n - 1);
    }
  }

  lemma TwoGossiped(effects: seq<Effect>, j: nat, k: nat, x: Block, y: Block)
    requires j < k < |effects| && x in effects[j].gossip && y in effects[k].gossip
    requires DistinctHashes(Gossiped(effects, |effects|))
    ensures x.hash != y.hash
  {
    var log, before := Gossiped(effects, |effects|), Gossiped(effects, k);
    GossipedHolds(effects, j, k, x);
    GossipedStays(effects, k + 1, |effects|);
    var m :| 0 <= m < |before| && before[m] == x;
    var i :| 0 <= i < |effects[k].gossip| && effects[k].gossip[i] == y;
    assert log[m] == x && log[|before| + i] == y;
  }

  /** If block `b` has been appended, then it is broadcast exactly when its hash was not marked, and its hash
      is marked now. */
  predicate BroadcastUnlessMarked(n: Node, f: Effect, b: Block) {
    f.node.chain != n.chain ==>
      f.gossip == (if b.hash in n.processed then [] else [b]) && b.hash in f.node.processed
  }

  lemma OfferBroadcasts(n: Node, b: Block, now: int, mark: int)
    requires n.chain != []
    ensures BroadcastUnlessMarked(n, Offer(n, b, now, mark), b)
  {
    SettleBroadcasts(n, b, Accepts(n.chain, b, now), mark);
  }

  lemma SettleBroadcasts(n: Node, b: Block, accepted: bool, mark: int)
    ensures BroadcastUnlessMarked(n, Settle(n, b, accepted, mark), b)
  {
  }

  lemma MarkBroadcasts(n: Node, e: Effect, b: Block, mark: int)
    requires BroadcastUnlessMarked(n, e, b)
    ensures BroadcastUnlessMarked(n, Mark(e, b.hash, mark), b)
  {
  }

  lemma BlockMsgBroadcasts(n: Node, from: nat, b: Block, now: int, mark: int)
    requires n.chain != []
    ensures BroadcastUnlessMarked(n, Receive(n, from, BlockMsg(b), now, mark), b)
  {
    OfferBroadcasts(n, b, now, mark);
    MarkBroadcasts(n, Offer(n, b, now, mark), b, mark);
  }

  /** An appended block, whether it came in a `block` or a `blockfound` message or was made locally, is
      broadcast exactly when its hash was not marked, and its hash is marked afterwards. */
  lemma AppendedIsBroadcastUnlessMarked(n: Node, e: Event)
    requires n.chain != [] && Readable(n, e) && Handle(n, e).node.chain != n.chain
    ensures Brought(n, e).Some? && BroadcastUnlessMarked(n, Handle(n, e), Brought(n, e).value)
  {
    EventAppends(n, e);
    match e
    case Received(from, m, now, mark) => ReceivedBroadcasts(n, from, m, now, mark);
    case Added(bpm, t, now, mark) => OfferBroadcasts(n, NextBlock(n.chain, bpm, t), now, mark);
    case Cleaned(_) =>
  }

  lemma ReceivedBroadcasts(n: Node, from: nat, m: Message, now: int, mark: int)
    requires n.chain != [] && Carried(m).Some?
    ensures BroadcastUnlessMarked(n, Receive(n, from, m, now, mark), Carried(m).value)
  {
    if m.BlockMsg? {
      BlockMsgBroadcasts(n, from, m.block, now, mark);
    } else {
      BlockFoundBroadcasts(n, from, m.found, m.foundBlock.value, now, mark);
    }
  }

  lemma BlockFoundBroadcasts(n: Node, from: nat, found: bool, b: Block, now: int, mark: int)
    requires n.chain != []
    ensures BroadcastUnlessMarked(n, Receive(n, from, BlockFound(found, Some(b)), now, mark), b)
  {
    OfferBroadcasts(n, b, now, mark);
  }

  /** A block that comes too early is rejected, marked, and ignored when it comes again, until the clean-up
      forgets it more than ten minutes later. */
  lemma EarlyBlockIsSuppressed(n: Node, b: Block, now: int, mark: int)
    requires n.chain != [] && b.hash !in n.processed && !Accepts(n.chain, b, now)
    ensures var after := OnBlock(n, b, now, mark).node;
            && after.chain == n.chain
            && (forall x, y :: OnBlock(after, b, x, y) == Effect(after, [], []))
            && (forall t :: b.hash !in CleanUp(after, t).processed <==> t - mark > PROCESSED_AGE)
  {
    var after := OnBlock(n, b, now, mark).node;
    assert after.processed[b.hash] == mark;
  }

  /** A `blockfound` answer carries the one block with the hash looked for, which the asking node then
      treats like any other; without such a block nothing happens. */
  lemma FindExchange(n: Node, c: Chain, hash: string, from: nat, now: int, mark: int)
    requires n.chain != [] && DistinctHashes(c)
    ensures var after := Receive(n, from, FindReply(c, hash), now, mark).node;
            && (forall i :: 0 <= i < |c| && c[i].hash == hash ==> after.chain == Extend(n.chain, c[i], now))
            && ((forall i :: 0 <= i < |c| ==> c[i].hash != hash) ==> after == n)
  {
    if i :| 0 <= i < |c| && c[i].hash == hash {
      LookupInvertsPosition(c, i);
    }
  }

  /** Syncing with a forked peer never changes the chain: a message carrying only blocks of a valid chain
      that differs from one's own at some position has no effect on it. */
  lemma ForkedPeerChangesNothing(n: Node, a: Chain, k: nat, from: nat, m: Message, now: int, mark: int)
    requires Linked(n.chain) && Linked(a) && !Collision(a, n.chain)
    requires k < |a| && k < |n.chain| && a[k].hash != n.chain[k].hash
    requires Carried(m).Some? ==> Carried(m).value in a
    ensures Receive(n, from, m, now, mark).node.chain == n.chain
  {
    if Carried(m).Some? {
      OfferRejected(n, a, k, Carried(m).value, now, mark);
      if m.BlockMsg? {
        RejectedBlockMsg(n, from, m.block, now, mark);
      } else {
        RejectedBlockFound(n, from, m.found, m.foundBlock.value, now, mark);
      }
    } else {
      NothingCarried(n, from, m, now, mark);
    }
  }

  lemma NothingCarried(n: Node, from: nat, m: Message, now: int, mark: int)
    requires n.chain != [] && Carried(m).None?
    ensures Receive(n, from, m, now, mark).node.chain == n.chain
  {
    if m.BlockFound? {
      assert OnBlockFound(n, m.found, None, now, mark) == Effect(n, [], []);
    }
  }

  lemma OfferRejected(n: Node, a: Chain, k: nat, b: Block, now: int, mark: int)
    requires Linked(n.chain) && Linked(a) && !Collision(a, n.chain)
    requires k < |a| && k < |n.chain| && a[k].hash != n.chain[k].hash && b in a
    ensures Offer(n, b, now, mark).node.chain == n.chain
  {
    var i :| 0 <= i < |a| && a[i] == b;
    ForkedPeerIsIgnored(a, n.chain, k, i, now);
    OfferExtends(n, b, now, mark);
  }

  lemma RejectedBlockMsg(n: Node, from: nat, b: Block, now: int, mark: int)
    requires n.chain != [] && Offer(n, b, now, mark).node.chain == n.chain
    ensures Receive(n, from, BlockMsg(b), now, mark).node.chain == n.chain
  {
    assert b.hash !in n.processed ==>
      Receive(n, from, BlockMsg(b), now, mark) == Mark(Offer(n, b, now, mark), b.hash, mark);
  }

  lemma RejectedBlockFound(n: Node, from: nat, found: bool, b: Block, now: int, mark: int)
    requires n.chain != [] && Offer(n, b, now, mark).node.chain == n.chain
    ensures Receive(n, from, BlockFound(found, Some(b)), now, mark).node.chain == n.chain
  {
  }
}
