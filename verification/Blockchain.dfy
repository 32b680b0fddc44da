/** The mutable doubly linked list of blocks (internal/blockchain/blockchain.go and blockchain_node.go). */
module LinkedChain {
  import opened Options
  import opened Timestamps
  import opened Blocks
  import opened Chains
  import ForkChoice

  /** `time.Now()`: every reading may be any timestamp that is not behind the one before. */
  class Clock {
    var reading: Timestamp

    function Time(): int
      reads this
    {
      Instant(reading)
    }

    constructor ()
    {
      reading := EPOCH;
    }

    method Now() returns (t: Timestamp)
      modifies this
      ensures Instant(t) == Time() && old(Time()) <= Time()
    {
      t := *;
      if Instant(t) < Instant(reading) {
        t := reading;
      }
      reading := t;
    }
  }

  class BlockchainNode {
    const block: Block
    var next: BlockchainNode?
    var prev: BlockchainNode?
    ghost const position: nat  // in the list it is made for

    constructor (block: Block, ghost position: nat)
      ensures this.block == block && this.position == position && next == null && prev == null
    {
      this.block := block;
      this.position := position;
      next, prev := null, null;
    }
  }

  /** The answers of `ValidateChain` and `TryAcceptChain`. */
  datatype Reason =
    | NoReason
    | EmptyChain
    | GenesisMismatch
    | FirstBlockInvalid(error: BlockError)
    | BlockInvalid(position: nat, error: BlockError)
    | NotLonger
    | Replaced
    | FailedToReplace

  ghost predicate FailsBetween(b: Block, prev: Option<Block>, error: BlockError, from: int, to: int) {
    exists t :: from <= t <= to && Validate(b, prev, t) == Some(error)
  }

  /** A rejection tells the truth: the named block is the first one that fails, and it fails with the
      named error at some clock reading between `from` and `to`. */
  ghost predicate Explains(reason: Reason, blocks: Chain, from: int, to: int) {
    match reason
    case EmptyChain => blocks == []
    case GenesisMismatch => blocks != [] && blocks[0].index == 0 && blocks[0].hash != Genesis().hash
    case FirstBlockInvalid(e) =>
      && blocks != [] && (blocks[0].index == 0 ==> blocks[0].hash == Genesis().hash)
      && FailsBetween(blocks[0], None, e, from, to)
    case BlockInvalid(i, e) =>
      && 0 < i < |blocks| && blocks[0].hash == Genesis().hash && FirstPass(blocks, i, to)
      && FailsBetween(blocks[i], Some(blocks[i - 1]), e, from, to)
    case _ => false
  }

  /** What every registered callback has been called with, after one more call of each. */
  function Notified(calls: seq<Chain>, block: Block): seq<Chain> {
    seq(|calls|, i requires 0 <= i < |calls| => calls[i] + [block])
  }

  /** Every callback has been called with exactly the blocks from a position on, in order. */
  predicate CalledSince(calls: seq<Chain>, since: seq<nat>, c: Chain) {
    |calls| == |since| && forall i :: 0 <= i < |calls| ==> since[i] <= |c| && calls[i] == c[since[i]..]
  }

  lemma NotifiedKeepsUp(calls: seq<Chain>, since: seq<nat>, c: Chain, b: Block)
    ensures CalledSince(calls, since, c) ==> CalledSince(Notified(calls, b), since, c + [b])
  {
    if CalledSince(calls, since, c) {
      forall i | 0 <= i < |calls|
        ensures (c + [b])[since[i]..] == calls[i] + [b]
      {
      }
    }
  }

  class Blockchain {
    var head: BlockchainNode?
    var tail: BlockchainNode?
    var length: int
    var calls: seq<Chain>  // one entry for each registered callback: the blocks it was called with
    const clock: Clock
    ghost var nodes: seq<BlockchainNode>
    ghost var since: seq<nat>  // for each callback, the length of the chain when it was registered

    /** Every callback has seen exactly the blocks appended since it was registered, in order. */
    ghost predicate Notifying()
      reads this
    {
      CalledSince(calls, since, Blocks())
    }

    /** The nodes form an acyclic doubly linked list from head to tail with mutually inverse links. */
    ghost predicate Valid()
      reads this, nodes
    {
      && length == |nodes| > 0
      && head == nodes[0] && tail == nodes[|nodes| - 1]
      && Links(nodes)
    }

    static ghost predicate Links(nodes: seq<BlockchainNode>)
      reads nodes
    {
      && (forall i :: 0 <= i < |nodes| ==> nodes[i].position == i)  // so all are different
      && (forall i {:trigger nodes[i].next} :: 0 <= i < |nodes| ==>
            nodes[i].next == (if i + 1 < |nodes| then nodes[i + 1] else null))
      && (forall i {:trigger nodes[i].prev} :: 0 <= i < |nodes| ==>
            nodes[i].prev == (if i > 0 then nodes[i - 1] else null))
    }

    ghost function Blocks(): Chain
      reads this
    {
      Contents(nodes)
    }

    static ghost function Contents(nodes: seq<BlockchainNode>): (c: Chain)
      ensures |c| == |nodes| && forall i :: 0 <= i < |c| ==> c[i] == nodes[i].block
    {
      seq(|nodes|, i requires 0 <= i < |nodes| => nodes[i].block)
    }

    /** The blocks make up a valid chain now. */
    ghost predicate Sound()
      reads this, clock
    {
      ValidChain(Blocks(), clock.Time())
    }

    /** `NewBlockchain`. */
    constructor (clock: Clock)
      ensures Valid() && fresh(tail) && this.clock == clock
      ensures Blocks() == [Genesis()] && calls == [] && Notifying()
      ensures Instant(EPOCH) <= clock.Time() + MAX_TIME_DRIFT ==> Sound()
    {
      var node := new BlockchainNode(Genesis(), 0);
      this.clock := clock;
      head, tail, length, calls := node, node, 1, [];
      nodes, since := [node], [];
      new;
      if Instant(EPOCH) <= clock.Time() + MAX_TIME_DRIFT {
        NewChainIsValid(clock.Time());
      }
    }

    method AddBlock(bpm: int) returns (b: Block, appended: bool, ghost timestamp: Timestamp, ghost now: int)
      requires Valid()
      modifies this`tail, this`length, this`nodes, this`calls, tail`next, clock
      ensures Valid() && (tail == old(tail) || fresh(tail))
      ensures old(clock.Time()) <= Instant(timestamp) <= now == clock.Time()
      ensures b == NextBlock(old(Blocks()), bpm, timestamp) && appended == (bpm >= 0)
      ensures IsNextBlock(b, old(Blocks()), bpm, timestamp)
      ensures Blocks() == if appended then old(Blocks()) + [b] else old(Blocks())
      ensures calls == if appended then Notified(old(calls), b) else old(calls)
      ensures old(Sound()) ==> Sound()
      ensures old(Notifying()) ==> Notifying()
    {
      b, timestamp := MakeBlock(bpm);
      StillValid(Blocks(), old(clock.Time()), clock.Time());
      appended, now := ProcessBlockInternal(b);
      NextBlockExtends(old(Blocks()), bpm, timestamp, now);
    }

    /** A block on top of the last one, stamped with a reading of the clock. */
    method MakeBlock(bpm: int) returns (b: Block, ghost timestamp: Timestamp)
      requires Valid()
      modifies clock
      ensures old(clock.Time()) <= Instant(timestamp) == clock.Time()
      ensures b == NextBlock(Blocks(), bpm, timestamp)
      ensures IsNextBlock(b, Blocks(), bpm, timestamp)
    {
      ghost var c := Blocks();
      var t := clock.Now();
      timestamp := t;
      var last := GetLastBlock();
      b := NewBlock(last.index + 1, bpm, last.hash, t);
      NextBlockFields(c, bpm, t);
    }

    method ProcessBlock(block: Block) returns (appended: bool, ghost now: int)
      requires Valid()
      modifies this`tail, this`length, this`nodes, this`calls, tail`next, clock
      ensures Valid() && (tail == old(tail) || fresh(tail))
      ensures old(clock.Time()) <= now == clock.Time()
      ensures appended == Accepts(old(Blocks()), block, now)
      ensures Blocks() == Extend(old(Blocks()), block, now)
      ensures calls == if appended then Notified(old(calls), block) else old(calls)
      ensures old(Sound()) ==> Sound()
      ensures old(Notifying()) ==> Notifying()
    {
      appended, now := ProcessBlockInternal(block);
    }

    method ProcessBlockInternal(block: Block) returns (appended: bool, ghost now: int)
      requires Valid()
      modifies this`tail, this`length, this`nodes, this`calls, tail`next, clock
      ensures Valid() && (tail == old(tail) || fresh(tail))
      ensures old(clock.Time()) <= now == clock.Time()
      ensures appended == Accepts(old(Blocks()), block, now)
      ensures Blocks() == Extend(old(Blocks()), block, now)
      ensures calls == if appended then Notified(old(calls), block) else old(calls)
      ensures old(Sound()) ==> Sound()
      ensures old(Notifying()) ==> Notifying()
    {
      NotifiedKeepsUp(calls, since, Blocks(), block);
      appended, now := ValidateAndAppend(block);
      AppendKeepsValid(old(Blocks()), block, appended, old(clock.Time()), now);
    }

    method ValidateAndAppend(block: Block) returns (appended: bool, ghost now: int)
      requires Valid()
      modifies this`tail, this`length, this`nodes, this`calls, tail`next, clock
      ensures Valid() && (tail == old(tail) || fresh(tail))
      ensures old(clock.Time()) <= now == clock.Time()
      ensures appended == Accepts(old(Blocks()), block, now)
      ensures Blocks() == if appended then old(Blocks()) + [block] else old(Blocks())
      ensures calls == if appended then Notified(old(calls), block) else old(calls)
    {
      appended, now := ValidateNext(block);
      if appended {
        Append(block);
      }
    }

    method ValidateNext(block: Block) returns (ok: bool, ghost now: int)
      requires Valid()
      modifies clock
      ensures old(clock.Time()) <= now == clock.Time()
      ensures ok == Accepts(Blocks(), block, now)
    {
      var t := clock.Now();
      now := Instant(t);
      var error := Validate(block, Some(tail.block), Instant(t));
      ok := error == None;
    }

    method Append(block: Block)
      requires Valid()
      modifies this`tail, this`length, this`nodes, this`calls, tail`next
      ensures Valid() && fresh(tail)
      ensures Blocks() == old(Blocks()) + [block] && calls == Notified(old(calls), block)
    {
      AppendNode(block);
      RunCallbacks(block);
    }

    method AppendNode(block: Block)
      requires Valid()
      modifies this`tail, this`length, this`nodes, tail`next
      ensures Valid() && fresh(tail)
      ensures Blocks() == old(Blocks()) + [block]
    {
      var newNode := new BlockchainNode(block, |nodes|);
      newNode.prev := tail;
      tail.next := newNode;
      tail := newNode;
      length := length + 1;
      nodes := nodes + [newNode];
    }

    method RunCallbacks(block: Block)
      modifies this`calls
      ensures calls == Notified(old(calls), block)
    {
      for i := 0 to |calls|
        invariant |calls| == |old(calls)|
        invariant forall k :: 0 <= k < i ==> calls[k] == old(calls)[k] + [block]
        invariant forall k :: i <= k < |calls| ==> calls[k] == old(calls)[k]
      {
        calls := calls[i := calls[i] + [block]];
      }
    }

    method Subscribe()
      modifies this`calls, this`since
      ensures calls == old(calls) + [[]]
      ensures old(Notifying()) ==> Notifying()
    {
      calls := calls + [[]];
      since := since + [|Blocks()|];
    }

    method GetLastBlock() returns (b: Block)
      requires Valid()
      ensures b == Last(Blocks())
    {
      b := tail.block;
    }

    method Length() returns (n: int)
      requires Valid()
      ensures n == |Blocks()|
    {
      n := length;
    }

    /** The chain is checked block by block, each at a clock reading of its own. */
    method IsValid() returns (ok: bool)
      requires Valid()
      modifies clock
      ensures old(clock.Time()) <= clock.Time()
      ensures AllPass(Blocks(), old(clock.Time())) ==> ok
      ensures ok ==> AllPass(Blocks(), clock.Time())
    {
      ok := ValidateNodes(Blocks());
    }

    method ValidateNodes(ghost c: Chain) returns (ok: bool)
      requires Valid() && c == Blocks()
      modifies clock
      ensures old(clock.Time()) <= clock.Time()
      ensures AllPass(c, old(clock.Time())) ==> ok
      ensures ok ==> AllPass(c, clock.Time())
    {
      var current := head;
      ghost var i := 0;
      while current != null
        invariant 0 <= i <= |nodes| && Blocks() == c
        invariant current == if i < |nodes| then nodes[i] else null
        invariant old(clock.Time()) <= clock.Time() && FirstPass(c, i, clock.Time())
        decreases |nodes| - i
      {
        ghost var before := clock.Time();
        var error := ValidateNode(current, i, c);
        OneMorePasses(c, i, before, clock.Time());
        if error.Some? {
          return false;
        }
        current := current.next;
        i := i + 1;
      }
      ok := true;
    }

    /** The block of a node is validated against that of the node before it. */
    method ValidateNode(current: BlockchainNode, ghost i: nat, ghost c: Chain) returns (error: Option<BlockError>)
      requires Valid() && c == Blocks() && i < |nodes| && current == nodes[i]
      modifies clock
      ensures old(clock.Time()) <= clock.Time() && Blocks() == c
      ensures error.None? <==> Passes(c, i, clock.Time())
    {
      var prev := if current.prev != null then Some(current.prev.block) else None;
      assert prev == PrevOf(c, i) && current.block == c[i];
      var now := clock.Now();
      error := Validate(current.block, prev, Instant(now));
    }

    method GetAllBlocks() returns (blocks: seq<Block>)
      requires Valid()
      ensures blocks == Blocks()
    {
      blocks := [];
      var current := head;
      while current != null
        invariant |blocks| <= |nodes| && blocks == Blocks()[..|blocks|]
        invariant current == if |blocks| < |nodes| then nodes[|blocks|] else null
        decreases |nodes| - |blocks|
      {
        blocks := blocks + [current.block];
        current := current.next;
      }
    }

    method GetBlockByHash(hash: string) returns (b: Option<Block>)
      requires Valid()
      ensures b == Lookup(Blocks(), hash)
    {
      var current := head;
      ghost var i := 0;
      while current != null
        invariant 0 <= i <= |nodes|
        invariant current == if i < |nodes| then nodes[i] else null
        invariant forall k :: 0 <= k < i ==> Blocks()[k].hash != hash
        decreases |nodes| - i
      {
        if current.block.hash == hash {
          return Some(current.block);
        }
        current := current.next;
        i := i + 1;
      }
      b := None;
    }

    method GetBlocksAfter(hash: string, limit: int) returns (blocks: seq<Block>)
      requires Valid()
      ensures blocks == Page(Blocks(), hash, limit)
    {
      var current := head;
      ghost var start := 0;
      if hash != "" {
        current, start := FindAfter(hash);
      }
      blocks := Collect(current, start, limit);
    }

    /** The node after the one with the hash, or the head if there is none with that hash. */
    method FindAfter(hash: string) returns (current: BlockchainNode?, ghost start: nat)
      requires Valid() && hash != ""
      ensures start == PageStart(Blocks(), hash)
      ensures current == if start < |nodes| then nodes[start] else null
    {
      current, start := head, 0;
      while current != null && current.block.hash != hash
        invariant 0 <= start <= |nodes|
        invariant current == if start < |nodes| then nodes[start] else null
        invariant forall k :: 0 <= k < start ==> Blocks()[k].hash != hash
        decreases |nodes| - start
      {
        current := current.next;
        start := start + 1;
      }
      assert start == PositionOf(Blocks(), hash);
      if current != null {
        current, start := current.next, start + 1;
      } else {
        current, start := head, 0;
      }
    }

    /** At most `limit` blocks from a node on. */
    method Collect(from: BlockchainNode?, ghost start: nat, limit: int) returns (blocks: seq<Block>)
      requires Valid() && start <= |nodes| && from == if start < |nodes| then nodes[start] else null
      ensures blocks == Window(Blocks(), start, limit)
    {
      blocks := [];
      var current, count := from, 0;
      ghost var i := start;
      while current != null && count < limit
        invariant start <= i <= |nodes| && i == start + count
        invariant current == if i < |nodes| then nodes[i] else null
        invariant count == 0 || count <= limit
        invariant blocks == Blocks()[start..i]
        decreases |nodes| - i
      {
        blocks := blocks + [current.block];
        current, count := current.next, count + 1;
        i := i + 1;
      }
    }

    /** Every block is validated at a clock reading of its own, so the answer is pinned between validity
        at the start and validity at the end. */
    method ValidateChain(blocks: seq<Block>) returns (ok: bool, reason: Reason)
      modifies clock
      ensures old(clock.Time()) <= clock.Time()
      ensures ValidChain(blocks, old(clock.Time())) ==> ok
      ensures ok ==> ValidChain(blocks, clock.Time()) && reason == NoReason
      ensures !ok ==> Explains(reason, blocks, old(clock.Time()), clock.Time())
    {
      if |blocks| == 0 {
        return false, EmptyChain;
      }
      if blocks[0].index == 0 {
        if blocks[0].hash != Genesis().hash {
          return false, GenesisMismatch;
        }
      }
      var now := clock.Now();
      OneMorePasses(blocks, 0, clock.Time(), clock.Time());
      var error := Validate(blocks[0], None, Instant(now));
      if error.Some? {
        assert FailsBetween(blocks[0], None, error.value, old(clock.Time()), clock.Time());
        return false, FirstBlockInvalid(error.value);
      }
      var i := 1;
      while i < |blocks|
        invariant 1 <= i <= |blocks|
        invariant old(clock.Time()) <= clock.Time()
        invariant FirstPass(blocks, i, clock.Time())
      {
        ghost var before := clock.Time();
        now := clock.Now();
        OneMorePasses(blocks, i, before, clock.Time());
        error := Validate(blocks[i], Some(blocks[i - 1]), Instant(now));
        if error.Some? {
          assert FailsBetween(blocks[i], Some(blocks[i - 1]), error.value, old(clock.Time()), clock.Time());
          return false, BlockInvalid(i, error.value);
        }
        i := i + 1;
      }
      return true, NoReason;
    }

    /** Only a longer chain that validates takes the place of the list; callbacks are not called. */
    method ReplaceChain(blocks: seq<Block>) returns (ok: bool)
      requires Valid()
      modifies this, clock
      ensures Valid() && (tail == old(tail) || fresh(tail))
      ensures old(clock.Time()) <= clock.Time()
      ensures |blocks| > |old(Blocks())| && ValidChain(blocks, old(clock.Time())) ==> ok
      ensures ok ==> Blocks() == blocks && |blocks| > |old(Blocks())| && ValidChain(blocks, clock.Time())
      ensures !ok ==> Blocks() == old(Blocks())
      ensures calls == old(calls)
    {
      if |blocks| <= length {
        return false;
      }
      var valid, _ := ValidateChain(blocks);
      if !valid {
        return false;
      }
      Rebuild(blocks);
      ok := true;
    }

    method Rebuild(blocks: seq<Block>)
      requires blocks != []
      modifies this`head, this`tail, this`length, this`nodes
      ensures Valid() && fresh(tail) && Blocks() == blocks
    {
      head, tail, length := null, null, 0;
      nodes := [];
      for i := 0 to |blocks|
        invariant i == 0 ==> head == tail == null && length == 0 && nodes == []
        invariant i > 0 ==> Valid() && fresh(tail) && head != null && Blocks() == blocks[..i]
      {
        if head == null {
          var newNode := new BlockchainNode(blocks[i], 0);
          head, tail := newNode, newNode;
          length := length + 1;
          nodes := [newNode];
        } else {
          AppendNode(blocks[i]);
        }
      }
      assert blocks[..|blocks|] == blocks;
    }

    /** Run on its own, `TryAcceptChain` never ends in "failed to replace chain". */
    method TryAcceptChain(newBlocks: seq<Block>) returns (ok: bool, reason: Reason)
      requires Valid()
      modifies this, clock
      ensures Valid() && (tail == old(tail) || fresh(tail))
      ensures old(clock.Time()) <= clock.Time()
      ensures var a := ForkChoice.Attempt(newBlocks, old(clock.Time()), clock.Time(), ok);
              ForkChoice.Answered(old(Blocks()), a) && Blocks() == ForkChoice.After(old(Blocks()), a)
      ensures reason != FailedToReplace && (ok <==> reason == Replaced)
      ensures reason == NotLonger <==> |newBlocks| <= |old(Blocks())|
      ensures !ok && |newBlocks| > |old(Blocks())| ==>
                Explains(reason, newBlocks, old(clock.Time()), clock.Time())
      ensures calls == old(calls)
      ensures old(Sound()) ==> Sound()
    {
      var localLen := length;
      if |newBlocks| <= localLen {
        return false, NotLonger;
      }
      ok, reason := ValidateChain(newBlocks);
      StillValid(Blocks(), old(clock.Time()), clock.Time());
      if !ok {
        return false, reason;
      }
      var replaced := ReplaceChain(newBlocks);
      if replaced {
        return true, Replaced;
      }
      return false, FailedToReplace;
    }
  }
}
