/** Chains of blocks as values: what the linked list of internal/blockchain/blockchain.go stores, what
    its operations compute, and what valid chains have in common. */
module Chains {
  import opened Options
  import opened Timestamps
  import opened Blocks

  type Chain = seq<Block>

  function Last(c: Chain): Block
    requires c != []
  {
    c[|c| - 1]
  }

  function PrevOf(c: Chain, i: nat): Option<Block>
    requires i < |c|
  {
    if i == 0 then None else Some(c[i - 1])
  }

  /** The block at position `i` passes against its predecessor at clock reading `now`. */
  predicate Passes(c: Chain, i: nat, now: int)
    requires i < |c|
  {
    Validate(c[i], PrevOf(c, i), now).None?
  }

  predicate FirstPass(c: Chain, n: nat, now: int)
    requires n <= |c|
  {
    forall i :: 0 <= i < n ==> Passes(c, i, now)
  }

  /** What `IsValid` checks. */
  predicate AllPass(c: Chain, now: int) {
    FirstPass(c, |c|, now)
  }

  /** What `ValidateChain` accepts. */
  predicate ValidChain(c: Chain, now: int) {
    c != [] && c[0].hash == Genesis().hash && AllPass(c, now)
  }

  /** The part of validity that does not depend on the clock. */
  predicate Linked(c: Chain) {
    && c != [] && c[0].hash == Genesis().hash
    && (forall i :: 0 <= i < |c| ==> c[i].hash == CalculateHash(c[i]) && c[i].index == i && c[i].bpm >= 0)
    && (forall i :: 0 < i < |c| ==> c[i].prevHash == c[i - 1].hash)
  }

  /** The part of validity that does. */
  predicate Timely(c: Chain, now: int) {
    forall i :: 0 <= i < |c| ==> Instant(c[i].timestamp) <= now + MAX_TIME_DRIFT
  }

  /** `processBlockInternal` on the chain as a value. */
  predicate Accepts(c: Chain, b: Block, now: int)
    requires c != []
  {
    Validate(b, Some(Last(c)), now).None?
  }

  function Extend(c: Chain, b: Block, now: int): Chain
    requires c != []
  {
    if Accepts(c, b, now) then c + [b] else c
  }

  function Min(a: int, b: int): int {
    if a < b then a else b
  }

  function Max(a: int, b: int): int {
    if a < b then b else a
  }

  // ----- Validity -----

  /** A valid chain is exactly a pinned, hash-linked chain in which every index is the block's position,
      with no timestamp too far ahead of the clock. */
  lemma {:induction false} ValidIffLinkedAndTimely(c: Chain, now: int)
    ensures ValidChain(c, now) <==> Linked(c) && Timely(c, now)
  {
    if ValidChain(c, now) {
      IndexIsPosition(c, now, |c|);
      forall i | 0 <= i < |c|
        ensures Instant(c[i].timestamp) <= now + MAX_TIME_DRIFT && c[i].bpm >= 0 && c[i].hash == CalculateHash(c[i])
        ensures 0 < i ==> c[i].prevHash == c[i - 1].hash
      {
        assert Passes(c, i, now);
      }
    }
  }

  lemma {:induction false} IndexIsPosition(c: Chain, now: int, n: nat)
    requires n <= |c| && FirstPass(c, n, now)
    ensures forall i :: 0 <= i < n ==> c[i].index == i
  {
    if n > 0 {
      IndexIsPosition(c, now, n - 1);
      assert Passes(c, n - 1, now);
    }
  }

  lemma ChainValidityPersists(c: Chain, now: int, later: int)
    requires ValidChain(c, now) && now <= later
    ensures ValidChain(c, later)
  {
    forall i | 0 <= i < |c|
      ensures Passes(c, i, later)
    {
      assert Passes(c, i, now);
      ValidityPersists(c[i], PrevOf(c, i), now, later);
    }
  }

  /** One round of the validation loops: the clock has moved on and one more block is checked. */
  lemma OneMorePasses(c: Chain, n: nat, before: int, now: int)
    requires n < |c| && before <= now && FirstPass(c, n, before)
    ensures FirstPass(c, n, now)
    ensures Passes(c, n, now) <==> FirstPass(c, n + 1, now)
    ensures !Passes(c, n, now) ==> forall t :: t <= now ==> !AllPass(c, t)
  {
    forall i | 0 <= i < n
      ensures Passes(c, i, now)
    {
      assert Passes(c, i, before);
      ValidityPersists(c[i], PrevOf(c, i), before, now);
    }
    if !Passes(c, n, now) {
      forall t | t <= now
        ensures !AllPass(c, t)
      {
        if AllPass(c, t) {
          assert Passes(c, n, t);
          ValidityPersists(c[n], PrevOf(c, n), t, now);
        }
      }
    }
  }

  lemma ExtendKeepsValidLater(c: Chain, b: Block, before: int, now: int)
    requires c != [] && before <= now
    ensures ValidChain(c, before) ==> ValidChain(Extend(c, b, now), now)
  {
    if ValidChain(c, before) {
      ChainValidityPersists(c, before, now);
      ExtendKeepsValid(c, b, now, now);
    }
  }

  lemma AppendKeepsValid(c: Chain, b: Block, accepted: bool, before: int, now: int)
    requires c != [] && before <= now && accepted == Accepts(c, b, now)
    ensures var d := if accepted then c + [b] else c;
            d == Extend(c, b, now) && (ValidChain(c, before) ==> ValidChain(d, now))
  {
    ExtendKeepsValidLater(c, b, before, now);
  }

  /** The block `AddBlock` makes. */
  function NextBlock(c: Chain, bpm: int, timestamp: Timestamp): Block
    requires c != []
  {
    NewBlock(Last(c).index + 1, bpm, Last(c).hash, timestamp)
  }

  /** A block with the given beats and time and its own hash that follows the last block; on a valid chain its
      index is the number of blocks there are. */
  ghost predicate IsNextBlock(b: Block, c: Chain, bpm: int, timestamp: Timestamp) {
    && c != [] && b.bpm == bpm && b.timestamp == timestamp && b.hash == CalculateHash(b)
    && b.index == c[|c| - 1].index + 1 && b.prevHash == c[|c| - 1].hash
    && forall now :: ValidChain(c, now) ==> b.index == |c|
  }

  lemma NextBlockFields(c: Chain, bpm: int, timestamp: Timestamp)
    requires c != []
    ensures IsNextBlock(NextBlock(c, bpm, timestamp), c, bpm, timestamp)
  {
    NewBlockCarriesItsHash(Last(c).index + 1, bpm, Last(c).hash, timestamp);
    forall now | ValidChain(c, now)
      ensures Last(c).index == |c| - 1
    {
      IndexIsPosition(c, now, |c|);
    }
  }

  /** What is appended, exactly: a block with its own hash that follows the last one, is at most ten minutes
      ahead of the clock, and has no negative beats. Nothing else changes the chain. */
  lemma ExtendExactly(c: Chain, b: Block, now: int)
    requires c != []
    ensures var last := c[|c| - 1];
            Extend(c, b, now)
            == if && b.hash == CalculateHash(b) && b.index - last.index == 1 && b.prevHash == last.hash
                  && Instant(b.timestamp) - now <= 600_000_000_000 && b.bpm >= 0
               then c + [b] else c
  {
    ValidateReportsFirst(b, Some(Last(c)), now);
  }

  lemma NextBlockExtends(c: Chain, bpm: int, timestamp: Timestamp, now: int)
    requires c != [] && Instant(timestamp) <= now
    ensures var b := NextBlock(c, bpm, timestamp);
            Accepts(c, b, now) == (bpm >= 0) && Extend(c, b, now) == if bpm >= 0 then c + [b] else c
  {
    NewBlockPasses(Last(c), bpm, timestamp, now);
  }

  lemma NewChainIsValid(now: int)
    requires Instant(EPOCH) <= now + MAX_TIME_DRIFT
    ensures ValidChain([Genesis()], now)
  {
    GenesisCarriesItsHash();
  }

  lemma GenesisCarriesItsHash()
    ensures Genesis() == Block(0, Time(1970, 1, 1, 0, 0, 0, 0, 0), 0, CalculateHash(Genesis()), "0")
  {
    assert Preimage(Genesis()) == Preimage(Genesis().(hash := ""));
  }

  lemma StillValid(c: Chain, before: int, now: int)
    requires before <= now
    ensures ValidChain(c, before) ==> ValidChain(c, now)
  {
    if ValidChain(c, before) {
      ChainValidityPersists(c, before, now);
    }
  }

  /** A block accepted at one reading keeps the chain valid at that and every later one. */
  lemma ExtendKeepsValid(c: Chain, b: Block, now: int, later: int)
    requires ValidChain(c, later) && now <= later
    ensures ValidChain(Extend(c, b, now), later)
  {
    var d := Extend(c, b, now);
    forall i | 0 <= i < |d|
      ensures Passes(d, i, later)
    {
      if i < |c| {
        assert Passes(c, i, later);
        assert PrevOf(d, i) == PrevOf(c, i);
      } else {
        ValidityPersists(b, Some(Last(c)), now, later);
      }
    }
  }

  // ----- Hash agreement -----

  /** A hash collision between blocks of two chains or the generated genesis block, exhibited. */
  ghost predicate Collision(a: Chain, b: Chain) {
    exists x, y :: x in a + [Genesis()] && y in b + [Genesis()] && Collide(x, y)
  }

  lemma NoCollide(a: Chain, b: Chain, x: Block, y: Block)
    requires !Collision(a, b)
    requires x in a + [Genesis()] && y in b + [Genesis()]
    ensures !Collide(x, y)
  {
  }

  lemma PrevHashLength(c: Chain, i: nat)
    requires Linked(c) && 0 < i < |c|
    ensures |c[i].prevHash| == 64
  {
    HashIsDigestOfText(c[i - 1]);
  }

  /** Genesis pinning for chains: a chain that `ValidateChain` accepts starts with the generated genesis
      block, up to nanoseconds, or a collision with that block's hash is at hand. */
  lemma ChainStartsWithGenesis(c: Chain, now: int)
    requires ValidChain(c, now)
    ensures SameBlock(c[0], Genesis()) || Collide(c[0], Genesis())
  {
    assert Passes(c, 0, now);
    GenesisPinned(c[0]);
  }

  /** Hash agreement: a hash found in two valid chains stands at one position in both, and the chains
      agree, up to nanoseconds, on every block up to it; otherwise a collision is at hand. */
  lemma {:induction false} HashAgreement(a: Chain, i: nat, b: Chain, j: nat)
    requires Linked(a) && Linked(b) && i < |a| && j < |b|
    requires a[i].hash == b[j].hash
    ensures Collision(a, b) || (i == j && forall k :: 0 <= k <= i ==> SameBlock(a[k], b[k]))
    decreases i
  {
    if !Collision(a, b) {
      NoCollide(a, b, a[i], b[j]);
      PreimageTellsIndex(a[i], b[j]);
      if i == 0 {
        NoCollide(a, b, a[0], Genesis());
        NoCollide(a, b, Genesis(), b[0]);
        GenesisPinned(a[0]);
        GenesisPinned(b[0]);
      } else {
        PrevHashLength(a, i);
        PrevHashLength(b, i);
        PreimageUniquelyDecodes(a[i], b[i]);
        HashAgreement(a, i - 1, b, i - 1);
      }
    }
  }

  /** In particular the hash of the last block determines the whole chain. */
  lemma TipDeterminesChain(a: Chain, b: Chain)
    requires Linked(a) && Linked(b) && Last(a).hash == Last(b).hash
    ensures Collision(a, b) || (|a| == |b| && forall k :: 0 <= k < |a| ==> SameBlock(a[k], b[k]))
  {
    HashAgreement(a, |a| - 1, b, |b| - 1);
  }

  /** Pairwise distinct hashes. */
  predicate DistinctHashes(c: Chain) {
    forall i, j :: 0 <= i < j < |c| ==> c[i].hash != c[j].hash
  }

  lemma HashesDistinct(c: Chain)
    requires Linked(c)
    ensures Collision(c, c) || DistinctHashes(c)
  {
    if !Collision(c, c) {
      forall i, j | 0 <= i < j < |c|
        ensures c[i].hash != c[j].hash
      {
        if c[i].hash == c[j].hash {
          HashAgreement(c, i, c, j);
        }
      }
    }
  }

  // ----- Acceptance -----

  predicate SameHashes(a: Chain, b: Chain) {
    |a| == |b| && forall i :: 0 <= i < |a| ==> a[i].hash == b[i].hash
  }

  /** Acceptance characterised: a node with chain `b` takes block `i` of a peer's chain `a` exactly when
      the hashes of `b` are those of the first `i` blocks of `a` and the timestamp passes the clock. */
  lemma AcceptanceCharacterised(a: Chain, i: nat, b: Chain, now: int)
    requires Linked(a) && Linked(b) && !Collision(a, b) && i < |a|
    ensures Accepts(b, a[i], now) <==>
            SameHashes(b, a[..i]) && Instant(a[i].timestamp) <= now + MAX_TIME_DRIFT
  {
    if Accepts(b, a[i], now) {
      assert i == |b| && a[i - 1].hash == Last(b).hash;
      HashAgreement(a, i - 1, b, |b| - 1);
      forall k | 0 <= k < |b|
        ensures b[k].hash == a[..i][k].hash
      {
        assert SameBlock(a[k], b[k]);
      }
    } else if SameHashes(b, a[..i]) {
      assert i == |b| > 0;
      assert b[i - 1].hash == a[..i][i - 1].hash;
    }
  }

  /** A block of a forked peer is never accepted, whatever the clock shows. */
  lemma ForkedPeerIsIgnored(a: Chain, b: Chain, k: nat, i: nat, now: int)
    requires Linked(a) && Linked(b) && !Collision(a, b)
    requires k < |a| && k < |b| && a[k].hash != b[k].hash
    requires i < |a|
    ensures Extend(b, a[i], now) == b
  {
    AcceptanceCharacterised(a, i, b, now);
    assert i > k ==> a[..i][k] == a[k];
  }

  // ----- Lookup and paging -----

  /** The position of the first block with that hash, or the length if there is none. */
  function PositionOf(c: Chain, hash: string): (p: nat)
    ensures p <= |c| && forall i :: 0 <= i < p ==> c[i].hash != hash
    ensures p < |c| ==> c[p].hash == hash
  {
    PositionFrom(c, hash, 0)
  }

  function PositionFrom(c: Chain, hash: string, from: nat): (p: nat)
    requires from <= |c|
    ensures from <= p <= |c| && forall i :: from <= i < p ==> c[i].hash != hash
    ensures p < |c| ==> c[p].hash == hash
    decreases |c| - from
  {
    if from == |c| || c[from].hash == hash then from else PositionFrom(c, hash, from + 1)
  }

  /** `GetBlockByHash`. */
  function Lookup(c: Chain, hash: string): Option<Block> {
    var p := PositionOf(c, hash);
    if p < |c| then Some(c[p]) else None
  }

  /** Where `GetBlocksAfter` starts: at the front for the empty hash, after the block with the hash if
      there is one, and at the front again if there is none. */
  function PageStart(c: Chain, hash: string): (s: nat)
    ensures s <= |c|
  {
    var p := PositionOf(c, hash);
    if hash == "" || p == |c| then 0 else p + 1
  }

  function Window(c: Chain, start: nat, limit: int): Chain
    requires start <= |c|
  {
    c[start..Min(|c|, start + Max(0, limit))]
  }

  /** `GetBlocksAfter`. */
  function Page(c: Chain, hash: string, limit: int): Chain {
    Window(c, PageStart(c, hash), limit)
  }

  /** At most `limit` blocks of `c` from position `s` on. */
  predicate IsPage(r: Chain, c: Chain, s: nat, limit: int) {
    && s <= |c| && |r| == (if limit <= 0 then 0 else if |c| - s < limit then |c| - s else limit)
    && forall k :: 0 <= k < |r| ==> r[k] == c[s + k]
  }

  /** The first block with the hash stands at position `p`. */
  predicate IsFirstWith(c: Chain, hash: string, p: nat) {
    p < |c| && c[p].hash == hash && forall i :: 0 <= i < p ==> c[i].hash != hash
  }

  predicate IsUnknown(c: Chain, hash: string) {
    forall i :: 0 <= i < |c| ==> c[i].hash != hash
  }

  /** Where a page starts, in any list of blocks: after the first block with the hash, and in front for the
      empty hash and for one that is not there. */
  lemma PageExactly(c: Chain, hash: string, limit: int)
    ensures hash == "" || IsUnknown(c, hash) ==> IsPage(Page(c, hash, limit), c, 0, limit)
    ensures forall p: nat :: hash != "" && IsFirstWith(c, hash, p) ==>
              IsPage(Page(c, hash, limit), c, p + 1, limit)
  {
    forall p: nat | IsFirstWith(c, hash, p)
      ensures PositionOf(c, hash) == p
    {
      FirstIsPosition(c, hash, p);
    }
  }

  lemma FirstIsPosition(c: Chain, hash: string, p: nat)
    requires IsFirstWith(c, hash, p)
    ensures PositionOf(c, hash) == p
  {
  }

  lemma LookupExactly(c: Chain, hash: string)
    ensures Lookup(c, hash).None? <==> IsUnknown(c, hash)
    ensures forall p: nat :: IsFirstWith(c, hash, p) ==> Lookup(c, hash) == Some(c[p])
  {
    forall p: nat | IsFirstWith(c, hash, p)
      ensures PositionOf(c, hash) == p
    {
      FirstIsPosition(c, hash, p);
    }
  }

  lemma LookupInvertsPosition(c: Chain, i: nat)
    requires DistinctHashes(c) && i < |c|
    ensures PositionOf(c, c[i].hash) == i && Lookup(c, c[i].hash) == Some(c[i])
  {
    assert PositionOf(c, c[i].hash) <= i;
  }

  lemma PageStartAfter(c: Chain, n: nat)
    requires Linked(c) && DistinctHashes(c) && 0 < n <= |c|
    ensures PageStart(c, c[n - 1].hash) == n
  {
    LookupInvertsPosition(c, n - 1);
    HashIsDigestOfText(c[n - 1]);
  }

  /** A caller of `GetBlocksAfter`: the blocks it has so far and the hash it asks with next, which is the
      last hash received. */
  datatype Reader = Reader(blocks: Chain, cursor: string)

  function ReadPage(c: Chain, limit: int, r: Reader): Reader {
    var page := Page(c, r.cursor, limit);
    Reader(r.blocks + page, if page == [] then r.cursor else Last(page).hash)
  }

  /** A reader asking for one page after the other. */
  predicate IsReading(c: Chain, limit: int, readers: seq<Reader>) {
    && readers != [] && readers[0] == Reader([], "")
    && forall k :: 0 < k < |readers| ==> readers[k] == ReadPage(c, limit, readers[k - 1])
  }

  /** The first `n` blocks have been received, and the cursor stands on the last of them. */
  predicate HasRead(c: Chain, n: nat, r: Reader)
    requires c != []
  {
    r.blocks == c[..Min(|c|, n)] && r.cursor == if n == 0 then "" else c[Min(|c|, n) - 1].hash
  }

  /** Paging enumerates a valid chain once and in order: `k` pages hold its first `k * limit` blocks. */
  lemma {:induction false} PagingEnumerates(c: Chain, limit: int, readers: seq<Reader>, k: nat)
    requires Linked(c) && DistinctHashes(c) && limit >= 1
    requires IsReading(c, limit, readers) && k < |readers|
    ensures k * limit >= 0 && HasRead(c, k * limit, readers[k])
  {
    if k == 0 {
      assert k * limit == 0;
    } else {
      PagingEnumerates(c, limit, readers, k - 1);
      ReadPageAdvances(c, limit, (k - 1) * limit, readers[k - 1]);
      assert (k - 1) * limit + limit == k * limit;
    }
  }

  lemma ReadPageAdvances(c: Chain, limit: int, n: nat, r: Reader)
    requires Linked(c) && DistinctHashes(c) && limit >= 1 && HasRead(c, n, r)
    ensures HasRead(c, n + limit, ReadPage(c, limit, r))
  {
    CursorFindsStart(c, n, r);
    var lo, hi := Min(|c|, n), Min(|c|, n + limit);
    WindowAppended(c, lo, hi);
    assert Page(c, r.cursor, limit) == c[lo..hi];
  }

  lemma WindowAppended(c: Chain, lo: nat, hi: nat)
    requires lo <= hi <= |c|
    ensures c[..lo] + c[lo..hi] == c[..hi]
    ensures lo < hi ==> Last(c[lo..hi]) == c[hi - 1]
  {
  }

  lemma CursorFindsStart(c: Chain, n: nat, r: Reader)
    requires Linked(c) && DistinctHashes(c) && HasRead(c, n, r)
    ensures PageStart(c, r.cursor) == Min(|c|, n)
  {
    if n > 0 {
      PageStartAfter(c, Min(|c|, n));
    }
  }

  /** The next page is empty exactly when everything has been received. */
  lemma PagingEnds(c: Chain, limit: int, n: nat, r: Reader)
    requires Linked(c) && DistinctHashes(c) && limit >= 1 && HasRead(c, n, r)
    ensures Page(c, r.cursor, limit) == [] <==> n >= |c|
  {
    CursorFindsStart(c, n, r);
  }

  /** An unknown hash is answered from the front of the chain. */
  lemma UnknownHashRestarts(c: Chain, hash: string, limit: int)
    requires forall i :: 0 <= i < |c| ==> c[i].hash != hash
    ensures Page(c, hash, limit) == Page(c, "", limit) == Window(c, 0, limit)
  {
    assert PositionOf(c, hash) == |c|;
  }
}
