/** Saving the chain to a table and loading it back (internal/storage/store.go). A row is the block whose
    columns it holds; printed timestamps are taken to parse back exactly. */
module Storage {
  import opened Timestamps
  import opened Blocks
  import opened Chains
  import opened LinkedChain
  import opened Selections

  // ----- The table -----

  predicate HasHash(rows: seq<Block>, hash: string) {
    exists i :: 0 <= i < |rows| && rows[i].hash == hash
  }

  /** INSERT OR IGNORE under the UNIQUE hash column. */
  function Insert(rows: seq<Block>, b: Block): seq<Block> {
    if HasHash(rows, b.hash) then rows else rows + [b]
  }

  function InsertAll(rows: seq<Block>, blocks: seq<Block>): seq<Block> {
    if blocks == [] then rows
    else Insert(InsertAll(rows, blocks[..|blocks| - 1]), blocks[|blocks| - 1])
  }

  predicate IsBlock(blocks: seq<Block>, i: nat, b: Block) {
    i < |blocks| && b == blocks[i]
  }

  /** INSERT OR IGNORE, exactly: what is appended are, in order, the blocks whose hash is neither in the table
      nor that of an earlier block. */
  lemma InsertAllExactly(rows: seq<Block>, blocks: seq<Block>) returns (picks: seq<nat>, added: seq<Block>)
    ensures InsertAll(rows, blocks) == rows + added
    ensures Picks(added, picks, |blocks|, (i: nat) => IsNew(rows, blocks, i),
                  (i: nat, b: Block) => IsBlock(blocks, i, b))
  {
    picks, added := InsertedSoFar(rows, blocks, |blocks|);
    assert blocks[..|blocks|] == blocks;
  }

  lemma {:induction false} InsertedSoFar(rows: seq<Block>, blocks: seq<Block>, n: nat)
    returns (picks: seq<nat>, added: seq<Block>)
    requires n <= |blocks|
    ensures InsertAll(rows, blocks[..n]) == rows + added
    ensures Picks(added, picks, n, (i: nat) => IsNew(rows, blocks, i), (i: nat, b: Block) => IsBlock(blocks, i, b))
    ensures forall h :: HasHash(rows + added, h) <==> HasHash(rows, h) || HasHash(blocks[..n], h)
  {
    if n == 0 {
      picks, added := [], [];
    } else {
      var b := blocks[n - 1];
      picks, added := InsertedSoFar(rows, blocks, n - 1);
      assert blocks[..n][..n - 1] == blocks[..n - 1] && blocks[..n][n - 1] == b;
      InsertedHashes(rows + added, b, rows, blocks, n - 1);
      var next := if IsNew(rows, blocks, n - 1) then [b] else [];
      assert Insert(rows + added, b) == rows + (added + next);
      OneMorePicked(added, picks, n - 1, (i: nat) => IsNew(rows, blocks, i),
                    (i: nat, b: Block) => IsBlock(blocks, i, b), next);
      picks, added := if IsNew(rows, blocks, n - 1) then picks + [n - 1] else picks, added + next;
    }
  }

  predicate IsNew(rows: seq<Block>, blocks: seq<Block>, i: nat) {
    && i < |blocks| && !HasHash(rows, blocks[i].hash)
    && forall j :: 0 <= j < i ==> blocks[j].hash != blocks[i].hash
  }

  lemma InsertedHashes(r: seq<Block>, b: Block, rows: seq<Block>, blocks: seq<Block>, i: nat)
    requires i < |blocks| && b == blocks[i]
    requires forall h :: HasHash(r, h) <==> HasHash(rows, h) || HasHash(blocks[..i], h)
    ensures HasHash(r, b.hash) <==> !IsNew(rows, blocks, i)
    ensures forall h :: HasHash(Insert(r, b), h) <==> HasHash(rows, h) || HasHash(blocks[..i + 1], h)
  {
    assert blocks[..i + 1] == blocks[..i] + [b];
    OneMoreHash(blocks[..i], b);
    OneMoreHash(r, b);
  }

  lemma OneMoreHash(rows: seq<Block>, b: Block)
    ensures forall h :: HasHash(rows + [b], h) <==> HasHash(rows, h) || h == b.hash
  {
    forall h
      ensures HasHash(rows + [b], h) <==> HasHash(rows, h) || h == b.hash
    {
      assert (rows + [b])[|rows|] == b;
      if i :| 0 <= i < |rows| && rows[i].hash == h {
        assert (rows + [b])[i].hash == h;
      }
    }
  }

  predicate SortedByIndex(rows: seq<Block>) {
    forall i, j :: 0 <= i < j < |rows| ==> rows[i].index <= rows[j].index
  }

  /** What the query may return: all rows, by index, rows of one index in any order. */
  predicate IsQueryResult(rows: seq<Block>, result: seq<Block>) {
    multiset(result) == multiset(rows) && SortedByIndex(result)
  }

  /** A block offered to `ProcessBlock`, and the clock reading it is validated at. */
  datatype Offer = Offer(block: Block, now: int)

  /** A chain to which blocks are offered: its states before, between and after. */
  datatype Trace = Trace(chains: seq<Chain>, offers: seq<Offer>)

  predicate IsStep(t: Trace, k: nat)
    requires k < |t.offers| && |t.chains| == |t.offers| + 1
  {
    t.chains[k] != [] && t.chains[k + 1] == Extend(t.chains[k], t.offers[k].block, t.offers[k].now)
  }

  predicate IsTrace(t: Trace) {
    && |t.chains| == |t.offers| + 1
    && t.chains[0] != []
    && forall k :: 0 <= k < |t.offers| ==> IsStep(t, k)
  }

  function Start(t: Trace): Chain
    requires IsTrace(t)
  {
    t.chains[0]
  }

  function End(t: Trace): Chain
    requires IsTrace(t)
  {
    t.chains[|t.offers|]
  }

  /** Clock readings between `from` and `to`, none behind the one before. */
  predicate Timed(offers: seq<Offer>, from: int, to: int) {
    && from <= to
    && (forall i :: 0 <= i < |offers| ==> from <= offers[i].now <= to)
    && (forall i, j :: 0 <= i < j < |offers| ==> offers[i].now <= offers[j].now)
  }

  predicate Offers(t: Trace, blocks: seq<Block>) {
    |t.offers| == |blocks| && forall k :: 0 <= k < |blocks| ==> t.offers[k].block == blocks[k]
  }

  class Store {
    var rows: seq<Block>

    constructor ()
      ensures rows == []
    {
      rows := [];
    }

    method Save(bc: Blockchain)
      requires bc.Valid()
      modifies this
      ensures rows == InsertAll(old(rows), bc.Blocks())
    {
      var blocks := bc.GetAllBlocks();
      for i := 0 to |blocks|
        invariant rows == InsertAll(old(rows), blocks[..i])
      {
        rows := Insert(rows, blocks[i]);
        assert blocks[..i + 1][..i] == blocks[..i];
      }
      assert blocks[..|blocks|] == blocks;
    }

    method Load(bc: Blockchain, result: seq<Block>) returns (ghost t: Trace)
      requires bc.Valid() && IsQueryResult(rows, result)
      modifies bc, bc.tail, bc.clock
      ensures bc.Valid()
      ensures IsTrace(t) && Offers(t, result) && Timed(t.offers, old(bc.clock.Time()), bc.clock.Time())
      ensures Start(t) == old(bc.Blocks()) && End(t) == bc.Blocks()
      ensures old(bc.Sound()) ==> bc.Sound()
    {
      t := Trace([bc.Blocks()], []);
      for i := 0 to |result|
        invariant bc.Valid() && (bc.tail == old(bc.tail) || fresh(bc.tail))
        invariant IsTrace(t) && Offers(t, result[..i]) && Timed(t.offers, old(bc.clock.Time()), bc.clock.Time())
        invariant Start(t) == old(bc.Blocks()) && End(t) == bc.Blocks()
        invariant old(bc.Sound()) ==> bc.Sound()
      {
        ghost var before := bc.clock.Time();
        var _, now := bc.ProcessBlock(result[i]);
        OneMoreStep(t, result[..i], result[i], old(bc.clock.Time()), before, now);
        t := Trace(t.chains + [bc.Blocks()], t.offers + [Offer(result[i], now)]);
        NextSlice(result, i);
      }
      WholeSlice(result);
    }
  }

  lemma NextSlice(s: seq<Block>, i: nat)
    requires i < |s|
    ensures s[..i + 1] == s[..i] + [s[i]]
  {
  }

  lemma WholeSlice(s: seq<Block>)
    ensures s[..|s|] == s
  {
  }

  lemma OneMoreStep(t: Trace, blocks: seq<Block>, b: Block, from: int, before: int, now: int)
    requires IsTrace(t) && Offers(t, blocks) && Timed(t.offers, from, before) && before <= now
    ensures End(t) != []
    ensures var c := Extend(End(t), b, now);
            var u := Trace(t.chains + [c], t.offers + [Offer(b, now)]);
            IsTrace(u) && Start(u) == Start(t) && End(u) == c && Offers(u, blocks + [b]) && Timed(u.offers, from, now)
  {
    NeverEmpty(t, |t.offers|);
    var c := Extend(End(t), b, now);
    var u := Trace(t.chains + [c], t.offers + [Offer(b, now)]);
    forall k | 0 <= k < |u.offers|
      ensures IsStep(u, k)
    {
      assert k < |t.offers| ==> IsStep(t, k);
    }
  }

  lemma NeverEmpty(t: Trace, k: nat)
    requires IsTrace(t) && k <= |t.offers|
    ensures t.chains[k] != []
  {
    if k > 0 {
      assert IsStep(t, k - 1);
    }
  }

  // ----- Loading any table -----

  lemma {:induction false} TraceKeepsValid(t: Trace, k: nat, from: int, to: int)
    requires IsTrace(t) && k <= |t.offers| && Timed(t.offers, from, to)
    requires ValidChain(Start(t), from)
    ensures ValidChain(t.chains[k], to)
  {
    if k == 0 {
      ChainValidityPersists(Start(t), from, to);
    } else {
      TraceKeepsValid(t, k - 1, from, to);
      assert IsStep(t, k - 1);
      ExtendKeepsValid(t.chains[k - 1], t.offers[k - 1].block, t.offers[k - 1].now, to);
    }
  }

  lemma StepForm(t: Trace, k: nat)
    requires IsTrace(t) && k < |t.offers|
    ensures t.chains[k + 1] == t.chains[k] || t.chains[k + 1] == t.chains[k] + [t.offers[k].block]
  {
    assert IsStep(t, k);
  }

  /** Block `i` of the chain was offered between steps `k` and `n`. */
  ghost predicate CameFrom(t: Trace, b: Block, k: nat, n: nat)
    requires n <= |t.offers|
  {
    exists m :: k <= m < n && t.offers[m].block == b
  }

  /** Between two points of a trace the chain is only extended, with blocks offered in between. */
  lemma {:induction false} TraceOnlyExtends(t: Trace, k: nat, n: nat)
    requires IsTrace(t) && k <= n <= |t.offers|
    ensures t.chains[k] <= t.chains[n]
    ensures forall i :: |t.chains[k]| <= i < |t.chains[n]| ==> CameFrom(t, t.chains[n][i], k, n)
  {
    if k < n {
      TraceOnlyExtends(t, k, n - 1);
      StepForm(t, n - 1);
      forall i | |t.chains[k]| <= i < |t.chains[n]|
        ensures CameFrom(t, t.chains[n][i], k, n)
      {
        if i < |t.chains[n - 1]| {
          assert CameFrom(t, t.chains[n - 1][i], k, n - 1);
        } else {
          assert t.offers[n - 1].block == t.chains[n][i];
        }
      }
    }
  }

  /** Load from any table: whatever the rows are (gaps, forks, invalid blocks, ties in any order), the
      chain stays valid, is only extended with rows of the table, and no row that would have been valid
      when it was scanned extends the final chain. */
  lemma LoadFromAnyTable(rows: seq<Block>, result: seq<Block>, t: Trace, from: int, to: int)
    requires IsQueryResult(rows, result)
    requires IsTrace(t) && Offers(t, result) && Timed(t.offers, from, to) && ValidChain(Start(t), from)
    ensures ValidChain(End(t), to) && Start(t) <= End(t)
    ensures forall i :: |Start(t)| <= i < |End(t)| ==> End(t)[i] in rows
    ensures forall k :: 0 <= k < |result| ==> !Accepts(End(t), result[k], t.offers[k].now)
  {
    TraceKeepsValid(t, |t.offers|, from, to);
    TraceOnlyExtends(t, 0, |t.offers|);
    forall i | |Start(t)| <= i < |End(t)|
      ensures End(t)[i] in rows
    {
      assert CameFrom(t, End(t)[i], 0, |t.offers|);
      assert End(t)[i] in multiset(result);
    }
    forall k | 0 <= k < |result|
      ensures !Accepts(End(t), result[k], t.offers[k].now)
    {
      LoadIsMaximal(result, t, k, to);
    }
  }

  lemma LoadIsMaximal(result: seq<Block>, t: Trace, k: nat, to: int)
    requires SortedByIndex(result) && IsTrace(t) && Offers(t, result) && k < |result|
    requires ValidChain(End(t), to)
    ensures !Accepts(End(t), result[k], t.offers[k].now)
  {
    if Accepts(End(t), result[k], t.offers[k].now) {
      NothingComesLater(result, t, k, to);
      assert IsStep(t, k);
      TraceOnlyExtends(t, k + 1, |result|);
    }
  }

  /** A block still to come would be a row scanned no earlier, yet its index would be lower. */
  lemma NothingComesLater(result: seq<Block>, t: Trace, k: nat, to: int)
    requires SortedByIndex(result) && IsTrace(t) && Offers(t, result) && k < |result|
    requires ValidChain(End(t), to) && result[k].index == Last(End(t)).index + 1
    ensures t.chains[k] == End(t)
  {
    var r := End(t);
    IndexIsPosition(r, to, |r|);
    TraceOnlyExtends(t, k, |result|);
    assert |t.chains[k]| == |r|;
  }

  // ----- Saving -----

  lemma {:induction false} InsertAllHolds(rows: seq<Block>, blocks: seq<Block>)
    ensures rows <= InsertAll(rows, blocks)
    ensures forall i :: 0 <= i < |blocks| ==> HasHash(InsertAll(rows, blocks), blocks[i].hash)
    ensures DistinctHashes(rows) ==> DistinctHashes(InsertAll(rows, blocks))
  {
    if blocks != [] {
      var n := |blocks| - 1;
      var r, s := InsertAll(rows, blocks[..n]), InsertAll(rows, blocks);
      InsertAllHolds(rows, blocks[..n]);
      forall i | 0 <= i < |blocks|
        ensures HasHash(s, blocks[i].hash)
      {
        if i < n {
          assert HasHash(r, blocks[..n][i].hash);
          var j :| 0 <= j < |r| && r[j].hash == blocks[i].hash;
          assert s[j].hash == blocks[i].hash;
        } else if !HasHash(r, blocks[n].hash) {
          assert s[|r|].hash == blocks[n].hash;
        }
      }
    }
  }

  lemma {:induction false} InsertAllIgnores(rows: seq<Block>, blocks: seq<Block>)
    requires forall i :: 0 <= i < |blocks| ==> HasHash(rows, blocks[i].hash)
    ensures InsertAll(rows, blocks) == rows
  {
    if blocks != [] {
      var init := blocks[..|blocks| - 1];
      forall i | 0 <= i < |init|
        ensures HasHash(rows, init[i].hash)
      {
        assert HasHash(rows, blocks[i].hash);
      }
      InsertAllIgnores(rows, init);
    }
  }

  /** Saving is idempotent on any table, and keeps hashes unique. */
  lemma SaveIsIdempotent(rows: seq<Block>, blocks: seq<Block>)
    ensures InsertAll(InsertAll(rows, blocks), blocks) == InsertAll(rows, blocks)
    ensures DistinctHashes(rows) ==> DistinctHashes(InsertAll(rows, blocks))
  {
    InsertAllHolds(rows, blocks);
    InsertAllIgnores(InsertAll(rows, blocks), blocks);
  }

  /** Saving an extension of what is stored appends what is new. */
  lemma {:induction false} SaveExtends(rows: Chain, c: Chain, n: nat)
    requires rows <= c && DistinctHashes(c) && n <= |c|
    ensures InsertAll(rows, c[..n]) == c[..Max(n, |rows|)]
  {
    if n == 0 {
      assert c[..|rows|] == rows;
    } else {
      SaveExtends(rows, c, n - 1);
      assert c[..n][..n - 1] == c[..n - 1] && c[..n][n - 1] == c[n - 1];
      RowSaved(c, n - 1, Max(n - 1, |rows|));
    }
  }

  /** Of a chain stored up to position `m`, block `k` is known already or is the next row. */
  lemma RowSaved(c: Chain, k: nat, m: nat)
    requires DistinctHashes(c) && k < |c| && k <= m <= |c|
    ensures Insert(c[..m], c[k]) == c[..Max(k + 1, m)]
  {
    if k < m {
      assert c[..m][k].hash == c[k].hash;
    } else {
      assert c[..m] + [c[k]] == c[..m + 1];
    }
  }

  // ----- Restarts -----

  /** One run of the daemon: what its query returned, `Load` on a new chain, and the blocks offered to
      that chain afterwards, made locally or received. */
  datatype Session = Session(result: seq<Block>, load: Trace, run: Trace)

  predicate IsSession(rows: seq<Block>, s: Session, from: int, middle: int, to: int) {
    && IsQueryResult(rows, s.result) && IsTrace(s.load) && Offers(s.load, s.result) && IsTrace(s.run)
    && Timed(s.load.offers, from, middle) && Timed(s.run.offers, middle, to)
    && Start(s.load) == [Genesis()] && Start(s.run) == End(s.load)
  }

  /** A table that holds the blocks of one valid chain in order, or nothing yet. */
  predicate HoldsChain(rows: seq<Block>, now: int) {
    rows == [] || (ValidChain(rows, now) && rows[0] == Genesis())
  }

  lemma WithoutLast(s: seq<Block>)
    requires s != []
    ensures s == s[..|s| - 1] + [s[|s| - 1]]
    ensures multiset(s[..|s| - 1]) == multiset(s) - multiset{s[|s| - 1]}
  {
    assert s == s[..|s| - 1] + [s[|s| - 1]];
  }

  lemma LastRowComesLast(rows: Chain, result: seq<Block>)
    requires forall i :: 0 <= i < |rows| ==> rows[i].index == i
    requires IsQueryResult(rows, result) && rows != []
    ensures |result| == |rows| && result[|rows| - 1] == rows[|rows| - 1]
  {
    var n := |rows| - 1;
    assert |result| == |multiset(result)| == |multiset(rows)| == |rows|;
    assert rows[n] in multiset(result) && result[n] in multiset(rows);
    var p :| 0 <= p <= n && result[p] == rows[n];
    var q :| 0 <= q <= n && rows[q] == result[n];
  }

  /** Distinct indices leave the query no choice. */
  lemma {:induction false} QueryReturnsChain(rows: Chain, result: seq<Block>)
    requires forall i :: 0 <= i < |rows| ==> rows[i].index == i
    requires IsQueryResult(rows, result)
    ensures result == rows
  {
    if rows == [] {
      assert |result| == |multiset(result)| == |multiset(rows)| == 0;
    } else {
      LastRowComesLast(rows, result);
      WithoutLast(rows);
      WithoutLast(result);
      var n := |rows| - 1;
      QueryReturnsChain(rows[..n], result[..n]);
    }
  }

  /** Loading a stored chain rebuilds it: the genesis row is rejected, every other row accepted. */
  lemma {:induction false} LoadRebuilds(rows: Chain, t: Trace, k: nat, from: int, to: int)
    requires ValidChain(rows, from) && rows[0] == Genesis()
    requires IsTrace(t) && Offers(t, rows) && Timed(t.offers, from, to) && Start(t) == [Genesis()]
    requires k <= |rows|
    ensures t.chains[k] == rows[..Max(1, k)]
  {
    if k == 0 {
      assert rows[..1] == [Genesis()];
    } else {
      LoadRebuilds(rows, t, k - 1, from, to);
      assert IsStep(t, k - 1);
      RowRebuilds(rows, k, from, t.offers[k - 1].now);
    }
  }

  lemma RowRebuilds(rows: Chain, k: nat, from: int, now: int)
    requires ValidChain(rows, from) && rows[0] == Genesis() && from <= now && 0 < k <= |rows|
    ensures Extend(rows[..Max(1, k - 1)], rows[k - 1], now) == rows[..k]
  {
    IndexIsPosition(rows, from, |rows|);
    if k > 1 {
      assert Passes(rows, k - 1, from);
      ValidityPersists(rows[k - 1], PrevOf(rows, k - 1), from, now);
      assert Last(rows[..k - 1]) == rows[k - 2];
      assert rows[..k] == rows[..k - 1] + [rows[k - 1]];
    }
  }

  /** One restart: loading gives back exactly the chain in the table, and saving leaves exactly the final
      chain in it, unless that chain exhibits a hash collision. */
  lemma SessionRoundTrip(rows: seq<Block>, s: Session, from: int, middle: int, to: int)
    requires HoldsChain(rows, from) && Instant(EPOCH) <= from + MAX_TIME_DRIFT
    requires IsSession(rows, s, from, middle, to)
    ensures End(s.load) == if rows == [] then [Genesis()] else rows
    ensures ValidChain(End(s.run), to) && End(s.load) <= End(s.run)
    ensures Collision(End(s.run), End(s.run)) || InsertAll(rows, End(s.run)) == End(s.run)
  {
    LoadGivesBack(rows, s, from, middle, to);
    NewChainIsValid(from);
    TraceKeepsValid(s.load, |s.load.offers|, from, middle);
    TraceKeepsValid(s.run, |s.run.offers|, middle, to);
    TraceOnlyExtends(s.run, 0, |s.run.offers|);
    var d := End(s.run);
    ValidIffLinkedAndTimely(d, to);
    HashesDistinct(d);
    if !Collision(d, d) {
      SaveExtends(rows, d, |d|);
      assert d[..|d|] == d;
    }
  }

  lemma LoadGivesBack(rows: seq<Block>, s: Session, from: int, middle: int, to: int)
    requires HoldsChain(rows, from) && IsSession(rows, s, from, middle, to)
    ensures End(s.load) == if rows == [] then [Genesis()] else rows
  {
    if rows == [] {
      assert |s.result| == |multiset(s.result)| == |multiset(rows)| == 0;
    } else {
      IndexIsPosition(rows, from, |rows|);
      QueryReturnsChain(rows, s.result);
      LoadRebuilds(rows, s.load, |rows|, from, middle);
    }
  }

  /** The table before, between and after a series of sessions; `clock[k]` is read between sessions. */
  ghost predicate IsLifetime(tables: seq<seq<Block>>, sessions: seq<Session>, clock: seq<int>, middle: seq<int>) {
    && |tables| == |clock| == |sessions| + 1 && |middle| == |sessions|
    && tables[0] == [] && Instant(EPOCH) <= clock[0] + MAX_TIME_DRIFT
    && forall k {:trigger sessions[k]} :: 0 <= k < |sessions| ==> SessionAt(tables, sessions, clock, middle, k)
  }

  ghost predicate SessionAt(tables: seq<seq<Block>>, sessions: seq<Session>, clock: seq<int>, middle: seq<int>, k: nat)
    requires |tables| == |clock| == |sessions| + 1 && |middle| == |sessions| && k < |sessions|
  {
    var s := sessions[k];
    && IsSession(tables[k], s, clock[k], middle[k], clock[k + 1])
    && tables[k + 1] == InsertAll(tables[k], End(s.run))
    && !Collision(End(s.run), End(s.run))
  }

  /** Restart invariant: over any number of sessions the rows are exactly the blocks of the chain saved
      last, that chain is valid, and every load rebuilds exactly the chain saved before it. */
  lemma {:induction false} RestartsPreserveChain(tables: seq<seq<Block>>, sessions: seq<Session>,
                                                 clock: seq<int>, middle: seq<int>, k: nat)
    requires IsLifetime(tables, sessions, clock, middle) && k < |sessions|
    ensures tables[k + 1] == End(sessions[k].run)
    ensures End(sessions[k].load) == if k == 0 then [Genesis()] else tables[k]
    ensures HoldsChain(tables[k + 1], clock[k + 1]) && tables[k + 1] != [] && tables[k] <= tables[k + 1]
    ensures clock[0] <= clock[k + 1]
  {
    if k > 0 {
      RestartsPreserveChain(tables, sessions, clock, middle, k - 1);
    }
    assert SessionAt(tables, sessions, clock, middle, k);
    SessionRoundTrip(tables[k], sessions[k], clock[k], middle[k], clock[k + 1]);
  }
}
