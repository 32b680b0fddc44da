/** Blocks, their hashes and their validity (internal/blockchain/block.go). */
module Blocks {
  import opened Options
  import opened Decimal
  import opened Timestamps

  /** `MaxTimeDrift`, ten minutes in nanoseconds. */
  const MAX_TIME_DRIFT := 600_000_000_000

  datatype Block = Block(index: int, timestamp: Timestamp, bpm: int, hash: string, prevHash: string)

  predicate IsHex(c: char) {
    '0' <= c <= '9' || 'a' <= c <= 'f'
  }

  type Hasher = f: string -> string |
    forall data :: |f(data)| == 64 && forall i :: 0 <= i < 64 ==> IsHex(f(data)[i])
    witness (data: string) => seq(64, i => '0')

  /** SHA-256 followed by hex encoding: an arbitrary function to 64 hex characters. Nothing says it is
      injective (it cannot be); every theorem that needs the hashes of some blocks to tell them apart
      names the collision that would falsify it. */
  const Sha256: Hasher

  /** The text that is hashed; its four fields run into each other without separators. */
  function Preimage(b: Block): string {
    Itoa(b.index) + Format(b.timestamp) + Itoa(b.bpm) + b.prevHash
  }

  /** `CalculateHash`, the digest of the hashed text. It is given as the only function with this property
      instead of by a body, so that proofs see the text of a block only where they speak of it. */
  type BlockHasher = h: Block -> string |
    forall b {:trigger Preimage(b)} :: h(b) == Sha256(Preimage(b))
    witness (b: Block) => Sha256(Preimage(b))

  const CalculateHash: BlockHasher

  lemma HashIsDigestOfText(b: Block)
    ensures CalculateHash(b) == Sha256(Preimage(b)) && |CalculateHash(b)| == 64
  {
    assert Preimage(b) == Preimage(b);
  }

  /** The hashed text, read from left to right: up to `i` the index, up to `j` the printed time, up to `k` the
      beats, and then the previous hash. */
  lemma TextByPosition(b: Block) returns (i: nat, j: nat, k: nat)
    ensures i <= j <= k <= |Preimage(b)|
    ensures var text := Preimage(b);
            && Denotes(text[..i], b.index) && text[i..j] == Format(b.timestamp)
            && Denotes(text[j..k], b.bpm) && text[k..] == b.prevHash
  {
    var x, t, y := Itoa(b.index), Format(b.timestamp), Itoa(b.bpm);
    ItoaDenotes(b.index);
    ItoaDenotes(b.bpm);
    i, j, k := |x|, |x| + |t|, |x| + |t| + |y|;
    assert Preimage(b)[..i] == x && Preimage(b)[i..j] == t && Preimage(b)[j..k] == y;
  }

  datatype BlockError =
    | InvalidHash | InvalidIndex | InvalidPrevHash | MissingPrevious | FutureTimestamp | InvalidBpm

  /** The checks of `Validate` in their order; `None` is the nil error. */
  function Validate(b: Block, prev: Option<Block>, now: int): Option<BlockError> {
    if b.hash != CalculateHash(b) then Some(InvalidHash)
    else if prev.Some? && b.index != prev.value.index + 1 then Some(InvalidIndex)
    else if prev.Some? && b.prevHash != prev.value.hash then Some(InvalidPrevHash)
    else if prev.None? && b.index != 0 then Some(MissingPrevious)
    else if Instant(b.timestamp) > now + MAX_TIME_DRIFT then Some(FutureTimestamp)
    else if b.bpm < 0 then Some(InvalidBpm)
    else None
  }

  /** What each error of `Validate` says is wrong. */
  predicate IsWrong(e: BlockError, b: Block, prev: Option<Block>, now: int) {
    match e
    case InvalidHash => b.hash != CalculateHash(b)
    case InvalidIndex => prev.Some? && b.index - prev.value.index != 1
    case InvalidPrevHash => prev.Some? && b.prevHash != prev.value.hash
    case MissingPrevious => prev.None? && b.index != 0
    case FutureTimestamp => Instant(b.timestamp) - now > 600_000_000_000
    case InvalidBpm => b.bpm < 0
  }

  /** The order in which the program looks. */
  function Rank(e: BlockError): nat {
    match e
    case InvalidHash => 0
    case InvalidIndex => 1
    case InvalidPrevHash => 2
    case MissingPrevious => 3
    case FutureTimestamp => 4
    case InvalidBpm => 5
  }

  /** `Validate` reports the first thing that is wrong, and nothing if nothing is. */
  lemma ValidateReportsFirst(b: Block, prev: Option<Block>, now: int)
    ensures Validate(b, prev, now).None? <==> forall e :: !IsWrong(e, b, prev, now)
    ensures forall e :: Validate(b, prev, now) == Some(e) <==>
              IsWrong(e, b, prev, now) && forall f :: Rank(f) < Rank(e) ==> !IsWrong(f, b, prev, now)
  {
    var first := Validate(b, prev, now);
    if first.Some? {
      FirstIsWrong(b, prev, now);
    } else {
      NothingIsWrong(b, prev, now);
    }
  }

  lemma FirstIsWrong(b: Block, prev: Option<Block>, now: int)
    requires Validate(b, prev, now).Some?
    ensures var e := Validate(b, prev, now).value;
            IsWrong(e, b, prev, now) && forall f :: Rank(f) < Rank(e) ==> !IsWrong(f, b, prev, now)
  {
  }

  lemma NothingIsWrong(b: Block, prev: Option<Block>, now: int)
    requires Validate(b, prev, now).None?
    ensures forall e :: !IsWrong(e, b, prev, now)
  {
  }

  function NewBlock(index: int, bpm: int, prevHash: string, timestamp: Timestamp): Block {
    var b := Block(index, timestamp, bpm, "", prevHash);
    b.(hash := CalculateHash(b))
  }

  function Genesis(): Block {
    var b := Block(0, EPOCH, 0, "", "0");
    b.(hash := CalculateHash(b))
  }

  /** Equality of all that the hash covers: everything but the nanoseconds of the timestamp. */
  predicate SameBlock(a: Block, b: Block) {
    a.(timestamp := EPOCH) == b.(timestamp := EPOCH) && SameSecond(a.timestamp, b.timestamp)
  }

  /** Two different texts with one hash, exhibited by two blocks. */
  predicate Collide(a: Block, b: Block) {
    Preimage(a) != Preimage(b) && Sha256(Preimage(a)) == Sha256(Preimage(b))
  }

  // ----- Unique decoding of the hashed text -----

  /** A number, then a year: the first dash stands four digits after the end of the number. */
  lemma DigitsBeforeYear(d: string, s: string, e: string, r: string)
    requires AllDigits(d) && StartsWithYear(s)
    requires AllDigits(e) && StartsWithYear(r)
    requires d + s == e + r
    ensures d == e && s == r
  {
    DashPosition(d, s, e, r);
    DashPosition(e, r, d, s);
    assert d == (d + s)[..|d|] == (e + r)[..|e|] == e;
    assert s == (d + s)[|d|..] == (e + r)[|e|..] == r;
  }

  lemma DashPosition(d: string, s: string, e: string, r: string)
    requires StartsWithYear(s)
    requires AllDigits(e) && StartsWithYear(r)
    requires d + s == e + r
    ensures |d| >= |e|
  {
    if |d| < |e| {
      var k := |d| + 4;
      assert '-' == s[4] == (d + s)[k] == (e + r)[k];
      assert IsDigit((e + r)[k]) by {
        if k < |e| {
          assert (e + r)[k] == e[k];
        } else {
          assert (e + r)[k] == r[..4][k - |e|];
        }
      }
    }
  }

  /** An integer of either sign followed by a printed time is a prefix code too: the year's four digits
      and the first dash after them tell where the integer ends. */
  lemma IndexIsPrefixCode(m: int, s: string, n: int, r: string)
    requires StartsWithYear(s) && StartsWithYear(r)
    requires Itoa(m) + s == Itoa(n) + r
    ensures m == n && s == r
  {
    SignsAgree(m, s, n, r);
    NaturalIsPrefixCode(if m < 0 then -m else m, s, if n < 0 then -n else n, r);
  }

  /** Both numbers have the same sign, and their digits stand before the same text. */
  lemma SignsAgree(m: int, s: string, n: int, r: string)
    requires Itoa(m) + s == Itoa(n) + r
    ensures m < 0 <==> n < 0
    ensures Digits(if m < 0 then -m else m) + s == Digits(if n < 0 then -n else n) + r
  {
    ItoaForm(m);
    ItoaForm(n);
    assert Itoa(m)[0] == (Itoa(m) + s)[0] == (Itoa(n) + r)[0] == Itoa(n)[0];
    if m < 0 {
      SignTakenOff(Digits(-m), s, Digits(-n), r);
    }
  }

  lemma SignTakenOff(d: string, s: string, e: string, r: string)
    requires "-" + d + s == "-" + e + r
    ensures d + s == e + r
  {
    assert d + s == ("-" + d + s)[1..];
    assert e + r == ("-" + e + r)[1..];
  }

  lemma NaturalIsPrefixCode(m: nat, s: string, n: nat, r: string)
    requires StartsWithYear(s) && StartsWithYear(r)
    requires Digits(m) + s == Digits(n) + r
    ensures m == n && s == r
  {
    DigitsForm(m);
    DigitsForm(n);
    DigitsBeforeYear(Digits(m), s, Digits(n), r);
    DigitsDenote(m);
    DigitsDenote(n);
  }

  /** Whatever their other fields, blocks with one hashed text have one index and one printed time. */
  lemma PreimageTellsIndex(a: Block, b: Block)
    requires Preimage(a) == Preimage(b)
    ensures a.index == b.index && SameSecond(a.timestamp, b.timestamp)
    ensures Itoa(a.bpm) + a.prevHash == Itoa(b.bpm) + b.prevHash
  {
    var s, r := Itoa(a.bpm) + a.prevHash, Itoa(b.bpm) + b.prevHash;
    PreimageSplits(a);
    PreimageSplits(b);
    FormatStartsWithYear(a.timestamp, s);
    FormatStartsWithYear(b.timestamp, r);
    IndexIsPrefixCode(a.index, Format(a.timestamp) + s, b.index, Format(b.timestamp) + r);
    FormatIsPrefixCode(a.timestamp, s, b.timestamp, r);
  }

  lemma PreimageSplits(b: Block)
    ensures Preimage(b) == Itoa(b.index) + (Format(b.timestamp) + (Itoa(b.bpm) + b.prevHash))
  {
    var i, t, p, h := Itoa(b.index), Format(b.timestamp), Itoa(b.bpm), b.prevHash;
    assert i + t + p + h == i + (t + (p + h));
  }

  /** Unique decoding: once the lengths of the previous hashes agree, the hashed text determines
      every field it is made of, for indices and beats of either sign. */
  lemma PreimageUniquelyDecodes(a: Block, b: Block)
    requires |a.prevHash| == |b.prevHash|
    ensures Preimage(a) == Preimage(b) <==>
            a.index == b.index && SameSecond(a.timestamp, b.timestamp) &&
            a.bpm == b.bpm && a.prevHash == b.prevHash
  {
    if Preimage(a) == Preimage(b) {
      PreimageTellsIndex(a, b);
      var s, r := Itoa(a.bpm) + a.prevHash, Itoa(b.bpm) + b.prevHash;
      assert Itoa(a.bpm) == s[..|Itoa(a.bpm)|] == r[..|Itoa(b.bpm)|] == Itoa(b.bpm);
      assert a.prevHash == s[|Itoa(a.bpm)|..] == r[|Itoa(b.bpm)|..] == b.prevHash;
      ItoaInjective(a.bpm, b.bpm);
    } else if a.index == b.index && SameSecond(a.timestamp, b.timestamp)
              && a.bpm == b.bpm && a.prevHash == b.prevHash {
      SameSecondPrintsSame(a.timestamp, b.timestamp);
    }
  }

  /** Zeros in front of a previous hash read just as well as the end of a power of ten: for every tail and
      every difference in length two blocks share one text. */
  lemma TextShared(k: nat, tail: string)
    ensures Preimage(Block(1, EPOCH, 1, "", Zeros(k) + tail))
         == Preimage(Block(1, EPOCH, PowerOfTen(k), "", tail))
  {
    TailShared(k, tail);
    PreimageSplits(Block(1, EPOCH, 1, "", Zeros(k) + tail));
    PreimageSplits(Block(1, EPOCH, PowerOfTen(k), "", tail));
  }

  lemma TailShared(k: nat, tail: string)
    ensures Itoa(1) + (Zeros(k) + tail) == Itoa(PowerOfTen(k)) + tail
  {
    PowerOfTenPrints(k);
    Assoc("1", Zeros(k), tail);
    assert Itoa(1) == "1";
  }

  lemma PowerExceedsOne(k: nat)
    requires k > 0
    ensures PowerOfTen(k) > 1
  {
    PowerOfTenPrints(k - 1);
  }

  /** Beats and previous hash can be told from the hashed text when the previous hashes have these lengths. */
  ghost predicate Decodes(m: nat, n: nat) {
    forall a: Block, b: Block ::
      |a.prevHash| == m && |b.prevHash| == n && Preimage(a) == Preimage(b) ==>
        a.bpm == b.bpm && a.prevHash == b.prevHash
  }

  lemma ShorterNeverDecodes(m: nat, n: nat)
    requires n < m
    ensures !Decodes(m, n) && !Decodes(n, m)
  {
    var a := Block(1, EPOCH, 1, "", Zeros(m - n) + Zeros(n));
    var b := Block(1, EPOCH, PowerOfTen(m - n), "", Zeros(n));
    TextShared(m - n, Zeros(n));
    PowerExceedsOne(m - n);
    assert |a.prevHash| == m && |b.prevHash| == n && Preimage(a) == Preimage(b) && a.bpm != b.bpm;
  }

  /** The lengths for which the text decodes uniquely, exactly: those that are equal. */
  lemma DecodesExactlyWithEqualLengths(m: nat, n: nat)
    ensures Decodes(m, n) <==> m == n
  {
    if m == n {
      forall a: Block, b: Block | |a.prevHash| == m && |b.prevHash| == n && Preimage(a) == Preimage(b)
        ensures a.bpm == b.bpm && a.prevHash == b.prevHash
      {
        PreimageUniquelyDecodes(a, b);
      }
    } else if n < m {
      ShorterNeverDecodes(m, n);
    } else {
      ShorterNeverDecodes(n, m);
    }
  }

  /** For example: one beat after "03", or ten after "3". */
  lemma PreimageAmbiguousWithoutLength()
    ensures Preimage(Block(1, EPOCH, 1, "", "03")) == Preimage(Block(1, EPOCH, 10, "", "3"))
  {
    TextShared(1, "3");
    assert PowerOfTen(1) == 10 * PowerOfTen(0) == 10;
    assert Zeros(1) + "3" == "03";
  }

  /** Genesis pinning: comparing hashes alone pins every hashed field of the first block, although
      the length of its previous hash is not known beforehand. */
  lemma GenesisPinned(b: Block)
    requires b.hash == CalculateHash(b) && b.hash == Genesis().hash
    ensures SameBlock(b, Genesis()) || Collide(b, Genesis())
  {
    assert Preimage(Genesis()) == Preimage(Genesis().(hash := ""));
    if Preimage(b) == Preimage(Genesis()) {
      GenesisTextPinned(b);
    }
  }

  lemma GenesisTextPinned(b: Block)
    requires Preimage(b) == Preimage(Genesis())
    ensures b.index == 0 && SameSecond(b.timestamp, EPOCH) && b.bpm == 0 && b.prevHash == "0"
  {
    PreimageTellsIndex(b, Genesis());
    assert Itoa(0) + "0" == "00";
    DoubleZeroSplits(b.bpm, b.prevHash);
  }

  /** A printed number has no leading zero, so `00` can only be split in the middle. */
  lemma DoubleZeroSplits(n: int, s: string)
    requires Itoa(n) + s == "00"
    ensures n == 0 && s == "0"
  {
    ItoaForm(n);
    assert Itoa(n)[0] == (Itoa(n) + s)[0];
    DigitsForm(n);
    assert s == (Itoa(n) + s)[1..];
  }

  // ----- Validity -----

  /** Time only helps: a block that passes keeps passing as the clock advances. */
  lemma ValidityPersists(b: Block, prev: Option<Block>, now: int, later: int)
    requires Validate(b, prev, now).None? && now <= later
    ensures Validate(b, prev, later).None?
  {
  }

  lemma NewBlockCarriesItsHash(index: int, bpm: int, prevHash: string, timestamp: Timestamp)
    ensures var b := NewBlock(index, bpm, prevHash, timestamp);
            b == Block(index, timestamp, bpm, CalculateHash(b), prevHash)
  {
    var b0 := Block(index, timestamp, bpm, "", prevHash);
    assert Preimage(b0.(hash := CalculateHash(b0))) == Preimage(b0);
  }

  /** A block built on top of another one passes exactly if its beats are not negative. */
  lemma NewBlockPasses(prev: Block, bpm: int, timestamp: Timestamp, now: int)
    requires Instant(timestamp) <= now
    ensures Validate(NewBlock(prev.index + 1, bpm, prev.hash, timestamp), Some(prev), now)
         == if bpm < 0 then Some(InvalidBpm) else None
  {
    NewBlockCarriesItsHash(prev.index + 1, bpm, prev.hash, timestamp);
  }
}
