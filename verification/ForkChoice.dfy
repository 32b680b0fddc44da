/** Fork choice (`TryAcceptChain` and `ReplaceChain` of internal/blockchain/blockchain.go): what a series
    of calls leaves behind, and what calls that interleave can and cannot do. */
module ForkChoice {
  import opened Options
  import opened Timestamps
  import opened Blocks
  import opened Chains

  // ----- Calls one after the other -----

  /** One call of `TryAcceptChain`, from its first clock reading to its last, and its answer. */
  datatype Attempt = Attempt(candidate: Chain, from: int, to: int, accepted: bool)

  /** The answer is the one the code can give with chain `c` in place: since every block is validated at
      a reading of its own, it is pinned by validity at the start and at the end of the call. */
  predicate Answered(c: Chain, a: Attempt) {
    && (|a.candidate| > |c| && ValidChain(a.candidate, a.from) ==> a.accepted)
    && (a.accepted ==> |a.candidate| > |c| && ValidChain(a.candidate, a.to))
  }

  function After(c: Chain, a: Attempt): Chain {
    if a.accepted then a.candidate else c
  }

  /** The chains in place before, between and after the calls. */
  predicate IsHistory(chains: seq<Chain>, attempts: seq<Attempt>) {
    && |chains| == |attempts| + 1
    && forall k :: 0 <= k < |attempts| ==>
         Answered(chains[k], attempts[k]) && chains[k + 1] == After(chains[k], attempts[k])
  }

  /** Attempt `k` is the last accepted one, and beats everything before it strictly. */
  predicate IsWinner(start: Chain, attempts: seq<Attempt>, k: nat)
    requires k < |attempts|
  {
    var a := attempts[k];
    && a.accepted && |a.candidate| > |start| && ValidChain(a.candidate, a.to)
    && forall j :: 0 <= j < k && ValidChain(attempts[j].candidate, attempts[j].from) ==>
         |attempts[j].candidate| < |a.candidate|
  }

  lemma {:induction false} LengthsRise(chains: seq<Chain>, attempts: seq<Attempt>, i: nat, j: nat)
    requires IsHistory(chains, attempts) && i <= j < |chains|
    ensures |chains[i]| <= |chains[j]|
  {
    if i < j {
      LengthsRise(chains, attempts, i, j - 1);
      assert Answered(chains[j - 1], attempts[j - 1]);
    }
  }

  lemma {:induction false} LastAccepted(chains: seq<Chain>, attempts: seq<Attempt>, n: nat)
    returns (winner: Option<nat>)
    requires IsHistory(chains, attempts) && n < |chains|
    ensures winner.None? ==> chains[n] == chains[0]
    ensures winner.Some? ==> winner.value < n && attempts[winner.value].accepted
                             && chains[n] == attempts[winner.value].candidate
  {
    if n == 0 {
      winner := None;
    } else if attempts[n - 1].accepted {
      winner := Some(n - 1);
    } else {
      winner := LastAccepted(chains, attempts, n - 1);
    }
  }

  /** Fork choice: any series of candidates leaves the earliest chain of maximum length among the starting
      chain and the valid candidates; ties keep the chain in place. */
  lemma EarliestLongestWins(chains: seq<Chain>, attempts: seq<Attempt>)
    requires IsHistory(chains, attempts)
    ensures var start, end := chains[0], chains[|attempts|];
            && |start| <= |end|
            && (forall k :: 0 <= k < |attempts| && ValidChain(attempts[k].candidate, attempts[k].from) ==>
                  |attempts[k].candidate| <= |end|)
            && (end == start
                || exists k :: 0 <= k < |attempts| && end == attempts[k].candidate && IsWinner(start, attempts, k))
  {
    var start, end := chains[0], chains[|attempts|];
    LengthsRise(chains, attempts, 0, |attempts|);
    forall k | 0 <= k < |attempts| && ValidChain(attempts[k].candidate, attempts[k].from)
      ensures |attempts[k].candidate| <= |end|
    {
      CandidateMatched(chains, attempts, k, |attempts|);
    }
    var winner := LastAccepted(chains, attempts, |attempts|);
    if winner.Some? {
      var k := winner.value;
      assert Answered(chains[k], attempts[k]);
      LengthsRise(chains, attempts, 0, k);
      forall j | 0 <= j < k && ValidChain(attempts[j].candidate, attempts[j].from)
        ensures |attempts[j].candidate| < |attempts[k].candidate|
      {
        CandidateMatched(chains, attempts, j, k);
      }
      assert IsWinner(start, attempts, k);
    }
  }

  lemma CandidateMatched(chains: seq<Chain>, attempts: seq<Attempt>, k: nat, n: nat)
    requires IsHistory(chains, attempts) && k < n < |chains|
    requires ValidChain(attempts[k].candidate, attempts[k].from)
    ensures |attempts[k].candidate| <= |chains[n]|
  {
    assert Answered(chains[k], attempts[k]) && chains[k + 1] == After(chains[k], attempts[k]);
    LengthsRise(chains, attempts, k + 1, n);
  }

  // ----- Calls that interleave -----

  /** How far a concurrent call of `TryAcceptChain` has come: it found the candidate longer than the
      `seen` blocks then in place, it has validated the candidate, or it is over. All its readings of the
      clock from then on are `since` or later. */
  datatype Call =
    | Compared(candidate: Chain, seen: nat, since: int)
    | Validated(candidate: Chain, seen: nat, since: int)
    | Over(replaced: bool)

  datatype State = State(chain: Chain, clock: int, calls: map<nat, Call>)

  /** The atomic pieces: everything under the lock happens at once, and the unlocked validation of a
      candidate may end at any later time. A validation reads the clock any number of times between the
      step of its call before it (`from` for `Replace`) and `now`, whatever else happens meanwhile. */
  datatype Event =
    | Add(bpm: int, timestamp: Timestamp, now: int)
    | Process(block: Block, now: int)
    | Replace(blocks: Chain, verdict: bool, from: int, now: int)
    | Compare(id: nat, candidate: Chain)
    | Check(id: nat, verdict: bool, now: int)
    | Commit(id: nat, verdict: bool, now: int)

  /** A verdict of `ValidateChain` between clock readings `from` and `to`. */
  predicate Possible(verdict: bool, candidate: Chain, from: int, to: int) {
    (ValidChain(candidate, from) ==> verdict) && (verdict ==> ValidChain(candidate, to))
  }

  predicate Enabled(s: State, e: Event) {
    match e
    case Add(_, t, now) => s.clock <= now && Instant(t) <= now
    case Process(_, now) => s.clock <= now
    case Replace(blocks, verdict, from, now) => s.clock <= now && from <= now && Possible(verdict, blocks, from, now)
    case Compare(id, _) => id !in s.calls
    case Check(id, verdict, now) =>
      id in s.calls && s.calls[id].Compared? && s.clock <= now
      && Possible(verdict, s.calls[id].candidate, s.calls[id].since, now)
    case Commit(id, verdict, now) =>
      id in s.calls && s.calls[id].Validated? && s.clock <= now
      && Possible(verdict, s.calls[id].candidate, s.calls[id].since, now)
  }

  function Next(s: State, e: Event): State
    requires s.chain != [] && Enabled(s, e)
  {
    match e
    case Add(bpm, t, now) => s.(chain := Extend(s.chain, NextBlock(s.chain, bpm, t), now), clock := now)
    case Process(b, now) => s.(chain := Extend(s.chain, b, now), clock := now)
    case Replace(blocks, verdict, _, now) =>
      s.(chain := if |blocks| > |s.chain| && verdict then blocks else s.chain, clock := now)
    case Compare(id, candidate) =>
      s.(calls := s.calls[id :=
        if |candidate| > |s.chain| then Compared(candidate, |s.chain|, s.clock) else Over(false)])
    case Check(id, verdict, now) =>
      var call := s.calls[id];
      s.(clock := now, calls := s.calls[id :=
        if verdict then Validated(call.candidate, call.seen, now) else Over(false)])
    case Commit(id, verdict, now) =>
      var candidate := s.calls[id].candidate;
      var replaced := |candidate| > |s.chain| && verdict;
      s.(chain := if replaced then candidate else s.chain, calls := s.calls[id := Over(replaced)], clock := now)
  }

  predicate CallInvariant(s: State, call: Call) {
    match call
    case Compared(candidate, seen, since) =>
      seen < |candidate| && seen <= |s.chain| && since <= s.clock
    case Validated(candidate, seen, since) =>
      seen < |candidate| && seen <= |s.chain| && since <= s.clock && ValidChain(candidate, since)
    case Over(_) => true
  }

  predicate Invariant(s: State) {
    && ValidChain(s.chain, s.clock)
    && forall id :: id in s.calls ==> CallInvariant(s, s.calls[id])
  }

  /** Every step keeps the chain valid and never shortens it; a commit that replaces the chain strictly
      lengthens it. */
  lemma StepKeepsInvariant(s: State, e: Event)
    requires Invariant(s) && Enabled(s, e)
    ensures var t := Next(s, e);
            && Invariant(t) && |s.chain| <= |t.chain| && s.clock <= t.clock
            && (e.Commit? && t.calls[e.id].replaced ==>
                  |s.chain| < |t.chain| && t.chain == s.calls[e.id].candidate)
  {
    var t := Next(s, e);
    StepKeepsChainValid(s, e);
    forall id | id in t.calls
      ensures CallInvariant(t, t.calls[id])
    {
      if id in s.calls && t.calls[id] == s.calls[id] {
        assert CallInvariant(s, s.calls[id]);
        CallInvariantPersists(s, t, s.calls[id]);
      } else if e.Check? {
        assert CallInvariant(s, s.calls[e.id]);
      }
    }
  }

  lemma StepKeepsChainValid(s: State, e: Event)
    requires Invariant(s) && Enabled(s, e)
    ensures var t := Next(s, e);
            ValidChain(t.chain, t.clock) && |s.chain| <= |t.chain| && s.clock <= t.clock
  {
    match e
    case Add(bpm, ts, now) => ExtendKeepsValidLater(s.chain, NextBlock(s.chain, bpm, ts), s.clock, now);
    case Process(b, now) => ExtendKeepsValidLater(s.chain, b, s.clock, now);
    case Replace(_, _, _, now) => ChainValidityPersists(s.chain, s.clock, now);
    case Compare(_, _) =>
    case Check(_, _, now) => ChainValidityPersists(s.chain, s.clock, now);
    case Commit(_, _, now) => ChainValidityPersists(s.chain, s.clock, now);
  }

  lemma CallInvariantPersists(s: State, t: State, call: Call)
    requires CallInvariant(s, call) && |s.chain| <= |t.chain| && s.clock <= t.clock
    ensures CallInvariant(t, call)
  {
  }

  /** "failed to replace chain" comes out exactly when, since the call compared lengths, other calls have
      made the chain at least as long as the candidate: the second validation never fails. */
  lemma CommitFailsIffOutgrown(s: State, e: Event)
    requires Invariant(s) && Enabled(s, e) && e.Commit?
    ensures var call := s.calls[e.id];
            && (!Next(s, e).calls[e.id].replaced <==> |call.candidate| <= |s.chain|)
            && (|call.candidate| <= |s.chain| ==> call.seen < |s.chain|)
  {
    assert CallInvariant(s, s.calls[e.id]);
  }

  // ----- What each piece does -----

  /** Additions and received blocks: the chain is extended by exactly the block that fits, at once. */
  lemma OfferingEffect(s: State, e: Event)
    requires s.chain != [] && Enabled(s, e) && (e.Add? || e.Process?)
    ensures var t := Next(s, e);
            && t.calls == s.calls && t.clock == e.now
            && (e.Process? ==> t.chain == Extend(s.chain, e.block, e.now))
            && (e.Add? && e.bpm < 0 ==> t.chain == s.chain)
            && (e.Add? && e.bpm >= 0 ==>
                  && |t.chain| == |s.chain| + 1 && s.chain <= t.chain
                  && Last(t.chain).bpm == e.bpm && Last(t.chain).timestamp == e.timestamp
                  && Last(t.chain).prevHash == Last(s.chain).hash)
  {
    if e.Add? {
      NextBlockExtends(s.chain, e.bpm, e.timestamp, e.now);
      NextBlockFields(s.chain, e.bpm, e.timestamp);
    }
  }

  /** `ReplaceChain` alone: a longer chain that is valid throughout takes the place of the chain, and one that
      is not longer, or invalid at the end, does not. */
  lemma ReplaceEffect(s: State, e: Event)
    requires s.chain != [] && Enabled(s, e) && e.Replace?
    ensures var t := Next(s, e);
            && t.calls == s.calls && t.clock == e.now && (t.chain == e.blocks || t.chain == s.chain)
            && (|e.blocks| > |s.chain| && ValidChain(e.blocks, e.from) ==> t.chain == e.blocks)
            && (|e.blocks| <= |s.chain| || !ValidChain(e.blocks, e.now) ==> t.chain == s.chain)
  {
  }

  /** The unlocked pieces change no chain. A candidate goes on to validation exactly if it is longer, and on to
      the commit if it is valid throughout, but not if it is invalid at the end. */
  lemma UnlockedEffect(s: State, e: Event)
    requires s.chain != [] && Enabled(s, e) && (e.Compare? || e.Check?)
    ensures var t := Next(s, e);
            && t.chain == s.chain && e.id in t.calls
            && (forall id :: id != e.id ==>
                  (id in t.calls <==> id in s.calls) && (id in s.calls ==> t.calls[id] == s.calls[id]))
            && (e.Compare? ==>
                  t.calls[e.id] == if |e.candidate| > |s.chain| then Compared(e.candidate, |s.chain|, s.clock)
                                   else Over(false))
            && (e.Check? ==>
                  var call := s.calls[e.id];
                  && (t.calls[e.id] == Validated(call.candidate, call.seen, e.now) || t.calls[e.id] == Over(false))
                  && (ValidChain(call.candidate, call.since) ==> t.calls[e.id].Validated?)
                  && (!ValidChain(call.candidate, e.now) ==> t.calls[e.id] == Over(false)))
  {
  }

  /** A commit: a validated candidate that is still longer replaces the chain, any other leaves it. */
  lemma CommitEffect(s: State, e: Event)
    requires Invariant(s) && Enabled(s, e) && e.Commit?
    ensures var t, candidate := Next(s, e), s.calls[e.id].candidate;
            && (|candidate| > |s.chain| ==> t.chain == candidate && t.calls[e.id] == Over(true))
            && (|candidate| <= |s.chain| ==> t.chain == s.chain && t.calls[e.id] == Over(false))
  {
    assert CallInvariant(s, s.calls[e.id]);
  }

  /** A call whose pieces follow each other is an attempt as in a series of calls: it leaves what fork choice
      says, and is accepted exactly if the candidate is longer and found valid. */
  lemma UninterruptedCall(s: State, id: nat, candidate: Chain, verdict: bool, now: int, later: int)
    requires Invariant(s) && id !in s.calls && Possible(verdict, candidate, s.clock, now) && s.clock <= now <= later
    ensures Enabled(s, Compare(id, candidate))
    ensures var compared := Next(s, Compare(id, candidate));
            var a := Attempt(candidate, s.clock, later, |candidate| > |s.chain| && verdict);
            && Answered(s.chain, a)
            && (|candidate| <= |s.chain| ==> compared.chain == After(s.chain, a) && compared.calls[id] == Over(false))
            && (|candidate| > |s.chain| ==>
                  && Enabled(compared, Check(id, verdict, now))
                  && var checked := Next(compared, Check(id, verdict, now));
                     && (!verdict ==> checked.chain == After(s.chain, a) && checked.calls[id] == Over(false))
                     && (verdict ==>
                           && Enabled(checked, Commit(id, true, later))
                           && Next(checked, Commit(id, true, later)).chain == After(s.chain, a)))
  {
    if verdict {
      ChainValidityPersists(candidate, now, later);
    }
  }

  predicate IsRun(states: seq<State>, events: seq<Event>) {
    && |states| == |events| + 1
    && forall k :: 0 <= k < |events| ==>
         states[k].chain != [] && Enabled(states[k], events[k]) && states[k + 1] == Next(states[k], events[k])
  }

  lemma {:induction false} RunsKeepInvariant(states: seq<State>, events: seq<Event>, i: nat, k: nat)
    requires IsRun(states, events) && i <= k < |states|
    requires Invariant(states[0])
    ensures Invariant(states[k]) && |states[i].chain| <= |states[k].chain|
    decreases k
  {
    if k > 0 {
      var s, t := states[k - 1], states[k];
      RunsKeepInvariant(states, events, Min(i, k - 1), k - 1);
      StepKeepsInvariant(s, events[k - 1]);
      assert Invariant(t) && |s.chain| <= |t.chain|;
    }
  }

  /** Chain validity over all runs: whatever mix of local additions, received blocks and replacements,
      sequential or interleaved, after every step the chain is valid at the current clock, so that
      `IsValid` and `ValidateChain` both accept it, and every index is a position. */
  lemma RunsStayValid(states: seq<State>, events: seq<Event>, k: nat)
    requires IsRun(states, events) && k < |states|
    requires Invariant(states[0])
    ensures var s := states[k];
            ValidChain(s.chain, s.clock) && Linked(s.chain)
  {
    RunsKeepInvariant(states, events, 0, k);
    ValidIffLinkedAndTimely(states[k].chain, states[k].clock);
  }
}
