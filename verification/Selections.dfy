/** What a loop over a list picks, said by positions: in order, each once, and exactly the chosen ones. */
module Selections {

  ghost predicate IsSelection(picks: seq<nat>, n: nat, chosen: nat -> bool) {
    && (forall k :: 0 <= k < |picks| ==> picks[k] < n)
    && (forall j, k :: 0 <= j < k < |picks| ==> picks[j] < picks[k])
    && forall i: nat :: i < n ==> (i in picks <==> chosen(i))
  }

  /** The result holds, one for each chosen position below `n`, something that fits that position. */
  ghost predicate Picks<T>(result: seq<T>, picks: seq<nat>, n: nat, chosen: nat -> bool, fits: (nat, T) -> bool) {
    IsSelection(picks, n, chosen) && |result| == |picks| && forall k :: 0 <= k < |picks| ==> fits(picks[k], result[k])
  }

  lemma NothingPicked<T>(chosen: nat -> bool, fits: (nat, T) -> bool)
    ensures Picks([], [], 0, chosen, fits)
  {
  }

  lemma OneMoreSelected(picks: seq<nat>, n: nat, chosen: nat -> bool)
    requires IsSelection(picks, n, chosen)
    ensures IsSelection(if chosen(n) then picks + [n] else picks, n + 1, chosen)
  {
    var more := if chosen(n) then picks + [n] else picks;
    assert forall i: nat :: i in more <==> i in picks || (i == n && chosen(n));
    assert n !in picks;
  }

  lemma OneMorePicked<T>(result: seq<T>, picks: seq<nat>, n: nat, chosen: nat -> bool, fits: (nat, T) -> bool,
                         next: seq<T>)
    requires Picks(result, picks, n, chosen, fits)
    requires if chosen(n) then |next| == 1 && fits(n, next[0]) else next == []
    ensures Picks(result + next, if chosen(n) then picks + [n] else picks, n + 1, chosen, fits)
  {
    OneMoreSelected(picks, n, chosen);
    if !chosen(n) {
      assert result + next == result;
    }
  }
}
