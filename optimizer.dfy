/**
 * The local-search driver. The entry point calls `optimize`, but the
 * ranking module does not define it; this method is reconstructed from the
 * algorithm the header comment of the ranking module describes: start from the identity placement, sweep the
 * pairs of positions, swap whenever that lowers the objective, and stop
 * after a sweep that made no swap.
 */
module Optimizer {
  import opened Rank

  /** No exchange of two positions lowers their combined cost. */
  ghost predicate LocallyOptimal(rs: seq<Resident>)
  {
    forall i: nat, j: nat :: i < j < |rs| ==>
      SwapScorable(rs, i, j) && !SwapImproves(rs, i, j)
  }

  /** The swap step refuses the pair `p` on `rs`. */
  ghost predicate PairRejected(rs: seq<Resident>, p: (nat, nat))
  {
    SwapScorable(rs, p.0, p.1) && !SwapImproves(rs, p.0, p.1)
  }

  /** No pair in `pairs` is an improving exchange of `rs`. */
  ghost predicate NoPairImproves(rs: seq<Resident>, pairs: seq<(nat, nat)>)
  {
    forall m :: 0 <= m < |pairs| ==> PairRejected(rs, pairs[m])
  }

  /** When the pairs list exactly the (i, j) with i < j, a sequence is a
      local optimum iff none of the pairs improves it. */
  lemma LocallyOptimalIffNoPairImproves(rs: seq<Resident>, pairs: seq<(nat, nat)>)
    requires forall p :: p in pairs <==> p.0 < p.1 < |rs|
    ensures LocallyOptimal(rs) <==> NoPairImproves(rs, pairs)
  {
    if NoPairImproves(rs, pairs) {
      forall i: nat, j: nat | i < j < |rs|
        ensures SwapScorable(rs, i, j) && !SwapImproves(rs, i, j)
      {
        assert (i, j) in pairs;
        var m :| 0 <= m < |pairs| && pairs[m] == (i, j);
      }
    }
    if LocallyOptimal(rs) {
      forall m | 0 <= m < |pairs|
        ensures PairRejected(rs, pairs[m])
      {
        assert pairs[m] in pairs;
      }
    }
  }

  /** Every pair names two positions of a sequence of length n. */
  predicate PairsWithin(pairs: seq<(nat, nat)>, n: nat)
  {
    forall m :: 0 <= m < |pairs| ==> pairs[m].0 < n && pairs[m].1 < n
  }

  /** The outcome of one sweep: the residents afterwards and whether any
      swap was made. */
  datatype PassResult = PassResult(residents: seq<Resident>, swapped: bool)

  /** One sweep as a function: offer the pairs in order to the swap step,
      each seeing the residents as the earlier pairs left them. */
  ghost function Pass(rs: seq<Resident>, pairs: seq<(nat, nat)>): PassResult
    requires Complete(rs) && PairsWithin(pairs, |rs|)
    decreases |pairs|
  {
    if |pairs| == 0 then PassResult(rs, false)
    else
      var i, j := pairs[0].0, pairs[0].1;
      CompleteScorable(rs, i, j);
      SwappedComplete(rs, i, j);
      var improves := SwapImproves(rs, i, j);
      var rest := Pass(if improves then Swapped(rs, i, j) else rs, pairs[1..]);
      PassResult(rest.residents, improves || rest.swapped)
  }

  /** A sweep permutes the residents and keeps them complete; it swaps iff
      some pair improves the residents it starts from, lowers the objective
      when it swaps, and otherwise leaves the residents untouched. */
  lemma {:induction false} PassProperties(rs: seq<Resident>, pairs: seq<(nat, nat)>)
    requires Complete(rs) && PairsWithin(pairs, |rs|)
    ensures Complete(Pass(rs, pairs).residents)
    ensures multiset(Pass(rs, pairs).residents) == multiset(rs)
    ensures Pass(rs, pairs).swapped ==> Objective(Pass(rs, pairs).residents) < Objective(rs)
    ensures !Pass(rs, pairs).swapped ==> Pass(rs, pairs).residents == rs
    ensures !Pass(rs, pairs).swapped <==> NoPairImproves(rs, pairs)
    decreases |pairs|
  {
    if |pairs| > 0 {
      var i, j := pairs[0].0, pairs[0].1;
      CompleteScorable(rs, i, j);
      SwappedComplete(rs, i, j);
      ObjectiveAfterSwap(rs, i, j);
      var improves := SwapImproves(rs, i, j);
      var next := if improves then Swapped(rs, i, j) else rs;
      assert PairsWithin(pairs[1..], |next|);
      PassProperties(next, pairs[1..]);
      if !improves {
        assert PairRejected(rs, pairs[0]);
        if NoPairImproves(rs, pairs[1..]) {
          forall m | 0 <= m < |pairs|
            ensures PairRejected(rs, pairs[m])
          {
            if m > 0 {
              assert pairs[m] == pairs[1..][m - 1];
            }
          }
        }
        if NoPairImproves(rs, pairs) {
          forall m | 0 <= m < |pairs[1..]|
            ensures PairRejected(rs, pairs[1..][m])
          {
            assert pairs[1..][m] == pairs[m + 1];
          }
        }
      } else {
        assert !PairRejected(rs, pairs[0]);
      }
    }
  }

  /** One sweep: offer every pair, in order, to the swap step. */
  method Sweep(residents: array<Resident>, pairs: seq<(nat, nat)>) returns (swappedInPass: bool)
    requires Complete(residents[..]) && PairsWithin(pairs, residents.Length)
    modifies residents
    ensures residents[..] == Pass(old(residents[..]), pairs).residents
    ensures swappedInPass == Pass(old(residents[..]), pairs).swapped
  {
    ghost var start := residents[..];
    swappedInPass := false;
    for k := 0 to |pairs|
      invariant Complete(residents[..])
      invariant PairsWithin(pairs[k..], residents.Length)
      invariant Pass(start, pairs) ==
        PassResult(Pass(residents[..], pairs[k..]).residents,
                   swappedInPass || Pass(residents[..], pairs[k..]).swapped)
    {
      var i, j := pairs[k].0, pairs[k].1;
      ghost var before := residents[..];
      CompleteScorable(before, i, j);
      SwappedComplete(before, i, j);
      assert pairs[k..][1..] == pairs[k + 1..];
      var swapped := SwapResidentsIfBetter(residents, (i, j));
      if swapped {
        swappedInPass := true;
      }
    }
  }

  /** Sweeps repeated from `rs` until one makes no swap: the placement the
      driver ends in. Each swapping sweep lowers the objective, so this ends. */
  ghost function Converge(rs: seq<Resident>, pairs: seq<(nat, nat)>): seq<Resident>
    requires Complete(rs) && PairsWithin(pairs, |rs|)
    decreases Objective(rs)
  {
    var r := Pass(rs, pairs);
    if !r.swapped then rs
    else
      PassProperties(rs, pairs);
      assert |multiset(r.residents)| == |multiset(rs)|;
      Converge(r.residents, pairs)
  }

  /** Reconstructed driver: repeated first-improvement sweeps over the pairs
      in lexicographic order until a sweep makes no swap. */
  method Optimize(residents: array<Resident>) returns (ghost pairs: seq<(nat, nat)>)
    requires Complete(residents[..])
    modifies residents
    ensures forall p :: p in pairs <==> p.0 < p.1 < residents.Length
    ensures forall a, b :: 0 <= a < b < |pairs| ==> PairLess(pairs[a], pairs[b])
    ensures PairsWithin(pairs, residents.Length)
    ensures residents[..] == Converge(old(residents[..]), pairs)
    ensures Complete(residents[..])
    ensures multiset(residents[..]) == multiset(old(residents[..]))
    ensures LocallyOptimal(residents[..])
    ensures Objective(residents[..]) <= Objective(old(residents[..]))
    ensures LocallyOptimal(old(residents[..])) ==> residents[..] == old(residents[..])
  {
    var allPairs := GenerateUniquePairs(residents.Length);
    pairs := allPairs;
    assert PairsWithin(allPairs, residents.Length) by {
      forall m | 0 <= m < |allPairs|
        ensures allPairs[m].0 < residents.Length && allPairs[m].1 < residents.Length
      {
        assert allPairs[m] in allPairs;
      }
    }
    ghost var start := residents[..];
    var swappedInPass := true;
    while swappedInPass
      invariant Complete(residents[..])
      invariant multiset(residents[..]) == multiset(start)
      invariant Objective(residents[..]) <= Objective(start)
      invariant !swappedInPass ==> LocallyOptimal(residents[..])
      invariant LocallyOptimal(start) ==> residents[..] == start
      invariant swappedInPass ==> Converge(residents[..], pairs) == Converge(start, pairs)
      invariant !swappedInPass ==> residents[..] == Converge(start, pairs)
      decreases Objective(residents[..]) + (if swappedInPass then 1 else 0)
    {
      ghost var before := residents[..];
      LocallyOptimalIffNoPairImproves(before, pairs);
      PassProperties(before, pairs);
      swappedInPass := Sweep(residents, allPairs);
      LocallyOptimalIffNoPairImproves(residents[..], pairs);
    }
  }
}
