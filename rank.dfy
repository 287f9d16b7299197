/**
 * The resident-to-track ranking core of the rank-list optimizer.
 *
 * N residents are placed on N tracks; the resident at (zero-based) position p
 * of the working vector holds track p + 1. Each resident ranks the tracks,
 * most preferred first, and pays the square of the zero-based rank of the
 * track it holds. The optimizer swaps two residents whenever that strictly
 * lowers their combined cost.
 */
module Rank {

  datatype Option<T> = None | Some(value: T)

  /** Largest value of the source's 32-bit signed integers. */
  const I32_MAX: int := 0x7fff_ffff

  /** A resident: an identifier and its rank list of track numbers. */
  datatype Resident = Resident(id: int, rankList: seq<int>)

  // ---------------------------------------------------------------------------
  // Record split
  // ---------------------------------------------------------------------------

  /** Builds a resident from an already parsed record: field 0 is the id,
      the remaining fields, in order, form the rank list. Reading field 0 of
      an empty record panics in the source, hence the precondition. */
  method FromRecord(record: seq<int>) returns (r: Resident)
    requires |record| > 0
    ensures r.id == record[0]
    ensures r.rankList == record[1..]
    ensures [r.id] + r.rankList == record
  {
    var rankList: seq<int> := [];
    var id := record[0];
    for i := 1 to |record|
      invariant rankList == record[1..i]
    {
      rankList := rankList + [record[i]];
    }
    r := Resident(id, rankList);
  }

  // ---------------------------------------------------------------------------
  // Scorer
  // ---------------------------------------------------------------------------

  /** The track held at a position. The conversion of the position to a
      32-bit integer and the checked increment both fail at I32_MAX. */
  function ElementToTrack(element: nat): (track: int)
    requires element < I32_MAX
    ensures 1 <= track <= I32_MAX
  {
    element + 1
  }

  /** The iterator search for the first entry equal to `track`. */
  function FindPosition(track: int, list: seq<int>): (r: Option<nat>)
    ensures r.Some? <==> track in list
    ensures r.Some? ==> r.value < |list| && list[r.value] == track
    ensures r.Some? ==> forall k :: 0 <= k < r.value ==> list[k] != track
  {
    if |list| == 0 then None
    else if list[0] == track then Some(0)
    else match FindPosition(track, list[1..])
      case None => None
      case Some(k) => Some(k + 1)
  }

  /** The zero-based rank of `track` in `list`; the source unwraps the
      search, so a track missing from the list is a caller error. */
  function GetTrackPosition(track: int, list: seq<int>): (k: nat)
    requires track in list
    ensures k < |list| && list[k] == track
    ensures forall m :: 0 <= m < k ==> list[m] != track
  {
    FindPosition(track, list).value
  }

  /** True when the resident can be scored at the given position without
      a panic: the track number fits and the track is on the rank list. */
  predicate CanScore(r: Resident, element: nat)
  {
    element < I32_MAX && ElementToTrack(element) in r.rankList
  }

  /** The cost of resident `r` at position `element`: the square of the
      zero-based rank of track `element + 1` on its rank list. */
  function Score(r: Resident, element: nat): (s: nat)
    requires CanScore(r, element)
    ensures s == 0 <==> r.rankList[0] == ElementToTrack(element)
  {
    var position := GetTrackPosition(ElementToTrack(element), r.rankList);
    position * position
  }

  /** The score is the square of the FIRST index at which the track occurs. */
  lemma ScoreIsSquaredFirstIndex(r: Resident, element: nat, k: nat)
    requires element < I32_MAX
    requires k < |r.rankList| && r.rankList[k] == element + 1
    requires forall m :: 0 <= m < k ==> r.rankList[m] != element + 1
    ensures CanScore(r, element)
    ensures Score(r, element) == k * k
  {
  }

  predicate NoDuplicates(list: seq<int>)
  {
    forall a, b :: 0 <= a < b < |list| ==> list[a] != list[b]
  }

  /** On a rank list without repeats, the track ranked k-th costs k * k. */
  lemma ScoreOfRank(r: Resident, k: nat)
    requires NoDuplicates(r.rankList)
    requires k < |r.rankList| && 1 <= r.rankList[k] <= I32_MAX
    ensures CanScore(r, r.rankList[k] - 1)
    ensures Score(r, r.rankList[k] - 1) == k * k
  {
  }

  /** The scores pinned down by the objective unit test. */
  lemma ScoreExamples()
    ensures var r := Resident(1, [2, 1, 3]);
      CanScore(r, 0) && CanScore(r, 1) && CanScore(r, 2) &&
      Score(r, 0) == 1 && Score(r, 1) == 0 && Score(r, 2) == 4
  {
  }

  // ---------------------------------------------------------------------------
  // Neighbourhood generator
  // ---------------------------------------------------------------------------

  /** Lexicographic order on position pairs. */
  predicate PairLess(p: (nat, nat), q: (nat, nat))
  {
    p.0 < q.0 || (p.0 == q.0 && p.1 < q.1)
  }

  /** All pairs of positions (i, j) with i < j < n, in lexicographic order. */
  method GenerateUniquePairs(n: nat) returns (pairs: seq<(nat, nat)>)
    ensures forall p :: p in pairs <==> p.0 < p.1 < n
    ensures forall a, b :: 0 <= a < b < |pairs| ==> PairLess(pairs[a], pairs[b])
    ensures forall a, b :: 0 <= a < b < |pairs| ==> pairs[a] != pairs[b]
    ensures |pairs| == n * (n - 1) / 2
  {
    pairs := [];
    for i := 0 to n
      invariant forall p :: p in pairs <==> p.0 < i && p.0 < p.1 < n
      invariant forall a, b :: 0 <= a < b < |pairs| ==> PairLess(pairs[a], pairs[b])
      invariant 2 * |pairs| == i * (2 * n - i - 1)
    {
      for j := i + 1 to n
        invariant forall p :: p in pairs <==> (p.0 < i && p.0 < p.1 < n) || (p.0 == i && i < p.1 < j)
        invariant forall a, b :: 0 <= a < b < |pairs| ==> PairLess(pairs[a], pairs[b])
        invariant 2 * |pairs| == i * (2 * n - i - 1) + 2 * (j - i - 1)
      {
        forall a | 0 <= a < |pairs|
          ensures PairLess(pairs[a], (i, j))
        {
          assert pairs[a] in pairs;
        }
        pairs := pairs + [(i, j)];
      }
      assert 2 * |pairs| == (i + 1) * (2 * n - (i + 1) - 1);
    }
  }

  // ---------------------------------------------------------------------------
  // Swap-acceptance step
  // ---------------------------------------------------------------------------

  /** The sequence with the entries at positions i and j exchanged. */
  function Swapped(rs: seq<Resident>, i: nat, j: nat): (t: seq<Resident>)
    requires i < |rs| && j < |rs|
    ensures |t| == |rs|
    ensures t[i] == rs[j] && t[j] == rs[i]
    ensures forall k :: 0 <= k < |rs| && k != i && k != j ==> t[k] == rs[k]
    ensures multiset(t) == multiset(rs)
  {
    rs[i := rs[j]][j := rs[i]]
  }

  /** All four scores the swap step looks up are defined. */
  predicate SwapScorable(rs: seq<Resident>, i: nat, j: nat)
  {
    i < |rs| && j < |rs| &&
    CanScore(rs[i], i) && CanScore(rs[j], j) &&
    CanScore(rs[j], i) && CanScore(rs[i], j)
  }

  /** The cost the two residents at i and j pay where they stand. */
  function PairCost(rs: seq<Resident>, i: nat, j: nat): nat
    requires SwapScorable(rs, i, j)
  {
    Score(rs[i], i) + Score(rs[j], j)
  }

  /** The cost the two residents at i and j would pay after exchanging. */
  function SwappedPairCost(rs: seq<Resident>, i: nat, j: nat): nat
    requires SwapScorable(rs, i, j)
  {
    Score(rs[j], i) + Score(rs[i], j)
  }

  /** The acceptance rule: exchange only on a strict improvement. */
  predicate SwapImproves(rs: seq<Resident>, i: nat, j: nat)
    requires SwapScorable(rs, i, j)
  {
    SwappedPairCost(rs, i, j) < PairCost(rs, i, j)
  }

  /** Exchanges the residents at the two positions of `pair` exactly when
      that strictly lowers their combined score, and reports whether it did. */
  method SwapResidentsIfBetter(residents: array<Resident>, pair: (nat, nat)) returns (swapped: bool)
    requires SwapScorable(residents[..], pair.0, pair.1)
    modifies residents
    ensures swapped == SwapImproves(old(residents[..]), pair.0, pair.1)
    ensures residents[..] == if swapped then Swapped(old(residents[..]), pair.0, pair.1)
                             else old(residents[..])
  {
    var r1Old := Score(residents[pair.0], pair.0);
    var r2Old := Score(residents[pair.1], pair.1);
    var oldScore := r1Old + r2Old;
    var r1New := Score(residents[pair.1], pair.0);
    var r2New := Score(residents[pair.0], pair.1);
    var newScore := r1New + r2New;
    if newScore < oldScore {
      residents[pair.0], residents[pair.1] := residents[pair.1], residents[pair.0];
      return true;
    }
    return false;
  }

  // ---------------------------------------------------------------------------
  // Objective
  // ---------------------------------------------------------------------------

  /** Every rank list names every track 1..N, where N is the number of
      residents, and N fits the source's 32-bit track numbers. */
  predicate Complete(rs: seq<Resident>)
  {
    |rs| <= I32_MAX &&
    forall p, t :: 0 <= p < |rs| && 1 <= t <= |rs| ==> t in rs[p].rankList
  }

  /** On complete rank lists every lookup of the swap step succeeds. */
  lemma CompleteScorable(rs: seq<Resident>, i: nat, j: nat)
    requires Complete(rs) && i < |rs| && j < |rs|
    ensures SwapScorable(rs, i, j)
  {
  }

  /** Exchanging two residents keeps every rank list complete. */
  lemma SwappedComplete(rs: seq<Resident>, i: nat, j: nat)
    requires Complete(rs) && i < |rs| && j < |rs|
    ensures Complete(Swapped(rs, i, j))
  {
  }

  /** The objective summed over the first n positions. */
  function ObjectivePrefix(rs: seq<Resident>, n: nat): nat
    requires Complete(rs) && n <= |rs|
  {
    if n == 0 then 0
    else
      assert n in rs[n - 1].rankList;
      ObjectivePrefix(rs, n - 1) + Score(rs[n - 1], n - 1)
  }

  /** The total objective: every resident's score at its own position. */
  function Objective(rs: seq<Resident>): nat
    requires Complete(rs)
  {
    ObjectivePrefix(rs, |rs|)
  }

  /** Two complete sequences that agree everywhere except at positions i
      and j have prefix sums differing only by the terms at i and j that the
      prefix contains. */
  lemma {:induction false} ObjectivePrefixDiffers(s: seq<Resident>, t: seq<Resident>, i: nat, j: nat, n: nat)
    requires Complete(s) && Complete(t) && |s| == |t|
    requires i < |s| && j < |s| && i != j && n <= |s|
    requires forall k :: 0 <= k < |s| && k != i && k != j ==> t[k] == s[k]
    ensures SwapScorable(s, i, j) && SwapScorable(t, i, j)
    ensures ObjectivePrefix(t, n) ==
            ObjectivePrefix(s, n)
            + (if i < n then Score(t[i], i) - Score(s[i], i) else 0)
            + (if j < n then Score(t[j], j) - Score(s[j], j) else 0)
  {
    CompleteScorable(s, i, j);
    CompleteScorable(t, i, j);
    if n > 0 {
      ObjectivePrefixDiffers(s, t, i, j, n - 1);
      var m := n - 1;
      if m != i && m != j {
        assert t[m] == s[m];
      }
    }
  }

  /** The objective moves by exactly the change in the pair's combined cost;
      in particular an accepted swap strictly lowers it, since every other
      position keeps its term. */
  lemma ObjectiveAfterSwap(rs: seq<Resident>, i: nat, j: nat)
    requires Complete(rs) && i < |rs| && j < |rs|
    ensures Complete(Swapped(rs, i, j)) && SwapScorable(rs, i, j)
    ensures Objective(Swapped(rs, i, j)) + PairCost(rs, i, j) ==
            Objective(rs) + SwappedPairCost(rs, i, j)
    ensures SwapImproves(rs, i, j) ==> Objective(Swapped(rs, i, j)) < Objective(rs)
  {
    SwappedComplete(rs, i, j);
    CompleteScorable(rs, i, j);
    if i == j {
      assert Swapped(rs, i, j) == rs;
    } else {
      ObjectivePrefixDiffers(rs, Swapped(rs, i, j), i, j, |rs|);
    }
  }

  // ---------------------------------------------------------------------------
  // The swap unit tests, stated for all inputs
  // ---------------------------------------------------------------------------

  /** Each of the two residents ranks first the track the other one holds:
      the exchange is accepted. */
  lemma CrossedFirstChoicesAreSwapped(rs: seq<Resident>, i: nat, j: nat)
    requires SwapScorable(rs, i, j) && i != j
    requires rs[i].rankList[0] == j + 1 && rs[j].rankList[0] == i + 1
    ensures SwapImproves(rs, i, j)
  {
  }

  /** Both residents already hold their first choice: the exchange is refused. */
  lemma HeldFirstChoicesAreKept(rs: seq<Resident>, i: nat, j: nat)
    requires SwapScorable(rs, i, j)
    requires rs[i].rankList[0] == i + 1 && rs[j].rankList[0] == j + 1
    ensures !SwapImproves(rs, i, j)
  {
  }

  /** Two residents with the same rank list tie before and after the
      exchange, so the swap is refused. */
  lemma TieIsNotSwapped(rs: seq<Resident>, i: nat, j: nat)
    requires SwapScorable(rs, i, j) && rs[i].rankList == rs[j].rankList
    ensures !SwapImproves(rs, i, j)
  {
  }
}
