/**
 * The end of a run (myBcast and displayResults): every worker's bestCost
 * is collected on rank 0, which picks the winner, broadcasts its rank, and
 * only the winner prints its tour. The message passing is modelled as a
 * sequence `costs` indexed by rank.
 */
module Reduction {
  import opened Tours

  datatype Option<T> = None | Some(value: T)

  /** r is a minimum of costs and no lower rank attains that minimum. */
  predicate IsLowestMin(costs: seq<int>, r: int)
  {
    && 0 <= r < |costs|
    && (forall k :: 0 <= k < |costs| ==> costs[r] <= costs[k])
    && (forall k :: 0 <= k < r ==> costs[r] < costs[k])
  }

  /** The lowest-indexed minimum is unique, so every rank agrees on one winner. */
  lemma LowestMinUnique(costs: seq<int>, r: int, s: int)
    requires IsLowestMin(costs, r) && IsLowestMin(costs, s)
    ensures r == s
  {
    assert costs[r] == costs[s];
  }

  /**
   * The receive loop on rank 0: start from its own cost and rank 0, scan
   * ranks 1 .. n-1 and switch only on a strictly lower cost.
   */
  method RootSelect(costs: seq<int>) returns (winner: nat)
    requires |costs| >= 1
    ensures IsLowestMin(costs, winner)
  {
    var best := costs[0];
    winner := 0;
    var i := 1;
    while i < |costs|
      invariant 1 <= i <= |costs|
      invariant winner < i && best == costs[winner]
      invariant forall k :: 0 <= k < i ==> best <= costs[k]
      invariant forall k :: 0 <= k < winner ==> best < costs[k]
    {
      var temp := costs[i];
      if temp < best {
        best := temp;
        winner := i;
      }
      i := i + 1;
    }
  }

  /** What the winner prints: its rank, its cost and the ids of its tour in order. */
  datatype Report = Report(rank: int, cost: int, ids: seq<int>)

  /** displayResults(root, rank): only the worker whose rank equals the winner reports. */
  function DisplayResults(me: int, winner: int, cost: int, tour: seq<City>): (r: Option<Report>)
    ensures r.Some? <==> me == winner
    ensures r.Some? ==> r.value.rank == me && r.value.cost == cost && |r.value.ids| == |tour|
    ensures r.Some? ==> forall k :: 0 <= k < |tour| ==> r.value.ids[k] == tour[k].id
  {
    if me == winner then Some(Report(me, cost, seq(|tour|, k requires 0 <= k < |tour| => tour[k].id)))
    else None
  }

  /**
   * myBcast over all ranks: rank 0 selects the winner from everyone's
   * cost, the broadcast gives every rank the same winner, and each rank
   * runs displayResults. Exactly one rank reports, with the lowest cost.
   */
  method MyBcast(costs: seq<int>, tours: seq<seq<City>>) returns (winner: nat, reports: seq<Option<Report>>)
    requires |costs| >= 1 && |tours| == |costs|
    ensures IsLowestMin(costs, winner)
    ensures |reports| == |costs|
    ensures forall r :: 0 <= r < |reports| ==> (reports[r].Some? <==> r == winner)
    ensures reports[winner].Some? && reports[winner].value.cost == costs[winner]
    ensures forall k :: 0 <= k < |costs| ==> reports[winner].value.cost <= costs[k]
    ensures |reports[winner].value.ids| == |tours[winner]|
    ensures forall k :: 0 <= k < |tours[winner]| ==> reports[winner].value.ids[k] == tours[winner][k].id
  {
    winner := RootSelect(costs);
    reports := [];
    var r := 0;
    while r < |costs|
      invariant 0 <= r <= |costs| && |reports| == r
      invariant forall q :: 0 <= q < r ==> reports[q] == DisplayResults(q, winner, costs[q], tours[q])
    {
      reports := reports + [DisplayResults(r, winner, costs[r], tours[r])];
      r := r + 1;
    }
  }
}
