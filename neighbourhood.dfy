/**
 * The order in which `genNewPaths` visits the segment-reversal pairs
 * (i, j): the outer loop runs i = 1 .. size-1, the inner loop
 * j = i .. size-1. The sequences below are built back to front so that
 * each loop step appends exactly one pair.
 */
module Neighbourhood {

  type Pair = (int, int)

  /** The pairs (i, i), (i, i+1), ..., (i, j-1) offered by the inner loop before it reaches j. */
  function RowUpTo(i: int, j: int): seq<Pair>
    decreases j - i
  {
    if j <= i then [] else RowUpTo(i, j - 1) + [(i, j - 1)]
  }

  /** All pairs offered by the outer loop before it reaches i, for tours of n cities. */
  function PairsBefore(i: int, n: int): seq<Pair>
  {
    if i <= 1 then [] else PairsBefore(i - 1, n) + RowUpTo(i - 1, n)
  }

  /** Every pair `genNewPaths` offers for a base tour of n cities, in loop order. */
  function Candidates(n: int): (r: seq<Pair>)
    ensures InRange(r, n)
  {
    if n < 1 then [] else PairsBeforeInRange(n, n); PairsBefore(n, n)
  }

  /** The outer loop of genNewPaths finishing row i. */
  lemma PairsBeforeNext(i: int, n: int)
    requires i >= 1
    ensures PairsBefore(i + 1, n) == PairsBefore(i, n) + RowUpTo(i, n)
  {
  }

  /** Lexicographic order on pairs. */
  predicate Before(p: Pair, q: Pair)
  {
    p.0 < q.0 || (p.0 == q.0 && p.1 < q.1)
  }

  lemma {:induction false} RowUpToSpec(i: int, j: int)
    requires i <= j
    ensures |RowUpTo(i, j)| == j - i
    ensures forall k :: 0 <= k < |RowUpTo(i, j)| ==> RowUpTo(i, j)[k] == (i, i + k)
    decreases j - i
  {
    if j > i {
      RowUpToSpec(i, j - 1);
    }
  }

  lemma CountStep(a: int, n: int)
    ensures (a - 1) * (2 * n - a) + 2 * (n - a) == a * (2 * n - (a + 1))
  {
  }

  lemma {:induction false} PairsBeforeCount(i: int, n: int)
    requires 1 <= i <= n
    ensures 2 * |PairsBefore(i, n)| == (i - 1) * (2 * n - i)
  {
    if i > 1 {
      PairsBeforeCount(i - 1, n);
      RowUpToSpec(i - 1, n);
      assert |PairsBefore(i, n)| == |PairsBefore(i - 1, n)| + (n - (i - 1));
      CountStep(i - 1, n);
    }
  }

  lemma RowUpToMembers(i: int, j: int)
    requires i <= j
    ensures forall p :: p in RowUpTo(i, j) <==> p.0 == i && i <= p.1 < j
  {
    RowUpToSpec(i, j);
    forall p: Pair | p.0 == i && i <= p.1 < j
      ensures p in RowUpTo(i, j)
    {
      assert RowUpTo(i, j)[p.1 - i] == p;
    }
  }

  /** The pairs before i are exactly those with 1 <= p.0 < i and p.0 <= p.1 < n. */
  lemma {:induction false} PairsBeforeMembers(i: int, n: int)
    requires 1 <= i <= n
    ensures forall p :: p in PairsBefore(i, n) <==> 1 <= p.0 < i && p.0 <= p.1 < n
  {
    if i > 1 {
      PairsBeforeMembers(i - 1, n);
      RowUpToMembers(i - 1, n);
    }
  }

  /** The pairs before i come in strictly increasing lexicographic order. */
  lemma {:induction false} PairsBeforeSorted(i: int, n: int)
    requires 1 <= i <= n
    ensures forall a, b :: 0 <= a < b < |PairsBefore(i, n)| ==> Before(PairsBefore(i, n)[a], PairsBefore(i, n)[b])
  {
    if i > 1 {
      PairsBeforeSorted(i - 1, n);
      PairsBeforeMembers(i - 1, n);
      RowUpToSpec(i - 1, n);
      var prev, row := PairsBefore(i - 1, n), RowUpTo(i - 1, n);
      var all := prev + row;
      assert PairsBefore(i, n) == all;
      forall a, b | 0 <= a < b < |all|
        ensures Before(all[a], all[b])
      {
        if a < |prev| {
          assert all[a] == prev[a] && prev[a] in prev;
        }
      }
    }
  }

  /**
   * genNewPaths offers n(n-1)/2 candidates, one for each pair with
   * 1 <= i <= j <= n-1 and no pair twice (they come in strictly increasing
   * lexicographic order).
   */
  lemma CandidatesSpec(n: int)
    requires n >= 1
    ensures Candidates(n) == PairsBefore(n, n)
    ensures |Candidates(n)| == n * (n - 1) / 2
    ensures forall p :: p in Candidates(n) <==> 1 <= p.0 <= p.1 <= n - 1
    ensures forall a, b :: 0 <= a < b < |Candidates(n)| ==> Before(Candidates(n)[a], Candidates(n)[b])
    ensures forall a, b :: 0 <= a < b < |Candidates(n)| ==> Candidates(n)[a] != Candidates(n)[b]
  {
    var c := Candidates(n);
    assert c == PairsBefore(n, n);
    PairsBeforeCount(n, n);
    PairsBeforeMembers(n, n);
    PairsBeforeSorted(n, n);
    forall a, b | 0 <= a < b < |c|
      ensures c[a] != c[b]
    {
      assert Before(c[a], c[b]);
    }
  }

  /** Every pair names a block [i, j] inside a tour of n cities. */
  predicate InRange(ps: seq<Pair>, n: int)
  {
    forall k :: 0 <= k < |ps| ==> 0 <= ps[k].0 <= ps[k].1 < n
  }

  lemma PairsBeforeInRange(i: int, n: int)
    requires 1 <= i <= n
    ensures InRange(PairsBefore(i, n), n)
  {
    PairsBeforeMembers(i, n);
    forall k | 0 <= k < |PairsBefore(i, n)|
      ensures 0 <= PairsBefore(i, n)[k].0 <= PairsBefore(i, n)[k].1 < n
    {
      assert PairsBefore(i, n)[k] in PairsBefore(i, n);
    }
  }

  /**
   * The positions `copyForward(i, j)` writes as written, in order:
   * `size - j` elements starting at index j + 1.
   */
  function CopyForwardWrites(j: int, size: int): (r: seq<int>)
    requires j <= size
    ensures |r| == size - j
  {
    seq(size - j, k => j + 1 + k)
  }

  /**
   * For every j the source passes, the last position written is `size`,
   * one past the end of both buffers.
   */
  lemma CopyForwardOverruns(j: int, size: int)
    requires 1 <= j < size
    ensures CopyForwardWrites(j, size)[size - j - 1] == size
  {
  }
}
