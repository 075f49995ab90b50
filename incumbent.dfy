/**
 * The incumbent (`bestCost`, `bestPath`) and the update rule at the end of
 * `calculate_total_cost`. The rule is modelled as written: a cost of 0
 * means "no incumbent yet", so the first offer always replaces it, and so
 * does any offer made while a zero-cost tour is held.
 */
module Incumbents {
  import opened Tours
  import opened Neighbourhood

  /** bestCost and the contents of bestPath. */
  datatype Incumbent = Incumbent(cost: int, tour: seq<City>)

  /**
   * Replace the incumbent iff its cost is the sentinel 0 or the new cost is
   * strictly lower: the sentinel always gives way, a set incumbent keeps the
   * lower of the two costs, and a tie keeps the older tour.
   */
  function Offer(inc: Incumbent, cost: int, tour: seq<City>): (r: Incumbent)
    ensures r == inc || r == Incumbent(cost, tour)
    ensures inc.cost == 0 ==> r == Incumbent(cost, tour)
    ensures inc.cost != 0 ==> r.cost <= inc.cost && r.cost <= cost
    ensures inc.cost != 0 && inc.cost <= cost ==> r == inc
  {
    if inc.cost == 0 || cost < inc.cost then Incumbent(cost, tour) else inc
  }

  /** calculate_total_cost(tour): evaluate the tour and offer it. */
  function OfferTour(dist: Distance, inc: Incumbent, tour: seq<City>): (r: Incumbent)
    requires |tour| >= 1
    ensures r == inc || r == Incumbent(TourCost(dist, tour), tour)
    ensures inc.cost != 0 ==> r.cost <= inc.cost && r.cost <= TourCost(dist, tour)
  {
    Offer(inc, TourCost(dist, tour), tour)
  }

  /** The candidate for pair p: the base tour with block [p.0, p.1] reversed, with its cost. */
  function Candidate(dist: Distance, base: seq<City>, p: Pair): (c: Incumbent)
    requires 0 <= p.0 <= p.1 < |base|
    ensures |c.tour| == |base| && multiset(c.tour) == multiset(base)
    ensures c.cost == TourCost(dist, c.tour)
    ensures p.0 >= 1 ==> c.tour[0] == base[0]
  {
    ReverseBlockPermutes(base, p.0, p.1);
    var t := ReverseBlock(base, p.0, p.1);
    Incumbent(TourCost(dist, t), t)
  }

  /** The candidates of the pairs in ps, in the same order. */
  function Neighbours(dist: Distance, base: seq<City>, ps: seq<Pair>): (r: seq<Incumbent>)
    requires InRange(ps, |base|)
    ensures |r| == |ps|
  {
    seq(|ps|, k requires 0 <= k < |ps| => Candidate(dist, base, ps[k]))
  }

  /** Offer each of the offers in order (one call of calculate_total_cost each). */
  function OfferEach(inc: Incumbent, offers: seq<Incumbent>): (r: Incumbent)
    ensures r == inc || r in offers
  {
    if |offers| == 0 then inc
    else
      var o := offers[|offers| - 1];
      Offer(OfferEach(inc, offers[..|offers| - 1]), o.cost, o.tour)
  }

  /** Proof step: offering the first n+1 offers is offering the first n, then offer n. */
  lemma OfferEachStep(inc: Incumbent, offers: seq<Incumbent>, n: int)
    requires 0 <= n < |offers|
    ensures OfferEach(inc, offers[..n + 1]) == Offer(OfferEach(inc, offers[..n]), offers[n].cost, offers[n].tour)
  {
    assert offers[..n + 1][..n] == offers[..n];
  }

  /** Offering two batches in turn is offering their concatenation. */
  lemma {:induction false} OfferEachAppend(inc: Incumbent, a: seq<Incumbent>, b: seq<Incumbent>)
    ensures OfferEach(inc, a + b) == OfferEach(OfferEach(inc, a), b)
  {
    if |b| > 0 {
      var init := b[..|b| - 1];
      OfferEachAppend(inc, a, init);
      assert (a + b)[..|a + b| - 1] == a + init;
    } else {
      assert a + b == a;
    }
  }

  /**
   * The candidates of row i, (i, i) .. (i, |base|-1), in the inner loop's
   * order. This is Neighbours(dist, base, RowUpTo(i, |base|)) written as a
   * direct comprehension, which keeps the loop proofs cheap;
   * RowIsNeighbours proves the two equal.
   */
  function Row(dist: Distance, base: seq<City>, i: int): (r: seq<Incumbent>)
    requires 0 <= i <= |base|
    ensures |r| == |base| - i
  {
    seq(|base| - i, k requires 0 <= k < |base| - i => Candidate(dist, base, (i, i + k)))
  }

  /** The outer loop of genNewPaths as a fold: rows 1 .. i-1 offered in turn. */
  function Scan(dist: Distance, inc: Incumbent, base: seq<City>, i: int): Incumbent
    requires 1 <= i <= |base|
  {
    if i == 1 then inc else OfferEach(Scan(dist, inc, base, i - 1), Row(dist, base, i - 1))
  }

  /** Row i holds the candidates of the pairs the inner loop enumerates for i. */
  lemma RowIsNeighbours(dist: Distance, base: seq<City>, i: int)
    requires 0 <= i < |base|
    ensures InRange(RowUpTo(i, |base|), |base|)
    ensures Row(dist, base, i) == Neighbours(dist, base, RowUpTo(i, |base|))
  {
    RowUpToSpec(i, |base|);
  }

  lemma NeighboursAppend(dist: Distance, base: seq<City>, ps: seq<Pair>, qs: seq<Pair>)
    requires InRange(ps, |base|) && InRange(qs, |base|)
    ensures InRange(ps + qs, |base|)
    ensures Neighbours(dist, base, ps + qs) == Neighbours(dist, base, ps) + Neighbours(dist, base, qs)
  {
    var all, a, b := Neighbours(dist, base, ps + qs), Neighbours(dist, base, ps), Neighbours(dist, base, qs);
    forall k | 0 <= k < |ps + qs|
      ensures all[k] == (a + b)[k]
    {
      if k < |ps| {
        assert (ps + qs)[k] == ps[k];
      } else {
        assert (ps + qs)[k] == qs[k - |ps|];
      }
    }
  }

  /** The outer loop has offered, in order, the candidates of all pairs of rows 1 .. i-1. */
  lemma {:induction false} ScanOffersPairs(dist: Distance, inc: Incumbent, base: seq<City>, i: int)
    requires 1 <= i <= |base|
    ensures InRange(PairsBefore(i, |base|), |base|)
    ensures Scan(dist, inc, base, i) == OfferEach(inc, Neighbours(dist, base, PairsBefore(i, |base|)))
  {
    PairsBeforeInRange(i, |base|);
    if i > 1 {
      var done, row := PairsBefore(i - 1, |base|), RowUpTo(i - 1, |base|);
      ScanOffersPairs(dist, inc, base, i - 1);
      RowIsNeighbours(dist, base, i - 1);
      NeighboursAppend(dist, base, done, row);
      OfferEachAppend(inc, Neighbours(dist, base, done), Neighbours(dist, base, row));
      PairsBeforeNext(i - 1, |base|);
    }
  }

  /**
   * genNewPaths offers the candidate of every enumerated pair, in
   * enumeration order, one call of calculate_total_cost each.
   */
  lemma ScanOffersCandidates(dist: Distance, inc: Incumbent, base: seq<City>)
    requires |base| >= 1
    ensures Scan(dist, inc, base, |base|) == OfferEach(inc, Neighbours(dist, base, Candidates(|base|)))
  {
    ScanOffersPairs(dist, inc, base, |base|);
  }

  /** The incumbent holds a permutation of the catalogue and its true cost. */
  ghost predicate Sound(dist: Distance, catalogue: seq<City>, inc: Incumbent)
  {
    |inc.tour| >= 1 && multiset(inc.tour) == multiset(catalogue) && inc.cost == TourCost(dist, inc.tour)
  }

  /**
   * Offering a permutation of the catalogue leaves a sound incumbent, even
   * when the incumbent before was the unset sentinel.
   */
  lemma OfferTourSound(dist: Distance, catalogue: seq<City>, inc: Incumbent, tour: seq<City>)
    requires |tour| >= 1 && multiset(tour) == multiset(catalogue)
    requires inc.cost != 0 ==> Sound(dist, catalogue, inc)
    ensures Sound(dist, catalogue, OfferTour(dist, inc, tour))
  {
  }

  /** Every segment-reversal candidate of a permutation of the catalogue is sound. */
  lemma NeighboursSound(dist: Distance, catalogue: seq<City>, base: seq<City>, ps: seq<Pair>)
    requires InRange(ps, |base|) && multiset(base) == multiset(catalogue)
    ensures forall k :: 0 <= k < |ps| ==> Sound(dist, catalogue, Neighbours(dist, base, ps)[k])
  {
    forall k | 0 <= k < |ps|
      ensures Sound(dist, catalogue, Neighbours(dist, base, ps)[k])
    {
      ReverseBlockPermutes(base, ps[k].0, ps[k].1);
    }
  }

  /** Offering sound tours to a sound incumbent leaves it sound. */
  lemma {:induction false} OfferEachSound(dist: Distance, catalogue: seq<City>, inc: Incumbent, offers: seq<Incumbent>)
    requires Sound(dist, catalogue, inc)
    requires forall k :: 0 <= k < |offers| ==> Sound(dist, catalogue, offers[k])
    ensures Sound(dist, catalogue, OfferEach(inc, offers))
  {
    if |offers| > 0 {
      OfferEachSound(dist, catalogue, inc, offers[..|offers| - 1]);
    }
  }

  /** genNewPaths keeps a sound incumbent sound: every candidate is a permutation of the base tour. */
  lemma ScanSound(dist: Distance, catalogue: seq<City>, inc: Incumbent, base: seq<City>, ps: seq<Pair>)
    requires InRange(ps, |base|) && multiset(base) == multiset(catalogue)
    requires Sound(dist, catalogue, inc)
    ensures Sound(dist, catalogue, OfferEach(inc, Neighbours(dist, base, ps)))
  {
    NeighboursSound(dist, catalogue, base, ps);
    OfferEachSound(dist, catalogue, inc, Neighbours(dist, base, ps));
  }

  /**
   * When every offer has a non-zero cost, the incumbent afterwards is the
   * old incumbent or one of the offers, no offer is cheaper, and it is no
   * dearer than the old incumbent unless that was the sentinel: it holds
   * the minimum.
   */
  lemma {:induction false} OfferEachKeepsMinimum(inc: Incumbent, offers: seq<Incumbent>)
    requires forall k :: 0 <= k < |offers| ==> offers[k].cost != 0
    ensures var r := OfferEach(inc, offers);
      && (forall k :: 0 <= k < |offers| ==> r.cost <= offers[k].cost)
      && (inc.cost != 0 ==> r.cost <= inc.cost)
      && ((|offers| > 0 || inc.cost != 0) ==> r.cost != 0)
      && (r == inc || r in offers)
  {
    if |offers| > 0 {
      var init := offers[..|offers| - 1];
      OfferEachKeepsMinimum(inc, init);
      assert offers == init + [offers[|offers| - 1]];
    }
  }

  /** Every enumerated pair reverses a block that leaves position 0 in place. */
  lemma PairAt(n: int, k: int)
    requires n >= 1 && 0 <= k < |Candidates(n)|
    ensures 1 <= Candidates(n)[k].0 <= Candidates(n)[k].1 < n
  {
    CandidatesSpec(n);
    assert Candidates(n)[k] in Candidates(n);
  }

  /** Where the loops of genNewPaths reach the pair (i, j). */
  lemma PairIndex(n: int, i: int, j: int) returns (k: int)
    requires 1 <= i <= j < n
    ensures 0 <= k < |Candidates(n)| && Candidates(n)[k] == (i, j)
  {
    CandidatesSpec(n);
    assert (i, j) in Candidates(n);
    k :| 0 <= k < |Candidates(n)| && Candidates(n)[k] == (i, j);
  }

  /**
   * When no candidate costs 0, genNewPaths leaves the cheapest of the old
   * incumbent (if set) and all segment reversals of the base tour, and
   * what it leaves is the old incumbent or one of those reversals.
   */
  lemma ScanKeepsMinimum(dist: Distance, inc: Incumbent, base: seq<City>)
    requires |base| >= 2
    requires forall i, j :: 1 <= i <= j < |base| ==> TourCost(dist, ReverseBlock(base, i, j)) != 0
    ensures var r := Scan(dist, inc, base, |base|);
      && (forall i, j :: 1 <= i <= j < |base| ==> r.cost <= TourCost(dist, ReverseBlock(base, i, j)))
      && (inc.cost != 0 ==> r.cost <= inc.cost)
      && r.cost != 0
      && (r == inc || exists i, j :: 1 <= i <= j < |base| && r == Candidate(dist, base, (i, j)))
  {
    var n := |base|;
    var ps := Candidates(n);
    var offers := Neighbours(dist, base, ps);
    ScanOffersCandidates(dist, inc, base);
    assert |ps| > 0 by {
      var k := PairIndex(n, 1, 1);
    }
    forall k | 0 <= k < |offers|
      ensures offers[k].cost != 0
    {
      PairAt(n, k);
    }
    OfferEachKeepsMinimum(inc, offers);
    var r := OfferEach(inc, offers);
    forall i, j | 1 <= i <= j < n
      ensures r.cost <= TourCost(dist, ReverseBlock(base, i, j))
    {
      var k := PairIndex(n, i, j);
      assert offers[k] == Candidate(dist, base, (i, j));
    }
    if r != inc {
      var k :| 0 <= k < |offers| && offers[k] == r;
      PairAt(n, k);
      assert r == Candidate(dist, base, (ps[k].0, ps[k].1));
    }
  }

  /** Once the incumbent is set (non-zero) and the offered cost is non-zero, the cost never rises. */
  lemma OfferNeverRaises(inc: Incumbent, cost: int, tour: seq<City>)
    requires inc.cost != 0 && cost != 0
    ensures Offer(inc, cost, tour).cost != 0
    ensures Offer(inc, cost, tour).cost <= inc.cost
  {
  }

  /**
   * A zero-cost tour (possible once every edge truncates to 0) is taken
   * for the unset sentinel: whatever is offered next replaces it.
   */
  lemma ZeroCostKeepsSentinel(inc: Incumbent, zero: seq<City>, cost: int, tour: seq<City>)
    requires inc.cost >= 0
    ensures Offer(inc, 0, zero) == Incumbent(0, zero)
    ensures Offer(Offer(inc, 0, zero), cost, tour) == Incumbent(cost, tour)
  {
  }

  /** The sentinel lets the incumbent's cost rise: 5, then a zero-cost tour, then 7 leaves 7. */
  lemma SentinelLetsCostRise(t0: seq<City>, t1: seq<City>, t2: seq<City>)
    ensures Offer(Offer(Incumbent(5, t0), 0, t1), 7, t2) == Incumbent(7, t2)
  {
  }
}
