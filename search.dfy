/**
 * One worker's search state and the in-place operations of DataCost/tsp.c:
 * genRandomPath, calculate_total_cost, copyBackwards, copyForward,
 * genNewPaths and tsp_start. The source's globals (cities, randPath,
 * currentPath, bestPath, size, bestCost) are the fields of a Worker.
 */
module Search {
  import opened Tours
  import opened Neighbourhood
  import opened Incumbents

  /** The cities whose `visited` flag is clear. */
  function Unplaced(cs: seq<City>): multiset<City>
  {
    if |cs| == 0 then multiset{}
    else Unplaced(cs[..|cs| - 1]) + (if cs[|cs| - 1].visited then multiset{} else multiset{cs[|cs| - 1]})
  }

  /** Marking an unvisited city as visited takes exactly that city out of the unplaced ones. */
  lemma {:induction false} MarkPlaced(cs: seq<City>, r: int)
    requires 0 <= r < |cs| && !cs[r].visited
    ensures Unplaced(cs) == Unplaced(cs[r := cs[r].(visited := true)]) + multiset{cs[r]}
  {
    var n := |cs|;
    var c := cs[r];
    var cs' := cs[r := c.(visited := true)];
    var init, init' := cs[..n - 1], cs'[..n - 1];
    if r < n - 1 {
      assert init' == init[r := c.(visited := true)];
      MarkPlaced(init, r);
    } else {
      assert init' == init;
    }
  }

  lemma {:induction false} NonePlaced(cs: seq<City>)
    requires forall k :: 0 <= k < |cs| ==> !cs[k].visited
    ensures Unplaced(cs) == multiset(cs)
  {
    if |cs| > 0 {
      NonePlaced(cs[..|cs| - 1]);
      assert cs == cs[..|cs| - 1] + [cs[|cs| - 1]];
    }
  }

  lemma {:induction false} AllVisited(cs: seq<City>)
    requires forall k :: 0 <= k < |cs| ==> cs[k].visited
    ensures Unplaced(cs) == multiset{}
  {
    if |cs| > 0 {
      AllVisited(cs[..|cs| - 1]);
    }
  }

  /** A city whose flag is clear is among the unplaced ones. */
  lemma {:induction false} UnplacedHas(cs: seq<City>, k: int)
    requires 0 <= k < |cs|
    ensures !cs[k].visited ==> cs[k] in Unplaced(cs)
  {
    if k < |cs| - 1 {
      UnplacedHas(cs[..|cs| - 1], k);
    }
  }

  /** The city indices `rand() % n` yields for the draws. */
  function Drawn(draws: seq<nat>, n: nat): set<int>
    requires n > 0
  {
    set k | 0 <= k < |draws| :: draws[k] % n
  }

  /**
   * The random source eventually yields every index: the condition under
   * which the rejection-sampling loop of genRandomPath ends.
   */
  ghost predicate Covers(draws: seq<nat>, n: nat)
  {
    n > 0 && forall r :: 0 <= r < n ==> r in Drawn(draws, n)
  }

  /**
   * The distinct indices `rand() % n` yields in the first d draws, in the
   * order they are first drawn: the order in which genRandomPath places
   * cities.
   */
  function FirstDraws(draws: seq<nat>, d: int, n: nat): (r: seq<int>)
    requires n > 0 && 0 <= d <= |draws|
    ensures forall k :: 0 <= k < |r| ==> 0 <= r[k] < n
  {
    if d == 0 then []
    else
      var p, x := FirstDraws(draws, d - 1, n), draws[d - 1] % n;
      if x in p then p else p + [x]
  }

  /** The first-draw order lists every index drawn in the first d draws, exactly once. */
  lemma {:induction false} FirstDrawsSpec(draws: seq<nat>, d: int, n: nat)
    requires n > 0 && 0 <= d <= |draws|
    ensures forall a, b :: 0 <= a < b < |FirstDraws(draws, d, n)| ==> FirstDraws(draws, d, n)[a] != FirstDraws(draws, d, n)[b]
    ensures forall x :: x in FirstDraws(draws, d, n) <==> exists k :: 0 <= k < d && draws[k] % n == x
  {
    if d > 0 {
      FirstDrawsSpec(draws, d - 1, n);
    }
  }

  /** Once every index has been drawn, further draws place nothing new. */
  lemma {:induction false} FirstDrawsSaturated(draws: seq<nat>, d: int, e: int, n: nat)
    requires n > 0 && 0 <= d <= e <= |draws|
    requires forall x :: 0 <= x < n ==> x in FirstDraws(draws, d, n)
    ensures FirstDraws(draws, e, n) == FirstDraws(draws, d, n)
    decreases e
  {
    if e > d {
      FirstDrawsSaturated(draws, d, e - 1, n);
    }
  }

  /** The progress of the sampling loop: the cities with their flags, and the tour built so far. */
  datatype Progress = Progress(cs: seq<City>, placed: seq<City>)

  /**
   * One draw of the sampling loop of genRandomPath at index r: a city
   * that is not yet visited is appended to the tour and marked; a
   * visited one is skipped.
   */
  function Step(p: Progress, r: int): (q: Progress)
    requires 0 <= r < |p.cs|
    ensures |q.cs| == |p.cs|
  {
    if p.cs[r].visited then p
    else Progress(p.cs[r := p.cs[r].(visited := true)], p.placed + [p.cs[r]])
  }

  /** The sampling loop as a value: where the first d draws leave the cities and the tour. */
  function Sample(catalogue: seq<City>, draws: seq<nat>, d: int): (p: Progress)
    requires |catalogue| > 0 && 0 <= d <= |draws|
    ensures |p.cs| == |catalogue|
  {
    if d == 0 then Progress(catalogue, [])
    else Step(Sample(catalogue, draws, d - 1), draws[d - 1] % |catalogue|)
  }

  /** Sampling only ever sets flags: every city keeps its identity and position. */
  lemma {:induction false} SampleKeeps(catalogue: seq<City>, draws: seq<nat>, d: int)
    requires |catalogue| > 0 && 0 <= d <= |draws|
    ensures forall k :: 0 <= k < |catalogue| ==>
      Sample(catalogue, draws, d).cs[k] == catalogue[k].(visited := Sample(catalogue, draws, d).cs[k].visited)
  {
    if d > 0 {
      SampleKeeps(catalogue, draws, d - 1);
    }
  }

  /**
   * Nothing is lost or duplicated: the tour and the unvisited cities
   * together are the catalogue.
   */
  ghost predicate Accounted(catalogue: seq<City>, p: Progress)
  {
    multiset(p.placed) + Unplaced(p.cs) == multiset(catalogue)
  }

  /** Every number of draws keeps every catalogue city accounted for. */
  lemma {:induction false} SampleCounts(catalogue: seq<City>, draws: seq<nat>, d: int)
    requires |catalogue| > 0 && 0 <= d <= |draws|
    requires forall k :: 0 <= k < |catalogue| ==> !catalogue[k].visited
    ensures Accounted(catalogue, Sample(catalogue, draws, d))
  {
    if d == 0 {
      NonePlaced(catalogue);
    } else {
      SampleCounts(catalogue, draws, d - 1);
      StepCounts(catalogue, Sample(catalogue, draws, d - 1), draws[d - 1] % |catalogue|);
    }
  }

  /** A draw moves a city from the unvisited ones to the tour, or changes nothing. */
  lemma StepCounts(catalogue: seq<City>, p: Progress, r: int)
    requires 0 <= r < |p.cs| && Accounted(catalogue, p)
    ensures Accounted(catalogue, Step(p, r))
  {
    if !p.cs[r].visited {
      MarkPlaced(p.cs, r);
    }
  }

  /**
   * The tour after d draws is the catalogue picked in first-draw order,
   * and exactly the indices drawn so far are marked.
   */
  /** tempSize counts the cities still to be placed: the catalogue size less those in randPath. */
  lemma SampleRemaining(catalogue: seq<City>, draws: seq<nat>, d: int)
    requires |catalogue| > 0 && 0 <= d <= |draws|
    requires forall k :: 0 <= k < |catalogue| ==> !catalogue[k].visited
    ensures |Unplaced(Sample(catalogue, draws, d).cs)| == |catalogue| - |Sample(catalogue, draws, d).placed|
  {
    var p := Sample(catalogue, draws, d);
    SampleCounts(catalogue, draws, d);
    assert |multiset(p.placed) + Unplaced(p.cs)| == |multiset(catalogue)|;
  }

  lemma {:induction false} SampleOrder(catalogue: seq<City>, draws: seq<nat>, d: int)
    requires |catalogue| > 0 && 0 <= d <= |draws|
    requires forall k :: 0 <= k < |catalogue| ==> !catalogue[k].visited
    ensures var p, order := Sample(catalogue, draws, d), FirstDraws(draws, d, |catalogue|);
      && |p.placed| == |order|
      && (forall k :: 0 <= k < |order| ==> p.placed[k] == catalogue[order[k]])
      && (forall k :: 0 <= k < |catalogue| ==> (p.cs[k].visited <==> k in order))
  {
    if d > 0 {
      SampleOrder(catalogue, draws, d - 1);
      SampleKeeps(catalogue, draws, d - 1);
      var p, r := Sample(catalogue, draws, d - 1), draws[d - 1] % |catalogue|;
      if !p.cs[r].visited {
        assert p.cs[r] == catalogue[r];
      }
    }
  }

  /** A covering random source has placed every city once all its draws are used. */
  lemma SampleEnds(catalogue: seq<City>, draws: seq<nat>)
    requires |catalogue| > 0 && Covers(draws, |catalogue|)
    requires forall k :: 0 <= k < |catalogue| ==> !catalogue[k].visited
    ensures |Sample(catalogue, draws, |draws|).placed| == |catalogue|
  {
    var p, n := Sample(catalogue, draws, |draws|), |catalogue|;
    var order := FirstDraws(draws, |draws|, n);
    assert forall k :: 0 <= k < n ==> k in order by {
      FirstDrawsSpec(draws, |draws|, n);
      forall k | 0 <= k < n
        ensures k in order
      {
        assert k in Drawn(draws, n);
      }
    }
    assert forall k :: 0 <= k < n ==> p.cs[k].visited by {
      SampleOrder(catalogue, draws, |draws|);
    }
    assert multiset(p.placed) == multiset(catalogue) by {
      AllVisited(p.cs);
      SampleCounts(catalogue, draws, |draws|);
    }
    assert |multiset(p.placed)| == |multiset(catalogue)|;
  }

  /**
   * Once every city is placed, the tour is the catalogue in the order
   * of the first draws over all the draws, hence a permutation of it,
   * and every city is marked.
   */
  lemma SampleDone(catalogue: seq<City>, draws: seq<nat>, d: int)
    requires |catalogue| > 0 && 0 <= d <= |draws|
    requires forall k :: 0 <= k < |catalogue| ==> !catalogue[k].visited
    requires |Sample(catalogue, draws, d).placed| == |catalogue|
    ensures var p, n := Sample(catalogue, draws, d), |catalogue|;
      && multiset(p.placed) == multiset(catalogue)
      && (forall k :: 0 <= k < n ==> p.cs[k] == catalogue[k].(visited := true))
      && |FirstDraws(draws, |draws|, n)| == n
      && (forall k :: 0 <= k < n ==> p.placed[k] == catalogue[FirstDraws(draws, |draws|, n)[k]])
  {
    var p, n := Sample(catalogue, draws, d), |catalogue|;
    var order := FirstDraws(draws, d, n);
    assert multiset(p.placed) == multiset(catalogue) && Unplaced(p.cs) == multiset{} by {
      SampleCounts(catalogue, draws, d);
    }
    assert forall k :: 0 <= k < n ==> p.cs[k].visited by {
      forall k | 0 <= k < n
        ensures p.cs[k].visited
      {
        UnplacedHas(p.cs, k);
      }
    }
    assert forall k :: 0 <= k < n ==> p.cs[k] == catalogue[k].(visited := true) by {
      SampleKeeps(catalogue, draws, d);
    }
    assert && |p.placed| == |order|
           && (forall k :: 0 <= k < |order| ==> p.placed[k] == catalogue[order[k]])
           && (forall x :: 0 <= x < n ==> x in order) by {
      SampleOrder(catalogue, draws, d);
    }
    FirstDrawsSaturated(draws, d, |draws|, n);
  }

  /** What the three copies of one genNewPaths iteration leave in currentPath is the candidate. */
  lemma IsCandidate(base: seq<City>, cur: seq<City>, i: int, j: int)
    requires 0 <= i <= j < |base| == |cur|
    requires forall x :: i <= x <= j ==> cur[x] == base[i + j - x]
    requires forall x :: 0 <= x < |cur| && !(i <= x <= j) ==> cur[x] == base[x]
    ensures cur == ReverseBlock(base, i, j)
  {
    forall x | 0 <= x < |cur|
      ensures cur[x] == ReverseBlock(base, i, j)[x]
    {
      ReverseBlockAt(base, i, j, x);
    }
  }

  class Worker {
    /** The edge length `getCost` stands for. */
    const dist: Distance
    /** Number of cities. */
    const size: nat
    /** The catalogue, with the `visited` flags genRandomPath uses. */
    const cities: array<City>
    /** The random base tour. */
    const randPath: array<City>
    /** The candidate under construction. */
    const currentPath: array<City>
    /** The incumbent tour. */
    const bestPath: array<City>
    /** The incumbent cost; 0 means unset. */
    var bestCost: int

    /** Buffer sizes and the absence of aliasing between the four buffers. */
    ghost predicate Shape()
    {
      && size >= 2
      && cities.Length == size && randPath.Length == size
      && currentPath.Length == size && bestPath.Length == size
      && cities != randPath && cities != currentPath && cities != bestPath
      && randPath != currentPath && randPath != bestPath && currentPath != bestPath
    }

    /** The incumbent as a value. */
    ghost function Best(): Incumbent
      reads this, bestPath
    {
      Incumbent(bestCost, bestPath[..])
    }

    /**
     * Between operations: every `visited` flag is clear, and a set
     * incumbent is a permutation of the catalogue carrying its own cost.
     */
    ghost predicate Valid()
      reads this, cities, bestPath
    {
      && Shape()
      && NonNegative(dist)
      && (forall k :: 0 <= k < size ==> !cities[k].visited)
      && (bestCost != 0 ==> Sound(dist, cities[..], Best()))
    }

    /** The state after `parse` and `bestCost=0` in main: the catalogue loaded, no incumbent. */
    constructor (dist: Distance, catalogue: seq<City>)
      requires |catalogue| >= 2 && NonNegative(dist)
      requires forall k :: 0 <= k < |catalogue| ==> !catalogue[k].visited
      ensures Valid() && this.dist == dist && size == |catalogue|
      ensures cities[..] == catalogue && bestCost == 0
      ensures fresh(cities) && fresh(randPath) && fresh(currentPath) && fresh(bestPath)
    {
      this.dist := dist;
      size := |catalogue|;
      cities := new City[|catalogue|](k requires 0 <= k < |catalogue| => catalogue[k]);
      randPath := new City[|catalogue|];
      currentPath := new City[|catalogue|];
      bestPath := new City[|catalogue|];
      bestCost := 0;
    }

    /** The cost loop of calculate_total_cost, with its truncating `int` accumulator. */
    method TotalCost(loc: array<City>) returns (total: int)
      requires loc.Length == size && size >= 1 && NonNegative(dist)
      ensures total == TourCost(dist, loc[..])
      ensures total >= 0
    {
      total := 0;
      var index := 1;
      while index < size
        invariant 1 <= index <= size
        invariant total == PathCost(dist, loc[..index]) && total >= 0
      {
        var a, b := loc[index - 1], loc[index];
        TruncShift(total, GetCost(dist, a, b));
        total := Trunc(total as real + GetCost(dist, a, b));
        assert loc[..index + 1][..index] == loc[..index];
        index := index + 1;
      }
      TruncShift(total, GetCost(dist, loc[index - 1], loc[0]));
      total := Trunc(total as real + GetCost(dist, loc[index - 1], loc[0]));
      assert loc[..] == loc[..size];
    }

    /** calculate_total_cost: evaluate a tour and offer it to the incumbent. */
    method CalculateTotalCost(loc: array<City>)
      requires Shape() && NonNegative(dist)
      requires loc.Length == size && loc != bestPath
      modifies this`bestCost, bestPath
      ensures Best() == OfferTour(dist, old(Best()), loc[..])
    {
      var total := TotalCost(loc);
      ghost var offered := OfferTour(dist, Best(), loc[..]);
      if bestCost == 0 {
        assert offered == Incumbent(total, loc[..]);
        bestCost := total;
        forall k | 0 <= k < size {
          bestPath[k] := loc[k];
        }
        assert bestPath[..] == loc[..];
        assert Best() == offered;
      } else if total < bestCost {
        assert offered == Incumbent(total, loc[..]);
        bestCost := total;
        forall k | 0 <= k < size {
          bestPath[k] := loc[k];
        }
        assert bestPath[..] == loc[..];
        assert Best() == offered;
      }
    }

    /** copyBackwards(i, j): currentPath[x] := randPath[i + j - x] for x in [i, j]. */
    method CopyBackwards(i: int, j: int)
      requires Shape() && 0 <= i && j < size
      modifies currentPath
      ensures forall x :: i <= x <= j ==> currentPath[x] == randPath[i + j - x]
      ensures forall x :: 0 <= x < size && !(i <= x <= j) ==> currentPath[x] == old(currentPath[x])
    {
      var max, from := j, j;
      var x := i;
      while x <= max
        invariant x == i || i <= x <= j + 1
        invariant from == i + j - x
        invariant forall y :: i <= y < x ==> currentPath[y] == randPath[i + j - y]
        invariant forall y :: 0 <= y < size && !(i <= y < x) ==> currentPath[y] == old(currentPath[y])
      {
        currentPath[x] := randPath[from];
        from := from - 1;
        x := x + 1;
      }
    }

    /**
     * copyForward(i, j) with the element count corrected to size - j - 1:
     * positions j+1 .. size-1 are copied from the base tour, the rest kept.
     */
    method CopyForward(i: int, j: int)
      requires Shape() && 0 <= j < size
      modifies currentPath
      ensures forall k :: j < k < size ==> currentPath[k] == randPath[k]
      ensures forall k :: 0 <= k <= j ==> currentPath[k] == old(currentPath[k])
    {
      forall k | j + 1 <= k < size {
        currentPath[k] := randPath[k];
      }
    }

    /**
     * The body of the loops of genNewPaths: copy the base tour into
     * currentPath, reverse block [i, j] with copyBackwards, copy the tail
     * with copyForward, and offer the result.
     */
    method OfferCandidate(i: int, j: int)
      requires Shape() && NonNegative(dist) && 1 <= i <= j < size
      modifies currentPath, this`bestCost, bestPath
      ensures currentPath[..] == ReverseBlock(randPath[..], i, j)
      ensures Best() == OfferTour(dist, old(Best()), ReverseBlock(randPath[..], i, j))
    {
      forall k | 0 <= k < size {
        currentPath[k] := randPath[k];
      }
      CopyBackwards(i, j);
      CopyForward(i, j);
      IsCandidate(randPath[..], currentPath[..], i, j);
      CalculateTotalCost(currentPath);
    }

    /** The inner loop of genNewPaths: offer the candidates (i, i), ..., (i, size-1) in turn. */
    method OfferRow(i: int)
      requires Shape() && NonNegative(dist) && 1 <= i < size
      modifies currentPath, this`bestCost, bestPath
      ensures Best() == OfferEach(old(Best()), Row(dist, randPath[..], i))
    {
      ghost var inc, row := Best(), Row(dist, randPath[..], i);
      var j := i;
      while j < size
        invariant i <= j <= size
        invariant Best() == OfferEach(inc, row[..j - i])
      {
        assert row[j - i] == Candidate(dist, randPath[..], (i, j));
        OfferCandidate(i, j);
        OfferEachStep(inc, row, j - i);
        j := j + 1;
      }
      assert row[..j - i] == row;
    }

    /**
     * genNewPaths: for every pair 1 <= i <= j <= size-1, in loop order,
     * build the base tour with block [i, j] reversed and offer it.
     */
    method GenNewPaths()
      requires Shape() && NonNegative(dist)
      modifies currentPath, this`bestCost, bestPath
      ensures Best() == Scan(dist, old(Best()), randPath[..], size)
    {
      ghost var inc := Best();
      var i := 1;
      while i < size
        invariant 1 <= i <= size
        invariant Best() == Scan(dist, inc, randPath[..], i)
      {
        OfferRow(i);
        i := i + 1;
      }
    }

    /** One placement in genRandomPath: append the unvisited city r to the tour and mark it. */
    method Place(r: int, filled: int)
      requires Shape() && 0 <= r < size && 0 <= filled < size
      modifies cities, randPath
      ensures cities[..] == old(cities[..])[r := old(cities[r]).(visited := true)]
      ensures randPath[..filled + 1] == old(randPath[..filled]) + [old(cities[r])]
      ensures randPath[filled + 1..] == old(randPath[filled + 1..])
    {
      randPath[filled] := cities[r];
      cities[r] := cities[r].(visited := true);
    }

    /**
     * The sampling loop of genRandomPath: draw `rand() % size` until every
     * city is placed, appending each unvisited city and marking it. The
     * i-th value of `draws` stands for the i-th `rand()`.
     */
    method SampleTour(draws: seq<nat>)
      requires Shape() && Covers(draws, size)
      requires forall k :: 0 <= k < size ==> !cities[k].visited
      modifies cities, randPath
      ensures |FirstDraws(draws, |draws|, size)| == size
      ensures forall k :: 0 <= k < size ==> randPath[k] == old(cities[FirstDraws(draws, |draws|, size)[k]])
      ensures multiset(randPath[..]) == multiset(old(cities[..]))
      ensures forall k :: 0 <= k < size ==> cities[k] == old(cities[k]).(visited := true)
    {
      ghost var catalogue := cities[..];
      assert 0 in Drawn(draws, size);
      var tempSize := size;
      var filled := 0;
      var d := 0;
      while tempSize != 0
        invariant 0 <= tempSize <= size && filled == size - tempSize && 0 <= d <= |draws|
        invariant Progress(cities[..], randPath[..filled]) == Sample(catalogue, draws, d)
        invariant tempSize != 0 ==> d < |draws|
        decreases |draws| - d
      {
        var r := draws[d] % size;
        if !cities[r].visited {
          Place(r, filled);
          tempSize := tempSize - 1;
          filled := filled + 1;
        }
        d := d + 1;
        if d == |draws| {
          SampleEnds(catalogue, draws);
        }
      }
      assert randPath[..] == randPath[..filled];
      SampleDone(catalogue, draws, d);
    }

    /** The loop at the end of genRandomPath: clear every `visited` flag. */
    method ClearVisited()
      requires Shape()
      modifies cities
      ensures forall k :: 0 <= k < size ==> cities[k] == old(cities[k]).(visited := false)
    {
      var t := 0;
      while t < size
        invariant 0 <= t <= size
        invariant forall k :: 0 <= k < t ==> cities[k] == old(cities[k]).(visited := false)
        invariant forall k :: t <= k < size ==> cities[k] == old(cities[k])
      {
        cities[t] := cities[t].(visited := false);
        t := t + 1;
      }
    }

    /**
     * genRandomPath: a random permutation of the catalogue by rejection
     * sampling, offered to the incumbent; afterwards no city is visited.
     */
    method GenRandomPath(draws: seq<nat>)
      requires Valid() && Covers(draws, size)
      modifies cities, randPath, this`bestCost, bestPath
      ensures Valid() && cities[..] == old(cities[..])
      ensures |FirstDraws(draws, |draws|, size)| == size
      ensures forall k :: 0 <= k < size ==> randPath[k] == cities[FirstDraws(draws, |draws|, size)[k]]
      ensures multiset(randPath[..]) == multiset(cities[..])
      ensures Best() == OfferTour(dist, old(Best()), randPath[..])
      ensures Sound(dist, cities[..], Best())
    {
      ghost var catalogue, inc0 := cities[..], Best();
      SampleTour(draws);
      CalculateTotalCost(randPath);
      ClearVisited();
      assert cities[..] == catalogue;
      OfferTourSound(dist, catalogue, inc0, randPath[..]);
    }

    /** tsp_start: one random base tour, then its whole segment-reversal neighbourhood. */
    method TspStart(draws: seq<nat>)
      requires Valid() && Covers(draws, size)
      modifies cities, randPath, currentPath, this`bestCost, bestPath
      ensures Valid() && cities[..] == old(cities[..])
      ensures |FirstDraws(draws, |draws|, size)| == size
      ensures forall k :: 0 <= k < size ==> randPath[k] == cities[FirstDraws(draws, |draws|, size)[k]]
      ensures multiset(randPath[..]) == multiset(cities[..])
      ensures Best() == OfferEach(OfferTour(dist, old(Best()), randPath[..]), Neighbours(dist, randPath[..], Candidates(size)))
      ensures Sound(dist, cities[..], Best())
    {
      GenRandomPath(draws);
      ghost var base, inc := randPath[..], Best();
      GenNewPaths();
      ScanOffersCandidates(dist, inc, base);
      ScanSound(dist, cities[..], inc, base, Candidates(size));
    }
  }
}
