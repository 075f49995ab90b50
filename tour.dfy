/**
 * Cities, tours and the cyclic tour cost of DataCost/tsp.c.
 *
 * The Euclidean distance `getCost` (a square root over float arithmetic)
 * is not modelled: it is an abstract real-valued function `dist` over the
 * cities' coordinates. What IS modelled is the `int` accumulator of
 * `calculate_total_cost`: every `total_cost += getCost(a, b)` converts the
 * float sum back to `int`, which truncates toward zero.
 */
module Tours {

  /** Coordinates of a city (the source's two `float` fields). */
  datatype Point = Point(x: real, y: real)

  /** The source's CITY struct: its id, its coordinates and the `visited` flag. */
  datatype City = City(id: int, pos: Point, visited: bool)

  /** The abstract edge-length function that stands for `getCost`. */
  type Distance = (Point, Point) -> real

  ghost predicate NonNegative(dist: Distance)
  {
    forall p, q :: dist(p, q) >= 0.0
  }

  ghost predicate Symmetric(dist: Distance)
  {
    forall p, q :: dist(p, q) == dist(q, p)
  }

  /** C's conversion of a floating-point value to `int`: truncation toward zero. */
  function Trunc(r: real): (t: int)
    ensures r >= 0.0 ==> 0 <= t && t as real <= r < t as real + 1.0
    ensures r < 0.0 ==> t <= 0 && t as real - 1.0 < r <= t as real
  {
    if r >= 0.0 then r.Floor else -((-r).Floor)
  }

  /** getCost(a, b): the distance between the two cities' coordinates. */
  function GetCost(dist: Distance, a: City, b: City): (c: real)
    ensures NonNegative(dist) ==> c >= 0.0
    ensures Symmetric(dist) ==> c == dist(b.pos, a.pos)
  {
    dist(a.pos, b.pos)
  }

  /** What one edge contributes to the `int` accumulator. */
  function EdgeLength(dist: Distance, a: City, b: City): int
  {
    Trunc(GetCost(dist, a, b))
  }

  /** Sum of the edge lengths between consecutive positions of `s`; never negative for a non-negative distance. */
  function PathCost(dist: Distance, s: seq<City>): (c: int)
    ensures NonNegative(dist) ==> c >= 0
  {
    if |s| <= 1 then 0
    else PathCost(dist, s[..|s| - 1]) + EdgeLength(dist, s[|s| - 2], s[|s| - 1])
  }

  /** The cyclic cost: the path plus the closing edge from the last city back to the first. */
  function TourCost(dist: Distance, s: seq<City>): (c: int)
    requires |s| >= 1
    ensures NonNegative(dist) ==> c >= 0
  {
    PathCost(dist, s) + EdgeLength(dist, s[|s| - 1], s[0])
  }

  /** The cyclic cost is the cost of the closed walk that returns to the first city. */
  lemma TourCostClosed(dist: Distance, s: seq<City>)
    requires |s| >= 1
    ensures TourCost(dist, s) == PathCost(dist, s + [s[0]])
  {
    var w := s + [s[0]];
    calc {
      PathCost(dist, w);
      PathCost(dist, w[..|w| - 1]) + EdgeLength(dist, w[|w| - 2], w[|w| - 1]);
      { assert w[..|w| - 1] == s; }
      PathCost(dist, s) + EdgeLength(dist, s[|s| - 1], s[0]);
    }
  }

  /** Adding a non-negative float to a non-negative `int` and truncating adds the truncated float. */
  lemma TruncShift(n: int, f: real)
    requires n >= 0 && f >= 0.0
    ensures Trunc(n as real + f) == n + Trunc(f)
    ensures Trunc(f) >= 0
  {
  }

  /** The sequence in reverse order. */
  function Reverse<T>(s: seq<T>): (r: seq<T>)
    ensures |r| == |s|
  {
    if |s| == 0 then [] else [s[|s| - 1]] + Reverse(s[..|s| - 1])
  }

  lemma {:induction false} ReverseAt<T>(s: seq<T>, k: int)
    requires 0 <= k < |s|
    ensures Reverse(s)[k] == s[|s| - 1 - k]
  {
    if k > 0 {
      ReverseAt(s[..|s| - 1], k - 1);
    }
  }

  lemma {:induction false} ReversePermutes<T>(s: seq<T>)
    ensures multiset(Reverse(s)) == multiset(s)
  {
    if |s| > 0 {
      ReversePermutes(s[..|s| - 1]);
      assert s == s[..|s| - 1] + [s[|s| - 1]];
    }
  }

  /** Prepending a city adds the edge from it to the old first city. */
  lemma {:induction false} PathCostCons(dist: Distance, a: City, t: seq<City>)
    ensures PathCost(dist, [a] + t) == (if |t| == 0 then 0 else EdgeLength(dist, a, t[0])) + PathCost(dist, t)
  {
    if |t| > 1 {
      var u := [a] + t;
      assert u[..|u| - 1] == [a] + t[..|t| - 1];
      PathCostCons(dist, a, t[..|t| - 1]);
    }
  }

  /** Traversing a path backwards costs the same when the distance is symmetric. */
  lemma {:induction false} PathCostReverse(dist: Distance, s: seq<City>)
    requires Symmetric(dist)
    ensures PathCost(dist, Reverse(s)) == PathCost(dist, s)
  {
    if |s| > 1 {
      var init := s[..|s| - 1];
      PathCostReverse(dist, init);
      PathCostCons(dist, s[|s| - 1], Reverse(init));
      ReverseAt(init, 0);
      assert GetCost(dist, s[|s| - 1], s[|s| - 2]) == GetCost(dist, s[|s| - 2], s[|s| - 1]);
    }
  }

  /**
   * A tour and its reverse traverse the same cycle, so their costs agree
   * (the edge lengths only need to be symmetric).
   */
  lemma TourCostReverse(dist: Distance, s: seq<City>)
    requires Symmetric(dist) && |s| >= 1
    ensures TourCost(dist, Reverse(s)) == TourCost(dist, s)
  {
    PathCostReverse(dist, s);
    ReverseEnds(s);
    EdgeSymmetric(dist, s[0], s[|s| - 1]);
  }

  lemma ReverseEnds<T>(s: seq<T>)
    requires |s| >= 1
    ensures Reverse(s)[0] == s[|s| - 1] && Reverse(s)[|s| - 1] == s[0]
  {
    ReverseAt(s, 0);
    ReverseAt(s, |s| - 1);
  }

  lemma EdgeSymmetric(dist: Distance, a: City, b: City)
    requires Symmetric(dist)
    ensures EdgeLength(dist, a, b) == EdgeLength(dist, b, a)
  {
    assert dist(a.pos, b.pos) == dist(b.pos, a.pos);
  }

  /** The base tour with the block of positions [i, j] reversed: one segment-reversal candidate. */
  function ReverseBlock(s: seq<City>, i: int, j: int): (r: seq<City>)
    requires 0 <= i <= j < |s|
    ensures |r| == |s|
  {
    s[..i] + Reverse(s[i..j + 1]) + s[j + 1..]
  }

  /** Position x of a candidate: mirrored inside the block, untouched outside it. */
  lemma ReverseBlockAt(s: seq<City>, i: int, j: int, x: int)
    requires 0 <= i <= j < |s| && 0 <= x < |s|
    ensures ReverseBlock(s, i, j)[x] == if i <= x <= j then s[i + j - x] else s[x]
  {
    if i <= x <= j {
      ReverseAt(s[i..j + 1], x - i);
    }
  }

  /** Every candidate is a permutation of the base tour and keeps its first city when i >= 1. */
  lemma ReverseBlockPermutes(s: seq<City>, i: int, j: int)
    requires 0 <= i <= j < |s|
    ensures multiset(ReverseBlock(s, i, j)) == multiset(s)
    ensures 1 <= i ==> ReverseBlock(s, i, j)[0] == s[0]
  {
    ReversePermutes(s[i..j + 1]);
    assert s == s[..i] + s[i..j + 1] + s[j + 1..];
  }
}
