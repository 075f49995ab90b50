# DataCost TSP search, modelled in Dafny

`DataCost/tsp.c` is an MPI program for the travelling salesman problem. It
runs one worker per rank, and each worker does the following:

1. It builds a random tour of the cities by rejection sampling
   (`genRandomPath`).
2. It scores that tour and every tour obtained from it by reversing one block
   of positions `[i, j]`, for `1 <= i <= j <= size-1` (`genNewPaths`,
   `copyBackwards`, `copyForward`).
3. It keeps the cheapest tour seen so far, called the incumbent
   (`calculate_total_cost`).

At the end, rank 0 collects every worker's cost and picks the lowest-ranked
minimum. It broadcasts the winner's rank, and only that worker prints its
tour (`myBcast`, `displayResults`).

The model keeps the source's form. The worker's global buffers (`cities`,
`randPath`, `currentPath`, `bestPath`) are the arrays of the class
`Search.Worker`, and `bestCost` is one of its fields. The loops of
`genRandomPath`, `genNewPaths`, `copyBackwards`, `calculate_total_cost` and
the rank scan of `myBcast` are `while` loops with invariants. Each method is
proved against a specification function:

- `Tours`: the cities and the cyclic cost. `TourCost` sums the truncated edge
  lengths because the source's accumulator is an `int`. `ReverseBlock` is a
  base tour with one block reversed.
- `Neighbourhood`: the order in which `genNewPaths` visits the pairs
  `(i, j)`.
- `Incumbents`: the replacement rule of `calculate_total_cost` as a value
  (`Offer`), offered over a sequence of candidates (`OfferEach`) or over the
  two loops (`Scan`).
- `Search`: the worker and its methods.
- `Reduction`: the winner selection across ranks.

The edge length `getCost` is an abstract real-valued function `dist`. It is
assumed non-negative everywhere and symmetric only where a lemma needs it.
Each conversion of `total_cost += getCost(a, b)` back to `int` is modelled
exactly as truncation toward zero. The random draws are a parameter `draws`:
the k-th value stands for the k-th `rand()`, and the index used is
`draws[k] % size`. The precondition `Covers` requires that every index is
drawn at some point, which is what makes the sampling loop terminate.

`bestCost == 0` means "no incumbent yet", and the model keeps this sentinel
as written. As a result, a tour whose truncated cost is 0 is taken for the
unset sentinel, and the next offer replaces it even when that offer is
dearer. `Incumbents.ZeroCostKeepsSentinel` and
`Incumbents.SentinelLetsCostRise` state this. The minimum property
(`Incumbents.OfferEachKeepsMinimum`, `Incumbents.ScanKeepsMinimum`) is
therefore stated for offers of non-zero cost.

`copyForward` copies `size - j` elements starting at position `j + 1`, so its
last element writes `currentPath[size]` and reads `randPath[size]`, each one
past the end of its buffer. The copy is also
redundant, because `genNewPaths` has already copied the whole base tour.
Under "## Findings", the as-written write set is exhibited, and the worker
uses the corrected count `size - j - 1`.

## Model

| member | source | states |
|---|---|---|
| Tours.Trunc | DataCost/tsp.c:213-215 | the conversion back to `int` truncates toward zero: the result has the float's sign and lies less than 1 from it, on the side of 0 |
| Tours.GetCost | DataCost/tsp.c:196-203 | the edge length is never negative for a non-negative distance, and is the same both ways for a symmetric one |
| Tours.PathCost | DataCost/tsp.c:207-214 | the loop's accumulated cost over consecutive positions never goes below 0 for a non-negative distance |
| Tours.TourCost | DataCost/tsp.c:207-215 | the loop plus the closing edge never goes below 0 for a non-negative distance |
| Tours.TourCostClosed | DataCost/tsp.c:210-215 | the cyclic cost is the path cost of the closed walk that returns to the first city |
| Tours.TruncShift | DataCost/tsp.c:207-215 | adding a non-negative float to a non-negative `int` accumulator and truncating adds the truncated float, so the loop sums truncated edge lengths |
| Tours.TourCostReverse | DataCost/tsp.c:196-215 | with a symmetric distance a tour and its reverse have the same cyclic cost |
| Tours.PathCostReverse | DataCost/tsp.c:210-214 | a path traversed backwards costs the same when the distance is symmetric |
| Tours.ReverseAt | DataCost/tsp.c:229-231 | position k of the reversed sequence is position \|s\|-1-k of the original |
| Tours.ReversePermutes | DataCost/tsp.c:229-231 | reversing a sequence permutes it |
| Tours.ReverseBlockAt | DataCost/tsp.c:245-247 | a candidate holds randPath[i+j-x] at every x in [i, j] and randPath[x] everywhere else |
| Tours.ReverseBlockPermutes | DataCost/tsp.c:243-247 | every candidate is a permutation of the base tour, and position 0 never moves when i >= 1 |
| Neighbourhood.Candidates | DataCost/tsp.c:243-244 | every enumerated pair names a block inside the tour |
| Neighbourhood.PairsBeforeNext | DataCost/tsp.c:243-244 | proof step: finishing row i of the outer loop appends the pairs (i, i) .. (i, n-1) |
| Neighbourhood.RowUpToSpec | DataCost/tsp.c:244 | the inner loop for i visits j = i, i+1, ... in order |
| Neighbourhood.PairsBeforeCount | DataCost/tsp.c:243-244 | before row i the loops have visited (i-1)(2n-i)/2 pairs |
| Neighbourhood.PairsBeforeMembers | DataCost/tsp.c:243-244 | the pairs visited before row i are exactly those with 1 <= p.0 < i and p.0 <= p.1 < n |
| Neighbourhood.PairsBeforeSorted | DataCost/tsp.c:243-244 | the visited pairs come in strictly increasing lexicographic order |
| Neighbourhood.CandidatesSpec | DataCost/tsp.c:243-244 | genNewPaths visits n(n-1)/2 pairs: each pair with 1 <= i <= j <= n-1 once, the identity i == j included, and in lexicographic order |
| Neighbourhood.PairsBeforeInRange | DataCost/tsp.c:243-244 | every pair visited before row i lies inside the tour |
| Neighbourhood.CopyForwardWrites | DataCost/tsp.c:235-237 | the positions copyForward writes as written: size-j of them, starting at j+1 |
| Neighbourhood.CopyForwardOverruns | DataCost/tsp.c:235-237 | for every j the source passes, the last position written as written is size, one past both buffers |
| Incumbents.Offer | DataCost/tsp.c:218-224 | the incumbent afterwards is the old one or the offer; the sentinel 0 always gives way; a set incumbent keeps the lower of the two costs and, on a tie, the older tour |
| Incumbents.OfferTour | DataCost/tsp.c:206-224 | calculate_total_cost leaves the old incumbent or the offered tour with its cyclic cost, and never a dearer cost than a set incumbent's or the tour's |
| Incumbents.Candidate | DataCost/tsp.c:245-248 | a candidate is a permutation of the base tour of the same length, carries its own cyclic cost, and keeps position 0 when i >= 1 |
| Incumbents.OfferEach | DataCost/tsp.c:243-250 | after a batch of offers the incumbent is the old one or one of the offers |
| Incumbents.Neighbours | DataCost/tsp.c:243-248 | one candidate per pair, in the pairs' order |
| Incumbents.OfferEachStep | DataCost/tsp.c:248 | proof step: one more calculate_total_cost call applies the replacement rule once more |
| Incumbents.OfferEachAppend | DataCost/tsp.c:243-250 | offering two batches in turn is offering their concatenation |
| Incumbents.Row | DataCost/tsp.c:244-249 | the inner loop for i offers \|base\|-i candidates, one per j |
| Incumbents.RowIsNeighbours | DataCost/tsp.c:244-249 | the inner loop's candidates are those of the pairs (i, i) .. (i, n-1) |
| Incumbents.NeighboursAppend | DataCost/tsp.c:243-249 | the candidates of two batches of pairs are the two batches' candidates in turn |
| Incumbents.ScanOffersPairs | DataCost/tsp.c:243-250 | the fold `Scan` of the outer loop equals offering pairs: after the outer loop reaches i, every pair before row i has been offered, in loop order |
| Incumbents.ScanOffersCandidates | DataCost/tsp.c:240-251 | genNewPaths offers the candidate of every enumerated pair in enumeration order, one calculate_total_cost call each |
| Incumbents.OfferTourSound | DataCost/tsp.c:218-224 | offering a permutation of the catalogue leaves an incumbent that is a permutation carrying its own cost, even from the sentinel |
| Incumbents.NeighboursSound | DataCost/tsp.c:243-248 | every candidate of a permutation of the catalogue is a permutation carrying its own cost |
| Incumbents.OfferEachSound | DataCost/tsp.c:218-224 | offering such tours in turn keeps the incumbent a permutation carrying its own cost |
| Incumbents.ScanSound | DataCost/tsp.c:240-251 | genNewPaths keeps the incumbent a permutation of the catalogue with its true cost |
| Incumbents.OfferEachKeepsMinimum | DataCost/tsp.c:218-224 | when offers cost non-zero, the incumbent afterwards costs no more than any offer or a set old incumbent, is set, and is the old incumbent or one of the offers |
| Incumbents.PairAt | DataCost/tsp.c:243-244 | every pair the loops enumerate satisfies 1 <= i <= j <= size-1 |
| Incumbents.PairIndex | DataCost/tsp.c:243-244 | every pair with 1 <= i <= j <= size-1 is reached by the loops at some step |
| Incumbents.ScanKeepsMinimum | DataCost/tsp.c:240-251 | when no candidate costs 0, genNewPaths leaves the cheapest of the set old incumbent and all block reversals, and that is one of them |
| Incumbents.OfferNeverRaises | DataCost/tsp.c:218-224 | once bestCost is non-zero, a non-zero offer never raises it |
| Incumbents.ZeroCostKeepsSentinel | DataCost/tsp.c:218-224 | a zero-cost tour is taken for the unset sentinel: whatever is offered next replaces it |
| Incumbents.SentinelLetsCostRise | DataCost/tsp.c:218-224 | incumbent 5, then a zero-cost tour, then a tour of cost 7 leaves cost 7 |
| Search.MarkPlaced | DataCost/tsp.c:179-182 | marking an unvisited city removes exactly that city from the unplaced multiset |
| Search.NonePlaced | DataCost/tsp.c:167-175 | with no flag set, every city is still to be placed |
| Search.AllVisited | DataCost/tsp.c:175-185 | with every flag set, no city is left unplaced |
| Search.UnplacedHas | DataCost/tsp.c:179 | a city whose flag is clear is among the unplaced cities |
| Search.FirstDraws | DataCost/tsp.c:176-182 | the indices accepted by the first d draws are all inside the catalogue |
| Search.FirstDrawsSpec | DataCost/tsp.c:176-182 | the accepted indices are distinct, and an index is accepted iff one of the first d draws names it |
| Search.FirstDrawsSaturated | DataCost/tsp.c:175-185 | once every index has been accepted, further draws accept nothing new |
| Search.Step | DataCost/tsp.c:176-184 | one draw as a value: it keeps the number of cities (what it changes is stated by StepCounts and SampleKeeps) |
| Search.Sample | DataCost/tsp.c:167-185 | the loop state after d draws as a value: it keeps the number of cities (what it holds is stated by SampleKeeps, SampleCounts and SampleOrder) |
| Search.SampleKeeps | DataCost/tsp.c:179-182 | the loop changes no city except for its visited flag |
| Search.StepCounts | DataCost/tsp.c:179-183 | proof step: one draw keeps every city accounted for, either in randPath or still unplaced |
| Search.SampleCounts | DataCost/tsp.c:167-185 | after any number of draws, randPath plus the unplaced cities is exactly the catalogue |
| Search.SampleRemaining | DataCost/tsp.c:168-183 | the cities still unplaced number the catalogue size less the cities already in randPath, which is the loop's tempSize |
| Search.SampleOrder | DataCost/tsp.c:176-183 | randPath holds the catalogue's cities in the order their indices were first drawn, and a flag is set iff its index has been drawn |
| Search.SampleEnds | DataCost/tsp.c:175 | once every index has been drawn, all cities are placed, so the loop ends |
| Search.SampleDone | DataCost/tsp.c:175-185 | with every city placed, randPath is a permutation of the catalogue in first-draw order and every flag is set |
| Search.IsCandidate | DataCost/tsp.c:245-247 | what the three copies leave in currentPath is the base tour with block [i, j] reversed |
| Search.Worker.constructor | DataCost/tsp.c:64-69 | the catalogue is loaded, no incumbent is set and no city is visited |
| Search.Worker.TotalCost | DataCost/tsp.c:207-215 | the int accumulator ends as the cyclic tour cost and is non-negative |
| Search.Worker.CalculateTotalCost | DataCost/tsp.c:206-225 | the incumbent becomes (cost, tour) iff bestCost was 0 or the cost is strictly lower, and is unchanged otherwise |
| Search.Worker.CopyBackwards | DataCost/tsp.c:227-232 | currentPath[x] = randPath[i+j-x] for every x in [i, j]; no other position changes |
| Search.Worker.CopyForward | DataCost/tsp.c:235-237 | (corrected count) positions j+1 .. size-1 come from the base tour and no other position changes |
| Search.Worker.OfferCandidate | DataCost/tsp.c:245-248 | currentPath becomes the base tour with block [i, j] reversed, and that tour is offered |
| Search.Worker.OfferRow | DataCost/tsp.c:244-249 | the inner loop offers row i's candidates in order of j |
| Search.Worker.GenNewPaths | DataCost/tsp.c:240-251 | the incumbent afterwards is the fold of the replacement rule over every row, in loop order |
| Search.Worker.Place | DataCost/tsp.c:180-183 | an unvisited city is copied to the next slot of randPath and marked, and nothing else changes |
| Search.Worker.SampleTour | DataCost/tsp.c:167-185 | randPath becomes the catalogue's cities in the order their indices were first drawn, a permutation of the catalogue, and every city is marked visited |
| Search.Worker.ClearVisited | DataCost/tsp.c:191-192 | every visited flag is cleared and nothing else in a city changes |
| Search.Worker.GenRandomPath | DataCost/tsp.c:165-193 | the catalogue in first-draw order is offered, the catalogue is restored, and the incumbent stays sound |
| Search.Worker.TspStart | DataCost/tsp.c:85-89 | the random tour (the catalogue in first-draw order) is offered, then every segment reversal of it in loop order; the catalogue is unchanged and the incumbent is sound |
| Reduction.LowestMinUnique | DataCost/tsp.c:103-108 | the lowest-indexed minimum is unique, so the winner is well defined |
| Reduction.RootSelect | DataCost/tsp.c:93-108 | the scan from rank 0 with strict < yields the lowest-indexed minimum of the ranks' costs (with one rank, rank 0) |
| Reduction.DisplayResults | DataCost/tsp.c:115-123 | a report exists iff the rank is the winner, and it carries the rank, the cost and the tour's ids in order |
| Reduction.MyBcast | DataCost/tsp.c:92-112 | every rank receives the same winner, the lowest-indexed minimum; exactly that rank reports, with the minimum cost and its tour's ids |

## Left out

- `main` is not modelled. That covers argument handling, `fopen`/`fclose`, MPI set-up and the loop that calls `tsp_start` `iteration` times; `TspStart` models one call.
- `parse` is not modelled: reading the city file is I/O. The constructor takes the catalogue as given, with at least 2 cities and none visited.
- The MPI calls `MPI_Send`, `MPI_Recv` and `MPI_Bcast` are not modelled as message passing. `MyBcast` takes every rank's cost and tour as sequences indexed by rank.
- `srand` and `rand` are not modelled. The draws are the parameter `draws`, and `Covers` stands in for "every index is eventually drawn".
- `getCost` is not modelled: its square root over `float` is the abstract function `dist`. Float rounding of the coordinates and of the square root is not modelled.
- Search.Worker.TotalCost: `total_cost + getCost(a, b)` is computed in exact reals before truncation, so float rounding of that sum is not modelled.
- Search.Worker.TotalCost: `total_cost` is an unbounded integer; the 32-bit width of the C `int` and the undefined behaviour of an overflowing conversion are not modelled.
- Search.Worker.CalculateTotalCost: `bestCost` is a `float` in the source and is modelled as an `int`. The two agree only while costs stay below 2^24: above that a `float` cannot hold every integer (16777217 is stored as 16777216.0), so the source can compare a rounded `bestCost`, and that rounding is not modelled.
- Search.Worker.CalculateTotalCost: the missing return value of `calculate_total_cost` is not modelled, because no caller uses it.
- Every `printf` in `main`, `myBcast` and `displayResults` is console output. `DisplayResults` returns what would be printed.
- `calloc` of `randPath` and of the other buffers is not modelled: the buffers exist from the constructor on, each with `size` elements.
- Search.Worker.CopyForward models the corrected copy of `size - j - 1` elements. The as-written write set is `Neighbourhood.CopyForwardWrites` (see Findings).
- Incumbents.OfferEachKeepsMinimum and Incumbents.ScanKeepsMinimum assume that no offer costs 0. That is weaker than "the incumbent is the minimum" on purpose, because the zero sentinel breaks the minimum otherwise.

## Findings

| source | as written | input that shows it | evidently intended | confidence | as-written member | corrected member |
|---|---|---|---|---|---|---|
| DataCost/tsp.c:236 | `copyForward(i, j)` copies `size - j` elements from index `j + 1`, so the last write is index `size` | any call from `genNewPaths`, e.g. size = 3, i = j = 1: the copy writes `currentPath[3]` and reads `randPath[3]`, both one past the end | copy `size - j - 1` elements, positions `j + 1 .. size - 1` | high; not executed | Neighbourhood.CopyForwardWrites, Neighbourhood.CopyForwardOverruns | Search.Worker.CopyForward |
