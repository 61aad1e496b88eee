# Held-Karp TSP solver (`tsp_dynamic`) in Dafny

This project models `tsp_dynamic` from `algorithms/dynamic.py`. It is the
Held-Karp dynamic program for the Travelling Salesman Problem on an n x n
distance matrix `D`, and the model proves it correct.

The model keeps the program's imperative shape:

- `Dynamic.FillTable` allocates the `(1 << n) x n` tables `DP` (all inf) and
  `parent` (all -1) as `array2`s and seeds `DP[1][0] = 0`.
- It then runs the same three nested loops: masks `S` in increasing order
  (`FillTable`), cities `u` (`RelaxMask`) and cities `v` (`RelaxFrom`). A
  cell is only overwritten on a strictly smaller cost.
- `Dynamic.CloseTour` is the closing scan over `u = 1 .. n-1`, also with a
  strict `<`.
- `Dynamic.Reconstruct` is the downward loop. It writes `path[i]`, follows
  `parent` and clears one bit with `mask ^ (1 << current)`, then sets
  `path[0] = 0` and appends 0.
- `Dynamic.TspDynamic` composes the four steps, as the source function does.

Representation:

- Costs are `Tours.Ext = Inf | Fin(c)`, standing for `np.inf` and finite sums.
  Inf plus a distance stays Inf, and `Less` is the strict `<` on these values.
- Distances are integers.
- Masks are natural numbers. `Bitmask.Bit`, `SetBit` and `FlipBit` are
  `S & (1 << k)`, `S | (1 << k)` and `S ^ (1 << k)`.
- `Bitmask.Cities` gives the set view of a mask, and its lemmas show that the
  bit operations are set insertion and removal. That view stands on its own:
  the path predicates of `Tours` test cities with `Bit` directly.

What each table cell should hold is a reference recurrence in `HeldKarp`:

- Every relaxation into cell `(T, x)` happens during the single outer
  iteration `S = T ^ (1 << x)`, with the source city `u` increasing.
- So `HeldKarp.Relax` is a first-minimum fold over `u`.
- `HeldKarp.Final(D, T, x)` is the settled cell.
- `Dynamic.Table` states that at every loop position each cell equals that
  fold stopped at the right number of predecessors. The invariants of the
  three fill loops are all this one predicate; the closing scan and the
  reconstruction loop (`Dynamic.Retracing`) have their own.
- `HeldKarp.Walk` is the path obtained by following `parent` back from a cell.

The main theorems:

- **Table meaning.** A finite `DP[S][u]` is the cost of the walk, a path from
  city 0 through exactly the cities of `S` to `u` (`WalkIsPath`). No such path
  is cheaper (`FinalOptimal`). The cell is finite exactly when such a path
  exists (`FinalIsOptimum`).
- **Result.** For n >= 2, `TspDynamic` returns a tour whose cost is
  `min_cost`, and no tour is cheaper. Its last city is the smallest `u` with
  the cheapest closing cost, and the path is the parent walk from that city.
  With `Tours.TourInterior`, `path[1..n]` is a permutation of `1 .. n-1`.
- **Sample.** On the sample matrix at the end of `dynamic.py` the result is
  cost 80 and tour `[0, 2, 3, 1, 0]` (`Sample.SampleRun`). The closing costs
  of cities 1 and 2 are both 80. City 1 is kept because the scan only
  replaces its best city on a strictly smaller cost.

Behaviour of the code worth noting:

- For n = 1 the code returns cost inf, not 0. The closing loop `range(1, 1)`
  is empty, so `min_cost` keeps its initial `np.inf`. The path is `[0, 0]`.
  `TspDynamic` states this case.
- The code does not reject a non-square matrix. The model takes "D is n x n,
  n >= 1" (`Tours.IsMatrix`, `|D| >= 1`) as a precondition.
- The code never reports "no finite state for the full mask" as an error.
  The model proves that this cannot happen for n >= 2 on a finite matrix
  (`HeldKarp.FullRowFinite`).
- Distances need not be non-negative: every result holds for arbitrary
  integer distances.

## Model

| member | source | states |
|---|---|---|
| Dynamic.TspDynamic | algorithms/dynamic.py:5-50 | path has n+1 entries, starts and ends at 0; n = 1 gives (inf, [0, 0]); for n >= 2 the path is a tour, min_cost is its cost and no tour is cheaper, min_cost is the closing cost of the path's last city, no closing cost is smaller and every earlier city's is strictly larger, and the path is the parent walk from the last city plus 0 |
| Dynamic.FillTable | algorithms/dynamic.py:7-22 | fresh n-column tables with 2^n rows, and after the fill every cell DP[T][x], parent[T][x] holds the settled Held-Karp cell Final(D, T, x) |
| Dynamic.RelaxMask | algorithms/dynamic.py:13-22 | one pass over u for mask S takes the tables from "all masks below S processed" to "all masks up to S processed" |
| Dynamic.RelaxFrom | algorithms/dynamic.py:16-22 | relaxing the finite cell (S, u) into every v outside S moves every target cell from u to u + 1 relaxed predecessors and leaves all other cells unchanged |
| Dynamic.CloseTour | algorithms/dynamic.py:25-33 | last_city = -1 exactly leaves min_cost inf with every closing cost inf; otherwise 1 <= last_city < n and min_cost is its closing cost; no closing cost is smaller than min_cost, and the cities before last_city are all strictly more expensive (the smallest argmin) |
| Dynamic.Reconstruct | algorithms/dynamic.py:36-48 | for n = 1 the path is [0, 0]; for n >= 2 the path written downwards and closed with 0 is exactly the parent walk from (all_visited, last_city) followed by 0 |
| Dynamic.RetraceStart | algorithms/dynamic.py:36-38 | before the loop the walk from (all_visited, last_city) has n cities and is the whole walk |
| Dynamic.RetraceStep | algorithms/dynamic.py:40-44 | one iteration (write current, take its parent, clear its bit) keeps the invariant: the walk of the new (mask, current) has one city fewer and, followed by the path written so far, is still the whole walk |
| Dynamic.RetraceDone | algorithms/dynamic.py:40-46 | when the index reaches 0 the loop stands at mask 1, city 0, and the written path with path[0] = 0 is the whole walk |
| Dynamic.PartialInit | algorithms/dynamic.py:7-10 | before the first iteration exactly the seed cell (1, 0) is (0, -1) and every other cell is (inf, -1) |
| Dynamic.RowSettled | algorithms/dynamic.py:12-14 | when the outer loop reaches mask S every cell of row S is already settled, because all its predecessors come from smaller masks |
| Dynamic.PartialTarget | algorithms/dynamic.py:17-22 | the cell (S with bit v set, v) has relaxed exactly the predecessors below u before step (u, v) and the predecessors up to u after it |
| Dynamic.PartialNextV | algorithms/dynamic.py:16-22 | no cell other than (S with bit v set, v) changes at inner step v |
| Dynamic.PartialSkipU | algorithms/dynamic.py:14-15 | skipping an inf cell (S, u) changes no expected cell, because an inf candidate never wins the strict comparison |
| Dynamic.TableNextU | algorithms/dynamic.py:13-16 | the table after the whole v-loop for u is the table at the start of u + 1 |
| Dynamic.TableSkipU | algorithms/dynamic.py:14-15 | the `continue` on an inf cell moves the invariant from u to u + 1 |
| Dynamic.TableNextS | algorithms/dynamic.py:12-13 | the table after the whole u-loop for S is the table at the start of S + 1 |
| Dynamic.TableDone | algorithms/dynamic.py:12-22 | after the last mask every cell holds its settled value |
| HeldKarp.RelaxArgmin | algorithms/dynamic.py:16-22 | relaxing candidates 0 .. k-1 keeps the first cheapest one: its cost is no larger than any candidate's and strictly smaller than every earlier one's; the cell is (inf, -1) exactly when every candidate is inf |
| HeldKarp.FinalTable | algorithms/dynamic.py:10-22 | table invariant: an inf cell has parent -1; a finite cell (S, u) has bits 0 and u set; for S != 1 its parent is a city of S other than u whose cell in S ^ (1 << u) is finite and supplies the cost |
| HeldKarp.SeedCell | algorithms/dynamic.py:10 | the seed cell (1, 0) is (0, -1) and its walk is [0] |
| HeldKarp.SeedOnly | algorithms/dynamic.py:10-17 | in mask 1 only the cell of city 0 is finite |
| HeldKarp.ZeroColumn | algorithms/dynamic.py:17-22 | no cell (S, 0) other than the seed is ever reached, since bit 0 is set in every reached mask |
| HeldKarp.WalkIsPath | algorithms/dynamic.py:14-22 | soundness: from a finite cell (S, u) the parent walk is a path from 0 through exactly the cities of S to u, its cost is DP[S][u], and it has one entry per city of S |
| HeldKarp.RelaxBound | algorithms/dynamic.py:16-22 | a finite cell (S ^ (1 << u), w) makes the settled cell (S, u) finite and no dearer than its cost plus D[w][u] |
| HeldKarp.FinalOptimal | algorithms/dynamic.py:12-22 | optimality: every path from 0 through exactly the cities of S to u costs at least DP[S][u], which is then finite |
| HeldKarp.FinalIsOptimum | algorithms/dynamic.py:7-22 | DP[S][u] is finite exactly when a path over S ending at u exists; it is a lower bound on every such path and attained by the parent walk |
| HeldKarp.WalkSeed | algorithms/dynamic.py:40-46 | a finite cell whose walk has one city is the seed: mask 1, city 0 |
| HeldKarp.WalkUnfold | algorithms/dynamic.py:42-44 | from a finite non-seed cell the parent is a valid city, its cell in mask ^ (1 << current) is finite, the cost is that cell's cost plus D[parent][current], and the new mask is smaller |
| HeldKarp.WalkStep | algorithms/dynamic.py:42-44 | a finite cell whose walk has more than one city is not the seed, and its walk is the parent's walk followed by the city |
| HeldKarp.FullRowFinite | algorithms/dynamic.py:25-33 | on an n x n matrix every cell (all_visited, u) with u != 0 is finite, so the closing scan for n >= 2 always finds a city |
| HeldKarp.ClosingLowerBound | algorithms/dynamic.py:29-33 | every tour costs at least the closing cost DP[all_visited][u] + D[u][0] of its last city u |
| HeldKarp.WalkTour | algorithms/dynamic.py:36-47 | the parent walk from a finite (all_visited, u), closed with 0, is a tour whose cost is the closing cost of u |
| Tours.PathExtend | algorithms/dynamic.py:17-22 | appending a city u of S to a path over S ^ (1 << u) yields a path over S |
| Tours.PathTruncate | algorithms/dynamic.py:17-22 | dropping the last city u of a path over S leaves a path over S ^ (1 << u), and u is not city 0 |
| Tours.PathCostSnoc | algorithms/dynamic.py:19 | appending a city adds exactly one edge to the cost (new_cost = DP[S][u] + D[u][v]) |
| Tours.PathStep | algorithms/dynamic.py:17-22 | appending u to a path over S ^ (1 << u) ending at w gives a path over S that costs D[w][u] more |
| Tours.SeedIsPath | algorithms/dynamic.py:10 | [0] is the path over the seed mask 1, which has one city |
| Tours.TourIsPath | algorithms/dynamic.py:36-47 | a tour without its closing 0 is a path over all n cities |
| Tours.TourCost | algorithms/dynamic.py:30 | a tour's cost is its path's cost plus the edge back to 0 |
| Tours.PathCloses | algorithms/dynamic.py:46-47 | a path over all n cities with n entries, closed with 0, is a tour |
| Tours.ClosedCost | algorithms/dynamic.py:30 | closing a path of cost c at city u costs c + D[u][0] |
| Tours.TourInterior | algorithms/dynamic.py:40-44 | between the two 0s a tour lists every city 1 .. n-1 exactly once (a permutation of 1 .. n-1) |
| Tours.TwoCityTour | algorithms/dynamic.py:29-47 | with two cities the only tour is [0, 1, 0], of cost D[0][1] + D[1][0] |
| Bitmask.Bit | algorithms/dynamic.py:17 | the bit test `S & (1 << k) != 0`, as "bit k of S is set" on natural numbers; its properties are Bitmask.SetBitBits, FlipBitBits, FullMaskBits and OneBits |
| Bitmask.SetBit | algorithms/dynamic.py:18 | S OR (1 << k): the result is at least S, and equals S exactly when bit k was already set; Bitmask.SetBitBits states which bits it has |
| Bitmask.FlipBit | algorithms/dynamic.py:43 | `mask ^ (1 << k)`: the result is smaller than the mask exactly when bit k was set; Bitmask.FlipBitBits states that only bit k changes |
| Tours.Add | algorithms/dynamic.py:19 | new_cost = DP[S][u] + D[u][v] (and line 30) on costs with inf: the sum is finite exactly when the cost is, so inf plus a distance stays inf |
| Tours.Less | algorithms/dynamic.py:20 | the strict `<` on costs with inf (also line 31): it never holds between equal costs, inf is less than nothing, and every finite cost is less than inf |
| Bitmask.Pow2 | algorithms/dynamic.py:7 | 1 << k, the number of rows of the tables; it is at least 1 |
| Bitmask.FullMask | algorithms/dynamic.py:25 | all_visited = (1 << n) - 1; Bitmask.FullMaskBits, CitiesFullMask and CountFullMask show it has exactly the n cities below n |
| HeldKarp.Entry | algorithms/dynamic.py:12-22 | the cell (T, x) after the candidates 0 .. k-1 have been relaxed: the seed (0, -1) at (1, 0), the Relax fold when bit x of T is set, unreached otherwise; HeldKarp.RelaxArgmin and FinalTable state its meaning |
| HeldKarp.Cand | algorithms/dynamic.py:19 | new_cost = DP[S][u] + D[u][v] on the settled table; HeldKarp.RelaxArgmin and RelaxBound relate it to the relaxed cell |
| HeldKarp.Closing | algorithms/dynamic.py:30 | the closing cost DP[all_visited][u] + D[u][0] on the settled table; HeldKarp.ClosingLowerBound and WalkTour show it is the cost of the cheapest tour whose last city is u |
| HeldKarp.Relax | algorithms/dynamic.py:16-22 | the cell after relaxing candidates 0 .. k-1 with strict `<`; HeldKarp.RelaxArgmin states that it is the first cheapest candidate |
| HeldKarp.Final | algorithms/dynamic.py:12-22 | the settled cell DP[T][x], parent[T][x]; HeldKarp.FinalTable, WalkIsPath and FinalOptimal state its meaning |
| HeldKarp.Walk | algorithms/dynamic.py:40-44 | the cities reached by following parent back from (S, u), ending at u; it has at least one city |
| Bitmask.SetBitBits | algorithms/dynamic.py:17-18 | S with bit k set (S OR 1 << k) has bit k set and every other bit as in S |
| Bitmask.FlipBitBits | algorithms/dynamic.py:43 | mask ^ (1 << k) toggles bit k and keeps every other bit |
| Bitmask.FlipBitSmaller | algorithms/dynamic.py:12-18 | clearing a set bit gives a smaller mask and setting a clear bit a larger one, equal to S with bit k set (S OR 1 << k); this is why the increasing order settles rows in time |
| Bitmask.FlipBitBound | algorithms/dynamic.py:17-18 | setting or toggling a bit below n keeps the mask below 1 << n, inside the table |
| Bitmask.FullMaskBits | algorithms/dynamic.py:25 | all_visited = (1 << n) - 1 has exactly the bits 0 .. n-1 |
| Bitmask.OneBits | algorithms/dynamic.py:10 | mask 1 has bit 0 and no other |
| Bitmask.MaskExt | algorithms/dynamic.py:7 | two masks below 1 << n with the same bits below n are equal |
| Bitmask.CitiesSetBit | algorithms/dynamic.py:18 | as a set of cities, S with bit k set (S OR 1 << k) is S plus k |
| Bitmask.CitiesFlipBit | algorithms/dynamic.py:43 | as a set of cities, mask ^ (1 << k) for a city k of the mask is the mask minus k |
| Bitmask.CitiesFullMask | algorithms/dynamic.py:25 | all_visited stands for the set of all n cities |
| Bitmask.CitiesOne | algorithms/dynamic.py:10 | mask 1 stands for the set {0} |
| Bitmask.CitiesDetermineMask | algorithms/dynamic.py:7 | a mask below 1 << n is determined by its set of cities |
| Bitmask.CitiesCount | algorithms/dynamic.py:40-43 | the number of set bits below n is the size of the mask's set of cities |
| Bitmask.CountFlipBit | algorithms/dynamic.py:43 | clearing a set bit below n lowers the number of cities by one |
| Bitmask.CountFullMask | algorithms/dynamic.py:25 | all_visited has n cities |
| Sample.SampleRun | algorithms/dynamic.py:52-64 | on the sample matrix the solver returns cost 80 and tour [0, 2, 3, 1, 0] |
| Sample.SampleClosing | algorithms/dynamic.py:29-33 | the sample's closing costs for cities 1, 2 and 3 are 80, 80 and 95, so the strict comparison keeps city 1 |
| Sample.SampleWalk | algorithms/dynamic.py:40-44 | on the sample the parent walk from (all cities, 1) is 0, 2, 3, 1 |

## Left out

- `algorithms/greedy.py` and `algorithms/exhaustive.py` are stubs. One returns `(inf, [])`, the other returns 1. There is no algorithm in them to model.
- The drivers and reports (`tests.py`, `_tests.py`, `summarize.py`, `_summarize.py`, `graph.py`, `_graph.py`) are not part of this model. They are random input generation, timing, file I/O, parsing, least-squares fitting and plotting.
- Floating point: distances are integers and `np.inf` is the `Inf` constructor. The code only adds distances and compares costs, and these are exact in the model.
- Memory exhaustion when allocating the `2^n x n` tables is not modelled.
- n = 0 and non-square input are preconditions (`|D| >= 1`, `IsMatrix`). The code raises an index error at `DP[1][0]` for n = 0, and it never checks the shape.
- Python's negative indexing and negative shifts are not modelled. If `last_city` stayed -1 while n >= 2, the first reconstruction step would read `parent[mask][-1]` (line 42) and then evaluate `1 << -1` (line 43), which raises ValueError in Python; the model proves `last_city >= 1` in that case, which rules out both.
- `list(map(int, path))` (line 48) only converts numpy integers to Python integers. The model's path is already a sequence of integers.
