# Drone routing: a verified model of the `Algorithms` core

The program routes delivery drones over a set of campus locations, in one of
three modes:

- **MST**: Prim's algorithm with linear scans builds a spanning tree. An edge
  between the Normal and the Medical campus is forbidden (its weight is the
  infinity sentinel). A Border location can join either campus. The mode is
  refused when Normal and Medical locations occur but no Border location does.
- **FASTTSP**: cheapest insertion. It starts from the triangle `[0, 1, 2]` and
  inserts each further location into the edge where it adds the least cost; a
  tie goes to the last such edge.
- **OPTTSP**: branch and bound over the permutations of the locations that
  start at 0. The FASTTSP tour seeds the bound, and the final cost is
  recomputed as a closed cycle over the distance matrix.

The model has four modules:

- `Geometry` (`geometry.dfy`): zones, coordinates, and the `Weight` type with
  its `Inf` sentinel. It also holds the distance helpers. The Euclidean length
  is an abstract function `len` on points.
- `Spanning` (`spanning.dfy`): the Prim table as a value, and the feasibility
  gate. It defines what a spanning tree under the adjacency rule is, and the
  invariant one round of Prim keeps.
- `Tours` (`tours.dfy`): tours as sequences, permutations, the
  cheapest-insertion choice and the tour FASTTSP builds. It holds both cycle
  costs and the search-tree bookkeeping of the branch and bound.
- `Algorithms` (`algorithms.dfy`): the class `Algorithms`. Its fields are the
  zone flags, `totalWeight`, `droneLocations`, `primTable`, `partialTour`,
  `upperBound`, `bestPath` and `distanceMatrix`. Its methods update those
  fields in place, as the C++ member functions do.

## Model

| member | source | states |
|---|---|---|
| Geometry.ZoneOf | Algorithms.h:131-147 | Medical exactly in the open third quadrant; Normal exactly when a coordinate is positive; Border exactly on the non-positive half-axes |
| Geometry.CalculateDistance | Algorithms.h:150-166 | the MST weight is `Inf` exactly for a Normal/Medical pair (exactly when the zones are not adjacent); otherwise it is the plain distance |
| Geometry.CostSymmetric | Algorithms.h:188-191 | `CalculateCost` (the TSP distance `calculateCost`) and `CalculateDistance` (the MST weight) are the same in both directions |
| Geometry.CostOfSamePlace | Algorithms.h:188-191 | two locations at the same coordinates are at distance 0; when both are classified, their MST weight is finite 0 |
| Geometry.CostNonNegative | Algorithms.h:150-166 | distances are never negative, and the MST weight is at least 0 in the order where `Inf` is largest |
| Geometry.NewCostSymmetric | Algorithms.h:194-196 | `CalculateNewCost` (the insertion delta `calculateNewCost`, cost(i,k) + cost(j,k) - cost(i,j)) does not depend on which end of the edge comes first |
| Geometry.NewCostAtEndpoint | Algorithms.h:194-196 | by `CalculateNewCost`, inserting a location at the place of an edge endpoint adds nothing |
| Geometry.WeightOrder | Algorithms.cpp:113-130 | the comparison with the infinity sentinel is a total preorder, and `<` implies `<=` |
| Algorithms.Algorithms.constructor | Algorithms.h:68-71 | the member initialisers: no flag raised, weight 0, and no locations, table or tours yet |
| Algorithms.Algorithms.CategorizeLocation | Algorithms.h:131-147 | returns the zone of (x, y) and raises the flag of that zone only; no flag is ever cleared |
| Algorithms.Algorithms.ReadLocations | Algorithms.cpp:59-65 | appends each pair, classified, after the existing locations; afterwards every location is classified and each flag is true exactly when its zone occurs |
| Spanning.HasZoneAppend | Algorithms.cpp:62-64 | a zone occurs after an append exactly when it occurred before or is the appended location's zone |
| Algorithms.Algorithms.CheckMstPossible | Algorithms.h:180-185 | accepts exactly the feasible zone mixes; with at least one location, it accepts exactly when a spanning tree of legal edges exists |
| Spanning.FeasibleIffSpanningTree | Algorithms.h:180-185 | the gate's condition holds if and only if some parent column spans the locations with a rooted tree of legal edges |
| Spanning.ClimbReachesRoot | Algorithms.h:180-185 | following parents from any vertex reaches the root 0 once the number of steps reaches the vertex's rank |
| Spanning.ClimbKeepsZone | Algorithms.h:180-185 | without Border locations every tree edge stays inside one zone, so climbing keeps the zone |
| Algorithms.Algorithms.CalculateTotalWeight | Algorithms.h:169-177 | subtracts the old key when it is finite and adds the new distance; when the weight equaled the sum of finite keys, it equals that sum again once the key is set |
| Spanning.SumKeysUpdate | Algorithms.h:169-177 | for `SumKeys` (the sum of the finite keys, which `totalWeight` tracks), replacing one row changes the sum of finite keys by exactly the difference of the finite parts of the two keys |
| Spanning.FreshKeysSum | Algorithms.cpp:96 | `FreshTable` (the table `resize` creates from an empty vector: unvisited rows, key `Inf`, parent 0) has no finite key, so its key sum is 0 |
| Spanning.SelectVertex | Algorithms.cpp:107-118 | when some unvisited row has a finite key, it returns an unvisited row whose key is minimal among all unvisited rows, and strictly smaller than every earlier unvisited key; otherwise the previous vertex stays |
| Spanning.Mark | Algorithms.cpp:121 | only the chosen row changes, and only its visited bit becomes true |
| Spanning.Relax | Algorithms.cpp:125-138 | each row is `RelaxRow` of the old one (the body of the relaxation loop); relaxation never raises a key or changes a visited bit; a changed row was unvisited, got a strictly smaller key, and has the current vertex as parent |
| Algorithms.Algorithms.RelaxFrom | Algorithms.cpp:125-138 | the table becomes `Relax` of the old table, and `totalWeight` stays the sum of the finite keys |
| Spanning.PrimInvInit | Algorithms.cpp:96-99 | the table with root key 0 and no vertex visited satisfies the Prim invariant |
| Spanning.CandidateExists | Algorithms.cpp:106-118 | on a feasible input, while some vertex is unvisited, some unvisited vertex has a finite key (the selection never falls back on a stale vertex) |
| Spanning.PrimStepTreeEdges | Algorithms.cpp:125-138 | after a round, every finite key is the legal edge to a parent visited earlier |
| Spanning.PrimStepKeysBounded | Algorithms.cpp:125-138 | after a round, no unvisited key exceeds the distance from any visited vertex |
| Spanning.PrimStep | Algorithms.cpp:106-138 | one round (select, mark, relax) keeps the Prim invariant, with one more vertex visited |
| Spanning.PrimDone | Algorithms.cpp:106-139 | after N rounds every vertex is visited, the parents form a spanning tree of legal edges rooted at 0, and each non-root key is its tree edge |
| Spanning.SumKeysIsTreeWeight | Algorithms.cpp:132 | when every key is its tree edge, the running sum of keys `SumKeys` is `TreeWeight`, the sum of the tree's edge distances |
| Algorithms.Algorithms.PrimRound | Algorithms.cpp:106-138 | on a feasible input, picks an unvisited vertex with a finite key that is minimal among the unvisited keys and strictly below every earlier unvisited key (lowest index on ties), applies mark then relax, and keeps both the invariant and `totalWeight` equal to the sum of keys |
| Algorithms.Algorithms.MstAlgorithm | Algorithms.cpp:94-140 | on a feasible input, every location ends visited; the parent column is a spanning tree of legal edges rooted at 0; each non-root key is its tree edge; `totalWeight` is the tree's weight |
| Algorithms.Algorithms.ProcessMst | Algorithms.cpp:71-73 | reports failure exactly on infeasible inputs and then leaves the state alone; otherwise it yields the spanning tree and its weight |
| Tours.InsertAt | Algorithms.cpp:187 | puts `k` at the index; what was before the index stays, and what was from the index on moves up by one |
| Tours.InsertKeepsPermutation | Algorithms.cpp:187 | inserting `n` into a permutation of 0..n-1 gives a permutation of 0..n |
| Tours.Swap | Algorithms.cpp:251 | exchanges two positions and keeps all others |
| Tours.SwapFacts | Algorithms.cpp:257 | a swap keeps the multiset; the second swap restores the tour; the prefix before the lower index is untouched |
| Tours.PermutationFacts | Algorithms.cpp:163-188 | a permutation of 0..n-1 has length n, entries below n, and no repeated entry |
| Tours.Successor | Algorithms.cpp:178 | the next position on the cycle is always a valid position |
| Tours.SuccessorIsModulo | Algorithms.cpp:178 | the next position is `(m + 1) % n`, as the program writes it |
| Tours.LastMinimumIsLastMinimum | Algorithms.cpp:177-185 | the position `LastMinimum` (the scan over the costs, moving on `<=`) chooses has the least delta, and every later edge has a strictly greater delta (the scan's `<=` makes the last minimum win) |
| Tours.LastMinimumUnique | Algorithms.cpp:177-185 | the last-minimum position is the only one with both of those properties |
| Tours.CheapestEdgeIsCheapest | Algorithms.cpp:173-185 | the edge `CheapestEdge` chooses among `InsertionCosts` (one delta per cycle edge `(t[m], t[(m + 1) % size])`) has the least delta, and every later edge a strictly greater one |
| Tours.CheapestInsertion | Algorithms.cpp:173-185 | returns the position after the edge of least delta, with every later edge strictly costlier |
| Tours.FastTourFromFacts | Algorithms.cpp:171-188 | `FastTourFrom` (insert k, k+1, ..., N-1 each at its cheapest edge): completing a permutation of the first k locations by insertion yields a permutation of all locations that still starts at 0 |
| Tours.FastTourIsPermutation | Algorithms.cpp:161-188 | with at least three locations, `FastTour` (the FASTTSP tour, `FastTourFrom` applied to [0, 1, 2]) visits every location exactly once and starts at 0 |
| Tours.FastProgressInit | Algorithms.cpp:163-165 | the triangle [0, 1, 2] is the starting state of FASTTSP |
| Tours.FastProgressStep | Algorithms.cpp:171-188 | inserting location k at its cheapest position is one step toward the FASTTSP tour, and the tour stays a permutation from 0 |
| Tours.FastProgressDone | Algorithms.cpp:171-188 | when every location has been inserted, the buffer is the FASTTSP tour |
| Algorithms.Algorithms.FastTspAlgorithm | Algorithms.cpp:161-189 | on an empty buffer, leaves the FASTTSP tour in `partialTour`; with at least three locations, the tour is a permutation that starts at 0 |
| Tours.PrefixCostOfPrefix | Algorithms.cpp:252 | `PrefixCost` (the sum of the edges `mat[t[p]][t[p - 1]]` that `genPerms` adds along the prefix) depends only on that prefix |
| Tours.EdgeSumIsPrefixCost | Algorithms.cpp:226-229 | on a symmetric matrix, `EdgeSum`, the forward sum over the first i edges (`CycleCost` is the sum over all of them), equals the search's reversed prefix sum |
| Tours.SearchCostIsCycleCost | Algorithms.cpp:236 | on a symmetric matrix, for a tour from 0, `SearchCycleCost`, the cost the search sees at a leaf (prefix plus the edge back to 0) is the closed-cycle cost |
| Tours.CompletesAll | Algorithms.cpp:234 | the only completion of a whole tour is the tour itself |
| Tours.CompletesNext | Algorithms.cpp:250 | every completion of a prefix continues with one of the locations not yet placed |
| Tours.CompletesAfterSwap | Algorithms.cpp:250-252 | a completion whose next location is t[i] is a completion of the swapped tour one position further |
| Tours.SwapKeepsPrefix | Algorithms.cpp:251 | swapping at or after position L keeps the tour a permutation and keeps its first L entries |
| Tours.ExploredNone | Algorithms.cpp:250 | before the loop, no child has been explored |
| Tours.ExploredStep | Algorithms.cpp:250-258 | once child i is searched under a bound that only fell, all completions starting with t[L..i] are covered |
| Tours.ExploredAll | Algorithms.cpp:250-258 | after every child, no completion of the prefix costs less than the bound |
| Tours.DominatesLeaf | Algorithms.cpp:234-243 | at a leaf, the bound after the comparison is at most the tour's cost |
| Tours.DominatesPruned | Algorithms.cpp:246-248 | under a sound pruning test, a rejected prefix has no completion below the bound |
| Tours.BestSoFarStep | Algorithms.cpp:250-258 | the bound and best-tour bookkeeping of a child subtree composes with the parent's |
| Tours.SearchOutcome | Algorithms.cpp:221-223 | after the search from [0], the best tour is the seed or is strictly cheaper than the seed weight; it costs no more than the seed when the seed weight is the seed's cost; it is a cheapest cycle from 0 when, in addition, the search covered every tour |
| Tours.SwapPrefixCost | Algorithms.cpp:251-252 | after the swap, the accumulated cost plus the new edge is the prefix cost one position further |
| Algorithms.Algorithms.GenPerms | Algorithms.cpp:233-259 | restores the buffer and the weight; the bound never rises, and a new best tour keeps the prefix and costs the bound; under a sound pruning test, no completion of the prefix costs less than the final bound |
| Algorithms.Algorithms.SearchChildren | Algorithms.cpp:250-258 | the loop over the remaining locations at position L, with the bookkeeping of `GenPerms` |
| Algorithms.Algorithms.TryCandidate | Algorithms.cpp:251-257 | swap, add the edge, search, take the edge off, swap back: the buffer and the weight are restored, and the bookkeeping is that of the swapped subtree |
| Algorithms.Algorithms.SearchFromSeed | Algorithms.cpp:216-223 | seeds the bound and the best tour, then searches; the buffer is unchanged; the best tour is a permutation from 0, equal to the seed or strictly cheaper than the seed weight; it is optimal when the seed weight is exact and the pruning test is sound |
| Algorithms.Algorithms.CycleWeight | Algorithms.cpp:226-229 | `totalWeight` becomes `CycleCost` of `bestPath`, the closed-cycle cost that `EdgeSumIsPrefixCost` and `SearchCostIsCycleCost` tie to the costs the search compares |
| Algorithms.Algorithms.OptTspAlgorithm | Algorithms.cpp:211-230 | the buffer is the FASTTSP tour; the best tour is a permutation from 0 whose reported weight is its cycle cost, and it is the seed or strictly cheaper than the seed weight; it is a cheapest cycle when the seed weight is the FASTTSP tour's cost and the pruning test never discards a better tour |

## Left out

- Command-line parsing (`getOptions`, `setMode`), the reading loop's stream I/O and the `print*` functions are not modelled. `drone.cpp` is not part of this model. `ReadLocations` takes the coordinate pairs already read.
- Floating point: distances are an abstract function `len` on points instead of `sqrt` on doubles. The model needs only that `len` is zero on a point, non-negative and symmetric (`IsLength`). Weights are real numbers, so there is no IEEE rounding. `INF` is the explicit `Inf` case of `Weight`.
- The coordinate differences `B.x - A.x` are computed on `int` in C++ and can overflow. The model's coordinates are unbounded integers.
- `promising` is not part of this model. It is a function-valued parameter. Optimality of OPTTSP is proved only under `SoundBound`: the test never rejects a prefix that some completion beats.
- `processDistanceMatrix` is not part of this model. `OptTspAlgorithm` takes the matrix as a parameter, which must be square and symmetric.
- The zero-argument `calculateTotalWeight()` is not part of this model. The seed weight it leaves in `totalWeight` is the parameter `seedWeight`. The contracts relate the result to it, and they give the stronger statement when it is the FASTTSP tour's cycle cost.
- `numLocations` is not modelled: the model uses the number of locations read. A mismatch with the header count is not captured.
- Algorithms.Algorithms.MstAlgorithm: proves a spanning tree of legal edges whose weight is reported, but not that this tree is minimal. `MstAlgorithm` requires a feasible input: the program exits at the gate before running on an infeasible one, where the selection would reuse a stale vertex. It requires an empty table, which the constructor and the program guarantee; `resize` on a non-empty table would keep its old rows.
- Algorithms.Algorithms.ProcessMst: wraps `MstAlgorithm`, so its tree is likewise not proved minimal, and it likewise requires an empty table.
- Algorithms.Algorithms.FastTspAlgorithm: with fewer than three locations, the model states only that the buffer is [0, 1, 2], as the code leaves it. The code does not refuse fewer than three locations, and later indexing of missing locations is outside the model.
- Tours.CheapestInsertion: the `uint32_t` cast of the insertion index is not modelled. Indices are unbounded naturals.
- The class is split into more methods than the C++ has, to keep each proof small: `PrimRound` is the body of the Prim loop; `SearchChildren` and `TryCandidate` are the loop of `genPerms` and one pass of it; `SearchFromSeed` and `CycleWeight` are the two halves of `opttspAlgorithm`. The statements of the program are kept in their order, with one exception: `timesTrue` is incremented after the relaxation loop instead of between marking and relaxing; the relaxation does not read it.
- The FASTTSP tie rule follows the test, not the comment: the comment at Algorithms.cpp:180 says "smaller", but the test at Algorithms.cpp:181 is `<=`, so the last edge with the least delta wins.
