/**
  Tours as sequences of location indices: what a permutation of the locations
  is, the cheapest-insertion choice of FASTTSP, and the two ways the program adds
  up the cost of a closed cycle over the distance matrix.
 */
module Tours {
  import opened Geometry

  // ---------------------------------------------------------------------------
  // Permutations
  // ---------------------------------------------------------------------------

  /** The indices 0, 1, ..., n-1 in order. */
  function Range(n: nat): (r: seq<int>)
    ensures |r| == n
    ensures forall i :: 0 <= i < n ==> r[i] == i
  {
    seq(n, i => i)
  }

  /** Every entry of `t` is an index below `n`. */
  predicate Within(t: seq<int>, n: nat) {
    forall i :: 0 <= i < |t| ==> 0 <= t[i] < n
  }

  /** `t` is an ordering of the indices 0..n-1: it holds them as often as `Range(n)` does. */
  ghost predicate IsPermutation(t: seq<int>, n: nat) {
    |t| == n && Within(t, n) && multiset(t) == multiset(Range(n))
  }

  lemma {:induction false} RangeOccursOnce(n: nat, x: int)
    ensures multiset(Range(n))[x] == if 0 <= x < n then 1 else 0
  {
    if n > 0 {
      assert Range(n) == Range(n - 1) + [n - 1];
      RangeOccursOnce(n - 1, x);
    }
  }

  lemma CountTwo(t: seq<int>, i: int, j: int)
    requires 0 <= i < j < |t| && t[i] == t[j]
    ensures multiset(t)[t[i]] >= 2
  {
    assert t == t[..i] + [t[i]] + t[i + 1..j] + [t[j]] + t[j + 1..];
  }

  /** A permutation of 0..n-1 has length n, holds only indices below n, and repeats none. */
  lemma PermutationFacts(t: seq<int>, n: nat)
    requires IsPermutation(t, n)
    ensures |t| == n && Within(t, n)
    ensures forall i, j :: 0 <= i < j < |t| ==> t[i] != t[j]
  {
    assert |t| == |multiset(t)| == |multiset(Range(n))| == n;
    forall i | 0 <= i < |t|
      ensures 0 <= t[i] < n
    {
      assert t[i] in multiset(t);
      RangeOccursOnce(n, t[i]);
    }
    forall i, j | 0 <= i < j < |t|
      ensures t[i] != t[j]
    {
      if t[i] == t[j] {
        CountTwo(t, i, j);
        RangeOccursOnce(n, t[i]);
      }
    }
  }

  /** `t` with `k` inserted before position `index` (`vector::insert`). */
  function InsertAt(t: seq<int>, index: nat, k: int): (r: seq<int>)
    requires index <= |t|
    ensures |r| == |t| + 1 && r[index] == k
    ensures r[..index] == t[..index] && r[index + 1..] == t[index..]
  {
    t[..index] + [k] + t[index..]
  }

  /** Inserting the next city `n` into a permutation of 0..n-1 gives a permutation of 0..n. */
  lemma InsertKeepsPermutation(t: seq<int>, n: nat, index: nat)
    requires IsPermutation(t, n) && index <= |t|
    ensures IsPermutation(InsertAt(t, index, n), n + 1)
  {
    assert t == t[..index] + t[index..];
    assert Range(n + 1) == Range(n) + [n];
    var r := InsertAt(t, index, n);
    forall i | 0 <= i < |r|
      ensures 0 <= r[i] < n + 1
    {
      if i < index {
        assert r[i] == r[..index][i];
      } else if i > index {
        assert r[i] == r[index + 1..][i - index - 1];
      }
    }
  }

  /** Exchanging two entries (`std::swap`). */
  function Swap(t: seq<int>, i: int, j: int): (r: seq<int>)
    requires 0 <= i < |t| && 0 <= j < |t|
    ensures |r| == |t| && r[i] == t[j] && r[j] == t[i]
    ensures forall x :: 0 <= x < |t| && x != i && x != j ==> r[x] == t[x]
  {
    t[i := t[j]][j := t[i]]
  }

  /** A swap keeps the multiset, and a second swap of the same positions undoes it. */
  lemma SwapFacts(t: seq<int>, i: int, j: int)
    requires 0 <= i < |t| && 0 <= j < |t|
    ensures multiset(Swap(t, i, j)) == multiset(t)
    ensures Swap(Swap(t, i, j), i, j) == t
    ensures i <= j ==> Swap(t, i, j)[..i] == t[..i]
  {
    var r := Swap(t, i, j);
    if i <= j {
      assert r[..i] == t[..i];
    }
  }

  // ---------------------------------------------------------------------------
  // Cheapest insertion (FASTTSP)
  // ---------------------------------------------------------------------------

  /** The position after `m` on a cycle of length `n`; the program writes it `(m + 1) % n`. */
  function Successor(m: int, n: int): (r: int)
    requires 0 <= m < n
    ensures 0 <= r < n
  {
    if m + 1 < n then m + 1 else 0
  }

  lemma SuccessorIsModulo(m: int, n: int)
    requires 0 <= m < n
    ensures Successor(m, n) == (m + 1) % n
  {
  }

  /** The cost of inserting city `k` on the cycle edge (t[m], t[(m + 1) mod |t|]). */
  function EdgeInsertionCost(len: Length, locs: seq<Coordinate>, t: seq<int>, m: int, k: int): real
    requires 0 <= m < |t| && Within(t, |locs|) && 0 <= k < |locs|
  {
    CalculateNewCost(len, locs[t[m]], locs[t[Successor(m, |t|)]], locs[k])
  }

  /** The insertion cost of every cycle edge, edge m being (t[m], t[(m + 1) mod |t|]). */
  function InsertionCosts(len: Length, locs: seq<Coordinate>, t: seq<int>, k: int): (c: seq<real>)
    requires Within(t, |locs|) && 0 <= k < |locs|
    ensures |c| == |t|
    ensures forall m :: 0 <= m < |t| ==> c[m] == EdgeInsertionCost(len, locs, t, m, k)
  {
    seq(|t|, m requires 0 <= m < |t| => EdgeInsertionCost(len, locs, t, m, k))
  }

  /**
    The position a left-to-right scan of c[0..m] settles on when it starts from
    position 0 and moves on `<=`, as the inner scan of `fasttspAlgorithm` does.
   */
  function LastMinimum(c: seq<real>, m: nat): (b: nat)
    requires m < |c|
    ensures b <= m
  {
    if m == 0 then 0
    else
      var b := LastMinimum(c, m - 1);
      if c[m] <= c[b] then m else b
  }

  /**
    The scan settles on a minimum of c[0..m], and every later entry is strictly
    larger: the last position that reaches the minimum wins.
   */
  lemma {:induction false} LastMinimumIsLastMinimum(c: seq<real>, m: nat)
    requires m < |c|
    ensures forall j :: 0 <= j <= m ==> c[LastMinimum(c, m)] <= c[j]
    ensures forall j :: LastMinimum(c, m) < j <= m ==> c[LastMinimum(c, m)] < c[j]
  {
    if m > 0 {
      LastMinimumIsLastMinimum(c, m - 1);
    }
  }

  /** The two properties above determine the scan's result. */
  lemma LastMinimumUnique(c: seq<real>, m: nat, b: nat)
    requires b <= m < |c|
    requires forall j :: 0 <= j <= m ==> c[b] <= c[j]
    requires forall j :: b < j <= m ==> c[b] < c[j]
    ensures b == LastMinimum(c, m)
  {
    LastMinimumIsLastMinimum(c, m);
  }

  /** The edge after whose first endpoint city `k` is inserted. */
  function CheapestEdge(len: Length, locs: seq<Coordinate>, t: seq<int>, k: int): (b: nat)
    requires |t| >= 1 && Within(t, |locs|) && 0 <= k < |locs|
    ensures b < |t|
  {
    LastMinimum(InsertionCosts(len, locs, t, k), |t| - 1)
  }

  /**
    The edge `CheapestEdge` chooses has the least insertion cost, and every edge
    after it costs strictly more.
   */
  lemma CheapestEdgeIsCheapest(len: Length, locs: seq<Coordinate>, t: seq<int>, k: int)
    requires |t| >= 1 && Within(t, |locs|) && 0 <= k < |locs|
    ensures var b := CheapestEdge(len, locs, t, k);
      && (forall m :: 0 <= m < |t| ==> EdgeInsertionCost(len, locs, t, b, k) <= EdgeInsertionCost(len, locs, t, m, k))
      && (forall m :: b < m < |t| ==> EdgeInsertionCost(len, locs, t, b, k) < EdgeInsertionCost(len, locs, t, m, k))
  {
    LastMinimumIsLastMinimum(InsertionCosts(len, locs, t, k), |t| - 1);
  }

  /**
    The inner scan of `fasttspAlgorithm`: the index at which city
    `k` is inserted, one past the first endpoint of the chosen edge. The edge
    (last, first) is scanned too, so the index may be `|t|`. The chosen edge has
    the least insertion cost, and every edge scanned after it costs strictly more.
   */
  method CheapestInsertion(len: Length, locs: seq<Coordinate>, t: seq<int>, k: int) returns (index: nat)
    requires |t| >= 2 && Within(t, |locs|) && 0 <= k < |locs|
    ensures 1 <= index <= |t|
    ensures index == CheapestEdge(len, locs, t, k) + 1
    ensures forall m :: 0 <= m < |t| ==>
      EdgeInsertionCost(len, locs, t, index - 1, k) <= EdgeInsertionCost(len, locs, t, m, k)
    ensures forall m :: index - 1 < m < |t| ==>
      EdgeInsertionCost(len, locs, t, index - 1, k) < EdgeInsertionCost(len, locs, t, m, k)
  {
    ghost var costs := InsertionCosts(len, locs, t, k);
    var minCost := EdgeInsertionCost(len, locs, t, 0, k);
    index := 1;
    var m := 1;
    while m < |t|
      invariant 1 <= index <= m <= |t|
      invariant minCost == costs[index - 1]
      invariant forall j :: 0 <= j < m ==> costs[index - 1] <= costs[j]
      invariant forall j :: index - 1 < j < m ==> costs[index - 1] < costs[j]
    {
      var newCost := EdgeInsertionCost(len, locs, t, m, k);
      if newCost <= minCost {
        minCost := newCost;
        index := m + 1;
      }
      m := m + 1;
    }
    LastMinimumUnique(costs, |t| - 1, index - 1);
  }

  /** Insert the cities k, k+1, ..., N-1 one after the other at their cheapest position. */
  function FastTourFrom(len: Length, locs: seq<Coordinate>, t: seq<int>, k: nat): seq<int>
    requires |t| >= 2 && Within(t, |locs|)
    decreases |locs| - k
  {
    if k >= |locs| then t
    else
      FastTourFrom(len, locs, InsertAt(t, CheapestEdge(len, locs, t, k) + 1, k), k + 1)
  }

  /** The tour FASTTSP builds: the triangle [0, 1, 2], then cities 3..N-1 by cheapest insertion. */
  function FastTour(len: Length, locs: seq<Coordinate>): seq<int> {
    if |locs| < 3 then [0, 1, 2] else FastTourFrom(len, locs, [0, 1, 2], 3)
  }

  lemma {:induction false} FastTourFromFacts(len: Length, locs: seq<Coordinate>, t: seq<int>, k: nat)
    requires |t| >= 2 && IsPermutation(t, k) && k <= |locs| && t[0] == 0
    ensures Within(t, |locs|)
    ensures var r := FastTourFrom(len, locs, t, k); IsPermutation(r, |locs|) && r[0] == 0
    decreases |locs| - k
  {
    PermutationFacts(t, k);
    if k < |locs| {
      var index := CheapestEdge(len, locs, t, k) + 1;
      InsertKeepsPermutation(t, k, index);
      FastTourFromFacts(len, locs, InsertAt(t, index, k), k + 1);
    }
  }

  /**
    With at least three locations, the FASTTSP tour visits every location exactly
    once and starts at location 0.
   */
  lemma FastTourIsPermutation(len: Length, locs: seq<Coordinate>)
    requires |locs| >= 3
    ensures IsPermutation(FastTour(len, locs), |locs|)
    ensures FastTour(len, locs)[0] == 0
  {
    assert [0, 1, 2] == Range(3);
    FastTourFromFacts(len, locs, [0, 1, 2], 3);
  }

  /**
    The state of FASTTSP before city `k` is inserted: `t` is a tour of the cities
    0..k-1 from city 0, and finishing the insertions from it gives `FastTour`.
   */
  ghost predicate FastProgress(len: Length, locs: seq<Coordinate>, t: seq<int>, k: nat) {
    && 3 <= k <= |locs| && IsPermutation(t, k) && t[0] == 0 && Within(t, |locs|)
    && FastTourFrom(len, locs, t, k) == FastTour(len, locs)
  }

  lemma FastProgressInit(len: Length, locs: seq<Coordinate>)
    requires |locs| >= 3
    ensures FastProgress(len, locs, [0, 1, 2], 3)
  {
    assert [0, 1, 2] == Range(3);
  }

  /** Inserting city `k` at its cheapest position is one step of FASTTSP. */
  lemma FastProgressStep(len: Length, locs: seq<Coordinate>, t: seq<int>, k: nat, index: nat)
    requires FastProgress(len, locs, t, k) && k < |locs| && index == CheapestEdge(len, locs, t, k) + 1
    ensures FastProgress(len, locs, InsertAt(t, index, k), k + 1)
  {
    InsertKeepsPermutation(t, k, index);
    var r := InsertAt(t, index, k);
    assert r[0] == r[..index][0];
    assert FastTourFrom(len, locs, t, k) == FastTourFrom(len, locs, r, k + 1);
  }

  /** Once every city is inserted, the tour is `FastTour`. */
  lemma FastProgressDone(len: Length, locs: seq<Coordinate>, t: seq<int>)
    requires FastProgress(len, locs, t, |locs|)
    ensures t == FastTour(len, locs)
    ensures IsPermutation(t, |locs|) && t[0] == 0
  {
  }

  // ---------------------------------------------------------------------------
  // Cycle costs over the distance matrix (OPTTSP)
  // ---------------------------------------------------------------------------

  /** An n-by-n matrix. */
  ghost predicate IsSquare(mat: seq<seq<real>>, n: nat) {
    |mat| == n && forall i :: 0 <= i < n ==> |mat[i]| == n
  }

  ghost predicate Symmetric(mat: seq<seq<real>>)
    requires IsSquare(mat, |mat|)
  {
    forall i, j :: 0 <= i < |mat| && 0 <= j < |mat| ==> mat[i][j] == mat[j][i]
  }

  /** The forward edges (t[j], t[(j + 1) mod |t|]) for j < i, summed: the final loop of `opttspAlgorithm`. */
  function EdgeSum(mat: seq<seq<real>>, t: seq<int>, i: nat): real
    requires IsSquare(mat, |mat|) && Within(t, |mat|) && i <= |t|
  {
    if i == 0 then 0.0 else EdgeSum(mat, t, i - 1) + mat[t[i - 1]][t[Successor(i - 1, |t|)]]
  }

  /** The cost of the closed cycle `t`, first to last and back to the first. */
  function CycleCost(mat: seq<seq<real>>, t: seq<int>): real
    requires IsSquare(mat, |mat|) && Within(t, |mat|)
  {
    EdgeSum(mat, t, |t|)
  }

  /**
    The cost `genPerms` accumulates for the fixed prefix t[..L]: each placement at
    position p adds mat[t[p]][t[p - 1]] (the step before the recursive call in `genPerms`).
   */
  function PrefixCost(mat: seq<seq<real>>, t: seq<int>, L: nat): real
    requires IsSquare(mat, |mat|) && Within(t, |mat|) && 1 <= L <= |t|
  {
    if L == 1 then 0.0 else PrefixCost(mat, t, L - 1) + mat[t[L - 1]][t[L - 2]]
  }

  /** The cost a leaf of `genPerms` compares: the prefix cost plus the edge back to location 0. */
  function SearchCycleCost(mat: seq<seq<real>>, t: seq<int>): real
    requires IsSquare(mat, |mat|) && Within(t, |mat|) && |t| >= 1
  {
    PrefixCost(mat, t, |t|) + mat[t[|t| - 1]][0]
  }

  /** The prefix cost depends on the prefix alone. */
  lemma {:induction false} PrefixCostOfPrefix(mat: seq<seq<real>>, t: seq<int>, u: seq<int>, L: nat)
    requires IsSquare(mat, |mat|) && Within(t, |mat|) && Within(u, |mat|)
    requires 1 <= L <= |t| && L <= |u| && t[..L] == u[..L]
    ensures PrefixCost(mat, t, L) == PrefixCost(mat, u, L)
  {
    if L > 1 {
      assert t[L - 1] == t[..L][L - 1] && t[L - 2] == t[..L][L - 2];
      assert u[L - 1] == u[..L][L - 1] && u[L - 2] == u[..L][L - 2];
      assert t[..L - 1] == t[..L][..L - 1];
      assert u[..L - 1] == u[..L][..L - 1];
      PrefixCostOfPrefix(mat, t, u, L - 1);
    }
  }

  lemma {:induction false} EdgeSumIsPrefixCost(mat: seq<seq<real>>, t: seq<int>, i: nat)
    requires IsSquare(mat, |mat|) && Symmetric(mat) && Within(t, |mat|) && i < |t|
    ensures EdgeSum(mat, t, i) == PrefixCost(mat, t, i + 1)
  {
    if i > 0 {
      EdgeSumIsPrefixCost(mat, t, i - 1);
    }
  }

  /**
    On a symmetric matrix, for a tour that starts at location 0, the cost the
    search compares is the closed-cycle cost recomputed at the end.
   */
  lemma SearchCostIsCycleCost(mat: seq<seq<real>>, t: seq<int>)
    requires IsSquare(mat, |mat|) && Symmetric(mat) && Within(t, |mat|) && |t| >= 1 && t[0] == 0
    ensures SearchCycleCost(mat, t) == CycleCost(mat, t)
  {
    EdgeSumIsPrefixCost(mat, t, |t| - 1);
  }

  // ---------------------------------------------------------------------------
  // Completions and sound pruning (OPTTSP)
  // ---------------------------------------------------------------------------

  /** `u` is a tour of the same locations as `t` that keeps the prefix t[..L]. */
  ghost predicate Completes(u: seq<int>, t: seq<int>, L: nat) {
    IsPermutation(u, |t|) && L <= |t| && u[..L] == t[..L]
  }

  /**
    The pruning test of the permutation search, given the state it may consult:
    the tour buffer, the length of the fixed prefix, the cost accumulated for that
    prefix and the best cost found so far.
   */
  type Promising = (seq<int>, nat, real, real) -> bool

  /**
    What the pruning test must guarantee for the search to stay exact: it may
    reject a prefix t[..L] (whose accumulated cost is PrefixCost) against a bound
    `b` only when no tour keeping that prefix costs less than `b`.
   */
  ghost predicate SoundBound(mat: seq<seq<real>>, promising: Promising)
    requires IsSquare(mat, |mat|)
  {
    forall t: seq<int>, L: nat, u: seq<int> {:trigger Completes(u, t, L)} ::
      IsPermutation(t, |mat|) && 1 <= L <= |t| && Completes(u, t, L) ==>
        forall b :: !promising(t, L, PrefixCost(mat, t, L), b) ==> b <= SearchCycleCost(mat, u)
  }

  /** A tour keeping the whole of `t` is `t` itself. */
  lemma CompletesAll(u: seq<int>, t: seq<int>)
    requires Completes(u, t, |t|)
    ensures u == t
  {
    PermutationFacts(u, |t|);
    assert u == u[..|t|];
  }

  /**
    A tour keeping t[..L] places at position L one of the entries t[L..], and
    it keeps the longer prefix of `t` with that entry swapped into position L.
   */
  lemma CompletesNext(u: seq<int>, t: seq<int>, L: nat)
    requires IsPermutation(t, |t|) && Completes(u, t, L) && L < |t|
    ensures u[L] in t[L..]
  {
    PermutationFacts(u, |t|);
    PermutationFacts(t, |t|);
    RangeOccursOnce(|t|, u[L]);
    assert u[L] in multiset(t);
    var j :| 0 <= j < |t| && t[j] == u[L];
    assert forall x :: 0 <= x < L ==> u[x] == u[..L][x] == t[..L][x] == t[x];
    assert t[L..][j - L] == u[L];
  }

  lemma CompletesAfterSwap(u: seq<int>, t: seq<int>, L: nat, i: nat)
    requires IsPermutation(t, |t|) && Completes(u, t, L) && L <= i < |t| && u[L] == t[i]
    ensures IsPermutation(Swap(t, L, i), |t|)
    ensures Completes(u, Swap(t, L, i), L + 1)
  {
    var s := Swap(t, L, i);
    SwapFacts(t, L, i);
    PermutationFacts(u, |t|);
    assert s[..L + 1] == s[..L] + [s[L]];
    assert u[..L + 1] == u[..L] + [u[L]];
    assert s[..L] == t[..L];
  }

  /** Swapping two positions at or after L keeps the same completions of t[..L]. */
  lemma SwapKeepsPrefix(t: seq<int>, L: nat, i: nat)
    requires IsPermutation(t, |t|) && 1 <= L <= i < |t|
    ensures IsPermutation(Swap(t, L, i), |t|)
    ensures Swap(t, L, i)[..L] == t[..L]
  {
    SwapFacts(t, L, i);
    var s := Swap(t, L, i);
    forall x | 0 <= x < |s|
      ensures 0 <= s[x] < |t|
    {
      assert s[x] in multiset(t);
    }
  }

  /** Placing t[i] at position L adds the edge (t[i], t[L - 1]) to the prefix cost. */
  lemma SwapPrefixCost(mat: seq<seq<real>>, t: seq<int>, L: nat, i: nat)
    requires IsSquare(mat, |t|) && IsPermutation(t, |t|) && 1 <= L <= i < |t|
    ensures var s := Swap(t, L, i);
      IsPermutation(s, |t|) &&
      PrefixCost(mat, s, L + 1) == PrefixCost(mat, t, L) + mat[s[L]][s[L - 1]]
  {
    var s := Swap(t, L, i);
    SwapKeepsPrefix(t, L, i);
    PrefixCostOfPrefix(mat, s, t, L);
  }

  // ---------------------------------------------------------------------------
  // The state of the search
  // ---------------------------------------------------------------------------

  /**
    The best-tour bookkeeping of the search below the prefix t[..L], against its
    values `ub0`, `bp0` before: the bound never rose, the best tour is a tour
    from location 0, and either nothing changed, or the best tour is a new one
    that keeps the prefix and whose search cost is the new, strictly lower bound.
   */
  ghost predicate BestSoFar(mat: seq<seq<real>>, t: seq<int>, L: nat, ub0: real, bp0: seq<int>, ub: real, bp: seq<int>)
    requires IsSquare(mat, |mat|)
  {
    && IsPermutation(bp, |mat|) && |bp| >= 1 && bp[0] == 0 && ub <= ub0
    && (|| (ub == ub0 && bp == bp0)
        || (ub < ub0 && ub == SearchCycleCost(mat, bp) && L <= |t| == |mat| && bp[..L] == t[..L]))
  }

  /** Every tour keeping t[..L] costs at least `ub`. */
  ghost predicate Dominates(mat: seq<seq<real>>, t: seq<int>, L: nat, ub: real)
    requires IsSquare(mat, |mat|) && |t| == |mat| >= 1
  {
    forall u {:trigger Completes(u, t, L)} :: Completes(u, t, L) ==> ub <= SearchCycleCost(mat, u)
  }

  /** Every tour keeping t[..L] and placing one of t[L..i] at position L costs at least `ub`. */
  ghost predicate Explored(mat: seq<seq<real>>, t: seq<int>, L: nat, i: nat, ub: real)
    requires IsSquare(mat, |mat|) && |t| == |mat| && L < |t| && L <= i <= |t|
  {
    forall u {:trigger Completes(u, t, L)} :: Completes(u, t, L) && u[L] in t[L..i] ==> ub <= SearchCycleCost(mat, u)
  }

  /** Before the loop no choice for position L has been explored. */
  lemma ExploredNone(mat: seq<seq<real>>, t: seq<int>, L: nat, ub: real)
    requires IsSquare(mat, |mat|) && |t| == |mat| && L < |t|
    ensures Explored(mat, t, L, L, ub)
  {
  }

  /** A leaf: the only tour keeping all of `t` is `t`. */
  lemma DominatesLeaf(mat: seq<seq<real>>, t: seq<int>, ub: real)
    requires IsSquare(mat, |mat|) && |t| == |mat| >= 1 && IsPermutation(t, |t|)
    requires ub <= SearchCycleCost(mat, t)
    ensures Dominates(mat, t, |t|, ub)
  {
    forall u | Completes(u, t, |t|)
      ensures ub <= SearchCycleCost(mat, u)
    {
      CompletesAll(u, t);
    }
  }

  /** A prefix a sound test rejects has no completion below the bound. */
  lemma DominatesPruned(mat: seq<seq<real>>, t: seq<int>, L: nat, ub: real, promising: Promising)
    requires IsSquare(mat, |mat|) && SoundBound(mat, promising)
    requires IsPermutation(t, |mat|) && 1 <= L <= |t|
    requires !promising(t, L, PrefixCost(mat, t, L), ub)
    ensures Dominates(mat, t, L, ub)
  {
  }

  /**
    Exploring the subtree with t[i] swapped into position L, under a bound that
    only fell, extends the explored choices by t[i].
   */
  lemma ExploredStep(mat: seq<seq<real>>, t: seq<int>, L: nat, i: nat, ub1: real, ub2: real)
    requires IsSquare(mat, |mat|) && |t| == |mat| && IsPermutation(t, |t|) && L <= i < |t|
    requires Explored(mat, t, L, i, ub1) && ub2 <= ub1
    requires Dominates(mat, Swap(t, L, i), L + 1, ub2)
    ensures Explored(mat, t, L, i + 1, ub2)
  {
    forall u | Completes(u, t, L) && u[L] in t[L..i + 1]
      ensures ub2 <= SearchCycleCost(mat, u)
    {
      assert t[L..i + 1] == t[L..i] + [t[i]];
      if u[L] == t[i] {
        CompletesAfterSwap(u, t, L, i);
      }
    }
  }

  /** Once every entry of t[L..] has been tried at position L, every completion is covered. */
  lemma ExploredAll(mat: seq<seq<real>>, t: seq<int>, L: nat, ub: real)
    requires IsSquare(mat, |mat|) && |t| == |mat| && IsPermutation(t, |t|) && L < |t|
    requires Explored(mat, t, L, |t|, ub)
    ensures Dominates(mat, t, L, ub)
  {
    forall u | Completes(u, t, L)
      ensures ub <= SearchCycleCost(mat, u)
    {
      CompletesNext(u, t, L);
    }
  }

  /** The bookkeeping of a child subtree, with t[i] swapped into position L, composes with the parent's. */
  lemma BestSoFarStep(mat: seq<seq<real>>, t: seq<int>, L: nat, i: nat,
                      ub0: real, bp0: seq<int>, ub1: real, bp1: seq<int>, ub2: real, bp2: seq<int>)
    requires IsSquare(mat, |mat|) && |t| == |mat| && 1 <= L <= i < |t|
    requires BestSoFar(mat, t, L, ub0, bp0, ub1, bp1)
    requires BestSoFar(mat, Swap(t, L, i), L + 1, ub1, bp1, ub2, bp2)
    ensures BestSoFar(mat, t, L, ub0, bp0, ub2, bp2)
  {
    var s := Swap(t, L, i);
    if ub2 < ub1 {
      assert bp2[..L] == bp2[..L + 1][..L];
      assert s[..L] == s[..L + 1][..L];
      assert s[..L] == t[..L];
    }
  }

  /** `t` is a cheapest closed cycle among the tours from location 0. */
  ghost predicate Optimal(mat: seq<seq<real>>, t: seq<int>)
    requires IsSquare(mat, |mat|) && Within(t, |mat|)
  {
    forall u :: IsPermutation(u, |mat|) && |u| >= 1 && u[0] == 0 ==> CycleCost(mat, t) <= CycleCost(mat, u)
  }

  /**
    What the whole search from the seed tour yields, on a symmetric matrix: the
    best tour is the seed or a tour whose cycle cost is below the seed weight;
    it is never worse than a seed weight that is the seed's own cost; and if in
    addition every tour from 0 costs at least the final bound, it is optimal.
   */
  lemma SearchOutcome(mat: seq<seq<real>>, seed: seq<int>, seedWeight: real, ub: real, bp: seq<int>)
    requires IsSquare(mat, |mat|) && Symmetric(mat) && |mat| >= 1
    requires IsPermutation(seed, |mat|) && seed[0] == 0
    requires BestSoFar(mat, seed, 1, seedWeight, seed, ub, bp)
    ensures bp == seed || CycleCost(mat, bp) < seedWeight
    ensures seedWeight == CycleCost(mat, seed) ==> CycleCost(mat, bp) <= seedWeight
    ensures seedWeight == CycleCost(mat, seed) && Dominates(mat, seed, 1, ub) ==> Optimal(mat, bp)
  {
    SearchCostIsCycleCost(mat, bp);
    if seedWeight == CycleCost(mat, seed) && Dominates(mat, seed, 1, ub) {
      forall u | IsPermutation(u, |mat|) && |u| >= 1 && u[0] == 0
        ensures CycleCost(mat, bp) <= CycleCost(mat, u)
      {
        assert u[..1] == [0] == seed[..1];
        assert Completes(u, seed, 1);
        SearchCostIsCycleCost(mat, u);
      }
    }
  }
}
