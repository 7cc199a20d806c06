/**
  The value-level account of the MST mode: the Prim table, the feasibility gate on
  zones, what a spanning tree under the adjacency rule is, and the invariant that
  one round of Prim's O(N^2) scan preserves.
 */
module Spanning {
  import opened Geometry

  /** One row of the Prim table (the program's `Prim` struct). */
  datatype Prim = Prim(isVisited: bool, minEdgeWeight: Weight, precedingVertex: int)

  /** The table `primTable.resize(n)` creates: unvisited, key INF, parent 0 (value-initialised). */
  function FreshTable(n: nat): (t: seq<Prim>)
    ensures |t| == n
    ensures forall v :: 0 <= v < n ==> t[v] == Prim(false, Inf, 0)
  {
    seq(n, _ => Prim(false, Inf, 0))
  }

  // ---------------------------------------------------------------------------
  // Zones present, feasibility and spanning trees
  // ---------------------------------------------------------------------------

  /** Some location lies in zone `z`. */
  predicate HasZone(locs: seq<Coordinate>, z: Zone) {
    exists i :: 0 <= i < |locs| && locs[i].location == z
  }

  /** Appending one location adds its zone to the zones present. */
  lemma HasZoneAppend(locs: seq<Coordinate>, c: Coordinate, z: Zone)
    ensures HasZone(locs + [c], z) <==> HasZone(locs, z) || c.location == z
  {
    if HasZone(locs + [c], z) && c.location != z {
      var i :| 0 <= i < |locs| + 1 && (locs + [c])[i].location == z;
      assert locs[i].location == z;
    }
    if HasZone(locs, z) {
      var i :| 0 <= i < |locs| && locs[i].location == z;
      assert (locs + [c])[i].location == z;
    }
    if c.location == z {
      assert (locs + [c])[|locs|] == c;
    }
  }

  /** What `checkMSTPossible` accepts: not (Normal and Medical present with no Border location). */
  predicate Feasible(locs: seq<Coordinate>) {
    !(HasZone(locs, Normal) && HasZone(locs, Medical) && !HasZone(locs, Border))
  }

  /** Every parent index is a location index. */
  ghost predicate ParentsInRange(parent: seq<int>) {
    forall v :: 0 < v < |parent| ==> 0 <= parent[v] < |parent|
  }

  /**
    `parent` is a spanning tree of the locations rooted at 0 that uses only legal
    edges: each non-root location has a parent joined to it by a legal edge, and
    `rank` strictly decreases along parent links, so there is no cycle.
   */
  ghost predicate SpanningTree(locs: seq<Coordinate>, parent: seq<int>, rank: seq<nat>) {
    && |locs| >= 1 && |parent| == |locs| && |rank| == |locs|
    && ParentsInRange(parent)
    && forall v :: 0 < v < |locs| ==>
         && rank[parent[v]] < rank[v]
         && Adjacent(locs[parent[v]].location, locs[v].location)
  }

  /** The location reached from `v` by following at most `steps` parent links (stopping at the root). */
  function Climb(parent: seq<int>, v: int, steps: nat): (r: int)
    requires 0 <= v < |parent| && ParentsInRange(parent)
    ensures 0 <= r < |parent|
    decreases steps
  {
    if v == 0 || steps == 0 then v else Climb(parent, parent[v], steps - 1)
  }

  /** In a spanning tree, following parent links from any location reaches the root 0. */
  lemma {:induction false} ClimbReachesRoot(locs: seq<Coordinate>, parent: seq<int>, rank: seq<nat>, v: int, steps: nat)
    requires SpanningTree(locs, parent, rank) && 0 <= v < |locs| && steps >= rank[v]
    ensures Climb(parent, v, steps) == 0
    decreases rank[v]
  {
    if v != 0 {
      ClimbReachesRoot(locs, parent, rank, parent[v], steps - 1);
    }
  }

  /** Without a Border location, legal edges never change zone, so climbing keeps the zone. */
  lemma {:induction false} ClimbKeepsZone(locs: seq<Coordinate>, parent: seq<int>, rank: seq<nat>, v: int, steps: nat)
    requires SpanningTree(locs, parent, rank) && 0 <= v < |locs| && !HasZone(locs, Border)
    ensures locs[Climb(parent, v, steps)].location == locs[v].location
    decreases steps
  {
    if v != 0 && steps != 0 {
      ClimbKeepsZone(locs, parent, rank, parent[v], steps - 1);
      assert locs[parent[v]].location != Border;
    }
  }

  /**
    The feasibility gate is exact: a spanning tree of legal edges exists if and only
    if the Normal and Medical zones are not both present without a Border location.
   */
  lemma FeasibleIffSpanningTree(locs: seq<Coordinate>)
    requires |locs| >= 1
    ensures Feasible(locs) <==> exists parent, rank :: SpanningTree(locs, parent, rank)
  {
    var n := |locs|;
    if Feasible(locs) {
      if HasZone(locs, Border) {
        var b :| 0 <= b < n && locs[b].location == Border;
        var parent := seq(n, v => if v == b then 0 else b);
        var rank: seq<nat> := seq(n, v => if v == 0 then 0 else if v == b then 1 else 2);
        assert SpanningTree(locs, parent, rank);
      } else {
        var parent := seq(n, v => 0);
        var rank: seq<nat> := seq(n, v => if v == 0 then 0 else 1);
        forall v | 0 < v < n
          ensures Adjacent(locs[0].location, locs[v].location)
        {
          if locs[0].location != locs[v].location {
            assert locs[0].location != Border && locs[v].location != Border;
            assert HasZone(locs, Normal) && HasZone(locs, Medical);
          }
        }
        assert SpanningTree(locs, parent, rank);
      }
    } else {
      if parent, rank :| SpanningTree(locs, parent, rank) {
        var other := if locs[0].location == Normal then Medical else Normal;
        var v :| 0 <= v < n && locs[v].location == other;
        ClimbReachesRoot(locs, parent, rank, v, rank[v]);
        ClimbKeepsZone(locs, parent, rank, v, rank[v]);
        assert false;
      }
    }
  }

  // ---------------------------------------------------------------------------
  // Weights
  // ---------------------------------------------------------------------------

  /** The sum of the finite keys of `t[i..]`: what `totalWeight` tracks during Prim. */
  function SumKeys(t: seq<Prim>, i: nat): real
    decreases |t| - i
  {
    if i >= |t| then 0.0 else FiniteOrZero(t[i].minEdgeWeight) + SumKeys(t, i + 1)
  }

  /** Replacing one row changes the sum of finite keys by the difference of the two keys. */
  lemma {:induction false} SumKeysUpdate(t: seq<Prim>, i: nat, w: nat, p: Prim)
    requires w < |t|
    ensures SumKeys(t[w := p], i) ==
            SumKeys(t, i) - (if i <= w then FiniteOrZero(t[w].minEdgeWeight) - FiniteOrZero(p.minEdgeWeight) else 0.0)
    decreases |t| - i
  {
    if i < |t| {
      SumKeysUpdate(t, i + 1, w, p);
    }
  }

  /** The fresh table has no finite key. */
  lemma {:induction false} FreshKeysSum(n: nat, i: nat)
    ensures SumKeys(FreshTable(n), i) == 0.0
    decreases n - i
  {
    if i < n {
      FreshKeysSum(n, i + 1);
    }
  }

  /** The parent column of the Prim table. */
  function Parents(t: seq<Prim>): (parent: seq<int>)
    ensures |parent| == |t|
    ensures forall v :: 0 <= v < |t| ==> parent[v] == t[v].precedingVertex
  {
    seq(|t|, v requires 0 <= v < |t| => t[v].precedingVertex)
  }

  /** The total length of the tree edges (parent[v], v) for v in i..N-1. */
  function TreeWeight(len: Length, locs: seq<Coordinate>, parent: seq<int>, i: nat): real
    requires |parent| == |locs| && ParentsInRange(parent) && i >= 1
    decreases |locs| - i
  {
    if i >= |locs| then 0.0
    else CalculateCost(len, locs[parent[i]], locs[i]) + TreeWeight(len, locs, parent, i + 1)
  }

  /** Every non-root key is the legal edge from the parent; the root key is 0. */
  ghost predicate KeysAreTreeEdges(len: Length, locs: seq<Coordinate>, t: seq<Prim>) {
    && |t| == |locs| && |t| >= 1
    && ParentsInRange(Parents(t))
    && t[0].minEdgeWeight == Finite(0.0)
    && forall v :: 0 < v < |t| ==>
         t[v].minEdgeWeight == CalculateDistance(len, locs[t[v].precedingVertex], locs[v]) &&
         t[v].minEdgeWeight.Finite?
  }

  /** When every key is its tree edge, the sum of finite keys is the weight of the tree. */
  lemma {:induction false} SumKeysIsTreeWeight(len: Length, locs: seq<Coordinate>, t: seq<Prim>, i: nat)
    requires KeysAreTreeEdges(len, locs, t) && i >= 1
    ensures SumKeys(t, i) == TreeWeight(len, locs, Parents(t), i)
    decreases |t| - i
  {
    if i < |t| {
      SumKeysIsTreeWeight(len, locs, t, i + 1);
    }
  }

  // ---------------------------------------------------------------------------
  // One round of Prim
  // ---------------------------------------------------------------------------

  /** Some unvisited vertex has a finite key. */
  predicate HasCandidate(t: seq<Prim>) {
    exists v :: 0 <= v < |t| && !t[v].isVisited && t[v].minEdgeWeight.Finite?
  }

  /**
    The selection scan of `mstAlgorithm`: among unvisited vertices keep the first one
    whose key is strictly below the best so far. The result is an unvisited vertex
    of minimum key, the lowest index among equal keys; when no unvisited vertex has
    a finite key, `current` is left as it was.
   */
  method SelectVertex(t: seq<Prim>, current: int) returns (c: int)
    ensures HasCandidate(t) ==>
      && 0 <= c < |t| && !t[c].isVisited && t[c].minEdgeWeight.Finite?
      && (forall v :: 0 <= v < |t| && !t[v].isVisited ==> AtMost(t[c].minEdgeWeight, t[v].minEdgeWeight))
      && (forall v :: 0 <= v < c && !t[v].isVisited ==> Less(t[c].minEdgeWeight, t[v].minEdgeWeight))
    ensures !HasCandidate(t) ==> c == current
  {
    var minDistance := Inf;
    c := current;
    var k := 0;
    while k < |t|
      invariant 0 <= k <= |t|
      invariant minDistance.Inf? ==> c == current
      invariant minDistance.Inf? ==> forall v :: 0 <= v < k && !t[v].isVisited ==> t[v].minEdgeWeight.Inf?
      invariant minDistance.Finite? ==>
        && 0 <= c < k && !t[c].isVisited && t[c].minEdgeWeight == minDistance
        && (forall v :: 0 <= v < k && !t[v].isVisited ==> AtMost(minDistance, t[v].minEdgeWeight))
        && (forall v :: 0 <= v < c && !t[v].isVisited ==> Less(minDistance, t[v].minEdgeWeight))
    {
      if !t[k].isVisited {
        if Less(t[k].minEdgeWeight, minDistance) {
          minDistance := t[k].minEdgeWeight;
          c := k;
        }
      }
      k := k + 1;
    }
  }

  /** Mark vertex `c` visited, as `mstAlgorithm` does after the selection scan. */
  function Mark(t: seq<Prim>, c: int): (r: seq<Prim>)
    requires 0 <= c < |t|
    ensures |r| == |t| && r[c].isVisited
    ensures forall v :: 0 <= v < |t| && v != c ==> r[v] == t[v]
    ensures r[c].minEdgeWeight == t[c].minEdgeWeight && r[c].precedingVertex == t[c].precedingVertex
  {
    t[c := t[c].(isVisited := true)]
  }

  /**
    Row `w` after the relaxation loop of `mstAlgorithm` relaxes from `c`: an unvisited row whose key the
    edge (c, w) strictly improves takes that edge and parent `c`; every other row,
    visited or not improved, is kept.
   */
  function RelaxRow(len: Length, locs: seq<Coordinate>, t: seq<Prim>, c: int, w: int): Prim
    requires 0 <= c < |locs| && 0 <= w < |t| == |locs|
  {
    var d := CalculateDistance(len, locs[c], locs[w]);
    if !t[w].isVisited && Less(d, t[w].minEdgeWeight)
    then t[w].(minEdgeWeight := d, precedingVertex := c)
    else t[w]
  }

  /**
    The whole table after relaxing from `c`. Relaxation keeps every visited bit,
    never raises a key, and a row it changes was unvisited, gets a strictly
    smaller key and has `c` as its new parent.
   */
  function Relax(len: Length, locs: seq<Coordinate>, t: seq<Prim>, c: int): (r: seq<Prim>)
    requires 0 <= c < |locs| && |t| == |locs|
    ensures |r| == |t|
    ensures forall w :: 0 <= w < |t| ==> r[w] == RelaxRow(len, locs, t, c, w)
    ensures forall w :: 0 <= w < |t| ==>
      r[w].isVisited == t[w].isVisited && AtMost(r[w].minEdgeWeight, t[w].minEdgeWeight)
    ensures forall w :: 0 <= w < |t| && r[w] != t[w] ==>
      !t[w].isVisited && Less(r[w].minEdgeWeight, t[w].minEdgeWeight) && r[w].precedingVertex == c
  {
    seq(|t|, w requires 0 <= w < |t| => RelaxRow(len, locs, t, c, w))
  }

  /** The tree edge into `v` recorded in the table, from a visited parent. */
  ghost predicate TreeEdge(len: Length, locs: seq<Coordinate>, t: seq<Prim>, visited: set<int>, rank: seq<nat>, v: int)
    requires 0 <= v < |t| == |locs| == |rank|
  {
    var p := t[v].precedingVertex;
    && 0 <= p < |t| && p in visited
    && t[v].minEdgeWeight == CalculateDistance(len, locs[p], locs[v])
    && (v in visited ==> rank[p] < rank[v])
  }

  /**
    The invariant of the outer loop of `mstAlgorithm` after `count` rounds.
    `visited` is the set of visited vertices and `rank[v]` the round in which `v`
    was visited. Finite keys of non-root rows are legal edges from a visited
    parent; a visited parent precedes its child; every unvisited key is at most
    the edge from any visited vertex.
   */
  ghost predicate PrimInv(len: Length, locs: seq<Coordinate>, t: seq<Prim>, visited: set<int>, rank: seq<nat>, count: nat) {
    && |t| == |locs| && |rank| == |locs| && |locs| >= 1
    && (forall v :: v in visited ==> 0 <= v < |t|)
    && (forall v :: 0 <= v < |t| ==> (t[v].isVisited <==> v in visited))
    && |visited| == count
    && t[0].minEdgeWeight == Finite(0.0)
    && (count == 0 ==> forall v :: 0 < v < |t| ==> t[v].minEdgeWeight.Inf?)
    && (count > 0 ==> 0 in visited)
    && (forall v :: v in visited ==> rank[v] < count)
    && (forall v :: 0 < v < |t| && t[v].minEdgeWeight.Finite? ==> TreeEdge(len, locs, t, visited, rank, v))
    && (forall v :: 0 < v < |t| && v in visited ==> t[v].minEdgeWeight.Finite?)
    && (forall u, v :: u in visited && 0 <= v < |t| && v !in visited ==>
          AtMost(t[v].minEdgeWeight, CalculateDistance(len, locs[u], locs[v])))
  }

  /** The table once `mstAlgorithm` has resized it and set the root key: root key 0, nothing visited. */
  lemma PrimInvInit(len: Length, locs: seq<Coordinate>)
    requires |locs| >= 1
    ensures var t := FreshTable(|locs|);
      PrimInv(len, locs, t[0 := t[0].(minEdgeWeight := Finite(0.0))], {}, seq(|locs|, _ => 0), 0)
  {
  }

  /** The indices below `n`. */
  function Below(n: nat): (s: set<int>)
    ensures forall v :: v in s <==> 0 <= v < n
    ensures |s| == n
  {
    if n == 0 then {} else Below(n - 1) + {n - 1}
  }

  /** A set of indices below `n` with fewer than `n` members misses one; with `n` members it holds all. */
  lemma Pigeonhole(visited: set<int>, n: nat)
    requires forall v :: v in visited ==> 0 <= v < n
    ensures |visited| < n ==> exists v :: 0 <= v < n && v !in visited
    ensures |visited| >= n ==> forall v :: 0 <= v < n ==> v in visited
  {
    assert visited <= Below(n);
    if |visited| >= n {
      forall v | 0 <= v < n
        ensures v in visited
      {
        if v !in visited {
          assert visited <= Below(n) - {v};
          assert |Below(n) - {v}| == n - 1;
          SubsetCard(visited, Below(n) - {v});
        }
      }
    } else {
      if forall v :: 0 <= v < n ==> v in visited {
        assert Below(n) <= visited;
        SubsetCard(Below(n), visited);
      }
    }
  }

  lemma SubsetCard(a: set<int>, b: set<int>)
    requires a <= b
    ensures |a| <= |b|
  {
    assert b == a + (b - a);
  }

  /**
    Under the feasibility gate, while some vertex is unvisited the scan finds an
    unvisited vertex with a finite key, so the stale `currentVertex` of an
    all-INF scan never occurs.
   */
  lemma CandidateExists(len: Length, locs: seq<Coordinate>, t: seq<Prim>, visited: set<int>, rank: seq<nat>, count: nat)
    requires PrimInv(len, locs, t, visited, rank, count) && count < |t| && Feasible(locs)
    ensures HasCandidate(t)
  {
    if count == 0 {
      assert !t[0].isVisited;
    } else {
      Pigeonhole(visited, |t|);
      var v :| 0 <= v < |t| && v !in visited;
      assert AtMost(t[v].minEdgeWeight, CalculateDistance(len, locs[0], locs[v]));
      if !Adjacent(locs[0].location, locs[v].location) {
        assert HasZone(locs, locs[0].location) && HasZone(locs, locs[v].location);
        var b :| 0 <= b < |locs| && locs[b].location == Border;
        if b in visited {
          assert AtMost(t[v].minEdgeWeight, CalculateDistance(len, locs[b], locs[v]));
        } else {
          assert AtMost(t[b].minEdgeWeight, CalculateDistance(len, locs[0], locs[b]));
          assert !t[b].isVisited;
        }
      }
    }
  }

  /** After a round, a finite non-root key is still a legal edge from a visited parent that precedes it. */
  lemma PrimStepTreeEdges(len: Length, locs: seq<Coordinate>, t: seq<Prim>, visited: set<int>, rank: seq<nat>, count: nat, c: int)
    requires PrimInv(len, locs, t, visited, rank, count)
    requires 0 <= c < |t| && !t[c].isVisited && t[c].minEdgeWeight.Finite?
    ensures var t2 := Relax(len, locs, Mark(t, c), c);
      forall v :: 0 < v < |t2| && t2[v].minEdgeWeight.Finite? ==> TreeEdge(len, locs, t2, visited + {c}, rank[c := count], v)
  {
    var tm := Mark(t, c);
    var t2 := Relax(len, locs, tm, c);
    forall v | 0 < v < |t2| && t2[v].minEdgeWeight.Finite?
      ensures TreeEdge(len, locs, t2, visited + {c}, rank[c := count], v)
    {
      if t2[v] == tm[v] {
        assert TreeEdge(len, locs, t, visited, rank, v);
      }
    }
  }

  /** After a round, every unvisited key is at most the edge from any visited vertex, `c` included. */
  lemma PrimStepKeysBounded(len: Length, locs: seq<Coordinate>, t: seq<Prim>, visited: set<int>, rank: seq<nat>, count: nat, c: int)
    requires PrimInv(len, locs, t, visited, rank, count)
    requires 0 <= c < |t| && !t[c].isVisited
    ensures var t2 := Relax(len, locs, Mark(t, c), c);
      forall u, v :: u in visited + {c} && 0 <= v < |t2| && v !in visited + {c} ==>
        AtMost(t2[v].minEdgeWeight, CalculateDistance(len, locs[u], locs[v]))
  {
    var tm := Mark(t, c);
    var t2 := Relax(len, locs, tm, c);
    forall u, v | u in visited + {c} && 0 <= v < |t2| && v !in visited + {c}
      ensures AtMost(t2[v].minEdgeWeight, CalculateDistance(len, locs[u], locs[v]))
    {
      if u != c {
        WeightOrder(t2[v].minEdgeWeight, t[v].minEdgeWeight, CalculateDistance(len, locs[u], locs[v]));
      }
    }
  }

  /**
    One round of the main loop of `mstAlgorithm`: choosing an unvisited vertex `c` with a finite key,
    marking it and relaxing from it preserves the invariant.
   */
  lemma PrimStep(len: Length, locs: seq<Coordinate>, t: seq<Prim>, visited: set<int>, rank: seq<nat>, count: nat, c: int)
    requires PrimInv(len, locs, t, visited, rank, count)
    requires 0 <= c < |t| && !t[c].isVisited && t[c].minEdgeWeight.Finite?
    ensures PrimInv(len, locs, Relax(len, locs, Mark(t, c), c), visited + {c}, rank[c := count], count + 1)
  {
    assert count == 0 ==> c == 0;
    PrimStepTreeEdges(len, locs, t, visited, rank, count, c);
    PrimStepKeysBounded(len, locs, t, visited, rank, count, c);
  }

  /**
    After N rounds every vertex is visited, the parents form a spanning tree
    rooted at 0 that uses only legal edges, and each non-root key is its tree edge.
   */
  lemma PrimDone(len: Length, locs: seq<Coordinate>, t: seq<Prim>, visited: set<int>, rank: seq<nat>)
    requires PrimInv(len, locs, t, visited, rank, |locs|)
    ensures forall v :: 0 <= v < |t| ==> t[v].isVisited
    ensures SpanningTree(locs, Parents(t), rank)
    ensures KeysAreTreeEdges(len, locs, t)
  {
    Pigeonhole(visited, |t|);
    forall v | 0 < v < |t|
      ensures 0 <= t[v].precedingVertex < |t|
      ensures rank[t[v].precedingVertex] < rank[v]
      ensures t[v].minEdgeWeight == CalculateDistance(len, locs[t[v].precedingVertex], locs[v])
      ensures t[v].minEdgeWeight.Finite?
    {
      assert TreeEdge(len, locs, t, visited, rank, v);
    }
  }
}
