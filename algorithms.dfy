/**
  The `Algorithms` class: the zone flags, the locations, the Prim table and the
  tour buffers as fields, and the three modes (MST, FASTTSP, OPTTSP) as methods
  that update them in place.
 */
module Algorithms {
  import opened Geometry
  import opened Spanning
  import opened Tours

  class Algorithms {
    /** The distance between two points. */
    const len: Length

    var isBorder: bool
    var isMedical: bool
    var isNormal: bool
    var totalWeight: real

    var droneLocations: seq<Coordinate>
    var primTable: seq<Prim>
    var partialTour: seq<int>

    var upperBound: real
    var bestPath: seq<int>
    var distanceMatrix: seq<seq<real>>

    /**
      The ingestion invariant: every location carries the zone its coordinates
      determine, and each flag says whether some location lies in that zone.
     */
    ghost predicate Valid()
      reads this
    {
      && (forall i :: 0 <= i < |droneLocations| ==> Classified(droneLocations[i]))
      && isMedical == HasZone(droneLocations, Medical)
      && isNormal == HasZone(droneLocations, Normal)
      && isBorder == HasZone(droneLocations, Border)
    }

    /** A fresh object: no locations, flags cleared, weight 0 (the member initialisers). */
    constructor (len: Length)
      ensures this.len == len
      ensures Valid()
      ensures droneLocations == [] && primTable == [] && partialTour == [] && bestPath == []
      ensures !isBorder && !isMedical && !isNormal && totalWeight == 0.0
    {
      this.len := len;
      isBorder := false;
      isMedical := false;
      isNormal := false;
      totalWeight := 0.0;
      droneLocations := [];
      primTable := [];
      partialTour := [];
      upperBound := 0.0;
      bestPath := [];
      distanceMatrix := [];
    }

    /**
      Classify (x, y) and raise the flag of its zone. Only that flag is set and
      no flag is ever cleared.
     */
    method CategorizeLocation(x: int, y: int) returns (z: Zone)
      modifies this`isMedical, this`isNormal, this`isBorder
      ensures z == ZoneOf(x, y)
      ensures isMedical == (old(isMedical) || z == Medical)
      ensures isNormal == (old(isNormal) || z == Normal)
      ensures isBorder == (old(isBorder) || z == Border)
    {
      if x < 0 && y < 0 {
        isMedical := true;
        return Medical;
      } else if x > 0 || y > 0 {
        isNormal := true;
        return Normal;
      } else {
        isBorder := true;
        return Border;
      }
    }

    /**
      The ingestion loop of `readInput`, over the coordinate pairs read: each pair
      is classified and appended. The flags then say exactly which zones occur.
     */
    method ReadLocations(points: seq<(int, int)>)
      requires Valid()
      modifies this`droneLocations, this`isMedical, this`isNormal, this`isBorder
      ensures Valid()
      ensures |droneLocations| == |old(droneLocations)| + |points|
      ensures droneLocations[..|old(droneLocations)|] == old(droneLocations)
      ensures forall i :: 0 <= i < |points| ==>
        droneLocations[|old(droneLocations)| + i] == Coordinate(points[i].0, points[i].1, ZoneOf(points[i].0, points[i].1))
    {
      var n := 0;
      while n < |points|
        invariant 0 <= n <= |points|
        invariant Valid()
        invariant |droneLocations| == |old(droneLocations)| + n
        invariant droneLocations[..|old(droneLocations)|] == old(droneLocations)
        invariant forall i :: 0 <= i < n ==>
          droneLocations[|old(droneLocations)| + i] == Coordinate(points[i].0, points[i].1, ZoneOf(points[i].0, points[i].1))
      {
        var (x, y) := points[n];
        var location := CategorizeLocation(x, y);
        var temp := Coordinate(x, y, location);
        HasZoneAppend(droneLocations, temp, Medical);
        HasZoneAppend(droneLocations, temp, Normal);
        HasZoneAppend(droneLocations, temp, Border);
        droneLocations := droneLocations + [temp];
        n := n + 1;
      }
    }

    /**
      The gate of MST mode: false (the program reports "Cannot construct MST" and
      exits) exactly when Normal and Medical locations occur with no Border one.
      Under the ingestion invariant that is exactly when no spanning tree of legal
      edges exists.
     */
    function CheckMstPossible(): (possible: bool)
      reads this
      requires Valid()
      ensures possible <==> Feasible(droneLocations)
      ensures |droneLocations| >= 1 ==>
        (possible <==> exists parent, rank :: SpanningTree(droneLocations, parent, rank))
    {
      if |droneLocations| >= 1 then FeasibleIffSpanningTree(droneLocations); !(isNormal && isMedical && !isBorder)
      else !(isNormal && isMedical && !isBorder)
    }

    /**
      Adjust the running MST weight for row `w` taking key `distance`: the old
      key leaves the sum when it is finite. Setting the key right after keeps
      `totalWeight` equal to the sum of the finite keys.
     */
    method CalculateTotalWeight(w: int, distance: real)
      requires 0 <= w < |primTable|
      modifies this`totalWeight
      ensures totalWeight == old(totalWeight) - FiniteOrZero(primTable[w].minEdgeWeight) + distance
      ensures old(totalWeight) == SumKeys(primTable, 0) ==>
        totalWeight == SumKeys(primTable[w := primTable[w].(minEdgeWeight := Finite(distance))], 0)
    {
      if primTable[w].minEdgeWeight != Inf {
        totalWeight := totalWeight - primTable[w].minEdgeWeight.value;
        totalWeight := totalWeight + distance;
      } else {
        totalWeight := totalWeight + distance;
      }
      SumKeysUpdate(primTable, 0, w, primTable[w].(minEdgeWeight := Finite(distance)));
    }

    /**
      The relaxation loop of one round of `mstAlgorithm`: the table becomes
      `Relax` of the table, and the running weight follows the finite keys.
     */
    method RelaxFrom(currentVertex: int)
      requires 0 <= currentVertex < |droneLocations| == |primTable|
      requires totalWeight == SumKeys(primTable, 0)
      modifies this`primTable, this`totalWeight
      ensures primTable == Relax(len, droneLocations, old(primTable), currentVertex)
      ensures totalWeight == SumKeys(primTable, 0)
    {
      ghost var t0 := primTable;
      var w := 0;
      while w < |droneLocations|
        invariant 0 <= w <= |droneLocations| == |primTable|
        invariant forall v :: 0 <= v < w ==> primTable[v] == RelaxRow(len, droneLocations, t0, currentVertex, v)
        invariant forall v :: w <= v < |primTable| ==> primTable[v] == t0[v]
        invariant totalWeight == SumKeys(primTable, 0)
      {
        var minDistance := CalculateDistance(len, droneLocations[currentVertex], droneLocations[w]);
        if !primTable[w].isVisited {
          if Less(minDistance, primTable[w].minEdgeWeight) {
            CalculateTotalWeight(w, minDistance.value);
            primTable := primTable[w := primTable[w].(minEdgeWeight := minDistance)];
            ghost var keyed := primTable;
            primTable := primTable[w := primTable[w].(precedingVertex := currentVertex)];
            SumKeysUpdate(keyed, 0, w, primTable[w]);
          }
        }
        w := w + 1;
      }
    }

    /**
      `mstAlgorithm`: Prim's algorithm with linear scans, behind the feasibility
      gate. Every location ends visited; the parent column is a spanning tree
      rooted at 0 of legal edges (`rank` witnesses that it has no cycle); each
      non-root key is its tree edge; and `totalWeight` is the weight of that tree.
     */
    method MstAlgorithm() returns (ghost rank: seq<nat>)
      requires |droneLocations| >= 1 && Feasible(droneLocations)
      requires primTable == [] && totalWeight == 0.0
      modifies this`primTable, this`totalWeight
      ensures |primTable| == |droneLocations|
      ensures forall v :: 0 <= v < |primTable| ==> primTable[v].isVisited
      ensures SpanningTree(droneLocations, Parents(primTable), rank)
      ensures KeysAreTreeEdges(len, droneLocations, primTable)
      ensures totalWeight == TreeWeight(len, droneLocations, Parents(primTable), 1)
    {
      primTable := FreshTable(|droneLocations|);
      primTable := primTable[0 := primTable[0].(minEdgeWeight := Finite(0.0))];
      var timesTrue := 0;
      var currentVertex := 0;
      ghost var visited: set<int> := {};
      rank := seq(|droneLocations|, _ => 0);
      PrimInvInit(len, droneLocations);
      SumKeysUpdate(FreshTable(|droneLocations|), 0, 0, primTable[0]);
      FreshKeysSum(|droneLocations|, 0);
      while timesTrue < |droneLocations|
        invariant timesTrue <= |droneLocations|
        invariant PrimInv(len, droneLocations, primTable, visited, rank, timesTrue)
        invariant totalWeight == SumKeys(primTable, 0)
        decreases |droneLocations| - timesTrue
      {
        currentVertex := PrimRound(currentVertex, visited, rank, timesTrue);
        visited := visited + {currentVertex};
        rank := rank[currentVertex := timesTrue];
        timesTrue := timesTrue + 1;
      }
      PrimDone(len, droneLocations, primTable, visited, rank);
      SumKeysIsTreeWeight(len, droneLocations, primTable, 1);
    }

    /**
      One round of the main loop of `mstAlgorithm`: select the cheapest unvisited location,
      mark it visited and relax its neighbours. On a feasible input the round
      finds a location with a finite key and keeps the loop invariant, with that
      location added to the visited set at rank `count`.
     */
    method PrimRound(current: int, ghost visited: set<int>, ghost rank: seq<nat>, ghost count: nat) returns (c: int)
      requires PrimInv(len, droneLocations, primTable, visited, rank, count)
      requires count < |droneLocations| && Feasible(droneLocations)
      requires totalWeight == SumKeys(primTable, 0)
      modifies this`primTable, this`totalWeight
      ensures 0 <= c < |droneLocations| && c !in visited
      ensures old(primTable)[c].minEdgeWeight.Finite?
      ensures forall v :: 0 <= v < |old(primTable)| && !old(primTable)[v].isVisited ==>
        AtMost(old(primTable)[c].minEdgeWeight, old(primTable)[v].minEdgeWeight)
      ensures forall v :: 0 <= v < c && !old(primTable)[v].isVisited ==>
        Less(old(primTable)[c].minEdgeWeight, old(primTable)[v].minEdgeWeight)
      ensures primTable == Relax(len, droneLocations, Mark(old(primTable), c), c)
      ensures PrimInv(len, droneLocations, primTable, visited + {c}, rank[c := count], count + 1)
      ensures totalWeight == SumKeys(primTable, 0)
    {
      CandidateExists(len, droneLocations, primTable, visited, rank, count);
      c := SelectVertex(primTable, current);
      ghost var before := primTable;
      primTable := primTable[c := primTable[c].(isVisited := true)];
      SumKeysUpdate(before, 0, c, primTable[c]);
      RelaxFrom(c);
      PrimStep(len, droneLocations, before, visited, rank, count, c);
    }

    /**
      The MST case of `processAlgorithm`, without the printing: the gate, then Prim. A
      rejected input is reported as `false` and leaves the state alone.
     */
    method ProcessMst() returns (ok: bool, ghost rank: seq<nat>)
      requires Valid() && |droneLocations| >= 1
      requires primTable == [] && totalWeight == 0.0
      modifies this`primTable, this`totalWeight
      ensures ok <==> Feasible(droneLocations)
      ensures !ok ==> primTable == old(primTable) && totalWeight == old(totalWeight)
      ensures ok ==> SpanningTree(droneLocations, Parents(primTable), rank)
      ensures ok ==> totalWeight == TreeWeight(len, droneLocations, Parents(primTable), 1)
    {
      rank := [];
      if !CheckMstPossible() {
        return false, rank;
      }
      rank := MstAlgorithm();
      ok := true;
    }

    /**
      `fasttspAlgorithm`: start from the triangle [0, 1, 2] and insert each
      further city at its cheapest position. The result is `FastTour`, which with
      at least three locations visits each location once and starts at 0.
     */
    method FastTspAlgorithm()
      requires partialTour == []
      modifies this`partialTour
      ensures partialTour == FastTour(len, droneLocations)
      ensures |droneLocations| >= 3 ==> IsPermutation(partialTour, |droneLocations|) && partialTour[0] == 0
    {
      partialTour := partialTour + [0];
      partialTour := partialTour + [1];
      partialTour := partialTour + [2];
      assert partialTour == [0, 1, 2];
      if |droneLocations| >= 3 {
        FastProgressInit(len, droneLocations);
      }
      var k := 3;
      while k < |droneLocations|
        invariant |droneLocations| < 3 ==> partialTour == [0, 1, 2]
        invariant |droneLocations| >= 3 ==> FastProgress(len, droneLocations, partialTour, k)
        decreases |droneLocations| - k
      {
        var indexInserting := CheapestInsertion(len, droneLocations, partialTour, k);
        FastProgressStep(len, droneLocations, partialTour, k, indexInserting);
        partialTour := InsertAt(partialTour, indexInserting, k);
        k := k + 1;
      }
      if |droneLocations| >= 3 {
        FastProgressDone(len, droneLocations, partialTour);
      }
    }

    /**
      `genPerms`: the backtracking search below a fixed prefix of length
      `permLength`, whose accumulated cost is `totalWeight`. Every return path
      restores the buffer and the weight; the bound and the best tour evolve as
      `BestSoFar` says (the bound never rises; a new best tour keeps the prefix
      and costs the new bound). When the pruning test is sound, no tour keeping
      the prefix costs less than the final bound.
     */
    method GenPerms(permLength: nat, promising: Promising)
      requires 1 <= permLength <= |partialTour|
      requires IsSquare(distanceMatrix, |partialTour|)
      requires IsPermutation(partialTour, |partialTour|) && partialTour[0] == 0
      requires totalWeight == PrefixCost(distanceMatrix, partialTour, permLength)
      requires IsPermutation(bestPath, |partialTour|) && bestPath[0] == 0
      modifies this`partialTour, this`totalWeight, this`upperBound, this`bestPath
      ensures partialTour == old(partialTour) && totalWeight == old(totalWeight)
      ensures BestSoFar(distanceMatrix, partialTour, permLength, old(upperBound), old(bestPath), upperBound, bestPath)
      ensures SoundBound(distanceMatrix, promising) ==> Dominates(distanceMatrix, partialTour, permLength, upperBound)
      decreases |partialTour| - permLength, 2
    {
      if permLength == |partialTour| {
        totalWeight := totalWeight + distanceMatrix[partialTour[permLength - 1]][0];
        if totalWeight < upperBound {
          upperBound := totalWeight;
          bestPath := partialTour;
        }
        totalWeight := totalWeight - distanceMatrix[partialTour[permLength - 1]][0];
        DominatesLeaf(distanceMatrix, partialTour, upperBound);
        return;
      }

      if !promising(partialTour, permLength, totalWeight, upperBound) {
        if SoundBound(distanceMatrix, promising) {
          DominatesPruned(distanceMatrix, partialTour, permLength, upperBound, promising);
        }
        return;
      }

      SearchChildren(permLength, promising);
    }

    /**
      The loop of `genPerms` below a promising prefix that is not
      yet a whole tour: try every remaining location at position `permLength`.
      Its bookkeeping is that of `GenPerms`.
     */
    method SearchChildren(permLength: nat, promising: Promising)
      requires 1 <= permLength < |partialTour|
      requires IsSquare(distanceMatrix, |partialTour|)
      requires IsPermutation(partialTour, |partialTour|) && partialTour[0] == 0
      requires totalWeight == PrefixCost(distanceMatrix, partialTour, permLength)
      requires IsPermutation(bestPath, |partialTour|) && bestPath[0] == 0
      modifies this`partialTour, this`totalWeight, this`upperBound, this`bestPath
      ensures partialTour == old(partialTour) && totalWeight == old(totalWeight)
      ensures BestSoFar(distanceMatrix, partialTour, permLength, old(upperBound), old(bestPath), upperBound, bestPath)
      ensures SoundBound(distanceMatrix, promising) ==> Dominates(distanceMatrix, partialTour, permLength, upperBound)
      decreases |partialTour| - permLength, 1
    {
      ExploredNone(distanceMatrix, partialTour, permLength, upperBound);
      var i := permLength;
      while i < |partialTour|
        invariant permLength <= i <= |partialTour|
        invariant partialTour == old(partialTour) && totalWeight == old(totalWeight)
        invariant BestSoFar(distanceMatrix, partialTour, permLength, old(upperBound), old(bestPath), upperBound, bestPath)
        invariant SoundBound(distanceMatrix, promising) ==> Explored(distanceMatrix, partialTour, permLength, i, upperBound)
      {
        ghost var ub1, bp1 := upperBound, bestPath;
        TryCandidate(permLength, i, promising);
        BestSoFarStep(distanceMatrix, partialTour, permLength, i, old(upperBound), old(bestPath), ub1, bp1, upperBound, bestPath);
        if SoundBound(distanceMatrix, promising) {
          ExploredStep(distanceMatrix, partialTour, permLength, i, ub1, upperBound);
        }
        i := i + 1;
      }
      if SoundBound(distanceMatrix, promising) {
        ExploredAll(distanceMatrix, partialTour, permLength, upperBound);
      }
    }

    /**
      One pass of the loop of `genPerms`: swap t[i] into position
      `permLength`, add the edge to its predecessor, search the longer prefix,
      then take the edge off and swap back. The buffer and the weight are
      restored, and the bookkeeping is that of the subtree for the swapped tour.
     */
    method TryCandidate(permLength: nat, i: nat, promising: Promising)
      requires 1 <= permLength <= i < |partialTour|
      requires IsSquare(distanceMatrix, |partialTour|)
      requires IsPermutation(partialTour, |partialTour|) && partialTour[0] == 0
      requires totalWeight == PrefixCost(distanceMatrix, partialTour, permLength)
      requires IsPermutation(bestPath, |partialTour|) && bestPath[0] == 0
      modifies this`partialTour, this`totalWeight, this`upperBound, this`bestPath
      ensures partialTour == old(partialTour) && totalWeight == old(totalWeight)
      ensures BestSoFar(distanceMatrix, Swap(partialTour, permLength, i), permLength + 1,
                        old(upperBound), old(bestPath), upperBound, bestPath)
      ensures SoundBound(distanceMatrix, promising) ==>
        Dominates(distanceMatrix, Swap(partialTour, permLength, i), permLength + 1, upperBound)
      decreases |partialTour| - permLength, 0
    {
      ghost var t := partialTour;
      SwapPrefixCost(distanceMatrix, t, permLength, i);
      partialTour := Swap(partialTour, permLength, i);
      totalWeight := totalWeight + distanceMatrix[partialTour[permLength]][partialTour[permLength - 1]];

      GenPerms(permLength + 1, promising);

      totalWeight := totalWeight - distanceMatrix[partialTour[permLength]][partialTour[permLength - 1]];
      partialTour := Swap(partialTour, permLength, i);
      SwapFacts(t, permLength, i);
    }

    /**
      `opttspAlgorithm`: seed the bound with the FASTTSP tour and its weight,
      search every tour from location 0, then recompute the closed-cycle cost of
      the best tour. The result is a tour from 0 whose weight is its cycle cost;
      it is the seed tour or strictly cheaper than the seed weight; and when the
      seed weight is the seed tour's cost and the pruning test is sound, it is
      a cheapest cycle.
     */
    method OptTspAlgorithm(matrix: seq<seq<real>>, seedWeight: real, promising: Promising)
      requires |droneLocations| >= 3
      requires IsSquare(matrix, |droneLocations|) && Symmetric(matrix)
      requires partialTour == []
      modifies this`distanceMatrix, this`partialTour, this`totalWeight, this`upperBound, this`bestPath
      ensures distanceMatrix == matrix
      ensures partialTour == FastTour(len, droneLocations)
      ensures IsPermutation(partialTour, |droneLocations|) && partialTour[0] == 0
      ensures IsPermutation(bestPath, |droneLocations|) && bestPath[0] == 0
      ensures totalWeight == CycleCost(matrix, bestPath)
      ensures upperBound <= seedWeight
      ensures bestPath == partialTour || totalWeight < seedWeight
      ensures seedWeight == CycleCost(matrix, partialTour) ==> totalWeight <= seedWeight
      ensures seedWeight == CycleCost(matrix, partialTour) && SoundBound(matrix, promising) ==> Optimal(matrix, bestPath)
    {
      distanceMatrix := matrix;
      FastTspAlgorithm();
      SearchFromSeed(seedWeight, promising);
      CycleWeight();
    }

    /**
      The middle of `opttspAlgorithm`: seed the bound with `seedWeight` and the best tour with the
      current tour, then search every tour from location 0. The tour is left as it
      was; the best tour is the seed or strictly cheaper than the seed weight, and
      when the seed weight is the seed's cycle cost and the pruning test is sound,
      it is a cheapest cycle.
     */
    method SearchFromSeed(seedWeight: real, promising: Promising)
      requires |partialTour| >= 1 && IsSquare(distanceMatrix, |partialTour|) && Symmetric(distanceMatrix)
      requires IsPermutation(partialTour, |partialTour|) && partialTour[0] == 0
      modifies this`partialTour, this`totalWeight, this`upperBound, this`bestPath
      ensures partialTour == old(partialTour)
      ensures IsPermutation(bestPath, |partialTour|) && bestPath[0] == 0
      ensures upperBound <= seedWeight
      ensures bestPath == partialTour || CycleCost(distanceMatrix, bestPath) < seedWeight
      ensures seedWeight == CycleCost(distanceMatrix, partialTour) ==> CycleCost(distanceMatrix, bestPath) <= seedWeight
      ensures seedWeight == CycleCost(distanceMatrix, partialTour) && SoundBound(distanceMatrix, promising) ==>
                Optimal(distanceMatrix, bestPath)
    {
      totalWeight := seedWeight;
      upperBound := totalWeight;
      bestPath := partialTour;

      totalWeight := 0.0;
      var permLength := 1;
      GenPerms(permLength, promising);
      SearchOutcome(distanceMatrix, partialTour, seedWeight, upperBound, bestPath);
    }

    /**
      The final loop of `opttspAlgorithm`: recompute `totalWeight` as the closed-cycle cost of the best
      tour over the distance matrix, edge (bestPath[i], bestPath[(i + 1) mod N]) for each i.
     */
    method CycleWeight()
      requires IsSquare(distanceMatrix, |distanceMatrix|) && Within(bestPath, |distanceMatrix|)
      modifies this`totalWeight
      ensures totalWeight == CycleCost(distanceMatrix, bestPath)
    {
      totalWeight := 0.0;
      var i := 0;
      while i < |bestPath|
        invariant 0 <= i <= |bestPath|
        invariant totalWeight == EdgeSum(distanceMatrix, bestPath, i)
      {
        totalWeight := totalWeight + distanceMatrix[bestPath[i]][bestPath[Successor(i, |bestPath|)]];
        i := i + 1;
      }
    }
  }
}
