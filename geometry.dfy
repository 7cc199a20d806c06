/**
  Locations, campus zones and the distances between locations: the helper
  functions of the `Algorithms` class that do not touch its state.
 */
module Geometry {

  /** The part of the campus a location lies in. */
  datatype Zone = Normal | Border | Medical

  /** A location with integer coordinates and the zone recorded for it at ingestion. */
  datatype Coordinate = Coordinate(x: int, y: int, location: Zone)

  /**
    An MST edge weight. `Inf` is the sentinel the program writes as floating-point
    infinity: it means "no edge is allowed here", never a measured length.
   */
  datatype Weight = Finite(value: real) | Inf

  /** `a < b` on doubles where `Inf` plays +infinity (so `Inf < Inf` is false). */
  predicate Less(a: Weight, b: Weight) {
    match a
    case Inf => false
    case Finite(p) => b.Inf? || p < b.value
  }

  /** `a <= b` for the same order: the negation of `b < a`. */
  predicate AtMost(a: Weight, b: Weight) {
    !Less(b, a)
  }

  /** The value a weight adds to a running sum of finite weights. */
  function FiniteOrZero(w: Weight): real {
    if w.Finite? then w.value else 0.0
  }

  /** A point of the plane, the coordinates of a location without its zone. */
  datatype Point = Point(x: int, y: int)

  function PointOf(a: Coordinate): Point {
    Point(a.x, a.y)
  }

  /**
    The Euclidean distance between two points, taken abstractly: the program computes
    sqrt((bx - ax)^2 + (by - ay)^2) in floating point.
   */
  type Length = (Point, Point) -> real

  /**
    What the model needs of a distance, all true of the Euclidean one: zero from a
    point to itself, never negative, and the same in both directions.
   */
  ghost predicate IsLength(len: Length) {
    && (forall p :: len(p, p) == 0.0)
    && (forall p, q :: len(p, q) >= 0.0)
    && (forall p, q :: len(p, q) == len(q, p))
  }

  /**
    The zone of the point (x, y): the third quadrant proper is Medical, any point
    with a positive coordinate is Normal, and what is left (the negative half-axes
    and the origin) is the Border.
   */
  function ZoneOf(x: int, y: int): (z: Zone)
    ensures z == Medical <==> x < 0 && y < 0
    ensures z == Normal <==> x > 0 || y > 0
    ensures z == Border <==> x <= 0 && y <= 0 && (x == 0 || y == 0)
  {
    if x < 0 && y < 0 then Medical
    else if x > 0 || y > 0 then Normal
    else Border
  }

  /** The adjacency rule: an edge is legal unless it joins the Normal and the Medical campus. */
  predicate Adjacent(a: Zone, b: Zone) {
    a == b || a == Border || b == Border
  }

  /** The TSP distance between two locations (no adjacency rule). */
  function CalculateCost(len: Length, a: Coordinate, b: Coordinate): real {
    len(PointOf(a), PointOf(b))
  }

  /** The MST distance between two locations: the plain distance when the zones are adjacent, `Inf` otherwise. */
  function CalculateDistance(len: Length, a: Coordinate, b: Coordinate): (r: Weight)
    ensures r.Inf? <==> !Adjacent(a.location, b.location)
    ensures r.Inf? <==> (a.location == Normal && b.location == Medical) || (a.location == Medical && b.location == Normal)
    ensures r.Finite? ==> r.value == CalculateCost(len, a, b)
  {
    if a.location == Normal && b.location == Medical then Inf
    else if a.location == Medical && b.location == Normal then Inf
    else Finite(CalculateCost(len, a, b))
  }

  /** How much inserting `k` between the neighbours `i` and `j` of a cycle adds to its cost. */
  function CalculateNewCost(len: Length, i: Coordinate, j: Coordinate, k: Coordinate): real {
    CalculateCost(len, i, k) + CalculateCost(len, j, k) - CalculateCost(len, i, j)
  }

  /** Two locations at the same coordinates. */
  predicate SamePlace(a: Coordinate, b: Coordinate) {
    a.x == b.x && a.y == b.y
  }

  /** A location whose zone tag is the one its coordinates determine. */
  predicate Classified(a: Coordinate) {
    a.location == ZoneOf(a.x, a.y)
  }

  lemma CostSymmetric(len: Length, a: Coordinate, b: Coordinate)
    requires IsLength(len)
    ensures CalculateCost(len, a, b) == CalculateCost(len, b, a)
    ensures CalculateDistance(len, a, b) == CalculateDistance(len, b, a)
  {
  }

  lemma CostOfSamePlace(len: Length, a: Coordinate, b: Coordinate)
    requires IsLength(len) && SamePlace(a, b)
    ensures CalculateCost(len, a, b) == 0.0
    ensures Classified(a) && Classified(b) ==> CalculateDistance(len, a, b) == Finite(0.0)
  {
  }

  lemma CostNonNegative(len: Length, a: Coordinate, b: Coordinate)
    requires IsLength(len)
    ensures CalculateCost(len, a, b) >= 0.0
    ensures AtMost(Finite(0.0), CalculateDistance(len, a, b))
  {
  }

  lemma NewCostSymmetric(len: Length, i: Coordinate, j: Coordinate, k: Coordinate)
    requires IsLength(len)
    ensures CalculateNewCost(len, i, j, k) == CalculateNewCost(len, j, i, k)
  {
    CostSymmetric(len, i, j);
  }

  lemma NewCostAtEndpoint(len: Length, i: Coordinate, j: Coordinate, k: Coordinate)
    requires IsLength(len) && SamePlace(i, k)
    ensures CalculateNewCost(len, i, j, k) == 0.0
  {
    CostOfSamePlace(len, i, k);
    CostSymmetric(len, j, k);
  }

  /** `AtMost` is a total preorder: every two weights compare, and it chains. */
  lemma WeightOrder(a: Weight, b: Weight, c: Weight)
    ensures AtMost(a, b) || AtMost(b, a)
    ensures AtMost(a, b) && AtMost(b, c) ==> AtMost(a, c)
    ensures Less(a, b) ==> AtMost(a, b)
  {
  }
}
