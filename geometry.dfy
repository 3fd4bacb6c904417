/**
 * Points, bounds and the direction tables of the maze (app.js:116-177).
 *
 * A point is an immutable pair of integers.  The source's `parseInt`
 * coercions are left out: coordinates are integers from the start.
 */
module Geometry {

  /** A grid coordinate, `x` to the right and `y` downwards. */
  datatype Point = Point(x: int, y: int)

  /** The four sides of a block, under the names the source's tables use. */
  datatype Side = Bottom | Right | Top | Left

  /** `Maze.sides`: the side at each direction index. */
  const Sides: seq<Side> := [Bottom, Right, Top, Left]

  /** `Maze.oppositeSides`: the side the neighbour sees at each direction index. */
  const OppositeSides: seq<Side> := [Top, Left, Bottom, Right]

  /** `Maze.delta`: the offset to the neighbour at each direction index. */
  const Delta: seq<(int, int)> := [(0, 1), (1, 0), (0, -1), (-1, 0)]

  /**
   * The key order of a block's `open` record (`{left, top, bottom, right}`),
   * which is the order in which `for (var side in block.open)` visits sides.
   */
  const OpenKeyOrder: seq<Side> := [Left, Top, Bottom, Right]

  /** `Point.equals`: component-wise comparison; it is exactly value equality. */
  function Equals(p: Point, other: Point): (r: bool)
    ensures r <==> p == other
  {
    other.x == p.x && other.y == p.y
  }

  /** `Point.serialize`: the key under which a point is stored in a visited set. */
  function Serialize(p: Point): (key: (int, int))
    ensures Point(key.0, key.1) == p
  {
    (p.x, p.y)
  }

  /** `Point.insideBounds`: 0 <= x < bounds.x and 0 <= y < bounds.y. */
  predicate InsideBounds(p: Point, bounds: Point)
    ensures InsideBounds(p, bounds) ==> 0 < bounds.x && 0 < bounds.y
  {
    p.x >= 0 && p.x < bounds.x && p.y >= 0 && p.y < bounds.y
  }

  /** `Point.offset`: a new point moved by the delta. */
  function Offset(p: Point, delta: (int, int)): (r: Point)
    ensures Heuristic(p, r) == Abs(delta.0) + Abs(delta.1)
    ensures r == p <==> delta == (0, 0)
  {
    Point(p.x + delta.0, p.y + delta.1)
  }

  function Abs(n: int): nat
  {
    if n < 0 then -n else n
  }

  /** `heuristic`: the Manhattan distance between two points. */
  function Heuristic(a: Point, b: Point): (r: nat)
    ensures r == 0 <==> Equals(a, b)
  {
    Abs(b.x - a.x) + Abs(b.y - a.y)
  }

  /** `sides.indexOf(side)`: the direction index of a side. */
  function IndexOf(s: Side): (i: nat)
    ensures i < |Sides| && Sides[i] == s
    ensures forall j :: 0 <= j < |Sides| && Sides[j] == s ==> j == i
  {
    match s
    case Bottom => 0
    case Right => 1
    case Top => 2
    case Left => 3
  }

  /** The neighbour across a side: `p.offset(delta[sides.indexOf(s)])`. */
  function Step(p: Point, s: Side): Point
  {
    Offset(p, Delta[IndexOf(s)])
  }

  /** The side through which the neighbour across `s` sees this point. */
  function Opposite(s: Side): Side
  {
    OppositeSides[IndexOf(s)]
  }

  /** Serialization is injective: equal keys mean equal points. */
  lemma SerializeInjective(p: Point, q: Point)
    ensures Serialize(p) == Serialize(q) <==> Equals(p, q)
  {
  }

  /** The heuristic is symmetric. */
  lemma HeuristicSymmetric(a: Point, b: Point)
    ensures Heuristic(a, b) == Heuristic(b, a)
  {
  }

  /** One step across any side costs exactly 1 in the heuristic. */
  lemma HeuristicStep(p: Point, s: Side)
    ensures Heuristic(p, Step(p, s)) == 1
  {
  }

  /** The heuristic changes by at most 1 across one step (it is consistent). */
  lemma HeuristicConsistent(p: Point, s: Side, t: Point)
    ensures Heuristic(p, t) <= 1 + Heuristic(Step(p, s), t)
    ensures Heuristic(Step(p, s), t) <= 1 + Heuristic(p, t)
  {
  }

  /**
   * The tables agree: the opposite side at index i has the negated delta,
   * so stepping across a side and back across its opposite returns home.
   */
  lemma OppositeSidesNegateDelta(i: nat)
    requires i < |Delta|
    ensures |OppositeSides| == |Delta| == |Sides|
    ensures Opposite(Sides[i]) == OppositeSides[i]
    ensures Delta[IndexOf(OppositeSides[i])] == (-Delta[i].0, -Delta[i].1)
  {
  }

  lemma StepBack(p: Point, s: Side)
    ensures Step(Step(p, s), Opposite(s)) == p
    ensures Opposite(Opposite(s)) == s
  {
  }

  /** Different sides lead to different neighbours, none of them the point itself. */
  lemma StepsDistinct(p: Point, s: Side, t: Side)
    ensures Step(p, s) != p
    ensures s != t ==> Step(p, s) != Step(p, t)
  {
  }
}
