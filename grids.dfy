/**
 * The wall state of the maze: one `open` record per block, the blocks
 * table indexed [y][x] (app.js:180-210), the moves the walls allow
 * (app.js:267-283) and the walks built from such moves.
 */
module Grids {
  import opened Options
  import opened Geometry

  /** A block's `open` record: whether each of its four sides is carved open. */
  datatype Walls = Walls(left: bool, top: bool, bottom: bool, right: bool)
  {
    predicate Open(s: Side)
    {
      match s
      case Left => left
      case Top => top
      case Bottom => bottom
      case Right => right
    }

    /** `block.open[s] = true`. */
    function Opened(s: Side): (w: Walls)
      ensures w.Open(s)
      ensures forall t :: t != s ==> w.Open(t) == Open(t)
    {
      match s
      case Left => this.(left := true)
      case Top => this.(top := true)
      case Bottom => this.(bottom := true)
      case Right => this.(right := true)
    }
  }

  /** The record `createBlock` gives every new block: all four sides closed. */
  const Closed: Walls := Walls(false, false, false, false)

  /** The `blocks` table: `g[y][x]` is the record of the block at (x, y). */
  type Grid = seq<seq<Walls>>

  /** The table has `bounds.y` rows of `bounds.x` blocks each. */
  predicate Shaped(g: Grid, bounds: Point)
  {
    |g| == bounds.y && forall y :: 0 <= y < |g| ==> |g[y]| == bounds.x
  }

  /** Whether the block at `p` exists and its side `s` is open. */
  predicate IsOpen(g: Grid, p: Point, s: Side)
  {
    0 <= p.y < |g| && 0 <= p.x < |g[p.y]| && g[p.y][p.x].Open(s)
  }

  /** `getBlock(p).open`. */
  function At(g: Grid, p: Point): (w: Walls)
    requires 0 <= p.y < |g| && 0 <= p.x < |g[p.y]|
    ensures forall s :: w.Open(s) <==> IsOpen(g, p, s)
  {
    g[p.y][p.x]
  }

  /** The table with the record at `p` replaced by `w`. */
  function SetAt(g: Grid, p: Point, w: Walls): (r: Grid)
    requires 0 <= p.y < |g| && 0 <= p.x < |g[p.y]|
    ensures |r| == |g| && forall y :: 0 <= y < |g| ==> |r[y]| == |g[y]|
    ensures forall q, s :: IsOpen(r, q, s) <==> if q == p then w.Open(s) else IsOpen(g, q, s)
  {
    g[p.y := g[p.y][p.x := w]]
  }

  /** The table that `reset` builds: every block present and closed. */
  function ClosedGrid(bounds: Point): (g: Grid)
    requires bounds.x >= 0 && bounds.y >= 0
    ensures Shaped(g, bounds)
    ensures forall p, s :: !IsOpen(g, p, s)
  {
    seq(bounds.y, _ => seq(bounds.x, _ => Closed))
  }

  /** Every wall open in `g0` is still open in `g`. */
  ghost predicate Extends(g: Grid, g0: Grid)
  {
    forall p, s :: IsOpen(g0, p, s) ==> IsOpen(g, p, s)
  }

  /**
   * The grid invariant: an open side of an in-bounds block leads to an
   * in-bounds neighbour whose facing side is open too.
   */
  ghost predicate Symmetric(g: Grid, bounds: Point)
  {
    forall p, s {:trigger IsOpen(g, p, s)} :: InsideBounds(p, bounds) && IsOpen(g, p, s) ==>
      InsideBounds(Step(p, s), bounds) && IsOpen(g, Step(p, s), Opposite(s))
  }

  /**
   * What `movePlayer` allows: the neighbour across `d` when it is inside
   * bounds and the side `d` of the block at `p` is open, else nothing.
   */
  function Move(g: Grid, bounds: Point, p: Point, d: Side): (r: Option<Point>)
    ensures r.Some? ==> InsideBounds(r.value, bounds) && IsOpen(g, p, d) && r.value == Step(p, d)
    ensures r.None? <==> !InsideBounds(Step(p, d), bounds) || !IsOpen(g, p, d)
  {
    var next := Step(p, d);
    if !InsideBounds(next, bounds) then None
    else if !IsOpen(g, p, d) then None
    else Some(next)
  }

  /** `q` is one legal move away from `p`. */
  predicate Linked(g: Grid, bounds: Point, p: Point, q: Point)
  {
    || Move(g, bounds, p, Bottom) == Some(q)
    || Move(g, bounds, p, Right) == Some(q)
    || Move(g, bounds, p, Top) == Some(q)
    || Move(g, bounds, p, Left) == Some(q)
  }

  /** A walk from `from` visiting the points of `pts` in order, one legal move each. */
  predicate IsPath(g: Grid, bounds: Point, from: Point, pts: seq<Point>)
    decreases |pts|
  {
    |pts| == 0 || (Linked(g, bounds, from, pts[0]) && IsPath(g, bounds, pts[0], pts[1..]))
  }

  /** Where a walk from `from` through `pts` ends. */
  function EndOf(from: Point, pts: seq<Point>): Point
  {
    if |pts| == 0 then from else pts[|pts| - 1]
  }

  /** Some walk through open walls leads from `from` to `to`. */
  ghost predicate Reachable(g: Grid, bounds: Point, from: Point, to: Point)
  {
    exists pts :: IsPath(g, bounds, from, pts) && EndOf(from, pts) == to
  }

  /** The keys of all in-bounds points: `blockCount` of them. */
  function Cells(bounds: Point): set<(int, int)>
  {
    set x, y | 0 <= x < bounds.x && 0 <= y < bounds.y :: (x, y)
  }

  lemma CellsMembership(p: Point, bounds: Point)
    ensures Serialize(p) in Cells(bounds) <==> InsideBounds(p, bounds)
  {
    if InsideBounds(p, bounds) {
      assert (p.x, p.y) in Cells(bounds);
    }
  }

  /** The keys of row `y`, for x below `w`. */
  function RowCells(w: int, y: int): set<(int, int)>
  {
    set x | 0 <= x < w :: (x, y)
  }

  lemma {:induction false} RowCellsCardinality(w: nat, y: int)
    ensures |RowCells(w, y)| == w
  {
    if w > 0 {
      RowCellsCardinality(w - 1, y);
      assert RowCells(w, y) == RowCells(w - 1, y) + {(w - 1, y)};
    }
  }

  /** The cells of a grid are those of the grid one row shorter plus the last row. */
  lemma CellsLastRow(bounds: Point)
    requires bounds.y > 0
    ensures Cells(bounds) == Cells(Point(bounds.x, bounds.y - 1)) + RowCells(bounds.x, bounds.y - 1)
    ensures Cells(Point(bounds.x, bounds.y - 1)) !! RowCells(bounds.x, bounds.y - 1)
  {
    var rows, row := Cells(Point(bounds.x, bounds.y - 1)), RowCells(bounds.x, bounds.y - 1);
    forall k | k in Cells(bounds) ensures k in rows + row {
      if k.1 < bounds.y - 1 {
        assert k in rows;
      } else {
        assert k in row;
      }
    }
    forall k | k in row ensures k !in rows {
      assert k.1 == bounds.y - 1;
    }
  }

  lemma OneMoreRow(w: int, h: int)
    ensures w * (h - 1) + w == w * h
  {
  }

  /** There are exactly `bounds.x * bounds.y` cells. */
  lemma {:induction false} CellsCardinality(bounds: Point)
    requires bounds.x >= 0 && bounds.y >= 0
    ensures |Cells(bounds)| == bounds.x * bounds.y
    decreases bounds.y
  {
    if bounds.y > 0 {
      var fewer := Point(bounds.x, bounds.y - 1);
      CellsCardinality(fewer);
      RowCellsCardinality(bounds.x, bounds.y - 1);
      CellsLastRow(bounds);
      OneMoreRow(bounds.x, bounds.y);
    } else {
      assert Cells(bounds) == {};
    }
  }

  /** Extending a walk by one legal move. */
  lemma {:induction false} PathAppend(g: Grid, bounds: Point, from: Point, pts: seq<Point>, q: Point)
    requires IsPath(g, bounds, from, pts)
    requires Linked(g, bounds, EndOf(from, pts), q)
    ensures IsPath(g, bounds, from, pts + [q]) && EndOf(from, pts + [q]) == q
    decreases |pts|
  {
    if |pts| > 0 {
      PathAppend(g, bounds, pts[0], pts[1..], q);
      assert (pts + [q])[1..] == pts[1..] + [q];
    }
  }

  /** Opening more walls keeps every walk legal. */
  lemma {:induction false} PathExtends(g0: Grid, g: Grid, bounds: Point, from: Point, pts: seq<Point>)
    requires Extends(g, g0)
    requires IsPath(g0, bounds, from, pts)
    ensures IsPath(g, bounds, from, pts)
    decreases |pts|
  {
    if |pts| > 0 {
      PathExtends(g0, g, bounds, pts[0], pts[1..]);
    }
  }

  /** Every point of a walk is inside bounds. */
  lemma {:induction false} PathInside(g: Grid, bounds: Point, from: Point, pts: seq<Point>)
    requires IsPath(g, bounds, from, pts)
    ensures forall i :: 0 <= i < |pts| ==> InsideBounds(pts[i], bounds)
    decreases |pts|
  {
    if |pts| > 0 {
      PathInside(g, bounds, pts[0], pts[1..]);
      forall i | 1 <= i < |pts| ensures InsideBounds(pts[i], bounds) {
        assert pts[i] == pts[1..][i - 1];
      }
    }
  }

  /** On a symmetric grid every legal move can be undone by the opposite move. */
  lemma MoveReversible(g: Grid, bounds: Point, p: Point, d: Side)
    requires Symmetric(g, bounds) && InsideBounds(p, bounds)
    requires Move(g, bounds, p, d).Some?
    ensures Move(g, bounds, Move(g, bounds, p, d).value, Opposite(d)) == Some(p)
  {
    StepBack(p, d);
  }

  /**
   * The Manhattan distance never exceeds the length of a walk: the heuristic
   * is admissible on this grid.
   */
  lemma {:induction false} HeuristicAdmissible(g: Grid, bounds: Point, from: Point, pts: seq<Point>)
    requires IsPath(g, bounds, from, pts)
    ensures Heuristic(from, EndOf(from, pts)) <= |pts|
    decreases |pts|
  {
    if |pts| > 0 {
      HeuristicAdmissible(g, bounds, pts[0], pts[1..]);
      assert EndOf(pts[0], pts[1..]) == EndOf(from, pts);
      LinkedNeighbours(g, bounds, from, pts[0]);
    }
  }

  /**
   * A set of keys that holds `from` and is closed under legal moves holds
   * the end of every walk from `from`.
   */
  lemma {:induction false} ClosedSetHoldsWalk(g: Grid, bounds: Point, s: set<(int, int)>, from: Point, pts: seq<Point>)
    requires Serialize(from) in s
    requires forall p, d :: Serialize(p) in s && Move(g, bounds, p, d).Some? ==> Serialize(Step(p, d)) in s
    requires IsPath(g, bounds, from, pts)
    ensures Serialize(EndOf(from, pts)) in s
    decreases |pts|
  {
    if |pts| > 0 {
      assert Serialize(pts[0]) in s by {
        var d :| Move(g, bounds, from, d) == Some(pts[0]);
        assert Step(from, d) == pts[0];
      }
      ClosedSetHoldsWalk(g, bounds, s, pts[0], pts[1..]);
      assert EndOf(pts[0], pts[1..]) == EndOf(from, pts);
    }
  }

  /** Walking along row `p.y` towards column `tx` inside a neighbour-closed set. */
  lemma {:induction false} ClosedSetHoldsRow(bounds: Point, s: set<(int, int)>, p: Point, tx: int)
    requires InsideBounds(p, bounds) && Serialize(p) in s && 0 <= tx < bounds.x
    requires forall q, d :: Serialize(q) in s && InsideBounds(q, bounds) && InsideBounds(Step(q, d), bounds) ==> Serialize(Step(q, d)) in s
    ensures Serialize(Point(tx, p.y)) in s
    decreases if p.x < tx then tx - p.x else p.x - tx
  {
    if p.x < tx {
      ClosedSetHoldsRow(bounds, s, Step(p, Right), tx);
    } else if p.x > tx {
      ClosedSetHoldsRow(bounds, s, Step(p, Left), tx);
    }
  }

  /** Walking along column `p.x` towards row `ty` inside a neighbour-closed set. */
  lemma {:induction false} ClosedSetHoldsColumn(bounds: Point, s: set<(int, int)>, p: Point, ty: int)
    requires InsideBounds(p, bounds) && Serialize(p) in s && 0 <= ty < bounds.y
    requires forall q, d :: Serialize(q) in s && InsideBounds(q, bounds) && InsideBounds(Step(q, d), bounds) ==> Serialize(Step(q, d)) in s
    ensures Serialize(Point(p.x, ty)) in s
    decreases if p.y < ty then ty - p.y else p.y - ty
  {
    if p.y < ty {
      ClosedSetHoldsColumn(bounds, s, Step(p, Bottom), ty);
    } else if p.y > ty {
      ClosedSetHoldsColumn(bounds, s, Step(p, Top), ty);
    }
  }

  /**
   * The grid is connected when walls are ignored: a set of keys holding an
   * in-bounds point and closed under in-bounds neighbours holds every cell.
   */
  lemma ClosedSetCoversGrid(bounds: Point, s: set<(int, int)>, start: Point)
    requires InsideBounds(start, bounds) && Serialize(start) in s
    requires forall q, d :: Serialize(q) in s && InsideBounds(q, bounds) && InsideBounds(Step(q, d), bounds) ==> Serialize(Step(q, d)) in s
    ensures Cells(bounds) <= s
  {
    forall k | k in Cells(bounds) ensures k in s {
      var x, y := k.0, k.1;
      ClosedSetHoldsRow(bounds, s, start, x);
      ClosedSetHoldsColumn(bounds, s, Point(x, start.y), y);
    }
  }
  /** A legal move across any side links the two points. */
  lemma LinkedByMove(g: Grid, bounds: Point, p: Point, d: Side)
    requires Move(g, bounds, p, d).Some?
    ensures Linked(g, bounds, p, Step(p, d))
  {
    match d
    case Bottom =>
    case Right =>
    case Top =>
    case Left =>
  }

  /** Every point reaches itself by the empty walk. */
  lemma ReachableItself(g: Grid, bounds: Point, p: Point)
    ensures Reachable(g, bounds, p, p)
  {
    assert IsPath(g, bounds, p, []) && EndOf(p, []) == p;
  }

  /** Opening more walls keeps every point reachable. */
  lemma ReachableExtends(g0: Grid, g: Grid, bounds: Point, from: Point, to: Point)
    requires Extends(g, g0) && Reachable(g0, bounds, from, to)
    ensures Reachable(g, bounds, from, to)
  {
    var pts :| IsPath(g0, bounds, from, pts) && EndOf(from, pts) == to;
    PathExtends(g0, g, bounds, from, pts);
  }

  /** One legal move beyond a reachable point is reachable. */
  lemma ReachableStep(g: Grid, bounds: Point, from: Point, p: Point, d: Side)
    requires Reachable(g, bounds, from, p) && Move(g, bounds, p, d).Some?
    ensures Reachable(g, bounds, from, Step(p, d))
  {
    var pts :| IsPath(g, bounds, from, pts) && EndOf(from, pts) == p;
    LinkedByMove(g, bounds, p, d);
    PathAppend(g, bounds, from, pts, Step(p, d));
  }

  /** A subset of a finite set is no larger than it; an equally large subset is the whole set. */
  lemma SubsetCardinality<T>(a: set<T>, b: set<T>)
    requires a <= b
    ensures |a| <= |b|
    ensures |a| == |b| ==> a == b
  {
    assert b == a + (b - a);
    if |a| == |b| {
      assert |b - a| == 0;
    }
  }

  /** Linked points are one unit apart in the heuristic. */
  lemma LinkedNeighbours(g: Grid, bounds: Point, p: Point, q: Point)
    requires Linked(g, bounds, p, q)
    ensures Heuristic(p, q) == 1
  {
    var d :| Move(g, bounds, p, d) == Some(q);
    HeuristicStep(p, d);
  }
}
