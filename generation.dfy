/**
 * The randomized depth-first backtracker behind `generate` (app.js:299-344)
 * and `generateMultipleSolutions` (app.js:553-600), stated on values: what
 * `getAdjacents` returns, what one loop body does to the blocks, the stack
 * and the visited set, and the invariant which makes the walls carved by a
 * full run a spanning tree of the grid.
 */
module Generation {
  import opened Options
  import opened Geometry
  import opened Grids
  import opened Shuffling

  /**
   * An entry of `getAdjacents`: the neighbouring point, the side of the
   * current block that faces it, and the neighbour's side that faces back.
   */
  datatype Adjacent = Adjacent(point: Point, side: Side, oppositeSide: Side)

  /** The entry built for direction index `i`: `delta[i]`, `sides[i]`, `oppositeSides[i]`. */
  function Candidate(p: Point, i: nat): (a: Adjacent)
    requires i < |Delta|
    ensures a.point == Step(p, a.side) && a.oppositeSide == Opposite(a.side)
    ensures IndexOf(a.side) == i
  {
    Adjacent(Offset(p, Delta[i]), Sides[i], OppositeSides[i])
  }

  /** `a` is a neighbour of `p` across `a.side`, inside bounds and not yet visited. */
  predicate Fits(p: Point, bounds: Point, visited: set<(int, int)>, a: Adjacent)
  {
    && a.point == Step(p, a.side)
    && a.oppositeSide == Opposite(a.side)
    && InsideBounds(a.point, bounds)
    && Serialize(a.point) !in visited
  }

  /**
   * The list `getAdjacents(p, visited)` holds after its loop has looked at
   * direction indices `0 .. i-1`: exactly the fitting neighbours across
   * those directions, in direction order.
   */
  function AdjacentsUpTo(p: Point, bounds: Point, visited: set<(int, int)>, i: nat): (r: seq<Adjacent>)
    requires i <= |Delta|
    ensures |r| <= i
    ensures forall k :: 0 <= k < |r| ==> Fits(p, bounds, visited, r[k]) && IndexOf(r[k].side) < i
    ensures forall k, l :: 0 <= k < l < |r| ==> IndexOf(r[k].side) < IndexOf(r[l].side)
    ensures forall s :: IndexOf(s) < i && InsideBounds(Step(p, s), bounds) && Serialize(Step(p, s)) !in visited ==>
      Adjacent(Step(p, s), s, Opposite(s)) in r
  {
    if i == 0 then []
    else
      var c := Candidate(p, i - 1);
      AdjacentsUpTo(p, bounds, visited, i - 1)
        + (if InsideBounds(c.point, bounds) && Serialize(c.point) !in visited then [c] else [])
  }

  /** `getAdjacents(p, visited)`. */
  function Adjacents(p: Point, bounds: Point, visited: set<(int, int)>): seq<Adjacent>
  {
    AdjacentsUpTo(p, bounds, visited, |Delta|)
  }

  /**
   * `getAdjacents` returns at most four entries, one per side, and they are
   * exactly the in-bounds unvisited neighbours, each with its facing sides.
   */
  lemma AdjacentsExactly(p: Point, bounds: Point, visited: set<(int, int)>)
    ensures |Adjacents(p, bounds, visited)| <= 4
    ensures forall a :: a in Adjacents(p, bounds, visited) <==> Fits(p, bounds, visited, a)
    ensures forall k, l :: 0 <= k < l < |Adjacents(p, bounds, visited)| ==>
      Adjacents(p, bounds, visited)[k].side != Adjacents(p, bounds, visited)[l].side
    ensures |Adjacents(p, bounds, visited)| == 0 <==>
      forall s :: InsideBounds(Step(p, s), bounds) ==> Serialize(Step(p, s)) in visited
  {
    var r := Adjacents(p, bounds, visited);
    forall a | Fits(p, bounds, visited, a) ensures a in r {
      assert a == Adjacent(Step(p, a.side), a.side, Opposite(a.side));
    }
    forall s | InsideBounds(Step(p, s), bounds) && Serialize(Step(p, s)) !in visited ensures |r| > 0 {
      assert Adjacent(Step(p, s), s, Opposite(s)) in r;
    }
    if |r| > 0 {
      assert Fits(p, bounds, visited, r[0]);
    }
  }

  /** The state one loop body works on: the blocks, the explicit stack and the visited keys. */
  datatype Carving = Carving(blocks: Grid, stack: seq<Point>, visited: set<(int, int)>)

  /** `stack[stack.length - 1]`. */
  function Top(c: Carving): Point
    requires |c.stack| > 0
  {
    c.stack[|c.stack| - 1]
  }

  /** The body's first part: the top of the stack joins the visited set. */
  function MarkTop(c: Carving): Carving
    requires |c.stack| > 0
  {
    c.(visited := c.visited + {Serialize(Top(c))})
  }

  /** No unvisited neighbour: `stack.pop()`. */
  function Backtrack(c: Carving): Carving
    requires |c.stack| > 0
  {
    c.(stack := c.stack[..|c.stack| - 1])
  }

  /**
   * `np` chosen: it is pushed, the top block opens `np.side` and the
   * neighbour's block opens `np.oppositeSide`; no other wall changes.
   */
  function Carve(c: Carving, bounds: Point, np: Adjacent): (r: Carving)
    requires |c.stack| > 0 && Shaped(c.blocks, bounds)
    requires InsideBounds(Top(c), bounds) && InsideBounds(np.point, bounds)
    ensures Shaped(r.blocks, bounds)
    ensures r.stack == c.stack + [np.point] && r.visited == c.visited
    ensures forall q, s :: IsOpen(r.blocks, q, s) <==>
      (q == Top(c) && s == np.side) || (q == np.point && s == np.oppositeSide) || IsOpen(c.blocks, q, s)
  {
    Carving(CarveWalls(c.blocks, bounds, Top(c), np), c.stack + [np.point], c.visited)
  }

  /** The two wall writes of a carve: `np.side` of the block at `p`, `np.oppositeSide` of the block at `np.point`. */
  function CarveWalls(g: Grid, bounds: Point, p: Point, np: Adjacent): (r: Grid)
    requires Shaped(g, bounds) && InsideBounds(p, bounds) && InsideBounds(np.point, bounds)
    ensures Shaped(r, bounds)
    ensures forall q, s :: IsOpen(r, q, s) <==>
      (q == p && s == np.side) || (q == np.point && s == np.oppositeSide) || IsOpen(g, q, s)
  {
    var g1 := SetAt(g, p, At(g, p).Opened(np.side));
    SetAt(g1, np.point, At(g1, np.point).Opened(np.oppositeSide))
  }

  /** The precondition of a loop body: a stack whose top is a block of the grid. */
  predicate CanStep(c: Carving, bounds: Point)
  {
    |c.stack| > 0 && Shaped(c.blocks, bounds) && InsideBounds(Top(c), bounds)
  }

  /**
   * What one loop body does: the top of the stack joins the visited set.
   * When every neighbour of the top inside the bounds is visited, the stack
   * is popped and no wall changes. Otherwise an unvisited neighbour inside
   * the bounds is pushed and exactly the wall between the two is opened.
   */
  ghost predicate BodyStep(c: Carving, bounds: Point, r: Carving)
    requires |c.stack| > 0
  {
    var p := Top(c);
    && r.visited == c.visited + {Serialize(p)}
    && if forall s :: InsideBounds(Step(p, s), bounds) ==> Serialize(Step(p, s)) in r.visited then
         r.blocks == c.blocks && r.stack == c.stack[..|c.stack| - 1]
       else
         && |r.stack| == |c.stack| + 1 && r.stack[..|c.stack|] == c.stack
         && var q := r.stack[|c.stack|];
            && InsideBounds(q, bounds) && Serialize(q) !in r.visited && Heuristic(p, q) == 1
            && forall t, s :: IsOpen(r.blocks, t, s) <==>
                 IsOpen(c.blocks, t, s) || (t == p && Step(t, s) == q) || (t == q && Step(t, s) == p)
  }

  /** Popping a top without unvisited neighbours is a loop body's first outcome. */
  lemma BacktrackStep(c: Carving, bounds: Point)
    requires CanStep(c, bounds) && |Adjacents(Top(c), bounds, MarkTop(c).visited)| == 0
    ensures BodyStep(c, bounds, Backtrack(MarkTop(c)))
  {
    AdjacentsExactly(Top(c), bounds, MarkTop(c).visited);
  }

  /** Carving towards any of the adjacents is a loop body's second outcome. */
  lemma CarveStep(c: Carving, bounds: Point, np: Adjacent)
    requires CanStep(c, bounds) && np in Adjacents(Top(c), bounds, MarkTop(c).visited)
    ensures BodyStep(c, bounds, Carve(MarkTop(c), bounds, np))
  {
    var p := Top(c);
    AdjacentsExactly(p, bounds, MarkTop(c).visited);
    forall s ensures s == np.side <==> Step(p, s) == np.point {
      StepsDistinct(p, s, np.side);
    }
    StepBack(p, np.side);
    forall s ensures s == np.oppositeSide <==> Step(np.point, s) == p {
      StepsDistinct(np.point, s, np.oppositeSide);
    }
    HeuristicStep(p, np.side);
    var r := Carve(MarkTop(c), bounds, np);
    assert r.stack[..|c.stack|] == c.stack;
    assert !forall s :: InsideBounds(Step(p, s), bounds) ==> Serialize(Step(p, s)) in r.visited by {
      assert InsideBounds(Step(p, np.side), bounds) && Serialize(Step(p, np.side)) !in r.visited;
    }
  }

  /** One body of `generate`'s loop, `rand` standing for `parseInt(Math.random() * 1000)`. */
  function GenerateBody(c: Carving, bounds: Point, rand: nat): (r: Carving)
    requires CanStep(c, bounds)
    ensures BodyStep(c, bounds, r)
  {
    var c1 := MarkTop(c);
    var adjacents := Adjacents(Top(c1), bounds, c1.visited);
    if |adjacents| == 0 then BacktrackStep(c, bounds); Backtrack(c1)
    else
      var np := adjacents[rand % |adjacents|];
      CarveStep(c, bounds, np);
      Carve(c1, bounds, np)
  }

  /**
   * One body of `generateMultipleSolutions`' loop: the adjacents are
   * shuffled with the draws `js` and the last one is taken.
   */
  function MultipleSolutionsBody(c: Carving, bounds: Point, js: seq<nat>): (r: Carving)
    requires CanStep(c, bounds) && ValidDraws(js, |Delta|)
    ensures BodyStep(c, bounds, r)
  {
    var c1 := MarkTop(c);
    var adjacents := Adjacents(Top(c1), bounds, c1.visited);
    AdjacentsExactly(Top(c1), bounds, c1.visited);
    if |adjacents| == 0 then BacktrackStep(c, bounds); Backtrack(c1)
    else
      var np := ShuffledLast(adjacents, js);
      CarveStep(c, bounds, np);
      Carve(c1, bounds, np)
  }

  /**
   * The name of the wall between `p` and its neighbour across `s`, taken
   * from the block whose bottom or right side it is, so that both blocks
   * sharing a wall give it the same name.
   */
  function Canonical(p: Point, s: Side): (e: (Point, Side))
    ensures e.1 == Bottom || e.1 == Right
  {
    if s == Bottom || s == Right then (p, s) else (Step(p, s), Opposite(s))
  }

  /** Two sides of blocks name the same wall exactly when they face each other. */
  lemma CanonicalSameWall(q: Point, t: Side, p: Point, s: Side)
    ensures Canonical(q, t) == Canonical(p, s) <==> (q == p && t == s) || (q == Step(p, s) && t == Opposite(s))
  {
    StepBack(p, s);
    StepBack(q, t);
  }

  /** The walls open between in-bounds blocks, each named once. */
  function OpenEdges(g: Grid, bounds: Point): set<(Point, Side)>
  {
    set x, y, s | 0 <= x < bounds.x && 0 <= y < bounds.y && s in {Bottom, Right} && IsOpen(g, Point(x, y), s) ::
      (Point(x, y), s)
  }

  /** `reset`'s closed blocks have no open wall. */
  lemma OpenEdgesClosed(bounds: Point)
    requires bounds.x >= 0 && bounds.y >= 0
    ensures OpenEdges(ClosedGrid(bounds), bounds) == {}
  {
  }

  /*
   * The invariant of the generation loop is stated over two pieces of ghost
   * bookkeeping: `reached`, the visited keys plus a freshly pushed top, and
   * `tree`, the walls carved so far by canonical name; `g0` is the blocks
   * the run started from. It comes in four parts.
   */

  /** The stack and the visited set: the stack's blocks are reached, all but its top visited. */
  ghost predicate StackShaped(c: Carving, bounds: Point, start: Point, reached: set<(int, int)>)
  {
    && Shaped(c.blocks, bounds)
    && InsideBounds(start, bounds) && Serialize(start) in reached
    && c.visited <= reached <= Cells(bounds)
    && (forall i :: 0 <= i < |c.stack| ==> InsideBounds(c.stack[i], bounds) && Serialize(c.stack[i]) in reached)
    && (forall i :: 0 <= i < |c.stack| - 1 ==> Serialize(c.stack[i]) in c.visited)
    && (forall k :: k in reached && k !in c.visited ==> |c.stack| > 0 && k == Serialize(Top(c)))
  }

  /** A visited block that has left the stack has no unvisited neighbour. */
  ghost predicate Backtracked(c: Carving, bounds: Point)
  {
    forall p, s :: Serialize(p) in c.visited && InsideBounds(Step(p, s), bounds) && Serialize(Step(p, s)) !in c.visited ==>
      p in c.stack
  }

  /**
   * The walls: symmetric, open exactly where `g0` was open or a wall was
   * carved, and one carved wall joining two reached blocks per reached block
   * beyond the start.
   */
  ghost predicate WallsCarved(g: Grid, g0: Grid, bounds: Point, reached: set<(int, int)>, tree: set<(Point, Side)>)
  {
    && Shaped(g0, bounds) && Symmetric(g, bounds)
    && (forall p, s :: InsideBounds(p, bounds) ==> (IsOpen(g, p, s) <==> IsOpen(g0, p, s) || Canonical(p, s) in tree))
    && (forall e :: e in tree ==> Serialize(e.0) in reached && Serialize(Step(e.0, e.1)) in reached && (e.1 == Bottom || e.1 == Right))
    && |tree| + 1 == |reached|
  }

  /** Every reached block can be walked to from the start. */
  ghost predicate ReachedFromStart(g: Grid, bounds: Point, start: Point, reached: set<(int, int)>)
  {
    forall p :: Serialize(p) in reached ==> Reachable(g, bounds, start, p)
  }

  /** The invariant of the generation loop. */
  ghost predicate Carved(c: Carving, g0: Grid, bounds: Point, start: Point, reached: set<(int, int)>, tree: set<(Point, Side)>)
  {
    && StackShaped(c, bounds, start, reached)
    && Backtracked(c, bounds)
    && WallsCarved(c.blocks, g0, bounds, reached, tree)
    && ReachedFromStart(c.blocks, bounds, start, reached)
  }

  /** The state `generate` starts from: the start point alone on the stack. */
  lemma CarvedInitially(g0: Grid, bounds: Point, start: Point)
    requires Shaped(g0, bounds) && Symmetric(g0, bounds) && InsideBounds(start, bounds)
    ensures Carved(Carving(g0, [start], {}), g0, bounds, start, {Serialize(start)}, {})
  {
    var c := Carving(g0, [start], {});
    CellsMembership(start, bounds);
    assert StackShaped(c, bounds, start, {Serialize(start)});
    assert WallsCarved(g0, g0, bounds, {Serialize(start)}, {});
    forall p | Serialize(p) in {Serialize(start)} ensures Reachable(g0, bounds, start, p) {
      SerializeInjective(p, start);
      ReachableItself(g0, bounds, start);
    }
  }

  /** The grid's cells bound the reached set, so the loop measure stays non-negative. */
  lemma ReachedBounded(c: Carving, bounds: Point, start: Point, reached: set<(int, int)>)
    requires StackShaped(c, bounds, start, reached)
    ensures |c.visited| <= |reached| <= bounds.x * bounds.y
  {
    CellsMembership(start, bounds);
    CellsCardinality(bounds);
    SubsetCardinality(c.visited, reached);
    SubsetCardinality(reached, Cells(bounds));
  }

  /**
   * While fewer than `blockCount` blocks are visited the stack is not
   * empty: `stack[stack.length - 1]` always names a block.
   */
  lemma StackNotEmpty(c: Carving, bounds: Point, start: Point, reached: set<(int, int)>)
    requires StackShaped(c, bounds, start, reached) && Backtracked(c, bounds)
    requires |c.visited| < bounds.x * bounds.y
    ensures CanStep(c, bounds)
  {
    if |c.stack| == 0 {
      assert reached == c.visited;
      ClosedSetCoversGrid(bounds, c.visited, start);
      CellsMembership(start, bounds);
      CellsCardinality(bounds);
      SubsetCardinality(Cells(bounds), c.visited);
      SubsetCardinality(c.visited, Cells(bounds));
      assert false;
    }
  }

  /** Marking the top visited keeps the stack part and catches `visited` up with `reached`. */
  lemma MarkTopKeepsStack(c: Carving, bounds: Point, start: Point, reached: set<(int, int)>)
    requires StackShaped(c, bounds, start, reached) && |c.stack| > 0
    ensures StackShaped(MarkTop(c), bounds, start, reached)
    ensures MarkTop(c).visited == reached && c.visited <= reached
  {
    assert Serialize(Top(c)) in reached;
  }

  /** Marking the top visited keeps the backtracking part: the top is on the stack. */
  lemma MarkTopKeepsBacktracked(c: Carving, bounds: Point)
    requires Backtracked(c, bounds) && |c.stack| > 0
    ensures Backtracked(MarkTop(c), bounds)
  {
    var c1 := MarkTop(c);
    forall p, s | Serialize(p) in c1.visited && InsideBounds(Step(p, s), bounds) && Serialize(Step(p, s)) !in c1.visited
      ensures p in c1.stack
    {
      SerializeInjective(p, Top(c));
    }
  }

  /** Marking the top visited keeps the invariant and catches `visited` up with `reached`. */
  lemma MarkTopKeeps(c: Carving, g0: Grid, bounds: Point, start: Point, reached: set<(int, int)>, tree: set<(Point, Side)>)
    requires Carved(c, g0, bounds, start, reached, tree) && |c.stack| > 0
    ensures Carved(MarkTop(c), g0, bounds, start, reached, tree)
    ensures MarkTop(c).visited == reached && c.visited <= reached
  {
    MarkTopKeepsStack(c, bounds, start, reached);
    MarkTopKeepsBacktracked(c, bounds);
  }

  /** Popping a block with no unvisited neighbour keeps the stack part. */
  lemma BacktrackKeepsStack(c: Carving, bounds: Point, start: Point, reached: set<(int, int)>)
    requires StackShaped(c, bounds, start, reached) && |c.stack| > 0 && c.visited == reached
    ensures StackShaped(Backtrack(c), bounds, start, reached)
  {
    var c1 := Backtrack(c);
    forall i | 0 <= i < |c1.stack| ensures InsideBounds(c1.stack[i], bounds) && Serialize(c1.stack[i]) in reached {
      assert c1.stack[i] == c.stack[i];
    }
    forall i | 0 <= i < |c1.stack| - 1 ensures Serialize(c1.stack[i]) in c1.visited {
      assert c1.stack[i] == c.stack[i];
    }
  }

  /** Popping a block with no unvisited neighbour keeps the backtracking part. */
  lemma BacktrackKeepsBacktracked(c: Carving, bounds: Point)
    requires Backtracked(c, bounds) && |c.stack| > 0
    requires |Adjacents(Top(c), bounds, c.visited)| == 0
    ensures Backtracked(Backtrack(c), bounds)
  {
    var c1 := Backtrack(c);
    AdjacentsExactly(Top(c), bounds, c.visited);
    forall p, s | Serialize(p) in c1.visited && InsideBounds(Step(p, s), bounds) && Serialize(Step(p, s)) !in c1.visited
      ensures p in c1.stack
    {
      var i :| 0 <= i < |c.stack| && c.stack[i] == p;
      assert p != Top(c);
      assert c1.stack[i] == p;
    }
  }

  /** Popping a block with no unvisited neighbour keeps the invariant. */
  lemma BacktrackKeeps(c: Carving, g0: Grid, bounds: Point, start: Point, reached: set<(int, int)>, tree: set<(Point, Side)>)
    requires Carved(c, g0, bounds, start, reached, tree) && |c.stack| > 0 && c.visited == reached
    requires |Adjacents(Top(c), bounds, c.visited)| == 0
    ensures Carved(Backtrack(c), g0, bounds, start, reached, tree)
  {
    BacktrackKeepsStack(c, bounds, start, reached);
    BacktrackKeepsBacktracked(c, bounds);
  }

  /** Carving keeps the walls symmetric: the two opened sides face each other. */
  lemma CarveKeepsSymmetric(c: Carving, bounds: Point, np: Adjacent)
    requires CanStep(c, bounds) && Symmetric(c.blocks, bounds)
    requires Fits(Top(c), bounds, c.visited, np)
    ensures Symmetric(Carve(c, bounds, np).blocks, bounds)
  {
    var g := Carve(c, bounds, np).blocks;
    StepBack(Top(c), np.side);
    forall p, s | InsideBounds(p, bounds) && IsOpen(g, p, s)
      ensures InsideBounds(Step(p, s), bounds) && IsOpen(g, Step(p, s), Opposite(s))
    {
      if p == Top(c) && s == np.side {
      } else if p == np.point && s == np.oppositeSide {
      } else {
        assert IsOpen(c.blocks, p, s);
      }
    }
  }

  /** Carving keeps the walls part, adding one reached block and one tree wall. */
  lemma CarveKeepsWalls(c: Carving, g0: Grid, bounds: Point, reached: set<(int, int)>, tree: set<(Point, Side)>, np: Adjacent)
    requires WallsCarved(c.blocks, g0, bounds, reached, tree) && CanStep(c, bounds)
    requires Serialize(Top(c)) in reached && Fits(Top(c), bounds, reached, np)
    ensures WallsCarved(Carve(c, bounds, np).blocks, g0, bounds, reached + {Serialize(np.point)}, tree + {Canonical(Top(c), np.side)})
  {
    var p := Top(c);
    var g := Carve(c, bounds, np).blocks;
    var e := Canonical(p, np.side);
    CarveKeepsSymmetric(c.(visited := reached), bounds, np);
    StepBack(p, np.side);
    assert Serialize(np.point) == Serialize(e.0) || Serialize(np.point) == Serialize(Step(e.0, e.1));
    assert e !in tree;
    forall q, s | InsideBounds(q, bounds)
      ensures IsOpen(g, q, s) <==> IsOpen(g0, q, s) || Canonical(q, s) in tree + {e}
    {
      CanonicalSameWall(q, s, p, np.side);
    }
  }

  /** Carving keeps every reached block reachable from the start and reaches the pushed one. */
  lemma CarveKeepsReachable(c: Carving, bounds: Point, start: Point, reached: set<(int, int)>, np: Adjacent)
    requires ReachedFromStart(c.blocks, bounds, start, reached) && CanStep(c, bounds)
    requires Serialize(Top(c)) in reached && Fits(Top(c), bounds, reached, np)
    ensures ReachedFromStart(Carve(c, bounds, np).blocks, bounds, start, reached + {Serialize(np.point)})
  {
    var g := Carve(c, bounds, np).blocks;
    assert Extends(g, c.blocks);
    forall p | Serialize(p) in reached + {Serialize(np.point)} ensures Reachable(g, bounds, start, p) {
      if Serialize(p) in reached {
        ReachableExtends(c.blocks, g, bounds, start, p);
      } else {
        SerializeInjective(p, np.point);
        ReachableExtends(c.blocks, g, bounds, start, Top(c));
        assert Move(g, bounds, Top(c), np.side) == Some(np.point);
        ReachableStep(g, bounds, start, Top(c), np.side);
      }
    }
  }

  /** Carving keeps the stack part: the pushed block is reached and the old top visited. */
  lemma CarveKeepsStack(c: Carving, bounds: Point, start: Point, reached: set<(int, int)>, np: Adjacent)
    requires StackShaped(c, bounds, start, reached) && CanStep(c, bounds) && c.visited == reached
    requires Fits(Top(c), bounds, reached, np)
    ensures StackShaped(Carve(c, bounds, np), bounds, start, reached + {Serialize(np.point)})
  {
    var c1 := Carve(c, bounds, np);
    var reached1 := reached + {Serialize(np.point)};
    CellsMembership(np.point, bounds);
    forall i | 0 <= i < |c1.stack| ensures InsideBounds(c1.stack[i], bounds) && Serialize(c1.stack[i]) in reached1 {
      if i < |c.stack| {
        assert c1.stack[i] == c.stack[i];
      }
    }
    forall i | 0 <= i < |c1.stack| - 1 ensures Serialize(c1.stack[i]) in c1.visited {
      assert c1.stack[i] == c.stack[i];
    }
  }

  /** Carving keeps the backtracking part: the stack only grows. */
  lemma CarveKeepsBacktracked(c: Carving, bounds: Point, np: Adjacent)
    requires Backtracked(c, bounds) && CanStep(c, bounds) && InsideBounds(np.point, bounds)
    ensures Backtracked(Carve(c, bounds, np), bounds)
  {
    var c1 := Carve(c, bounds, np);
    forall p, s | Serialize(p) in c1.visited && InsideBounds(Step(p, s), bounds) && Serialize(Step(p, s)) !in c1.visited
      ensures p in c1.stack
    {
      var i :| 0 <= i < |c.stack| && c.stack[i] == p;
      assert c1.stack[i] == p;
    }
  }

  /** Carving towards one of the adjacents keeps the invariant, adding one reached block and one tree wall. */
  lemma CarveKeeps(c: Carving, g0: Grid, bounds: Point, start: Point, reached: set<(int, int)>, tree: set<(Point, Side)>, np: Adjacent)
    requires Carved(c, g0, bounds, start, reached, tree) && CanStep(c, bounds) && c.visited == reached
    requires np in Adjacents(Top(c), bounds, c.visited)
    ensures Carved(Carve(c, bounds, np), g0, bounds, start, reached + {Serialize(np.point)}, tree + {Canonical(Top(c), np.side)})
    ensures Serialize(np.point) !in reached
  {
    AdjacentsExactly(Top(c), bounds, c.visited);
    assert Serialize(Top(c)) in reached;
    CarveKeepsStack(c, bounds, start, reached, np);
    CarveKeepsBacktracked(c, bounds, np);
    CarveKeepsWalls(c, g0, bounds, reached, tree, np);
    CarveKeepsReachable(c, bounds, start, reached, np);
  }

  /** The carved walls and `g0`'s open walls together are exactly the open walls. */
  lemma OpenEdgesCarved(g: Grid, g0: Grid, bounds: Point, reached: set<(int, int)>, tree: set<(Point, Side)>)
    requires WallsCarved(g, g0, bounds, reached, tree) && reached <= Cells(bounds)
    ensures OpenEdges(g, bounds) == OpenEdges(g0, bounds) + tree
  {
    forall e | e in tree ensures e in OpenEdges(g, bounds) {
      CellsMembership(e.0, bounds);
      assert Canonical(e.0, e.1) == e;
      assert IsOpen(g, e.0, e.1);
    }
    forall e | e in OpenEdges(g0, bounds) ensures e in OpenEdges(g, bounds) {
      assert IsOpen(g, e.0, e.1);
    }
    forall e | e in OpenEdges(g, bounds) ensures e in OpenEdges(g0, bounds) + tree {
      assert InsideBounds(e.0, bounds) && IsOpen(g, e.0, e.1) && Canonical(e.0, e.1) == e;
    }
  }

  /**
   * What a finished run leaves: every block reached from the start along
   * open walls, the walls still symmetric and a superset of `g0`'s, and the
   * open walls those of `g0` plus `blockCount - 1` carved ones.
   */
  lemma CarvedCompletely(c: Carving, g0: Grid, bounds: Point, start: Point, reached: set<(int, int)>, tree: set<(Point, Side)>)
    requires Carved(c, g0, bounds, start, reached, tree)
    requires |c.visited| >= bounds.x * bounds.y
    ensures Symmetric(c.blocks, bounds) && Shaped(c.blocks, bounds) && Extends(c.blocks, g0)
    ensures forall p :: InsideBounds(p, bounds) ==> Reachable(c.blocks, bounds, start, p)
    ensures OpenEdges(c.blocks, bounds) == OpenEdges(g0, bounds) + tree
    ensures |tree| == bounds.x * bounds.y - 1
  {
    ReachedBounded(c, bounds, start, reached);
    CellsCardinality(bounds);
    SubsetCardinality(reached, Cells(bounds));
    forall p | InsideBounds(p, bounds) ensures Reachable(c.blocks, bounds, start, p) {
      CellsMembership(p, bounds);
    }
    forall p, s | IsOpen(g0, p, s) ensures IsOpen(c.blocks, p, s) {
      assert InsideBounds(p, bounds);
    }
    OpenEdgesCarved(c.blocks, g0, bounds, reached, tree);
  }

  /**
   * One body of `generate`'s loop keeps the invariant, with one more block
   * reached and one more wall carved, or with the same blocks reached and
   * a shorter stack.
   */
  lemma GenerateBodyKeeps(c: Carving, g0: Grid, bounds: Point, start: Point, reached: set<(int, int)>, tree: set<(Point, Side)>, rand: nat)
    returns (reached': set<(int, int)>, tree': set<(Point, Side)>)
    requires Carved(c, g0, bounds, start, reached, tree) && |c.visited| < bounds.x * bounds.y
    ensures CanStep(c, bounds)
    ensures Carved(GenerateBody(c, bounds, rand), g0, bounds, start, reached', tree')
    ensures |reached| < |reached'| || (reached' == reached && |GenerateBody(c, bounds, rand).stack| < |c.stack|)
  {
    StackNotEmpty(c, bounds, start, reached);
    MarkTopKeeps(c, g0, bounds, start, reached, tree);
    var c1 := MarkTop(c);
    var adjacents := Adjacents(Top(c1), bounds, c1.visited);
    if |adjacents| == 0 {
      assert GenerateBody(c, bounds, rand) == Backtrack(c1);
      BacktrackKeeps(c1, g0, bounds, start, reached, tree);
      reached', tree' := reached, tree;
    } else {
      var np := adjacents[rand % |adjacents|];
      assert np in adjacents;
      assert GenerateBody(c, bounds, rand) == Carve(c1, bounds, np);
      CarveKeeps(c1, g0, bounds, start, reached, tree, np);
      reached', tree' := reached + {Serialize(np.point)}, tree + {Canonical(Top(c1), np.side)};
      GrowsByOne(reached, Serialize(np.point));
    }
  }

  /** Adding a new member grows a set by one. */
  lemma GrowsByOne<T>(s: set<T>, x: T)
    requires x !in s
    ensures |s| < |s + {x}|
  {
  }

  /** The same for one body of `generateMultipleSolutions`' loop. */
  lemma MultipleSolutionsBodyKeeps(c: Carving, g0: Grid, bounds: Point, start: Point, reached: set<(int, int)>, tree: set<(Point, Side)>, js: seq<nat>)
    returns (reached': set<(int, int)>, tree': set<(Point, Side)>)
    requires Carved(c, g0, bounds, start, reached, tree) && |c.visited| < bounds.x * bounds.y
    requires ValidDraws(js, |Delta|)
    ensures CanStep(c, bounds)
    ensures Carved(MultipleSolutionsBody(c, bounds, js), g0, bounds, start, reached', tree')
    ensures |reached| < |reached'| || (reached' == reached && |MultipleSolutionsBody(c, bounds, js).stack| < |c.stack|)
  {
    StackNotEmpty(c, bounds, start, reached);
    MarkTopKeeps(c, g0, bounds, start, reached, tree);
    var c1 := MarkTop(c);
    var adjacents := Adjacents(Top(c1), bounds, c1.visited);
    AdjacentsExactly(Top(c1), bounds, c1.visited);
    if |adjacents| == 0 {
      BacktrackKeeps(c1, g0, bounds, start, reached, tree);
      reached', tree' := reached, tree;
    } else {
      var np := ShuffledLast(adjacents, js);
      CarveKeeps(c1, g0, bounds, start, reached, tree, np);
      reached', tree' := reached + {Serialize(np.point)}, tree + {Canonical(Top(c1), np.side)};
      GrowsByOne(reached, Serialize(np.point));
    }
  }
}
