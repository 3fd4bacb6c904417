/**
 * The `Maze` object (app.js:150-195) with the DOM taken away: the blocks'
 * `open` records, the player's position, the `solving`, `solved` and
 * `reseting` flags, and the methods that change them. Every run that the
 * source drives through `whileAsync` runs here to completion in one call.
 */
module Mazes {
  import opened Options
  import opened Geometry
  import opened Grids
  import opened Sequences
  import opened Shuffling
  import opened Generation
  import opened Searching

  class Maze {
    const bounds: Point
    const startPosition: Point
    const targetPosition: Point
    var position: Point
    var solving: bool
    var solved: bool
    var reseting: bool
    var blocks: Grid
    /** How many times `onSolved` has fired since the last `reset`. */
    ghost var onSolvedCalls: nat

    /**
     * The object invariant: the blocks table has the grid's shape and its
     * open walls are symmetric, the start and the player are on the grid,
     * and `onSolved` has fired at most once, and only once `solved` is set.
     */
    ghost predicate Valid()
      reads this
    {
      && bounds.x >= 0 && bounds.y >= 0
      && Shaped(blocks, bounds) && Symmetric(blocks, bounds)
      && InsideBounds(startPosition, bounds) && InsideBounds(position, bounds)
      && onSolvedCalls <= (if solved then 1 else 0)
    }

    /**
     * The constructor's options: `gridSize`, `startPosition` and an optional
     * `targetPosition`, which defaults to the bottom-right block. The blocks
     * start closed and the player at the start.
     */
    constructor(gridSize: Point, start: Point, target: Option<Point>)
      requires InsideBounds(start, gridSize)
      ensures Valid()
      ensures bounds == gridSize && startPosition == start
      ensures targetPosition == if target.Some? then target.value else Offset(gridSize, (-1, -1))
      ensures position == start && blocks == ClosedGrid(gridSize)
      ensures !solving && !solved && !reseting && onSolvedCalls == 0
    {
      bounds := gridSize;
      startPosition := start;
      targetPosition := if target.Some? then target.value else Offset(gridSize, (-1, -1));
      position := start;
      solving, solved, reseting := false, false, false;
      blocks := ClosedGrid(gridSize);
      onSolvedCalls := 0;
    }

    /**
     * `setPlayerPosition(p)`: the player moves to `p`; reaching the target
     * sets `solved` once, and fires `onSolved` unless a solve is running.
     */
    method SetPlayerPosition(p: Point)
      requires Valid() && InsideBounds(p, bounds)
      modifies this
      ensures Valid()
      ensures position == p
      ensures solved == (old(solved) || p == targetPosition)
      ensures onSolvedCalls == old(onSolvedCalls) + if !old(solved) && p == targetPosition && !solving then 1 else 0
      ensures blocks == old(blocks) && solving == old(solving) && reseting == old(reseting)
    {
      position := p;
      if !solved && Equals(position, targetPosition) {
        solved := true;
        if !solving {
          onSolvedCalls := onSolvedCalls + 1;
        }
      }
    }

    /**
     * `movePlayer(d)`: the player steps across side `d` when the neighbour
     * is inside bounds and that side of its block is open; otherwise
     * nothing changes.
     */
    method MovePlayer(d: Side)
      requires Valid()
      modifies this
      ensures Valid()
      ensures var m := Move(old(blocks), bounds, old(position), d);
        && position == (if m.Some? then m.value else old(position))
        && solved == (old(solved) || (m.Some? && m.value == targetPosition))
        && onSolvedCalls == old(onSolvedCalls) + if !old(solved) && m.Some? && m.value == targetPosition && !solving then 1 else 0
      ensures blocks == old(blocks) && solving == old(solving) && reseting == old(reseting)
    {
      var next := Offset(position, Delta[IndexOf(d)]);
      assert next == Step(position, d);
      if !InsideBounds(next, bounds) {
        return;
      }
      if !At(blocks, position).Open(d) {
        return;
      }
      assert Move(blocks, bounds, position, d) == Some(next);
      SetPlayerPosition(next);
    }

    /** `getAdjacents(point, visited)`. */
    method GetAdjacents(point: Point, visited: set<(int, int)>) returns (adjacents: seq<Adjacent>)
      ensures adjacents == Adjacents(point, bounds, visited)
    {
      adjacents := [];
      for i := 0 to |Delta|
        invariant adjacents == AdjacentsUpTo(point, bounds, visited, i)
      {
        var cp := Offset(point, Delta[i]);
        assert Candidate(point, i) == Adjacent(cp, Sides[i], OppositeSides[i]);
        if InsideBounds(cp, bounds) && Serialize(cp) !in visited {
          adjacents := adjacents + [Adjacent(cp, Sides[i], OppositeSides[i])];
        }
      }
    }

    /** The wall carving shared by both generators: open `np.side` here and `np.oppositeSide` there. */
    method OpenWalls(point: Point, np: Adjacent)
      requires Shaped(blocks, bounds) && InsideBounds(point, bounds) && InsideBounds(np.point, bounds)
      modifies this`blocks
      ensures blocks == CarveWalls(old(blocks), bounds, point, np)
    {
      blocks := SetAt(blocks, point, At(blocks, point).Opened(np.side));
      blocks := SetAt(blocks, np.point, At(blocks, np.point).Opened(np.oppositeSide));
    }

    /** One body of `generate`'s loop, `rand` standing for `parseInt(Math.random() * 1000)`. */
    method GenerateStep(stack: seq<Point>, visited: set<(int, int)>, rand: nat)
      returns (stack': seq<Point>, visited': set<(int, int)>)
      requires CanStep(Carving(blocks, stack, visited), bounds)
      modifies this`blocks
      ensures Carving(blocks, stack', visited') == GenerateBody(Carving(old(blocks), stack, visited), bounds, rand)
    {
      var point := stack[|stack| - 1];
      var ps := Serialize(point);
      visited' := visited;
      if ps !in visited' {
        visited' := visited' + {ps};
      }
      ghost var c1 := MarkTop(Carving(blocks, stack, visited));
      assert c1.visited == visited' && Generation.Top(c1) == point;
      var adjacents := GetAdjacents(point, visited');
      if |adjacents| == 0 {
        stack' := stack[..|stack| - 1];
        return;
      }
      AdjacentsExactly(point, bounds, visited');
      var np := adjacents[rand % |adjacents|];
      assert Fits(point, bounds, visited', np);
      stack' := stack + [np.point];
      OpenWalls(point, np);
    }

    /** `shuffleArray(adjacents)` then `adjacents.pop()`, on a copy of the entries. */
    static method PopShuffled(adjacents: seq<Adjacent>, js: seq<nat>) returns (np: Adjacent)
      requires 0 < |adjacents| <= |Delta| && ValidDraws(js, |Delta|)
      ensures np == ShuffledLast(adjacents, js)
    {
      var shuffled := new Adjacent[|adjacents|](i requires 0 <= i < |adjacents| => adjacents[i]);
      assert shuffled[..] == adjacents;
      ShuffleArray(shuffled, js);
      np := shuffled[shuffled.Length - 1];
    }

    /** One body of `generateMultipleSolutions`' loop, `js` being the shuffle's draws. */
    method MultipleSolutionsStep(stack: seq<Point>, visited: set<(int, int)>, js: seq<nat>)
      returns (stack': seq<Point>, visited': set<(int, int)>)
      requires CanStep(Carving(blocks, stack, visited), bounds) && ValidDraws(js, |Delta|)
      modifies this`blocks
      ensures Carving(blocks, stack', visited') == MultipleSolutionsBody(Carving(old(blocks), stack, visited), bounds, js)
    {
      var point := stack[|stack| - 1];
      var ps := Serialize(point);
      visited' := visited;
      if ps !in visited' {
        visited' := visited' + {ps};
      }
      ghost var c1 := MarkTop(Carving(blocks, stack, visited));
      assert c1.visited == visited' && Generation.Top(c1) == point;
      var adjacents := GetAdjacents(point, visited');
      if |adjacents| == 0 {
        stack' := stack[..|stack| - 1];
        return;
      }
      AdjacentsExactly(point, bounds, visited');
      var np := PopShuffled(adjacents, js);
      assert Fits(point, bounds, visited', np);
      stack' := stack + [np.point];
      OpenWalls(point, np);
    }

    /**
     * One iteration of the loop with the generation invariant it keeps:
     * either a new cell is reached or the stack shrinks.
     */
    method GenerateIteration(stack: seq<Point>, visited: set<(int, int)>, rand: nat,
                           ghost g0: Grid, ghost reached: set<(int, int)>, ghost tree: set<(Point, Side)>)
      returns (stack': seq<Point>, visited': set<(int, int)>, ghost reached': set<(int, int)>, ghost tree': set<(Point, Side)>)
      requires Carved(Carving(blocks, stack, visited), g0, bounds, startPosition, reached, tree)
      requires |visited| < bounds.x * bounds.y
      modifies this`blocks
      ensures Carved(Carving(blocks, stack', visited'), g0, bounds, startPosition, reached', tree')
      ensures |reached'| <= bounds.x * bounds.y
      ensures |reached| < |reached'| || (reached' == reached && |stack'| < |stack|)
    {
      reached', tree' := GenerateBodyKeeps(Carving(blocks, stack, visited), g0, bounds, startPosition, reached, tree, rand);
      stack', visited' := GenerateStep(stack, visited, rand);
      ReachedBounded(Carving(blocks, stack', visited'), bounds, startPosition, reached');
    }

    /**
     * `generate()`, the draws given by `rand`: starting from the start
     * block, carve until every block is visited. The carved walls form a
     * spanning tree: one wall per block beyond the first, every block
     * reachable from the start, no wall closed that was open before.
     */
    method Generate(rand: nat -> nat) returns (ghost carved: set<(Point, Side)>)
      requires Valid()
      modifies this`blocks
      ensures Valid()
      ensures Extends(blocks, old(blocks))
      ensures forall p :: InsideBounds(p, bounds) ==> Reachable(blocks, bounds, startPosition, p)
      ensures OpenEdges(blocks, bounds) == OpenEdges(old(blocks), bounds) + carved
      ensures |carved| == bounds.x * bounds.y - 1
    {
      ghost var g0 := blocks;
      var stack, visited;
      ghost var reached;
      stack, visited, reached, carved := GenerateLoop(rand);
      CarvedCompletely(Carving(blocks, stack, visited), g0, bounds, startPosition, reached, carved);
    }

    /**
     * The loop itself: from the start block, iterate until `blockCount`
     * blocks are visited, keeping the generation invariant.
     */
    method GenerateLoop(rand: nat -> nat)
      returns (stack: seq<Point>, visited: set<(int, int)>, ghost reached: set<(int, int)>, ghost carved: set<(Point, Side)>)
      requires Shaped(blocks, bounds) && Symmetric(blocks, bounds) && InsideBounds(startPosition, bounds)
      modifies this`blocks
      ensures Carved(Carving(blocks, stack, visited), old(blocks), bounds, startPosition, reached, carved)
      ensures |visited| >= bounds.x * bounds.y
    {
      var blockCount := bounds.x * bounds.y;
      stack := [startPosition];
      visited := {};
      reached := {Serialize(startPosition)};
      carved := {};
      CarvedInitially(blocks, bounds, startPosition);
      ReachedBounded(Carving(blocks, stack, visited), bounds, startPosition, reached);
      var step := 0;
      while |visited| < blockCount
        invariant Carved(Carving(blocks, stack, visited), old(blocks), bounds, startPosition, reached, carved)
        invariant |reached| <= blockCount
        decreases blockCount - |reached|, |stack|
      {
        stack, visited, reached, carved := GenerateIteration(stack, visited, rand(step), old(blocks), reached, carved);
        step := step + 1;
      }
    }

    /**
     * One iteration of the loop with the generation invariant it keeps:
     * either a new cell is reached or the stack shrinks.
     */
    method MultipleSolutionsIteration(stack: seq<Point>, visited: set<(int, int)>, js: seq<nat>,
                           ghost g0: Grid, ghost reached: set<(int, int)>, ghost tree: set<(Point, Side)>)
      returns (stack': seq<Point>, visited': set<(int, int)>, ghost reached': set<(int, int)>, ghost tree': set<(Point, Side)>)
      requires Carved(Carving(blocks, stack, visited), g0, bounds, startPosition, reached, tree)
      requires |visited| < bounds.x * bounds.y && ValidDraws(js, |Delta|)
      modifies this`blocks
      ensures Carved(Carving(blocks, stack', visited'), g0, bounds, startPosition, reached', tree')
      ensures |reached'| <= bounds.x * bounds.y
      ensures |reached| < |reached'| || (reached' == reached && |stack'| < |stack|)
    {
      reached', tree' := MultipleSolutionsBodyKeeps(Carving(blocks, stack, visited), g0, bounds, startPosition, reached, tree, js);
      stack', visited' := MultipleSolutionsStep(stack, visited, js);
      ReachedBounded(Carving(blocks, stack', visited'), bounds, startPosition, reached');
    }

    /**
     * `generateMultipleSolutions()`, the shuffle draws of step `k` given by
     * `shuffles(k)`: the same traversal over the current blocks, so a
     * second spanning tree is carved on top of the walls already open.
     */
    method GenerateMultipleSolutions(shuffles: nat -> seq<nat>) returns (ghost carved: set<(Point, Side)>)
      requires Valid()
      requires forall k :: ValidDraws(shuffles(k), |Delta|)
      modifies this`blocks
      ensures Valid()
      ensures Extends(blocks, old(blocks))
      ensures forall p :: InsideBounds(p, bounds) ==> Reachable(blocks, bounds, startPosition, p)
      ensures OpenEdges(blocks, bounds) == OpenEdges(old(blocks), bounds) + carved
      ensures |carved| == bounds.x * bounds.y - 1
    {
      ghost var g0 := blocks;
      var stack, visited;
      ghost var reached;
      stack, visited, reached, carved := MultipleSolutionsLoop(shuffles);
      CarvedCompletely(Carving(blocks, stack, visited), g0, bounds, startPosition, reached, carved);
    }

    /**
     * The loop itself: from the start block, iterate until `blockCount`
     * blocks are visited, keeping the generation invariant.
     */
    method MultipleSolutionsLoop(shuffles: nat -> seq<nat>)
      returns (stack: seq<Point>, visited: set<(int, int)>, ghost reached: set<(int, int)>, ghost carved: set<(Point, Side)>)
      requires Shaped(blocks, bounds) && Symmetric(blocks, bounds) && InsideBounds(startPosition, bounds)
      requires forall k :: ValidDraws(shuffles(k), |Delta|)
      modifies this`blocks
      ensures Carved(Carving(blocks, stack, visited), old(blocks), bounds, startPosition, reached, carved)
      ensures |visited| >= bounds.x * bounds.y
    {
      var blockCount := bounds.x * bounds.y;
      stack := [startPosition];
      visited := {};
      reached := {Serialize(startPosition)};
      carved := {};
      CarvedInitially(blocks, bounds, startPosition);
      ReachedBounded(Carving(blocks, stack, visited), bounds, startPosition, reached);
      var step := 0;
      while |visited| < blockCount
        invariant Carved(Carving(blocks, stack, visited), old(blocks), bounds, startPosition, reached, carved)
        invariant |reached| <= blockCount
        decreases blockCount - |reached|, |stack|
      {
        stack, visited, reached, carved := MultipleSolutionsIteration(stack, visited, shuffles(step), old(blocks), reached, carved);
        step := step + 1;
      }
    }

    /**
     * `reset()`: refused, with nothing changed, while a solve or a reset
     * runs. Otherwise the blocks are rebuilt closed, a maze is generated
     * and the player is put on the start: the open walls are then a
     * spanning tree of the grid.
     */
    method Reset(rand: nat -> nat) returns (started: bool)
      requires Valid()
      modifies this
      ensures Valid()
      ensures started <==> !old(solving) && !old(reseting)
      ensures !started ==> unchanged(this)
      ensures started ==> && position == startPosition && !solving && !reseting
                          && solved == (startPosition == targetPosition)
                          && onSolvedCalls == (if startPosition == targetPosition then 1 else 0)
      ensures started ==> forall p :: InsideBounds(p, bounds) ==> Reachable(blocks, bounds, startPosition, p)
      ensures started ==> |OpenEdges(blocks, bounds)| == bounds.x * bounds.y - 1
    {
      if solving || reseting {
        return false;
      }
      reseting := true;
      position := startPosition;
      solving := false;
      solved := false;
      onSolvedCalls := 0;
      blocks := ClosedGrid(bounds);
      OpenEdgesClosed(bounds);
      ghost var carved := Generate(rand);
      SetPlayerPosition(startPosition);
      reseting := false;
      started := true;
    }

    /**
     * The end of every solve method: rebuild the path from the last popped
     * chain back to where the search started, walk the player along it,
     * then clear `solving`.
     */
    method FinishSolve(last: Trace) returns (ghost walk: seq<Point>)
      requires Valid() && solving && TraceOk(blocks, bounds, position, last)
      modifies this
      ensures Valid() && !solving
      ensures blocks == old(blocks) && reseting == old(reseting) && onSolvedCalls == old(onSolvedCalls)
      ensures walk == Reversed(PathBack(last, old(position)))
      ensures IsPath(blocks, bounds, old(position), walk) && position == last.at
      ensures solved == (old(solved) || targetPosition in walk)
    {
      var from := position;
      RebuiltWalk(blocks, bounds, from, last);
      var path := BuildPath(last, from);
      walk := Reversed(path);
      WalkPath(path);
      EndSolve();
    }

    /** The last step of every solve: `solving` is cleared and nothing else changes. */
    method EndSolve()
      requires Valid()
      modifies this
      ensures Valid() && !solving
      ensures position == old(position) && solved == old(solved) && blocks == old(blocks)
      ensures reseting == old(reseting) && onSolvedCalls == old(onSolvedCalls)
    {
      solving := false;
    }

    /**
     * The player walk: `setPlayerPosition(path.pop())` until `path` is
     * empty, so the player visits the entries from last to first.
     */
    method WalkPath(path: seq<Point>)
      requires Valid() && forall q :: q in path ==> InsideBounds(q, bounds)
      modifies this
      ensures Valid()
      ensures position == if |path| == 0 then old(position) else path[0]
      ensures solved == (old(solved) || targetPosition in path)
      ensures blocks == old(blocks) && solving == old(solving) && reseting == old(reseting)
      ensures solving ==> onSolvedCalls == old(onSolvedCalls)
    {
      var remaining := path;
      while |remaining| > 0
        invariant Valid() && remaining == path[..|remaining|]
        invariant position == if |remaining| == |path| then old(position) else path[|remaining|]
        invariant solved == (old(solved) || targetPosition in path[|remaining|..])
        invariant blocks == old(blocks) && solving == old(solving) && reseting == old(reseting)
        invariant solving ==> onSolvedCalls == old(onSolvedCalls)
        decreases |remaining|
      {
        var next := remaining[|remaining| - 1];
        remaining := remaining[..|remaining| - 1];
        SetPlayerPosition(next);
        assert path[|remaining|..] == [next] + path[|remaining| + 1..];
      }
    }

    /**
     * `solve()`, `solveDFS()`, `solveAStar()` and `solveDijkstra()`: refused,
     * with nothing changed, while a solve or a reset runs. Otherwise the
     * search runs from the player's position and the player walks the
     * rebuilt path: onto the target when it can be reached, and elsewhere
     * along open walls when it cannot. `onSolved` does not fire.
     */
    method Solve(algorithm: Algorithm) returns (started: bool, ghost walk: seq<Point>)
      requires Valid()
      modifies this
      ensures Valid()
      ensures started <==> !old(solving) && !old(reseting)
      ensures !started ==> unchanged(this)
      ensures started ==> && !solving && blocks == old(blocks) && reseting == old(reseting)
                          && onSolvedCalls == old(onSolvedCalls)
      ensures started ==> IsPath(blocks, bounds, old(position), walk) && position == EndOf(old(position), walk)
      ensures started ==> (position == targetPosition <==> Reachable(blocks, bounds, old(position), targetPosition))
      ensures started ==> solved == (old(solved) || targetPosition in walk)
    {
      if solving || reseting {
        return false, [];
      }
      solving := true;
      var last := Search(algorithm, blocks, bounds, position, targetPosition);
      PathBackWalks(blocks, bounds, position, last);
      walk := FinishSolve(last);
      started := true;
    }
  }
}
