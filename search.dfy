/**
 * The search loop shared by `solve` (breadth-first, app.js:347-438),
 * `solveDFS` (app.js:440-530), `solveAStar` (app.js:632-734) and
 * `solveDijkstra` (app.js:736-840), and the path rebuild that follows it.
 * The four differ only in the frontier: a FIFO queue, a LIFO stack, or a
 * `PriorityQueue` keyed by `distance` or by `f = g + h`.
 */
module Searching {
  import opened Options
  import opened Geometry
  import opened Grids
  import opened Sequences
  import opened PriorityQueues

  /**
   * A frontier point with its chain of `previous` links. `offset` makes a
   * fresh point for every push, so every entry owns its own chain.
   */
  datatype Trace = Origin(at: Point) | Via(at: Point, previous: Trace)

  /** The chain of `previous` links ends at a point that is `start`. */
  predicate Rooted(t: Trace, start: Point)
  {
    match t
    case Origin(p) => p == start
    case Via(_, previous) => Rooted(previous, start)
  }

  /** The chain ends at the in-bounds `start` and each link is one legal move. */
  predicate TraceOk(g: Grid, bounds: Point, start: Point, t: Trace)
  {
    match t
    case Origin(p) => p == start && InsideBounds(p, bounds)
    case Via(p, previous) => Linked(g, bounds, previous.at, p) && TraceOk(g, bounds, start, previous)
  }

  /** The number of links in the chain. */
  function Depth(t: Trace): nat
  {
    match t
    case Origin(_) => 0
    case Via(_, previous) => 1 + Depth(previous)
  }

  /** A well-formed chain is rooted at `start` and ends inside bounds. */
  lemma {:induction false} TraceOkRooted(g: Grid, bounds: Point, start: Point, t: Trace)
    requires TraceOk(g, bounds, start, t)
    ensures Rooted(t, start) && InsideBounds(t.at, bounds)
  {
    match t
    case Origin(_) =>
    case Via(p, previous) =>
      TraceOkRooted(g, bounds, start, previous);
  }

  /**
   * The `path` array the rebuild loop fills: the points of the chain from
   * `t.at` back to, and excluding, the first one that equals `start`. It
   * never holds `start` and is no longer than the chain.
   */
  function PathBack(t: Trace, start: Point): (r: seq<Point>)
    ensures start !in r
    ensures |r| <= Depth(t)
  {
    if Equals(t.at, start) then []
    else
      match t
      case Origin(_) => []
      case Via(p, previous) => [p] + PathBack(previous, start)
  }

  /**
   * Popping `path` from its end walks from `start` to `t.at` one legal move
   * at a time.
   */
  lemma {:induction false} PathBackWalks(g: Grid, bounds: Point, start: Point, t: Trace)
    requires TraceOk(g, bounds, start, t)
    ensures IsPath(g, bounds, start, Reversed(PathBack(t, start)))
    ensures EndOf(start, Reversed(PathBack(t, start))) == t.at
  {
    match t
    case Origin(_) =>
    case Via(p, previous) =>
      if !Equals(p, start) {
        PathBackWalks(g, bounds, start, previous);
        var rest := Reversed(PathBack(previous, start));
        assert ([p] + PathBack(previous, start))[1..] == PathBack(previous, start);
        assert Reversed(PathBack(t, start)) == rest + [p];
        PathAppend(g, bounds, start, rest, p);
      }
  }

  /**
   * What the player walk needs of the rebuilt path: reversed, it is a legal
   * walk from `start` to `t.at`, and every point of it is inside bounds.
   */
  lemma RebuiltWalk(g: Grid, bounds: Point, start: Point, t: Trace)
    requires TraceOk(g, bounds, start, t)
    ensures Rooted(t, start)
    ensures IsPath(g, bounds, start, Reversed(PathBack(t, start))) && EndOf(start, Reversed(PathBack(t, start))) == t.at
    ensures forall q :: q in PathBack(t, start) ==> InsideBounds(q, bounds)
    ensures forall q :: q in Reversed(PathBack(t, start)) <==> q in PathBack(t, start)
    ensures if |PathBack(t, start)| == 0 then t.at == start else PathBack(t, start)[0] == t.at
  {
    TraceOkRooted(g, bounds, start, t);
    PathBackWalks(g, bounds, start, t);
    PathInside(g, bounds, start, Reversed(PathBack(t, start)));
    ReversedMembers(PathBack(t, start));
  }

  /**
   * The entries pushed while expanding `cur` once the keys
   * `OpenKeyOrder[..i]` of `block.open` have been looked at: one per open
   * side leading to an in-bounds point not yet visited, in key order.
   */
  function ExpansionsUpTo(g: Grid, bounds: Point, cur: Trace, visited: set<(int, int)>, i: nat): (r: seq<Trace>)
    requires i <= |OpenKeyOrder|
    ensures |r| <= i
    ensures forall t :: t in r ==>
      t.Via? && t.previous == cur && Linked(g, bounds, cur.at, t.at) && Serialize(t.at) !in visited
    ensures forall j ::
      (0 <= j < i && Move(g, bounds, cur.at, OpenKeyOrder[j]).Some? && Serialize(Step(cur.at, OpenKeyOrder[j])) !in visited)
      ==> Via(Step(cur.at, OpenKeyOrder[j]), cur) in r
  {
    if i == 0 then []
    else
      var side := OpenKeyOrder[i - 1];
      var next := Step(cur.at, side);
      ExpansionsUpTo(g, bounds, cur, visited, i - 1)
        + if IsOpen(g, cur.at, side) && InsideBounds(next, bounds) && Serialize(next) !in visited
          then LinkedByMove(g, bounds, cur.at, side); [Via(next, cur)]
          else []
  }

  /** The entries one expansion of `cur` pushes. */
  function Expansions(g: Grid, bounds: Point, cur: Trace, visited: set<(int, int)>): seq<Trace>
  {
    ExpansionsUpTo(g, bounds, cur, visited, |OpenKeyOrder|)
  }

  /**
   * An expansion pushes at most four entries, each one legal move from
   * `cur` to an unvisited point with `previous` = `cur`, and it pushes one
   * for every such move.
   */
  lemma ExpansionsExactly(g: Grid, bounds: Point, cur: Trace, visited: set<(int, int)>)
    ensures |Expansions(g, bounds, cur, visited)| <= 4
    ensures forall t :: t in Expansions(g, bounds, cur, visited) ==>
      t.Via? && t.previous == cur && Linked(g, bounds, cur.at, t.at) && Serialize(t.at) !in visited
    ensures forall d :: Move(g, bounds, cur.at, d).Some? && Serialize(Step(cur.at, d)) !in visited ==>
      Via(Step(cur.at, d), cur) in Expansions(g, bounds, cur, visited)
  {
    forall d | Move(g, bounds, cur.at, d).Some? && Serialize(Step(cur.at, d)) !in visited
      ensures Via(Step(cur.at, d), cur) in Expansions(g, bounds, cur, visited)
    {
      match d
      case Left => assert OpenKeyOrder[0] == d;
      case Top => assert OpenKeyOrder[1] == d;
      case Bottom => assert OpenKeyOrder[2] == d;
      case Right => assert OpenKeyOrder[3] == d;
    }
  }

  /** The traces a frontier holds. */
  function Elements(q: seq<Trace>): set<Trace>
  {
    set t | t in q
  }

  /** The points a frontier holds. */
  function Ats(pending: set<Trace>): set<Point>
  {
    set t | t in pending :: t.at
  }

  /**
   * The exploration invariant: the frontier holds well-formed chains, the
   * start is visited or still pending, and every legal move out of a
   * visited block into an unvisited one has its destination pending.
   */
  ghost predicate Explored(g: Grid, bounds: Point, start: Point, visited: set<(int, int)>, pending: set<Trace>)
  {
    && Shaped(g, bounds) && InsideBounds(start, bounds) && visited <= Cells(bounds)
    && (forall t :: t in pending ==> TraceOk(g, bounds, start, t))
    && (Serialize(start) in visited || Origin(start) in pending)
    && (forall p, d :: Serialize(p) in visited && Move(g, bounds, p, d).Some? && Serialize(Step(p, d)) !in visited ==>
          Step(p, d) in Ats(pending))
  }

  /** The invariant of the search loop: `position` is the last entry taken from the frontier. */
  ghost predicate Searched(g: Grid, bounds: Point, start: Point, target: Point, visited: set<(int, int)>, pending: set<Trace>, position: Trace)
  {
    && Explored(g, bounds, start, visited, pending)
    && TraceOk(g, bounds, start, position)
    && (Serialize(target) in visited ==> position.at == target)
  }

  /** Before the loop: nothing visited, the start alone in the frontier and in `position`. */
  lemma SearchBegins(g: Grid, bounds: Point, start: Point, target: Point)
    requires Shaped(g, bounds) && InsideBounds(start, bounds)
    ensures Searched(g, bounds, start, target, {}, {Origin(start)}, Origin(start))
  {
  }

  /** Taking an already visited entry changes nothing but the frontier. */
  lemma SkipKeeps(g: Grid, bounds: Point, start: Point, target: Point, visited: set<(int, int)>,
                  pending: set<Trace>, cur: Trace, pending1: set<Trace>)
    requires Explored(g, bounds, start, visited, pending) && Serialize(target) !in visited
    requires cur in pending && Serialize(cur.at) in visited
    requires forall t :: t in pending1 ==> t in pending
    requires forall t :: t in pending && t != cur ==> t in pending1
    ensures Searched(g, bounds, start, target, visited, pending1, cur)
  {
    forall p, d | Serialize(p) in visited && Move(g, bounds, p, d).Some? && Serialize(Step(p, d)) !in visited
      ensures Step(p, d) in Ats(pending1)
    {
      var t :| t in pending && t.at == Step(p, d);
      assert t in pending1;
    }
  }

  /**
   * Expanding an unvisited entry visits exactly its block and pushes its
   * expansions; the invariant is kept and `position` becomes that entry.
   */
  lemma ExpandKeeps(g: Grid, bounds: Point, start: Point, target: Point, visited: set<(int, int)>,
                    pending: set<Trace>, cur: Trace, pending1: set<Trace>)
    requires Explored(g, bounds, start, visited, pending) && Serialize(target) !in visited
    requires cur in pending && Serialize(cur.at) !in visited
    requires forall t :: t in pending1 ==> t in pending || t in Expansions(g, bounds, cur, visited + {Serialize(cur.at)})
    requires forall t :: t in pending && t != cur ==> t in pending1
    requires forall t :: t in Expansions(g, bounds, cur, visited + {Serialize(cur.at)}) ==> t in pending1
    ensures Searched(g, bounds, start, target, visited + {Serialize(cur.at)}, pending1, cur)
  {
    var visited1 := visited + {Serialize(cur.at)};
    ExpansionsExactly(g, bounds, cur, visited1);
    TraceOkRooted(g, bounds, start, cur);
    CellsMembership(cur.at, bounds);
    forall t | t in pending1 ensures TraceOk(g, bounds, start, t) {
    }
    forall p, d | Serialize(p) in visited1 && Move(g, bounds, p, d).Some? && Serialize(Step(p, d)) !in visited1
      ensures Step(p, d) in Ats(pending1)
    {
      if Serialize(p) == Serialize(cur.at) {
        SerializeInjective(p, cur.at);
        assert Via(Step(p, d), cur) in pending1;
      } else {
        var t :| t in pending && t.at == Step(p, d);
        assert t in pending1;
      }
    }
    if Serialize(target) in visited1 {
      SerializeInjective(target, cur.at);
    }
  }

  /**
   * After the loop, when the frontier ran out or `position` reached the
   * target: `position` is on a well-formed chain, and it is the target
   * exactly when the target can be walked to from the start.
   */
  lemma SearchEnds(g: Grid, bounds: Point, start: Point, target: Point, visited: set<(int, int)>, pending: set<Trace>, position: Trace)
    requires Searched(g, bounds, start, target, visited, pending, position)
    requires pending == {} || position.at == target
    ensures TraceOk(g, bounds, start, position)
    ensures position.at == target <==> Reachable(g, bounds, start, target)
  {
    if position.at == target {
      PathBackWalks(g, bounds, start, position);
    } else if Reachable(g, bounds, start, target) {
      var pts :| IsPath(g, bounds, start, pts) && EndOf(start, pts) == target;
      forall p, d | Serialize(p) in visited && Move(g, bounds, p, d).Some? ensures Serialize(Step(p, d)) in visited {
        assert Step(p, d) !in Ats(pending);
      }
      ClosedSetHoldsWalk(g, bounds, visited, start, pts);
    }
  }

  /** `queue.shift()` keeps every other entry and `push` adds the new ones. */
  lemma ShiftThenPush(q: seq<Trace>, next: seq<Trace>)
    requires |q| > 0
    ensures forall t :: t in Elements(q[1..] + next) ==> t in Elements(q) || t in next
    ensures forall t :: t in Elements(q) && t != q[0] ==> t in Elements(q[1..] + next)
    ensures forall t :: t in next ==> t in Elements(q[1..] + next)
  {
    forall t | t in Elements(q) && t != q[0] ensures t in Elements(q[1..] + next) {
      var i :| 0 <= i < |q| && q[i] == t;
      assert (q[1..] + next)[i - 1] == t;
    }
  }

  /** `stack.pop()` keeps every other entry and `push` adds the new ones. */
  lemma PopThenPush(q: seq<Trace>, next: seq<Trace>)
    requires |q| > 0
    ensures forall t :: t in Elements(q[..|q| - 1] + next) ==> t in Elements(q) || t in next
    ensures forall t :: t in Elements(q) && t != q[|q| - 1] ==> t in Elements(q[..|q| - 1] + next)
    ensures forall t :: t in next ==> t in Elements(q[..|q| - 1] + next)
  {
    forall t | t in Elements(q) && t != q[|q| - 1] ensures t in Elements(q[..|q| - 1] + next) {
      var i :| 0 <= i < |q| && q[i] == t;
      assert (q[..|q| - 1] + next)[i] == t;
    }
  }

  /** One fewer unvisited cell: the first loop measure drops when a cell is visited. */
  lemma VisitShrinks(bounds: Point, visited: set<(int, int)>, p: Point)
    requires InsideBounds(p, bounds) && Serialize(p) !in visited
    ensures |Cells(bounds) - (visited + {Serialize(p)})| < |Cells(bounds) - visited|
  {
    CellsMembership(p, bounds);
    assert Cells(bounds) - (visited + {Serialize(p)}) == (Cells(bounds) - visited) - {Serialize(p)};
  }

  /**
   * The shared loop body's expansion: the sides of `block.open` in key
   * order, skipping closed sides and points outside bounds or visited.
   */
  method Expand(g: Grid, bounds: Point, cur: Trace, visited: set<(int, int)>) returns (next: seq<Trace>)
    requires Shaped(g, bounds) && InsideBounds(cur.at, bounds)
    ensures next == Expansions(g, bounds, cur, visited)
  {
    next := [];
    for i := 0 to |OpenKeyOrder|
      invariant next == ExpansionsUpTo(g, bounds, cur, visited, i)
    {
      var side := OpenKeyOrder[i];
      ghost var extended := ExpansionsUpTo(g, bounds, cur, visited, i + 1);
      assert At(g, cur.at).Open(side) == IsOpen(g, cur.at, side);
      if !At(g, cur.at).Open(side) {
        assert extended == next + [];
        continue;
      }
      var nextPosition := Step(cur.at, side);
      if !InsideBounds(nextPosition, bounds) || Serialize(nextPosition) in visited {
        assert extended == next + [];
        continue;
      }
      next := next + [Via(nextPosition, cur)];
    }
  }

  /** The loop of `solve`: breadth-first, the frontier a FIFO queue. */
  method SearchBreadthFirst(g: Grid, bounds: Point, start: Point, target: Point) returns (last: Trace)
    requires Shaped(g, bounds) && InsideBounds(start, bounds)
    ensures TraceOk(g, bounds, start, last)
    ensures last.at == target <==> Reachable(g, bounds, start, target)
  {
    var visited: set<(int, int)> := {};
    var position := Origin(start);
    var queue := [position];
    SearchBegins(g, bounds, start, target);
    assert Elements(queue) == {Origin(start)};
    while |queue| > 0 && !Equals(position.at, target)
      invariant Searched(g, bounds, start, target, visited, Elements(queue), position)
      decreases |Cells(bounds) - visited|, |queue|
    {
      ghost var pending := Elements(queue);
      ghost var rest := queue;
      position := queue[0];
      queue := queue[1..];
      if Serialize(position.at) in visited {
        ShiftThenPush(rest, []);
        assert queue == queue + [];
        SkipKeeps(g, bounds, start, target, visited, pending, position, Elements(queue));
        continue;
      }
      TraceOkRooted(g, bounds, start, position);
      VisitShrinks(bounds, visited, position.at);
      ghost var visited0 := visited;
      visited := visited + {Serialize(position.at)};
      var next := Expand(g, bounds, position, visited);
      queue := queue + next;
      ShiftThenPush(rest, next);
      ExpandKeeps(g, bounds, start, target, visited0, pending, position, Elements(queue));
    }
    SearchEnds(g, bounds, start, target, visited, Elements(queue), position);
    last := position;
  }

  /** The loop of `solveDFS`: depth-first, the frontier a LIFO stack. */
  method SearchDepthFirst(g: Grid, bounds: Point, start: Point, target: Point) returns (last: Trace)
    requires Shaped(g, bounds) && InsideBounds(start, bounds)
    ensures TraceOk(g, bounds, start, last)
    ensures last.at == target <==> Reachable(g, bounds, start, target)
  {
    var visited: set<(int, int)> := {};
    var position := Origin(start);
    var stack := [position];
    SearchBegins(g, bounds, start, target);
    assert Elements(stack) == {Origin(start)};
    while |stack| > 0 && !Equals(position.at, target)
      invariant Searched(g, bounds, start, target, visited, Elements(stack), position)
      decreases |Cells(bounds) - visited|, |stack|
    {
      ghost var pending := Elements(stack);
      ghost var rest := stack;
      position := stack[|stack| - 1];
      stack := stack[..|stack| - 1];
      if Serialize(position.at) in visited {
        PopThenPush(rest, []);
        assert stack == stack + [];
        SkipKeeps(g, bounds, start, target, visited, pending, position, Elements(stack));
        continue;
      }
      TraceOkRooted(g, bounds, start, position);
      VisitShrinks(bounds, visited, position.at);
      ghost var visited0 := visited;
      visited := visited + {Serialize(position.at)};
      var next := Expand(g, bounds, position, visited);
      stack := stack + next;
      PopThenPush(rest, next);
      ExpandKeeps(g, bounds, start, target, visited0, pending, position, Elements(stack));
    }
    SearchEnds(g, bounds, start, target, visited, Elements(stack), position);
    last := position;
  }

  /** The chains held by a priority queue's entries. */
  ghost function Pending<N>(heap: seq<N>, trace: N -> Trace): set<Trace>
  {
    set n | n in heap :: trace(n)
  }

  /**
   * `dequeue` followed by one `queue` per new entry keeps every chain but
   * the dequeued one's and adds the new entries' chains.
   */
  lemma DequeueThenQueue<N>(h0: seq<N>, root: N, h1: seq<N>, children: seq<N>, h2: seq<N>, trace: N -> Trace, next: seq<Trace>)
    requires multiset(h1) + multiset{root} == multiset(h0)
    requires multiset(h2) == multiset(h1) + multiset(children)
    requires |children| == |next| && forall j :: 0 <= j < |next| ==> trace(children[j]) == next[j]
    ensures forall t :: t in Pending(h2, trace) ==> t in Pending(h0, trace) || t in next
    ensures forall t :: t in Pending(h0, trace) && t != trace(root) ==> t in Pending(h2, trace)
    ensures forall t :: t in next ==> t in Pending(h2, trace)
  {
    forall t | t in Pending(h2, trace) ensures t in Pending(h0, trace) || t in next {
      var n :| n in h2 && trace(n) == t;
      assert n in multiset(h2);
      if n in multiset(h1) {
        assert n in multiset(h0);
      } else {
        var j :| 0 <= j < |children| && children[j] == n;
        assert next[j] == t;
      }
    }
    forall t | t in Pending(h0, trace) && t != trace(root) ensures t in Pending(h2, trace) {
      var n :| n in h0 && trace(n) == t;
      assert n in multiset(h0) && n != root;
      assert n in multiset(h1);
      assert n in multiset(h2);
    }
    forall t | t in next ensures t in Pending(h2, trace) {
      var j :| 0 <= j < |next| && next[j] == t;
      assert children[j] in multiset(h2);
    }
  }

  /** `dequeue` alone keeps every chain but the dequeued one's. */
  lemma DequeueKeeps<N>(h0: seq<N>, root: N, h1: seq<N>, trace: N -> Trace)
    requires multiset(h1) + multiset{root} == multiset(h0)
    ensures forall t :: t in Pending(h1, trace) ==> t in Pending(h0, trace)
    ensures forall t :: t in Pending(h0, trace) && t != trace(root) ==> t in Pending(h1, trace)
  {
    DequeueThenQueue(h0, root, h1, [], h1, trace, []);
  }

  /** A property of every entry survives `dequeue` and the `queue` of new entries that have it. */
  lemma EntriesKept<N>(h0: seq<N>, root: N, h1: seq<N>, children: seq<N>, h2: seq<N>, ok: N -> bool)
    requires multiset(h1) + multiset{root} == multiset(h0)
    requires multiset(h2) == multiset(h1) + multiset(children)
    requires forall n :: n in h0 ==> ok(n)
    requires forall n :: n in children ==> ok(n)
    ensures forall n :: n in h2 ==> ok(n)
  {
    forall n | n in h2 ensures ok(n) {
      assert n in multiset(h2);
      if n !in multiset(children) {
        assert n in multiset(h1) && n in multiset(h0);
      }
    }
  }

  /** One `queue(value)` per value, in order. */
  method QueueAll<T>(queue: PriorityQueue<T>, values: seq<T>)
    modifies queue
    ensures multiset(queue.heap) == old(multiset(queue.heap)) + multiset(values)
    ensures old(HeapOrdered(queue.heap, queue.key)) ==> HeapOrdered(queue.heap, queue.key)
  {
    for i := 0 to |values|
      invariant multiset(queue.heap) == old(multiset(queue.heap)) + multiset(values[..i])
      invariant old(HeapOrdered(queue.heap, queue.key)) ==> HeapOrdered(queue.heap, queue.key)
    {
      queue.Queue(values[i]);
      assert values[..i + 1] == values[..i] + [values[i]];
    }
    assert values[..|values|] == values;
  }

  /** A `solveDijkstra` entry: `{ position, distance }`. */
  datatype DistanceNode = DistanceNode(trace: Trace, distance: int)

  /** The comparator key of `solveDijkstra`'s queue: `a.distance - b.distance`. */
  function Distance(n: DistanceNode): int
  {
    n.distance
  }

  function DistanceTrace(n: DistanceNode): Trace
  {
    n.trace
  }

  /** An entry's `distance` is the number of links in its chain. */
  predicate DistanceCounts(n: DistanceNode)
  {
    n.distance == Depth(n.trace)
  }

  /** The entries `solveDijkstra` queues for the expansions of `n`: each move costs 1. */
  function DistanceChildren(n: DistanceNode, next: seq<Trace>): (r: seq<DistanceNode>)
    ensures |r| == |next| && forall j :: 0 <= j < |r| ==> r[j].trace == next[j]
  {
    seq(|next|, j requires 0 <= j < |next| => DistanceNode(next[j], n.distance + 1))
  }

  /** An entry's `distance` is the number of links in its chain, for the start entry and every child. */
  lemma DistanceCountsLinks(n: DistanceNode, next: seq<Trace>)
    requires DistanceCounts(n)
    requires forall t :: t in next ==> t.Via? && t.previous == n.trace
    ensures forall c :: c in DistanceChildren(n, next) ==> DistanceCounts(c)
  {
    var r := DistanceChildren(n, next);
    forall c | c in r ensures DistanceCounts(c) {
      var j :| 0 <= j < |r| && r[j] == c;
      assert next[j] in next;
    }
  }

  /** The loop of `solveDijkstra`: the frontier a `PriorityQueue` keyed by `distance`. */
  method SearchDijkstra(g: Grid, bounds: Point, start: Point, target: Point) returns (last: Trace)
    requires Shaped(g, bounds) && InsideBounds(start, bounds)
    ensures TraceOk(g, bounds, start, last)
    ensures last.at == target <==> Reachable(g, bounds, start, target)
  {
    var visited: set<(int, int)> := {};
    var position := Origin(start);
    var queue := new PriorityQueue<DistanceNode>(Distance);
    queue.Queue(DistanceNode(position, 0));
    SearchBegins(g, bounds, start, target);
    assert queue.heap == [DistanceNode(position, 0)] by {
      assert |queue.heap| == 1 && queue.heap[0] in multiset(queue.heap);
    }
    assert Pending(queue.heap, DistanceTrace) == {Origin(start)} by {
      assert DistanceTrace(queue.heap[0]) == Origin(start);
    }
    while queue.Length() > 0 && !Equals(position.at, target)
      invariant Searched(g, bounds, start, target, visited, Pending(queue.heap, DistanceTrace), position)
      invariant forall n :: n in queue.heap ==> DistanceCounts(n)
      decreases |Cells(bounds) - visited|, |queue.heap|
    {
      ghost var h0 := queue.heap;
      var node := queue.DequeueAsWritten();
      var n := node.value;
      position := n.trace;
      assert n in h0;
      ghost var h1 := queue.heap;
      if Serialize(position.at) in visited {
        DequeueKeeps(h0, n, h1, DistanceTrace);
        EntriesKept(h0, n, h1, [], h1, DistanceCounts);
        SkipKeeps(g, bounds, start, target, visited, Pending(h0, DistanceTrace), position, Pending(h1, DistanceTrace));
        continue;
      }
      TraceOkRooted(g, bounds, start, position);
      VisitShrinks(bounds, visited, position.at);
      ghost var visited0 := visited;
      visited := visited + {Serialize(position.at)};
      var next := Expand(g, bounds, position, visited);
      ExpansionsExactly(g, bounds, position, visited);
      var children := DistanceChildren(n, next);
      DistanceCountsLinks(n, next);
      QueueAll(queue, children);
      DequeueThenQueue(h0, n, h1, children, queue.heap, DistanceTrace, next);
      EntriesKept(h0, n, h1, children, queue.heap, DistanceCounts);
      ExpandKeeps(g, bounds, start, target, visited0, Pending(h0, DistanceTrace), position, Pending(queue.heap, DistanceTrace));
    }
    SearchEnds(g, bounds, start, target, visited, Pending(queue.heap, DistanceTrace), position);
    last := position;
  }

  /** A `solveAStar` entry: `{ position, f, g }`. */
  datatype ScoredNode = ScoredNode(trace: Trace, f: int, g: int)

  /** The comparator key of `solveAStar`'s queue: `a.f - b.f`. */
  function Score(n: ScoredNode): int
  {
    n.f
  }

  function ScoredTrace(n: ScoredNode): Trace
  {
    n.trace
  }

  /**
   * The entries `solveAStar` queues for the expansions of `n`: `g` grows by
   * the heuristic distance of the move and `f` adds the heuristic distance
   * to the target.
   */
  function ScoredChildren(n: ScoredNode, next: seq<Trace>, target: Point): (r: seq<ScoredNode>)
    ensures |r| == |next| && forall j :: 0 <= j < |r| ==> r[j].trace == next[j]
  {
    seq(|next|, j requires 0 <= j < |next| =>
      var g := n.g + Heuristic(n.trace.at, next[j].at);
      ScoredNode(next[j], g + Heuristic(next[j].at, target), g))
  }

  /**
   * An entry's `g` is the number of links in its chain and, past the start
   * entry, its `f` adds the heuristic distance to the target.
   */
  predicate ScoreCounts(n: ScoredNode, target: Point)
  {
    n.g == Depth(n.trace) && (n.trace.Via? ==> n.f == n.g + Heuristic(n.trace.at, target))
  }

  /**
   * Every move of the expansion costs exactly 1 in `g`, so `g` counts the
   * links of the chain as Dijkstra's `distance` does, and `f` is `g` plus
   * the heuristic distance to the target.
   */
  lemma ScoreCountsLinks(grid: Grid, bounds: Point, n: ScoredNode, next: seq<Trace>, target: Point)
    requires n.g == Depth(n.trace)
    requires forall t :: t in next ==> t.Via? && t.previous == n.trace && Linked(grid, bounds, n.trace.at, t.at)
    ensures forall c :: c in ScoredChildren(n, next, target) ==> ScoreCounts(c, target)
  {
    var r := ScoredChildren(n, next, target);
    forall c | c in r ensures ScoreCounts(c, target) {
      var j :| 0 <= j < |r| && r[j] == c;
      assert next[j] in next;
      LinkedNeighbours(grid, bounds, n.trace.at, next[j].at);
    }
  }

  /** The loop of `solveAStar`: the frontier a `PriorityQueue` keyed by `f = g + h`. */
  method SearchAStar(g: Grid, bounds: Point, start: Point, target: Point) returns (last: Trace)
    requires Shaped(g, bounds) && InsideBounds(start, bounds)
    ensures TraceOk(g, bounds, start, last)
    ensures last.at == target <==> Reachable(g, bounds, start, target)
  {
    var visited: set<(int, int)> := {};
    var position := Origin(start);
    var queue := new PriorityQueue<ScoredNode>(Score);
    queue.Queue(ScoredNode(position, 0, 0));
    SearchBegins(g, bounds, start, target);
    assert queue.heap == [ScoredNode(position, 0, 0)] by {
      assert |queue.heap| == 1 && queue.heap[0] in multiset(queue.heap);
    }
    assert Pending(queue.heap, ScoredTrace) == {Origin(start)} by {
      assert ScoredTrace(queue.heap[0]) == Origin(start);
    }
    while queue.Length() > 0 && !Equals(position.at, target)
      invariant Searched(g, bounds, start, target, visited, Pending(queue.heap, ScoredTrace), position)
      invariant forall n :: n in queue.heap ==> ScoreCounts(n, target)
      decreases |Cells(bounds) - visited|, |queue.heap|
    {
      ghost var h0 := queue.heap;
      var node := queue.DequeueAsWritten();
      var n := node.value;
      position := n.trace;
      assert n in h0;
      ghost var h1 := queue.heap;
      if Serialize(position.at) in visited {
        DequeueKeeps(h0, n, h1, ScoredTrace);
        EntriesKept(h0, n, h1, [], h1, m => ScoreCounts(m, target));
        SkipKeeps(g, bounds, start, target, visited, Pending(h0, ScoredTrace), position, Pending(h1, ScoredTrace));
        continue;
      }
      TraceOkRooted(g, bounds, start, position);
      VisitShrinks(bounds, visited, position.at);
      ghost var visited0 := visited;
      visited := visited + {Serialize(position.at)};
      var next := Expand(g, bounds, position, visited);
      ExpansionsExactly(g, bounds, position, visited);
      var children := ScoredChildren(n, next, target);
      ScoreCountsLinks(g, bounds, n, next, target);
      QueueAll(queue, children);
      DequeueThenQueue(h0, n, h1, children, queue.heap, ScoredTrace, next);
      EntriesKept(h0, n, h1, children, queue.heap, m => ScoreCounts(m, target));
      ExpandKeeps(g, bounds, start, target, visited0, Pending(h0, ScoredTrace), position, Pending(queue.heap, ScoredTrace));
    }
    SearchEnds(g, bounds, start, target, visited, Pending(queue.heap, ScoredTrace), position);
    last := position;
  }

  /**
   * The rebuild after every search loop: follow `previous` from `last`
   * until a point equal to `start`, collecting the points passed.
   */
  method BuildPath(last: Trace, start: Point) returns (path: seq<Point>)
    requires Rooted(last, start)
    ensures path == PathBack(last, start)
  {
    path := [];
    var position := last;
    while !Equals(position.at, start)
      invariant Rooted(position, start)
      invariant path + PathBack(position, start) == PathBack(last, start)
      decreases position
    {
      path := path + [position.at];
      position := position.previous;
    }
  }

  /** Which of the four solve methods runs. */
  datatype Algorithm = BreadthFirst | DepthFirst | AStar | Dijkstra

  /** The search loop of the chosen solve method. */
  method Search(algorithm: Algorithm, g: Grid, bounds: Point, start: Point, target: Point) returns (last: Trace)
    requires Shaped(g, bounds) && InsideBounds(start, bounds)
    ensures TraceOk(g, bounds, start, last)
    ensures last.at == target <==> Reachable(g, bounds, start, target)
  {
    match algorithm
    case BreadthFirst => last := SearchBreadthFirst(g, bounds, start, target);
    case DepthFirst => last := SearchDepthFirst(g, bounds, start, target);
    case AStar => last := SearchAStar(g, bounds, start, target);
    case Dijkstra => last := SearchDijkstra(g, bounds, start, target);
  }
}
