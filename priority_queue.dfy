/**
 * The binary min-heap behind Dijkstra's algorithm and A* (app.js:1-87).
 *
 * The source's caller-supplied comparator is, at both of its uses,
 * a difference of integer keys (`a.f - b.f`, `a.distance - b.distance`);
 * the model takes the key function and compares as `key(a) - key(b)`.
 * The heap is the array `_heap`, which grows and shrinks, held as a
 * sequence that the methods reassign.
 */
module PriorityQueues {
  import opened Options
  import opened Sequences

  /** `_parent`: `Math.floor((idx - 1) / 2)`; Dafny's `/` floors for a positive divisor. */
  function Parent(idx: int): (p: int)
    ensures idx > 0 ==> 0 <= p < idx
    ensures idx == 0 ==> p == -1
  {
    (idx - 1) / 2
  }

  /** `_leftChild`. */
  function LeftChild(idx: int): (c: int)
    ensures Parent(c) == idx
    ensures idx >= 0 ==> c > idx
  {
    idx * 2 + 1
  }

  /** `_rightChild`. */
  function RightChild(idx: int): (c: int)
    ensures Parent(c) == idx && c == LeftChild(idx) + 1
  {
    idx * 2 + 2
  }

  /** The only indices whose parent is `p` are its two children. */
  lemma ChildrenOfParent(i: int, p: int)
    requires i > 0 && Parent(i) == p
    ensures i == LeftChild(p) || i == RightChild(p)
  {
  }

  /** The source's comparator: negative when `a` precedes `b`. */
  function Compare<T>(key: T -> int, a: T, b: T): int
  {
    key(a) - key(b)
  }

  /** The heap property: `cmp(heap[parent(i)], heap[i]) <= 0` for every non-root index. */
  ghost predicate HeapOrdered<T>(h: seq<T>, key: T -> int)
  {
    forall i :: 0 < i < |h| ==> Compare(key, h[Parent(i)], h[i]) <= 0
  }

  /** In an ordered heap the root precedes (or ties with) every element. */
  lemma {:induction false} RootIsMinimum<T>(h: seq<T>, key: T -> int, i: nat)
    requires HeapOrdered(h, key) && i < |h|
    ensures key(h[0]) <= key(h[i])
    decreases i
  {
    if i > 0 {
      RootIsMinimum(h, key, Parent(i));
    }
  }

  /** Every element of an ordered heap has a key at least the root's. */
  lemma RootPrecedesAll<T>(h: seq<T>, key: T -> int)
    requires HeapOrdered(h, key) && |h| > 0
    ensures forall x :: x in h ==> key(h[0]) <= key(x)
  {
    forall x | x in h ensures key(h[0]) <= key(x) {
      var i :| 0 <= i < |h| && h[i] == x;
      RootIsMinimum(h, key, i);
    }
  }

  /**
   * The sift-down loop of `dequeue` exactly as written: `end` is the element
   * moved to the root; the right child is taken whenever no left child was
   * taken, without comparing it with `end`.
   */
  function SiftDownAsWritten<T>(h: seq<T>, key: T -> int, idx: nat, end: T): (r: seq<T>)
    requires idx < |h|
    ensures |r| == |h| && multiset(r) == multiset(h)
    decreases |h| - idx
  {
    var left := LeftChild(idx);
    var right := RightChild(idx);
    var byLeft := left < |h| && Compare(key, h[left], end) < 0;
    var byRight := right < |h| && (!byLeft || Compare(key, h[right], h[left]) < 0);
    if byRight then SiftDownAsWritten(Swapped(h, idx, right), key, right, end)
    else if byLeft then SiftDownAsWritten(Swapped(h, idx, left), key, left, end)
    else h
  }

  /** The heap `dequeue` leaves behind, as written. */
  function DequeuedAsWritten<T>(h: seq<T>, key: T -> int): (r: seq<T>)
    requires |h| > 0
    ensures |r| == |h| - 1 && multiset(r) + multiset{h[0]} == multiset(h)
  {
    var end := h[|h| - 1];
    if |h| == 1 then []
    else
      assert h == [h[0]] + h[1..|h| - 1] + [end];
      SiftDownAsWritten([end] + h[1..|h| - 1], key, 0, end)
  }

  /**
   * The defect: on the ordered heap [0, 5, 6, 5] the moved 5 ties with the
   * left child, so the right child 6 is swapped above the left child 5.
   */
  lemma DequeueAsWrittenBreaksOrder()
    ensures HeapOrdered([0, 5, 6, 5], Identity)
    ensures DequeuedAsWritten([0, 5, 6, 5], Identity) == [6, 5, 5]
    ensures !HeapOrdered([6, 5, 5], Identity)
  {
    var h := [0, 5, 6, 5];
    assert Parent(1) == 0 && Parent(2) == 0 && Parent(3) == 1;
    forall i | 0 < i < 4 ensures Compare(Identity, h[Parent(i)], h[i]) <= 0 {
      assert i == 1 || i == 2 || i == 3;
    }
    assert [h[3]] + h[1..3] == [5, 5, 6];
    assert Swapped([5, 5, 6], 0, 2) == [6, 5, 5];
    assert SiftDownAsWritten([6, 5, 5], Identity, 2, 5) == [6, 5, 5];
    assert SiftDownAsWritten([5, 5, 6], Identity, 0, 5) == [6, 5, 5];
    assert Compare(Identity, [6, 5, 5][Parent(1)], [6, 5, 5][1]) > 0;
  }

  /** The key of the counterexample: a queue of plain integers. */
  function Identity(n: int): int
  {
    n
  }

  /** Ordered except possibly between `hole` and its children, with the hole's parent above them. */
  ghost predicate OrderedBelowHole<T>(h: seq<T>, key: T -> int, hole: nat)
  {
    && (forall i :: 0 < i < |h| && Parent(i) != hole ==> key(h[Parent(i)]) <= key(h[i]))
    && (hole > 0 ==> forall i :: 0 < i < |h| && Parent(i) == hole ==> key(h[Parent(hole)]) <= key(h[i]))
  }

  /** Ordered except possibly between `idx` and its parent, with `idx`'s parent above its children. */
  ghost predicate OrderedAboveHole<T>(h: seq<T>, key: T -> int, idx: nat)
  {
    && (forall i :: 0 < i < |h| && i != idx ==> key(h[Parent(i)]) <= key(h[i]))
    && (idx > 0 ==> forall i :: 0 < i < |h| && Parent(i) == idx ==> key(h[Parent(idx)]) <= key(h[i]))
  }

  /** `new PriorityQueue(comparator)`, with the comparator given by its key. */
  class PriorityQueue<T> {
    const key: T -> int
    var heap: seq<T>

    constructor (key: T -> int)
      ensures this.key == key && heap == []
    {
      this.key := key;
      heap := [];
    }

    /** `length()`: the number of queued elements. */
    function Length(): (n: nat)
      reads this
      ensures n == 0 <==> heap == []
      ensures n == |multiset(heap)|
    {
      |heap|
    }

    /** `_swap(i, j)`. */
    method Swap(i: nat, j: nat)
      requires i < |heap| && j < |heap|
      modifies this
      ensures heap == Swapped(old(heap), i, j)
    {
      heap := Swapped(heap, i, j);
    }

    /** `queue(value)`: append, then sift up while the parent follows the element. */
    method Queue(value: T)
      modifies this
      ensures multiset(heap) == old(multiset(heap)) + multiset{value}
      ensures |heap| == old(|heap|) + 1
      ensures old(HeapOrdered(heap, key)) ==> HeapOrdered(heap, key)
    {
      ghost var ordered := HeapOrdered(heap, key);
      heap := heap + [value];
      var idx := |heap| - 1;
      while idx != 0 && Compare(key, heap[Parent(idx)], heap[idx]) > 0
        invariant 0 <= idx < |heap| == old(|heap|) + 1
        invariant multiset(heap) == old(multiset(heap)) + multiset{value}
        invariant ordered ==> OrderedAboveHole(heap, key, idx)
        decreases idx
      {
        ghost var h := heap;
        var p := Parent(idx);
        Swap(idx, p);
        if ordered {
          SiftUpStep(h, idx, p);
        }
        idx := p;
      }
    }

    /** One swap of the sift-up keeps the order around the moving element. */
    lemma SiftUpStep(h: seq<T>, idx: nat, p: nat)
      requires 0 < idx < |h| && p == Parent(idx)
      requires OrderedAboveHole(h, key, idx)
      requires key(h[p]) > key(h[idx])
      ensures OrderedAboveHole(Swapped(h, idx, p), key, p)
    {
      var h' := Swapped(h, idx, p);
      forall i | 0 < i < |h'| && i != p
        ensures key(h'[Parent(i)]) <= key(h'[i])
      {
        if Parent(i) == p && i != idx {
          assert key(h[p]) <= key(h[i]);
        }
      }
      if p > 0 {
        forall i | 0 < i < |h'| && Parent(i) == p
          ensures key(h'[Parent(p)]) <= key(h'[i])
        {
          assert key(h[Parent(p)]) <= key(h[p]);
        }
      }
    }

    /**
     * `dequeue` as written (app.js:45-82): the sift-down takes the right child
     * whenever the left one was not taken.  On an empty queue it returns
     * nothing and changes nothing (the source returns `undefined`).
     */
    method DequeueAsWritten() returns (root: Option<T>)
      modifies this
      ensures old(|heap|) == 0 ==> root == None && heap == old(heap)
      ensures old(|heap|) > 0 ==> root == Some(old(heap)[0]) && heap == DequeuedAsWritten(old(heap), key)
    {
      if |heap| == 0 {
        return None;
      }
      root := Some(heap[0]);
      var end := heap[|heap| - 1];
      heap := heap[..|heap| - 1];
      if |heap| > 0 {
        ghost var h0 := old(heap);
        assert h0[1..|h0| - 1] == heap[1..];
        heap := heap[0 := end];
        assert heap == [end] + h0[1..|h0| - 1];
        var idx := 0;
        var length := |heap|;
        while true
          invariant 0 <= idx < |heap| == length
          invariant SiftDownAsWritten(heap, key, idx, end) == DequeuedAsWritten(h0, key)
          decreases length - idx
        {
          var left := LeftChild(idx);
          var right := RightChild(idx);
          var swapIdx := -1;
          if left < length && Compare(key, heap[left], end) < 0 {
            swapIdx := left;
          }
          if right < length && (swapIdx == -1 || Compare(key, heap[right], heap[left]) < 0) {
            swapIdx := right;
          }
          if swapIdx == -1 {
            break;
          }
          Swap(idx, swapIdx);
          idx := swapIdx;
        }
      }
    }

    /**
     * `dequeue` with the right-child test the sift-down evidently intends:
     * when no left child was taken, the right child is taken only if it
     * precedes the moved element.  Removes and returns exactly the root,
     * keeps the heap ordered, and returns an element that precedes or ties
     * with everything left, so successive dequeues never go down in key.
     */
    method Dequeue() returns (root: Option<T>)
      modifies this
      ensures old(|heap|) == 0 ==> root == None && heap == old(heap)
      ensures old(|heap|) > 0 ==> root == Some(old(heap)[0])
      ensures old(|heap|) > 0 ==> |heap| == old(|heap|) - 1 && multiset(heap) + multiset{old(heap)[0]} == old(multiset(heap))
      ensures old(HeapOrdered(heap, key)) ==> HeapOrdered(heap, key)
      ensures old(HeapOrdered(heap, key)) && root.Some? ==> forall x :: x in heap ==> key(root.value) <= key(x)
    {
      if |heap| == 0 {
        return None;
      }
      ghost var h0 := heap;
      ghost var ordered := HeapOrdered(heap, key);
      if ordered {
        RootPrecedesAll(h0, key);
      }
      root := Some(heap[0]);
      var end := heap[|heap| - 1];
      heap := heap[..|heap| - 1];
      assert h0 == heap + [end];
      if |heap| > 0 {
        heap := heap[0 := end];
        MovedToRoot(h0, heap, ordered);
        SiftDown(end, ordered);
      }
      forall x | x in heap ensures x in h0 {
        assert x in multiset(heap);
      }
    }

    /** The state right after `_heap[0] = end`: the hole is at the root. */
    lemma MovedToRoot(h0: seq<T>, h: seq<T>, ordered: bool)
      requires |h0| >= 2 && |h| == |h0| - 1
      requires h[0] == h0[|h0| - 1] && forall i :: 0 < i < |h| ==> h[i] == h0[i]
      requires ordered ==> HeapOrdered(h0, key)
      ensures multiset(h) + multiset{h0[0]} == multiset(h0)
      ensures ordered ==> OrderedBelowHole(h, key, 0)
    {
      assert h0 == [h0[0]] + h0[1..|h0| - 1] + [h0[|h0| - 1]];
      assert h == [h0[|h0| - 1]] + h0[1..|h0| - 1];
    }

    /** The corrected sift-down loop, moving `end` down from the root. */
    method SiftDown(end: T, ghost ordered: bool)
      requires |heap| > 0 && heap[0] == end
      requires ordered ==> OrderedBelowHole(heap, key, 0)
      modifies this
      ensures |heap| == old(|heap|)
      ensures multiset(heap) == old(multiset(heap))
      ensures ordered ==> HeapOrdered(heap, key)
    {
      var idx := 0;
      var length := |heap|;
      while true
        invariant 0 <= idx < |heap| == length
        invariant heap[idx] == end
        invariant multiset(heap) == old(multiset(heap))
        invariant ordered ==> OrderedBelowHole(heap, key, idx)
        decreases length - idx
      {
        var left := LeftChild(idx);
        var right := RightChild(idx);
        var swapIdx := -1;
        if left < length && Compare(key, heap[left], end) < 0 {
          swapIdx := left;
        }
        if right < length && Compare(key, heap[right], if swapIdx == -1 then end else heap[left]) < 0 {
          swapIdx := right;
        }
        if swapIdx == -1 {
          if ordered {
            SiftDownStop(heap, idx);
          }
          break;
        }
        ghost var h := heap;
        Swap(idx, swapIdx);
        if ordered {
          SiftDownStep(h, idx, swapIdx);
        }
        idx := swapIdx;
      }
    }

    /** When neither child precedes the hole's element, the whole heap is ordered. */
    lemma SiftDownStop(h: seq<T>, idx: nat)
      requires idx < |h| && OrderedBelowHole(h, key, idx)
      requires LeftChild(idx) < |h| ==> key(h[idx]) <= key(h[LeftChild(idx)])
      requires RightChild(idx) < |h| ==> key(h[idx]) <= key(h[RightChild(idx)])
      ensures HeapOrdered(h, key)
    {
      forall i | 0 < i < |h| ensures Compare(key, h[Parent(i)], h[i]) <= 0 {
        if Parent(i) == idx {
          ChildrenOfParent(i, idx);
        }
      }
    }

    /** One swap of the corrected sift-down keeps the order around the hole. */
    lemma SiftDownStep(h: seq<T>, idx: nat, c: nat)
      requires c < |h| && Parent(c) == idx
      requires OrderedBelowHole(h, key, idx)
      requires key(h[c]) < key(h[idx])
      requires LeftChild(idx) < |h| ==> key(h[c]) <= key(h[LeftChild(idx)])
      requires RightChild(idx) < |h| ==> key(h[c]) <= key(h[RightChild(idx)])
      ensures OrderedBelowHole(Swapped(h, idx, c), key, c)
    {
      var h' := Swapped(h, idx, c);
      forall i | 0 < i < |h| && Parent(i) == idx ensures key(h[c]) <= key(h[i]) {
        ChildrenOfParent(i, idx);
      }
      forall i | 0 < i < |h'| && Parent(i) != c
        ensures key(h'[Parent(i)]) <= key(h'[i])
      {
        if i == idx && idx > 0 {
          assert key(h[Parent(idx)]) <= key(h[c]);
        }
      }
      forall i | 0 < i < |h'| && Parent(i) == c
        ensures key(h'[Parent(c)]) <= key(h'[i])
      {
        assert key(h[c]) <= key(h[i]);
      }
    }
  }
}
