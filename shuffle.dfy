/** `shuffleArray` (app.js:602-608): an in-place Fisher-Yates shuffle. */
module Shuffling {
  import opened Sequences

  /**
   * The random draws of one shuffle: `js[i]` stands for
   * `Math.floor(Math.random() * (i + 1))`, drawn when the loop is at `i`.
   */
  predicate ValidDraws(js: seq<nat>, n: nat)
  {
    n <= |js| && forall i :: 0 < i < n ==> js[i] <= i
  }

  /**
   * The entries once the loop has run for the indices `|s| - 1` down to
   * `i`, each step swapping entries `i` and `js[i]`; index 0 has no step.
   */
  function ShuffledDownTo<T>(s: seq<T>, js: seq<nat>, i: nat): (r: seq<T>)
    requires i <= |s| && ValidDraws(js, |s|)
    ensures |r| == |s| && multiset(r) == multiset(s)
    decreases |s| - i
  {
    if i == |s| then s
    else if i == 0 then ShuffledDownTo(s, js, 1)
    else Swapped(ShuffledDownTo(s, js, i + 1), i, js[i])
  }

  /** What `shuffleArray` leaves in an array that held `s`. */
  function Shuffled<T>(s: seq<T>, js: seq<nat>): seq<T>
    requires ValidDraws(js, |s|)
  {
    ShuffledDownTo(s, js, 0)
  }

  /** Shuffling only permutes: same length, same multiset, same members. */
  lemma ShuffledPermutes<T>(s: seq<T>, js: seq<nat>)
    requires ValidDraws(js, |s|)
    ensures |Shuffled(s, js)| == |s| && multiset(Shuffled(s, js)) == multiset(s)
    ensures forall x :: x in Shuffled(s, js) <==> x in s
  {
    forall x ensures x in Shuffled(s, js) <==> x in s {
      assert x in Shuffled(s, js) <==> x in multiset(Shuffled(s, js));
      assert x in s <==> x in multiset(s);
    }
  }

  /** What `pop()` returns after the shuffle: one of the entries. */
  function ShuffledLast<T>(s: seq<T>, js: seq<nat>): (x: T)
    requires |s| > 0 && ValidDraws(js, |s|)
    ensures x in s
  {
    var r := Shuffled(s, js);
    ShuffledPermutes(s, js);
    assert r[|s| - 1] in multiset(r);
    r[|s| - 1]
  }

  /** The destructuring swap in the loop body: entries `i` and `j` trade places. */
  method SwapEntries<T>(a: array<T>, i: nat, j: nat)
    requires i < a.Length && j < a.Length
    modifies a
    ensures a[..] == Swapped(old(a[..]), i, j)
  {
    a[i], a[j] := a[j], a[i];
  }

  /** `shuffleArray(array)`, with the random draws given as `js`. */
  method ShuffleArray<T>(a: array<T>, js: seq<nat>)
    requires ValidDraws(js, a.Length)
    modifies a
    ensures a[..] == Shuffled(old(a[..]), js)
    ensures multiset(a[..]) == multiset(old(a[..]))
  {
    ghost var s0 := a[..];
    var i := a.Length - 1;
    ghost var k := a.Length;  // the lowest index swapped so far
    while i > 0
      invariant -1 <= i < a.Length && k == i + 1
      invariant a[..] == ShuffledDownTo(s0, js, k)
      decreases i
    {
      assert ShuffledDownTo(s0, js, i) == Swapped(ShuffledDownTo(s0, js, k), i, js[i]);
      SwapEntries(a, i, js[i]);
      k := i;
      i := i - 1;
    }
    if k == 1 {
      assert ShuffledDownTo(s0, js, 0) == ShuffledDownTo(s0, js, 1);
    }
    assert multiset(a[..]) == multiset(s0) by {
      ShuffledPermutes(s0, js);
    }
  }
}
