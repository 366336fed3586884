/**
 Heapsort, indexed by element: the reference for the byte-scaled loops of env_sort.
 The comparator is the C one: negative, zero or positive.
 */
module HeapSort {

  ghost predicate TotalPreorder<T(!new)>(cmp: (T, T) -> int) {
    && (forall a, b :: cmp(a, b) < 0 <==> cmp(b, a) > 0)
    && (forall a, b, c :: cmp(a, b) <= 0 && cmp(b, c) <= 0 ==> cmp(a, c) <= 0)
  }

  ghost predicate Sorted<T>(e: seq<T>, cmp: (T, T) -> int) {
    forall i, j :: 0 <= i < j < |e| ==> cmp(e[i], e[j]) <= 0
  }

  function Swapped<T>(e: seq<T>, i: nat, j: nat): seq<T>
    requires i < |e| && j < |e|
  {
    e[i := e[j]][j := e[i]]
  }

  /** The larger child of r; the left one on a tie. */
  function BigChild<T>(e: seq<T>, cmp: (T, T) -> int, r: nat, n: nat): (c: nat)
    requires 2 * r + 1 < n <= |e|
    ensures (c == 2 * r + 1 || c == 2 * r + 2) && c < n
  {
    var c := 2 * r + 1;
    if c < n - 1 && cmp(e[c], e[c + 1]) < 0 then c + 1 else c
  }

  /** Sift the element at r down the heap e[..n]. */
  function Sift<T>(e: seq<T>, cmp: (T, T) -> int, r: nat, n: nat): (s: seq<T>)
    requires n <= |e|
    ensures |s| == |e|
    decreases n - r
  {
    if 2 * r + 1 >= n then e
    else
      var c := BigChild(e, cmp, r, n);
      if cmp(e[r], e[c]) >= 0 then e else Sift(Swapped(e, r, c), cmp, c, n)
  }

  /** The first loop: sift the i first positions, last first. */
  function Heapify<T>(e: seq<T>, cmp: (T, T) -> int, i: nat): (s: seq<T>)
    ensures |s| == |e|
    decreases i
  {
    if i == 0 then e else Heapify(Sift(e, cmp, i - 1, |e|), cmp, i - 1)
  }

  /** The second loop: move the root to position i, repair, and go on below i. */
  function Unheap<T>(e: seq<T>, cmp: (T, T) -> int, i: nat): (s: seq<T>)
    requires e == [] || i < |e|
    ensures |s| == |e|
    decreases i
  {
    if i == 0 || e == [] then e else Unheap(Sift(Swapped(e, 0, i), cmp, 0, i), cmp, i - 1)
  }

  function HeapSorted<T>(e: seq<T>, cmp: (T, T) -> int): (s: seq<T>)
    ensures |s| == |e|
  {
    if e == [] then e else Unheap(Heapify(e, cmp, |e| / 2), cmp, |e| - 1)
  }

  // ---------------------------------------------------------------- permutation

  lemma SwappedPermutes<T>(e: seq<T>, i: nat, j: nat)
    requires i < |e| && j < |e|
    ensures multiset(Swapped(e, i, j)) == multiset(e)
  {
  }

  lemma {:induction false} SiftPermutes<T>(e: seq<T>, cmp: (T, T) -> int, r: nat, n: nat)
    requires n <= |e|
    ensures multiset(Sift(e, cmp, r, n)) == multiset(e)
    decreases n - r
  {
    if 2 * r + 1 < n {
      var c := BigChild(e, cmp, r, n);
      if cmp(e[r], e[c]) < 0 {
        SwappedPermutes(e, r, c);
        SiftPermutes(Swapped(e, r, c), cmp, c, n);
      }
    }
  }

  /** Sifting e[..n] only moves elements about below n. */
  lemma {:induction false} SiftStaysBelow<T>(e: seq<T>, cmp: (T, T) -> int, r: nat, n: nat, k: nat) returns (from: nat)
    requires n <= |e| && k < |e|
    ensures from < |e| && Sift(e, cmp, r, n)[k] == e[from]
    ensures if k < n then from < n else from == k
    decreases n - r
  {
    from := k;
    if 2 * r + 1 < n {
      var c := BigChild(e, cmp, r, n);
      if cmp(e[r], e[c]) < 0 {
        var f := SiftStaysBelow(Swapped(e, r, c), cmp, c, n, k);
        from := if f == r then c else if f == c then r else f;
      }
    }
  }

  // ---------------------------------------------------------------- the heap

  function Parent(c: nat): nat
    requires c > 0
  {
    (c - 1) / 2
  }

  /** Every parent at or after lo is at least its children below n. */
  ghost predicate HeapFrom<T>(e: seq<T>, cmp: (T, T) -> int, lo: nat, n: nat)
    requires n <= |e|
  {
    forall c :: 0 < c < n && Parent(c) >= lo ==> cmp(e[Parent(c)], e[c]) >= 0
  }

  /** A heap except that r may be too small for its place; its children are still below its parent. */
  ghost predicate HeapBut<T>(e: seq<T>, cmp: (T, T) -> int, lo: nat, r: nat, n: nat)
    requires n <= |e|
  {
    && (forall c :: 0 < c < n && Parent(c) >= lo && Parent(c) != r ==> cmp(e[Parent(c)], e[c]) >= 0)
    && (0 < r < n && Parent(r) >= lo ==>
          forall c :: 0 < c < n && Parent(c) == r ==> cmp(e[Parent(r)], e[c]) >= 0)
  }

  lemma {:induction false} SiftMakesHeap<T(!new)>(e: seq<T>, cmp: (T, T) -> int, lo: nat, r: nat, n: nat)
    requires TotalPreorder(cmp) && lo <= r && n <= |e| && HeapBut(e, cmp, lo, r, n)
    ensures HeapFrom(Sift(e, cmp, r, n), cmp, lo, n)
    decreases n - r
  {
    if 2 * r + 1 < n {
      var c := BigChild(e, cmp, r, n);
      BigChildIsBiggest(e, cmp, r, n);
      if cmp(e[r], e[c]) < 0 {
        SwapKeepsRest(e, cmp, lo, r, n);
        SiftMakesHeap(Swapped(e, r, c), cmp, lo, c, n);
      } else {
        forall k | 0 < k < n && Parent(k) == r
          ensures cmp(e[r], e[k]) >= 0
        {
          assert cmp(e[k], e[c]) <= 0 && cmp(e[c], e[r]) <= 0;
        }
      }
    }
  }

  lemma BigChildIsBiggest<T(!new)>(e: seq<T>, cmp: (T, T) -> int, r: nat, n: nat)
    requires TotalPreorder(cmp) && 2 * r + 1 < n <= |e|
    ensures forall k :: 0 < k < n && Parent(k) == r ==> cmp(e[k], e[BigChild(e, cmp, r, n)]) <= 0
  {
    forall k | 0 < k < n && Parent(k) == r
      ensures cmp(e[k], e[BigChild(e, cmp, r, n)]) <= 0
    {
      assert k == 2 * r + 1 || k == 2 * r + 2;
    }
  }

  lemma SwapKeepsRest<T(!new)>(e: seq<T>, cmp: (T, T) -> int, lo: nat, r: nat, n: nat)
    requires TotalPreorder(cmp) && lo <= r && 2 * r + 1 < n <= |e| && HeapBut(e, cmp, lo, r, n)
    requires cmp(e[r], e[BigChild(e, cmp, r, n)]) < 0
    ensures HeapBut(Swapped(e, r, BigChild(e, cmp, r, n)), cmp, lo, BigChild(e, cmp, r, n), n)
  {
    var c := BigChild(e, cmp, r, n);
    BigChildIsBiggest(e, cmp, r, n);
    var s := Swapped(e, r, c);
    assert Parent(c) == r;
    forall k | 0 < k < n && Parent(k) >= lo && Parent(k) != c
      ensures cmp(s[Parent(k)], s[k]) >= 0
    {
      if Parent(k) == r {
      } else if k == r {
        assert cmp(e[Parent(r)], e[c]) >= 0;
      } else {
        assert k != c;
      }
    }
    forall k | 0 < k < n && Parent(k) == c
      ensures cmp(s[Parent(c)], s[k]) >= 0
    {
      assert Parent(k) > r;
      assert s[k] == e[k] && s[r] == e[c];
    }
  }

  lemma {:induction false} HeapifyMakesHeap<T(!new)>(e: seq<T>, cmp: (T, T) -> int, i: nat)
    requires TotalPreorder(cmp) && HeapFrom(e, cmp, i, |e|)
    ensures HeapFrom(Heapify(e, cmp, i), cmp, 0, |e|) && multiset(Heapify(e, cmp, i)) == multiset(e)
    decreases i
  {
    if i > 0 {
      SiftMakesHeap(e, cmp, i - 1, i - 1, |e|);
      SiftPermutes(e, cmp, i - 1, |e|);
      HeapifyMakesHeap(Sift(e, cmp, i - 1, |e|), cmp, i - 1);
    }
  }

  lemma {:induction false} RootIsMax<T(!new)>(e: seq<T>, cmp: (T, T) -> int, n: nat, k: nat)
    requires TotalPreorder(cmp) && k < n <= |e| && HeapFrom(e, cmp, 0, n)
    ensures cmp(e[k], e[0]) <= 0
    decreases k
  {
    if k > 0 {
      RootIsMax(e, cmp, n, Parent(k));
      assert cmp(e[k], e[Parent(k)]) <= 0;
    } else {
      assert cmp(e[0], e[0]) <= 0;
    }
  }

  /** e[..i+1] is a heap, and everything after it is sorted and at least as large. */
  ghost predicate HalfSorted<T>(e: seq<T>, cmp: (T, T) -> int, i: nat)
    requires i < |e|
  {
    && HeapFrom(e, cmp, 0, i + 1)
    && forall a, b :: 0 <= a < b < |e| && b > i ==> cmp(e[a], e[b]) <= 0
  }

  lemma UnheapStep<T(!new)>(e: seq<T>, cmp: (T, T) -> int, i: nat)
    requires TotalPreorder(cmp) && 0 < i < |e| && HalfSorted(e, cmp, i)
    ensures HalfSorted(Sift(Swapped(e, 0, i), cmp, 0, i), cmp, i - 1)
  {
    var s := Swapped(e, 0, i);
    var t := Sift(s, cmp, 0, i);
    SiftMakesHeap(s, cmp, 0, 0, i);
    forall a, b | 0 <= a < b < |e| && b > i - 1
      ensures cmp(t[a], t[b]) <= 0
    {
      var fa := SiftStaysBelow(s, cmp, 0, i, a);
      var fb := SiftStaysBelow(s, cmp, 0, i, b);
      if b == i {
        RootIsMax(e, cmp, i + 1, if fa == 0 then i else fa);
      } else {
        assert t[b] == e[b];
        var g := if fa == 0 then i else if fa == i then 0 else fa;
        assert t[a] == e[g] && g < b;
      }
    }
  }

  lemma {:induction false} UnheapSorts<T(!new)>(e: seq<T>, cmp: (T, T) -> int, i: nat)
    requires TotalPreorder(cmp) && i < |e| && HalfSorted(e, cmp, i)
    ensures Sorted(Unheap(e, cmp, i), cmp) && multiset(Unheap(e, cmp, i)) == multiset(e)
    decreases i
  {
    if i > 0 {
      UnheapStep(e, cmp, i);
      SwappedPermutes(e, 0, i);
      SiftPermutes(Swapped(e, 0, i), cmp, 0, i);
      UnheapSorts(Sift(Swapped(e, 0, i), cmp, 0, i), cmp, i - 1);
    }
  }

  /** The second half of a sequence has no children in it. */
  lemma LeavesAreHeap<T>(e: seq<T>, cmp: (T, T) -> int)
    ensures HeapFrom(e, cmp, |e| / 2, |e|)
  {
    forall c | 0 < c < |e|
      ensures Parent(c) < |e| / 2
    {
    }
  }

  lemma {:induction false} HeapSortSorts<T(!new)>(e: seq<T>, cmp: (T, T) -> int)
    requires TotalPreorder(cmp)
    ensures Sorted(HeapSorted(e, cmp), cmp)
    ensures multiset(HeapSorted(e, cmp)) == multiset(e)
  {
    if e != [] {
      LeavesAreHeap(e, cmp);
      var h := Heapify(e, cmp, |e| / 2);
      HeapifyMakesHeap(e, cmp, |e| / 2);
      UnheapSorts(h, cmp, |e| - 1);
    }
  }
}
