/**
 env_sort on raw bytes: the loops run over byte offsets scaled by the element size, with the C types'
 wrap-around in the first offset, and elements are exchanged by functions that take the size as an int.
 While the size fits an int this refines the element-indexed heapsort of module HeapSort.
 */
module EnvSort {
  import opened Basics
  import opened HeapSort
  import opened MemMove

  const TWO_64: nat := 0x1_0000_0000_0000_0000
  const TWO_63: nat := 0x8000_0000_0000_0000
  const TWO_62: nat := 0x4000_0000_0000_0000
  const TWO_31: nat := 0x8000_0000

  lemma {:induction false} OffOfChild(r: nat, size: nat)
    ensures Off(2 * r + 1, size) == Off(r, size) * 2 + size
  {
    if r > 0 {
      OffOfChild(r - 1, size);
      assert Off(2 * r + 1, size) == Off(2 * r, size) + size;
      assert Off(2 * r, size) == Off(2 * (r - 1) + 1, size) + size;
    }
  }

  /** Bytes of the k-th element. */
  function Slot(s: seq<byte>, size: nat, k: nat): seq<byte> {
    if Off(k, size) + size <= |s| then s[Off(k, size)..Off(k, size) + size] else []
  }

  /** The array as the caller sees it. */
  function Elems(s: seq<byte>, size: nat, num: nat): (e: seq<seq<byte>>)
    ensures |e| == num
  {
    seq(num, (k: nat) => Slot(s, size, k))
  }

  /** `now` is `was` with the `size` bytes at a and at b exchanged. */
  ghost predicate Exchanged(was: seq<byte>, now: seq<byte>, a: nat, b: nat, size: nat) {
    && |now| == |was| && a + size <= |was| && b + size <= |was|
    && (forall x {:trigger now[x]} :: a <= x < a + size ==> now[x] == was[x - a + b])
    && (forall x {:trigger now[x]} :: b <= x < b + size ==> now[x] == was[x - b + a])
    && (forall x {:trigger now[x]} :: 0 <= x < |was| && !(a <= x < a + size) && !(b <= x < b + size) ==> now[x] == was[x])
  }

  function Front(x: seq<byte>, count: nat): seq<byte> {
    if count <= |x| then x[..count] else x
  }

  function Back(x: seq<byte>, count: nat): seq<byte> {
    if count <= |x| then x[count..] else []
  }

  /** Elements i and j with their first `count` bytes exchanged. */
  function Torn(e: seq<seq<byte>>, i: nat, j: nat, count: nat): seq<seq<byte>>
    requires i < |e| && j < |e|
  {
    e[i := Front(e[j], count) + Back(e[i], count)][j := Front(e[i], count) + Back(e[j], count)]
  }

  /** Any other block of `size` bytes is as it was. */
  lemma BlockAfterExchange(was: seq<byte>, now: seq<byte>, a: nat, b: nat, count: nat, size: nat, o: nat)
    requires Exchanged(was, now, a, b, count) && count <= size && o + size <= |was| && a + size <= |was| && b + size <= |was|
    requires o == a || o + size <= a || a + size <= o
    requires o == b || o + size <= b || b + size <= o
    requires a != b
    ensures |now| == |was|
    ensures now[o..o + size] == (if o == a then was[b..b + count] + was[a + count..a + size]
                                 else if o == b then was[a..a + count] + was[b + count..b + size]
                                 else was[o..o + size])
  {
  }

  lemma SlotsAfterExchange(was: seq<byte>, now: seq<byte>, size: nat, count: nat, i: nat, j: nat, k: nat, num: nat)
    requires size > 0 && count <= size && i < j < num && k < num && |was| == Off(num, size)
    requires Exchanged(was, now, Off(i, size), Off(j, size), count)
    ensures Slot(now, size, k) == (if k == i then Front(Slot(was, size, j), count) + Back(Slot(was, size, i), count)
                                   else if k == j then Front(Slot(was, size, i), count) + Back(Slot(was, size, j), count)
                                   else Slot(was, size, k))
  {
    hide Exchanged, Off, Front, Back;
    Apart(i, j, k, num, size);
    var a, b, o := Off(i, size), Off(j, size), Off(k, size);
    BlockAfterExchange(was, now, a, b, count, size, o);
    assert Slot(now, size, k) == now[o..o + size] && Slot(was, size, k) == was[o..o + size];
    assert Slot(was, size, i) == was[a..a + size] && Slot(was, size, j) == was[b..b + size];
    hide Slot;
    BlockParts(was, a, size, count);
    BlockParts(was, b, size, count);
  }

  /** Elements do not overlap. */
  lemma Apart(i: nat, j: nat, k: nat, num: nat, size: nat)
    requires size > 0 && i < j < num && k < num
    ensures Off(i, size) + size <= Off(j, size) && Off(j, size) + size <= Off(num, size) && Off(k, size) + size <= Off(num, size)
    ensures k == i || Off(k, size) + size <= Off(i, size) || Off(i, size) + size <= Off(k, size)
    ensures k == j || Off(k, size) + size <= Off(j, size) || Off(j, size) + size <= Off(k, size)
  {
    Scale(i, j, size);
    Scale(j, num, size);
    Scale(k, num, size);
    if k < i {
      Scale(k, i, size);
    } else {
      Scale(i, k, size);
    }
    if k < j {
      Scale(k, j, size);
    } else {
      Scale(j, k, size);
    }
  }

  lemma BlockParts(s: seq<byte>, o: nat, size: nat, count: nat)
    requires count <= size && o + size <= |s|
    ensures Front(s[o..o + size], count) == s[o..o + count] && Back(s[o..o + size], count) == s[o + count..o + size]
  {
  }

  lemma ElemsAreSized(s: seq<byte>, size: nat, num: nat)
    requires size > 0 && |s| == Off(num, size)
    ensures Sized(Elems(s, size, num), size)
  {
    forall k | 0 <= k < num
      ensures |Elems(s, size, num)[k]| == size
    {
      Scale(k, num, size);
    }
  }

  lemma ExchangeTearsElems(was: seq<byte>, now: seq<byte>, size: nat, count: nat, i: nat, j: nat, num: nat)
    requires size > 0 && count <= size && i < j < num && |was| == Off(num, size)
    requires Exchanged(was, now, Off(i, size), Off(j, size), count)
    ensures Elems(now, size, num) == Torn(Elems(was, size, num), i, j, count)
  {
    forall k | 0 <= k < num
      ensures Elems(now, size, num)[k] == Torn(Elems(was, size, num), i, j, count)[k]
    {
      SlotsAfterExchange(was, now, size, count, i, j, k, num);
    }
  }

  // ---------------------------------------------------------------- heapsort with such exchanges

  function SiftBy(e: seq<seq<byte>>, cmp: (seq<byte>, seq<byte>) -> int, r: nat, n: nat, count: nat): (s: seq<seq<byte>>)
    requires n <= |e|
    ensures |s| == |e|
    decreases n - r
  {
    if 2 * r + 1 >= n then e
    else
      var c := BigChild(e, cmp, r, n);
      if cmp(e[r], e[c]) >= 0 then e else SiftBy(Torn(e, r, c, count), cmp, c, n, count)
  }

  function HeapifyBy(e: seq<seq<byte>>, cmp: (seq<byte>, seq<byte>) -> int, i: nat, count: nat): (s: seq<seq<byte>>)
    ensures |s| == |e|
    decreases i
  {
    if i == 0 then e else HeapifyBy(SiftBy(e, cmp, i - 1, |e|, count), cmp, i - 1, count)
  }

  function UnheapBy(e: seq<seq<byte>>, cmp: (seq<byte>, seq<byte>) -> int, i: nat, count: nat): (s: seq<seq<byte>>)
    requires e == [] || i < |e|
    ensures |s| == |e|
    decreases i
  {
    if i == 0 || e == [] then e
    else UnheapBy(SiftBy(Torn(e, 0, i, count), cmp, 0, i, count), cmp, i - 1, count)
  }

  /** What env_sort leaves if an exchange moves the first `count` bytes of an element. */
  function SortedBy(e: seq<seq<byte>>, cmp: (seq<byte>, seq<byte>) -> int, count: nat): (s: seq<seq<byte>>)
    ensures |s| == |e|
  {
    if e == [] then e else UnheapBy(HeapifyBy(e, cmp, |e| / 2, count), cmp, |e| - 1, count)
  }

  /** Exchanging all bytes is exchanging the elements. */
  lemma WholeIsSwapped(e: seq<seq<byte>>, i: nat, j: nat, size: nat)
    requires i < |e| && j < |e| && Sized(e, size)
    ensures Torn(e, i, j, size) == Swapped(e, i, j) && Sized(Swapped(e, i, j), size)
  {
    assert Front(e[i], size) + Back(e[j], size) == e[i] && Front(e[j], size) + Back(e[i], size) == e[j];
  }

  lemma {:induction false} WholeSift(e: seq<seq<byte>>, cmp: (seq<byte>, seq<byte>) -> int, r: nat, n: nat, size: nat)
    requires n <= |e| && Sized(e, size)
    ensures SiftBy(e, cmp, r, n, size) == Sift(e, cmp, r, n) && Sized(Sift(e, cmp, r, n), size)
    decreases n - r
  {
    if 2 * r + 1 < n {
      var c := BigChild(e, cmp, r, n);
      WholeIsSwapped(e, r, c, size);
      if cmp(e[r], e[c]) < 0 {
        WholeSift(Torn(e, r, c, size), cmp, c, n, size);
      }
    }
  }

  lemma {:induction false} WholeHeapify(e: seq<seq<byte>>, cmp: (seq<byte>, seq<byte>) -> int, i: nat, size: nat)
    requires Sized(e, size)
    ensures HeapifyBy(e, cmp, i, size) == Heapify(e, cmp, i) && Sized(Heapify(e, cmp, i), size)
    decreases i
  {
    if i > 0 {
      WholeSift(e, cmp, i - 1, |e|, size);
      WholeHeapify(SiftBy(e, cmp, i - 1, |e|, size), cmp, i - 1, size);
    }
  }

  lemma {:induction false} WholeUnheap(e: seq<seq<byte>>, cmp: (seq<byte>, seq<byte>) -> int, i: nat, size: nat)
    requires (e == [] || i < |e|) && Sized(e, size)
    ensures UnheapBy(e, cmp, i, size) == Unheap(e, cmp, i)
    decreases i
  {
    if i > 0 && e != [] {
      WholeIsSwapped(e, 0, i, size);
      WholeSift(Torn(e, 0, i, size), cmp, 0, i, size);
      WholeUnheap(SiftBy(Torn(e, 0, i, size), cmp, 0, i, size), cmp, i - 1, size);
    }
  }

  /** With whole exchanges env_sort is the element-indexed heapsort. */
  lemma {:induction false} WholeIsHeapSort(e: seq<seq<byte>>, cmp: (seq<byte>, seq<byte>) -> int, size: nat)
    requires Sized(e, size)
    ensures SortedBy(e, cmp, size) == HeapSorted(e, cmp)
  {
    if e != [] {
      WholeHeapify(e, cmp, |e| / 2, size);
      WholeUnheap(HeapifyBy(e, cmp, |e| / 2, size), cmp, |e| - 1, size);
    }
  }

  // ---------------------------------------------------------------- partial exchanges do not sort

  /** A comparator to which all elements are equal. */
  function Indifferent(x: seq<byte>, y: seq<byte>): int {
    0
  }

  /** Equal elements are never sifted. */
  lemma {:induction false} NothingSifted(e: seq<seq<byte>>, i: nat, count: nat)
    requires i <= |e|
    ensures HeapifyBy(e, Indifferent, i, count) == e
    decreases i
  {
    if i > 0 {
      NothingSifted(e, i - 1, count);
    }
  }

  function Ones(size: nat): seq<byte> {
    seq(size, _ => 1)
  }

  function Zeros(size: nat): seq<byte> {
    seq(size, _ => 0)
  }

  /** One element of ones, the others of zeros. */
  function OneOfOnes(num: nat, size: nat): (e: seq<seq<byte>>)
    requires num >= 2
    ensures |e| == num && Sized(e, size)
  {
    [Ones(size)] + seq(num - 1, _ => Zeros(size))
  }

  /** Once torn, no element is of ones, and exchanging the front of the first with other zeros changes nothing. */
  ghost predicate NoneOfOnes(e: seq<seq<byte>>, size: nat, count: nat) {
    && |e| >= 2 && 0 < count < size && Sized(e, size)
    && (forall k :: 0 <= k < |e| ==> e[k] != Ones(size))
    && (forall k :: 0 <= k < |e| - 1 ==> Front(e[k], count) == Zeros(count))
  }

  lemma {:induction false} StaysNoneOfOnes(e: seq<seq<byte>>, i: nat, size: nat, count: nat)
    requires NoneOfOnes(e, size, count) && i < |e| - 1
    ensures NoneOfOnes(UnheapBy(e, Indifferent, i, count), size, count)
    decreases i
  {
    if i > 0 {
      var t := Torn(e, 0, i, count);
      assert t == e by {
        assert e[0] == Front(e[0], count) + Back(e[0], count);
        assert e[i] == Front(e[i], count) + Back(e[i], count);
      }
      assert SiftBy(t, Indifferent, 0, i, count) == t;
      StaysNoneOfOnes(t, i - 1, size, count);
    }
  }

  lemma {:induction false} FirstTear(num: nat, size: nat, count: nat)
    requires num >= 2 && 0 < count < size
    ensures NoneOfOnes(Torn(OneOfOnes(num, size), 0, num - 1, count), size, count)
  {
    var e := OneOfOnes(num, size);
    var t := Torn(e, 0, num - 1, count);
    assert e[0] == Ones(size) && e[num - 1] == Zeros(size);
    assert Zeros(size)[..count] == Zeros(count);
    assert t[0] == Zeros(count) + Ones(size)[count..] && t[0][0] == 0;
    assert t[num - 1] == Ones(size)[..count] + Zeros(size)[count..] && t[num - 1][count] == 0;
    assert Ones(size)[0] == 1 && Ones(size)[count] == 1;
    forall k | 0 <= k < num - 1
      ensures Front(t[k], count) == Zeros(count) && t[k] != Ones(size)
    {
      assert k > 0 ==> t[k] == Zeros(size) && t[k][0] == 0;
    }
  }

  /** If an exchange moves only part of an element, some input loses an element, for every number of elements. */
  lemma {:induction false} TornIsNoPermutation(num: nat, size: nat, count: nat)
    requires num >= 2 && 0 < count < size
    ensures var e := OneOfOnes(num, size);
      Ones(size) in e && Ones(size) !in SortedBy(e, Indifferent, count)
      && multiset(SortedBy(e, Indifferent, count)) != multiset(e)
  {
    hide UnheapBy, SiftBy, HeapifyBy, Torn;
    var e := OneOfOnes(num, size);
    assert e[0] == Ones(size);
    TornResult(num, size, count);
    hide SortedBy, OneOfOnes, Ones;
    var r := SortedBy(e, Indifferent, count);
    assert multiset(e)[Ones(size)] > 0 && multiset(r)[Ones(size)] == 0;
  }

  lemma {:induction false} TornResult(num: nat, size: nat, count: nat)
    requires num >= 2 && 0 < count < size
    ensures Ones(size) !in SortedBy(OneOfOnes(num, size), Indifferent, count)
  {
    var e := OneOfOnes(num, size);
    NothingSifted(e, num / 2, count);
    FirstTear(num, size, count);
    hide OneOfOnes, Ones;
    var t := Torn(e, 0, num - 1, count);
    assert SiftBy(t, Indifferent, 0, num - 1, count) == t;
    StaysNoneOfOnes(t, num - 2, size, count);
    assert SortedBy(e, Indifferent, count) == UnheapBy(t, Indifferent, num - 2, count);
  }

  // ---------------------------------------------------------------- swap functions

  datatype SwapFn = U32Swap | U64Swap | GenericSwap

  /** t = *a; *a = *b; *b = t on a word of `size` bytes. */
  method WordSwap(base: array<byte>, a: nat, b: nat, size: nat)
    requires a + size <= b && b + size <= base.Length
    modifies base
    ensures Exchanged(old(base[..]), base[..], a, b, size)
  {
    ghost var was := base[..];
    var t := base[a..a + size];
    var u := base[b..b + size];
    StoreBytes(base, a, u);
    StoreBytes(base, b, t);
    StoresExchange(was, base[..], a, b, size);
  }

  lemma StoresExchange(was: seq<byte>, now: seq<byte>, a: nat, b: nat, size: nat)
    requires a + size <= b && b + size <= |was|
    requires var mid := was[..a] + was[b..b + size] + was[a + size..];
             now == mid[..b] + was[a..a + size] + mid[b + size..]
    ensures Exchanged(was, now, a, b, size)
  {
  }

  method StoreBytes(base: array<byte>, at: nat, bytes: seq<byte>)
    requires at + |bytes| <= base.Length
    modifies base
    ensures base[..] == old(base[..])[..at] + bytes + old(base[..])[at + |bytes|..]
  {
    for k := 0 to |bytes|
      invariant base[..] == old(base[..])[..at] + bytes[..k] + old(base[..])[at + k..]
    {
      base[at + k] := bytes[k];
    }
  }

  /**
   The bytes `do ... while (--size > 0)` exchanges for a size_t argument. C does not say what decrementing
   the least int gives; `below` stands for it.
   */
  function ByteCount(size: nat, below: int): nat {
    var s := ToInt32(size);
    if s > 0 then s
    else if s == -0x8000_0000 && below > 0 then 1 + below
    else 1
  }

  type Int32 = x: int | -0x8000_0000 <= x < 0x8000_0000

  lemma CountFits(size: nat, below: Int32)
    requires size > 0
    ensures 0 < ByteCount(size, below) <= size
    ensures size < TWO_31 ==> ByteCount(size, below) == size
  {
  }

  /** The exchange is whole, whatever an overflow does, exactly for sizes that fit an int. */
  lemma WholeIff(size: nat)
    requires size > 0
    ensures (forall below: Int32 :: ByteCount(size, below) == size) <==> size < TWO_31
  {
    if size < TWO_31 {
      forall below: Int32
        ensures ByteCount(size, below) == size
      {
        CountFits(size, below);
      }
    } else {
      assert ByteCount(size, 0) < size;
    }
  }

  /** One byte more. */
  lemma ExchangedMore(was: seq<byte>, mid: seq<byte>, now: seq<byte>, a: nat, b: nat, done: nat)
    requires Exchanged(was, mid, a, b, done) && a + done < b && b + done < |was|
    requires now == mid[a + done := mid[b + done]][b + done := mid[a + done]]
    ensures Exchanged(was, now, a, b, done + 1)
  {
  }

  method GenericSwapLoop(base: array<byte>, a0: nat, b0: nat, size0: nat, below: Int32)
    requires size0 > 0 && a0 + size0 <= b0 && b0 + size0 <= base.Length
    modifies base
    ensures Exchanged(old(base[..]), base[..], a0, b0, ByteCount(size0, below))
  {
    CountFits(size0, below);
    var a, b, size := a0, b0, ToInt32(size0);
    ghost var total, was := ByteCount(size0, below), base[..];
    assert total == if size > 0 then size else if size == -0x8000_0000 && below > 0 then 1 + below else 1;
    assert Exchanged(was, base[..], a0, b0, 0);
    hide Exchanged, ByteCount, ToInt32;
    ghost var done: nat := 0;
    while true
      invariant a == a0 + done && b == b0 + done && done < total <= size0
      invariant done > 0 ==> size == total - done
      invariant done == 0 ==> total == if size > 0 then size else if size == -0x8000_0000 && below > 0 then 1 + below else 1
      invariant Exchanged(was, base[..], a0, b0, done)
      decreases total - done
    {
      ghost var mid := base[..];
      var t := base[a];
      base[a] := base[b];
      base[b] := t;
      ExchangedMore(was, mid, base[..], a0, b0, done);
      a := a + 1;
      b := b + 1;
      size := if size == -0x8000_0000 then below else size - 1;
      done := done + 1;
      if !(size > 0) {
        break;
      }
    }
  }

  method Swap(base: array<byte>, fn: SwapFn, a: nat, b: nat, size: nat, below: Int32)
    requires size > 0 && a + size <= b && b + size <= base.Length
    requires (fn == U32Swap ==> size == 4) && (fn == U64Swap ==> size == 8)
    modifies base
    ensures Exchanged(old(base[..]), base[..], a, b, ByteCount(size, below))
  {
    match fn
    case U32Swap => WordSwap(base, a, b, 4);
    case U64Swap => WordSwap(base, a, b, 8);
    case GenericSwap => GenericSwapLoop(base, a, b, size, below);
  }

  // ---------------------------------------------------------------- the loops

  /** The scaled loop tests decide what the element-indexed ones decide. */
  lemma ScaledTests(ri: nat, ni: nat, size: nat)
    requires size > 0
    ensures Off(ri, size) * 2 + size == Off(2 * ri + 1, size)
    ensures Off(ri, size) * 2 + size < Off(ni, size) <==> 2 * ri + 1 < ni
    ensures ni > 0 ==> (Off(ri, size) * 2 + size < Off(ni, size) - size <==> 2 * ri + 1 < ni - 1)
    ensures Off(2 * ri + 1, size) + size == Off(2 * ri + 2, size)
  {
    OffOfChild(ri, size);
    Scale(2 * ri + 1, ni, size);
    if ni > 0 {
      Scale(2 * ri + 1, ni - 1, size);
    }
  }

  lemma SlotBytes(s: seq<byte>, size: nat, k: nat, num: nat)
    requires size > 0 && |s| == Off(num, size) && k < num
    ensures Off(k, size) + size <= |s| && Elems(s, size, num)[k] == s[Off(k, size)..Off(k, size) + size]
  {
    Scale(k, num, size);
  }

  /** cmp_fn on two elements given by their byte offsets. */
  method Compare(base: array<byte>, size: nat, cmp: (seq<byte>, seq<byte>) -> int, a: nat, b: nat,
                 ghost num: nat, ghost i: nat, ghost j: nat) returns (o: int)
    requires size > 0 && base.Length == Off(num, size) && i < num && j < num
    requires a == Off(i, size) && b == Off(j, size)
    ensures var e := Elems(base[..], size, num); o == cmp(e[i], e[j])
  {
    SlotBytes(base[..], size, i, num);
    SlotBytes(base[..], size, j, num);
    o := cmp(base[a..a + size], base[b..b + size]);
  }

  /** c, with the sibling test: the byte offset of the larger child. */
  method PickChild(base: array<byte>, size: nat, cmp: (seq<byte>, seq<byte>) -> int, r: nat, n: nat,
                   ghost num: nat, ghost ri: nat, ghost ni: nat) returns (c: nat)
    requires size > 0 && base.Length == Off(num, size) && ni <= num
    requires r == Off(ri, size) && n == Off(ni, size) && r * 2 + size < n
    ensures 2 * ri + 1 < ni && c == Off(BigChild(Elems(base[..], size, num), cmp, ri, ni), size)
  {
    ScaledTests(ri, ni, size);
    c := r * 2 + size;
    if c < n - size {
      var o := Compare(base, size, cmp, c, c + size, num, 2 * ri + 1, 2 * ri + 2);
      if o < 0 {
        c := c + size;
      }
    }
  }

  /** swap_fn on two elements given by their byte offsets. */
  method SwapElems(base: array<byte>, fn: SwapFn, below: Int32, a: nat, b: nat, size: nat, ghost num: nat, ghost i: nat, ghost j: nat)
    requires size > 0 && base.Length == Off(num, size) && i < j < num && a == Off(i, size) && b == Off(j, size)
    requires (fn == U32Swap ==> size == 4) && (fn == U64Swap ==> size == 8)
    modifies base
    ensures Elems(base[..], size, num) == Torn(old(Elems(base[..], size, num)), i, j, ByteCount(size, below))
  {
    Scale(i, j, size);
    Scale(j, num, size);
    ghost var was := base[..];
    CountFits(size, below);
    Swap(base, fn, a, b, size, below);
    ExchangeTearsElems(was, base[..], size, ByteCount(size, below), i, j, num);
  }

  /** One turn of the inner loop: stop at r, or exchange r with its larger child. */
  method SiftTurn(base: array<byte>, size: nat, cmp: (seq<byte>, seq<byte>) -> int, fn: SwapFn, below: Int32, r: nat, n: nat,
                  ghost num: nat, ghost ri: nat, ghost ni: nat) returns (stop: bool, c: nat)
    requires size > 0 && base.Length == Off(num, size) && ni <= num
    requires (fn == U32Swap ==> size == 4) && (fn == U64Swap ==> size == 8)
    requires r == Off(ri, size) && n == Off(ni, size) && r * 2 + size < n
    modifies base
    ensures 2 * ri + 1 < ni
    ensures var e := old(Elems(base[..], size, num));
            var ci := BigChild(e, cmp, ri, ni);
            && c == Off(ci, size)
            && (stop <==> cmp(e[ri], e[ci]) >= 0)
            && Elems(base[..], size, num) == if stop then e else Torn(e, ri, ci, ByteCount(size, below))
  {
    ghost var e := Elems(base[..], size, num);
    c := PickChild(base, size, cmp, r, n, num, ri, ni);
    ghost var ci := BigChild(e, cmp, ri, ni);
    var o := Compare(base, size, cmp, r, c, num, ri, ci);
    stop := o >= 0;
    if !stop {
      SwapElems(base, fn, below, r, c, size, num, ri, ci);
    }
  }

  /** The inner loop, common to both phases: r and n are byte offsets, ri and ni the elements they stand for. */
  method SiftDown(base: array<byte>, size: nat, cmp: (seq<byte>, seq<byte>) -> int, fn: SwapFn, below: Int32, r0: nat, n: nat,
                  ghost num: nat, ghost ri0: nat, ghost ni: nat)
    requires size > 0 && base.Length == Off(num, size) && ni <= num
    requires (fn == U32Swap ==> size == 4) && (fn == U64Swap ==> size == 8)
    requires r0 == Off(ri0, size) && n == Off(ni, size)
    modifies base
    ensures Elems(base[..], size, num) == SiftBy(old(Elems(base[..], size, num)), cmp, ri0, ni, ByteCount(size, below))
  {
    var r := r0;
    ghost var ri := ri0;
    ghost var e := Elems(base[..], size, num);
    ghost var goal := SiftBy(e, cmp, ri0, ni, ByteCount(size, below));
    while r * 2 + size < n
      invariant r == Off(ri, size)
      invariant e == Elems(base[..], size, num) && SiftBy(e, cmp, ri, ni, ByteCount(size, below)) == goal
      decreases ni - ri
    {
      var stop, c := SiftTurn(base, size, cmp, fn, below, r, n, num, ri, ni);
      if stop {
        return;
      }
      r := c;
      ri := BigChild(e, cmp, ri, ni);
      e := Elems(base[..], size, num);
    }
    ScaledTests(ri, ni, size);
  }

  /** i is the element before Off(k), or one element below the start. */
  method HeapifyLoop(base: array<byte>, size: nat, cmp: (seq<byte>, seq<byte>) -> int, fn: SwapFn, below: Int32, i0: int, n: nat,
                     ghost num: nat)
    requires size > 0 && base.Length == Off(num, size) == n
    requires (fn == U32Swap ==> size == 4) && (fn == U64Swap ==> size == 8)
    requires i0 == Off(num / 2, size) - size
    modifies base
    ensures Elems(base[..], size, num) == HeapifyBy(old(Elems(base[..], size, num)), cmp, num / 2, ByteCount(size, below))
  {
    hide Elems, SiftBy, ByteCount;
    var i := i0;
    ghost var k: nat := num / 2;
    ghost var goal := HeapifyBy(Elems(base[..], size, num), cmp, num / 2, ByteCount(size, below));
    while i >= 0
      invariant k <= num && i == Off(k, size) - size
      invariant HeapifyBy(Elems(base[..], size, num), cmp, k, ByteCount(size, below)) == goal
      decreases k
    {
      SiftDown(base, size, cmp, fn, below, i, n, num, k - 1, num);
      i := i - size;
      k := k - 1;
    }
  }

  method UnheapLoop(base: array<byte>, size: nat, cmp: (seq<byte>, seq<byte>) -> int, fn: SwapFn, below: Int32, i0: int,
                    ghost num: nat)
    requires size > 0 && base.Length == Off(num, size)
    requires (fn == U32Swap ==> size == 4) && (fn == U64Swap ==> size == 8)
    requires i0 == Off(num, size) - size
    modifies base
    ensures Elems(base[..], size, num) ==
              var e := old(Elems(base[..], size, num)); if num == 0 then e else UnheapBy(e, cmp, num - 1, ByteCount(size, below))
  {
    hide Elems, SiftBy, ByteCount, Torn;
    if i0 < 0 {
      return;
    }
    var i := i0;
    ghost var k: nat := num - 1;
    ghost var goal := UnheapBy(Elems(base[..], size, num), cmp, num - 1, ByteCount(size, below));
    while i > 0
      invariant k < num && i == Off(k, size)
      invariant UnheapBy(Elems(base[..], size, num), cmp, k, ByteCount(size, below)) == goal
      decreases k
    {
      SwapElems(base, fn, below, 0, i, size, num, 0, k);
      SiftDown(base, size, cmp, fn, below, 0, i, num, 0, k);
      i := i - size;
      k := k - 1;
    }
  }

  /** A 64-bit value read as int64_t. */
  function ToInt64(x: int): int {
    var m := x % TWO_64;
    if m >= TWO_63 then m - TWO_64 else m
  }

  /** (num/2 - 1) * size computed in size_t: minus one element for num of 0 and 1, although size_t is unsigned. */
  lemma FirstOffset(num: nat, size: nat)
    requires 0 < size < TWO_62 && num < TWO_62 && Off(num, size) < TWO_62
    ensures ToInt64((num / 2 - 1) % TWO_64 * size) == Off(num / 2, size) - size
  {
    var m := num / 2;
    if m == 0 {
      MinusOne(size);
    } else {
      OffIsProduct(m - 1, size);
      Scale(m - 1, num, size);
      ModWrap(0, Off(m - 1, size));
    }
  }

  lemma MinusOne(size: nat)
    requires 0 < size < TWO_62
    ensures ToInt64((0 - 1) % TWO_64 * size) == 0 - size
  {
    assert (0 - 1) % TWO_64 == TWO_64 - 1;
    assert (TWO_64 - 1) * size == (size - 1) * TWO_64 + (TWO_64 - size);
    ModWrap(size - 1, TWO_64 - size);
  }

  lemma ModWrap(q: nat, r: nat)
    requires r < TWO_64
    ensures (q * TWO_64 + r) % TWO_64 == r
  {
  }

  /**
   env_sort with swap_fn left to it. `aligned` says the base address is a multiple of the element
   size, which decides only how elements are exchanged.
   */
  method Sort(base: array<byte>, num: nat, size: nat, cmp: (seq<byte>, seq<byte>) -> int, aligned: bool, below: Int32)
    requires 0 < size < TWO_62 && num * size < TWO_62 && num < TWO_62 && base.Length == num * size
    modifies base
    ensures Elems(base[..], size, num) == SortedBy(old(Elems(base[..], size, num)), cmp, ByteCount(size, below))
    ensures size < TWO_31 || num < 2 ==> Elems(base[..], size, num) == HeapSorted(old(Elems(base[..], size, num)), cmp)
    ensures TotalPreorder(cmp) && (size < TWO_31 || num < 2) ==>
              && Sorted(Elems(base[..], size, num), cmp)
              && multiset(Elems(base[..], size, num)) == multiset(old(Elems(base[..], size, num)))
  {
    hide Elems, HeapifyBy, UnheapBy, ByteCount, HeapSorted, TotalPreorder, Sorted;
    ghost var e := Elems(base[..], size, num);
    var i: int := ToInt64((num / 2 - 1) % TWO_64 * size);
    var n := num * size;
    OffIsProduct(num, size);
    FirstOffset(num, size);
    ElemsAreSized(base[..], size, num);
    var fn := if size == 4 && aligned then U32Swap else if size == 8 && aligned then U64Swap else GenericSwap;
    HeapifyLoop(base, size, cmp, fn, below, i, n, num);
    i := n - size;
    UnheapLoop(base, size, cmp, fn, below, i, num);
    SortsIfItFits(e, cmp, size, below);
  }

  /** A size that fits an int, or fewer than two elements: heapsort, hence a sorted permutation. */
  lemma {:induction false} SortsIfItFits(e: seq<seq<byte>>, cmp: (seq<byte>, seq<byte>) -> int, size: nat, below: Int32)
    requires size > 0 && Sized(e, size)
    ensures size < TWO_31 || |e| < 2 ==>
      var r := SortedBy(e, cmp, ByteCount(size, below));
      r == HeapSorted(e, cmp) && (TotalPreorder(cmp) ==> Sorted(r, cmp) && multiset(r) == multiset(e))
  {
    CountFits(size, below);
    if size < TWO_31 {
      WholeIsHeapSort(e, cmp, size);
    }
    if TotalPreorder(cmp) {
      HeapSortSorts(e, cmp);
    }
  }

  /** The result is a sorted permutation of every input, whatever an overflow does. */
  ghost predicate AlwaysSorts(num: nat, size: nat) {
    forall e: seq<seq<byte>>, cmp: (seq<byte>, seq<byte>) -> int, below: Int32 ::
      |e| == num && Sized(e, size) && TotalPreorder(cmp) ==>
        var r := SortedBy(e, cmp, ByteCount(size, below)); Sorted(r, cmp) && multiset(r) == multiset(e)
  }

  lemma {:induction false} SortsWithin(num: nat, size: nat)
    requires 0 < size && (size < TWO_31 || num < 2)
    ensures AlwaysSorts(num, size)
  {
    hide TotalPreorder, Sorted, Sized, ByteCount, SortedBy;
    forall e: seq<seq<byte>>, cmp: (seq<byte>, seq<byte>) -> int, below: Int32 | |e| == num && Sized(e, size) && TotalPreorder(cmp)
      ensures var r := SortedBy(e, cmp, ByteCount(size, below)); Sorted(r, cmp) && multiset(r) == multiset(e)
    {
      SortsIfItFits(e, cmp, size, below);
    }
  }

  lemma {:induction false} TearsBeyond(num: nat, size: nat)
    requires size >= TWO_31 && num >= 2
    ensures !AlwaysSorts(num, size)
  {
    WholeIff(size);
    var below: Int32 :| ByteCount(size, below) != size;
    CountFits(size, below);
    var e := OneOfOnes(num, size);
    TornIsNoPermutation(num, size, ByteCount(size, below));
    assert TotalPreorder(Indifferent);
    hide TotalPreorder, Sorted, Sized, ByteCount, SortedBy, OneOfOnes;
    assert |e| == num && Sized(e, size);
  }

  /** env_sort sorts exactly those arrays whose element size fits an int, or that have fewer than two elements. */
  lemma {:induction false} SortsIff(num: nat, size: nat)
    requires size > 0
    ensures AlwaysSorts(num, size) <==> size < TWO_31 || num < 2
  {
    hide AlwaysSorts;
    if size < TWO_31 || num < 2 {
      SortsWithin(num, size);
    } else {
      TearsBeyond(num, size);
    }
  }

  /** At 2^32 bytes one byte is exchanged; two such elements come out as neither of them. */
  lemma {:induction false} HugeElementsAreTorn(below: Int32)
    ensures ByteCount(0x1_0000_0000, below) == 1
    ensures var e := OneOfOnes(2, 0x1_0000_0000);
      multiset(SortedBy(e, Indifferent, ByteCount(0x1_0000_0000, below))) != multiset(e)
  {
    TornIsNoPermutation(2, 0x1_0000_0000, 1);
  }
}
