/**
 psort: the recursive parallel merge sort, under every interleaving of its threads.

 A `Task` is one call of psort_thread_fun at some point of its life; a `Fork` is a call whose base
 part and whose child thread are both under way. A `Label` picks the thread that moves, by its place
 in the tree, and what it does. Offsets count elements from the start of the caller's array, and the
 shared temporary buffer is addressed by the same offsets. `size` is the size of an element in bytes.
 */
module ParallelSort {
  import opened Basics
  import opened HeapSort
  import opened MemMove

  type Elem = seq<byte>
  type Comparator = (Elem, Elem) -> int

  /**
   - `Started`: entered, with `threads` to use
   - `Sorting`: inside qsort on its slice, which held the elements `bag`
   - `Merging`: in the loop of merge_ranges
   - `CopyingBack`: in its final copy, if that is not refused
   - `Returned`: result is 0 if `ok`
   */
  datatype Task =
    | Started(lo: nat, n: nat, threads: nat)
    | Sorting(lo: nat, n: nat, bag: multiset<Elem>)
    | Fork(lo: nat, n: nat, base: Task, child: Task)
    | Merging(lo: nat, n: nat, n1: nat, i1: nat, i2: nat)
    | CopyingBack(lo: nat, n: nat, k: nat)
    | Returned(lo: nat, n: nat, ok: bool)

  /** The master array and the temporary buffer, shared by all threads. */
  datatype Memory = Memory(a: seq<Elem>, tmp: seq<Elem>)

  datatype Label =
    | InBase(inner: Label)
    | InChild(inner: Label)
    | Spawn
    | SpawnFails
    | QsortBegin
    | QsortWrite(at: nat, value: Elem)
    | QsortEnd
    | Join
    | MergeOne
    | MergeEnd
    | CopyOne
    | Return

  datatype Config = Config(task: Task, mem: Memory)

  /** The n elements, n * size bytes, are within the limit of memcpy_s. */
  predicate Small(n: nat, size: nat) {
    size > 0 && Off(n, size) <= RSIZE_MAX_MEM
  }

  /** Copying n elements: memcpy_s does nothing for no bytes nor above its limit, and its answer is ignored. */
  predicate Copies(n: nat, size: nat) {
    n > 0 && Small(n, size)
  }

  /** Within the limit every part can be copied, and each element by itself. */
  lemma SmallParts(n: nat, part: nat, size: nat)
    requires Small(n, size) && part <= n
    ensures Small(part, size) && (part > 0 ==> Copies(part, size)) && (n > 0 ==> Copies(1, size))
  {
    Scale(n, part, size);
    if n > 0 {
      Scale(n, 1, size);
    }
  }

  /** The n elements from lo on. */
  ghost function Slice(s: seq<Elem>, lo: nat, n: nat): (r: seq<Elem>)
    requires lo + n <= |s|
    ensures |r| == n
  {
    s[lo..lo + n]
  }

  ghost predicate Fits(task: Task, m: Memory) {
    && |m.a| == |m.tmp| && task.lo + task.n <= |m.a|
    && (task.Merging? ==> task.i1 <= task.n1 <= task.n && task.n1 + task.i2 <= task.n)
    && (task.CopyingBack? ==> task.k <= task.n)
  }

  ghost predicate Enabled(task: Task, m: Memory, l: Label, cmp: Comparator)
    decreases l
  {
    && Fits(task, m)
    && match l
       case InBase(inner) => task.Fork? && Enabled(task.base, m, inner, cmp)
       case InChild(inner) => task.Fork? && Enabled(task.child, m, inner, cmp)
       case Spawn => task.Started? && task.threads > 1
       case SpawnFails => task.Started? && task.threads > 1
       case QsortBegin => task.Started? && task.threads <= 1
       case QsortWrite(at, _) => task.Sorting? && task.lo <= at < task.lo + task.n
       case QsortEnd =>
         && task.Sorting?
         && Sorted(Slice(m.a, task.lo, task.n), cmp)
         && multiset(Slice(m.a, task.lo, task.n)) == task.bag
       case Join => task.Fork? && task.base.Returned? && task.child.Returned?
       case MergeOne => task.Merging? && (task.i1 < task.n1 || task.i2 < task.n - task.n1)
       case MergeEnd => task.Merging? && task.i1 == task.n1 && task.i2 == task.n - task.n1
       case CopyOne => task.CopyingBack? && task.k < task.n
       case Return => task.CopyingBack? && task.k == task.n
  }

  /** lil: the left run supplies the next element. */
  predicate LeftIsLess(m: Memory, lo: nat, n: nat, n1: nat, i1: nat, i2: nat, cmp: Comparator)
    requires i1 <= n1 <= n && n1 + i2 <= n && lo + n <= |m.a|
  {
    if i1 == n1 then false
    else if i2 == n - n1 then true
    else cmp(m.a[lo + i1], m.a[lo + n1 + i2]) < 0
  }

  /** An element copied to the temporary buffer, if memcpy_s takes its size. */
  function Placed(m: Memory, at: nat, v: Elem, size: nat): Memory
    requires at < |m.tmp|
  {
    if Copies(1, size) then m.(tmp := m.tmp[at := v]) else m
  }

  ghost function Step(task: Task, m: Memory, l: Label, size: nat, cmp: Comparator): Config
    requires Enabled(task, m, l, cmp)
    decreases l
  {
    match l
    case InBase(inner) =>
      var r := Step(task.base, m, inner, size, cmp);
      Config(task.(base := r.task), r.mem)
    case InChild(inner) =>
      var r := Step(task.child, m, inner, size, cmp);
      Config(task.(child := r.task), r.mem)
    case Spawn =>
      var t, n := task.threads / 2, task.n / 2;
      Config(Fork(task.lo, task.n,
                  Started(task.lo, n, t),
                  Started(task.lo + n, task.n - n, task.threads - t)), m)
    case SpawnFails => Config(Returned(task.lo, task.n, false), m)
    case QsortBegin =>
      Config(Sorting(task.lo, task.n, multiset(Slice(m.a, task.lo, task.n))), m)
    case QsortWrite(at, value) => Config(task, m.(a := m.a[at := value]))
    case QsortEnd => Config(Returned(task.lo, task.n, true), m)
    case Join =>
      if task.base.ok && task.child.ok
      then Config(Merging(task.lo, task.n, task.base.n, 0, 0), m)
      else Config(Returned(task.lo, task.n, false), m)
    case MergeOne =>
      var i1, i2, n1 := task.i1, task.i2, task.n1;
      if LeftIsLess(m, task.lo, task.n, n1, i1, i2, cmp)
      then Config(task.(i1 := i1 + 1), Placed(m, task.lo + i1 + i2, m.a[task.lo + i1], size))
      else Config(task.(i2 := i2 + 1), Placed(m, task.lo + i1 + i2, m.a[task.lo + n1 + i2], size))
    case MergeEnd =>
      Config(if Copies(task.n, size) then CopyingBack(task.lo, task.n, 0) else Returned(task.lo, task.n, true), m)
    case CopyOne =>
      Config(task.(k := task.k + 1), m.(a := m.a[task.lo + task.k := m.tmp[task.lo + task.k]]))
    case Return => Config(Returned(task.lo, task.n, true), m)
  }

  // ---------------------------------------------------------------- threads keep to their slices

  ghost predicate SameOn(m: Memory, m': Memory, lo: nat, hi: nat) {
    && |m.a| == |m'.a| && |m.tmp| == |m'.tmp| && hi <= |m.a| && hi <= |m.tmp|
    && (forall i {:trigger m'.a[i]} :: lo <= i < hi ==> m.a[i] == m'.a[i])
    && (forall i {:trigger m'.tmp[i]} :: lo <= i < hi ==> m.tmp[i] == m'.tmp[i])
  }

  /** Subtasks partition the slice of their parent. */
  ghost predicate Nested(task: Task)
    decreases task
  {
    task.Fork? ==>
      && task.base.lo == task.lo && task.child.lo == task.lo + task.base.n
      && task.base.n + task.child.n == task.n
      && Nested(task.base) && Nested(task.child)
  }

  lemma {:induction false} StepNests(task: Task, m: Memory, l: Label, size: nat, cmp: Comparator)
    requires Nested(task) && Enabled(task, m, l, cmp)
    ensures Nested(Step(task, m, l, size, cmp).task)
    ensures Step(task, m, l, size, cmp).task.lo == task.lo && Step(task, m, l, size, cmp).task.n == task.n
    decreases l
  {
    hide Copies;
    match l
    case InBase(inner) => StepNests(task.base, m, inner, size, cmp);
    case InChild(inner) => StepNests(task.child, m, inner, size, cmp);
    case _ =>
  }

  lemma {:induction false} OwnStepStaysInside(task: Task, m: Memory, l: Label, size: nat, cmp: Comparator)
    requires Enabled(task, m, l, cmp) && !l.InBase? && !l.InChild?
    ensures SameOn(m, Step(task, m, l, size, cmp).mem, 0, task.lo)
    ensures SameOn(m, Step(task, m, l, size, cmp).mem, task.lo + task.n, |m.a|)
  {
    hide Copies;
  }

  /** A thread writes only to its own slice, of the array and of the temporary buffer. */
  lemma {:induction false} StepStaysInside(task: Task, m: Memory, l: Label, size: nat, cmp: Comparator)
    requires Nested(task) && Enabled(task, m, l, cmp)
    ensures SameOn(m, Step(task, m, l, size, cmp).mem, 0, task.lo)
    ensures SameOn(m, Step(task, m, l, size, cmp).mem, task.lo + task.n, |m.a|)
    decreases l
  {
    hide Copies;
    match l
    case InBase(inner) => StepStaysInside(task.base, m, inner, size, cmp);
    case InChild(inner) => StepStaysInside(task.child, m, inner, size, cmp);
    case _ => OwnStepStaysInside(task, m, l, size, cmp);
  }

  lemma {:induction false} OwnStepReadsInside(task: Task, m: Memory, m': Memory, l: Label, size: nat, cmp: Comparator)
    requires Enabled(task, m, l, cmp) && !l.InBase? && !l.InChild?
    requires SameOn(m, m', task.lo, task.lo + task.n)
    ensures Enabled(task, m', l, cmp)
    ensures Step(task, m', l, size, cmp).task == Step(task, m, l, size, cmp).task
    ensures SameOn(Step(task, m, l, size, cmp).mem, Step(task, m', l, size, cmp).mem, task.lo, task.lo + task.n)
  {
    hide Copies;
    assert Slice(m.a, task.lo, task.n) == Slice(m'.a, task.lo, task.n);
  }

  /** ... and looks only at its own slice: what it does next is fixed by that slice alone. */
  lemma {:induction false} StepReadsInside(task: Task, m: Memory, m': Memory, l: Label, size: nat, cmp: Comparator)
    requires Nested(task) && Enabled(task, m, l, cmp)
    requires SameOn(m, m', task.lo, task.lo + task.n)
    ensures Enabled(task, m', l, cmp)
    ensures Step(task, m', l, size, cmp).task == Step(task, m, l, size, cmp).task
    ensures SameOn(Step(task, m, l, size, cmp).mem, Step(task, m', l, size, cmp).mem, task.lo, task.lo + task.n)
    decreases l
  {
    hide Copies;
    match l
    case InBase(inner) =>
      StepReadsInside(task.base, m, m', inner, size, cmp);
      StepStaysInside(task.base, m, inner, size, cmp);
      StepStaysInside(task.base, m', inner, size, cmp);
    case InChild(inner) =>
      StepReadsInside(task.child, m, m', inner, size, cmp);
      StepStaysInside(task.child, m, inner, size, cmp);
      StepStaysInside(task.child, m', inner, size, cmp);
    case _ => OwnStepReadsInside(task, m, m', l, size, cmp);
  }

  lemma {:induction false} SameEverywhere(u: Memory, v: Memory, lo: nat, mid: nat, hi: nat)
    requires lo <= mid <= hi <= |u.a| == |u.tmp|
    requires SameOn(u, v, 0, lo) && SameOn(u, v, lo, mid) && SameOn(u, v, mid, hi) && SameOn(u, v, hi, |u.a|)
    ensures u == v
  {
    assert u.a == v.a;
    assert u.tmp == v.tmp;
  }

  /** Two updates of adjacent slices, each fixed by its own slice, give the same memory in either order. */
  lemma {:induction false} UpdatesCommute(m: Memory, x: Memory, y: Memory, u: Memory, v: Memory, lo: nat, mid: nat, hi: nat)
    requires lo <= mid <= hi <= |m.a| == |m.tmp|
    requires SameOn(m, x, 0, lo) && SameOn(m, x, mid, |m.a|)
    requires SameOn(m, y, 0, mid) && SameOn(m, y, hi, |m.a|)
    requires SameOn(x, u, 0, mid) && SameOn(x, u, hi, |m.a|) && SameOn(y, u, mid, hi)
    requires SameOn(y, v, 0, lo) && SameOn(y, v, mid, |m.a|) && SameOn(x, v, lo, mid)
    ensures u == v
  {
    SameEverywhere(u, v, lo, mid, hi);
  }

  lemma SameOnPart(m: Memory, m': Memory, lo: nat, hi: nat, lo': nat, hi': nat)
    requires SameOn(m, m', lo, hi) && lo <= lo' && hi' <= hi
    ensures SameOn(m, m', lo', hi') && |m'.a| == |m.a| && |m'.tmp| == |m.tmp|
  {
  }

  lemma {:induction false} HalvesCommute(base: Task, child: Task, m: Memory, l: Label, r: Label, size: nat, cmp: Comparator)
    requires Nested(base) && Nested(child) && Enabled(base, m, l, cmp) && Enabled(child, m, r, cmp)
    requires base.lo + base.n == child.lo && child.lo + child.n <= |m.a| == |m.tmp|
    ensures var x, y := Step(base, m, l, size, cmp), Step(child, m, r, size, cmp);
            && Enabled(child, x.mem, r, cmp) && Enabled(base, y.mem, l, cmp)
            && Step(child, x.mem, r, size, cmp).task == y.task && Step(base, y.mem, l, size, cmp).task == x.task
            && Step(child, x.mem, r, size, cmp).mem == Step(base, y.mem, l, size, cmp).mem
            && |x.mem.a| == |m.a| == |y.mem.a| && |x.mem.tmp| == |m.tmp| == |y.mem.tmp|
  {
    hide Step, Enabled, Nested, SameOn;
    var x := Step(base, m, l, size, cmp);
    var y := Step(child, m, r, size, cmp);
    StepStaysInside(base, m, l, size, cmp);
    StepStaysInside(child, m, r, size, cmp);
    SameOnPart(m, x.mem, child.lo, |m.a|, child.lo, child.lo + child.n);
    SameOnPart(m, y.mem, 0, child.lo, base.lo, child.lo);
    StepReadsInside(child, m, x.mem, r, size, cmp);
    StepReadsInside(base, m, y.mem, l, size, cmp);
    StepStaysInside(child, x.mem, r, size, cmp);
    StepStaysInside(base, y.mem, l, size, cmp);
    var u := Step(child, x.mem, r, size, cmp).mem;
    var v := Step(base, y.mem, l, size, cmp).mem;
    UpdatesCommute(m, x.mem, y.mem, u, v, base.lo, child.lo, child.lo + child.n);
  }

  /** So a step of the base part and a step of the child thread commute: there is no race between them. */
  lemma {:induction false} ThreadsCommute(task: Task, m: Memory, l: Label, r: Label, size: nat, cmp: Comparator)
    requires Nested(task) && Enabled(task, m, InBase(l), cmp) && Enabled(task, m, InChild(r), cmp)
    ensures var x := Step(task, m, InBase(l), size, cmp); var y := Step(task, m, InChild(r), size, cmp);
            && Enabled(x.task, x.mem, InChild(r), cmp) && Enabled(y.task, y.mem, InBase(l), cmp)
            && Step(x.task, x.mem, InChild(r), size, cmp) == Step(y.task, y.mem, InBase(l), size, cmp)
  {
    hide Copies, SameOn, Sorted, Placed, LeftIsLess;
    HalvesCommute(task.base, task.child, m, l, r, size, cmp);
  }

  // ---------------------------------------------------------------- what every interleaving keeps

  ghost predicate AllLe(x: seq<Elem>, y: seq<Elem>, cmp: Comparator) {
    forall p, q :: 0 <= p < |x| && 0 <= q < |y| ==> cmp(x[p], y[q]) <= 0
  }

  /** `out` is the first i1 elements of `left` and the first i2 of `right`, in order and below the rest. */
  ghost predicate Merged(out: seq<Elem>, left: seq<Elem>, i1: nat, right: seq<Elem>, i2: nat, cmp: Comparator)
    requires i1 <= |left| && i2 <= |right|
  {
    && Sorted(out, cmp)
    && multiset(out) == multiset(left[..i1]) + multiset(right[..i2])
    && AllLe(out, left[i1..], cmp) && AllLe(out, right[i2..], cmp)
  }

  /** merge_ranges under way: `now` holds two sorted runs, and `out` starts with what is merged of them. */
  ghost predicate HalfMerged(now: seq<Elem>, out: seq<Elem>, n1: nat, i1: nat, i2: nat, cmp: Comparator)
    requires |now| == |out| && i1 <= n1 && n1 + i2 <= |now|
  {
    && Sorted(now[..n1], cmp) && Sorted(now[n1..], cmp)
    && Merged(out[..i1 + i2], now[..n1], i1, now[n1..], i2, cmp)
  }

  ghost predicate Sound(task: Task, m: Memory, orig: seq<Elem>, size: nat, cmp: Comparator)
    decreases task
  {
    && Fits(task, m) && |orig| == |m.a|
    && var want, now := Slice(orig, task.lo, task.n), Slice(m.a, task.lo, task.n);
       var out := Slice(m.tmp, task.lo, task.n);
       match task
       case Started(_, _, _) => now == want
       case Sorting(_, _, bag) => bag == multiset(want)
       case Fork(_, _, base, child) => Sound(base, m, orig, size, cmp) && Sound(child, m, orig, size, cmp)
       case Merging(_, n, n1, i1, i2) =>
         multiset(now) == multiset(want) && (Small(n, size) ==> HalfMerged(now, out, n1, i1, i2, cmp))
       case CopyingBack(_, _, k) =>
         Sorted(out, cmp) && multiset(out) == multiset(want) && now[..k] == out[..k]
       case Returned(_, n, ok) =>
         multiset(now) == multiset(want) && (ok && Small(n, size) ==> Sorted(now, cmp))
  }

  lemma {:induction false} SoundIsLocal(task: Task, m: Memory, m': Memory, orig: seq<Elem>, size: nat, cmp: Comparator)
    requires Nested(task) && Sound(task, m, orig, size, cmp) && SameOn(m, m', task.lo, task.lo + task.n)
    ensures Sound(task, m', orig, size, cmp)
    decreases task
  {
    if task.Fork? {
      SoundIsLocal(task.base, m, m', orig, size, cmp);
      SoundIsLocal(task.child, m, m', orig, size, cmp);
    } else {
      assert Slice(m.a, task.lo, task.n) == Slice(m'.a, task.lo, task.n);
      assert Slice(m.tmp, task.lo, task.n) == Slice(m'.tmp, task.lo, task.n);
    }
  }

  /** Appending the head of `left` keeps the merge invariant if it is no larger than anything that remains. */
  lemma {:induction false} AppendLeft(out: seq<Elem>, left: seq<Elem>, i1: nat, right: seq<Elem>, i2: nat, cmp: Comparator)
    requires i1 < |left| && i2 <= |right| && Merged(out, left, i1, right, i2, cmp)
    requires AllLe([left[i1]], left[i1..], cmp) && AllLe([left[i1]], right[i2..], cmp)
    ensures Merged(out + [left[i1]], left, i1 + 1, right, i2, cmp)
  {
    var h := left[i1];
    assert left[i1..][0] == h;
    assert left[..i1 + 1] == left[..i1] + [h];
    var out', tail := out + [h], left[i1 + 1..];
    forall p, q | 0 <= p < |out'| && 0 <= q < |tail|
      ensures cmp(out'[p], tail[q]) <= 0
    {
      assert tail[q] == left[i1..][q + 1];
      assert p == |out| ==> [h][0] == h;
    }
    assert AllLe(out', right[i2..], cmp) by {
      assert [h][0] == h;
    }
  }

  lemma {:induction false} MergedSymmetric(out: seq<Elem>, left: seq<Elem>, i1: nat, right: seq<Elem>, i2: nat, cmp: Comparator)
    requires i1 <= |left| && i2 <= |right| && Merged(out, left, i1, right, i2, cmp)
    ensures Merged(out, right, i2, left, i1, cmp)
  {
  }

  /** A sorted run's head is least in it, and least in the other run if it is no larger than that one's head. */
  lemma {:induction false} HeadIsLeast(x: seq<Elem>, i: nat, y: seq<Elem>, j: nat, cmp: Comparator)
    requires TotalPreorder(cmp) && i < |x| && j <= |y| && Sorted(x, cmp) && Sorted(y, cmp)
    requires j < |y| ==> cmp(x[i], y[j]) <= 0
    ensures AllLe([x[i]], x[i..], cmp) && AllLe([x[i]], y[j..], cmp)
  {
    assert cmp(x[i], x[i]) <= 0;
    forall q | 0 <= q < |y[j..]|
      ensures cmp(x[i], y[j..][q]) <= 0
    {
      assert q == 0 || cmp(y[j], y[j + q]) <= 0;
    }
  }

  ghost predicate Least(x: seq<Elem>, i: nat, y: seq<Elem>, j: nat, cmp: Comparator) {
    i < |x| && j <= |y| && AllLe([x[i]], x[i..], cmp) && AllLe([x[i]], y[j..], cmp)
  }

  /** merge_ranges picks an element no larger than anything left in either run. */
  lemma {:induction false} PickIsLeast(m: Memory, lo: nat, n: nat, n1: nat, i1: nat, i2: nat, cmp: Comparator)
    requires TotalPreorder(cmp) && i1 <= n1 <= n && n1 + i2 <= n && lo + n <= |m.a| && i1 + i2 < n
    requires var now := Slice(m.a, lo, n); Sorted(now[..n1], cmp) && Sorted(now[n1..], cmp)
    ensures var now := Slice(m.a, lo, n);
            if LeftIsLess(m, lo, n, n1, i1, i2, cmp) then Least(now[..n1], i1, now[n1..], i2, cmp)
            else Least(now[n1..], i2, now[..n1], i1, cmp)
  {
    var now := Slice(m.a, lo, n);
    if LeftIsLess(m, lo, n, n1, i1, i2, cmp) {
      HeadIsLeast(now[..n1], i1, now[n1..], i2, cmp);
    } else {
      HeadIsLeast(now[n1..], i2, now[..n1], i1, cmp);
    }
  }

  lemma {:induction false} MergeAdvances(now: seq<Elem>, out: seq<Elem>, out': seq<Elem>, n1: nat, i1: nat, i2: nat, cmp: Comparator,
                      fromLeft: bool)
    requires |now| == |out| == |out'| && i1 <= n1 && n1 + i2 <= |now| && i1 + i2 < |now|
    requires HalfMerged(now, out, n1, i1, i2, cmp)
    requires if fromLeft then Least(now[..n1], i1, now[n1..], i2, cmp) else Least(now[n1..], i2, now[..n1], i1, cmp)
    requires out' == out[i1 + i2 := if fromLeft then now[i1] else now[n1 + i2]]
    ensures if fromLeft then HalfMerged(now, out', n1, i1 + 1, i2, cmp) else HalfMerged(now, out', n1, i1, i2 + 1, cmp)
  {
    var left, right, merged := now[..n1], now[n1..], out[..i1 + i2];
    if fromLeft {
      AppendLeft(merged, left, i1, right, i2, cmp);
      assert out'[..i1 + 1 + i2] == merged + [left[i1]];
    } else {
      MergedSymmetric(merged, left, i1, right, i2, cmp);
      AppendLeft(merged, right, i2, left, i1, cmp);
      MergedSymmetric(merged + [right[i2]], right, i2 + 1, left, i1, cmp);
      assert out'[..i1 + (i2 + 1)] == merged + [right[i2]];
    }
  }

  /** One turn of the merge loop, on the shared memory. */
  lemma {:induction false} TurnKeepsMerge(m: Memory, lo: nat, n: nat, n1: nat, i1: nat, i2: nat, cmp: Comparator)
    requires TotalPreorder(cmp) && lo + n <= |m.a| == |m.tmp| && i1 <= n1 <= n && n1 + i2 <= n && i1 + i2 < n
    requires HalfMerged(Slice(m.a, lo, n), Slice(m.tmp, lo, n), n1, i1, i2, cmp)
    ensures if LeftIsLess(m, lo, n, n1, i1, i2, cmp)
            then HalfMerged(Slice(m.a, lo, n), Slice(m.tmp[lo + i1 + i2 := m.a[lo + i1]], lo, n), n1, i1 + 1, i2, cmp)
            else HalfMerged(Slice(m.a, lo, n), Slice(m.tmp[lo + i1 + i2 := m.a[lo + n1 + i2]], lo, n), n1, i1, i2 + 1, cmp)
  {
    var fromLeft := LeftIsLess(m, lo, n, n1, i1, i2, cmp);
    var v := m.a[if fromLeft then lo + i1 else lo + n1 + i2];
    PickIsLeast(m, lo, n, n1, i1, i2, cmp);
    SliceUpdate(m.tmp, lo, n, i1 + i2, v);
    MergeAdvances(Slice(m.a, lo, n), Slice(m.tmp, lo, n), Slice(m.tmp[lo + i1 + i2 := v], lo, n), n1, i1, i2, cmp, fromLeft);
  }

  lemma {:induction false} MergeOneSound(task: Task, m: Memory, orig: seq<Elem>, size: nat, cmp: Comparator)
    requires TotalPreorder(cmp) && Sound(task, m, orig, size, cmp) && Enabled(task, m, MergeOne, cmp)
    ensures var c := Step(task, m, MergeOne, size, cmp); Sound(c.task, c.mem, orig, size, cmp)
  {
    hide HalfMerged, TotalPreorder, Copies, Small, Slice;
    if Small(task.n, size) {
      SmallParts(task.n, 1, size);
      TurnKeepsMerge(m, task.lo, task.n, task.n1, task.i1, task.i2, cmp);
    }
  }

  lemma {:induction false} MergeStarts(now: seq<Elem>, out: seq<Elem>, n1: nat, cmp: Comparator)
    requires |now| == |out| && n1 <= |now| && Sorted(now[..n1], cmp) && Sorted(now[n1..], cmp)
    ensures HalfMerged(now, out, n1, 0, 0, cmp)
  {
    assert out[..0 + 0] == [];
  }

  lemma {:induction false} MergeEnds(now: seq<Elem>, out: seq<Elem>, n1: nat, cmp: Comparator)
    requires |now| == |out| && n1 <= |now| && HalfMerged(now, out, n1, n1, |now| - n1, cmp)
    ensures Sorted(out, cmp) && multiset(out) == multiset(now)
  {
    assert out[..n1 + (|now| - n1)] == out && now == now[..n1] + now[n1..];
    assert now[..n1][..n1] == now[..n1] && now[n1..][..|now| - n1] == now[n1..];
  }

  lemma {:induction false} SliceUpdate(s: seq<Elem>, lo: nat, n: nat, k: nat, v: Elem)
    requires lo + n <= |s| && k < n
    ensures Slice(s[lo + k := v], lo, n) == Slice(s, lo, n)[k := v]
  {
  }

  lemma {:induction false} SliceSplits(s: seq<Elem>, lo: nat, n: nat, n1: nat)
    requires lo + n <= |s| && n1 <= n
    ensures Slice(s, lo, n)[..n1] == Slice(s, lo, n1) && Slice(s, lo, n)[n1..] == Slice(s, lo + n1, n - n1)
    ensures multiset(Slice(s, lo, n)) == multiset(Slice(s, lo, n1)) + multiset(Slice(s, lo + n1, n - n1))
  {
    assert Slice(s, lo, n) == Slice(s, lo, n1) + Slice(s, lo + n1, n - n1);
  }

  /** Two returned halves make the whole slice: its elements, and two sorted runs. */
  lemma {:induction false} JoinSound(task: Task, m: Memory, orig: seq<Elem>, size: nat, cmp: Comparator)
    requires Nested(task) && Sound(task, m, orig, size, cmp) && Enabled(task, m, Join, cmp)
    ensures var c := Step(task, m, Join, size, cmp); Sound(c.task, c.mem, orig, size, cmp)
  {
    hide Sorted, HalfMerged, Slice, Small;
    var lo, n, n1 := task.lo, task.n, task.base.n;
    SliceSplits(m.a, lo, n, n1);
    SliceSplits(orig, lo, n, n1);
    if task.base.ok && task.child.ok && Small(n, size) {
      SmallParts(n, n1, size);
      SmallParts(n, n - n1, size);
      MergeStarts(Slice(m.a, lo, n), Slice(m.tmp, lo, n), n1, cmp);
    }
  }

  lemma {:induction false} SpawnSound(task: Task, m: Memory, orig: seq<Elem>, size: nat, cmp: Comparator)
    requires Sound(task, m, orig, size, cmp) && Enabled(task, m, Spawn, cmp)
    ensures var c := Step(task, m, Spawn, size, cmp); Sound(c.task, c.mem, orig, size, cmp)
  {
    hide Sorted, HalfMerged, Slice;
    SliceSplits(m.a, task.lo, task.n, task.n / 2);
    SliceSplits(orig, task.lo, task.n, task.n / 2);
  }

  lemma SortedEmpty(s: seq<Elem>, cmp: Comparator)
    ensures s == [] ==> Sorted(s, cmp)
  {
  }

  /** When both runs are used up, tmp holds all the elements. */
  lemma {:induction false} MergeEndSound(task: Task, m: Memory, orig: seq<Elem>, size: nat, cmp: Comparator)
    requires Sound(task, m, orig, size, cmp) && Enabled(task, m, MergeEnd, cmp)
    ensures var c := Step(task, m, MergeEnd, size, cmp); Sound(c.task, c.mem, orig, size, cmp)
  {
    hide HalfMerged, Slice, Small, Sorted;
    var now, out := Slice(m.a, task.lo, task.n), Slice(m.tmp, task.lo, task.n);
    if Small(task.n, size) {
      MergeEnds(now, out, task.n1, cmp);
      SortedEmpty(now, cmp);
    }
    assert now[..0] == [] == out[..0];
  }

  lemma {:induction false} CopySound(task: Task, m: Memory, l: Label, orig: seq<Elem>, size: nat, cmp: Comparator)
    requires Sound(task, m, orig, size, cmp) && Enabled(task, m, l, cmp) && (l.CopyOne? || l.Return?)
    ensures var c := Step(task, m, l, size, cmp); Sound(c.task, c.mem, orig, size, cmp)
  {
    var now, out := Slice(m.a, task.lo, task.n), Slice(m.tmp, task.lo, task.n);
    if l.CopyOne? {
      var now' := Slice(Step(task, m, l, size, cmp).mem.a, task.lo, task.n);
      assert now'[..task.k] == now[..task.k];
      assert now'[..task.k + 1] == now'[..task.k] + [now'[task.k]];
      assert out[..task.k + 1] == out[..task.k] + [out[task.k]];
    } else {
      assert now[..task.n] == now && out[..task.n] == out;
    }
  }

  lemma {:induction false} OwnStepSound(task: Task, m: Memory, l: Label, orig: seq<Elem>, size: nat, cmp: Comparator)
    requires TotalPreorder(cmp) && Nested(task) && Sound(task, m, orig, size, cmp) && Enabled(task, m, l, cmp)
    requires !l.InBase? && !l.InChild?
    ensures Sound(Step(task, m, l, size, cmp).task, Step(task, m, l, size, cmp).mem, orig, size, cmp)
  {
    match l
    case Spawn => SpawnSound(task, m, orig, size, cmp);
    case Join => JoinSound(task, m, orig, size, cmp);
    case MergeOne => MergeOneSound(task, m, orig, size, cmp);
    case MergeEnd => MergeEndSound(task, m, orig, size, cmp);
    case CopyOne => CopySound(task, m, l, orig, size, cmp);
    case Return => CopySound(task, m, l, orig, size, cmp);
    case _ =>
  }

  lemma {:induction false} StepSound(task: Task, m: Memory, l: Label, orig: seq<Elem>, size: nat, cmp: Comparator)
    requires TotalPreorder(cmp) && Nested(task) && Sound(task, m, orig, size, cmp) && Enabled(task, m, l, cmp)
    ensures Sound(Step(task, m, l, size, cmp).task, Step(task, m, l, size, cmp).mem, orig, size, cmp)
    decreases l
  {
    match l
    case InBase(inner) =>
      StepSound(task.base, m, inner, orig, size, cmp);
      StepStaysInside(task.base, m, inner, size, cmp);
      SoundIsLocal(task.child, m, Step(task.base, m, inner, size, cmp).mem, orig, size, cmp);
    case InChild(inner) =>
      StepSound(task.child, m, inner, orig, size, cmp);
      StepStaysInside(task.child, m, inner, size, cmp);
      SoundIsLocal(task.base, m, Step(task.child, m, inner, size, cmp).mem, orig, size, cmp);
    case _ => OwnStepSound(task, m, l, orig, size, cmp);
  }

  // ---------------------------------------------------------------- whole runs

  ghost predicate Legal(c: Config, run: seq<Label>, size: nat, cmp: Comparator)
    decreases |run|
  {
    run == [] || (Enabled(c.task, c.mem, run[0], cmp) && Legal(Step(c.task, c.mem, run[0], size, cmp), run[1..], size, cmp))
  }

  ghost function After(c: Config, run: seq<Label>, size: nat, cmp: Comparator): Config
    requires Legal(c, run, size, cmp)
    decreases |run|
  {
    if run == [] then c else After(Step(c.task, c.mem, run[0], size, cmp), run[1..], size, cmp)
  }

  lemma {:induction false} RunSound(c: Config, run: seq<Label>, orig: seq<Elem>, size: nat, cmp: Comparator)
    requires TotalPreorder(cmp) && Nested(c.task) && Sound(c.task, c.mem, orig, size, cmp) && Legal(c, run, size, cmp)
    ensures var d := After(c, run, size, cmp);
            && Nested(d.task) && Sound(d.task, d.mem, orig, size, cmp)
            && d.task.lo == c.task.lo && d.task.n == c.task.n
    decreases |run|
  {
    if run != [] {
      StepNests(c.task, c.mem, run[0], size, cmp);
      StepSound(c.task, c.mem, run[0], orig, size, cmp);
      RunSound(Step(c.task, c.mem, run[0], size, cmp), run[1..], orig, size, cmp);
    }
  }

  /** A qsort of the whole array, wherever it is: once returned, a sorted permutation. */
  lemma {:induction false} QsortRun(c: Config, run: seq<Label>, bag: multiset<Elem>, size: nat, cmp: Comparator)
    requires c.task == Sorting(0, |c.mem.a|, bag) || (c.task.Returned? && Sorted(c.mem.a, cmp) && multiset(c.mem.a) == bag)
    requires Legal(c, run, size, cmp)
    ensures var d := After(c, run, size, cmp); d.task.Returned? ==> Sorted(d.mem.a, cmp) && multiset(d.mem.a) == bag
    decreases |run|
  {
    hide Sorted;
    if run != [] {
      assert Slice(c.mem.a, 0, |c.mem.a|) == c.mem.a;
      QsortRun(Step(c.task, c.mem, run[0], size, cmp), run[1..], bag, size, cmp);
    }
  }

  ghost predicate QsortLeaves(m: Memory, size: nat, cmp: Comparator, result: seq<Elem>) {
    exists run: seq<Label> ::
      var c := Config(Sorting(0, |m.a|, multiset(m.a)), m);
      && Legal(c, run, size, cmp)
      && After(c, run, size, cmp).task.Returned? && After(c, run, size, cmp).mem.a == result
  }

  ghost predicate RunLeaves(orig: seq<Elem>, tmp: seq<Elem>, ncpu: nat, run: seq<Label>, size: nat, cmp: Comparator, result: seq<Elem>) {
    var c := Config(Started(0, |orig|, ncpu), Memory(orig, tmp));
    && Legal(c, run, size, cmp)
    && var d := After(c, run, size, cmp);
       && d.task.Returned?
       && if d.task.ok then result == d.mem.a else QsortLeaves(d.mem, size, cmp, result)
  }

  /** Half the CPUs, and no more than one thread for each 1024 elements; no CPU stands for a count that cannot be had. */
  function Threads(n: nat, cpus: nat): int {
    var most := ToInt32(n / 1024);
    if most < cpus / 2 then most else cpus / 2
  }

  /** Up to 2^41 elements the narrowing to int changes nothing. */
  lemma ThreadsAre(n: nat, cpus: nat)
    requires n < 0x200_0000_0000
    ensures Threads(n, cpus) < 2 <==> cpus < 4 || n < 2048
  {
  }

  /**
   `result` is what psort can leave in the array. With fewer than two threads, or without the memory for the
   temporary buffer, one qsort of the whole array; otherwise psort_main with that many threads and, if it
   reports a failure, such a qsort.
   */
  ghost predicate PsortLeaves(orig: seq<Elem>, tmp: seq<Elem>, cpus: nat, size: nat, cmp: Comparator, result: seq<Elem>) {
    var ncpu := Threads(|orig|, cpus);
    || QsortLeaves(Memory(orig, tmp), size, cmp, result)
    || (ncpu >= 2 && exists run: seq<Label> :: RunLeaves(orig, tmp, ncpu, run, size, cmp, result))
  }

  lemma {:induction false} QsortSorts(m: Memory, size: nat, cmp: Comparator, result: seq<Elem>)
    requires QsortLeaves(m, size, cmp, result)
    ensures Sorted(result, cmp) && multiset(result) == multiset(m.a)
  {
    var c := Config(Sorting(0, |m.a|, multiset(m.a)), m);
    var run: seq<Label> :|
      Legal(c, run, size, cmp) && After(c, run, size, cmp).task.Returned? && After(c, run, size, cmp).mem.a == result;
    QsortRun(c, run, multiset(m.a), size, cmp);
  }

  /**
   In whatever order the threads move, and whichever thread creations fail, psort loses no element; and it
   sorts if it uses one thread, or if the array is within the limit of memcpy_s.
   */
  lemma {:induction false} PsortSorts(orig: seq<Elem>, tmp: seq<Elem>, cpus: nat, size: nat, cmp: Comparator, result: seq<Elem>)
    requires TotalPreorder(cmp) && |tmp| == |orig| && size > 0 && PsortLeaves(orig, tmp, cpus, size, cmp, result)
    ensures multiset(result) == multiset(orig)
    ensures Threads(|orig|, cpus) < 2 || Off(|orig|, size) <= RSIZE_MAX_MEM ==> Sorted(result, cmp)
  {
    hide Sorted, TotalPreorder, Threads;
    var ncpu := Threads(|orig|, cpus);
    if QsortLeaves(Memory(orig, tmp), size, cmp, result) {
      QsortSorts(Memory(orig, tmp), size, cmp, result);
    } else {
      var run: seq<Label> :| RunLeaves(orig, tmp, ncpu, run, size, cmp, result);
      var c := Config(Started(0, |orig|, ncpu), Memory(orig, tmp));
      RunSound(c, run, orig, size, cmp);
      var d := After(c, run, size, cmp);
      assert Slice(orig, 0, |orig|) == orig && Slice(d.mem.a, 0, |orig|) == d.mem.a;
      if !d.task.ok {
        QsortSorts(d.mem, size, cmp, result);
      }
    }
  }

  // ---------------------------------------------------------------- merge_ranges by itself

  /** memcpy_replacement of n elements from tmp to a, at the same offset. */
  method CopyBack(a: array<Elem>, tmp: array<Elem>, lo: nat, n: nat, size: nat)
    requires a != tmp && lo + n <= a.Length && lo + n <= tmp.Length
    modifies a
    ensures a[..] == if Copies(n, size) then old(a[..lo]) + tmp[lo..lo + n] + old(a[lo + n..]) else old(a[..])
  {
    if !Copies(n, size) {
      return;
    }
    for k := 0 to n
      invariant forall i :: 0 <= i < a.Length ==> a[i] == if lo <= i < lo + k then tmp[i] else old(a[i])
    {
      a[lo + k] := tmp[lo + k];
    }
  }

  /** One turn of the merge loop: the smaller head goes to tmp, if it can be copied at all. */
  method MergeTurn(a: array<Elem>, tmp: array<Elem>, lo: nat, n1: nat, n2: nat, size: nat, cmp: Comparator, i1: nat, i2: nat)
    returns (j1: nat, j2: nat)
    requires TotalPreorder(cmp) && a != tmp && a.Length == tmp.Length && lo + n1 + n2 <= a.Length
    requires i1 <= n1 && i2 <= n2 && i1 + i2 < n1 + n2
    requires Copies(1, size) ==> HalfMerged(Slice(a[..], lo, n1 + n2), Slice(tmp[..], lo, n1 + n2), n1, i1, i2, cmp)
    modifies tmp
    ensures j1 <= n1 && j2 <= n2 && j1 + j2 == i1 + i2 + 1
    ensures Copies(1, size) ==> HalfMerged(Slice(a[..], lo, n1 + n2), Slice(tmp[..], lo, n1 + n2), n1, j1, j2, cmp)
  {
    hide HalfMerged, TotalPreorder, Copies;
    ghost var m := Memory(a[..], tmp[..]);
    if Copies(1, size) {
      TurnKeepsMerge(m, lo, n1 + n2, n1, i1, i2, cmp);
    }
    var lil := if i1 == n1 then false
               else if i2 == n2 then true
               else cmp(a[lo + i1], a[lo + n1 + i2]) < 0;
    if lil {
      if Copies(1, size) {
        tmp[lo + i1 + i2] := a[lo + i1];
        assert tmp[..] == m.tmp[lo + i1 + i2 := m.a[lo + i1]];
      }
      j1, j2 := i1 + 1, i2;
    } else {
      if Copies(1, size) {
        tmp[lo + i1 + i2] := a[lo + n1 + i2];
        assert tmp[..] == m.tmp[lo + i1 + i2 := m.a[lo + n1 + i2]];
      }
      j1, j2 := i1, i2 + 1;
    }
  }

  /** The merge loop; its int counters do not overflow where the elements can be copied back at all. */
  method MergeLoop(a: array<Elem>, tmp: array<Elem>, lo: nat, n1: nat, n2: nat, size: nat, cmp: Comparator)
    requires TotalPreorder(cmp) && a != tmp && a.Length == tmp.Length && lo + n1 + n2 <= a.Length
    requires Sorted(Slice(a[..], lo, n1), cmp) && Sorted(Slice(a[..], lo + n1, n2), cmp)
    modifies tmp
    ensures Small(n1 + n2, size) ==>
      Sorted(Slice(tmp[..], lo, n1 + n2), cmp) && multiset(Slice(tmp[..], lo, n1 + n2)) == multiset(Slice(a[..], lo, n1 + n2))
  {
    hide HalfMerged, TotalPreorder, Copies, Small, Sorted;
    var i1: nat, i2: nat := 0, 0;
    SliceSplits(a[..], lo, n1 + n2, n1);
    MergeStarts(Slice(a[..], lo, n1 + n2), Slice(tmp[..], lo, n1 + n2), n1, cmp);
    while i1 < n1 || i2 < n2
      invariant i1 <= n1 && i2 <= n2
      invariant Copies(1, size) || n1 + n2 == 0 ==>
        HalfMerged(Slice(a[..], lo, n1 + n2), Slice(tmp[..], lo, n1 + n2), n1, i1, i2, cmp)
      decreases n1 + n2 - i1 - i2
    {
      i1, i2 := MergeTurn(a, tmp, lo, n1, n2, size, cmp, i1, i2);
    }
    if Small(n1 + n2, size) {
      SmallParts(n1 + n2, n1 + n2, size);
      MergeEnds(Slice(a[..], lo, n1 + n2), Slice(tmp[..], lo, n1 + n2), n1, cmp);
    }
  }

  /** merge_ranges, alone on its slice: merged within the limit of memcpy_s, untouched beyond it. */
  method MergeRanges(a: array<Elem>, tmp: array<Elem>, lo: nat, n1: nat, n2: nat, size: nat, cmp: Comparator)
    requires TotalPreorder(cmp) && a != tmp && a.Length == tmp.Length && lo + n1 + n2 <= a.Length && size > 0
    requires Sorted(Slice(a[..], lo, n1), cmp) && Sorted(Slice(a[..], lo + n1, n2), cmp)
    modifies a, tmp
    ensures Small(n1 + n2, size) ==> Sorted(Slice(a[..], lo, n1 + n2), cmp)
    ensures !Small(n1 + n2, size) ==> a[..] == old(a[..])
    ensures multiset(Slice(a[..], lo, n1 + n2)) == multiset(old(Slice(a[..], lo, n1 + n2)))
    ensures a[..lo] == old(a[..lo]) && a[lo + n1 + n2..] == old(a[lo + n1 + n2..])
  {
    hide TotalPreorder, Sorted;
    MergeLoop(a, tmp, lo, n1, n2, size, cmp);
    assert a[..] == old(a[..]);
    if Small(n1 + n2, size) {
      SmallParts(n1 + n2, n1 + n2, size);
    }
    hide Copies, Small;
    ghost var was := a[..];
    assert n1 + n2 == 0 ==> Slice(was, lo, n1 + n2) == Slice(tmp[..], lo, n1 + n2);
    hide Slice;
    CopyBack(a, tmp, lo, n1 + n2, size);
    if Copies(n1 + n2, size) {
      CopiedBack(was, a[..], tmp[..], lo, n1 + n2);
    }
  }

  lemma CopiedBack(was: seq<Elem>, now: seq<Elem>, tmp: seq<Elem>, lo: nat, n: nat)
    requires lo + n <= |was| == |tmp| && now == was[..lo] + tmp[lo..lo + n] + was[lo + n..]
    ensures |now| == |was| && Slice(now, lo, n) == Slice(tmp, lo, n) && now[..lo] == was[..lo] && now[lo + n..] == was[lo + n..]
  {
  }

  // ---------------------------------------------------------------- termination

  /** Steps a call may still take besides qsort's own. Recursion ends because each half gets fewer threads. */
  function StartedWork(n: nat, threads: nat): nat
    decreases threads
  {
    if threads <= 1 then 2
    else StartedWork(n / 2, threads / 2) + StartedWork(n - n / 2, threads - threads / 2) + 2 * n + 4
  }

  ghost function Work(task: Task): int
    decreases task
  {
    match task
    case Started(_, n, threads) => StartedWork(n, threads)
    case Sorting(_, _, _) => 1
    case Fork(_, n, base, child) => Work(base) + Work(child) + 2 * n + 3
    case Merging(_, n, _, i1, i2) => 2 * n + 2 - i1 - i2
    case CopyingBack(_, n, k) => n - k + 1
    case Returned(_, _, _) => 0
  }

  function Innermost(l: Label): Label {
    match l
    case InBase(inner) => Innermost(inner)
    case InChild(inner) => Innermost(inner)
    case _ => l
  }

  lemma {:induction false} OwnStepMakesProgress(task: Task, m: Memory, l: Label, size: nat, cmp: Comparator)
    requires Nested(task) && Enabled(task, m, l, cmp) && !l.InBase? && !l.InChild?
    ensures if l.QsortWrite? then Work(Step(task, m, l, size, cmp).task) == Work(task)
            else Work(Step(task, m, l, size, cmp).task) < Work(task)
  {
    hide Copies, Sorted;
  }

  /** Every step other than a write inside qsort brings the whole sort closer to its end. */
  lemma {:induction false} StepMakesProgress(task: Task, m: Memory, l: Label, size: nat, cmp: Comparator)
    requires Nested(task) && Enabled(task, m, l, cmp)
    ensures if Innermost(l).QsortWrite? then Work(Step(task, m, l, size, cmp).task) == Work(task)
            else Work(Step(task, m, l, size, cmp).task) < Work(task)
    decreases l
  {
    hide Copies, Sorted, StartedWork;
    match l
    case InBase(inner) => StepMakesProgress(task.base, m, inner, size, cmp);
    case InChild(inner) => StepMakesProgress(task.child, m, inner, size, cmp);
    case _ => OwnStepMakesProgress(task, m, l, size, cmp);
  }

  lemma {:induction false} WorkIsNatural(task: Task, m: Memory, orig: seq<Elem>, size: nat, cmp: Comparator)
    requires Sound(task, m, orig, size, cmp)
    ensures Work(task) >= 0
    decreases task
  {
    if task.Fork? {
      WorkIsNatural(task.base, m, orig, size, cmp);
      WorkIsNatural(task.child, m, orig, size, cmp);
    }
  }

  /** Until it returns, the sort always has a thread that can move. */
  lemma {:induction false} NeverStuck(task: Task, m: Memory, orig: seq<Elem>, size: nat, cmp: Comparator) returns (l: Label)
    requires Nested(task) && Sound(task, m, orig, size, cmp) && !task.Returned?
    ensures Enabled(task, m, l, cmp)
    decreases task
  {
    match task
    case Started(_, _, threads) => l := if threads > 1 then Spawn else QsortBegin;
    case Sorting(lo, n, bag) =>
      if n > 0 {
        l := QsortWrite(lo, m.a[lo]);
      } else {
        l := QsortEnd;
        assert Slice(m.a, lo, n) == [] == Slice(orig, lo, n);
      }
    case Fork(_, _, base, child) =>
      if !base.Returned? {
        var inner := NeverStuck(base, m, orig, size, cmp);
        l := InBase(inner);
      } else if !child.Returned? {
        var inner := NeverStuck(child, m, orig, size, cmp);
        l := InChild(inner);
      } else {
        l := Join;
      }
    case Merging(_, n, n1, i1, i2) => l := if i1 < n1 || i2 < n - n1 then MergeOne else MergeEnd;
    case CopyingBack(_, n, k) => l := if k < n then CopyOne else Return;
  }
}
