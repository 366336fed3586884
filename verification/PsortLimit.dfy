/**
 psort beyond the limit of memcpy_s: the merged run is not copied back, nobody notices, and two sorted halves
 are left side by side.
 */
module PsortLimit {
  import opened Basics
  import opened HeapSort
  import opened MemMove
  import opened ParallelSort

  /** The n elements from lo on are all the same. */
  ghost predicate Uniform(s: seq<Elem>, lo: nat, n: nat) {
    lo + n <= |s| && forall i {:trigger s[i]} :: lo <= i < lo + n ==> s[i] == s[lo]
  }

  /** Sorting has nothing to do: what would be copied back is already there, or copying back is refused. */
  ghost predicate Calm(task: Task, m: Memory, size: nat)
    decreases task
  {
    && Fits(task, m)
    && match task
       case Started(lo, n, _) => Uniform(m.a, lo, n)
       case Sorting(lo, n, bag) => Uniform(m.a, lo, n) && bag == multiset(Slice(m.a, lo, n))
       case Fork(lo, n, base, child) => Calm(base, m, size) && Calm(child, m, size) && (Copies(n, size) ==> Uniform(m.a, lo, n))
       case Merging(lo, n, _, i1, i2) =>
         Copies(n, size) ==> Uniform(m.a, lo, n) && forall k :: lo <= k < lo + i1 + i2 ==> m.tmp[k] == m.a[lo]
       case CopyingBack(lo, n, _) =>
         Uniform(m.a, lo, n) && forall k :: lo <= k < lo + n ==> m.tmp[k] == m.a[lo]
       case Returned(_, _, ok) => ok
  }

  lemma {:induction false} CalmIsLocal(task: Task, m: Memory, m': Memory, size: nat)
    requires Nested(task) && Calm(task, m, size) && m'.a == m.a && SameOn(m, m', task.lo, task.lo + task.n)
    ensures Calm(task, m', size)
    decreases task
  {
    if task.Fork? {
      CalmIsLocal(task.base, m, m', size);
      CalmIsLocal(task.child, m, m', size);
    }
  }

  lemma UniformIsSorted(s: seq<Elem>, lo: nat, n: nat, cmp: Comparator)
    requires TotalPreorder(cmp) && Uniform(s, lo, n)
    ensures Sorted(Slice(s, lo, n), cmp)
  {
    forall i, j | 0 <= i < j < n
      ensures cmp(Slice(s, lo, n)[i], Slice(s, lo, n)[j]) <= 0
    {
      assert s[lo + i] == s[lo] && s[lo + j] == s[lo];
      assert cmp(s[lo], s[lo]) <= 0;
    }
  }

  lemma UniformParts(s: seq<Elem>, lo: nat, n: nat, n1: nat)
    requires Uniform(s, lo, n) && n1 <= n
    ensures Uniform(s, lo, n1) && Uniform(s, lo + n1, n - n1)
  {
    forall i {:trigger s[i]} | lo + n1 <= i < lo + n
      ensures s[i] == s[lo + n1]
    {
      assert s[i] == s[lo] && s[lo + n1] == s[lo];
    }
  }

  /** The next step l of a calm sort leaves the array alone and keeps it calm. */
  ghost predicate CalmNext(task: Task, m: Memory, l: Label, size: nat, cmp: Comparator) {
    && Enabled(task, m, l, cmp) && !Innermost(l).QsortWrite?
    && var c := Step(task, m, l, size, cmp); c.mem.a == m.a && Calm(c.task, c.mem, size)
  }

  lemma {:induction false} CalmStart(task: Task, m: Memory, size: nat, cmp: Comparator) returns (l: Label)
    requires task.Started? && Calm(task, m, size)
    ensures CalmNext(task, m, l, size, cmp)
  {
    l := if task.threads > 1 then Spawn else QsortBegin;
    UniformParts(m.a, task.lo, task.n, task.n / 2);
    hide Uniform, Copies;
    var c := Step(task, m, l, size, cmp);
    if task.threads > 1 {
      assert Calm(c.task.base, m, size) && Calm(c.task.child, m, size);
    }
    assert Calm(c.task, m, size);
  }

  lemma {:induction false} CalmQsort(task: Task, m: Memory, size: nat, cmp: Comparator)
    requires TotalPreorder(cmp) && task.Sorting? && Calm(task, m, size)
    ensures CalmNext(task, m, QsortEnd, size, cmp)
  {
    UniformIsSorted(m.a, task.lo, task.n, cmp);
    hide Uniform, Copies, TotalPreorder, Sorted;
  }

  lemma {:induction false} CalmMerge(task: Task, m: Memory, size: nat, cmp: Comparator) returns (l: Label)
    requires task.Merging? && Calm(task, m, size)
    ensures CalmNext(task, m, l, size, cmp)
  {
    var lo, n, n1, i1, i2 := task.lo, task.n, task.n1, task.i1, task.i2;
    l := if i1 < n1 || i2 < n - n1 then MergeOne else MergeEnd;
    if Copies(n, size) {
      SmallParts(n, n, size);
      assert i1 < n1 ==> m.a[lo + i1] == m.a[lo];
      assert i2 < n - n1 ==> m.a[lo + n1 + i2] == m.a[lo];
    }
    hide Copies;
  }

  lemma {:induction false} CalmCopy(task: Task, m: Memory, size: nat, cmp: Comparator) returns (l: Label)
    requires task.CopyingBack? && Calm(task, m, size)
    ensures CalmNext(task, m, l, size, cmp)
  {
    var lo, n, k := task.lo, task.n, task.k;
    l := if k < n then CopyOne else Return;
    if k < n {
      assert m.tmp[lo + k] == m.a[lo] == m.a[lo + k];
      assert m.a[lo + k := m.tmp[lo + k]] == m.a;
    }
    hide Copies;
  }

  lemma {:induction false} CalmJoin(task: Task, m: Memory, size: nat, cmp: Comparator)
    requires task.Fork? && task.base.Returned? && task.child.Returned? && Nested(task) && Calm(task, m, size)
    ensures CalmNext(task, m, Join, size, cmp)
  {
    hide Copies, Uniform;
  }

  lemma {:induction false} CalmOwnStep(task: Task, m: Memory, size: nat, cmp: Comparator) returns (l: Label)
    requires TotalPreorder(cmp) && Nested(task) && Calm(task, m, size) && !task.Returned?
    requires task.Fork? ==> task.base.Returned? && task.child.Returned?
    ensures CalmNext(task, m, l, size, cmp)
  {
    hide CalmNext, TotalPreorder, Copies, Uniform;
    match task
    case Started(_, _, _) => l := CalmStart(task, m, size, cmp);
    case Sorting(_, _, _) =>
      l := QsortEnd;
      CalmQsort(task, m, size, cmp);
    case Fork(_, _, _, _) =>
      l := Join;
      CalmJoin(task, m, size, cmp);
    case Merging(_, _, _, _, _) => l := CalmMerge(task, m, size, cmp);
    case CopyingBack(_, _, _) => l := CalmCopy(task, m, size, cmp);
  }

  lemma {:induction false} CalmStep(task: Task, m: Memory, size: nat, cmp: Comparator) returns (l: Label)
    requires TotalPreorder(cmp) && Nested(task) && Calm(task, m, size) && !task.Returned?
    ensures CalmNext(task, m, l, size, cmp)
    decreases task
  {
    hide TotalPreorder, Copies, Uniform;
    if task.Fork? && !task.base.Returned? {
      var inner := CalmStep(task.base, m, size, cmp);
      l := InBase(inner);
      StepNests(task.base, m, inner, size, cmp);
      StepStaysInside(task.base, m, inner, size, cmp);
      CalmIsLocal(task.child, m, Step(task.base, m, inner, size, cmp).mem, size);
    } else if task.Fork? && !task.child.Returned? {
      var inner := CalmStep(task.child, m, size, cmp);
      l := InChild(inner);
      StepNests(task.child, m, inner, size, cmp);
      StepStaysInside(task.child, m, inner, size, cmp);
      CalmIsLocal(task.base, m, Step(task.child, m, inner, size, cmp).mem, size);
    } else {
      l := CalmOwnStep(task, m, size, cmp);
    }
  }

  lemma {:induction false} CalmWork(task: Task, m: Memory, size: nat)
    requires Calm(task, m, size)
    ensures Work(task) >= 0
    decreases task
  {
    if task.Fork? {
      CalmWork(task.base, m, size);
      CalmWork(task.child, m, size);
    }
  }

  /** A calm sort can run to its end, reporting success, with the array as it was. */
  lemma {:induction false} CalmRun(c: Config, size: nat, cmp: Comparator) returns (run: seq<Label>)
    requires TotalPreorder(cmp) && Nested(c.task) && Calm(c.task, c.mem, size) && Work(c.task) >= 0
    ensures Legal(c, run, size, cmp)
    ensures var d := After(c, run, size, cmp); d.task.Returned? && d.task.ok && d.mem.a == c.mem.a
    decreases Work(c.task)
  {
    hide TotalPreorder;
    if c.task.Returned? {
      run := [];
    } else {
      var l := CalmStep(c.task, c.mem, size, cmp);
      var next := Step(c.task, c.mem, l, size, cmp);
      StepNests(c.task, c.mem, l, size, cmp);
      StepMakesProgress(c.task, c.mem, l, size, cmp);
      CalmWork(next.task, next.mem, size);
      var rest := CalmRun(next, size, cmp);
      run := [l] + rest;
      assert run[1..] == rest;
    }
  }

  /** An element of `size` bytes that starts with b. */
  function Marked(b: byte, size: nat): (e: Elem)
    requires size > 0
    ensures |e| == size
  {
    [b] + seq(size - 1, _ => 0)
  }

  /** Orders elements by their first byte. */
  function ByFirst(x: Elem, y: Elem): int {
    (if x == [] then 0 else x[0] as int) - (if y == [] then 0 else y[0] as int)
  }

  /** Two sorted halves, the larger elements first. */
  function HighThenLow(n: nat, size: nat): (e: seq<Elem>)
    requires size > 0
    ensures |e| == n
  {
    seq(n / 2, _ => Marked(1, size)) + seq(n - n / 2, _ => Marked(0, size))
  }

  lemma {:induction false} HalvesAreCalm(n: nat, ncpu: nat, size: nat, tmp: seq<Elem>)
    requires n >= 2 && ncpu >= 2 && size > 0 && Off(n, size) > RSIZE_MAX_MEM && |tmp| == n
    ensures var c := Step(Started(0, n, ncpu), Memory(HighThenLow(n, size), tmp), Spawn, size, ByFirst);
      Nested(c.task) && Calm(c.task, c.mem, size) && c.mem == Memory(HighThenLow(n, size), tmp)
  {
    hide Marked;
    var orig := HighThenLow(n, size);
    assert Uniform(orig, 0, n / 2) && Uniform(orig, n / 2, n - n / 2);
    assert !Copies(n, size);
    hide HighThenLow, Copies, Uniform;
  }

  lemma {:induction false} HalvesAreNotSorted(n: nat, size: nat)
    requires n >= 2 && size > 0
    ensures TotalPreorder(ByFirst) && !Sorted(HighThenLow(n, size), ByFirst) && Sized(HighThenLow(n, size), size)
  {
    var orig := HighThenLow(n, size);
    assert orig[0] == Marked(1, size) && orig[n - 1] == Marked(0, size);
    assert ByFirst(orig[0], orig[n - 1]) > 0;
  }

  /** Beyond the limit, two or more threads can leave two sorted halves side by side and report success. */
  lemma {:induction false} LeftUnmerged(n: nat, cpus: nat, size: nat, tmp: seq<Elem>)
    requires Threads(n, cpus) >= 2 && size > 0 && Off(n, size) > RSIZE_MAX_MEM && |tmp| == n
    ensures PsortLeaves(HighThenLow(n, size), tmp, cpus, size, ByFirst, HighThenLow(n, size))
    ensures !Sorted(HighThenLow(n, size), ByFirst)
  {
    assert n >= 2;
    var ncpu: nat := Threads(n, cpus);
    HalvesAreNotSorted(n, size);
    HalvesAreCalm(n, ncpu, size, tmp);
    hide TotalPreorder, HighThenLow, ByFirst, Calm, QsortLeaves, Sorted, Threads;
    var orig := HighThenLow(n, size);
    var c := Config(Started(0, n, ncpu), Memory(orig, tmp));
    var next := Step(c.task, c.mem, Spawn, size, ByFirst);
    CalmWork(next.task, next.mem, size);
    var rest := CalmRun(next, size, ByFirst);
    var run := [Spawn] + rest;
    assert run[1..] == rest;
    assert RunLeaves(orig, tmp, ncpu, run, size, ByFirst, orig);
  }

  /** psort leaves a sorted permutation of every array of n elements of that size, in every run. */
  ghost predicate AlwaysSorts(n: nat, cpus: nat, size: nat) {
    forall orig: seq<Elem>, tmp: seq<Elem>, cmp: Comparator, result: seq<Elem> ::
      |orig| == n && |tmp| == n && Sized(orig, size) && TotalPreorder(cmp) && PsortLeaves(orig, tmp, cpus, size, cmp, result) ==>
        Sorted(result, cmp) && multiset(result) == multiset(orig)
  }

  lemma {:induction false} SortsWithin(n: nat, cpus: nat, size: nat)
    requires size > 0 && (Threads(n, cpus) < 2 || Off(n, size) <= RSIZE_MAX_MEM)
    ensures AlwaysSorts(n, cpus, size)
  {
    hide TotalPreorder, PsortLeaves, Sized, Threads;
    forall orig: seq<Elem>, tmp: seq<Elem>, cmp: Comparator, result: seq<Elem>
      | |orig| == n && |tmp| == n && Sized(orig, size) && TotalPreorder(cmp) && PsortLeaves(orig, tmp, cpus, size, cmp, result)
      ensures Sorted(result, cmp) && multiset(result) == multiset(orig)
    {
      PsortSorts(orig, tmp, cpus, size, cmp, result);
    }
  }

  /** It does so exactly with one thread, or within the limit of memcpy_s. */
  lemma {:induction false} PsortSortsIff(n: nat, cpus: nat, size: nat)
    requires size > 0
    ensures AlwaysSorts(n, cpus, size) <==> Threads(n, cpus) < 2 || Off(n, size) <= RSIZE_MAX_MEM
    ensures n < 0x200_0000_0000 ==>
      (AlwaysSorts(n, cpus, size) <==> cpus < 4 || n < 2048 || Off(n, size) <= RSIZE_MAX_MEM)
  {
    if n < 0x200_0000_0000 {
      ThreadsAre(n, cpus);
    }
    if Threads(n, cpus) < 2 || Off(n, size) <= RSIZE_MAX_MEM {
      SortsWithin(n, cpus, size);
    } else {
      assert n >= 2;
      var orig := HighThenLow(n, size);
      LeftUnmerged(n, cpus, size, orig);
      HalvesAreNotSorted(n, size);
      hide TotalPreorder, HighThenLow, ByFirst, PsortLeaves, Sorted, Sized, Threads;
    }
  }
}
