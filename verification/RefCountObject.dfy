/**
 struct env_refcnt as an object. Each call is proved to be a run of module RefCount: `history` holds the
 atomic sections taken so far, and every call appends its own, in the order the code has them. Other
 threads may be anywhere in their calls; only this thread moves while a method runs.
 */
module RefCountObject {
  import opened RefCount

  /** The work items of a freeze, or of the last unfreeze, on CPUs 0 to n - 1. */
  function FreezeCpus(n: nat): seq<Label> {
    if n == 0 then [] else FreezeCpus(n - 1) + [FreezeCpu(n - 1)]
  }

  function ThawCpus(n: nat): seq<Label> {
    if n == 0 then [] else ThawCpus(n - 1) + [ThawCpu(n - 1)]
  }

  /** The sections of _env_refcnt_call_freeze_cb. */
  function CallRun(who: Firer, armed: bool): seq<Label> {
    if armed then [CompareExchange(who), Call(who)] else [CompareExchange(who)]
  }

  class EnvRefcnt {
    const pcpu: array<Pcpu>
    var freezes: int
    var countdown: int
    var initializing: bool
    var armed: int
    var pfn: nat
    /** The callbacks called so far, latest last. */
    var calls: seq<nat>
    /** The state of the transition system, and the run that led to it. */
    ghost var st: State
    ghost var history: seq<Label>

    ghost function Value(): Refcnt
      reads this, pcpu
    {
      Refcnt(pcpu[..], freezes, countdown, initializing, armed, pfn)
    }

    ghost predicate Ran()
      reads this`st, this`history
    {
      Legal(false, Init(pcpu.Length), history) && After(false, Init(pcpu.Length), history) == st
    }

    /** The object is where its run has brought it. */
    ghost predicate Valid()
      reads this, pcpu
    {
      Ran() && st.rc == Value() && st.fired == calls
    }

    constructor (cpus: nat)
      ensures Valid() && history == [] && st == Init(cpus) && fresh(pcpu) && pcpu.Length == cpus
    {
      pcpu := new Pcpu[cpus](_ => Pcpu(0, false));
      freezes, countdown, initializing, armed, pfn, calls := 0, 0, false, 0, 0, [];
      st, history := Init(cpus), [];
    }

    /** One atomic section. */
    ghost method Do(l: Label)
      requires Ran() && Enabled(false, st, l)
      modifies this`st, this`history
      ensures Ran() && st == Apply(old(st), l) && history == old(history) + [l]
    {
      hide Enabled, Apply, Init;
      assert Legal(false, st, [l]) && After(false, st, [l]) == Apply(st, l) by {
        assert [l][1..] == [];
      }
      RunCompose(false, Init(pcpu.Length), history, [l]);
      st, history := Apply(st, l), history + [l];
    }

    lemma Known()
      requires Ran()
      ensures Reachable(false, st) && Inv(false, st)
    {
      ReachableInv(false, st);
    }

    method Inc(cpu: nat) returns (ok: bool)
      requires Valid() && cpu < pcpu.Length
      modifies this`st, this`history, pcpu
      ensures Valid() && history == old(history) + [RefCount.Label.Inc(cpu)]
      ensures Value() == IncLocal(old(Value()), cpu)
      ensures ok == !old(pcpu[cpu].freeze)
    {
      hide Ran;
      Do(RefCount.Label.Inc(cpu));
      var freeze := pcpu[cpu].freeze;
      if !freeze {
        pcpu[cpu] := pcpu[cpu].(counter := pcpu[cpu].counter + 1);
      }
      ok := !freeze;
    }

    /** _env_refcnt_call_freeze_cb, by a thread that has seen zero */
    method CallFreezeCb(ghost who: Firer)
      requires Valid() && Enabled(false, st, CompareExchange(who))
      modifies this`armed, this`calls, this`st, this`history
      ensures Valid() && history == old(history) + CallRun(who, old(armed) == ARMED)
      ensures Value() == Exchange(old(Value()))
      ensures calls == if old(armed) == ARMED then old(calls) + [pfn] else old(calls)
    {
      hide Ran;
      Do(CompareExchange(who));
      var fire := armed == ARMED;
      if fire {
        armed := 0;
      }
      if fire {
        Do(Call(who));
        calls := calls + [pfn];
      }
    }

    /** Called with a reference held. */
    method Dec(cpu: nat)
      requires Valid() && cpu < pcpu.Length && st.live > 0
      modifies this`countdown, this`armed, this`calls, this`st, this`history, pcpu
      ensures Valid()
      ensures !old(pcpu[cpu].freeze) ==>
                && Value() == DecLocal(old(Value()), cpu) && calls == old(calls)
                && history == old(history) + [DecOnCpu(cpu)]
      ensures old(pcpu[cpu].freeze) ==>
                var rc := DecGlobal(old(Value()));
                && Value() == (if SeesZero(rc) then Exchange(rc) else rc)
                && calls == old(calls) + (if SeesZero(rc) && rc.armed == ARMED then [pfn] else [])
                && history == old(history) + [DecOnCpu(cpu)] + [DecCountdown]
                              + (if SeesZero(rc) then CallRun(Current, rc.armed == ARMED) else [])
    {
      hide Ran;
      Do(DecOnCpu(cpu));
      var freeze := pcpu[cpu].freeze;
      if !freeze {
        pcpu[cpu] := pcpu[cpu].(counter := pcpu[cpu].counter - 1);
      }
      if freeze {
        Do(DecCountdown);
        countdown := countdown - 1;
        var callback := !initializing && countdown == 0;
        if callback {
          CallFreezeCb(Current);
        }
      }
    }

    /** _env_refcnt_freeze_pcpu on one CPU. */
    method FreezeOne(cpu: nat, sum: int, ghost todo: set<nat>) returns (more: int)
      requires Valid() && cpu < pcpu.Length && cpu in todo && !pcpu[cpu].freeze && st.phase == Freezing(todo, sum)
      modifies this`st, this`history, pcpu
      ensures Valid() && history == old(history) + [FreezeCpu(cpu)] && st.phase == Freezing(todo - {cpu}, more)
      ensures st.(phase := old(st).phase, rc := old(st).rc) == old(st)
      ensures pcpu[..] == old(pcpu[..])[cpu := Pcpu(old(pcpu[cpu].counter), true)]
      ensures Total(pcpu[..]) + more == Total(old(pcpu[..])) + sum
    {
      hide Ran;
      ghost var before := pcpu[..];
      TotalUpdate(before, cpu, before[cpu].(freeze := true));
      Do(FreezeCpu(cpu));
      pcpu[cpu] := pcpu[cpu].(freeze := true);
      assert pcpu[..] == before[cpu := before[cpu].(freeze := true)];
      more := sum + pcpu[cpu].counter;
    }

    /** The 0 to 1 freeze on each CPU in turn. */
    method FreezeEach() returns (sum: int)
      requires Valid() && st.phase == Freezing(AllCpus(pcpu.Length), 0)
      requires forall c :: 0 <= c < pcpu.Length ==> !pcpu[c].freeze
      modifies this`st, this`history, pcpu
      ensures Valid() && history == old(history) + FreezeCpus(pcpu.Length) && st.phase == Freezing({}, sum)
      ensures st.(phase := old(st).phase, rc := old(st).rc) == old(st)
      ensures forall c :: 0 <= c < pcpu.Length ==> pcpu[c] == Pcpu(old(pcpu[c].counter), true)
      ensures sum == Total(old(pcpu[..]))
    {
      hide Ran, AllCpus;
      sum := 0;
      var cpu := 0;
      ghost var todo := AllCpus(pcpu.Length);
      AllCpusAre(pcpu.Length);
      while cpu < pcpu.Length
        invariant 0 <= cpu <= pcpu.Length && Valid()
        invariant st.phase == Freezing(todo, sum) && forall c: nat :: c in todo <==> cpu <= c < pcpu.Length
        invariant st.(phase := old(st).phase, rc := old(st).rc) == old(st)
        invariant history == old(history) + FreezeCpus(cpu)
        invariant forall c :: 0 <= c < cpu ==> pcpu[c] == Pcpu(old(pcpu[c].counter), true)
        invariant forall c :: cpu <= c < pcpu.Length ==> pcpu[c] == old(pcpu[c])
        invariant Total(pcpu[..]) + sum == Total(old(pcpu[..]))
      {
        sum := FreezeOne(cpu, sum, todo);
        todo := todo - {cpu};
        cpu := cpu + 1;
      }
      TotalOfFrozen(pcpu[..]);
      assert todo == {};
    }

    static lemma AllCpusAre(n: nat)
      ensures forall c: nat :: c in AllCpus(n) <==> c < n
    {
    }

    /** A first freeze moves the whole sum of the per-CPU counters into countdown, whatever their signs. */
    method Freeze()
      requires Valid() && Enabled(false, st, FreezeBegin)
      modifies this, pcpu
      ensures Valid() && freezes == old(freezes) + 1 && pfn == old(pfn)
      ensures old(freezes) > 0 ==>
                && Value() == old(Value()).(freezes := freezes) && calls == old(calls)
                && history == old(history) + [FreezeBegin]
      ensures old(freezes) == 0 ==>
                && !initializing
                && (forall c :: 0 <= c < pcpu.Length ==> pcpu[c] == Pcpu(old(pcpu[c].counter), true))
                && countdown == old(countdown) + Total(old(pcpu[..]))
                && armed == (if countdown == 0 && old(armed) == ARMED then 0 else old(armed))
                && calls == old(calls) + (if countdown == 0 && old(armed) == ARMED then [pfn] else [])
                && history == old(history) + [FreezeBegin] + FreezeCpus(pcpu.Length) + [FreezeFinish]
                              + (if countdown == 0 then CallRun(FirstFreeze, old(armed) == ARMED) else [])
    {
      FreezeReady();
      hide Ran, AllCpus;
      Do(FreezeBegin);
      freezes := freezes + 1;
      if freezes > 1 {
        return;
      }
      initializing := true;
      var sum := FreezeEach();
      FinishFreeze(sum);
    }

    /** The sum goes into countdown, and the callback is called if nothing is left. */
    method FinishFreeze(sum: int)
      requires Valid() && st.phase == Freezing({}, sum)
      modifies this`countdown, this`initializing, this`armed, this`calls, this`st, this`history
      ensures Valid() && countdown == old(countdown) + sum && !initializing
      ensures armed == (if countdown == 0 && old(armed) == ARMED then 0 else old(armed))
      ensures calls == old(calls) + (if countdown == 0 && old(armed) == ARMED then [pfn] else [])
      ensures history == old(history) + [FreezeFinish] + (if countdown == 0 then CallRun(FirstFreeze, old(armed) == ARMED) else [])
    {
      hide Ran, AllCpus;
      Do(FreezeFinish);
      countdown := countdown + sum;
      initializing := false;
      var callback := countdown == 0;
      if callback {
        CallFreezeCb(FirstFreeze);
      }
    }

    /** Before a first freeze no CPU is frozen, before the last unfreeze every one is. */
    lemma FreezeReady()
      requires Valid() && Enabled(false, st, FreezeBegin)
      ensures freezes >= 0 && (freezes == 0 ==> forall c :: 0 <= c < pcpu.Length ==> !pcpu[c].freeze)
    {
      Known();
    }

    lemma UnfreezeReady()
      requires Valid() && Enabled(false, st, UnfreezeBegin)
      ensures freezes > 0 && (freezes == 1 ==> forall c :: 0 <= c < pcpu.Length ==> pcpu[c].freeze)
    {
      Known();
    }

    /** Callbacks are numbered in the order in which they are registered. */
    method RegisterZeroCb(cb: nat)
      requires Valid() && Enabled(false, st, RegisterClaim) && cb == st.nextCb
      modifies this`armed, this`pfn, this`calls, this`st, this`history
      ensures Valid() && pfn == cb
      ensures SeesZero(old(Value())) ==> armed == 0 && calls == old(calls) + [cb]
      ensures !SeesZero(old(Value())) ==> armed == ARMED && calls == old(calls)
      ensures history == old(history) + [RegisterClaim] + [RegisterStore] + [RegisterArm] + [RegisterCheck(false)]
                         + (if SeesZero(old(Value())) then CallRun(Current, true) else [])
    {
      hide Ran;
      Do(RegisterClaim);
      armed := armed + 1;
      Do(RegisterStore);
      pfn := cb;
      Do(RegisterArm);
      armed := ARMED;
      Do(RegisterCheck(false));
      var callback := countdown == 0 && !initializing;
      if callback {
        CallFreezeCb(Current);
      }
    }

    method ThawEach()
      requires Valid() && st.phase == Thawing(AllCpus(pcpu.Length))
      requires forall c :: 0 <= c < pcpu.Length ==> pcpu[c].freeze
      modifies this`st, this`history, pcpu
      ensures Valid() && history == old(history) + ThawCpus(pcpu.Length) && st.phase == Thawing({})
      ensures forall c :: 0 <= c < pcpu.Length ==> pcpu[c] == Pcpu(0, false)
    {
      hide Ran, AllCpus;
      var cpu := 0;
      ghost var todo := AllCpus(pcpu.Length);
      AllCpusAre(pcpu.Length);
      while cpu < pcpu.Length
        invariant 0 <= cpu <= pcpu.Length && Valid()
        invariant st.phase == Thawing(todo) && forall c: nat :: c in todo <==> cpu <= c < pcpu.Length
        invariant history == old(history) + ThawCpus(cpu)
        invariant forall c :: 0 <= c < cpu ==> pcpu[c] == Pcpu(0, false)
        invariant forall c :: cpu <= c < pcpu.Length ==> pcpu[c].freeze
      {
        assert pcpu[cpu].freeze;
        Do(ThawCpu(cpu));
        todo := todo - {cpu};
        pcpu[cpu] := Pcpu(0, false);
        cpu := cpu + 1;
      }
      assert todo == {};
    }

    /** The last unfreeze forgets the dead per-CPU counters and any callback still armed. */
    method Unfreeze()
      requires Valid() && Enabled(false, st, UnfreezeBegin) && (freezes == 1 ==> countdown == 0)
      modifies this`freezes, this`armed, this`st, this`history, pcpu
      ensures Valid() && freezes == old(freezes) - 1 >= 0
      ensures freezes > 0 ==> Value() == old(Value()).(freezes := freezes) && history == old(history) + [UnfreezeBegin]
      ensures freezes == 0 ==>
                && armed == 0 && (forall c :: 0 <= c < pcpu.Length ==> pcpu[c] == Pcpu(0, false))
                && history == old(history) + [UnfreezeBegin] + [Disarm] + ThawCpus(pcpu.Length) + [ThawFinish]
    {
      UnfreezeReady();
      hide Ran, AllCpus;
      Do(UnfreezeBegin);
      freezes := freezes - 1;
      if freezes > 0 {
        return;
      }
      Release();
    }

    /** What the last unfreeze does after the lock. */
    method Release()
      requires Valid() && st.phase == Unfreezing && countdown == 0
      requires forall c :: 0 <= c < pcpu.Length ==> pcpu[c].freeze
      modifies this`armed, this`st, this`history, pcpu
      ensures Valid() && armed == 0 && (forall c :: 0 <= c < pcpu.Length ==> pcpu[c] == Pcpu(0, false))
      ensures history == old(history) + [Disarm] + ThawCpus(pcpu.Length) + [ThawFinish]
    {
      hide Ran, AllCpus;
      Do(Disarm);
      armed := 0;
      ThawEach();
      Do(ThawFinish);
    }

    /** env_refcnt_zeroed: true exactly if the counter is fully frozen and no reference is held or on its way down. */
    method IsZeroed() returns (z: bool)
      requires Valid()
      ensures z <==> st.phase.Frozen? && st.live == 0 && st.pending == 0
    {
      z := freezes != 0 && !initializing && countdown == 0;
      Known();
      ZeroedIff(st);
    }

    /** env_refcnt_frozen: true exactly from the start of a freeze that is not yet offset to the end of the last one. */
    method IsFrozen() returns (z: bool)
      requires Valid()
      ensures z <==> st.phase.Freezing? || st.phase.Frozen?
    {
      z := freezes != 0;
      Known();
    }
  }
}
