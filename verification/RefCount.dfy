/**
 The per-CPU freezable reference counter as a labelled transition system.

 `Refcnt` is the shared structure. `State` adds what the threads around it are doing: how many
 references they hold, and how many of them stand between two atomic sections of a call. One `Label`
 is one atomic section: a get_cpu/put_cpu region, a spinlock region, one atomic instruction or one
 work item on one CPU. Any number of threads and CPUs take part; labels interleave freely.
 */
module RefCount {
  import opened Basics

  const ARMING := 1
  const ARMED := 2

  // ---------------------------------------------------------------- shared structure

  datatype Pcpu = Pcpu(counter: int, freeze: bool)

  /** `freezes` is freeze.counter; `pfn` stands for the registered callback together with its argument. */
  datatype Refcnt = Refcnt(
    pcpu: seq<Pcpu>,
    freezes: int,
    countdown: int,
    initializing: bool,
    armed: int,
    pfn: nat)

  /** What one CPU still contributes: a frozen CPU's counter is dead storage. */
  function Share(p: Pcpu): int {
    if p.freeze then 0 else p.counter
  }

  function Total(ps: seq<Pcpu>): int {
    if ps == [] then 0 else Total(ps[..|ps| - 1]) + Share(ps[|ps| - 1])
  }

  lemma {:induction false} TotalUpdate(ps: seq<Pcpu>, c: nat, p: Pcpu)
    requires c < |ps|
    ensures Total(ps[c := p]) == Total(ps) - Share(ps[c]) + Share(p)
  {
    var last := |ps| - 1;
    if c == last {
      assert ps[c := p][..last] == ps[..last];
    } else {
      assert ps[c := p][..last] == ps[..last][c := p];
      TotalUpdate(ps[..last], c, p);
    }
  }

  lemma {:induction false} TotalOfFrozen(ps: seq<Pcpu>)
    requires forall c :: 0 <= c < |ps| ==> ps[c].freeze
    ensures Total(ps) == 0
  {
    if ps != [] {
      TotalOfFrozen(ps[..|ps| - 1]);
    }
  }

  // ---------------------------------------------------------------- atomic sections

  function IncLocal(rc: Refcnt, cpu: nat): Refcnt
    requires cpu < |rc.pcpu|
  {
    var p := rc.pcpu[cpu];
    if p.freeze then rc else rc.(pcpu := rc.pcpu[cpu := p.(counter := p.counter + 1)])
  }

  function DecLocal(rc: Refcnt, cpu: nat): Refcnt
    requires cpu < |rc.pcpu|
  {
    var p := rc.pcpu[cpu];
    if p.freeze then rc else rc.(pcpu := rc.pcpu[cpu := p.(counter := p.counter - 1)])
  }

  /** The test made under the lock by dec, freeze and register alike. */
  predicate SeesZero(rc: Refcnt) {
    !rc.initializing && rc.countdown == 0
  }

  function DecGlobal(rc: Refcnt): Refcnt {
    rc.(countdown := rc.countdown - 1)
  }

  function Exchange(rc: Refcnt): Refcnt {
    if rc.armed == ARMED then rc.(armed := 0) else rc
  }

  function FreezeEnter(rc: Refcnt): Refcnt {
    rc.(freezes := rc.freezes + 1, initializing := rc.initializing || rc.freezes + 1 <= 1)
  }

  function FreezePcpu(rc: Refcnt, cpu: nat): Refcnt
    requires cpu < |rc.pcpu|
  {
    rc.(pcpu := rc.pcpu[cpu := rc.pcpu[cpu].(freeze := true)])
  }

  function FreezeFold(rc: Refcnt, sum: int): Refcnt {
    rc.(countdown := rc.countdown + sum, initializing := false)
  }

  function ThawPcpu(rc: Refcnt, cpu: nat): Refcnt
    requires cpu < |rc.pcpu|
  {
    rc.(pcpu := rc.pcpu[cpu := Pcpu(0, false)])
  }

  predicate Zeroed(rc: Refcnt) {
    rc.freezes != 0 && !rc.initializing && rc.countdown == 0
  }

  // ---------------------------------------------------------------- the transition system

  /** Where the 0 to 1 freeze, or the 1 to 0 unfreeze, currently stands; `todo` holds the CPUs whose work item is queued. */
  datatype Phase =
    | Idle
    | Freezing(todo: set<nat>, sum: int)
    | Frozen
    | Unfreezing
    | Thawing(todo: set<nat>)

  /** A registering thread up to the moment it sets ARMED. */
  datatype Registering = NoOne | Claimed(cb: nat) | Stored

  /** The thread of the 0 to 1 freeze, after folding the sum: gone, past a successful zero test, or about to call. */
  datatype Freezer = Away | Seen | Won

  /** Who runs a section of _env_refcnt_call_freeze_cb: a thread of this epoch, one of an earlier epoch, the freezing thread. */
  datatype Firer = Current | Straggler | FirstFreeze

  /**
   - `live`: references taken and not yet being dropped
   - `pending`: decrements that saw a frozen CPU and have not reached countdown
   - `returned`: freeze calls that have returned and are not yet offset by an unfreeze
   - `checking`: registering threads past setting ARMED and before their own zero test
   - `committed`: decrementing and registering threads past a successful zero test and before the compare-exchange
   - `winners`: such threads past a winning compare-exchange and before the callback
   - `staleChecking`, `staleCommitted`, `staleWinners`: the same, left over from before the last unfreeze disarmed
   - `freezer`: the thread of the 0 to 1 freeze, which has not returned while in the firing code
   - `fired`: the callbacks called so far, `cancelled` the armed ones discarded by an unfreeze
   - `epoch`: how many times the counter has been fully released
   */
  datatype State = State(
    rc: Refcnt,
    phase: Phase,
    live: nat,
    pending: nat,
    returned: nat,
    checking: nat,
    committed: nat,
    winners: nat,
    staleChecking: nat,
    staleCommitted: nat,
    staleWinners: nat,
    freezer: Freezer,
    reg: Registering,
    nextCb: nat,
    fired: seq<nat>,
    cancelled: nat,
    epoch: nat)

  datatype Label =
    | Inc(cpu: nat)
    | DecOnCpu(cpu: nat)
    | DecCountdown
    | CompareExchange(who: Firer)
    | Call(who: Firer)
    | FreezeBegin
    | FreezeCpu(cpu: nat)
    | FreezeFinish
    | RegisterClaim
    | RegisterStore
    | RegisterArm
    | RegisterCheck(stale: bool)
    | UnfreezeBegin
    | Disarm
    | ThawCpu(cpu: nat)
    | ThawFinish

  function AllCpus(n: nat): (all: set<nat>)
    ensures forall c: nat :: c in all <==> c < n
  {
    if n == 0 then {} else AllCpus(n - 1) + {n - 1}
  }

  function Init(cpus: nat): State {
    State(Refcnt(seq(cpus, _ => Pcpu(0, false)), 0, 0, false, 0, 0),
          Idle, 0, 0, 0, 0, 0, 0, 0, 0, 0, Away, NoOne, 0, [], 0, 0)
  }

  /** Threads that won the compare-exchange and have not called yet. */
  function Calling(s: State): nat {
    s.winners + s.staleWinners + if s.freezer == Won then 1 else 0
  }

  /**
   The guards are the rules a caller must keep: a reference is dropped only if held, the 0 to 1 freeze
   waits for the previous thaw, an unfreeze follows a freeze that returned, a callback is registered
   only after a freeze returned and once the previous one was called, the last unfreeze leaves no
   callback half registered and comes when countdown is 0. With `strict` set there is one more: when
   the last unfreeze disarms the callback, no thread is between arming it and its own zero test, or
   inside _env_refcnt_call_freeze_cb.
   */
  predicate Enabled(strict: bool, s: State, l: Label) {
    match l
    case Inc(cpu) => cpu < |s.rc.pcpu|
    case DecOnCpu(cpu) => cpu < |s.rc.pcpu| && s.live > 0
    case DecCountdown => s.pending > 0
    case CompareExchange(who) =>
      (match who case Current => s.committed > 0 case Straggler => s.staleCommitted > 0 case FirstFreeze => s.freezer == Seen)
    case Call(who) =>
      (match who case Current => s.winners > 0 case Straggler => s.staleWinners > 0 case FirstFreeze => s.freezer == Won)
    case FreezeBegin => s.rc.freezes == 0 ==> s.phase == Idle
    case FreezeCpu(cpu) => s.phase.Freezing? && cpu in s.phase.todo && cpu < |s.rc.pcpu|
    case FreezeFinish => s.phase.Freezing? && s.phase.todo == {}
    case RegisterClaim => s.returned > 0 && s.rc.armed == 0 && Calling(s) == 0
    case RegisterStore => s.reg.Claimed?
    case RegisterArm => s.reg.Stored?
    case RegisterCheck(stale) => if stale then s.staleChecking > 0 else s.checking > 0
    case UnfreezeBegin =>
      && s.returned > 0
      && (s.rc.freezes == 1 ==> s.reg.NoOne?)
    case Disarm =>
      && s.phase.Unfreezing?
      && s.rc.countdown == 0
      && (strict ==> s.checking == 0 && s.committed == 0 && s.winners == 0)
    case ThawCpu(cpu) => s.phase.Thawing? && cpu in s.phase.todo && cpu < |s.rc.pcpu|
    case ThawFinish => s.phase.Thawing? && s.phase.todo == {}
  }

  function Bump(k: nat, b: bool): nat {
    if b then k + 1 else k
  }

  function Apply(s: State, l: Label): State
    requires Enabled(false, s, l)
  {
    var rc := s.rc;
    match l
    case Inc(cpu) =>
      s.(rc := IncLocal(rc, cpu), live := Bump(s.live, !rc.pcpu[cpu].freeze))
    case DecOnCpu(cpu) =>
      s.(rc := DecLocal(rc, cpu), live := s.live - 1, pending := Bump(s.pending, rc.pcpu[cpu].freeze))
    case DecCountdown =>
      var rc' := DecGlobal(rc);
      s.(rc := rc', pending := s.pending - 1, committed := Bump(s.committed, SeesZero(rc')))
    case CompareExchange(who) =>
      var fire := rc.armed == ARMED;
      var t := s.(rc := Exchange(rc));
      (match who
       case Current => t.(committed := s.committed - 1, winners := Bump(s.winners, fire))
       case Straggler => t.(staleCommitted := s.staleCommitted - 1, staleWinners := Bump(s.staleWinners, fire))
       case FirstFreeze => t.(freezer := if fire then Won else Away, returned := Bump(s.returned, !fire)))
    case Call(who) =>
      var t := s.(fired := s.fired + [rc.pfn]);
      (match who
       case Current => t.(winners := s.winners - 1)
       case Straggler => t.(staleWinners := s.staleWinners - 1)
       case FirstFreeze => t.(freezer := Away, returned := s.returned + 1))
    case FreezeBegin =>
      if rc.freezes + 1 > 1 then
        s.(rc := FreezeEnter(rc), returned := s.returned + 1)
      else
        s.(rc := FreezeEnter(rc), phase := Freezing(AllCpus(|rc.pcpu|), 0))
    case FreezeCpu(cpu) =>
      s.(rc := FreezePcpu(rc, cpu),
         phase := Freezing(s.phase.todo - {cpu}, s.phase.sum + rc.pcpu[cpu].counter))
    case FreezeFinish =>
      var rc' := FreezeFold(rc, s.phase.sum);
      var zero := rc'.countdown == 0;
      s.(rc := rc', phase := Frozen, returned := Bump(s.returned, !zero), freezer := if zero then Seen else Away)
    case RegisterClaim =>
      s.(rc := rc.(armed := rc.armed + 1), reg := Claimed(s.nextCb), nextCb := s.nextCb + 1)
    case RegisterStore =>
      s.(rc := rc.(pfn := s.reg.cb), reg := Stored)
    case RegisterArm =>
      s.(rc := rc.(armed := ARMED), reg := NoOne, checking := s.checking + 1)
    case RegisterCheck(stale) =>
      if stale then
        s.(staleChecking := s.staleChecking - 1, staleCommitted := Bump(s.staleCommitted, SeesZero(rc)))
      else
        s.(checking := s.checking - 1, committed := Bump(s.committed, SeesZero(rc)))
    case UnfreezeBegin =>
      var rc' := rc.(freezes := rc.freezes - 1);
      s.(rc := rc', returned := s.returned - 1,
         phase := if rc'.freezes > 0 then s.phase else Unfreezing)
    case Disarm =>
      s.(rc := rc.(armed := 0), phase := Thawing(AllCpus(|rc.pcpu|)),
         cancelled := Bump(s.cancelled, rc.armed == ARMED),
         checking := 0, staleChecking := s.staleChecking + s.checking,
         committed := 0, staleCommitted := s.staleCommitted + s.committed,
         winners := 0, staleWinners := s.staleWinners + s.winners,
         epoch := s.epoch + 1)
    case ThawCpu(cpu) =>
      s.(rc := ThawPcpu(rc, cpu), phase := Thawing(s.phase.todo - {cpu}))
    case ThawFinish =>
      s.(phase := Idle)
  }

  /** `run` is a legal run from `s`. */
  predicate Legal(strict: bool, s: State, run: seq<Label>)
    decreases |run|
  {
    run == [] || (Enabled(strict, s, run[0]) && Enabled(false, s, run[0])
                  && Legal(strict, Apply(s, run[0]), run[1..]))
  }

  /** The state a legal run ends in. */
  function After(strict: bool, s: State, run: seq<Label>): State
    requires Legal(strict, s, run)
    decreases |run|
  {
    if run == [] then s else After(strict, Apply(s, run[0]), run[1..])
  }

  ghost predicate Reachable(strict: bool, s: State) {
    exists cpus: nat, run: seq<Label> :: Legal(strict, Init(cpus), run) && After(strict, Init(cpus), run) == s
  }

  /** `run` is a legal run from `s` to `t`. */
  predicate Leads(strict: bool, s: State, run: seq<Label>, t: State) {
    Legal(strict, s, run) && After(strict, s, run) == t
  }

  lemma NoStep(strict: bool, s: State)
    ensures Leads(strict, s, [], s)
  {
  }

  /** One more step in front of a run. */
  lemma RunCons(strict: bool, s: State, l: Label, rest: seq<Label>, t: State)
    requires Enabled(strict, s, l) && Enabled(false, s, l) && Leads(strict, Apply(s, l), rest, t)
    ensures Leads(strict, s, [l] + rest, t)
  {
    hide Enabled, Apply;
    assert ([l] + rest)[1..] == rest;
  }

  lemma TwoSteps(strict: bool, s: State, a: Label, b: Label)
    requires Enabled(strict, s, a) && Enabled(false, s, a)
    requires Enabled(strict, Apply(s, a), b) && Enabled(false, Apply(s, a), b)
    ensures Leads(strict, s, [a, b], Apply(Apply(s, a), b))
  {
    hide Enabled, Apply, Legal, After;
    var u := Apply(Apply(s, a), b);
    NoStep(strict, u);
    RunCons(strict, Apply(s, a), b, [], u);
    RunCons(strict, s, a, [b] + [], u);
    assert [a] + ([b] + []) == [a, b];
  }

  lemma {:induction false} RunCompose(strict: bool, s: State, a: seq<Label>, b: seq<Label>)
    requires Legal(strict, s, a) && Legal(strict, After(strict, s, a), b)
    ensures Legal(strict, s, a + b)
    ensures After(strict, s, a + b) == After(strict, After(strict, s, a), b)
    decreases |a|
  {
    hide Enabled, Apply;
    if a == [] {
      assert a + b == b;
    } else {
      assert (a + b)[1..] == a[1..] + b;
      RunCompose(strict, Apply(s, a[0]), a[1..], b);
    }
  }

  // ---------------------------------------------------------------- the invariant

  /** Which CPUs are frozen, and which freezes are outstanding, in each phase. */
  predicate Shape(s: State) {
    var n := |s.rc.pcpu|;
    && (s.phase.Freezing? <==> s.rc.initializing)
    && s.rc.freezes == s.returned + (if s.phase.Freezing? || !s.freezer.Away? then 1 else 0)
    && (s.phase.Idle? || s.phase.Unfreezing? || s.phase.Thawing? ==> s.returned == 0)
    && (s.phase.Frozen? ==> s.rc.freezes > 0)
    && (s.freezer.Away? || s.phase.Frozen?)
    && match s.phase
       case Idle => forall c :: 0 <= c < n ==> !s.rc.pcpu[c].freeze
       case Freezing(todo, _) =>
         (forall c :: c in todo ==> c < n) && (forall c :: 0 <= c < n ==> (s.rc.pcpu[c].freeze <==> c !in todo))
       case Frozen => forall c :: 0 <= c < n ==> s.rc.pcpu[c].freeze
       case Unfreezing => forall c :: 0 <= c < n ==> s.rc.pcpu[c].freeze
       case Thawing(todo) =>
         (forall c :: c in todo ==> c < n) && (forall c :: 0 <= c < n ==> (s.rc.pcpu[c].freeze <==> c in todo))
  }

  function Collected(s: State): int {
    if s.phase.Freezing? then s.phase.sum else 0
  }

  /** No reference is lost or counted twice, wherever it was taken and wherever it is dropped. */
  predicate Conserved(s: State) {
    && Total(s.rc.pcpu) + Collected(s) + s.rc.countdown == s.live + s.pending
    && (s.phase.Idle? || s.phase.Thawing? ==> s.rc.countdown <= 0)
  }

  predicate FullyFrozen(s: State) {
    s.phase.Frozen? || s.phase.Unfreezing?
  }

  /** A thread of the current epoch that is about to fire does so at countdown 0 with every CPU frozen. */
  predicate Poised(s: State) {
    && (s.committed > 0 || s.winners > 0 || !s.freezer.Away? ==> FullyFrozen(s) && s.rc.countdown == 0)
    && (s.checking > 0 ==> FullyFrozen(s) || s.rc.initializing)
  }

  predicate Unused(s: State, cb: nat) {
    cb < s.nextCb && cb !in s.fired
  }

  /** Every callback ever registered is in exactly one place: fired, discarded, won, armed or being registered. */
  predicate OneShot(s: State) {
    && 0 <= s.rc.armed <= ARMED
    && (s.rc.armed == ARMING <==> !s.reg.NoOne?)
    && Calling(s) <= 1
    && (Calling(s) == 1 ==> s.rc.armed == 0 && Unused(s, s.rc.pfn))
    && (s.rc.armed == ARMED ==> Unused(s, s.rc.pfn))
    && (s.reg.Claimed? ==> Unused(s, s.reg.cb))
    && (s.reg.Stored? ==> Unused(s, s.rc.pfn))
    && Distinct(s.fired)
    && (forall i :: 0 <= i < |s.fired| ==> s.fired[i] < s.nextCb)
    && |s.fired| + s.cancelled + Calling(s) + (if s.rc.armed == 0 then 0 else 1) == s.nextCb
  }

  /** An armed callback whose moment has come is in some thread's hands. */
  predicate NotLost(s: State) {
    && (FullyFrozen(s) && s.rc.countdown == 0 && s.rc.armed == ARMED ==>
          s.checking > 0 || s.committed > 0 || s.freezer == Seen)
    && (!s.reg.NoOne? ==> s.rc.freezes > 0)
  }

  predicate Clean(s: State) {
    s.staleChecking == 0 && s.staleCommitted == 0 && s.staleWinners == 0 && s.cancelled == 0
  }

  predicate Inv(strict: bool, s: State) {
    Shape(s) && Conserved(s) && Poised(s) && OneShot(s) && NotLost(s) && (strict ==> Clean(s))
  }

  // ---------------------------------------------------------------- every step keeps it

  /** A section of registering or calling, which leaves CPUs and references alone. */
  predicate Callback(l: Label) {
    l.CompareExchange? || l.Call? || l.RegisterClaim? || l.RegisterStore? || l.RegisterArm? || l.RegisterCheck?
  }

  lemma CallbackKeepsShape(s: State, l: Label)
    requires Shape(s) && Enabled(false, s, l) && Callback(l)
    ensures Shape(Apply(s, l)) && Apply(s, l).phase == s.phase && Apply(s, l).rc.pcpu == s.rc.pcpu
    ensures Apply(s, l).rc.countdown == s.rc.countdown && Apply(s, l).live == s.live && Apply(s, l).pending == s.pending
  {
    hide AllCpus;
  }

  lemma StepKeepsShape(s: State, l: Label)
    requires Shape(s) && Enabled(false, s, l)
    ensures Shape(Apply(s, l))
  {
    hide AllCpus;
    if Callback(l) {
      hide Shape, Apply, Enabled;
      CallbackKeepsShape(s, l);
    }
  }

  lemma StepConserves(s: State, l: Label)
    requires Shape(s) && Conserved(s) && Enabled(false, s, l)
    ensures Conserved(Apply(s, l))
  {
    hide AllCpus;
    var ps := s.rc.pcpu;
    if Callback(l) {
      hide Shape, Apply, Enabled;
      CallbackKeepsShape(s, l);
      return;
    }
    match l
    case Inc(cpu) => TotalUpdate(ps, cpu, ps[cpu].(counter := ps[cpu].counter + 1));
    case DecOnCpu(cpu) => TotalUpdate(ps, cpu, ps[cpu].(counter := ps[cpu].counter - 1));
    case FreezeCpu(cpu) => TotalUpdate(ps, cpu, ps[cpu].(freeze := true));
    case ThawCpu(cpu) => TotalUpdate(ps, cpu, Pcpu(0, false));
    case _ =>
  }

  lemma StepKeepsPoised(s: State, l: Label)
    requires Shape(s) && Conserved(s) && Poised(s) && NotLost(s) && Enabled(false, s, l)
    ensures Poised(Apply(s, l))
  {
    if FullyFrozen(s) {
      TotalOfFrozen(s.rc.pcpu);
    }
  }

  lemma CallbackKeepsOneShot(s: State, l: Label)
    requires OneShot(s) && Enabled(false, s, l) && Callback(l)
    ensures OneShot(Apply(s, l))
  {
    hide AllCpus;
  }

  lemma StepKeepsOneShot(s: State, l: Label)
    requires Shape(s) && NotLost(s) && OneShot(s) && Enabled(false, s, l)
    ensures OneShot(Apply(s, l))
  {
    hide AllCpus;
    if Callback(l) {
      hide Shape, NotLost, OneShot, Apply, Enabled;
      CallbackKeepsOneShot(s, l);
    }
  }

  lemma StepKeepsNotLost(s: State, l: Label)
    requires Shape(s) && OneShot(s) && NotLost(s) && Enabled(false, s, l)
    ensures NotLost(Apply(s, l))
  {
  }

  lemma StepKeepsClean(s: State, l: Label)
    requires NotLost(s) && Shape(s) && Clean(s) && Enabled(true, s, l)
    ensures Clean(Apply(s, l))
  {
  }

  lemma StepKeepsInv(strict: bool, s: State, l: Label)
    requires Inv(strict, s) && Enabled(strict, s, l) && Enabled(false, s, l)
    ensures Inv(strict, Apply(s, l))
  {
    StepKeepsShape(s, l);
    StepConserves(s, l);
    StepKeepsPoised(s, l);
    StepKeepsOneShot(s, l);
    StepKeepsNotLost(s, l);
    if strict {
      StepKeepsClean(s, l);
    }
  }

  // ---------------------------------------------------------------- theorems over every run

  lemma InitInv(strict: bool, cpus: nat)
    ensures Inv(strict, Init(cpus))
  {
    TotalOfFresh(Init(cpus).rc.pcpu);
  }

  lemma {:induction false} TotalOfFresh(ps: seq<Pcpu>)
    requires forall c :: 0 <= c < |ps| ==> ps[c] == Pcpu(0, false)
    ensures Total(ps) == 0
  {
    if ps != [] {
      TotalOfFresh(ps[..|ps| - 1]);
    }
  }

  lemma {:induction false} RunKeepsInv(strict: bool, s: State, run: seq<Label>)
    requires Inv(strict, s) && Legal(strict, s, run)
    ensures Inv(strict, After(strict, s, run))
    decreases |run|
  {
    if run != [] {
      StepKeepsInv(strict, s, run[0]);
      RunKeepsInv(strict, Apply(s, run[0]), run[1..]);
    }
  }

  lemma ReachableInv(strict: bool, s: State)
    requires Reachable(strict, s)
    ensures Inv(strict, s)
  {
    var cpus: nat, run: seq<Label> :| Legal(strict, Init(cpus), run) && After(strict, Init(cpus), run) == s;
    InitInv(strict, cpus);
    RunKeepsInv(strict, Init(cpus), run);
  }

  /** Conservation, for every run whatever: no caller discipline beyond the base guards. */
  lemma ReferencesConserved(s: State)
    requires Reachable(false, s)
    ensures Total(s.rc.pcpu) + Collected(s) + s.rc.countdown == s.live + s.pending
    ensures FullyFrozen(s) ==> s.rc.countdown == s.live + s.pending
  {
    ReachableInv(false, s);
    if FullyFrozen(s) {
      TotalOfFrozen(s.rc.pcpu);
    }
  }

  /** The remaining BUG_ONs: a CPU being thawed is frozen, and freeze.counter never goes below 0. */
  lemma AssertionsHold(s: State, l: Label)
    requires Reachable(false, s) && Enabled(false, s, l)
    ensures l.ThawCpu? ==> s.rc.pcpu[l.cpu].freeze
    ensures l.FreezeCpu? ==> !s.rc.pcpu[l.cpu].freeze
    ensures Apply(s, l).rc.freezes >= 0
    ensures l.UnfreezeBegin? && s.rc.freezes == 1 ==> s.phase == Frozen
  {
    ReachableInv(false, s);
    StepKeepsShape(s, l);
  }

  /** A callback called by a thread of the current epoch finds no live reference, and none on its way down. */
  lemma CallFindsNoReference(s: State, who: Firer)
    requires Reachable(false, s) && who != Straggler && Enabled(false, s, Call(who))
    ensures s.live == 0 && s.pending == 0
    ensures forall cpu :: 0 <= cpu < |s.rc.pcpu| ==> Apply(s, Inc(cpu)) == s
  {
    ReachableInv(false, s);
    TotalOfFrozen(s.rc.pcpu);
  }

  /** Under the strict guard there are no other callers, so every call is safe. */
  lemma StrictCallsAreSafe(s: State, who: Firer)
    requires Reachable(true, s) && Enabled(true, s, Call(who))
    ensures who != Straggler && s.live == 0 && s.pending == 0
  {
    ReachableInv(true, s);
    TotalOfFrozen(s.rc.pcpu);
  }

  /** No callback is called twice, and only registered ones are called. */
  lemma EachCallbackAtMostOnce(s: State, i: nat, j: nat)
    requires Reachable(false, s) && i < |s.fired| && j < |s.fired|
    ensures s.fired[i] < s.nextCb
    ensures s.fired[i] == s.fired[j] <==> i == j
  {
    ReachableInv(false, s);
  }

  /** No wake-up is lost: fully frozen, armed and without references, some thread is on its way to the callback. */
  lemma CallbackNotLost(s: State) returns (run: seq<Label>, who: Firer)
    requires Reachable(false, s)
    requires FullyFrozen(s) && s.rc.armed == ARMED && s.live == 0 && s.pending == 0
    ensures who == if s.committed == 0 && s.freezer == Seen then FirstFreeze else Current
    ensures s.committed > 0 || s.freezer == Seen || s.checking > 0
    ensures run == (if s.committed > 0 || s.freezer == Seen then [] else [RegisterCheck(false)])
                   + [CompareExchange(who), Call(who)]
    ensures Legal(true, s, run) && After(true, s, run).fired == s.fired + [s.rc.pfn]
  {
    ReachableInv(false, s);
    TotalOfFrozen(s.rc.pcpu);
    who := if s.committed == 0 && s.freezer == Seen then FirstFreeze else Current;
    if s.committed == 0 && s.freezer != Seen {
      var t := Apply(s, RegisterCheck(false));
      FireNow(t, who);
      RunCons(true, s, RegisterCheck(false), [CompareExchange(who), Call(who)], After(true, t, [CompareExchange(who), Call(who)]));
      run := [RegisterCheck(false)] + [CompareExchange(who), Call(who)];
    } else {
      FireNow(s, who);
      run := [] + [CompareExchange(who), Call(who)];
      assert run == [CompareExchange(who), Call(who)];
    }
  }

  /** A thread that has seen zero and meets an armed callback calls it. */
  lemma FireNow(s: State, who: Firer)
    requires s.rc.armed == ARMED && Enabled(true, s, CompareExchange(who))
    ensures Legal(true, s, [CompareExchange(who), Call(who)])
    ensures After(true, s, [CompareExchange(who), Call(who)]).fired == s.fired + [s.rc.pfn]
  {
    hide Legal, After;
    TwoSteps(true, s, CompareExchange(who), Call(who));
  }

  /** With no call in progress, a fully frozen counter without references has nothing left to call. */
  lemma QuietMeansFired(s: State)
    requires Reachable(false, s) && FullyFrozen(s) && s.live == 0 && s.pending == 0
    requires s.checking == 0 && s.committed == 0 && s.freezer == Away && Calling(s) == 0 && s.reg.NoOne?
    ensures s.rc.armed == 0 && |s.fired| + s.cancelled == s.nextCb
  {
    ReachableInv(false, s);
    TotalOfFrozen(s.rc.pcpu);
  }

  /** When the last unfreeze disarms, every callback ever registered has been called exactly once. */
  lemma AllFiredByLastUnfreeze(s: State, cb: nat)
    requires Reachable(true, s) && Enabled(true, s, Disarm)
    ensures s.rc.armed == 0 && |s.fired| == s.nextCb
    ensures cb in s.fired <==> cb < s.nextCb
  {
    ReachableInv(true, s);
    Pigeonhole(s.fired, s.nextCb, cb);
  }

  /** `n` distinct numbers below `n` are all the numbers below `n`. */
  lemma Pigeonhole(xs: seq<nat>, n: nat, x: nat)
    requires Distinct(xs) && |xs| == n
    requires forall i :: 0 <= i < |xs| ==> xs[i] < n
    ensures x in xs <==> x < n
  {
    if x < n && x !in xs {
      SizeOfAll(n);
      DistinctFit(xs, AllCpus(n) - {x});
    }
  }

  lemma {:induction false} SizeOfAll(n: nat)
    ensures |AllCpus(n)| == n
  {
    if n > 0 {
      SizeOfAll(n - 1);
    }
  }

  // ---------------------------------------------------------------- what a freeze promises its caller

  /** No CPU accepts a reference. */
  predicate Shut(s: State) {
    forall c :: 0 <= c < |s.rc.pcpu| ==> s.rc.pcpu[c].freeze
  }

  lemma StepWithinEpoch(s: State, l: Label)
    requires Shape(s) && FullyFrozen(s) && Enabled(false, s, l) && l != Disarm
    ensures FullyFrozen(Apply(s, l)) && Shut(Apply(s, l)) && Apply(s, l).live <= s.live
    ensures l.Inc? ==> Apply(s, l) == s
  {
    StepKeepsShape(s, l);
  }

  lemma {:induction false} RunWithinEpoch(s: State, run: seq<Label>)
    requires Inv(false, s) && FullyFrozen(s) && Legal(false, s, run) && Disarm !in run
    ensures FullyFrozen(After(false, s, run)) && Shut(After(false, s, run))
    ensures After(false, s, run).live <= s.live
    decreases |run|
  {
    if run != [] {
      StepWithinEpoch(s, run[0]);
      StepKeepsInv(false, s, run[0]);
      RunWithinEpoch(Apply(s, run[0]), run[1..]);
    }
  }

  /**
   What env_refcnt_freeze promises, made precise. A freeze that finds the counter done initializing
   shuts it: until the last unfreeze no reference can be taken and the live ones only go away.
   */
  lemma FreezeShuts(s: State, run: seq<Label>)
    requires Reachable(false, s) && s.returned > 0 && !s.rc.initializing
    requires Legal(false, s, run) && Disarm !in run
    ensures Shut(After(false, s, run)) && After(false, s, run).live <= s.live
  {
    ReachableInv(false, s);
    RunWithinEpoch(s, run);
  }

  /** env_refcnt_zeroed is decisive: nothing is live, and nothing will be until the last unfreeze. */
  lemma ZeroedIsFinal(s: State, run: seq<Label>)
    requires Reachable(false, s) && Zeroed(s.rc)
    requires Legal(false, s, run) && Disarm !in run
    ensures s.live == 0 && s.pending == 0
    ensures After(false, s, run).live == 0 && Shut(After(false, s, run))
  {
    ReachableInv(false, s);
    TotalOfFrozen(s.rc.pcpu);
    RunWithinEpoch(s, run);
  }

  /** env_refcnt_zeroed answers true exactly if the counter is fully frozen and no reference is held or on its way down. */
  lemma ZeroedIff(s: State)
    requires Reachable(false, s)
    ensures Zeroed(s.rc) <==> s.phase.Frozen? && s.live == 0 && s.pending == 0
  {
    ReachableInv(false, s);
    if s.phase.Frozen? {
      TotalOfFrozen(s.rc.pcpu);
    }
  }

  /** A returned freeze shuts the counter exactly when the first freeze has reached every CPU. */
  lemma ShutIffAllCpusReached(s: State)
    requires Reachable(false, s) && s.returned > 0
    ensures Shut(s) <==> (s.phase.Freezing? ==> s.phase.todo == {})
    ensures !s.rc.initializing ==> Shut(s)
  {
    ReachableInv(false, s);
    if s.phase.Freezing? && s.phase.todo != {} {
      var c :| c in s.phase.todo;
      assert !s.rc.pcpu[c].freeze;
    }
  }

  /** A nested freeze can return while the first is still under way, and then a reference is still handed out. */
  lemma NestedFreezeReturnsEarly() returns (run: seq<Label>)
    ensures run == [FreezeBegin, FreezeBegin]
    ensures Legal(true, Init(1), run)
    ensures After(true, Init(1), run).returned == 1
    ensures Enabled(true, After(true, Init(1), run), Inc(0))
    ensures Apply(After(true, Init(1), run), Inc(0)).live == 1
  {
    run := [FreezeBegin, FreezeBegin];
    assert run[1..] == [FreezeBegin] && run[1..][1..] == [];
    var s1 := Apply(Init(1), FreezeBegin);
    var s2 := Apply(s1, FreezeBegin);
    assert After(true, s1, run[1..]) == s2;
  }

  // ---------------------------------------------------------------- stragglers

  /** Threads still between arming a callback, or seeing zero, and their own call. */
  function Stragglers(s: State): nat {
    s.checking + s.committed + s.winners + s.staleChecking + s.staleCommitted + s.staleWinners
  }

  lemma {:induction false} ThawAll(s: State) returns (run: seq<Label>)
    requires Inv(false, s) && s.phase.Thawing?
    ensures Disarm !in run && Legal(false, s, run)
    ensures After(false, s, run) == s.(phase := Idle, rc := After(false, s, run).rc)
    ensures After(false, s, run).rc == s.rc.(pcpu := After(false, s, run).rc.pcpu)
    ensures |After(false, s, run).rc.pcpu| == |s.rc.pcpu|
    decreases |s.phase.todo|
  {
    if s.phase.todo == {} {
      run := [ThawFinish];
      assert run[1..] == [];
    } else {
      var c :| c in s.phase.todo;
      StepKeepsInv(false, s, ThawCpu(c));
      var rest := ThawAll(Apply(s, ThawCpu(c)));
      RunCons(false, s, ThawCpu(c), rest, After(false, Apply(s, ThawCpu(c)), rest));
      run := [ThawCpu(c)] + rest;
    }
  }

  /** With a live reference left the freezing thread does not see zero, and the freeze returns. */
  lemma {:induction false} FreezeAll(s: State) returns (run: seq<Label>)
    requires Inv(false, s) && s.phase.Freezing? && s.live > 0
    ensures Disarm !in run && Legal(false, s, run)
    ensures var t := After(false, s, run);
            t == s.(phase := Frozen, returned := s.returned + 1, rc := t.rc)
            && t.rc.armed == s.rc.armed && |t.rc.pcpu| == |s.rc.pcpu|
    decreases |s.phase.todo|
  {
    if s.phase.todo == {} {
      TotalOfFrozen(s.rc.pcpu);
      run := [FreezeFinish];
      assert run[1..] == [];
    } else {
      var c :| c in s.phase.todo;
      StepKeepsInv(false, s, FreezeCpu(c));
      var rest := FreezeAll(Apply(s, FreezeCpu(c)));
      RunCons(false, s, FreezeCpu(c), rest, After(false, Apply(s, FreezeCpu(c)), rest));
      run := [FreezeCpu(c)] + rest;
    }
  }

  /** A run that stays within one epoch and ends with a callback about to be called over a live reference. */
  ghost predicate Endangers(s: State, run: seq<Label>) {
    && Legal(false, s, run) && Disarm !in run
    && var t := After(false, s, run); t.live > 0 && Calling(t) > 0
  }

  lemma EndangersAfter(s: State, a: seq<Label>, b: seq<Label>)
    requires Legal(false, s, a) && Disarm !in a && Endangers(After(false, s, a), b)
    ensures Endangers(s, a + b)
  {
    hide Legal, After;
    RunCompose(false, s, a, b);
  }

  /** A thread left over from the previous epoch meets a fresh registration and a fresh reference. */
  lemma StragglerRun(t: State) returns (run: seq<Label>)
    requires Inv(false, t) && t.phase.Thawing? && t.phase.todo == AllCpus(|t.rc.pcpu|) && |t.rc.pcpu| > 0
    requires t.staleChecking + t.staleCommitted + t.staleWinners > 0
    requires t.rc.armed == 0 && t.winners == 0 && t.rc.countdown == 0
    ensures Endangers(t, run)
  {
    hide Legal, After;
    if t.staleWinners > 0 {
      TwoSteps(false, t, ThawCpu(0), Inc(0));
      run := [ThawCpu(0), Inc(0)];
    } else if t.staleCommitted > 0 {
      run := CommittedRun(t);
    } else {
      var check := RegisterCheck(true);
      StepKeepsInv(false, t, check);
      NoStep(false, Apply(t, check));
      RunCons(false, t, check, [], Apply(t, check));
      var rest := CommittedRun(Apply(t, check));
      EndangersAfter(t, [check] + [], rest);
      run := [check] + [] + rest;
    }
  }

  lemma CommittedRun(t: State) returns (run: seq<Label>)
    requires Inv(false, t) && t.phase.Thawing? && |t.rc.pcpu| > 0
    requires t.staleCommitted > 0 && t.staleWinners == 0 && t.rc.armed == 0 && t.winners == 0
    ensures Endangers(t, run)
  {
    hide Legal, After;
    var thaw := ThawAll(t);
    var u := After(false, t, thaw);
    RunKeepsInv(false, t, thaw);
    var refreeze := Refreeze(u);
    RunKeepsInv(false, u, refreeze);
    var meet := MeetStraggler(After(false, u, refreeze));
    EndangersAfter(u, refreeze, meet);
    EndangersAfter(t, thaw, refreeze + meet);
    run := thaw + (refreeze + meet);
  }

  /** A reference is taken and the counter is frozen over it. */
  lemma Refreeze(u: State) returns (run: seq<Label>)
    requires Inv(false, u) && u.phase.Idle? && |u.rc.pcpu| > 0
    ensures Legal(false, u, run) && Disarm !in run
    ensures var v := After(false, u, run);
            v == u.(phase := Frozen, returned := 1, live := u.live + 1, rc := v.rc) && v.rc.armed == u.rc.armed
  {
    hide Legal, After;
    var u1 := Apply(u, Inc(0));
    StepKeepsInv(false, u, Inc(0));
    var u2 := Apply(u1, FreezeBegin);
    StepKeepsInv(false, u1, FreezeBegin);
    var rest := FreezeAll(u2);
    var v := After(false, u2, rest);
    RunCons(false, u1, FreezeBegin, rest, v);
    RunCons(false, u, Inc(0), [FreezeBegin] + rest, v);
    run := [Inc(0)] + ([FreezeBegin] + rest);
  }

  /** A callback is registered by the rules, and the straggler takes it. */
  lemma MeetStraggler(v: State) returns (run: seq<Label>)
    requires OneShot(v) && v.returned > 0 && v.live > 0 && v.staleCommitted > 0 && Calling(v) == 0 && v.rc.armed == 0
    ensures run == [RegisterClaim, RegisterStore, RegisterArm, CompareExchange(Straggler)] && Endangers(v, run)
    ensures After(false, v, run).live == v.live && After(false, v, run).staleWinners == v.staleWinners + 1
  {
    hide Legal, After;
    TwoSteps(false, v, RegisterClaim, RegisterStore);
    var w := Apply(Apply(v, RegisterClaim), RegisterStore);
    TwoSteps(false, w, RegisterArm, CompareExchange(Straggler));
    RunCompose(false, v, [RegisterClaim, RegisterStore], [RegisterArm, CompareExchange(Straggler)]);
    run := [RegisterClaim, RegisterStore, RegisterArm, CompareExchange(Straggler)];
    assert run == [RegisterClaim, RegisterStore] + [RegisterArm, CompareExchange(Straggler)];
  }

  lemma {:induction false} NoStragglersStayNone(s: State, run: seq<Label>)
    requires s.staleChecking == 0 && s.staleCommitted == 0 && s.staleWinners == 0
    requires Legal(false, s, run) && Disarm !in run
    ensures After(false, s, run).staleWinners == 0
    decreases |run|
  {
    if run != [] {
      NoStragglersStayNone(Apply(s, run[0]), run[1..]);
    }
  }

  /**
   The strict guard is exactly what safety of the callback needs. Look at the state in which the last
   unfreeze disarms: a callback can be called over a live reference before the next one does if and
   only if some thread is between arming or seeing zero and its own call at that moment.
   */
  lemma UnsafeIffStraggler(s: State)
    requires Reachable(false, s) && Enabled(false, s, Disarm) && |s.rc.pcpu| > 0
    ensures (exists run :: Endangers(Apply(s, Disarm), run)) <==> Stragglers(s) > 0
  {
    ReachableInv(false, s);
    StepKeepsInv(false, s, Disarm);
    var t := Apply(s, Disarm);
    if Stragglers(s) > 0 {
      var run := StragglerRun(t);
      assert Endangers(t, run);
    } else {
      forall run | Legal(false, t, run) && Disarm !in run
        ensures !Endangers(t, run)
      {
        NoStragglersStayNone(t, run);
        RunKeepsInv(false, t, run);
        if FullyFrozen(After(false, t, run)) {
          TotalOfFrozen(After(false, t, run).rc.pcpu);
        }
      }
    }
  }

  // ---------------------------------------------------------------- a straggler, step by step

  /** One CPU, `k` threads left behind in as many epochs, and else only what is given. */
  function OneCpu(rc: Refcnt, phase: Phase, live: nat, returned: nat, committed: nat, k: nat): State {
    State(rc, phase, live, 0, returned, 0, committed, 0, 0, k, 0, Away, NoOne, 0, [], 0, k)
  }

  function Rested(k: nat): State {
    OneCpu(Refcnt([Pcpu(0, false)], 0, 0, false, 0, 0), Idle, 0, 0, 0, k)
  }

  /** Frozen over one live reference. */
  function Held(k: nat): State {
    OneCpu(Refcnt([Pcpu(1, true)], 1, 1, false, 0, 0), Frozen, 1, 1, 0, k)
  }

  lemma FirstCpu()
    ensures AllCpus(1) == {0}
  {
    assert AllCpus(0) == {};
  }

  lemma FreezeOver(k: nat)
    ensures Leads(false, Rested(k), [Inc(0), FreezeBegin, FreezeCpu(0), FreezeFinish], Held(k))
  {
    hide Legal, After, AllCpus;
    FirstCpu();
    TwoSteps(false, Rested(k), Inc(0), FreezeBegin);
    var s := OneCpu(Refcnt([Pcpu(1, false)], 1, 0, true, 0, 0), Freezing({0}, 0), 1, 0, 0, k);
    assert Apply(Apply(Rested(k), Inc(0)), FreezeBegin) == s;
    TwoSteps(false, s, FreezeCpu(0), FreezeFinish);
    RunCompose(false, Rested(k), [Inc(0), FreezeBegin], [FreezeCpu(0), FreezeFinish]);
    assert [Inc(0), FreezeBegin] + [FreezeCpu(0), FreezeFinish] == [Inc(0), FreezeBegin, FreezeCpu(0), FreezeFinish];
  }

  /** The holder has dropped its reference and seen zero. */
  function Dropped(k: nat): State {
    OneCpu(Refcnt([Pcpu(1, true)], 1, 0, false, 0, 0), Frozen, 0, 1, 1, k)
  }

  lemma DropLast(k: nat)
    ensures Leads(false, Held(k), [DecOnCpu(0), DecCountdown], Dropped(k))
  {
    hide Legal, After, AllCpus;
    TwoSteps(false, Held(k), DecOnCpu(0), DecCountdown);
  }

  /** The last unfreeze has overtaken it. */
  function Disarmed(k: nat): State {
    OneCpu(Refcnt([Pcpu(1, true)], 0, 0, false, 0, 0), Thawing({0}), 0, 0, 0, k + 1)
  }

  lemma ReleaseOver(k: nat)
    ensures Leads(false, Dropped(k), [UnfreezeBegin, Disarm], Disarmed(k))
  {
    hide Legal, After, AllCpus;
    FirstCpu();
    TwoSteps(false, Dropped(k), UnfreezeBegin, Disarm);
  }

  lemma ThawOver(k: nat)
    ensures Leads(false, Disarmed(k), [ThawCpu(0), ThawFinish], Rested(k + 1))
  {
    hide Legal, After, AllCpus;
    FirstCpu();
    TwoSteps(false, Disarmed(k), ThawCpu(0), ThawFinish);
  }

  /**
   From the start, by callers that keep every rule of the header: a decrement is overtaken by the
   unfreeze after its zero test, then takes a callback registered in the next freeze and is about to
   call it over a reference that is still held.
   */
  lemma CallOverLiveReference() returns (run: seq<Label>)
    ensures run == [Inc(0), FreezeBegin, FreezeCpu(0), FreezeFinish]
                   + [DecOnCpu(0), DecCountdown] + [UnfreezeBegin, Disarm] + [ThawCpu(0), ThawFinish]
                   + [Inc(0), FreezeBegin, FreezeCpu(0), FreezeFinish]
                   + [RegisterClaim, RegisterStore, RegisterArm, CompareExchange(Straggler)]
    ensures Legal(false, Init(1), run)
    ensures var t := After(false, Init(1), run);
            t.live == 1 && t.staleWinners == 1 && Enabled(false, t, Call(Straggler))
  {
    hide Legal, After, AllCpus, Apply;
    assert Init(1) == Rested(0);
    var freeze := [Inc(0), FreezeBegin, FreezeCpu(0), FreezeFinish];
    var drop := [DecOnCpu(0), DecCountdown];
    var release := [UnfreezeBegin, Disarm];
    var thaw := [ThawCpu(0), ThawFinish];
    FreezeOver(0);
    DropLast(0);
    RunCompose(false, Rested(0), freeze, drop);
    ReleaseOver(0);
    RunCompose(false, Rested(0), freeze + drop, release);
    ThawOver(0);
    RunCompose(false, Rested(0), freeze + drop + release, thaw);
    FreezeOver(1);
    RunCompose(false, Rested(0), freeze + drop + release + thaw, freeze);
    var meet := MeetStraggler(Held(1));
    RunCompose(false, Rested(0), freeze + drop + release + thaw + freeze, meet);
    run := freeze + drop + release + thaw + freeze + meet;
  }
}
