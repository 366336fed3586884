/**
 Device numbers of exported objects while several threads create and dismantle. Creating takes the lowest
 free minor slot and then registers the disk; when it fails it withdraws the disk before it frees the slot.
 Dismantling frees the slot first and withdraws the disk afterwards.
 */
module MinorSlots {
  import opened Basics

  /**
   - `Taken`: has a slot, its disk is not added yet
   - `Live`: has a slot and a registered disk
   - `Undone`: has a slot, its disk was withdrawn by a failing create
   - `Leaving`: being dismantled, its slot free again and its disk still registered
   - `Gone`: has neither
   */
  datatype Stage = Taken | Live | Undone | Leaving | Gone

  datatype Object = Object(slot: nat, stage: Stage)

  /** The slots in use and every object there ever was. */
  datatype State = State(used: set<nat>, objs: seq<Object>)

  datatype Label =
    | Take
    | Add(o: nat)
    | Undo(o: nat)
    | Drop(o: nat)
    | Dismantle(o: nat)
    | Delete(o: nat)

  const INITIAL := State({}, [])

  /** ida_alloc_max: the lowest slot from `from` on that is not in use. */
  function Lowest(used: set<nat>, from: nat, max: nat): (r: Option<nat>)
    ensures r.Some? ==> from <= r.value <= max && r.value !in used
    ensures forall k: nat :: from <= k <= max && (r.None? || k < r.value) ==> k in used
    decreases max + 1 - from
  {
    if from > max then None
    else if from !in used then Some(from)
    else Lowest(used, from + 1, max)
  }

  predicate At(s: State, o: nat, stage: Stage) {
    o < |s.objs| && s.objs[o].stage == stage
  }

  predicate Dismantling(s: State) {
    exists o :: 0 <= o < |s.objs| && s.objs[o].stage == Leaving
  }

  /** With `serial` set no create takes a slot while an object is being dismantled. */
  predicate Enabled(serial: bool, max: nat, s: State, l: Label) {
    match l
    case Take => Lowest(s.used, 0, max).Some? && (serial ==> !Dismantling(s))
    case Add(o) => At(s, o, Taken)
    case Undo(o) => At(s, o, Live)
    case Drop(o) => At(s, o, Taken) || At(s, o, Undone)
    case Dismantle(o) => At(s, o, Live)
    case Delete(o) => At(s, o, Leaving)
  }

  function Move(s: State, o: nat, stage: Stage): State
    requires o < |s.objs|
  {
    s.(objs := s.objs[o := s.objs[o].(stage := stage)])
  }

  function Apply(max: nat, s: State, l: Label): State
    requires Enabled(false, max, s, l)
  {
    match l
    case Take =>
      var slot := Lowest(s.used, 0, max).value;
      State(s.used + {slot}, s.objs + [Object(slot, Taken)])
    case Add(o) => Move(s, o, Live)
    case Undo(o) => Move(s, o, Undone)
    case Drop(o) => Move(s, o, Gone).(used := s.used - {s.objs[o].slot})
    case Dismantle(o) => Move(s, o, Leaving).(used := s.used - {s.objs[o].slot})
    case Delete(o) => Move(s, o, Gone)
  }

  predicate Legal(serial: bool, max: nat, s: State, run: seq<Label>)
    decreases |run|
  {
    run == [] || (Enabled(serial, max, s, run[0]) && Enabled(false, max, s, run[0])
                  && Legal(serial, max, Apply(max, s, run[0]), run[1..]))
  }

  function After(serial: bool, max: nat, s: State, run: seq<Label>): State
    requires Legal(serial, max, s, run)
    decreases |run|
  {
    if run == [] then s else After(serial, max, Apply(max, s, run[0]), run[1..])
  }

  ghost predicate Reachable(serial: bool, max: nat, s: State) {
    exists run: seq<Label> :: Legal(serial, max, INITIAL, run) && After(serial, max, INITIAL, run) == s
  }

  // ---------------------------------------------------------------- what every step keeps

  predicate HasSlot(o: Object) {
    o.stage == Taken || o.stage == Live || o.stage == Undone
  }

  predicate Registered(o: Object) {
    o.stage == Live || o.stage == Leaving
  }

  ghost predicate Owned(s: State, slot: nat) {
    exists i :: 0 <= i < |s.objs| && HasSlot(s.objs[i]) && s.objs[i].slot == slot
  }

  /** The slots in use are those of the objects that have one, each of a different object. */
  ghost predicate SlotsOk(max: nat, s: State) {
    && (forall i :: 0 <= i < |s.objs| ==> s.objs[i].slot <= max && (HasSlot(s.objs[i]) ==> s.objs[i].slot in s.used))
    && (forall k :: k in s.used ==> Owned(s, k))
    && (forall i, j :: 0 <= i < j < |s.objs| && HasSlot(s.objs[i]) && HasSlot(s.objs[j]) ==>
          s.objs[i].slot != s.objs[j].slot)
  }

  /** No two registered disks have the same device number. */
  ghost predicate NumbersDiffer(s: State) {
    forall i, j :: 0 <= i < j < |s.objs| && Registered(s.objs[i]) && Registered(s.objs[j]) ==>
      s.objs[i].slot != s.objs[j].slot
  }

  /** What keeps it so: no object at all shares its slot with one that is being dismantled. */
  ghost predicate Apart(s: State) {
    forall i, j :: 0 <= i < |s.objs| && 0 <= j < |s.objs| && i != j && s.objs[i].stage == Leaving && s.objs[j].stage != Gone ==>
      s.objs[i].slot != s.objs[j].slot
  }

  lemma {:induction false} TakeKeepsSlots(max: nat, s: State)
    requires SlotsOk(max, s) && Enabled(false, max, s, Take)
    ensures SlotsOk(max, Apply(max, s, Take))
  {
    var t := Apply(max, s, Take);
    forall k | k in t.used
      ensures Owned(t, k)
    {
      if k in s.used {
        assert Owned(s, k);
        var i :| 0 <= i < |s.objs| && HasSlot(s.objs[i]) && s.objs[i].slot == k;
        assert t.objs[i] == s.objs[i];
      } else {
        assert t.objs[|s.objs|].slot == k;
      }
    }
  }

  lemma {:induction false} MoveKeepsSlots(max: nat, s: State, o: nat, stage: Stage)
    requires SlotsOk(max, s) && o < |s.objs| && HasSlot(s.objs[o]) == HasSlot(s.objs[o].(stage := stage))
    ensures SlotsOk(max, Move(s, o, stage))
  {
    var t := Move(s, o, stage);
    forall k | k in t.used
      ensures Owned(t, k)
    {
      assert Owned(s, k);
      var i :| 0 <= i < |s.objs| && HasSlot(s.objs[i]) && s.objs[i].slot == k;
      assert HasSlot(t.objs[i]) && t.objs[i].slot == k;
    }
  }

  lemma {:induction false} FreeKeepsSlots(max: nat, s: State, o: nat, stage: Stage)
    requires SlotsOk(max, s) && o < |s.objs| && HasSlot(s.objs[o]) && !HasSlot(s.objs[o].(stage := stage))
    ensures SlotsOk(max, Move(s, o, stage).(used := s.used - {s.objs[o].slot}))
  {
    var t := Move(s, o, stage).(used := s.used - {s.objs[o].slot});
    forall k | k in t.used
      ensures Owned(t, k)
    {
      assert Owned(s, k);
      var i :| 0 <= i < |s.objs| && HasSlot(s.objs[i]) && s.objs[i].slot == k;
      assert i != o && t.objs[i] == s.objs[i];
    }
  }

  lemma StepKeepsSlots(max: nat, s: State, l: Label)
    requires SlotsOk(max, s) && Enabled(false, max, s, l)
    ensures SlotsOk(max, Apply(max, s, l))
  {
    hide SlotsOk, Move;
    match l
    case Take => TakeKeepsSlots(max, s);
    case Add(o) => MoveKeepsSlots(max, s, o, Live);
    case Undo(o) => MoveKeepsSlots(max, s, o, Undone);
    case Drop(o) => FreeKeepsSlots(max, s, o, Gone);
    case Dismantle(o) => FreeKeepsSlots(max, s, o, Leaving);
    case Delete(o) => MoveKeepsSlots(max, s, o, Gone);
  }

  lemma StepKeepsApart(max: nat, s: State, l: Label)
    requires SlotsOk(max, s) && Apart(s) && Enabled(true, max, s, l)
    ensures Apart(Apply(max, s, l))
  {
  }

  lemma {:induction false} RunKeeps(serial: bool, max: nat, s: State, run: seq<Label>)
    requires SlotsOk(max, s) && (serial ==> Apart(s)) && Legal(serial, max, s, run)
    ensures SlotsOk(max, After(serial, max, s, run)) && (serial ==> Apart(After(serial, max, s, run)))
    decreases |run|
  {
    if run != [] {
      StepKeepsSlots(max, s, run[0]);
      if serial {
        StepKeepsApart(max, s, run[0]);
      }
      RunKeeps(serial, max, Apply(max, s, run[0]), run[1..]);
    }
  }

  // ---------------------------------------------------------------- results

  /** If no create takes a slot while an object is being dismantled, registered disks always have different numbers. */
  lemma SerialNumbersDiffer(max: nat, s: State)
    requires Reachable(true, max, s)
    ensures NumbersDiffer(s)
  {
    var run: seq<Label> :| Legal(true, max, INITIAL, run) && After(true, max, INITIAL, run) == s;
    RunKeeps(true, max, INITIAL, run);
  }

  /** A run in which no further dismantling starts, and at the end of which two registered disks share a number. */
  ghost predicate Collides(max: nat, s: State, run: seq<Label>) {
    && Legal(false, max, s, run) && !NumbersDiffer(After(false, max, s, run))
    && forall i :: 0 <= i < |run| ==> !run[i].Dismantle?
  }

  lemma CollidesLater(max: nat, s: State, l: Label, run: seq<Label>)
    requires Enabled(false, max, s, l) && !l.Dismantle? && Collides(max, Apply(max, s, l), run)
    ensures Collides(max, s, [l] + run)
  {
    hide Enabled, Apply, NumbersDiffer;
    assert ([l] + run)[1..] == run;
  }

  lemma {:induction false} NoneStarts(max: nat, s: State, run: seq<Label>)
    requires SlotsOk(max, s) && !Dismantling(s) && Legal(false, max, s, run)
    requires forall i :: 0 <= i < |run| ==> !run[i].Dismantle?
    ensures NumbersDiffer(After(false, max, s, run))
    decreases |run|
  {
    if run != [] {
      StepKeepsSlots(max, s, run[0]);
      assert run[0] in run;
      NoneStarts(max, Apply(max, s, run[0]), run[1..]);
    }
  }

  /** Registering over an object that is being dismantled. */
  lemma AddCollides(max: nat, s: State, o: nat, p: nat) returns (run: seq<Label>)
    requires At(s, o, Leaving) && At(s, p, Taken) && s.objs[o].slot == s.objs[p].slot
    ensures Collides(max, s, run)
  {
    var t := Apply(max, s, Add(p));
    var i, j := if o < p then o else p, if o < p then p else o;
    assert Registered(t.objs[i]) && Registered(t.objs[j]) && t.objs[i].slot == t.objs[j].slot;
    assert Collides(max, t, []);
    CollidesLater(max, s, Add(p), []);
    run := [Add(p)] + [];
  }

  /** Slots are handed out from below, so creating goes on until the freed one comes up again. */
  lemma {:induction false} TakeUntil(max: nat, s: State, o: nat, from: nat) returns (run: seq<Label>)
    requires At(s, o, Leaving) && s.objs[o].slot <= max && s.objs[o].slot !in s.used
    requires from <= s.objs[o].slot && forall k: nat :: k < from ==> k in s.used
    ensures Collides(max, s, run)
    decreases s.objs[o].slot - from
  {
    if from in s.used {
      run := TakeUntil(max, s, o, from + 1);
    } else {
      assert Lowest(s.used, 0, max) == Some(from);
      var t := Apply(max, s, Take);
      var rest;
      if from == s.objs[o].slot {
        rest := AddCollides(max, t, o, |s.objs|);
      } else {
        rest := TakeUntil(max, t, o, from + 1);
      }
      CollidesLater(max, s, Take, rest);
      run := [Take] + rest;
    }
  }

  lemma LeavingCollides(max: nat, s: State, o: nat) returns (run: seq<Label>)
    requires SlotsOk(max, s) && At(s, o, Leaving)
    ensures Collides(max, s, run)
  {
    var slot := s.objs[o].slot;
    if slot !in s.used {
      run := TakeUntil(max, s, o, 0);
    } else {
      assert Owned(s, slot);
      var p :| 0 <= p < |s.objs| && HasSlot(s.objs[p]) && s.objs[p].slot == slot;
      if s.objs[p].stage == Taken {
        run := AddCollides(max, s, o, p);
      } else if s.objs[p].stage == Live {
        var i, j := if o < p then o else p, if o < p then p else o;
        assert Registered(s.objs[i]) && Registered(s.objs[j]) && s.objs[i].slot == s.objs[j].slot;
        run := [];
        assert Collides(max, s, run);
      } else {
        var t := Apply(max, s, Drop(p));
        var rest := TakeUntil(max, t, o, 0);
        CollidesLater(max, s, Drop(p), rest);
        run := [Drop(p)] + rest;
      }
    }
  }

  /** The shortest such run from the start: the second create gets the number of the disk that is still there. */
  lemma NumberIsReused(max: nat)
    ensures Legal(false, max, INITIAL, [Take, Add(0), Dismantle(0)])
    ensures Collides(max, After(false, max, INITIAL, [Take, Add(0), Dismantle(0)]), [Take, Add(1)])
  {
    var s1 := State({0}, [Object(0, Taken)]);
    var s2 := State({0}, [Object(0, Live)]);
    var s3 := State({}, [Object(0, Leaving)]);
    assert Apply(max, INITIAL, Take) == s1 && Apply(max, s1, Add(0)) == s2 && Apply(max, s2, Dismantle(0)) == s3;
    var start := [Take, Add(0), Dismantle(0)];
    assert start[1..] == [Add(0), Dismantle(0)] && start[1..][1..] == [Dismantle(0)];
    assert Legal(false, max, s2, [Dismantle(0)]) && After(false, max, s2, [Dismantle(0)]) == s3;
    assert Legal(false, max, s1, start[1..]) && After(false, max, s1, start[1..]) == s3;
    var s4 := State({0}, [Object(0, Leaving), Object(0, Taken)]);
    assert Apply(max, s3, Take) == s4;
    var t := Apply(max, s4, Add(1));
    assert Registered(t.objs[0]) && Registered(t.objs[1]) && t.objs[0].slot == t.objs[1].slot;
    assert Collides(max, t, []);
    CollidesLater(max, s4, Add(1), []);
    CollidesLater(max, s3, Take, [Add(1)] + []);
    assert [Take] + ([Add(1)] + []) == [Take, Add(1)];
  }

  /**
   The order of the two steps of dismantling is what matters: in any reachable state two registered disks can
   come to share a number, without another dismantling, if and only if some object is between the two.
   */
  lemma CollisionIffDismantling(max: nat, s: State)
    requires Reachable(false, max, s)
    ensures (exists run :: Collides(max, s, run)) <==> Dismantling(s)
  {
    var past: seq<Label> :| Legal(false, max, INITIAL, past) && After(false, max, INITIAL, past) == s;
    RunKeeps(false, max, INITIAL, past);
    if Dismantling(s) {
      var o: nat :| o < |s.objs| && s.objs[o].stage == Leaving;
      var run := LeavingCollides(max, s, o);
      assert Collides(max, s, run);
    } else {
      forall run: seq<Label> | Legal(false, max, s, run) && forall i :: 0 <= i < |run| ==> !run[i].Dismantle?
        ensures !Collides(max, s, run)
      {
        NoneStarts(max, s, run);
      }
    }
  }
}
