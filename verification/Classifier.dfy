/**
 The I/O classifier: evaluation of a rule, the ordered rule list, and classification.
 What a condition other than "done" answers about the I/O at hand is left to a `Probe`; it may depend on
 the class found so far, as the "io_class" condition does.
 */
module Classifier {
  import opened Basics

  /** How a condition combines with those before it. */
  datatype LogicalOp = And | Or

  /** A test by its token and operand, e.g. file_size and lt:4096. */
  datatype Condition = Condition(token: string, operand: Option<string>, lOp: LogicalOp)

  datatype Rule = Rule(partId: nat, conditions: seq<Condition>)

  datatype Eval = Eval(yes: bool, stop: bool)

  /** The answer of a test, given the class found so far. */
  type Probe = (string, Option<string>, nat) -> bool

  predicate IsDone(c: Condition) { c.token == "done" }

  function Test(c: Condition, io: Probe, partId: nat): Eval {
    if IsDone(c) then Eval(true, true) else Eval(io(c.token, c.operand, partId), false)
  }

  // ---------------------------------------------------------------- one rule

  /** The loop of cas_cls_process_rule from a given accumulator on. */
  function Process(cs: seq<Condition>, ret: Eval, io: Probe, partId: nat): Eval {
    if cs == [] then ret
    else if !ret.yes && cs[0].lOp == And then ret
    else
      var rr := Test(cs[0], io, partId);
      var next := Eval(if cs[0].lOp == And then rr.yes && ret.yes else rr.yes || ret.yes, rr.stop);
      if next.stop then next else Process(cs[1..], next, io, partId)
  }

  method ProcessRule(r: Rule, io: Probe, partId: nat) returns (ret: Eval)
    ensures ret == Process(r.conditions, Eval(false, false), io, partId)
  {
    ret := Eval(false, false);
    ghost var goal := Process(r.conditions, ret, io, partId);
    var cs := r.conditions;
    for i := 0 to |cs|
      invariant Process(cs[i..], ret, io, partId) == goal
    {
      var c := cs[i];
      assert cs[i..][0] == c && cs[i..][1..] == cs[i + 1..];
      if !ret.yes && c.lOp == And {
        return;
      }
      var rr := Test(c, io, partId);
      ret := Eval(if c.lOp == And then rr.yes && ret.yes else rr.yes || ret.yes, rr.stop);
      if ret.stop {
        return;
      }
    }
  }

  /** What the rule text says: the conditions folded from left to right, nothing skipped. */
  function Fold(cs: seq<Condition>, io: Probe, partId: nat): bool {
    if cs == [] then false
    else
      var front, c := cs[..|cs| - 1], cs[|cs| - 1];
      var yes := Test(c, io, partId).yes;
      if c.lOp == And then yes && Fold(front, io, partId) else yes || Fold(front, io, partId)
  }

  /** An "and" whose left side is already false: the code gives up there. */
  predicate DeadEnd(cs: seq<Condition>, k: nat, io: Probe, partId: nat)
    requires k < |cs|
  {
    cs[k].lOp == And && !Fold(cs[..k], io, partId)
  }

  ghost predicate NoDeadEnd(cs: seq<Condition>, io: Probe, partId: nat) {
    forall k :: 0 <= k < |cs| ==> !DeadEnd(cs, k, io, partId)
  }

  predicate NoDone(cs: seq<Condition>) {
    forall k :: 0 <= k < |cs| ==> !IsDone(cs[k])
  }

  /** Up to k nothing has ended the loop, and the accumulator is the fold of the first k conditions. */
  lemma {:induction false} ProcessFrom(cs: seq<Condition>, k: nat, io: Probe, partId: nat)
    requires k <= |cs| && NoDone(cs[..k])
    requires forall j :: 0 <= j < k ==> !DeadEnd(cs, j, io, partId)
    ensures Process(cs, Eval(false, false), io, partId)
            == Process(cs[k..], Eval(Fold(cs[..k], io, partId), false), io, partId)
    decreases k
  {
    if k == 0 {
      assert cs[0..] == cs;
    } else {
      var c := cs[k - 1];
      assert cs[..k][..k - 1] == cs[..k - 1];
      assert cs[..k][k - 1] == c && !IsDone(c);
      ProcessFrom(cs, k - 1, io, partId);
      assert cs[k - 1..][0] == c && cs[k - 1..][1..] == cs[k..];
      assert !DeadEnd(cs, k - 1, io, partId);
    }
  }

  /** The first dead end at or after k, or the length if there is none. */
  function FirstDeadEnd(cs: seq<Condition>, k: nat, io: Probe, partId: nat): (f: nat)
    requires k <= |cs|
    ensures k <= f <= |cs|
    ensures f < |cs| ==> DeadEnd(cs, f, io, partId)
    ensures forall j :: k <= j < f ==> !DeadEnd(cs, j, io, partId)
    decreases |cs| - k
  {
    if k == |cs| || DeadEnd(cs, k, io, partId) then k else FirstDeadEnd(cs, k + 1, io, partId)
  }

  lemma {:induction false} DeadEndIsNo(cs: seq<Condition>, io: Probe, partId: nat)
    requires var k := FirstDeadEnd(cs, 0, io, partId); k < |cs| && NoDone(cs[..k])
    ensures Process(cs, Eval(false, false), io, partId) == Eval(false, false)
  {
    var k := FirstDeadEnd(cs, 0, io, partId);
    ProcessFrom(cs, k, io, partId);
    assert cs[k..][0] == cs[k];
  }

  /** Without "done", a rule matches exactly when its fold is true and no "and" found its left side false. */
  lemma {:induction false} MatchIffFold(cs: seq<Condition>, io: Probe, partId: nat)
    requires NoDone(cs)
    ensures var ret := Process(cs, Eval(false, false), io, partId);
            !ret.stop && (ret.yes <==> Fold(cs, io, partId) && NoDeadEnd(cs, io, partId))
  {
    if NoDeadEnd(cs, io, partId) {
      assert cs[..|cs|] == cs && cs[|cs|..] == [];
      ProcessFrom(cs, |cs|, io, partId);
    } else {
      DeadEndIsNo(cs, io, partId);
    }
  }

  /** A rule that reaches "done" matches and stops; one that meets a dead end first does neither. */
  lemma {:induction false} DoneStops(pre: seq<Condition>, done: Condition, post: seq<Condition>, io: Probe, partId: nat)
    requires NoDone(pre) && IsDone(done)
    ensures var cs := pre + [done] + post;
            Process(cs, Eval(false, false), io, partId)
            == if NoDeadEnd(pre + [done], io, partId) then Eval(true, true) else Eval(false, false)
  {
    var cs, head := pre + [done] + post, pre + [done];
    forall j | 0 <= j <= |pre|
      ensures DeadEnd(cs, j, io, partId) == DeadEnd(head, j, io, partId)
    {
      assert cs[..j] == head[..j] && cs[j] == head[j];
    }
    assert cs[..|pre|] == pre;
    if NoDeadEnd(head, io, partId) {
      ProcessFrom(cs, |pre|, io, partId);
      assert cs[|pre|..][0] == done && !DeadEnd(cs, |pre|, io, partId);
    } else {
      assert DeadEnd(cs, FirstDeadEnd(head, 0, io, partId), io, partId);
      var k := FirstDeadEnd(cs, 0, io, partId);
      assert k <= |pre| && NoDone(cs[..k]);
      DeadEndIsNo(cs, io, partId);
    }
  }

  /** For every rule, stopping implies matching. */
  lemma {:induction false} StopImpliesMatch(cs: seq<Condition>, ret: Eval, io: Probe, partId: nat)
    requires ret.stop ==> ret.yes
    ensures var r := Process(cs, ret, io, partId); r.stop ==> r.yes
    decreases |cs|
  {
    if cs != [] && !(!ret.yes && cs[0].lOp == And) {
      var rr := Test(cs[0], io, partId);
      var next := Eval(if cs[0].lOp == And then rr.yes && ret.yes else rr.yes || ret.yes, rr.stop);
      StopImpliesMatch(cs[1..], next, io, partId);
    }
  }

  // ---------------------------------------------------------------- when skipping is harmless

  predicate OrAfterAnd(cs: seq<Condition>, i: nat, j: nat) {
    i < j < |cs| && cs[i].lOp == And && cs[j].lOp == Or
  }

  ghost predicate NoOrAfterAnd(cs: seq<Condition>) {
    forall i: nat, j: nat :: !OrAfterAnd(cs, i, j)
  }

  /** A false left side stays false under "and" alone. */
  lemma {:induction false} OnlyAndsStayFalse(cs: seq<Condition>, k: nat, n: nat, io: Probe, partId: nat)
    requires k <= n <= |cs| && !Fold(cs[..k], io, partId)
    requires forall j :: k <= j < n ==> cs[j].lOp == And
    ensures !Fold(cs[..n], io, partId)
    decreases n
  {
    if k < n {
      OnlyAndsStayFalse(cs, k, n - 1, io, partId);
      assert cs[..n][..n - 1] == cs[..n - 1] && cs[..n][n - 1] == cs[n - 1];
    }
  }

  /** Rules without "done" and with no "|" after an "&" mean what their text says. */
  lemma {:induction false} TextIsMeant(cs: seq<Condition>, io: Probe, partId: nat)
    requires NoDone(cs) && NoOrAfterAnd(cs)
    ensures Process(cs, Eval(false, false), io, partId).yes == Fold(cs, io, partId)
  {
    MatchIffFold(cs, io, partId);
    if !NoDeadEnd(cs, io, partId) {
      var k := FirstDeadEnd(cs, 0, io, partId);
      forall j | k <= j < |cs|
        ensures cs[j].lOp == And
      {
        assert !OrAfterAnd(cs, k, j);
      }
      OnlyAndsStayFalse(cs, k, |cs|, io, partId);
      assert cs[..|cs|] == cs;
    }
  }

  function Tests(cs: seq<Condition>): (ts: seq<(string, Option<string>)>)
    ensures |ts| == |cs|
  {
    seq(|cs|, (i: nat) requires i < |cs| => (cs[i].token, cs[i].operand))
  }

  ghost predicate DistinctTests(cs: seq<Condition>) {
    forall p, q :: 0 <= p < q < |cs| ==> Tests(cs)[p] != Tests(cs)[q]
  }

  lemma {:induction false} AllFalseFoldsFalse(cs: seq<Condition>, k: nat, io: Probe, partId: nat)
    requires k <= |cs| && forall p :: 0 <= p < k ==> !Test(cs[p], io, partId).yes
    ensures !Fold(cs[..k], io, partId)
    decreases k
  {
    if k > 0 {
      AllFalseFoldsFalse(cs, k - 1, io, partId);
      assert cs[..k][..k - 1] == cs[..k - 1] && cs[..k][k - 1] == cs[k - 1];
    }
  }

  lemma {:induction false} TrueFromOrFoldsTrue(cs: seq<Condition>, j: nat, n: nat, io: Probe, partId: nat)
    requires j < n <= |cs| && cs[j].lOp == Or
    requires forall p :: j <= p < n ==> Test(cs[p], io, partId).yes
    ensures Fold(cs[..n], io, partId)
    decreases n
  {
    if j < n - 1 {
      TrueFromOrFoldsTrue(cs, j, n - 1, io, partId);
    }
    assert cs[..n][..n - 1] == cs[..n - 1] && cs[..n][n - 1] == cs[n - 1];
  }

  /** Answers under which the text of the rule accepts and the code does not: true from the "|" on, false before. */
  lemma {:induction false} SkippingShows(cs: seq<Condition>, i: nat, j: nat, partId: nat) returns (io: Probe)
    requires NoDone(cs) && DistinctTests(cs) && OrAfterAnd(cs, i, j)
    ensures Fold(cs, io, partId) && !Process(cs, Eval(false, false), io, partId).yes
  {
    var rest := Tests(cs)[j..];
    io := (t, o, p) => (t, o) in rest;
    forall p | 0 <= p < |cs|
      ensures Test(cs[p], io, partId).yes == (p >= j)
    {
      if p >= j {
        assert rest[p - j] == Tests(cs)[p];
      } else {
        forall q | 0 <= q < |rest|
          ensures rest[q] != Tests(cs)[p]
        {
          assert rest[q] == Tests(cs)[j + q];
        }
      }
    }
    TrueFromOrFoldsTrue(cs, j, |cs|, io, partId);
    assert cs[..|cs|] == cs;
    AllFalseFoldsFalse(cs, i, io, partId);
    assert DeadEnd(cs, i, io, partId);
    MatchIffFold(cs, io, partId);
  }

  /** Among rules of distinct conditions, exactly those with no "|" after an "&" mean what their text says under all answers. */
  lemma {:induction false} TextIsMeantIff(cs: seq<Condition>, partId: nat)
    requires NoDone(cs) && DistinctTests(cs)
    ensures (forall io: Probe :: Process(cs, Eval(false, false), io, partId).yes == Fold(cs, io, partId))
            <==> NoOrAfterAnd(cs)
  {
    if NoOrAfterAnd(cs) {
      forall io: Probe
        ensures Process(cs, Eval(false, false), io, partId).yes == Fold(cs, io, partId)
      {
        TextIsMeant(cs, io, partId);
      }
    } else {
      var i: nat, j: nat :| OrAfterAnd(cs, i, j);
      var io := SkippingShows(cs, i, j, partId);
    }
  }

  // ---------------------------------------------------------------- the rule list

  ghost predicate Ascending(rules: seq<Rule>) {
    forall i, j :: 0 <= i < j < |rules| ==> rules[i].partId < rules[j].partId
  }

  /** The rule for a class: the first with that id. */
  function Lookup(rules: seq<Rule>, id: nat): Option<Rule> {
    if rules == [] then None
    else if rules[0].partId == id then Some(rules[0])
    else Lookup(rules[1..], id)
  }

  lemma {:induction false} LookupIff(rules: seq<Rule>, id: nat, r: Rule)
    requires Ascending(rules)
    ensures Lookup(rules, id) == Some(r) <==> r in rules && r.partId == id
  {
    if rules != [] {
      LookupIff(rules[1..], id, r);
      assert rules == [rules[0]] + rules[1..];
    }
  }

  lemma {:induction false} LookupBelowHead(rules: seq<Rule>, id: nat)
    requires forall i :: 0 <= i < |rules| ==> id < rules[i].partId
    ensures Lookup(rules, id) == None
  {
    if rules != [] {
      LookupBelowHead(rules[1..], id);
    }
  }

  /** An ascending list is fixed by what it answers for each class. */
  lemma {:induction false} AscendingIsCanonical(a: seq<Rule>, b: seq<Rule>)
    requires Ascending(a) && Ascending(b) && forall id :: Lookup(a, id) == Lookup(b, id)
    ensures a == b
    decreases |a|
  {
    if a == [] {
      assert b == [] || Lookup(a, b[0].partId) == Lookup(b, b[0].partId);
    } else {
      var x := a[0];
      assert Lookup(b, x.partId) == Some(x);
      LookupIff(b, x.partId, x);
      var y := b[0];
      assert Lookup(a, y.partId) == Some(y);
      LookupIff(a, y.partId, y);
      assert x.partId == y.partId;
      assert Lookup(b, y.partId) == Some(y);
      forall id
        ensures Lookup(a[1..], id) == Lookup(b[1..], id)
      {
        if id == x.partId {
          LookupBelowHead(a[1..], id);
          LookupBelowHead(b[1..], id);
        } else {
          assert Lookup(a, id) == Lookup(b, id);
        }
      }
      AscendingIsCanonical(a[1..], b[1..]);
    }
  }

  /** What cas_cls_rule_apply does to the list: still ascending, and changed for one class only. */
  ghost predicate Applied(before: seq<Rule>, partId: nat, new': Option<Rule>, after: seq<Rule>) {
    Ascending(after) && forall id :: Lookup(after, id) == if id == partId then new' else Lookup(before, id)
  }

  lemma {:induction false} AppliedIff(before: seq<Rule>, partId: nat, new': Option<Rule>, after: seq<Rule>)
    requires Ascending(before) && Ascending(after) && (new'.Some? ==> new'.value.partId == partId)
    requires forall r :: r in after <==> new' == Some(r) || (r in before && r.partId != partId)
    ensures Applied(before, partId, new', after)
  {
    forall id
      ensures Lookup(after, id) == if id == partId then new' else Lookup(before, id)
    {
      var x, y := Lookup(after, id), Lookup(before, id);
      if x.Some? {
        LookupIff(after, id, x.value);
        LookupIff(before, id, x.value);
      }
      if y.Some? {
        LookupIff(after, id, y.value);
        LookupIff(before, id, y.value);
      }
      if new'.Some? {
        LookupIff(after, id, new'.value);
      }
    }
  }

  class RuleList {
    var rules: seq<Rule>

    constructor ()
      ensures rules == []
    {
      rules := [];
    }

    /** The walk from the tail: drops the rule of the class on the way and stops at the first smaller one. */
    method Unlink(partId: nat) returns (old': Option<Rule>, item: int)
      requires Ascending(rules)
      modifies this
      ensures -1 <= item < |rules| && item < |old(rules)|
      ensures rules[..item + 1] == old(rules)[..item + 1]
      ensures forall k :: 0 <= k <= item ==> rules[k].partId < partId
      ensures forall k :: item < k < |rules| ==> rules[k].partId > partId
      ensures if old'.None? then rules == old(rules)
              else && item + 1 < |old(rules)| && old(rules)[item + 1] == old'.value && old'.value.partId == partId
                   && rules[item + 1..] == old(rules)[item + 2..]
    {
      old' := None;
      ghost var before := rules;
      item := |rules| - 1;
      while item >= 0
        invariant -1 <= item < |rules|
        invariant forall k :: item < k < |rules| ==> rules[k].partId > partId
        invariant old'.None? ==> rules == before
        invariant old'.Some? ==>
                    && item + 1 < |before| && before[item + 1] == old'.value && old'.value.partId == partId
                    && rules == before[..item + 1] + before[item + 2..]
      {
        var elem := rules[item];
        if elem.partId == partId {
          old' := Some(elem);
          rules := rules[..item] + rules[item + 1..];
        }
        if elem.partId < partId {
          break;
        }
        item := item - 1;
      }
    }

    method RuleApply(partId: nat, new': Option<Rule>) returns (old': Option<Rule>)
      requires Ascending(rules) && (new'.Some? ==> new'.value.partId == partId)
      modifies this
      ensures Applied(old(rules), partId, new', rules)
      ensures old' == old(Lookup(rules, partId))
    {
      ghost var before := rules;
      var item;
      old', item := Unlink(partId);
      ghost var low, high := rules[..item + 1], rules[item + 1..];
      assert rules == low + high;
      assert before == low + (if old'.Some? then [old'.value] else []) + high;
      if new'.Some? {
        rules := rules[..item + 1] + [new'.value] + rules[item + 1..];
      }
      assert rules == low + (if new'.Some? then [new'.value] else []) + high;
      SplitApplies(low, high, partId, old', new');
    }
  }

  ghost function Around(low: seq<Rule>, mid: Option<Rule>, high: seq<Rule>): seq<Rule> {
    low + (if mid.Some? then [mid.value] else []) + high
  }

  /** Swapping what stands between the smaller and the larger classes is what the map update means. */
  lemma {:induction false} SplitApplies(low: seq<Rule>, high: seq<Rule>, partId: nat, old': Option<Rule>, new': Option<Rule>)
    requires Ascending(Around(low, old', high))
    requires (old'.Some? ==> old'.value.partId == partId) && (new'.Some? ==> new'.value.partId == partId)
    requires (forall k :: 0 <= k < |low| ==> low[k].partId < partId)
    requires (forall k :: 0 <= k < |high| ==> high[k].partId > partId)
    ensures Applied(Around(low, old', high), partId, new', Around(low, new', high))
    ensures old' == Lookup(Around(low, old', high), partId)
  {
    var before, after := Around(low, old', high), Around(low, new', high);
    AroundMembers(low, old', high);
    AroundMembers(low, new', high);
    AroundAscends(low, old', new', high, partId);
    AppliedIff(before, partId, new', after);
    if old'.Some? {
      LookupIff(before, partId, old'.value);
    } else {
      NoneIfAbsent(before, partId);
    }
  }

  lemma AroundMembers(low: seq<Rule>, mid: Option<Rule>, high: seq<Rule>)
    ensures forall r :: r in Around(low, mid, high) <==> r in low || r in high || mid == Some(r)
  {
  }

  lemma AroundAscends(low: seq<Rule>, a: Option<Rule>, b: Option<Rule>, high: seq<Rule>, partId: nat)
    requires Ascending(Around(low, a, high)) && (b.Some? ==> b.value.partId == partId)
    requires forall k :: 0 <= k < |low| ==> low[k].partId < partId
    requires forall k :: 0 <= k < |high| ==> high[k].partId > partId
    ensures Ascending(Around(low, b, high))
  {
    var r, s, m, n := Around(low, a, high), Around(low, b, high), if a.Some? then 1 else 0, if b.Some? then 1 else 0;
    forall i, j | 0 <= i < j < |s|
      ensures s[i].partId < s[j].partId
    {
      if j < |low| {
        assert r[i] == low[i] && r[j] == low[j];
      } else if i >= |low| + n {
        assert r[i - n + m] == high[i - |low| - n] && r[j - n + m] == high[j - |low| - n];
      }
    }
  }

  lemma {:induction false} NoneIfAbsent(rules: seq<Rule>, id: nat)
    requires forall r :: r in rules ==> r.partId != id
    ensures Lookup(rules, id) == None
  {
    if rules != [] {
      assert rules[0] in rules;
      NoneIfAbsent(rules[1..], id);
    }
  }

  /** One call of cas_cls_rule_apply. */
  datatype Update = Update(partId: nat, rule: Option<Rule>)

  /** What was last written for a class. */
  function LastWrite(us: seq<Update>, id: nat): Option<Rule> {
    if us == [] then None
    else if us[|us| - 1].partId == id then us[|us| - 1].rule
    else LastWrite(us[..|us| - 1], id)
  }

  /** `lists` is the history of an initially empty list under the updates. */
  ghost predicate History(us: seq<Update>, lists: seq<seq<Rule>>) {
    && |lists| == |us| + 1 && lists[0] == []
    && forall i :: 0 <= i < |us| ==> Applied(lists[i], us[i].partId, us[i].rule, lists[i + 1])
  }

  lemma {:induction false} ListIsLastWrite(us: seq<Update>, lists: seq<seq<Rule>>, id: nat)
    requires History(us, lists)
    ensures Ascending(lists[|us|]) && Lookup(lists[|us|], id) == LastWrite(us, id)
    decreases |us|
  {
    if us != [] {
      var n := |us| - 1;
      assert Applied(lists[n], us[n].partId, us[n].rule, lists[n + 1]);
      ListIsLastWrite(us[..n], lists[..|us|], id);
    }
  }

  /** The order of calls does not matter beyond the last one for each class. */
  lemma {:induction false} OrderDoesNotMatter(us: seq<Update>, ls: seq<seq<Rule>>, vs: seq<Update>, ms: seq<seq<Rule>>)
    requires History(us, ls) && History(vs, ms) && forall id :: LastWrite(us, id) == LastWrite(vs, id)
    ensures ls[|us|] == ms[|vs|]
  {
    forall id
      ensures Lookup(ls[|us|], id) == Lookup(ms[|vs|], id)
    {
      ListIsLastWrite(us, ls, id);
      ListIsLastWrite(vs, ms, id);
    }
    ListIsLastWrite(us, ls, 0);
    ListIsLastWrite(vs, ms, 0);
    AscendingIsCanonical(ls[|us|], ms[|vs|]);
  }

  // ---------------------------------------------------------------- classification

  /**
   One pass over the list: parts[k] is the class found before rule k, which is what the rule's conditions get
   to see, and evals[k] is what the rule answers.
   */
  ghost predicate Trace(rules: seq<Rule>, io: Probe, parts: seq<nat>, evals: seq<Eval>) {
    && |evals| <= |rules| && |parts| == |evals| + 1 && parts[0] == 0
    && forall k :: 0 <= k < |evals| ==>
         && evals[k] == Process(rules[k].conditions, Eval(false, false), io, parts[k])
         && parts[k + 1] == if evals[k].yes then rules[k].partId else parts[k]
  }

  /** It goes up to and including the first rule that stops. */
  ghost predicate Ended(rules: seq<Rule>, evals: seq<Eval>) {
    && (forall k :: 0 <= k < |evals| - 1 ==> !evals[k].stop)
    && (|evals| < |rules| ==> evals != [] && evals[|evals| - 1].stop)
  }

  /** cas_cls_classify. On an ascending list the answer is the largest class that matched up to the first stop. */
  method Classify(rules: seq<Rule>, io: Probe) returns (partId: nat, ghost parts: seq<nat>, ghost evals: seq<Eval>)
    ensures Trace(rules, io, parts, evals) && Ended(rules, evals) && partId == parts[|evals|]
    ensures Ascending(rules) ==> LargestMatch(rules, evals, |evals|, partId)
  {
    partId, parts, evals := 0, [0], [];
    var i := 0;
    while i < |rules|
      invariant 0 <= i <= |rules| && |evals| == i && Trace(rules, io, parts, evals) && partId == parts[i]
      invariant forall k :: 0 <= k < i ==> !evals[k].stop
    {
      var ret := ProcessRule(rules[i], io, partId);
      if ret.yes {
        partId := rules[i].partId;
      }
      parts, evals := parts + [partId], evals + [ret];
      if ret.stop {
        break;
      }
      i := i + 1;
    }
    if Ascending(rules) {
      FoundIsLargestMatch(rules, io, parts, evals, |evals|);
    }
  }

  /** There is only one such pass, so these clauses say all there is to say about the answer. */
  lemma {:induction false} TraceIsUnique(rules: seq<Rule>, io: Probe, ps: seq<nat>, es: seq<Eval>, qs: seq<nat>, fs: seq<Eval>)
    requires Trace(rules, io, ps, es) && Ended(rules, es) && Trace(rules, io, qs, fs) && Ended(rules, fs)
    ensures ps == qs && es == fs
  {
    hide Process;
    var n := if |es| < |fs| then |es| else |fs|;
    for k := 0 to n
      invariant ps[..k + 1] == qs[..k + 1] && es[..k] == fs[..k]
    {
      assert ps[k] == ps[..k + 1][k] == qs[..k + 1][k] == qs[k];
      assert ps[..k + 2] == ps[..k + 1] + [ps[k + 1]] && qs[..k + 2] == qs[..k + 1] + [qs[k + 1]];
      assert es[..k + 1] == es[..k] + [es[k]] && fs[..k + 1] == fs[..k] + [fs[k]];
    }
    if n > 0 {
      assert es[n - 1] == es[..n][n - 1] == fs[..n][n - 1] == fs[n - 1];
    }
    assert |es| == |fs|;
    assert es == es[..n] && fs == fs[..n] && ps == ps[..n + 1] && qs == qs[..n + 1];
  }

  /** The largest class among the first n rules that matched, 0 if none did. */
  ghost predicate LargestMatch(rules: seq<Rule>, evals: seq<Eval>, n: nat, partId: nat)
    requires n <= |evals| <= |rules|
  {
    && (forall i :: 0 <= i < n && evals[i].yes ==> rules[i].partId <= partId)
    && if exists i :: 0 <= i < n && evals[i].yes then exists i :: 0 <= i < n && evals[i].yes && rules[i].partId == partId
       else partId == 0
  }

  /** In an ascending list the class found before any rule is the largest that matched, or 0 if none did. */
  lemma {:induction false} FoundIsLargestMatch(rules: seq<Rule>, io: Probe, parts: seq<nat>, evals: seq<Eval>, n: nat)
    requires Ascending(rules) && Trace(rules, io, parts, evals) && n <= |evals|
    ensures LargestMatch(rules, evals, n, parts[n])
  {
    hide Process;
    if n > 0 {
      FoundIsLargestMatch(rules, io, parts, evals, n - 1);
      if evals[n - 1].yes {
        assert rules[n - 1].partId == parts[n];
      }
    }
  }

  /** A rule that stops the scan decides it. */
  lemma {:induction false} StopperWins(rules: seq<Rule>, io: Probe, parts: seq<nat>, evals: seq<Eval>)
    requires Trace(rules, io, parts, evals) && evals != [] && evals[|evals| - 1].stop
    ensures parts[|evals|] == rules[|evals| - 1].partId
  {
    var n := |evals| - 1;
    StopImpliesMatch(rules[n].conditions, Eval(false, false), io, parts[n]);
  }
}
