/**
 Conditions that compare a number of the I/O, or the class found so far, with their operand; and what real
 I/Os show about rules whose text and evaluation differ.
 */
module NumericTests {
  import opened Basics
  import opened Classifier
  import PyText

  datatype Operator = Eq | Ne | Lt | Gt | Le | Ge

  datatype Numeric = Numeric(operator: Operator, value: nat)

  /** Decimal digits; more than 64 bits are refused. */
  function Digits(s: string): Option<nat> {
    if s == "" || !IsDigit(s[|s| - 1]) then None
    else
      var d := s[|s| - 1] as int - '0' as int;
      if |s| == 1 then Some(d)
      else
        var front := Digits(s[..|s| - 1]);
        if front.None? || 10 * front.value + d >= 0x1_0000_0000_0000_0000 then None else Some(10 * front.value + d)
  }

  /** kstrtou64: one plus sign before and one newline after are let through. */
  function Number(s: string): Option<nat> {
    var t := if s != "" && s[0] == '+' then s[1..] else s;
    Digits(if t != "" && t[|t| - 1] == '\n' then t[..|t| - 1] else t)
  }

  function OperatorOf(s: string): Option<Operator> {
    match s
    case "eq" => Some(Eq)
    case "ne" => Some(Ne)
    case "lt" => Some(Lt)
    case "gt" => Some(Gt)
    case "le" => Some(Le)
    case "ge" => Some(Ge)
    case _ => None
  }

  /** The index of the first colon, or the length. */
  function Colon(s: string): (i: nat)
    ensures i <= |s| && (i < |s| ==> s[i] == ':')
  {
    if s == "" || s[0] == ':' then 0 else 1 + Colon(s[1..])
  }

  /** _cas_cls_numeric_ctr: a number, or an operator, a colon and a number. */
  function NumericOf(operand: Option<string>): Option<Numeric> {
    if operand.None? || operand.value == "" then None
    else
      var s := operand.value;
      var i := Colon(s);
      var op := if i < |s| then OperatorOf(s[..i]) else Some(Eq);
      var v := if i < |s| then Number(s[i + 1..]) else Number(s);
      if op.None? || v.None? then None else Some(Numeric(op.value, v.value))
  }

  /** _cas_cls_numeric_test_u. */
  predicate Accepts(n: Numeric, val: nat) {
    match n.operator
    case Eq => val == n.value
    case Ne => val != n.value
    case Lt => val < n.value
    case Gt => val > n.value
    case Le => val <= n.value
    case Ge => val >= n.value
  }

  /** Sector, size in bytes and process of an I/O; nothing relates the three. */
  datatype Bio = Bio(lba: nat, bytes: nat, pid: nat)

  /** The probe answers the numeric conditions as their tests do for this I/O. */
  ghost predicate Answers(io: Probe, bio: Bio) {
    forall o: Option<string>, partId: nat | NumericOf(o).Some? ::
      && io("lba", o, partId) == Accepts(NumericOf(o).value, bio.lba)
      && io("request_size", o, partId) == Accepts(NumericOf(o).value, bio.bytes)
      && io("pid", o, partId) == Accepts(NumericOf(o).value, bio.pid)
      && io("io_class", o, partId) == Accepts(NumericOf(o).value, partId)
  }

  /** lba:lt:8&pid:1|request_size:4096 */
  function SmallOrEarly(): seq<Condition> {
    [Condition("lba", Some("lt:8"), Or), Condition("pid", Some("1"), And), Condition("request_size", Some("4096"), Or)]
  }

  /** request_size:gt:0&pid:1|request_size:ge:1 */
  function Implied(): seq<Condition> {
    [Condition("request_size", Some("gt:0"), Or), Condition("pid", Some("1"), And), Condition("request_size", Some("ge:1"), Or)]
  }

  lemma LessThanEight()
    ensures NumericOf(Some("lt:8")) == Some(Numeric(Lt, 8))
  {
    hide NumericOf, Number;
    OneDigit("8");
    ComparisonParses("lt", "8");
    assert "lt" + ":" + "8" == "lt:8";
  }

  lemma AtLeastOne()
    ensures NumericOf(Some("gt:0")) == Some(Numeric(Gt, 0)) && NumericOf(Some("ge:1")) == Some(Numeric(Ge, 1))
  {
    hide NumericOf, Number;
    OneDigit("0");
    OneDigit("1");
    ComparisonParses("gt", "0");
    ComparisonParses("ge", "1");
    assert "gt" + ":" + "0" == "gt:0" && "ge" + ":" + "1" == "ge:1";
  }

  lemma JustOne()
    ensures NumericOf(Some("1")) == Some(Numeric(Eq, 1))
  {
    assert Colon("1") == 1;
  }

  lemma PageSize()
    ensures NumericOf(Some("4096")) == Some(Numeric(Eq, 4096))
  {
    var s := "4096";
    assert s[1..] == "096" && "096"[1..] == "96" && "96"[1..] == "6" && "6"[1..] == "";
    assert Colon("6") == 1;
    assert Colon("96") == 2;
    assert Colon("096") == 3;
    assert Colon(s) == 4;
    assert s[..3] == "409" && "409"[..2] == "40" && "40"[..1] == "4";
    assert Digits("4") == Some(4);
    assert Digits("40") == Some(40);
    assert Digits("409") == Some(409);
    assert Digits(s) == Some(4096);
  }

  lemma OneDigit(d: string)
    requires |d| == 1 && IsDigit(d[0])
    ensures Number(d) == Some(d[0] as int - '0' as int)
  {
  }

  lemma {:induction false} FirstColon(op: string, n: string)
    requires ':' !in op
    ensures Colon(op + ":" + n) == |op|
  {
    var s := op + ":" + n;
    if op != "" {
      assert s[0] == op[0] && op[0] in op;
      assert s[1..] == op[1..] + ":" + n;
      FirstColon(op[1..], n);
    }
  }

  /** What stands before the first colon must be an operator and all behind it a number. */
  lemma {:induction false} ComparisonParses(op: string, n: string)
    requires ':' !in op
    ensures NumericOf(Some(op + ":" + n))
         == if OperatorOf(op).Some? && Number(n).Some? then Some(Numeric(OperatorOf(op).value, Number(n).value)) else None
  {
    hide OperatorOf, Number, Colon;
    FirstColon(op, n);
    assert (op + ":" + n)[..|op|] == op && (op + ":" + n)[|op| + 1..] == n;
  }

  /** The six operators compare as their names say. */
  lemma {:induction false} OperatorsMean(n: string, val: nat)
    requires Number(n).Some?
    ensures Accepts(Asked("eq", n), val) <==> val == Number(n).value
    ensures Accepts(Asked("ne", n), val) <==> val != Number(n).value
    ensures Accepts(Asked("lt", n), val) <==> val < Number(n).value
    ensures Accepts(Asked("gt", n), val) <==> val > Number(n).value
    ensures Accepts(Asked("le", n), val) <==> val <= Number(n).value
    ensures Accepts(Asked("ge", n), val) <==> val >= Number(n).value
  {
    hide Number, NumericOf;
    ComparisonParses("eq", n);
    ComparisonParses("ne", n);
    ComparisonParses("lt", n);
    ComparisonParses("gt", n);
    ComparisonParses("le", n);
    ComparisonParses("ge", n);
  }

  /** The comparison an operator and a number ask for; one no number passes if they are refused. */
  function Asked(op: string, n: string): Numeric {
    var r := NumericOf(Some(op + ":" + n));
    if r.Some? then r.value else Numeric(Lt, 0)
  }

  /** Every number of 64 bits can be asked for, and no other. */
  lemma {:induction false} DecimalParses(n: nat)
    ensures Number(PyText.Decimal(n)) == if n < 0x1_0000_0000_0000_0000 then Some(n) else None
  {
    var s := PyText.Decimal(n);
    assert IsDigit(s[0]) && IsDigit(s[|s| - 1]);
    DecimalDigits(n);
  }

  lemma {:induction false} DecimalDigits(n: nat)
    ensures Digits(PyText.Decimal(n)) == if n < 0x1_0000_0000_0000_0000 then Some(n) else None
  {
    var s := PyText.Decimal(n);
    if n >= 10 {
      DecimalDigits(n / 10);
      assert s[..|s| - 1] == PyText.Decimal(n / 10);
    }
  }

  lemma ThreeConditions(cs: seq<Condition>, io: Probe, partId: nat)
    requires |cs| == 3 && NoDone(cs) && cs[0].lOp == Or && cs[1].lOp == And && cs[2].lOp == Or
    ensures var a := io(cs[0].token, cs[0].operand, partId);
      var b := io(cs[1].token, cs[1].operand, partId);
      var c := io(cs[2].token, cs[2].operand, partId);
      && Fold(cs, io, partId) == ((a && b) || c)
      && Process(cs, Eval(false, false), io, partId).yes == (a && (b || c))
  {
    assert cs[..2][..1] == cs[..1] && cs[..1][..0] == [];
    assert Fold(cs[..1], io, partId) == Test(cs[0], io, partId).yes;
    assert Fold(cs[..2], io, partId) == (Test(cs[1], io, partId).yes && Fold(cs[..1], io, partId));
    hide Fold;
    var a, b, c := Test(cs[0], io, partId).yes, Test(cs[1], io, partId).yes, Test(cs[2], io, partId).yes;
    assert cs[1..][1..] == cs[2..] && cs[2..][1..] == [];
    assert Process(cs, Eval(false, false), io, partId) == Process(cs[1..], Eval(a, false), io, partId);
    if a {
      assert Process(cs[1..], Eval(a, false), io, partId) == Process(cs[2..], Eval(b, false), io, partId);
      assert Process(cs[2..], Eval(b, false), io, partId) == Eval(c || b, false);
    } else {
      assert Process(cs[1..], Eval(a, false), io, partId) == Eval(false, false);
    }
  }

  /**
   A rule at work: I/Os of one page past the first sectors are what the text of lba:lt:8&pid:1|request_size:4096 accepts and
   the code rejects, whatever their process and the class found so far.
   */
  lemma RealIoIsSkipped(io: Probe, bio: Bio, partId: nat)
    requires Answers(io, bio) && bio.lba >= 8 && bio.bytes == 4096
    ensures Fold(SmallOrEarly(), io, partId) && !Process(SmallOrEarly(), Eval(false, false), io, partId).yes
  {
    hide NumericOf, Fold, Process;
    LessThanEight();
    JustOne();
    PageSize();
    ThreeConditions(SmallOrEarly(), io, partId);
  }

  /**
   Where conditions are not independent an "|" after an "&" can be harmless: request_size:gt:0&pid:1|request_size:ge:1
   is evaluated as it reads on every I/O.
   */
  lemma ImpliedIsHarmless(io: Probe, bio: Bio, partId: nat)
    requires Answers(io, bio)
    ensures OrAfterAnd(Implied(), 1, 2)
    ensures Process(Implied(), Eval(false, false), io, partId).yes == Fold(Implied(), io, partId)
  {
    hide NumericOf, Fold, Process;
    AtLeastOne();
    JustOne();
    ThreeConditions(Implied(), io, partId);
  }

  lemma OneCondition(c: Condition, io: Probe, partId: nat)
    requires !IsDone(c) && c.lOp == Or
    ensures Process([c], Eval(false, false), io, partId) == Eval(io(c.token, c.operand, partId), false)
  {
    assert [c][1..] == [];
  }

  /**
   What "io_class" is for: in an ascending list a rule with this one condition matches exactly if its number
   compares as asked with the largest class that matched before it, 0 if none did.
   */
  lemma IoClassSeesLargest(rules: seq<Rule>, io: Probe, bio: Bio, parts: seq<nat>, evals: seq<Eval>, k: nat, operand: Option<string>, found: nat)
    requires Answers(io, bio) && Ascending(rules) && Trace(rules, io, parts, evals) && k < |evals|
    requires rules[k].conditions == [Condition("io_class", operand, Or)] && NumericOf(operand).Some?
    requires LargestMatch(rules, evals, k, found)
    ensures evals[k].yes <==> Accepts(NumericOf(operand).value, found)
  {
    hide NumericOf, Accepts, Process;
    OneCondition(rules[k].conditions[0], io, parts[k]);
    FoundIsLargestMatch(rules, io, parts, evals, k);
    assert found == parts[k];
  }
}
