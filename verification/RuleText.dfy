/**
 The rule language: conditions "token" or "token:operand" joined by '&' and '|'. The parser overwrites
 its buffer with NULs to cut substrings out of it, as the kernel code does.
 */
module RuleText {
  import opened Basics
  import opened Classifier
  import opened CStrings

  datatype Errno = ENOENT | EINVAL | ENOMEM

  datatype Result<+T> = Ok(value: T) | Err(error: Errno)

  /** The tokens of the handler table. The last is there only in some builds; elsewhere its constructor answers ENOENT. */
  predicate Handler(t: string) {
    EarlyHandler(t) || LateHandler(t)
  }

  predicate EarlyHandler(t: string) {
    || t == "done" || t == "metadata" || t == "direct" || t == "io_class" || t == "file_size"
    || t == "directory" || t == "core_id" || t == "extension"
  }

  predicate LateHandler(t: string) {
    || t == "file_name_prefix" || t == "lba" || t == "pid" || t == "process_name" || t == "file_offset"
    || t == "request_size" || t == "io_direction" || t == "wlth"
  }

  /** What a handler's constructor says to an operand: nothing wrong, or an error. */
  type Constructor = (string, Option<string>) -> Option<Errno>

  // ---------------------------------------------------------------- strings

  /** strpbrk: the index of the first character of s among `stops`, or the length. */
  function Find(s: string, stops: string): (i: nat)
    ensures i <= |s|
    ensures forall k :: 0 <= k < i ==> s[k] !in stops
    ensures i < |s| ==> s[i] in stops
  {
    if s == [] || s[0] in stops then 0 else 1 + Find(s[1..], stops)
  }

  lemma {:induction false} FindIs(s: string, stops: string, i: nat)
    requires i <= |s| && (forall k :: 0 <= k < i ==> s[k] !in stops) && (i < |s| ==> s[i] in stops)
    ensures Find(s, stops) == i
  {
  }

  // ---------------------------------------------------------------- parsing, on text

  /** _cas_cls_create_condition */
  function Create(token: string, operand: Option<string>, lOp: LogicalOp, ctr: Constructor): Result<Condition> {
    if !Handler(token) then Err(ENOENT)
    else match ctr(token, operand)
      case Some(e) => Err(e)
      case None => Ok(Condition(token, operand, lOp))
  }

  /** Where the first condition of a text ends: at its '&' or '|', or at the end of the text. */
  function Span(s: string): (n: nat)
    ensures n <= |s|
    ensures n < |s| ==> s[n] in "&|"
  {
    var p := Find(s, ":&|");
    if p < |s| && s[p] == ':' then p + 1 + Find(s[p + 1..], "&|") else p
  }

  function Token(s: string): string {
    s[..Find(s, ":&|")]
  }

  function Operand(s: string): Option<string> {
    var p := Find(s, ":&|");
    if p < |s| && s[p] == ':' then Some(s[p + 1..Span(s)]) else None
  }

  function OpOf(c: char): LogicalOp {
    if c == '|' then Or else And
  }

  function Parse(s: string, lOp: LogicalOp, ctr: Constructor): Result<seq<Condition>>
    decreases |s|
  {
    if s == [] then Ok([])
    else
      var n := Span(s);
      if n < |s| && n + 1 == |s| then Err(EINVAL)
      else match Create(Token(s), Operand(s), lOp, ctr)
        case Err(e) => Err(e)
        case Ok(c) =>
          if n == |s| then Ok([c])
          else match Parse(s[n + 1..], OpOf(s[n]), ctr)
            case Err(e) => Err(e)
            case Ok(cs) => Ok([c] + cs)
  }

  // ---------------------------------------------------------------- rendering

  function Piece(c: Condition): string {
    c.token + (match c.operand case None => "" case Some(o) => ":" + o)
  }

  function OpText(op: LogicalOp): string {
    match op case And => "&" case Or => "|"
  }

  /** The text of a condition list; the first condition's own joiner does not show. */
  function Render(cs: seq<Condition>): string {
    if cs == [] then ""
    else if |cs| == 1 then Piece(cs[0])
    else Piece(cs[0]) + OpText(cs[1].lOp) + Render(cs[1..])
  }

  lemma PieceOfSpan(s: string)
    ensures Token(s) + (match Operand(s) case None => "" case Some(o) => ":" + o) == s[..Span(s)]
  {
  }

  lemma ParseKeepsOp(s: string, lOp: LogicalOp, ctr: Constructor)
    requires s != [] && Parse(s, lOp, ctr).Ok?
    ensures Parse(s, lOp, ctr).value != [] && Parse(s, lOp, ctr).value[0].lOp == lOp
  {
  }

  /** Every accepted text renders back unchanged. */
  lemma {:induction false} RenderUndoesParse(s: string, lOp: LogicalOp, ctr: Constructor)
    requires Parse(s, lOp, ctr).Ok?
    ensures Render(Parse(s, lOp, ctr).value) == s
    decreases |s|
  {
    hide Find, Span, Token, Operand, Handler;
    if s != [] {
      var n := Span(s);
      PieceOfSpan(s);
      if n < |s| {
        var rest := s[n + 1..];
        RenderUndoesParse(rest, OpOf(s[n]), ctr);
        ParseKeepsOp(rest, OpOf(s[n]), ctr);
        var cs := Parse(s, lOp, ctr).value;
        assert cs[1..] == Parse(rest, OpOf(s[n]), ctr).value;
        assert s == s[..n] + [s[n]] + rest;
      }
    }
  }

  /** A condition the language can express and the handlers accept. */
  ghost predicate WellFormed(c: Condition, ctr: Constructor) {
    && Handler(c.token) && ctr(c.token, c.operand) == None
    && (c.operand.Some? ==> forall k :: 0 <= k < |c.operand.value| ==> c.operand.value[k] !in "&|")
  }

  predicate Plain(t: string) {
    t != [] && forall k :: 0 <= k < |t| ==> t[k] !in ":&|"
  }

  lemma EarlyTokensArePlain(t: string)
    requires EarlyHandler(t)
    ensures Plain(t)
  {
  }

  lemma LateTokensArePlain(t: string)
    requires LateHandler(t)
    ensures Plain(t)
  {
  }

  lemma HandlerTokensArePlain(t: string)
    requires Handler(t)
    ensures Plain(t)
  {
    hide EarlyHandler, LateHandler, Plain;
    if EarlyHandler(t) {
      EarlyTokensArePlain(t);
    } else {
      LateTokensArePlain(t);
    }
  }

  lemma {:induction false} SpanOfPiece(c: Condition, tail: string, ctr: Constructor)
    requires WellFormed(c, ctr) && (tail == [] || tail[0] in "&|")
    ensures Span(Piece(c) + tail) == |Piece(c)|
    ensures Token(Piece(c) + tail) == c.token && Operand(Piece(c) + tail) == c.operand
    ensures Piece(c) != []
  {
    hide Handler;
    var s := Piece(c) + tail;
    HandlerTokensArePlain(c.token);
    FindIs(s, ":&|", |c.token|);
    assert s[..|c.token|] == c.token;
    hide Find;
    match c.operand {
      case None =>
        assert Piece(c) == c.token;
      case Some(o) =>
        assert s[|c.token| + 1..] == o + tail;
        FindIs(o + tail, "&|", |o|);
        assert s[|c.token| + 1..|Piece(c)|] == o;
    }
  }

  lemma {:induction false} ParseJoined(c: Condition, op: LogicalOp, rest: string, cs: seq<Condition>, ctr: Constructor)
    requires WellFormed(c, ctr) && rest != [] && Parse(rest, op, ctr) == Ok(cs)
    ensures Parse(Piece(c) + OpText(op) + rest, c.lOp, ctr) == Ok([c] + cs)
  {
    hide Find, Span, Token, Operand, Piece, Handler;
    var tail := OpText(op) + rest;
    var s, n := Piece(c) + OpText(op) + rest, |Piece(c)|;
    assert s == Piece(c) + tail;
    SpanOfPiece(c, tail, ctr);
    assert s[n] == OpText(op)[0] && s[n + 1..] == rest;
    assert OpOf(s[n]) == op;
  }

  lemma {:induction false} ParseLast(c: Condition, ctr: Constructor)
    requires WellFormed(c, ctr)
    ensures Parse(Piece(c), c.lOp, ctr) == Ok([c]) && Piece(c) != []
  {
    hide Find, Span, Token, Operand, Piece, Handler;
    SpanOfPiece(c, "", ctr);
    assert Piece(c) + "" == Piece(c);
  }

  /** Every well-formed condition list parses back to itself. */
  lemma {:induction false} ParseUndoesRender(cs: seq<Condition>, lOp: LogicalOp, ctr: Constructor)
    requires forall i :: 0 <= i < |cs| ==> WellFormed(cs[i], ctr)
    requires cs != [] ==> cs[0].lOp == lOp
    ensures Parse(Render(cs), lOp, ctr) == Ok(cs)
    ensures cs != [] ==> Render(cs) != []
    decreases |cs|
  {
    hide WellFormed, Piece;
    if |cs| == 1 {
      ParseLast(cs[0], ctr);
      assert cs == [cs[0]];
    } else if |cs| > 1 {
      ParseUndoesRender(cs[1..], cs[1].lOp, ctr);
      ParseJoined(cs[0], cs[1].lOp, Render(cs[1..]), cs[1..], ctr);
      assert cs == [cs[0]] + cs[1..];
    }
  }

  // ---------------------------------------------------------------- what a rule text means

  /** The rule of a text; the first condition stands as if an "or" were before it. */
  function RuleOf(s: string, ctr: Constructor): Result<seq<Condition>> {
    Parse(s, Or, ctr)
  }

  /** The conditions there are; any other token is refused, and so is an operand its handler does not take. */
  lemma CreatedIff(token: string, operand: Option<string>, lOp: LogicalOp, ctr: Constructor)
    ensures var known := token in ["done", "metadata", "direct", "io_class", "file_size", "directory", "core_id", "extension"]
                         || token in ["file_name_prefix", "lba", "pid", "process_name", "file_offset", "request_size"]
                         || token in ["io_direction", "wlth"];
      && (Create(token, operand, lOp, ctr).Ok? <==> known && ctr(token, operand).None?)
      && (!known ==> Create(token, operand, lOp, ctr) == Err(ENOENT))
  {
  }

  /** An operator at the end is an error. */
  lemma {:induction false} TrailingIsRefused(c: Condition, ctr: Constructor)
    requires WellFormed(c, ctr)
    ensures RuleOf(Piece(c) + "&", ctr) == Err(EINVAL) && RuleOf(Piece(c) + "|", ctr) == Err(EINVAL)
  {
    hide Find, Span, Token, Operand, Piece, Handler;
    SpanOfPiece(c, "&", ctr);
    SpanOfPiece(c, "|", ctr);
  }

  /** The text matches an I/O. */
  predicate TextMatches(s: string, ctr: Constructor, io: Probe, partId: nat) {
    RuleOf(s, ctr).Ok? && Process(RuleOf(s, ctr).value, Eval(false, false), io, partId).yes
  }

  lemma {:induction false} OneMatches(c: Condition, io: Probe, partId: nat)
    requires c.lOp == Or && !IsDone(c)
    ensures Process([c], Eval(false, false), io, partId).yes <==> io(c.token, c.operand, partId)
  {
    assert [c][1..] == [];
  }

  lemma {:induction false} TwoMatch(c: Condition, d: Condition, io: Probe, partId: nat)
    requires c.lOp == Or && !IsDone(c) && !IsDone(d)
    ensures var x, y := io(c.token, c.operand, partId), io(d.token, d.operand, partId);
      Process([c, d], Eval(false, false), io, partId).yes <==> if d.lOp == And then x && y else x || y
  {
    assert [c, d][1..] == [d] && [d][1..] == [];
    var x := io(c.token, c.operand, partId);
    assert Process([c, d], Eval(false, false), io, partId) == Process([d], Eval(x, false), io, partId);
    if d.lOp == Or || x {
      var y := io(d.token, d.operand, partId);
      var all := if d.lOp == And then y && x else y || x;
      assert Process([d], Eval(x, false), io, partId) == Process([], Eval(all, false), io, partId);
    }
  }

  lemma {:induction false} PairParses(c: Condition, d: Condition, ctr: Constructor)
    requires WellFormed(c, ctr) && WellFormed(d, ctr) && c.lOp == Or
    ensures RuleOf(Piece(c) + OpText(d.lOp) + Piece(d), ctr) == Ok([c, d])
  {
    hide Parse, WellFormed, Piece;
    ParseLast(d, ctr);
    ParseJoined(c, d.lOp, Piece(d), [d], ctr);
    assert [c] + [d] == [c, d];
  }

  /** One condition by itself, two joined by '&', and two joined by '|' mean what they say. */
  lemma {:induction false} TextMeans(c: Condition, d: Condition, ctr: Constructor, io: Probe, partId: nat)
    requires WellFormed(c, ctr) && WellFormed(d, ctr) && !IsDone(c) && !IsDone(d)
    ensures TextMatches(Piece(c), ctr, io, partId) <==> io(c.token, c.operand, partId)
    ensures TextMatches(Piece(c) + "&" + Piece(d), ctr, io, partId) <==>
              io(c.token, c.operand, partId) && io(d.token, d.operand, partId)
    ensures TextMatches(Piece(c) + "|" + Piece(d), ctr, io, partId) <==>
              io(c.token, c.operand, partId) || io(d.token, d.operand, partId)
  {
    var first, and, or := c.(lOp := Or), d.(lOp := And), d.(lOp := Or);
    assert Piece(first) == Piece(c) && Piece(and) == Piece(d) && Piece(or) == Piece(d);
    assert WellFormed(first, ctr) && WellFormed(and, ctr) && WellFormed(or, ctr);
    hide Parse, WellFormed, Piece, Process;
    ParseLast(first, ctr);
    OneMatches(first, io, partId);
    PairParses(first, and, ctr);
    TwoMatch(first, and, io, partId);
    PairParses(first, or, ctr);
    TwoMatch(first, or, io, partId);
  }

  // ---------------------------------------------------------------- parsing, in the buffer

  /** Overwriting a character of a string with NUL cuts it there; what follows is untouched. */
  lemma CutAt(buf: seq<char>, start: nat, s: string, n: nat)
    requires Holds(buf, start, s) && n < |s|
    ensures Holds(buf[start + n := '\0'], start, s[..n])
    ensures Holds(buf[start + n := '\0'], start + n + 1, s[n + 1..])
  {
    var cut := buf[start + n := '\0'];
    assert cut[start..start + n] == s[..n];
    assert cut[start + n + 1..start + |s|] == s[n + 1..];
  }

  lemma CutElsewhere(buf: seq<char>, start: nat, s: string, at: nat)
    requires Holds(buf, start, s) && at < |buf| && (at < start || at > start + |s|)
    ensures Holds(buf[at := '\0'], start, s)
  {
    assert buf[at := '\0'][start..start + |s|] == s;
  }

  /** strpbrk on the buffer: the position of the first stop character, or of the terminating NUL. */
  method Strpbrk(buf: array<char>, start: nat, stops: string, ghost s: string) returns (ptr: nat)
    requires Holds(buf[..], start, s) && '\0' !in stops
    ensures ptr == start + Find(s, stops) < buf.Length
    ensures buf[ptr] == if ptr < start + |s| then s[ptr - start] else '\0'
    ensures forall k :: 0 <= k < |s| ==> s[k] != '\0'
  {
    ptr := start;
    while buf[ptr] != '\0' && buf[ptr] !in stops
      invariant start <= ptr <= start + |s|
      invariant forall k :: 0 <= k < ptr - start ==> s[k] !in stops
      decreases start + |s| - ptr
    {
      assert ptr < start + |s|;
      assert buf[ptr] == s[ptr - start];
      ptr := ptr + 1;
    }
    assert ptr < start + |s| ==> buf[ptr] == s[ptr - start];
    FindIs(s, stops, ptr - start);
  }

  /** The string at `start`, as strcmp or a constructor sees it. */
  method ReadString(buf: array<char>, start: nat, ghost s: string) returns (r: string)
    requires Holds(buf[..], start, s)
    ensures r == s
  {
    var i := start;
    while buf[i] != '\0'
      invariant start <= i <= start + |s|
      decreases start + |s| - i
    {
      assert buf[i] == s[i - start] || i == start + |s|;
      i := i + 1;
    }
    r := buf[start..i];
  }

  datatype Parsed = NoMore | Got(condition: Condition) | Failed(error: Errno)

  function AsParsed(r: Result<Condition>): Parsed {
    match r case Ok(c) => Got(c) case Err(e) => Failed(e)
  }

  /** Where parsing goes on after the first condition. */
  function Advance(s: string): (n: nat)
    ensures n <= |s|
  {
    if Span(s) < |s| then Span(s) + 1 else |s|
  }

  predicate Trailing(s: string) {
    Span(s) < |s| && Span(s) + 1 == |s|
  }

  lemma ParsingAdvances(s: string)
    ensures s != [] ==> Advance(s) > 0
  {
  }

  /** Ends the substring at `last` at its logical operator, if there is one. */
  method Terminate(buf: array<char>, last: nat, ptr: nat, ghost t: string) returns (more: bool, op: char)
    requires Holds(buf[..], last, t) && ptr == last + Find(t, "&|") < buf.Length
    requires buf[ptr] == if ptr < last + |t| then t[ptr - last] else '\0'
    requires forall k :: 0 <= k < |t| ==> t[k] != '\0'
    modifies buf
    ensures more == (Find(t, "&|") < |t|)
    ensures more ==> op == t[Find(t, "&|")] && Holds(buf[..], ptr + 1, t[Find(t, "&|") + 1..])
    ensures Holds(buf[..], last, t[..Find(t, "&|")])
    ensures buf[..] == if more then old(buf[..])[ptr := '\0'] else old(buf[..])
  {
    hide Holds, Find;
    op := 'X';
    more := buf[ptr] != '\0';
    if more {
      op := buf[ptr];
      CutAt(buf[..], last, t, ptr - last);
      buf[ptr] := '\0';
    } else {
      assert t[..|t|] == t;
    }
  }

  /** Ends the token at its ':', if it has an operand; `last` is where the last substring starts, `ptr` where it ends. */
  method SplitToken(buf: array<char>, rule: nat, ghost s: string) returns (operandAt: Option<nat>, last: nat, ptr: nat, ghost t: string)
    requires Holds(buf[..], rule, s)
    modifies buf
    ensures operandAt.Some? <==> Operand(s).Some?
    ensures operandAt.None? ==> last == rule && t == s && buf[..] == old(buf[..])
    ensures operandAt.Some? ==> last == operandAt.value == rule + |Token(s)| + 1 && t == s[|Token(s)| + 1..] && Holds(buf[..], rule, Token(s))
    ensures Holds(buf[..], last, t) && ptr == last + Find(t, "&|") == rule + Span(s) < buf.Length
    ensures buf[ptr] == if ptr < last + |t| then t[ptr - last] else '\0'
    ensures forall k :: 0 <= k < |t| ==> t[k] != '\0'
  {
    hide Holds;
    ptr := Strpbrk(buf, rule, ":&|", s);
    ghost var p := Find(s, ":&|");
    operandAt, last, t := None, rule, s;
    if buf[ptr] == ':' {
      CutAt(buf[..], rule, s, p);
      buf[ptr] := '\0';
      ptr := ptr + 1;
      operandAt, last, t := Some(ptr), ptr, s[p + 1..];
      ptr := Strpbrk(buf, ptr, "&|", t);
    } else {
      FindIs(s, "&|", p);
    }
  }

  /** Both cuts together: the token, the operand and the rest of the text are strings of their own. */
  method CutCondition(buf: array<char>, rule: nat, ghost s: string)
    returns (operandAt: Option<nat>, more: bool, op: char, ptr: nat)
    requires Holds(buf[..], rule, s)
    modifies buf
    ensures Holds(buf[..], rule, Token(s))
    ensures operandAt.Some? <==> Operand(s).Some?
    ensures operandAt.Some? ==> Holds(buf[..], operandAt.value, Operand(s).value)
    ensures ptr == rule + Span(s) && more == (Span(s) < |s|)
    ensures if more then op == s[Span(s)] && Holds(buf[..], ptr + 1, s[Span(s) + 1..]) else Holds(buf[..], ptr, [])
  {
    hide Find, Token, Operand, Span, Holds;
    var last; ghost var t;
    operandAt, last, ptr, t := SplitToken(buf, rule, s);
    ghost var split := buf[..];
    more, op := Terminate(buf, last, ptr, t);
    CutMeans(s, last - rule, t);
    if operandAt.Some? && more {
      CutElsewhere(split, rule, Token(s), ptr);
    }
    if !more {
      TailHolds(buf[..], last, t, |t|);
      assert t[|t|..] == [];
    }
  }

  /** Ending the last substring ends the condition. */
  lemma {:induction false} CutMeans(s: string, d: nat, t: string)
    requires d <= |s| && t == s[d..] && d == (if Operand(s).Some? then |Token(s)| + 1 else 0)
    requires Span(s) == d + Find(t, "&|")
    ensures Operand(s).Some? ==> Operand(s).value == t[..Find(t, "&|")]
    ensures Operand(s).None? ==> Token(s) == t[..Find(t, "&|")]
    ensures Span(s) < |s| <==> Find(t, "&|") < |t|
    ensures Span(s) < |s| ==> s[Span(s)] == t[Find(t, "&|")] && s[Span(s) + 1..] == t[Find(t, "&|") + 1..]
    ensures Span(s) == |s| ==> t[..Find(t, "&|")] == t
  {
    hide Find;
    var f := Find(t, "&|");
    assert t[..f] == s[d..Span(s)];
    if Span(s) < |s| {
      assert s[Span(s)] == t[f];
      assert s[Span(s) + 1..] == t[f + 1..];
    }
  }

  /** A string is empty exactly if its first character is NUL. */
  lemma EndsAt(buf: seq<char>, at: nat, t: string)
    requires Holds(buf, at, t)
    ensures at < |buf| && (buf[at] == '\0' <==> t == [])
  {
    if t != [] {
      assert buf[at] == t[0];
    }
  }

  /** _cas_cls_parse_condition: cuts the token and the operand out of the buffer and hands them to the constructor. */
  method ParseCondition(buf: array<char>, rule: nat, lOp: LogicalOp, ctr: Constructor, ghost s: string)
    returns (c: Parsed, rule': nat, lOp': LogicalOp)
    requires Holds(buf[..], rule, s)
    modifies buf
    ensures c.NoMore? <==> s == []
    ensures s != [] && Trailing(s) ==> c == Failed(EINVAL)
    ensures s != [] && !Trailing(s) ==>
              && c == AsParsed(Create(Token(s), Operand(s), lOp, ctr))
              && rule' == rule + Advance(s) && rule' > rule
              && Holds(buf[..], rule', s[Advance(s)..])
              && (Span(s) < |s| ==> lOp' == OpOf(s[Span(s)]))
  {
    hide Handler, Token, Operand, Span, Create, Holds;
    c, rule', lOp' := NoMore, rule, lOp;
    EndsAt(buf[..], rule, s);
    if buf[rule] == '\0' {
      return;
    }
    ParsingAdvances(s);
    var operandAt, more, op, ptr := CutCondition(buf, rule, s);
    if more {
      EndsAt(buf[..], ptr + 1, s[Span(s) + 1..]);
    }
    if more && buf[ptr + 1] == '\0' {
      c := Failed(EINVAL);
      return;
    }
    var token := ReadString(buf, rule, Token(s));
    var operand: Option<string> := None;
    if operandAt.Some? {
      var o := ReadString(buf, operandAt.value, Operand(s).value);
      operand := Some(o);
    }
    c := AsParsed(Create(token, operand, lOp, ctr));
    lOp' := if op == '|' then Or else And;
    rule' := if more then ptr + 1 else ptr;
  }

  function Prepend(acc: seq<Condition>, r: Result<seq<Condition>>): Result<seq<Condition>> {
    match r case Ok(cs) => Ok(acc + cs) case Err(e) => Err(e)
  }

  /** Parse, one condition at a time. */
  lemma {:induction false} ParseUnfolds(s: string, lOp: LogicalOp, next: LogicalOp, ctr: Constructor)
    requires s != [] && (Span(s) < |s| ==> next == OpOf(s[Span(s)]))
    ensures Parse(s, lOp, ctr)
            == if Trailing(s) then Err(EINVAL)
               else match Create(Token(s), Operand(s), lOp, ctr)
                 case Err(e) => Err(e)
                 case Ok(c) => Prepend([c], Parse(s[Advance(s)..], next, ctr))
  {
    hide Handler, Token, Operand, Span, Create;
    if Span(s) == |s| {
      assert s[Advance(s)..] == [];
      var c := Create(Token(s), Operand(s), lOp, ctr);
      assert c.Ok? ==> [c.value] + [] == [c.value];
    }
  }

  lemma PrependTwice(a: seq<Condition>, b: seq<Condition>, r: Result<seq<Condition>>)
    ensures Prepend(a, Prepend(b, r)) == Prepend(a + b, r)
  {
    if r.Ok? {
      assert a + (b + r.value) == a + b + r.value;
    }
  }

  /** _cas_cls_parse_conditions: the in-place loop computes what Parse says of the original text. */
  method ParseConditions(buf: array<char>, ctr: Constructor, ghost s: string) returns (r: Result<seq<Condition>>)
    requires Holds(buf[..], 0, s)
    modifies buf
    ensures r == RuleOf(s, ctr)
  {
    var start: nat, lOp, conditions: seq<Condition> := 0, Or, [];
    ghost var rest := s;
    ghost var goal := Parse(s, Or, ctr);
    assert goal.Ok? ==> [] + goal.value == goal.value;
    hide Holds, Create, Token, Operand, Span, Trailing;
    while true
      invariant Holds(buf[..], start, rest)
      invariant goal == Prepend(conditions, Parse(rest, lOp, ctr))
      decreases |rest|
    {
      var c, start', lOp' := ParseCondition(buf, start, lOp, ctr, rest);
      if rest != [] {
        ParsingAdvances(rest);
        if Trailing(rest) || c.Failed? {
          ParseUnfolds(rest, lOp, if Span(rest) < |rest| then OpOf(rest[Span(rest)]) else And, ctr);
        } else {
          ParseUnfolds(rest, lOp, lOp', ctr);
        }
      }
      assert conditions + [] == conditions;
      hide Parse;
      match c {
        case Failed(e) => return Err(e);
        case NoMore => return Ok(conditions);
        case Got(condition) =>
          PrependTwice(conditions, [condition], Parse(rest[Advance(rest)..], lOp', ctr));
          conditions := conditions + [condition];
          start, lOp := start', lOp';
          rest := rest[Advance(rest)..];
      }
    }
  }
}
