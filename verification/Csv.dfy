/**
 The CSV reader: one line is parsed in place in its buffer, quotes removed by sliding the start of the
 column, blanks and separators overwritten by NULs.

 `Scan` is the state of the character loop of csv_read. Its buffer is the line with its terminating NUL.
 */
module Csv {
  import opened Basics
  import opened CStrings

  const SEPARATOR := ','

  predicate IsSpace(c: char) {
    c == ' ' || '\t' <= c <= '\r'
  }

  /** `cols` are the column pointers so far, the last one for the column being read; None is a null pointer. */
  datatype Scan = Scan(buf: seq<char>, i: nat, cols: seq<Option<nat>>, spaces: nat, token: bool, quotation: bool)

  /** What holds of every scan, whatever the line. */
  ghost predicate Valid(s: Scan) {
    && s.i < |s.buf| && s.buf[|s.buf| - 1] == '\0' && s.cols != [] && s.spaces <= s.i
    && (forall k :: s.i <= k < |s.buf| - 1 ==> s.buf[k] != '\0')
    && (forall c :: 0 <= c < |s.cols| && s.cols[c].Some? ==> s.cols[c].value <= s.i)
    && (s.token ==> s.cols[|s.cols| - 1].Some?)
  }

  function Last(s: Scan): Option<nat>
    requires s.cols != []
  {
    s.cols[|s.cols| - 1]
  }

  function WithLast(s: Scan, c: Option<nat>): seq<Option<nat>>
    requires s.cols != []
  {
    s.cols[|s.cols| - 1 := c]
  }

  /** memmove of the characters from `col` up to (not including) `i` one place to the right. */
  function Slide(buf: seq<char>, col: nat, i: nat): seq<char>
    requires col <= i < |buf|
  {
    buf[..col + 1] + buf[col..i] + buf[i + 1..]
  }

  /** The `n` characters before i become NULs. */
  function Blank(buf: seq<char>, i: nat, n: nat): seq<char>
    requires n <= i <= |buf|
  {
    buf[..i - n] + seq(n, _ => '\0') + buf[i..]
  }

  /** Inside quotation marks. */
  function QuotedStep(s: Scan): Scan
    requires Valid(s) && s.buf[s.i] != '\0'
  {
    var i := s.i;
    if s.buf[i] == '"' && s.buf[i + 1] == '"' then
      var col := if s.token then Last(s).value else i;
      s.(buf := Slide(s.buf, col, i + 1), cols := WithLast(s, Some(col + 1)), token := true, i := i + 2)
    else if s.buf[i] == '"' then
      s.(quotation := false, token := false, buf := s.buf[i := '\0'], i := i + 1)
    else if !s.token then
      s.(cols := WithLast(s, Some(i)), token := true, i := i + 1)
    else
      s.(i := i + 1)
  }

  /** Outside quotation marks. */
  function BareStep(s: Scan): Scan
    requires Valid(s) && s.buf[s.i] != '\0'
  {
    var i := s.i;
    if s.buf[i] == SEPARATOR then
      s.(cols := s.cols + [None], token := false, buf := Blank(s.buf[i := '\0'], i, s.spaces), i := i + 1)
    else if s.buf[i] == '"' then
      s.(quotation := true, spaces := 0, i := i + 1)
    else if !IsSpace(s.buf[i]) then
      s.(cols := if !s.token && Last(s).None? then WithLast(s, Some(i)) else s.cols, token := true, spaces := 0, i := i + 1)
    else
      s.(token := false, spaces := s.spaces + 1, i := i + 1)
  }

  function Step(s: Scan): Scan
    requires Valid(s) && s.buf[s.i] != '\0'
  {
    if s.quotation then QuotedStep(s) else BareStep(s)
  }

  lemma StepIsValid(s: Scan)
    requires Valid(s) && s.buf[s.i] != '\0'
    ensures Valid(Step(s)) && s.i < Step(s).i && |Step(s).buf| == |s.buf|
  {
  }

  /** The loop, up to the terminating NUL. */
  ghost function Run(s: Scan): (r: Scan)
    requires Valid(s)
    ensures Valid(r) && r.buf[r.i] == '\0' && |r.buf| == |s.buf|
    decreases |s.buf| - s.i
  {
    if s.buf[s.i] == '\0' then s else (StepIsValid(s); Run(Step(s)))
  }

  // ---------------------------------------------------------------- encoded lines

  /** A field as it stands in a line: between quotes, bare, or bare up to a quoted part. */
  datatype Field = Quoted(quoted: string) | Bare(bare: string) | Mixed(head: string, tail: string)

  /** What it stands for; a quote that does not come first is a character like any other. */
  function TextOf(f: Field): string {
    match f
    case Quoted(t) => t
    case Bare(t) => t
    case Mixed(head, tail) => head + "\"" + tail
  }

  /** Inner quotes are doubled, as in section 2 of RFC 4180. */
  function Doubled(f: string): string {
    if f == [] then "" else (if f[0] == '"' then "\"\"" else [f[0]]) + Doubled(f[1..])
  }

  function Enc(f: Field): string {
    match f
    case Quoted(t) => "\"" + Doubled(t) + "\""
    case Bare(t) => t
    case Mixed(head, tail) => head + ("\"" + Doubled(tail) + "\"")
  }

  function Line(fs: seq<Field>): string
    requires fs != []
  {
    if |fs| == 1 then Enc(fs[0]) else Enc(fs[0]) + [SEPARATOR] + Line(fs[1..])
  }

  predicate NoNul(t: string) {
    forall k :: 0 <= k < |t| ==> t[k] != '\0'
  }

  /** A text without quote or separator, and without a blank at either end. */
  predicate PlainText(t: string) {
    && (forall k :: 0 <= k < |t| ==> t[k] != '\0' && t[k] != '"' && t[k] != SEPARATOR)
    && (t != [] ==> !IsSpace(t[0]) && !IsSpace(t[|t| - 1]))
  }

  /** No field has a NUL, and what is bare is plain. */
  predicate Readable(f: Field) {
    match f
    case Quoted(t) => NoNul(t)
    case Bare(t) => PlainText(t)
    case Mixed(head, tail) => head != [] && PlainText(head) && NoNul(tail)
  }

  /** A field with blanks around it. */
  datatype Padded = Padded(before: string, field: Field, after: string)

  /** Blanks, tabs and the other white space of the C locale. */
  predicate Blanks(p: string) {
    forall k :: 0 <= k < |p| ==> p[k] == ' ' || p[k] == '\t' || 10 <= p[k] as int <= 13
  }

  predicate ReadablePadded(p: Padded) {
    Blanks(p.before) && Readable(p.field) && Blanks(p.after)
  }

  function PaddedLine(ps: seq<Padded>): string
    requires ps != []
  {
    var first := ps[0].before + Enc(ps[0].field) + ps[0].after;
    if |ps| == 1 then first else first + [SEPARATOR] + PaddedLine(ps[1..])
  }

  lemma RunSteps(s: Scan)
    requires Valid(s) && s.buf[s.i] != '\0'
    ensures Valid(Step(s)) && Run(s) == Run(Step(s))
  {
    StepIsValid(s);
  }

  /** The column being read holds `g`, ending right before i; it starts at or after lo. */
  ghost predicate Reading(s: Scan, g: string, lo: nat) {
    && s.cols != [] && lo <= s.i <= |s.buf|
    && if g == [] then !s.token && Last(s).None?
       else s.token && Last(s).Some? && lo <= Last(s).value && Last(s).value + |g| == s.i && s.buf[Last(s).value..s.i] == g
  }

  /** t follows s with the memory before lo and all finished columns as they were. */
  ghost predicate Follows(s: Scan, t: Scan, lo: nat) {
    && |t.buf| == |s.buf| && |t.cols| == |s.cols| && lo <= |s.buf| && s.cols != []
    && t.cols[..|s.cols| - 1] == s.cols[..|s.cols| - 1]
    && t.buf[..lo] == s.buf[..lo]
  }

  lemma SlideMeans(buf: seq<char>, col: nat, i: nat, g: string, lo: nat)
    requires lo <= col <= i && i + 1 < |buf| && buf[col..i] == g && buf[i] == '"'
    ensures |Slide(buf, col, i + 1)| == |buf|
    ensures Slide(buf, col, i + 1)[col + 1..i + 2] == g + "\""
    ensures Slide(buf, col, i + 1)[i + 2..] == buf[i + 2..]
    ensures Slide(buf, col, i + 1)[..lo] == buf[..lo]
  {
    assert buf[col..i + 1] == g + "\"";
  }

  /** A doubled quote becomes one, and the column's start moves up with it. */
  lemma {:induction false} QuotedQuote(s: Scan, g: string, rest: string, lo: nat)
    requires Valid(s) && s.quotation && Reading(s, g, lo)
    requires s.buf[s.i..] == "\"\"" + rest && rest != []
    ensures s.buf[s.i] == '"' && var t := Step(s);
            && t.quotation && t.spaces == s.spaces && Reading(t, g + "\"", lo) && Follows(s, t, lo)
            && t.buf[t.i..] == rest
  {
    var i := s.i;
    assert |s.buf| == i + 2 + |rest|;
    assert s.buf[i] == s.buf[i..][0] && s.buf[i + 1] == s.buf[i..][1];
    assert s.buf[i + 2..] == s.buf[i..][2..] == rest;
    var col := if s.token then Last(s).value else i;
    assert s.buf[col..i] == g;
    SlideMeans(s.buf, col, i, g, lo);
    hide Valid, Slide;
  }

  /** Any other character is simply part of the column. */
  lemma {:induction false} QuotedPlain(s: Scan, g: string, x: char, rest: string, lo: nat)
    requires Valid(s) && s.quotation && Reading(s, g, lo) && x != '\0' && x != '"'
    requires s.buf[s.i..] == [x] + rest && rest != []
    ensures s.buf[s.i] == x && var t := Step(s);
            && t.quotation && t.spaces == s.spaces && Reading(t, g + [x], lo) && Follows(s, t, lo)
            && t.buf[t.i..] == rest
  {
    var i := s.i;
    assert |s.buf| == i + 1 + |rest|;
    assert s.buf[i] == s.buf[i..][0] && s.buf[i + 1..] == s.buf[i..][1..] == rest;
    var col := if s.token then Last(s).value else i;
    assert s.buf[col..i + 1] == s.buf[col..i] + [x];
    hide Valid;
  }

  /** The closing quote ends the column's string. */
  lemma {:induction false} QuotedClose(s: Scan, g: string, rest: string, lo: nat)
    requires Valid(s) && s.quotation && Reading(s, g, lo) && (forall k :: 0 <= k < |g| ==> g[k] != '\0')
    requires s.buf[s.i..] == "\"" + rest && rest != [] && rest[0] != '"'
    ensures s.buf[s.i] == '"' && var t := Step(s);
            && !t.quotation && !t.token && t.spaces == s.spaces && Follows(s, t, lo)
            && t.buf[t.i..] == rest && t.i == s.i + 1
            && (g == [] ==> Last(t).None?)
            && (g != [] ==> Last(t).Some? && Holds(t.buf, Last(t).value, g) && lo <= Last(t).value && Last(t).value + |g| < t.i)
  {
    var i := s.i;
    assert |s.buf| == i + 1 + |rest|;
    assert s.buf[i] == s.buf[i..][0] && s.buf[i + 1] == s.buf[i..][1];
    assert s.buf[i + 1..] == s.buf[i..][1..] == rest;
    var t := s.buf[i := '\0'];
    assert g != [] ==> t[Last(s).value..i] == s.buf[Last(s).value..i];
    assert t[i + 1..] == s.buf[i + 1..] && t[..lo] == s.buf[..lo];
    hide Valid;
  }

  lemma FollowsTwice(s: Scan, t: Scan, u: Scan, lo: nat)
    requires Follows(s, t, lo) && Follows(t, u, lo)
    ensures Follows(s, u, lo)
  {
  }

  /** What a finished column looks like: its text ends before `hi`, and an empty one is still a null pointer. */
  ghost predicate Column(buf: seq<char>, c: Option<nat>, f: string, hi: nat) {
    if f == [] then c.None? else c.Some? && Holds(buf, c.value, f) && c.value + |f| < hi
  }

  /** The rest of a quoted field: its text is appended to what was read of it, up to and including the closing quote. */
  lemma {:induction false} QuotedBody(s: Scan, g: string, f: string, rest: string, lo: nat) returns (t: Scan)
    requires Valid(s) && s.quotation && s.spaces == 0 && Reading(s, g, lo)
    requires forall k :: 0 <= k < |g + f| ==> (g + f)[k] != '\0'
    requires s.buf[s.i..] == Doubled(f) + "\"" + rest && rest != [] && rest[0] != '"'
    ensures Valid(t) && Run(s) == Run(t) && Follows(s, t, lo) && t.buf[t.i..] == rest
    ensures !t.quotation && !t.token && t.spaces == 0 && lo <= t.i
    ensures Column(t.buf, Last(t), g + f, t.i)
    decreases |f|
  {
    if f == [] {
      assert Doubled(f) + "\"" + rest == "\"" + rest;
      assert g + f == g;
      QuotedClose(s, g, rest, lo);
      RunSteps(s);
      t := Step(s);
    } else {
      var more := Doubled(f[1..]) + "\"" + rest;
      assert Doubled(f) + "\"" + rest == (if f[0] == '"' then "\"\"" else [f[0]]) + more;
      assert (g + f)[|g|] == f[0];
      assert g + [f[0]] + f[1..] == g + f;
      if f[0] == '"' {
        assert g + [f[0]] == g + "\"";
        QuotedQuote(s, g, more, lo);
      } else {
        QuotedPlain(s, g, f[0], more, lo);
      }
      RunSteps(s);
      var u := Step(s);
      hide Step, Valid, Reading;
      t := QuotedBody(u, g + [f[0]], f[1..], rest, lo);
      FollowsTwice(s, u, t, lo);
    }
  }

  /** The bare column being read holds `g`; a trailing blank of it has not been decided on yet. */
  ghost predicate ReadingBare(s: Scan, g: string, lo: nat) {
    && s.cols != [] && lo <= s.i <= |s.buf| && !s.quotation
    && if g == [] then !s.token && Last(s).None?
       else && Last(s).Some? && lo <= Last(s).value && Last(s).value + |g| == s.i && s.buf[Last(s).value..s.i] == g
            && (!IsSpace(g[|g| - 1]) ==> s.spaces == 0 && s.token)
  }

  lemma {:induction false} BareChar(s: Scan, g: string, x: char, rest: string, lo: nat)
    requires Valid(s) && ReadingBare(s, g, lo) && x != '\0' && x != '"' && x != SEPARATOR && (g == [] ==> !IsSpace(x))
    requires s.buf[s.i..] == [x] + rest && rest != []
    ensures s.buf[s.i] == x && var t := Step(s);
            ReadingBare(t, g + [x], lo) && Follows(s, t, lo) && t.buf[t.i..] == rest
  {
    hide Valid, Blank, QuotedStep, Slide;
    var i := s.i;
    assert |s.buf| == i + 1 + |rest|;
    assert s.buf[i] == s.buf[i..][0] && s.buf[i + 1..] == s.buf[i..][1..] == rest;
    var col := if g == [] then i else Last(s).value;
    assert s.buf[col..i + 1] == s.buf[col..i] + [x];
  }

  /** The buffer once a NUL at i and the counted blanks before it have been written. */
  function Erased(t: Scan): seq<char>
    requires t.spaces <= t.i < |t.buf|
  {
    Blank(t.buf[t.i := '\0'], t.i, t.spaces)
  }

  /** At the end of a field: erasing up to i completes the column's string. */
  ghost predicate Ended(t: Scan, f: string) {
    t.cols != [] && t.spaces <= t.i < |t.buf| && !t.quotation && Column(Erased(t), Last(t), f, t.i - t.spaces + 1)
  }

  lemma {:induction false} BareEnds(t: Scan, g: string, lo: nat)
    requires ReadingBare(t, g, lo) && g != [] && PlainText(g) && t.i < |t.buf|
    ensures t.spaces == 0 && Ended(t, g)
  {
    var buf := Erased(t);
    assert buf == t.buf[t.i := '\0'];
    assert buf[Last(t).value..t.i] == t.buf[Last(t).value..t.i];
  }

  lemma {:induction false} BareBody(s: Scan, g: string, f: string, rest: string, lo: nat) returns (t: Scan)
    requires Valid(s) && ReadingBare(s, g, lo) && g + f != [] && PlainText(g + f)
    requires s.buf[s.i..] == f + rest && rest != []
    ensures Valid(t) && Run(s) == Run(t) && Follows(s, t, lo) && t.buf[t.i..] == rest
    ensures t.spaces == 0 && s.i <= t.i && Ended(t, g + f) && ReadingBare(t, g + f, lo)
    decreases |f|
  {
    if f == [] {
      assert f + rest == rest && g + f == g;
      BareEnds(s, g, lo);
      t := s;
    } else {
      var more := f[1..] + rest;
      assert f + rest == [f[0]] + more;
      assert (g + f)[|g|] == f[0];
      assert g + [f[0]] + f[1..] == g + f;
      BareChar(s, g, f[0], more, lo);
      RunSteps(s);
      StepIsValid(s);
      var u := Step(s);
      hide Step, Valid, ReadingBare, PlainText, Ended;
      t := BareBody(u, g + [f[0]], f[1..], rest, lo);
      FollowsTwice(s, u, t, lo);
    }
  }

  /** A scan about to read a field, with blanks counted that have been erased already or are about to be. */
  ghost predicate AtField(s: Scan) {
    Valid(s) && !s.quotation && !s.token && Last(s).None?
  }

  lemma {:induction false} BlankStep(s: Scan, x: char, rest: string)
    requires Valid(s) && !s.quotation && IsSpace(x) && s.buf[s.i..] == [x] + rest && rest != []
    ensures s.buf[s.i] == x && x != '\0' && Step(s) == s.(token := false, spaces := s.spaces + 1, i := s.i + 1)
    ensures s.buf[s.i + 1..] == rest
  {
    assert |s.buf| == s.i + 1 + |rest|;
    assert s.buf[s.i] == s.buf[s.i..][0] && s.buf[s.i + 1..] == s.buf[s.i..][1..] == rest;
  }

  /** Blanks are counted, and nothing else happens. */
  lemma {:induction false} BlankBody(s: Scan, p: string, rest: string) returns (t: Scan)
    requires Valid(s) && !s.quotation && Blanks(p) && s.buf[s.i..] == p + rest && rest != []
    ensures t == s.(token := s.token && p == [], spaces := s.spaces + |p|, i := s.i + |p|)
    ensures Valid(t) && Run(s) == Run(t) && t.buf[t.i..] == rest
    decreases |p|
  {
    if p == [] {
      assert p + rest == rest;
      t := s;
    } else {
      var more := p[1..] + rest;
      assert p + rest == [p[0]] + more;
      BlankStep(s, p[0], more);
      RunSteps(s);
      hide Step, Valid;
      t := BlankBody(Step(s), p[1..], rest);
    }
  }

  /** Blanks behind a field do not change what erasing makes of it. */
  lemma {:induction false} EndedBeforeBlanks(t: Scan, u: Scan, n: nat, f: string)
    requires Ended(t, f) && u == t.(token := u.token, spaces := t.spaces + n, i := t.i + n) && u.i < |u.buf|
    ensures Ended(u, f)
  {
    var e := t.i - t.spaces;
    assert Erased(u)[..e + 1] == Erased(t)[..e + 1];
    ColumnKept(Erased(t), Erased(u), Last(t), f, e + 1, e + 1);
  }

  lemma {:induction false} OpenQuote(s: Scan, rest: string)
    requires AtField(s) && s.buf[s.i..] == "\"" + rest && rest != []
    ensures s.buf[s.i] == '"' && var t := Step(s);
            && t.quotation && t.spaces == 0 && Reading(t, "", s.i) && Follows(s, t, s.i) && t.buf[t.i..] == rest && t.i > s.i
  {
    assert |s.buf| == s.i + 1 + |rest|;
    assert s.buf[s.i] == s.buf[s.i..][0] && s.buf[s.i + 1..] == s.buf[s.i..][1..] == rest;
  }

  lemma {:induction false} ColumnKept(buf: seq<char>, buf': seq<char>, c: Option<nat>, f: string, hi: nat, hi': nat)
    requires Column(buf, c, f, hi) && hi <= hi' && hi <= |buf| && |buf'| == |buf| && buf'[..hi] == buf[..hi]
    ensures Column(buf', c, f, hi')
  {
    if f != [] {
      forall k | c.value <= k <= c.value + |f|
        ensures buf'[k] == buf[k]
      {
        assert buf'[k] == buf'[..hi][k] && buf[k] == buf[..hi][k];
      }
      HoldsIsLocal(buf, buf', c.value, f);
    }
  }

  lemma {:induction false} QuotedField(s: Scan, text: string, rest: string) returns (t: Scan)
    requires AtField(s) && (forall k :: 0 <= k < |text| ==> text[k] != '\0') && rest != [] && rest[0] != '"'
    requires s.buf[s.i..] == "\"" + (Doubled(text) + "\"" + rest)
    ensures Valid(t) && Run(s) == Run(t) && Follows(s, t, s.i) && t.buf[t.i..] == rest
    ensures Ended(t, text) && t.spaces == 0 && s.i <= t.i
  {
    hide Step, Doubled, Reading, Column, Valid, Ended;
    OpenQuote(s, Doubled(text) + "\"" + rest);
    RunSteps(s);
    assert "" + text == text;
    var u := Step(s);
    hide Run;
    t := QuotedBody(u, "", text, rest, s.i);
    FollowsTwice(s, u, t, s.i);
    QuotedEnds(t, text);
  }

  lemma {:induction false} QuotedEnds(t: Scan, text: string)
    requires Valid(t) && !t.quotation && t.spaces == 0 && Column(t.buf, Last(t), text, t.i)
    ensures Ended(t, text)
  {
    assert Erased(t)[..t.i] == t.buf[..t.i];
    ColumnKept(t.buf, Erased(t), Last(t), text, t.i, t.i + 1);
  }

  lemma EncQuoted(text: string, rest: string)
    ensures Enc(Quoted(text)) + rest == "\"" + (Doubled(text) + "\"" + rest)
  {
    hide Doubled;
  }

  lemma {:induction false} BareField(s: Scan, text: string, rest: string) returns (t: Scan)
    requires AtField(s) && PlainText(text) && s.buf[s.i..] == text + rest && rest != []
    ensures Valid(t) && Run(s) == Run(t) && Follows(s, t, s.i) && t.buf[t.i..] == rest
    ensures Ended(t, text) && s.i - s.spaces <= t.i - t.spaces
  {
    if text == "" {
      assert text + rest == rest;
      t := s;
    } else {
      assert "" + text == text;
      hide Ended, Run, PlainText;
      t := BareBody(s, "", text, rest, s.i);
    }
  }

  lemma EncMixed(head: string, tail: string, rest: string)
    ensures Enc(Mixed(head, tail)) + rest == head + ("\"" + (Doubled(tail) + "\"" + rest))
  {
    hide Doubled;
  }

  /** A quote behind some text is read on as part of it, and what is between it and the closing one is not split. */
  lemma {:induction false} QuoteInside(s: Scan, g: string, rest: string, lo: nat)
    requires Valid(s) && ReadingBare(s, g, lo) && g != [] && s.token
    requires s.buf[s.i..] == "\"" + rest && rest != []
    ensures s.buf[s.i] == '"' && var t := Step(s);
            && t.quotation && t.spaces == 0 && Reading(t, g + "\"", lo) && Follows(s, t, lo) && t.buf[t.i..] == rest && s.i < t.i
  {
    var i := s.i;
    assert |s.buf| == i + 1 + |rest|;
    assert s.buf[i] == s.buf[i..][0] && s.buf[i + 1..] == s.buf[i..][1..] == rest;
    assert s.buf[Last(s).value..i + 1] == s.buf[Last(s).value..i] + "\"";
    hide Valid;
  }

  lemma {:induction false} MixedField(s: Scan, head: string, tail: string, rest: string) returns (t: Scan)
    requires AtField(s) && head != [] && PlainText(head) && NoNul(tail) && rest != [] && rest[0] != '"'
    requires s.buf[s.i..] == head + ("\"" + (Doubled(tail) + "\"" + rest))
    ensures Valid(t) && Run(s) == Run(t) && Follows(s, t, s.i) && t.buf[t.i..] == rest
    ensures Ended(t, head + "\"" + tail) && s.i - s.spaces <= t.i - t.spaces
  {
    assert "" + head == head;
    assert NoNul(head + "\"" + tail);
    assert !IsSpace(head[|head| - 1]);
    hide Step, Doubled, Ended, PlainText;
    var more := Doubled(tail) + "\"" + rest;
    var u := BareBody(s, "", head, "\"" + more, s.i);
    assert u.token;
    QuoteInside(u, head, more, s.i);
    RunSteps(u);
    var v := Step(u);
    hide Run, Valid, Reading, ReadingBare, Column;
    t := QuotedBody(v, head + "\"", tail, rest, s.i);
    FollowsTwice(s, u, v, s.i);
    FollowsTwice(s, v, t, s.i);
    QuotedEnds(t, head + "\"" + tail);
  }

  /** One field, quoted or bare, up to the separator or the end of the line. */
  lemma {:induction false} FieldBody(s: Scan, f: Field, rest: string) returns (t: Scan)
    requires AtField(s) && Readable(f) && s.buf[s.i..] == Enc(f) + rest && rest != [] && rest[0] != '"'
    ensures Valid(t) && Run(s) == Run(t) && Follows(s, t, s.i) && t.buf[t.i..] == rest
    ensures Ended(t, TextOf(f)) && s.i - s.spaces <= t.i - t.spaces
  {
    hide Ended, Run, Doubled, Follows, Valid, PlainText;
    match f
    case Quoted(text) =>
      EncQuoted(text, rest);
      t := QuotedField(s, text, rest);
    case Bare(text) =>
      t := BareField(s, text, rest);
    case Mixed(head, tail) =>
      EncMixed(head, tail, rest);
      t := MixedField(s, head, tail, rest);
  }

  lemma FollowsFrom(s: Scan, t0: Scan, t: Scan)
    requires t0 == s.(token := t0.token, spaces := t0.spaces, i := t0.i) && s.i <= t0.i && Follows(t0, t, t0.i)
    ensures Follows(s, t, s.i)
  {
    assert t.buf[..s.i] == t.buf[..t0.i][..s.i] == t0.buf[..t0.i][..s.i] == s.buf[..s.i];
  }

  lemma Behind(p: Padded, rest: string)
    requires Blanks(p.after) && rest != [] && rest[0] != '"'
    ensures p.before + Enc(p.field) + p.after + rest == p.before + (Enc(p.field) + (p.after + rest))
    ensures (p.after + rest)[0] != '"'
  {
    hide Enc;
    assert (p.after + rest)[0] == if p.after == [] then rest[0] else p.after[0];
  }

  lemma {:induction false} PaddedBody(s: Scan, p: Padded, rest: string) returns (u: Scan)
    requires AtField(s) && ReadablePadded(p) && rest != [] && rest[0] != '"'
    requires s.buf[s.i..] == p.before + Enc(p.field) + p.after + rest
    ensures Valid(u) && Run(s) == Run(u) && Follows(s, u, s.i) && u.buf[u.i..] == rest
    ensures Ended(u, TextOf(p.field)) && s.i - s.spaces <= u.i - u.spaces
  {
    hide Readable, Enc, Blanks, Run, Ended, TextOf, Valid;
    var behind := p.after + rest;
    Behind(p, rest);
    var t0 := BlankBody(s, p.before, Enc(p.field) + behind);
    var t := FieldBody(t0, p.field, behind);
    FollowsFrom(s, t0, t);
    hide Follows;
    u := EndPadded(s, t, p, rest);
  }

  lemma {:induction false} EndPadded(s: Scan, t: Scan, p: Padded, rest: string) returns (u: Scan)
    requires Valid(t) && Ended(t, TextOf(p.field)) && Blanks(p.after) && rest != [] && Follows(s, t, s.i)
    requires t.buf[t.i..] == p.after + rest
    ensures Valid(u) && Run(t) == Run(u) && Follows(s, u, s.i) && u.buf[u.i..] == rest
    ensures Ended(u, TextOf(p.field)) && t.i - t.spaces == u.i - u.spaces
  {
    hide Blanks, Run, Column;
    u := BlankBody(t, p.after, rest);
    EndedBeforeBlanks(t, u, |p.after|, TextOf(p.field));
  }

  /** The separator closes the column, erases blanks, and opens the next one. */
  lemma {:induction false} SeparatorStep(t: Scan, f: string, rest: string)
    requires Valid(t) && Ended(t, f) && t.buf[t.i..] == [SEPARATOR] + rest && rest != []
    ensures t.buf[t.i] == SEPARATOR && var u := Step(t);
            && u == t.(buf := Erased(t), i := t.i + 1, cols := t.cols + [None], token := false) && u.buf[u.i..] == rest
            && Column(u.buf, Last(t), f, u.i - u.spaces)
  {
    var i := t.i;
    assert |t.buf| == i + 1 + |rest|;
    assert t.buf[i] == t.buf[i..][0] && t.buf[i + 1..] == t.buf[i..][1..] == rest;
    assert Erased(t)[i + 1..] == t.buf[i + 1..];
    hide Valid, Column;
  }

  function Texts(fs: seq<Field>): (ts: seq<string>)
    ensures |ts| == |fs|
  {
    seq(|fs|, (i: nat) requires i < |fs| => TextOf(fs[i]))
  }

  /** The first |ts| columns hold `ts`, all of it before `hi`. */
  ghost predicate Columns(buf: seq<char>, cols: seq<Option<nat>>, ts: seq<string>, hi: nat) {
    |ts| <= |cols| && forall k :: 0 <= k < |ts| ==> Column(buf, cols[k], ts[k], hi)
  }

  function Fields(ps: seq<Padded>): (fs: seq<Field>)
    ensures |fs| == |ps|
  {
    seq(|ps|, (i: nat) requires i < |ps| => ps[i].field)
  }

  /** One column more, everything before `lo` being as it was. */
  lemma {:induction false} ColumnsGrow(s: Scan, t: Scan, buf: seq<char>, cols: seq<Option<nat>>, ts: seq<string>, f: string, lo: nat, hi: nat)
    requires s.cols != [] && |ts| == |s.cols| - 1 && Columns(s.buf, s.cols, ts, lo) && Follows(s, t, s.i)
    requires |buf| == |t.buf| && lo <= s.i && buf[..lo] == t.buf[..lo] && lo <= hi
    requires t.cols <= cols && Column(buf, Last(t), f, hi)
    ensures Columns(buf, cols, ts + [f], hi)
  {
    assert t.buf[..lo] == t.buf[..s.i][..lo] == s.buf[..s.i][..lo] == s.buf[..lo];
    forall k | 0 <= k < |ts| + 1
      ensures Column(buf, cols[k], (ts + [f])[k], hi)
    {
      if k < |ts| {
        assert t.cols[k] == t.cols[..|s.cols| - 1][k] == s.cols[k];
        ColumnKept(s.buf, buf, s.cols[k], ts[k], lo, hi);
      }
    }
  }

  /** A field and its separator: one column more, and the scan is at the next field. */
  lemma {:induction false} NextField(s: Scan, ts: seq<string>, p: Padded, rest: string) returns (v: Scan)
    requires AtField(s) && ReadablePadded(p) && rest != []
    requires |ts| == |s.cols| - 1 && Columns(s.buf, s.cols, ts, s.i - s.spaces)
    requires s.buf[s.i..] == p.before + Enc(p.field) + p.after + ([SEPARATOR] + rest)
    ensures AtField(v) && Run(s) == Run(v) && v.buf[v.i..] == rest && |v.cols| == |s.cols| + 1
    ensures Columns(v.buf, v.cols, ts + [TextOf(p.field)], v.i - v.spaces)
  {
    hide Step, ReadablePadded, Column, Enc, Blank, Columns;
    var lo := s.i - s.spaces;
    var u := PaddedBody(s, p, [SEPARATOR] + rest);
    SeparatorStep(u, TextOf(p.field), rest);
    RunSteps(u);
    v := Step(u);
    ErasedKeeps(u, lo);
    hide Valid, Run;
    ColumnsGrow(s, u, v.buf, v.cols, ts, TextOf(p.field), lo, v.i - v.spaces);
  }

  lemma {:induction false} LastField(s: Scan, ts: seq<string>, p: Padded) returns (t: Scan)
    requires AtField(s) && ReadablePadded(p)
    requires |ts| == |s.cols| - 1 && Columns(s.buf, s.cols, ts, s.i - s.spaces)
    requires s.buf[s.i..] == p.before + Enc(p.field) + p.after + "\0"
    ensures Valid(t) && Run(s) == t && t.i == |t.buf| - 1 && |t.cols| == |s.cols|
    ensures Columns(Blank(t.buf, t.i, t.spaces), t.cols, ts + [TextOf(p.field)], |t.buf|)
  {
    hide Step, ReadablePadded, Column, Enc, Blank, Columns;
    var lo := s.i - s.spaces;
    t := PaddedBody(s, p, "\0");
    assert t.buf[t.i] == t.buf[t.i..][0] == '\0';
    assert t.buf[t.i := '\0'] == t.buf;
    ErasedKeeps(t, lo);
    ColumnHigher(Erased(t), Last(t), TextOf(p.field), t.i - t.spaces + 1, |t.buf|);
    ColumnsGrow(s, t, Erased(t), t.cols, ts, TextOf(p.field), lo, |t.buf|);
  }

  /** The whole line: every column ends up holding its field, the blanks around it erased. */
  lemma {:induction false} LineBody(s: Scan, ts: seq<string>, ps: seq<Padded>) returns (t: Scan)
    requires AtField(s) && ps != [] && (forall k :: 0 <= k < |ps| ==> ReadablePadded(ps[k]))
    requires |ts| == |s.cols| - 1 && Columns(s.buf, s.cols, ts, s.i - s.spaces)
    requires s.buf[s.i..] == PaddedLine(ps) + "\0"
    ensures Valid(t) && Run(s) == t && t.i == |t.buf| - 1
    ensures |t.cols| == |ts| + |ps| && Columns(Blank(t.buf, t.i, t.spaces), t.cols, ts + Texts(Fields(ps)), |t.buf|)
    decreases |ps|
  {
    hide ReadablePadded, Enc, Blank, Columns, Run;
    var first := ps[0].before + Enc(ps[0].field) + ps[0].after;
    var text := TextOf(ps[0].field);
    if |ps| == 1 {
      assert PaddedLine(ps) == first;
      assert Texts(Fields(ps)) == [text];
      t := LastField(s, ts, ps[0]);
    } else {
      var rest := PaddedLine(ps[1..]) + "\0";
      assert PaddedLine(ps) + "\0" == first + ([SEPARATOR] + rest);
      var v := NextField(s, ts, ps[0], rest);
      t := LineBody(v, ts + [text], ps[1..]);
      assert Fields(ps)[1..] == Fields(ps[1..]);
      assert ts + [text] + Texts(Fields(ps[1..])) == ts + Texts(Fields(ps));
    }
  }

  lemma ErasedKeeps(t: Scan, lo: nat)
    requires t.spaces <= t.i < |t.buf| && lo <= t.i - t.spaces
    ensures |Erased(t)| == |t.buf| && Erased(t)[..lo] == t.buf[..lo]
  {
  }

  lemma ColumnHigher(buf: seq<char>, c: Option<nat>, f: string, hi: nat, hi': nat)
    requires Column(buf, c, f, hi) && hi <= hi'
    ensures Column(buf, c, f, hi')
  {
  }

  // ---------------------------------------------------------------- results

  function Start(line: string): Scan {
    Scan(line + "\0", 0, [None], 0, false, false)
  }

  predicate Clean(line: string) {
    forall k :: 0 <= k < |line| ==> line[k] != '\0' && line[k] != '\n'
  }

  /** Null pointers become pointers to i. */
  function Pointed(cols: seq<Option<nat>>, i: nat): seq<Option<nat>> {
    seq(|cols|, (k: nat) requires k < |cols| => if cols[k].None? then Some(i) else cols[k])
  }

  /** After the loop: trailing blanks erased, and columns without text pointed at the end of the line. */
  function Finish(s: Scan): Scan
    requires s.spaces <= s.i <= |s.buf|
  {
    s.(buf := Blank(s.buf, s.i, s.spaces), cols := Pointed(s.cols, s.i))
  }

  ghost function Outcome(line: string): Scan
    requires Clean(line)
  {
    Finish(Run(Start(line)))
  }

  /** The fields of a line as csv_get_col returns them. */
  ghost predicate Yields(s: Scan, ts: seq<string>) {
    |s.cols| == |ts| && forall k :: 0 <= k < |ts| ==> s.cols[k].Some? && Holds(s.buf, s.cols[k].value, ts[k])
  }

  /** Reading a line of encoded fields with blanks around them gives back exactly the fields. */
  lemma {:induction false} PaddedReadsBack(ps: seq<Padded>)
    requires ps != [] && (forall k :: 0 <= k < |ps| ==> ReadablePadded(ps[k])) && Clean(PaddedLine(ps))
    ensures Yields(Outcome(PaddedLine(ps)), Texts(Fields(ps)))
  {
    hide ReadablePadded;
    var s := Start(PaddedLine(ps));
    assert s.buf[0..] == PaddedLine(ps) + "\0";
    var t := LineBody(s, [], ps);
    var ts := Texts(Fields(ps));
    assert [] + ts == ts;
    hide Run, Texts, Fields, PaddedLine, Columns;
    FinishYields(t, ts);
  }

  lemma {:induction false} FinishYields(t: Scan, ts: seq<string>)
    requires Valid(t) && t.i == |t.buf| - 1 && |t.cols| == |ts| && Columns(Blank(t.buf, t.i, t.spaces), t.cols, ts, |t.buf|)
    ensures Yields(Finish(t), ts)
  {
    var r := Finish(t);
    assert r.buf[|r.buf| - 1] == '\0';
    hide Blank;
    forall k | 0 <= k < |ts|
      ensures r.cols[k].Some? && Holds(r.buf, r.cols[k].value, ts[k])
    {
      assert Column(r.buf, t.cols[k], ts[k], |t.buf|);
      assert r.buf[t.i..t.i] == [];
    }
  }

  function Unpadded(fs: seq<Field>): (ps: seq<Padded>)
    ensures |ps| == |fs|
  {
    seq(|fs|, (i: nat) requires i < |fs| => Padded("", fs[i], ""))
  }

  lemma {:induction false} UnpaddedLine(fs: seq<Field>)
    requires fs != []
    ensures PaddedLine(Unpadded(fs)) == Line(fs) && Fields(Unpadded(fs)) == fs
    decreases |fs|
  {
    hide Enc;
    assert "" + Enc(fs[0]) + "" == Enc(fs[0]);
    if |fs| > 1 {
      assert Unpadded(fs)[1..] == Unpadded(fs[1..]);
      UnpaddedLine(fs[1..]);
    }
  }

  /** Reading an encoded line gives back exactly the encoded fields. */
  lemma {:induction false} ReadsBack(fs: seq<Field>)
    requires fs != [] && (forall k :: 0 <= k < |fs| ==> Readable(fs[k])) && Clean(Line(fs))
    ensures Yields(Outcome(Line(fs)), Texts(fs))
  {
    hide Readable, Outcome;
    UnpaddedLine(fs);
    PaddedReadsBack(Unpadded(fs));
  }

  // ---------------------------------------------------------------- blanks, on any line

  /** Ahead of i the buffer is the line itself, and the counted blanks are blanks or separators of it. */
  ghost predicate Trail(s: Scan, line: string) {
    && |s.buf| == |line| + 1 && s.i <= |line| && s.buf[s.i..] == (line + "\0")[s.i..] && s.spaces <= s.i
    && (forall k :: s.i - s.spaces <= k < s.i ==> IsSpace(line[k]) || line[k] == SEPARATOR)
    && (s.quotation ==> s.spaces == 0)
  }

  /** A step leaves the line ahead of it alone. */
  lemma {:induction false} StepKeepsAhead(s: Scan)
    requires Valid(s) && s.buf[s.i] != '\0'
    ensures s.i < Step(s).i < |s.buf| == |Step(s).buf| && Step(s).buf[Step(s).i..] == s.buf[Step(s).i..]
  {
    StepIsValid(s);
  }

  lemma {:induction false} StepKeepsTrail(s: Scan, line: string)
    requires Valid(s) && s.buf[s.i] != '\0' && Trail(s, line)
    ensures Trail(Step(s), line)
  {
    StepKeepsAhead(s);
    var t := Step(s);
    var whole := line + "\0";
    assert s.buf[t.i..] == s.buf[s.i..][t.i - s.i..] == whole[s.i..][t.i - s.i..] == whole[t.i..];
    assert s.buf[s.i] == s.buf[s.i..][0] == whole[s.i];
    hide Slide, Blank, Valid;
  }

  /** The scan after n turns of the loop, or at its end. */
  ghost function After(s: Scan, n: nat): (r: Scan)
    requires Valid(s)
    ensures Valid(r)
    decreases n
  {
    if n == 0 || s.buf[s.i] == '\0' then s else (StepIsValid(s); After(Step(s), n - 1))
  }

  lemma {:induction false} TrailAlways(s: Scan, line: string, n: nat)
    requires Valid(s) && Trail(s, line)
    ensures Trail(After(s, n), line)
    decreases n
  {
    if n > 0 && s.buf[s.i] != '\0' {
      StepIsValid(s);
      StepKeepsTrail(s, line);
      TrailAlways(Step(s), line, n - 1);
    }
  }

  /** Whatever the line, the characters about to be erased as blanks are blanks or separators, never part of a field. */
  lemma {:induction false} OnlyBlanksErased(line: string, n: nat, k: nat)
    requires Clean(line)
    requires var s := After(Start(line), n); s.i - s.spaces <= k < s.i
    ensures k < |line| && (IsSpace(line[k]) || line[k] == SEPARATOR)
  {
    TrailAlways(Start(line), line, n);
  }
}
