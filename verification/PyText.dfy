/**
 The Python string operations the configuration file is read and written with.
 */
module PyText {
  import opened Basics

  /** str.isspace, one character at a time. */
  predicate IsSpace(c: char) {
    var n := c as int;
    9 <= n <= 13 || 28 <= n <= 32 || n == 0x85 || n == 0xA0 || n == 0x1680 || 0x2000 <= n <= 0x200A
    || n == 0x2028 || n == 0x2029 || n == 0x202F || n == 0x205F || n == 0x3000
  }

  predicate NoSpace(s: string) {
    forall i :: 0 <= i < |s| ==> !IsSpace(s[i])
  }

  /** Every character of s occurs in t. */
  ghost predicate DrawnFrom(s: string, t: string) {
    forall i :: 0 <= i < |s| ==> s[i] in t
  }

  // ---------------------------------------------------------------- lower

  function LowerChar(c: char): char {
    if 'A' <= c <= 'Z' then (c as int + 32) as char else c
  }

  function Lower(s: string): string {
    seq(|s|, i requires 0 <= i < |s| => LowerChar(s[i]))
  }

  // ---------------------------------------------------------------- split on a character, and join

  /** s.split(c): always at least one part. */
  function SplitOn(s: string, c: char): (parts: seq<string>)
    ensures parts != []
  {
    if s == "" then [""]
    else if s[0] == c then [""] + SplitOn(s[1..], c)
    else
      var rest := SplitOn(s[1..], c);
      [[s[0]] + rest[0]] + rest[1..]
  }

  /** sep.join(parts) for a one-character separator. */
  function Join(parts: seq<string>, sep: char): string {
    if parts == [] then ""
    else if |parts| == 1 then parts[0]
    else parts[0] + [sep] + Join(parts[1..], sep)
  }

  lemma {:induction false} SplitNothing(s: string, c: char)
    requires c !in s
    ensures SplitOn(s, c) == [s]
  {
    if s != "" {
      SplitNothing(s[1..], c);
      assert s[0] in s && [s[0]] + s[1..] == s;
    }
  }

  lemma {:induction false} SplitFirst(s: string, c: char, rest: string)
    requires c !in s
    ensures SplitOn(s + [c] + rest, c) == [s] + SplitOn(rest, c)
  {
    if s == "" {
      assert (s + [c] + rest)[1..] == rest;
    } else {
      SplitFirst(s[1..], c, rest);
      assert (s + [c] + rest)[1..] == s[1..] + [c] + rest;
      assert s[0] in s && [s[0]] + s[1..] == s;
    }
  }

  /** Splitting undoes joining when no part holds the separator. */
  lemma {:induction false} SplitJoin(parts: seq<string>, c: char)
    requires parts != [] && forall i :: 0 <= i < |parts| ==> c !in parts[i]
    ensures SplitOn(Join(parts, c), c) == parts
  {
    if |parts| == 1 {
      SplitNothing(parts[0], c);
    } else {
      SplitFirst(parts[0], c, Join(parts[1..], c));
      SplitJoin(parts[1..], c);
    }
  }

  /** And joining undoes splitting. */
  lemma {:induction false} JoinSplit(s: string, c: char)
    ensures Join(SplitOn(s, c), c) == s
  {
    if s != "" {
      JoinSplit(s[1..], c);
      var rest := SplitOn(s[1..], c);
      if s[0] == c {
        assert ([""] + rest)[1..] == rest;
        assert s == [c] + s[1..];
      } else {
        var all := [[s[0]] + rest[0]] + rest[1..];
        assert all[1..] == rest[1..];
        assert s == [s[0]] + s[1..];
      }
    }
  }

  lemma {:induction false} SplitParts(s: string, c: char)
    ensures forall i :: 0 <= i < |SplitOn(s, c)| ==> c !in SplitOn(s, c)[i] && DrawnFrom(SplitOn(s, c)[i], s)
  {
    if s != "" {
      SplitParts(s[1..], c);
    }
  }

  // ---------------------------------------------------------------- split on white space

  function SkipSpaces(s: string): (t: string)
    ensures |t| <= |s| && (t == "" || !IsSpace(t[0]))
  {
    if s != "" && IsSpace(s[0]) then SkipSpaces(s[1..]) else s
  }

  function WordLength(s: string): (n: nat)
    ensures n <= |s| && (s != "" && !IsSpace(s[0]) ==> n > 0)
  {
    if s == "" || IsSpace(s[0]) then 0 else 1 + WordLength(s[1..])
  }

  /** s.split() */
  function Words(s: string): seq<string>
    decreases |s|
  {
    var t := SkipSpaces(s);
    if t == "" then [] else [t[..WordLength(t)]] + Words(t[WordLength(t)..])
  }

  lemma {:induction false} SkipSpacesDrawn(s: string)
    ensures DrawnFrom(SkipSpaces(s), s)
  {
    if s != "" && IsSpace(s[0]) {
      SkipSpacesDrawn(s[1..]);
    }
  }

  lemma {:induction false} WordHasNoSpace(s: string)
    ensures NoSpace(s[..WordLength(s)])
  {
    if s != "" && !IsSpace(s[0]) {
      WordHasNoSpace(s[1..]);
      assert s[..WordLength(s)] == [s[0]] + s[1..][..WordLength(s[1..])];
    }
  }

  /** A word: what split() can yield. */
  ghost predicate Word(s: string) {
    s != "" && NoSpace(s)
  }

  lemma {:induction false} WordsAreWords(s: string)
    ensures forall i :: 0 <= i < |Words(s)| ==> Word(Words(s)[i]) && DrawnFrom(Words(s)[i], s)
    decreases |s|
  {
    var t := SkipSpaces(s);
    if t != "" {
      var n := WordLength(t);
      SkipSpacesDrawn(s);
      WordHasNoSpace(t);
      WordsAreWords(t[n..]);
      var more := Words(t[n..]);
      forall i | 0 <= i < |more|
        ensures DrawnFrom(more[i], s)
      {
        forall j | 0 <= j < |more[i]|
          ensures more[i][j] in s
        {
          assert more[i][j] in t[n..];
        }
      }
    }
  }

  lemma {:induction false} WordEnds(w: string, rest: string)
    requires NoSpace(w) && (rest == "" || IsSpace(rest[0]))
    ensures WordLength(w + rest) == |w|
  {
    if w == "" {
      assert w + rest == rest;
    } else {
      WordEnds(w[1..], rest);
      assert (w + rest)[1..] == w[1..] + rest;
    }
  }

  /** split() undoes joining words with tabs. */
  lemma {:induction false} WordsJoin(words: seq<string>)
    requires forall i :: 0 <= i < |words| ==> Word(words[i])
    ensures Words(Join(words, '\t')) == words
  {
    if words != [] {
      var w := words[0];
      var rest := if |words| == 1 then "" else "\t" + Join(words[1..], '\t');
      var s := Join(words, '\t');
      assert s == w + rest;
      WordEnds(w, rest);
      assert s[0] == w[0] && SkipSpaces(s) == s;
      assert s[..|w|] == w && s[|w|..] == rest;
      if |words| > 1 {
        WordsJoin(words[1..]);
        LeadingTab(Join(words[1..], '\t'));
      }
    }
  }

  lemma {:induction false} LeadingTab(s: string)
    ensures Words("\t" + s) == Words(s)
  {
    var t := "\t" + s;
    assert IsSpace(t[0]) && t[1..] == s;
    assert SkipSpaces(t) == SkipSpaces(s);
  }

  // ---------------------------------------------------------------- comments, trailing space, lines

  function RStrip(s: string): string {
    if s != "" && IsSpace(s[|s| - 1]) then RStrip(s[..|s| - 1]) else s
  }

  /** line.split('#')[0].rstrip() */
  function Content(line: string): string {
    RStrip(SplitOn(line, '#')[0])
  }

  lemma {:induction false} RStripDrawn(s: string)
    ensures DrawnFrom(RStrip(s), s)
  {
    if s != "" && IsSpace(s[|s| - 1]) {
      RStripDrawn(s[..|s| - 1]);
    }
  }

  lemma {:induction false} ContentHasNoHash(line: string)
    ensures '#' !in Content(line)
  {
    SplitParts(line, '#');
    RStripDrawn(SplitOn(line, '#')[0]);
  }

  /** What is written as one line comes back as it was. */
  lemma {:induction false} ContentOfLine(s: string)
    requires s != "" && '#' !in s && !IsSpace(s[|s| - 1])
    ensures Content(s + "\n") == s
  {
    var t := s + "\n";
    SplitNothing(t, '#');
    assert IsSpace(t[|s|]) && t[..|s|] == s;
    assert RStrip(t) == RStrip(s);
  }

  /** The lines of a text as a file yields them, each with its newline. */
  function Lines(text: string): seq<string> {
    if text == "" then []
    else if '\n' !in text then [text]
    else
      var n := LineLength(text);
      [text[..n]] + Lines(text[n..])
  }

  function LineLength(text: string): (n: nat)
    requires '\n' in text
    ensures 0 < n <= |text|
  {
    if text[0] == '\n' then 1 else 1 + LineLength(text[1..])
  }

  lemma {:induction false} LineEnds(s: string, rest: string)
    requires '\n' !in s
    ensures '\n' in s + "\n" + rest && LineLength(s + "\n" + rest) == |s| + 1
  {
    var t := s + "\n" + rest;
    assert t[|s|] == '\n';
    if s != "" {
      LineEnds(s[1..], rest);
      assert t[1..] == s[1..] + "\n" + rest;
    }
  }

  lemma {:induction false} FirstLine(s: string, rest: string)
    requires '\n' !in s
    ensures Lines(s + "\n" + rest) == [s + "\n"] + Lines(rest)
  {
    var t := s + "\n" + rest;
    LineEnds(s, rest);
    assert t[..|s| + 1] == s + "\n" && t[|s| + 1..] == rest;
  }

  function Concat(lines: seq<string>): string {
    if lines == [] then "" else lines[0] + Concat(lines[1..])
  }

  ghost predicate IsLine(s: string) {
    s != "" && s[|s| - 1] == '\n' && '\n' !in s[..|s| - 1]
  }

  /** A text written line by line is read line by line. */
  lemma {:induction false} LinesConcat(lines: seq<string>)
    requires forall i :: 0 <= i < |lines| ==> IsLine(lines[i])
    ensures Lines(Concat(lines)) == lines
  {
    if lines != [] {
      var s := lines[0];
      assert s == s[..|s| - 1] + "\n";
      FirstLine(s[..|s| - 1], Concat(lines[1..]));
      LinesConcat(lines[1..]);
    }
  }

  // ---------------------------------------------------------------- numbers

  /** str(n) */
  function Decimal(n: nat): (s: string)
    ensures s != "" && forall i :: 0 <= i < |s| ==> IsDigit(s[i])
  {
    if n < 10 then [('0' as int + n) as char] else Decimal(n / 10) + [('0' as int + n % 10) as char]
  }

  /** Digits with single underscores between them. */
  function Digits(s: string): Option<nat> {
    if s == "" || !IsDigit(s[|s| - 1]) then None
    else
      var d := s[|s| - 1] as int - '0' as int;
      var front := s[..|s| - 1];
      if front == "" then Some(d)
      else
        var more := Digits(if front[|front| - 1] == '_' then front[..|front| - 1] else front);
        if more.Some? then Some(10 * more.value + d) else None
  }

  /** int(s) on a word of ASCII characters. */
  function PyInt(s: string): Option<int> {
    if s != "" && (s[0] == '-' || s[0] == '+') then
      var n := Digits(s[1..]);
      if n.None? then None else var v: int := n.value; Some(if s[0] == '-' then -v else v)
    else
      var n := Digits(s);
      if n.None? then None else Some(n.value)
  }

  lemma {:induction false} DigitsOfDecimal(n: nat)
    ensures Digits(Decimal(n)) == Some(n)
  {
    var s := Decimal(n);
    if n >= 10 {
      DigitsOfDecimal(n / 10);
      assert s[..|s| - 1] == Decimal(n / 10);
    }
  }

  lemma {:induction false} IntOfDecimal(n: nat)
    ensures PyInt(Decimal(n)) == Some(n)
  {
    DigitsOfDecimal(n);
    assert IsDigit(Decimal(n)[0]);
  }

  lemma {:induction false} DecimalIsWord(n: nat)
    ensures Word(Decimal(n)) && '#' !in Decimal(n) && '\n' !in Decimal(n)
  {
  }
}
