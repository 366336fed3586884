/** CSVFILE: a stream, a line buffer that doubles as needed, and the column pointers of the last line read. */
module CsvFile {
  import opened Basics
  import opened CStrings
  import opened Csv

  const MAX_NUM_COLUMNS := 100
  const MAX_LINE_LENGTH := 8192
  const DEF_ALLOC_COL_PTRS := 2
  const DEF_BUFFER_SIZE := 20

  /** How many characters fgets takes with room for n: up to and including the first newline. */
  function Chunk(s: string, n: nat): (k: nat)
    ensures k <= |s| && k <= n
    ensures forall j :: 0 <= j < k - 1 ==> s[j] != '\n'
    ensures k < n && k < |s| ==> k > 0 && s[k - 1] == '\n'
  {
    if n == 0 || s == [] then 0 else if s[0] == '\n' then 1 else 1 + Chunk(s[1..], n - 1)
  }

  /** The stream starts with a newline-terminated line free of NULs. */
  predicate HasLine(input: string) {
    var k := Chunk(input, |input|);
    k > 0 && input[k - 1] == '\n' && Clean(input[..k - 1])
  }

  function FirstLine(input: string): string
    requires HasLine(input)
  {
    input[..Chunk(input, |input|) - 1]
  }

  lemma {:induction false} ChunkOfLine(input: string, n: nat, d: nat)
    requires HasLine(input) && d <= |FirstLine(input)|
    ensures Chunk(input[d..], n) == if |FirstLine(input)| - d < n then |FirstLine(input)| - d + 1 else n
    decreases n, |FirstLine(input)| - d
  {
    var line := FirstLine(input);
    if n > 0 && d < |line| {
      assert input[d..][0] == line[d];
      assert input[d..][1..] == input[d + 1..];
      ChunkOfLine(input, n - 1, d + 1);
    } else if n > 0 {
      assert input[d..][0] == input[|line|];
    }
  }

  /** One fgets into the buffer behind what is already there: the rest of the line, or as much as fits. */
  lemma {:induction false} LineArrives(whole: string, before: seq<char>, after: seq<char>, n: nat, room: nat, i: nat)
    requires HasLine(whole) && room > 0 && n + room + 1 <= |before| && n <= |FirstLine(whole)|
    requires before[..n] == FirstLine(whole)[..n]
    requires var k := Chunk(whole[n..], room); after == before[..n] + whole[n..][..k] + "\0" + before[n + k + 1..]
    requires i <= n + Chunk(whole[n..], room) && (after[i] == '\0' || after[i] == '\n')
    requires forall k :: 0 <= k < i ==> after[k] != '\0' && after[k] != '\n'
    ensures var line := FirstLine(whole);
            if |line| - n < room
            then i == |line| && after[i] == '\n' && after[..i] == line && Chunk(whole[n..], room) == |line| - n + 1
            else i == n + room <= |line| && after[i] == '\0' && after[..i] == line[..i] && Chunk(whole[n..], room) == room
  {
    var line, k := FirstLine(whole), Chunk(whole[n..], room);
    ChunkOfLine(whole, room, n);
    assert |line| < |whole| && whole[|line|] == '\n';
    hide HasLine, Chunk, FirstLine;
    forall j | 0 <= j < n + k
      ensures after[j] == whole[j]
    {
      if j < n {
        assert after[j] == before[..n][j];
      } else {
        assert after[j] == whole[n..][j - n];
      }
    }
    assert after[n + k] == '\0';
    LineIsClean(whole, line, if |line| - n < room then |line| else n + room);
    assert i == if |line| - n < room then |line| else n + room;
    assert after[..i] == whole[..i] == line[..i];
  }

  lemma LineIsClean(whole: string, line: string, m: nat)
    requires HasLine(whole) && line == FirstLine(whole) && m <= |line|
    ensures |line| < |whole| && whole[|line|] == '\n'
    ensures forall j :: 0 <= j < m ==> whole[j] == line[j] && line[j] != '\0' && line[j] != '\n'
    ensures line[..m] == whole[..m]
  {
  }

  lemma {:induction false} ColumnsOnlyGrow(s: Scan)
    requires Valid(s)
    ensures |Run(s).cols| >= |s.cols|
    decreases |s.buf| - s.i
  {
    if s.buf[s.i] != '\0' {
      StepIsValid(s);
      ColumnsOnlyGrow(Step(s));
    }
  }

  /** fgets left the next characters of the stream in the buffer, and i is the first NUL or newline there. */
  ghost predicate Fetched(before: seq<char>, input: string, n: nat, room: nat, after: seq<char>, input': string, i: nat) {
    var k := Chunk(input, room);
    && n + room + 1 <= |before| && k > 0 && i <= n + k && input' == input[k..]
    && after == before[..n] + input[..k] + "\0" + before[n + k + 1..]
    && (after[i] == '\0' || after[i] == '\n') && Clean(after[..i])
  }

  /** fgets stopped for lack of room or at a newline, not at the end of the file. */
  predicate FillsOrEnds(input: string, room: nat) {
    var k := Chunk(input, room);
    k > 0 && (k == room || input[k - 1] == '\n')
  }

  lemma {:induction false} FetchedBounds(before: seq<char>, input: string, n: nat, room: nat, after: seq<char>, input': string,
                                         i: nat, got: bool)
    requires got ==> Fetched(before, input, n, room, after, input', i)
    ensures got ==> |after| == |before| && i < |after| && |input'| < |input| && (after[i] == '\0' || after[i] == '\n')
    ensures got ==> Clean(after[..i])
  {
  }

  /** What that means if the stream starts with a line whose first n characters are in the buffer already. */
  lemma {:induction false} FetchMeans(before: seq<char>, input: string, n: nat, room: nat, after: seq<char>, input': string,
                                      i: nat, whole: string)
    requires HasLine(whole) && Arrived(whole, input, before, n) && room > 0
    requires input != [] ==> Fetched(before, input, n, room, after, input', i)
    ensures input != [] && FillsOrEnds(input, room)
    ensures var line := FirstLine(whole);
            if |line| - n < room
            then i == |line| && after[i] == '\n' && after[..i] == line && input' == whole[|line| + 1..]
            else i == n + room <= |line| && after[i] == '\0' && after[..i] == line[..i] && input' == whole[i..]
  {
    var line := FirstLine(whole);
    LineIsClean(whole, line, 0);
    ChunkOfLine(whole, room, n);
    assert forall k :: 0 <= k < i ==> after[k] == after[..i][k];
    LineArrives(whole, before, after, n, room, i);
    var k := Chunk(input, room);
    assert whole[n..][k..] == whole[n + k..];
    assert k < room ==> input[k - 1] == whole[|line|];
  }

  // ---------------------------------------------------------------- a last line without newline

  /** All that is left of the stream is part of a line that the file ends in. */
  predicate IsTail(input: string) {
    input != [] && Clean(input)
  }

  /** Its first n characters are in the buffer, and the rest has not been read. */
  ghost predicate Pending(whole: string, input: string, buf: seq<char>, n: nat) {
    n <= |whole| && input == whole[n..] && n <= |buf| && buf[..n] == whole[..n]
  }

  /** A line of len characters fills a buffer of that size, or of one of its doublings, to the last place. */
  predicate Fills(len: nat, size: nat)
    requires size > 0
    decreases len + 1 - size
  {
    len + 1 >= size && (len + 1 == size || Fills(len, 2 * size))
  }

  /** The lengths at which a last line without newline is refused by a file that has read no long line before. */
  lemma {:induction false} LostLengths(len: nat)
    requires len <= MAX_LINE_LENGTH
    ensures Fills(len, DEF_BUFFER_SIZE) <==> len in [19, 39, 79, 159, 319, 639, 1279, 2559, 5119]
  {
    assert !Fills(len, 10240);
    FillsNext(len, 5120);
    FillsNext(len, 2560);
    FillsNext(len, 1280);
    FillsNext(len, 640);
    FillsNext(len, 320);
    FillsNext(len, 160);
    FillsNext(len, 80);
    FillsNext(len, 40);
    FillsNext(len, 20);
  }

  lemma FillsNext(len: nat, size: nat)
    requires size > 0
    ensures Fills(len, size) <==> len + 1 == size || Fills(len, 2 * size)
  {
  }

  lemma {:induction false} TailFetched(before: seq<char>, input: string, n: nat, room: nat, after: seq<char>, input': string,
                                       i: nat, whole: string)
    requires Clean(whole) && Pending(whole, input, before, n) && room > 0 && input != []
    requires Fetched(before, input, n, room, after, input', i)
    ensures FillsOrEnds(input, room) <==> |whole| - n >= room
    ensures if |whole| - n < room
            then i == |whole| && after[i] == '\0' && after[..i] == whole && input' == []
            else i == n + room && after[i] == '\0' && after[..i] == whole[..i] && input' == whole[i..]
  {
    var k := Chunk(input, room);
    assert forall j :: 0 <= j < |input| ==> input[j] == whole[n + j];
    assert k == if |input| < room then |input| else room;
    hide Chunk;
    forall j | 0 <= j < n + k
      ensures after[j] == whole[j]
    {
      if j < n {
        assert after[j] == before[..n][j];
      } else {
        assert after[j] == input[j - n];
      }
    }
    assert after[n + k] == '\0';
    assert forall j :: 0 <= j < i ==> after[j] == after[..i][j];
    assert i == n + k;
    assert after[..i] == whole[..i] && whole[n..][k..] == whole[i..];
  }

  /** A line of `len` characters, closed by a NUL, is at the start of the buffer. */
  ghost predicate Terminated(buf: seq<char>, len: nat) {
    len < |buf| && buf[len] == '\0' && Clean(buf[..len])
  }

  lemma TerminatedIsLine(buf: seq<char>, len: nat, line: string)
    requires Terminated(buf, len) && Clean(line) && |line| < |buf| && buf[..|line| + 1] == line + "\0"
    ensures buf[..len] == line
  {
    assert buf[|line|] == buf[..|line| + 1][|line|];
    assert forall k :: 0 <= k < |line| ==> buf[k] == buf[..|line| + 1][k];
    assert forall k :: 0 <= k < len ==> buf[k] == buf[..len][k];
  }

  datatype Status = Failed | More | Complete

  /** The first n characters of the stream's first line are in the buffer, and no more has been read. */
  ghost predicate Arrived(whole: string, input: string, buf: seq<char>, n: nat)
    requires HasLine(whole)
  {
    n <= |FirstLine(whole)| && input == whole[n..] && n <= |buf| && buf[..n] == FirstLine(whole)[..n]
  }

  class CsvFile {
    /** What is left of the stream, and the end-of-file indicator. */
    var input: string
    var eof: bool
    var buffer: array<char>
    var columns: array<Option<nat>>
    var numColumns: nat

    predicate Ready()
      reads this
    {
      buffer.Length >= 2 && columns.Length >= 1 && (eof ==> input == [])
    }

    constructor (input: string)
      ensures Ready() && this.input == input && !eof && fresh(buffer) && fresh(columns)
    {
      this.input, eof, numColumns := input, false, 0;
      buffer := new char[DEF_BUFFER_SIZE](_ => '\0');
      columns := new Option<nat>[DEF_ALLOC_COL_PTRS](_ => None);
    }

    /** fgets(buffer + off, n, f) */
    method Fgets(off: nat, n: nat) returns (got: bool)
      requires n >= 2 && off + n <= buffer.Length && (eof ==> input == [])
      modifies this`input, this`eof, buffer
      ensures eof ==> input == []
      ensures got == (old(input) != [])
      ensures !got ==> buffer[..] == old(buffer[..]) && input == old(input)
      ensures got ==>
                var k := Chunk(old(input), n - 1);
                && k > 0 && buffer[..] == old(buffer[..off]) + old(input)[..k] + "\0" + old(buffer[off + k + 1..])
                && buffer[off + k] == '\0' && input == old(input)[k..]
                && eof == (old(eof) || !(k == n - 1 || old(input)[k - 1] == '\n'))
    {
      if input == [] {
        eof := true;
        return false;
      }
      var k := Chunk(input, n - 1);
      Store(buffer, off, input[..k] + "\0");
      if k < n - 1 && input[k - 1] != '\n' {
        eof := true;
      }
      input := input[k..];
      got := true;
    }

    /** fgets behind the `n` characters already there, and the first NUL or newline of the buffer after it. */
    method Fetch(n: nat) returns (got: bool, i: nat)
      requires n + 2 <= buffer.Length && (eof ==> input == [])
      modifies this`input, this`eof, buffer
      ensures eof ==> input == []
      ensures got == (old(input) != [])
      ensures got ==> Fetched(old(buffer[..]), old(input), n, buffer.Length - n - 1, buffer[..], input, i)
      ensures got ==> eof == (old(eof) || !FillsOrEnds(old(input), old(buffer.Length) - n - 1))
    {
      ghost var k := Chunk(input, buffer.Length - n - 1);
      i := 0;
      got := Fgets(n, buffer.Length - n);
      if got {
        i := LineLength(n + k);
      }
    }

    /** One turn of the reading loop. */
    method ReadMore(n: nat, ghost whole: string, ghost sure: bool, ghost last: bool) returns (status: Status, n': nat, ghost len: nat)
      requires n + 2 <= buffer.Length && (eof ==> input == [])
      requires sure ==> !eof && HasLine(whole) && Arrived(whole, input, buffer[..], n)
      requires last ==> !eof && Clean(whole) && Pending(whole, input, buffer[..], n)
      modifies this`input, this`eof, this`buffer, buffer
      ensures buffer == old(buffer) || fresh(buffer)
      ensures (eof ==> input == []) && (old(input) == [] ==> status == Failed)
      ensures buffer.Length >= 2 && (status == More ==> n' + 2 <= buffer.Length && |input| < |old(input)|)
      ensures status == Complete ==> Terminated(buffer[..], len)
      ensures sure && status == Failed ==> |FirstLine(whole)| > MAX_LINE_LENGTH
      ensures sure && status == More ==> !eof && Arrived(whole, input, buffer[..], n')
      ensures sure && status == Complete ==>
                var line := FirstLine(whole);
                && |line| <= MAX_LINE_LENGTH && |line| < buffer.Length && buffer[..|line| + 1] == line + "\0"
                && input == whole[|line| + 1..] && !eof
      ensures last && status == Failed ==> |whole| > MAX_LINE_LENGTH || |whole| == n
      ensures last && status == More ==>
                !eof && Pending(whole, input, buffer[..], n')
                && n' == old(buffer.Length) - 1 <= |whole| && buffer.Length == 2 * old(buffer.Length)
      ensures last && status == Complete ==>
                && n < |whole| < old(buffer.Length) - 1 && |whole| <= MAX_LINE_LENGTH && buffer == old(buffer)
                && buffer[..|whole| + 1] == whole + "\0" && input == [] && eof
    {
      hide HasLine, FirstLine, Chunk, Fetched, FillsOrEnds, Clean;
      ghost var before, was := buffer[..], input;
      n' := n;
      var got, i := Fetch(n);
      len := i;
      if sure {
        FetchMeans(before, was, n, |before| - n - 1, buffer[..], input, i, whole);
      }
      if last && got {
        TailFetched(before, was, n, |before| - n - 1, buffer[..], input, i, whole);
      }
      FetchedBounds(before, was, n, |before| - n - 1, buffer[..], input, i, got);
      if !got || i > MAX_LINE_LENGTH {
        status := Failed;
        return;
      }
      if buffer[i] == '\0' && !eof {
        n' := buffer.Length - 1;
        Grow();
        status := More;
      } else {
        ghost var full := buffer[..];
        if buffer[i] == '\n' {
          buffer[i] := '\0';
        }
        assert buffer[..i] == full[..i] && buffer[..i + 1] == buffer[..i] + "\0";
        status := Complete;
      }
    }

    /** csv_read_line: reads on until the newline is in the buffer, doubling it each time. */
    method ReadLine() returns (ok: bool, ghost len: nat)
      requires Ready()
      modifies this`input, this`eof, this`buffer, buffer
      ensures Ready() && (buffer == old(buffer) || fresh(buffer))
      ensures ok ==> Terminated(buffer[..], len)
      ensures old(input) == [] ==> !ok
      ensures HasLine(old(input)) ==>
                var line := FirstLine(old(input));
                && (ok <==> |line| <= MAX_LINE_LENGTH)
                && (ok ==> && |line| < buffer.Length && buffer[..|line| + 1] == line + "\0"
                           && input == old(input)[|line| + 1..] && !eof)
      ensures IsTail(old(input)) ==>
                var line := old(input);
                && (ok <==> |line| <= MAX_LINE_LENGTH && !Fills(|line|, old(buffer.Length)))
                && (ok ==> |line| < buffer.Length && buffer[..|line| + 1] == line + "\0" && input == [] && eof)
    {
      var alreadyRead: nat := 0;
      ghost var whole, sure := input, HasLine(input);
      ghost var last := IsTail(input);
      assert sure ==> Arrived(whole, input, buffer[..], 0);
      assert last ==> Pending(whole, input, buffer[..], 0);
      hide HasLine, FirstLine, Chunk, Arrived, Pending, Clean;
      while true
        invariant alreadyRead + 2 <= buffer.Length && columns == old(columns)
        invariant buffer == old(buffer) || fresh(buffer)
        invariant (eof ==> input == []) && (whole == [] ==> input == [])
        invariant sure ==> !eof && Arrived(whole, input, buffer[..], alreadyRead)
        invariant last ==> !eof && Pending(whole, input, buffer[..], alreadyRead)
        invariant last ==> (Fills(|whole|, old(buffer.Length)) <==> alreadyRead == |whole| || Fills(|whole|, buffer.Length))
        decreases |input|
      {
        var status;
        status, alreadyRead, len := ReadMore(alreadyRead, whole, sure, last);
        match status {
          case Failed => return false, len;
          case Complete => return true, len;
          case More =>
        }
      }
    }

    /** realloc to twice the size. */
    method Grow()
      modifies this`buffer
      ensures fresh(buffer) && buffer.Length == 2 * old(buffer.Length)
      ensures buffer[..old(buffer.Length)] == old(buffer[..])
    {
      var bigger := new char[buffer.Length * 2](_ => '\0');
      Store(bigger, 0, buffer[..]);
      buffer := bigger;
    }

    /** ensure_items_array: room for one more column pointer, up to a limit. */
    method EnsureItems() returns (ok: bool)
      requires columns.Length >= 1 && numColumns <= columns.Length
      modifies this`columns
      ensures ok <==> numColumns <= MAX_NUM_COLUMNS
      ensures columns == old(columns) || fresh(columns)
      ensures ok ==> numColumns < columns.Length
      ensures columns.Length >= old(columns.Length) && columns[..old(columns.Length)] == old(columns[..])
    {
      if numColumns > MAX_NUM_COLUMNS {
        return false;
      } else if numColumns < columns.Length {
        return true;
      } else {
        var bigger := new Option<nat>[numColumns * 2](_ => None);
        forall k | 0 <= k < columns.Length {
          bigger[k] := columns[k];
        }
        columns := bigger;
        return true;
      }
    }

    /** The object's memory and the loop's variables are the scan `st`. */
    ghost predicate Mirrors(st: Scan, i: nat, spaces: nat, token: bool, quotation: bool)
      reads this, buffer, columns
    {
      && |st.buf| <= buffer.Length && buffer[..|st.buf|] == st.buf
      && numColumns < columns.Length && columns[..numColumns + 1] == st.cols
      && st.i == i && st.spaces == spaces && st.token == token && st.quotation == quotation
    }

    /** A doubled quote: the column so far moves one place to the right, over the second quote. */
    method DoubledQuote(i: nat, token: bool, ghost st: Scan)
      requires Valid(st) && st.quotation && Mirrors(st, i, st.spaces, token, true) && i + 1 < |st.buf|
      requires st.buf[i] == '"' && st.buf[i + 1] == '"'
      modifies buffer, columns
      ensures Mirrors(Step(st), i + 2, st.spaces, true, true)
    {
      hide Slide, BareStep;
      assert token ==> Last(st).Some? && Last(st).value <= i;
      hide Valid;
      if !token {
        columns[numColumns] := Some(i);
      }
      assert columns[numColumns] == if token then Last(st) else Some(i);
      var col := columns[numColumns].value;
      SlideWithin(st.buf, col, i + 1, buffer[..]);
      SlideRight(buffer, col, i + 1);
      columns[numColumns] := Some(col + 1);
      assert columns[..numColumns + 1] == WithLast(st, Some(col + 1));
    }

    /** A turn inside quotation marks. */
    method QuotedTurn(i: nat, token: bool, ghost st: Scan) returns (i': nat, token': bool, quotation': bool)
      requires Valid(st) && st.quotation && st.buf[st.i] != '\0' && Mirrors(st, i, st.spaces, token, true)
      modifies buffer, columns
      ensures Mirrors(Step(st), i', st.spaces, token', quotation')
    {
      i', token', quotation' := i + 1, token, true;
      assert buffer[i] == st.buf[i] && buffer[i + 1] == st.buf[i + 1];
      if buffer[i] == '"' && buffer[i + 1] == '"' {
        DoubledQuote(i, token, st);
        token' := true;
        i' := i' + 1;
      } else if buffer[i] == '"' {
        quotation' := false;
        token' := false;
        buffer[i] := '\0';
      } else if !token {
        columns[numColumns] := Some(i);
        token' := true;
      }
      hide Slide;
    }

    /** A separator ends the column and the blanks before it; false if the line has too many columns. */
    method NextColumn(i: nat, spaces: nat, token: bool, ghost st: Scan) returns (ok: bool)
      requires Valid(st) && !st.quotation && st.buf[st.i] == SEPARATOR && Mirrors(st, i, spaces, token, false)
      modifies this`numColumns, this`columns, buffer, columns
      ensures columns == old(columns) || fresh(columns)
      ensures numColumns <= columns.Length && columns.Length >= 1
      ensures ok <==> |Step(st).cols| <= MAX_NUM_COLUMNS + 1
      ensures ok ==> Mirrors(Step(st), i + 1, spaces, false, false)
    {
      hide QuotedStep, Slide, Blank;
      ghost var was := buffer[..];
      numColumns := numColumns + 1;
      ok := EnsureItems();
      if !ok {
        return;
      }
      columns[numColumns] := None;
      buffer[i] := '\0';
      EraseBefore(buffer, i, spaces);
      BlankWithin(st.buf[i := '\0'], i, spaces, was[i := '\0']);
      assert columns[..numColumns + 1] == st.cols + [None];
    }

    /** A turn outside quotation marks; false if the line has too many columns. */
    method BareTurn(i: nat, spaces: nat, token: bool, ghost st: Scan)
      returns (ok: bool, i': nat, spaces': nat, token': bool, quotation': bool)
      requires Valid(st) && !st.quotation && st.buf[st.i] != '\0' && Mirrors(st, i, spaces, token, false)
      modifies this`numColumns, this`columns, buffer, columns
      ensures columns == old(columns) || fresh(columns)
      ensures numColumns <= columns.Length && columns.Length >= 1
      ensures ok <==> |Step(st).cols| <= MAX_NUM_COLUMNS + 1 || |Step(st).cols| == |st.cols|
      ensures ok ==> Mirrors(Step(st), i', spaces', token', quotation')
    {
      hide QuotedStep, Slide, Blank;
      ok, i', spaces', token', quotation' := true, i + 1, spaces, token, false;
      assert buffer[i] == st.buf[i];
      if buffer[i] == SEPARATOR {
        ok := NextColumn(i, spaces, token, st);
        token' := false;
      } else if buffer[i] == '"' {
        quotation' := true;
        spaces' := 0;
      } else if !IsSpace(buffer[i]) {
        if !token {
          if columns[numColumns].None? {
            columns[numColumns] := Some(i);
          }
          token' := true;
        }
        spaces' := 0;
      } else {
        token' := false;
        spaces' := spaces + 1;
      }
    }

    /** The character loop of csv_read; false if the line has too many columns. */
    method Split(ghost line: string) returns (ok: bool, i: nat, spaces: nat, token: bool, quotation: bool)
      requires Clean(line) && Mirrors(Start(line), 0, 0, false, false)
      modifies this`numColumns, this`columns, buffer, columns
      ensures columns == old(columns) || fresh(columns)
      ensures columns.Length >= 1
      ensures ok <==> |Run(Start(line)).cols| <= MAX_NUM_COLUMNS + 1
      ensures ok ==> Mirrors(Run(Start(line)), i, spaces, token, quotation)
    {
      ok, i, spaces, token, quotation := true, 0, 0, false, false;
      ghost var st := Start(line);
      while buffer[i] != '\0'
        invariant columns.Length >= 1 && |st.buf| <= buffer.Length
        invariant columns == old(columns) || fresh(columns)
        invariant Valid(st) && Mirrors(st, i, spaces, token, quotation)
        invariant Run(st) == Run(Start(line))
        invariant |st.cols| <= MAX_NUM_COLUMNS + 1
        decreases |st.buf| - st.i
      {
        assert buffer[i] == st.buf[i];
        RunSteps(st);
        StepIsValid(st);
        hide Step, Run, Start;
        if quotation {
          i, token, quotation := QuotedTurn(i, token, st);
          StepInQuotes(st);
        } else {
          ok, i, spaces, token, quotation := BareTurn(i, spaces, token, st);
          if !ok {
            ColumnsOnlyGrow(Step(st));
            return;
          }
        }
        st := Step(st);
      }
      assert buffer[i] == st.buf[i];
    }

    /** csv_read: one line, split into columns in place. */
    method Read() returns (ok: bool, ghost line: string)
      requires Ready()
      modifies this, buffer, columns
      ensures Ready()
      ensures ok ==>
                && Clean(line) && numColumns == |Outcome(line).cols| <= columns.Length && |line| < buffer.Length
                && columns[..numColumns] == Outcome(line).cols && buffer[..|line| + 1] == Outcome(line).buf
      ensures old(input) == [] ==> !ok
      ensures HasLine(old(input)) ==>
                && line == FirstLine(old(input)) && Clean(line)
                && (ok <==> |line| <= MAX_LINE_LENGTH && |Outcome(line).cols| <= MAX_NUM_COLUMNS + 1)
                && (ok ==> input == old(input)[|line| + 1..] && !eof)
      ensures IsTail(old(input)) ==>
                && line == old(input) && Clean(line)
                && (ok <==> && |line| <= MAX_LINE_LENGTH && !Fills(|line|, old(buffer.Length))
                            && |Outcome(line).cols| <= MAX_NUM_COLUMNS + 1)
                && (ok ==> input == [] && eof)
    {
      ghost var sure := HasLine(input) || IsTail(input);
      line := if HasLine(input) then FirstLine(input) else if IsTail(input) then input else "";
      assert Clean(line);
      hide HasLine, FirstLine, Chunk, Outcome, Run, Clean;
      ghost var len;
      ok, len := ReadLine();
      if !ok {
        return;
      }
      if sure {
        TerminatedIsLine(buffer[..], len, line);
      }
      line := buffer[..len];
      ok := SplitLine(len, line);
    }

    /** The columns of the line in the buffer. */
    method SplitLine(ghost len: nat, ghost line: string) returns (ok: bool)
      requires columns.Length >= 1 && Terminated(buffer[..], len) && line == buffer[..len]
      modifies this`numColumns, this`columns, buffer, columns
      ensures columns == old(columns) || fresh(columns)
      ensures columns.Length >= 1 && Clean(line)
      ensures ok <==> |Outcome(line).cols| <= MAX_NUM_COLUMNS + 1
      ensures ok ==>
                && numColumns == |Outcome(line).cols| <= columns.Length && |line| < buffer.Length
                && columns[..numColumns] == Outcome(line).cols && buffer[..|line| + 1] == Outcome(line).buf
    {
      StartHere(buffer[..], len, line);
      OutcomeColumns(line);
      hide Outcome, Run, Start;
      numColumns := 0;
      columns[0] := None;
      var i, spaces, token, quotation;
      ok, i, spaces, token, quotation := Split(line);
      if ok {
        CloseColumns(line, Run(Start(line)), i, spaces, token, quotation);
      }
    }

    /** The end of csv_read: trailing blanks erased, null columns pointed at the end of the line. */
    method CloseColumns(ghost line: string, ghost st: Scan, i: nat, spaces: nat, token: bool, quotation: bool)
      requires Clean(line) && Run(Start(line)) == st
      requires Mirrors(st, i, spaces, token, quotation)
      modifies this`numColumns, buffer, columns
      ensures numColumns == |Outcome(line).cols| <= columns.Length && |line| < buffer.Length
      ensures columns[..numColumns] == Outcome(line).cols && buffer[..|line| + 1] == Outcome(line).buf
    {
      assert Outcome(line) == Finish(st) && st.spaces <= st.i < |st.buf| == |line| + 1;
      hide Run, Outcome, Blank, Pointed;
      BlankWithin(st.buf, i, spaces, buffer[..]);
      EraseBefore(buffer, i, spaces);
      numColumns := numColumns + 1;
      PointAtEnd(columns, numColumns, i);
    }

    /** strlen up to a newline: the first NUL or newline of the buffer. */
    method LineLength(ghost stop: nat) returns (i: nat)
      requires stop < buffer.Length && buffer[stop] == '\0'
      ensures i <= stop && (buffer[i] == '\0' || buffer[i] == '\n')
      ensures forall k :: 0 <= k < i ==> buffer[k] != '\0' && buffer[k] != '\n'
      ensures Clean(buffer[..i])
    {
      i := 0;
      while buffer[i] != '\0' && buffer[i] != '\n'
        invariant i <= stop
        invariant forall k :: 0 <= k < i ==> buffer[k] != '\0' && buffer[k] != '\n'
        decreases stop - i
      {
        i := i + 1;
      }
    }
  }

  /** The memmove_s call of csv_read, from the far end as the ranges overlap. */
  method SlideRight(buf: array<char>, col: nat, i: nat)
    requires col <= i < buf.Length
    modifies buf
    ensures buf[..] == Slide(old(buf[..]), col, i)
  {
    var k := i;
    while k > col
      invariant col <= k <= i
      invariant buf[..] == old(buf[..])[..k + 1] + old(buf[..])[k..i] + old(buf[..])[i + 1..]
    {
      buf[k] := buf[k - 1];
      k := k - 1;
    }
  }

  method EraseBefore(buf: array<char>, i: nat, n: nat)
    requires n <= i <= buf.Length
    modifies buf
    ensures buf[..] == Blank(old(buf[..]), i, n)
  {
    var j := i - n;
    while j != i
      invariant i - n <= j <= i
      invariant forall k :: 0 <= k < buf.Length ==> buf[k] == if i - n <= k < j then '\0' else old(buf[k])
    {
      buf[j] := '\0';
      j := j + 1;
    }
  }

  lemma SlideWithin(line: seq<char>, col: nat, i: nat, whole: seq<char>)
    requires col <= i < |line| <= |whole| && whole[..|line|] == line
    ensures Slide(whole, col, i)[..|line|] == Slide(line, col, i)
  {
  }

  lemma BlankWithin(line: seq<char>, i: nat, n: nat, whole: seq<char>)
    requires n <= i < |line| <= |whole| && whole[..|line|] == line
    ensures Blank(whole, i, n)[..|line|] == Blank(line, i, n)
  {
  }

  lemma StartHere(buf: seq<char>, len: nat, line: string)
    requires Terminated(buf, len) && line == buf[..len]
    ensures Clean(line) && |Start(line).buf| == len + 1 && buf[..len + 1] == Start(line).buf
    ensures Start(line).i == 0 && Start(line).cols == [None] && Start(line).spaces == 0
    ensures !Start(line).token && !Start(line).quotation
  {
  }

  lemma StepInQuotes(st: Scan)
    requires Valid(st) && st.quotation && st.buf[st.i] != '\0'
    ensures |Step(st).cols| == |st.cols| && Step(st).spaces == st.spaces
  {
  }

  lemma OutcomeColumns(line: string)
    requires Clean(line)
    ensures |Outcome(line).cols| == |Run(Start(line)).cols|
  {
  }

  method PointAtEnd(columns: array<Option<nat>>, n: nat, i: nat)
    requires n <= columns.Length
    modifies columns
    ensures columns[..n] == Pointed(old(columns[..n]), i)
  {
    var j := 0;
    while j != n
      invariant 0 <= j <= n
      invariant forall k :: 0 <= k < n ==> columns[k] == if k < j && old(columns[k]).None? then Some(i) else old(columns[k])
    {
      if columns[j].None? {
        columns[j] := Some(i);
      }
      j := j + 1;
    }
  }

  method Store(buf: array<char>, off: nat, s: string)
    requires off + |s| <= buf.Length
    modifies buf
    ensures buf[..] == old(buf[..off]) + s + old(buf[off + |s|..])
  {
    for k := 0 to |s|
      invariant buf[..] == old(buf[..off]) + s[..k] + old(buf[off + k..])
    {
      buf[off + k] := s[k];
    }
  }

  // ---------------------------------------------------------------- reading encoded lines

  /** The columns of the file hold the fields, as csv_get_col returns them. */
  ghost predicate Shows(buffer: seq<char>, columns: seq<Option<nat>>, fields: seq<string>) {
    |columns| == |fields|
    && forall k :: 0 <= k < |fields| ==> columns[k].Some? && Holds(buffer, columns[k].value, fields[k])
  }

  lemma {:induction false} LineComesFirst(row: string, rest: string)
    requires Clean(row)
    ensures HasLine(row + "\n" + rest) && FirstLine(row + "\n" + rest) == row
  {
    var input := row + "\n" + rest;
    var k := Chunk(input, |input|);
    assert input[|row|] == '\n';
    assert forall j :: 0 <= j < |row| ==> input[j] == row[j];
    assert k == |row| + 1;
    assert input[..|row|] == row;
  }

  lemma {:induction false} YieldsShows(buffer: seq<char>, columns: seq<Option<nat>>, s: Scan, fields: seq<string>)
    requires Yields(s, fields) && columns == s.cols && |s.buf| <= |buffer| && buffer[..|s.buf|] == s.buf
    ensures Shows(buffer, columns, fields)
  {
    forall k | 0 <= k < |fields|
      ensures columns[k].Some? && Holds(buffer, columns[k].value, fields[k])
    {
      HoldsIsLocal(s.buf, buffer, columns[k].value, fields[k]);
    }
  }

  /**
   csv_read on a line of encoded fields with any blanks around them, whatever follows it. It is refused exactly
   if the line is longer than allowed or has more columns than allowed; otherwise the columns are the fields,
   without the blanks, and the line is consumed.
   */
  method ReadPadded(file: CsvFile, ghost ps: seq<Padded>, ghost rest: string) returns (ok: bool)
    requires file.Ready() && ps != [] && file.input == PaddedLine(ps) + "\n" + rest
    requires (forall k :: 0 <= k < |ps| ==> ReadablePadded(ps[k])) && Clean(PaddedLine(ps))
    modifies file, file.buffer, file.columns
    ensures ok <==> |PaddedLine(ps)| <= MAX_LINE_LENGTH && |ps| <= MAX_NUM_COLUMNS + 1
    ensures ok ==>
      && file.numColumns == |ps| <= file.columns.Length
      && Shows(file.buffer[..], file.columns[..file.numColumns], Texts(Fields(ps)))
      && file.input == rest && !file.eof && file.Ready()
  {
    PaddedReadsBack(ps);
    hide PaddedLine, ReadablePadded, HasLine, FirstLine, Clean, Outcome, Texts, Fields;
    LineComesFirst(PaddedLine(ps), rest);
    ghost var line;
    ok, line := file.Read();
    if ok {
      YieldsShows(file.buffer[..], file.columns[..file.numColumns], Outcome(line), Texts(Fields(ps)));
    }
  }

  /** The same without blanks. */
  method ReadFields(file: CsvFile, ghost fs: seq<Field>, ghost rest: string) returns (ok: bool)
    requires file.Ready() && fs != [] && file.input == Line(fs) + "\n" + rest
    requires (forall k :: 0 <= k < |fs| ==> Readable(fs[k])) && Clean(Line(fs))
    modifies file, file.buffer, file.columns
    ensures ok <==> |Line(fs)| <= MAX_LINE_LENGTH && |fs| <= MAX_NUM_COLUMNS + 1
    ensures ok ==>
      && file.numColumns == |fs| <= file.columns.Length
      && Shows(file.buffer[..], file.columns[..file.numColumns], Texts(fs))
      && file.input == rest && !file.eof && file.Ready()
  {
    hide PaddedLine, Readable, Clean, Texts, Fields, Line;
    UnpaddedLine(fs);
    ok := ReadPadded(file, Unpadded(fs), rest);
  }
}
