/**
 Writing a configuration that was read from a file, and reading it again.
 */
module ConfigRoundTrip {
  import opened Basics
  import opened PyText
  import opened PyPath
  import opened Config

  // ---------------------------------------------------------------- what reading a line yields is plain

  ghost predicate PlainPiece(s: string) {
    NoSpace(s) && '#' !in s && ',' !in s && Lower(s) == s
  }

  lemma {:induction false} DrawnIsPlain(s: string, t: string)
    requires DrawnFrom(s, t) && NoSpace(t) && '#' !in t && Lower(t) == t
    ensures NoSpace(s) && '#' !in s && Lower(s) == s
  {
    LowerFixed(t);
    forall i | 0 <= i < |s|
      ensures !IsSpace(s[i]) && s[i] != '#' && LowerChar(s[i]) == s[i]
    {
      var j :| 0 <= j < |t| && t[j] == s[i];
    }
    FixedLower(s);
  }

  lemma {:induction false} LowerIsPlain(s: string)
    requires NoSpace(s) && '#' !in s
    ensures NoSpace(Lower(s)) && '#' !in Lower(s) && Lower(Lower(s)) == Lower(s)
  {
    FixedLower(Lower(s));
  }

  lemma {:induction false} ParsedPieces(pieces: seq<string>, acc: seq<Param>)
    requires PlainParams(acc) && forall i :: 0 <= i < |pieces| ==> PlainPiece(pieces[i])
    ensures var r := ParsePieces(pieces, acc); r.Some? ==> PlainParams(r.value)
    decreases |pieces|
  {
    if pieces != [] {
      var kv := SplitOn(pieces[0], '=');
      if |kv| == 2 && !Named(acc, kv[0]) {
        SplitParts(pieces[0], '=');
        DrawnIsPlain(kv[0], pieces[0]);
        DrawnIsPlain(kv[1], pieces[0]);
        DrawnAvoids(kv[0], pieces[0], ',');
        DrawnAvoids(kv[1], pieces[0], ',');
        ParsedPieces(pieces[1..], acc + [Param(kv[0], kv[1])]);
      }
    }
  }

  lemma DrawnAvoids(s: string, t: string, c: char)
    requires DrawnFrom(s, t) && c !in t
    ensures c !in s
  {
  }

  lemma {:induction false} ParsedParams(s: string)
    requires NoSpace(s) && '#' !in s
    ensures ParseParams(s).Some? ==> PlainParams(ParseParams(s).value)
  {
    LowerIsPlain(s);
    var t := Lower(s);
    var pieces := SplitOn(t, ',');
    SplitParts(t, ',');
    forall i | 0 <= i < |pieces|
      ensures PlainPiece(pieces[i])
    {
      DrawnIsPlain(pieces[i], t);
    }
    ParsedPieces(pieces, []);
  }

  lemma {:induction false} ParsedColumn(line: string)
    requires '#' !in line
    ensures ParamsColumn(Words(line)).Some? ==> PlainParams(ParamsColumn(Words(line)).value)
  {
    WordsAreWords(line);
    if |Words(line)| > 3 {
      DrawnAvoids(Words(line)[3], line, '#');
      ParsedParams(Words(line)[3]);
    }
  }

  // ---------------------------------------------------------------- a written line is read as what was written

  /** A text that survives being one column of a line. */
  ghost predicate Column(s: string) {
    Word(s) && '#' !in s
  }

  lemma {:induction false} JoinColumns(cols: seq<string>, sep: char)
    requires cols != [] && sep != '#' && sep != '\n' && forall i :: 0 <= i < |cols| ==> Column(cols[i])
    ensures var s := Join(cols, sep); s != "" && '#' !in s && '\n' !in s && !IsSpace(s[|s| - 1])
  {
    if |cols| == 1 {
    } else {
      JoinColumns(cols[1..], sep);
      var rest := Join(cols[1..], sep);
      var s := Join(cols, sep);
      assert s[|s| - 1] == rest[|rest| - 1];
    }
  }

  /** The text of a line of columns, split again, is the columns. */
  lemma {:induction false} ColumnsReadBack(cols: seq<string>)
    requires cols != [] && forall i :: 0 <= i < |cols| ==> Column(cols[i])
    ensures var line := Join(cols, '\t') + "\n";
      IsLine(line) && Words(Content(line)) == cols && Content(line) == Join(cols, '\t')
  {
    var s := Join(cols, '\t');
    JoinColumns(cols, '\t');
    ContentOfLine(s);
    WordsJoin(cols);
    assert (s + "\n")[..|s|] == s;
  }

  lemma {:induction false} ParamsAreColumn(params: seq<Param>)
    requires PlainParams(params)
    ensures forall i :: 0 <= i < |ParamsText(params)| ==> Column(ParamsText(params)[i])
  {
    if params != [] {
      var pieces := Pieces(params);
      forall i | 0 <= i < |pieces|
        ensures Column(pieces[i])
      {
        PieceIsPlain(params[i]);
      }
      JoinNoSpace(pieces, ',');
      JoinColumns(pieces, ',');
    }
  }

  lemma {:induction false} JoinNoSpace(cols: seq<string>, sep: char)
    requires !IsSpace(sep) && forall i :: 0 <= i < |cols| ==> Column(cols[i])
    ensures NoSpace(Join(cols, sep))
  {
    if |cols| > 1 {
      JoinNoSpace(cols[1..], sep);
    }
  }

  lemma {:induction false} ColumnOfParams(first: seq<string>, params: seq<Param>)
    requires |first| == 3 && PlainParams(params)
    ensures ParamsColumn(first + ParamsText(params)) == Some(params)
  {
    if params != [] {
      ParamsParse(params);
    }
  }

  lemma {:induction false} ModeIsColumn(mode: string)
    requires mode in ["wt", "pt", "wa", "wb", "wo"]
    ensures Column(mode) && Lower(mode) == mode
  {
    assert |mode| == 2;
    FixedLower(mode);
  }

  lemma {:induction false} IntIsColumn(n: nat)
    ensures Column(IntText(n)) && PyInt(IntText(n)) == Some(n)
  {
    DecimalIsWord(n);
    IntOfDecimal(n);
  }

  lemma {:induction false} CacheLineReads(fs: Fs, c: Cache)
    requires CacheFieldsOk(fs, c) && PlainParams(c.params) && Column(c.device)
    ensures IsLine(CacheLine(c)) && Content(CacheLine(c)) !in ["", "[caches]", "[cores]"]
    ensures CacheFromLine(Content(CacheLine(c))) == Some(c)
  {
    var first := [IntText(c.id), c.device, c.mode];
    var cols := first + ParamsText(c.params);
    IntIsColumn(c.id);
    ModeIsColumn(c.mode);
    ParamsAreColumn(c.params);
    ColumnsReadBack(cols);
    ColumnOfParams(first, c.params);
    NotHeader(cols);
  }

  lemma {:induction false} CoreLineReads(c: Core)
    requires CoreFieldsOk(c) && PlainParams(c.params) && Column(c.device)
    ensures IsLine(CoreLine(c)) && Content(CoreLine(c)) !in ["", "[caches]", "[cores]"]
    ensures CoreFromLine(Content(CoreLine(c))) == Some(c)
  {
    var first := [IntText(c.cacheId), IntText(c.id), c.device];
    var cols := first + ParamsText(c.params);
    IntIsColumn(c.cacheId);
    IntIsColumn(c.id);
    ParamsAreColumn(c.params);
    ColumnsReadBack(cols);
    ColumnOfParams(first, c.params);
    NotHeader(cols);
  }

  /** A line of several columns holds a tab, which no header does. */
  lemma {:induction false} NotHeader(cols: seq<string>)
    requires |cols| >= 3
    ensures Join(cols, '\t') !in ["", "[caches]", "[cores]"]
  {
    assert Join(cols, '\t')[|cols[0]|] == '\t';
    assert '\t' !in "[caches]" && '\t' !in "[cores]";
  }

  // ---------------------------------------------------------------- what every read configuration is like

  ghost predicate CacheKept(fs: Fs, c: Cache)
    requires Absolute(fs.cwd)
  {
    CacheFieldsOk(fs, c) && PlainParams(c.params) && Settle(fs, c.device) == c.device
  }

  ghost predicate CoreKept(fs: Fs, cfg: Config, c: Core)
    requires Absolute(fs.cwd)
  {
    CoreFieldsOk(c) && PlainParams(c.params) && Settle(fs, c.device) == c.device && HasCache(cfg, c.cacheId)
  }

  /** Valid fields, plain parameters, settled devices, no id twice, no core without its cache. */
  ghost predicate Kept(fs: Fs, cfg: Config)
    requires Absolute(fs.cwd)
  {
    (forall i :: 0 <= i < |cfg.caches| ==> CacheKept(fs, cfg.caches[i]))
    && (forall i :: 0 <= i < |cfg.cores| ==> CoreKept(fs, cfg, cfg.cores[i]))
    && (forall i, j :: 0 <= i < j < |cfg.caches| ==> cfg.caches[i].id != cfg.caches[j].id)
    && (forall i, j :: 0 <= i < j < |cfg.cores| ==>
          cfg.cores[i].cacheId != cfg.cores[j].cacheId || cfg.cores[i].id != cfg.cores[j].id)
  }

  /** Settling a settled name changes nothing. */
  lemma {:induction false} SettleTwice(fs: Fs, d: string)
    requires Absolute(fs.cwd)
    ensures Settle(fs, Settle(fs, d)) == Settle(fs, d)
  {
    AbsTwice(fs.cwd, d);
  }

  lemma {:induction false} ReadCacheKeeps(fs: Fs, incomplete: bool, cfg: Config, line: string)
    requires Absolute(fs.cwd) && Kept(fs, cfg) && '#' !in line
    ensures var r := ReadCache(fs, incomplete, cfg, line); r.Some? ==> Kept(fs, r.value)
  {
    var r := ReadCache(fs, incomplete, cfg, line);
    if r.Some? {
      hide CacheFieldsOk, CacheDeviceOk, Settle, PlainParams, Kept;
      var c := CacheFromLine(line).value;
      ParsedColumn(line);
      SettleTwice(fs, c.device);
      var now := c.(device := Settle(fs, c.device));
      SameFields(fs, c, now);
      KeptWithCache(fs, cfg, now);
    }
  }

  lemma {:induction false} KeptWithCache(fs: Fs, cfg: Config, c: Cache)
    requires Absolute(fs.cwd) && Kept(fs, cfg) && CacheKept(fs, c) && !HasCache(cfg, c.id)
    ensures Kept(fs, cfg.(caches := cfg.caches + [c]))
  {
    hide CacheKept, CoreFieldsOk, PlainParams, Settle;
    var now := cfg.(caches := cfg.caches + [c]);
    forall i | 0 <= i < |now.cores|
      ensures CoreKept(fs, now, now.cores[i])
    {
      assert CoreKept(fs, cfg, cfg.cores[i]);
      var j :| 0 <= j < |cfg.caches| && cfg.caches[j].id == cfg.cores[i].cacheId;
      assert now.caches[j].id == cfg.cores[i].cacheId;
    }
  }

  lemma SameFields(fs: Fs, c: Cache, now: Cache)
    requires CacheFieldsOk(fs, c) && now == c.(device := now.device)
    ensures CacheFieldsOk(fs, now)
  {
  }

  lemma {:induction false} ReadCoreKeeps(fs: Fs, incomplete: bool, cfg: Config, line: string)
    requires Absolute(fs.cwd) && Kept(fs, cfg) && '#' !in line
    ensures var r := ReadCore(fs, incomplete, cfg, line); r.Some? ==> Kept(fs, r.value)
  {
    var r := ReadCore(fs, incomplete, cfg, line);
    if r.Some? {
      hide CoreFieldsOk, CoreDeviceOk, Settle, PlainParams, Kept;
      var c := CoreFromLine(line).value;
      ParsedColumn(line);
      SettleTwice(fs, c.device);
      var now := c.(device := Settle(fs, c.device));
      SameCoreFields(c, now);
      KeptWithCore(fs, cfg, now);
    }
  }

  lemma SameCoreFields(c: Core, now: Core)
    requires CoreFieldsOk(c) && now == c.(device := now.device)
    ensures CoreFieldsOk(now)
  {
  }

  lemma {:induction false} KeptWithCore(fs: Fs, cfg: Config, c: Core)
    requires Absolute(fs.cwd) && Kept(fs, cfg) && CoreKept(fs, cfg, c) && !HasCore(cfg, c.cacheId, c.id)
    ensures Kept(fs, cfg.(cores := cfg.cores + [c]))
  {
    hide CacheKept, CoreFieldsOk, PlainParams, Settle;
    var now := cfg.(cores := cfg.cores + [c]);
    forall i | 0 <= i < |now.cores|
      ensures CoreKept(fs, now, now.cores[i])
    {
      assert CoreKept(fs, cfg, now.cores[i]);
    }
  }

  lemma {:induction false} ReadLinesKeeps(fs: Fs, incomplete: bool, st: Reading, lines: seq<string>)
    requires Absolute(fs.cwd) && Kept(fs, st.cfg)
    ensures var r := ReadLines(fs, incomplete, st, lines); r.Some? ==> Kept(fs, r.value.cfg)
    decreases |lines|
  {
    if lines != [] {
      hide Kept, ReadCache, ReadCore;
      var s := Content(lines[0]);
      ContentHasNoHash(lines[0]);
      ReadCacheKeeps(fs, incomplete, st.cfg, s);
      ReadCoreKeeps(fs, incomplete, st.cfg, s);
      var next := ReadLine(fs, incomplete, st, lines[0]);
      if next.Some? {
        ReadLinesKeeps(fs, incomplete, next.value, lines[1..]);
      }
    }
  }

  lemma {:induction false} ReadConfigIsKept(fs: Fs, incomplete: bool, text: string)
    requires Absolute(fs.cwd) && FromFile(fs, incomplete, text).Some?
    ensures Kept(fs, FromFile(fs, incomplete, text).value.1)
  {
    ReadLinesKeeps(fs, incomplete, EMPTY, Lines(text)[1..]);
  }

  // ---------------------------------------------------------------- reading back

  ghost predicate CleanDevices(cfg: Config) {
    (forall i :: 0 <= i < |cfg.caches| ==> Column(cfg.caches[i].device))
    && (forall i :: 0 <= i < |cfg.cores| ==> Column(cfg.cores[i].device))
  }

  /** The device of a kept cache passes validation as it is kept, and no cache before it has it. */
  ghost predicate CacheStays(fs: Fs, incomplete: bool, cfg: Config, i: nat)
    requires i < |cfg.caches|
  {
    CacheDeviceOk(fs, incomplete, cfg.caches[i])
    && forall j :: 0 <= j < i ==> fs.realpath(cfg.caches[j].device) != fs.realpath(cfg.caches[i].device)
  }

  ghost predicate CoreStays(fs: Fs, incomplete: bool, cfg: Config, i: nat)
    requires i < |cfg.cores|
  {
    CoreDeviceOk(fs, incomplete, cfg.cores[i])
    && (forall j :: 0 <= j < |cfg.caches| ==> fs.realpath(cfg.caches[j].device) != fs.realpath(cfg.cores[i].device))
    && (forall j :: 0 <= j < i ==> fs.realpath(cfg.cores[j].device) != fs.realpath(cfg.cores[i].device))
  }

  /** Every kept device passes validation, and all resolve to different ones. */
  ghost predicate Stays(fs: Fs, incomplete: bool, cfg: Config) {
    (forall i :: 0 <= i < |cfg.caches| ==> CacheStays(fs, incomplete, cfg, i))
    && (forall i :: 0 <= i < |cfg.cores| ==> CoreStays(fs, incomplete, cfg, i))
  }

  lemma {:induction false} CacheStep(fs: Fs, incomplete: bool, cfg: Config, i: nat)
    requires Absolute(fs.cwd) && Kept(fs, cfg) && CleanDevices(cfg) && i < |cfg.caches|
    ensures ReadLine(fs, incomplete, Reading(true, false, Config(cfg.caches[..i], [])), CacheLine(cfg.caches[i]))
         == if CacheStays(fs, incomplete, cfg, i) then Some(Reading(true, false, Config(cfg.caches[..i + 1], []))) else None
  {
    hide CacheFieldsOk, CacheDeviceOk, Settle, PlainParams, Column, CacheFromLine, CacheLine, Content;
    var c := cfg.caches[i];
    assert CacheKept(fs, c);
    CacheLineReads(fs, c);
    var sofar := Config(cfg.caches[..i], []);
    assert !HasCache(sofar, c.id);
    assert !UsedByCore(fs, sofar, c.device);
    assert cfg.caches[..i] + [c] == cfg.caches[..i + 1];
    assert c.(device := Settle(fs, c.device)) == c;
    assert UsedByCache(fs, sofar, c.device) <==>
      exists j :: 0 <= j < i && fs.realpath(cfg.caches[j].device) == fs.realpath(c.device);
  }

  lemma {:induction false} CoreStep(fs: Fs, incomplete: bool, cfg: Config, i: nat)
    requires Absolute(fs.cwd) && Kept(fs, cfg) && CleanDevices(cfg) && i < |cfg.cores|
    ensures ReadLine(fs, incomplete, Reading(false, true, Config(cfg.caches, cfg.cores[..i])), CoreLine(cfg.cores[i]))
         == if CoreStays(fs, incomplete, cfg, i) then Some(Reading(false, true, Config(cfg.caches, cfg.cores[..i + 1]))) else None
  {
    hide CoreFieldsOk, CoreDeviceOk, Settle, PlainParams, Column, CoreFromLine, CoreLine, Content;
    var c := cfg.cores[i];
    assert CoreKept(fs, cfg, c);
    CoreLineReads(c);
    var sofar := Config(cfg.caches, cfg.cores[..i]);
    assert HasCache(sofar, c.cacheId);
    assert !HasCore(sofar, c.cacheId, c.id);
    assert cfg.cores[..i] + [c] == cfg.cores[..i + 1];
    assert c.(device := Settle(fs, c.device)) == c;
    assert UsedByCore(fs, sofar, c.device) <==>
      exists j :: 0 <= j < i && fs.realpath(cfg.cores[j].device) == fs.realpath(c.device);
    assert UsedByCache(fs, sofar, c.device) <==>
      exists j :: 0 <= j < |cfg.caches| && fs.realpath(cfg.caches[j].device) == fs.realpath(c.device);
  }

  ghost predicate CachesStayFrom(fs: Fs, incomplete: bool, cfg: Config, i: nat) {
    forall j :: i <= j < |cfg.caches| ==> CacheStays(fs, incomplete, cfg, j)
  }

  ghost predicate CoresStayFrom(fs: Fs, incomplete: bool, cfg: Config, i: nat) {
    forall j :: i <= j < |cfg.cores| ==> CoreStays(fs, incomplete, cfg, j)
  }

  lemma {:induction false} CachesReadBack(fs: Fs, incomplete: bool, cfg: Config, i: nat)
    requires Absolute(fs.cwd) && Kept(fs, cfg) && CleanDevices(cfg) && i <= |cfg.caches|
    ensures ReadLines(fs, incomplete, Reading(true, false, Config(cfg.caches[..i], [])), CacheLines(cfg.caches[i..]))
         == if CachesStayFrom(fs, incomplete, cfg, i) then Some(Reading(true, false, Config(cfg.caches, []))) else None
    decreases |cfg.caches| - i
  {
    hide Kept, CleanDevices, CacheStays, ReadLine;
    if i == |cfg.caches| {
      assert cfg.caches[..i] == cfg.caches;
    } else {
      CacheStep(fs, incomplete, cfg, i);
      CachesReadBack(fs, incomplete, cfg, i + 1);
      assert cfg.caches[i..][1..] == cfg.caches[i + 1..];
      var lines := CacheLines(cfg.caches[i..]);
      assert lines[1..] == CacheLines(cfg.caches[i + 1..]);
      assert CachesStayFrom(fs, incomplete, cfg, i) <==>
        CacheStays(fs, incomplete, cfg, i) && CachesStayFrom(fs, incomplete, cfg, i + 1);
    }
  }

  lemma {:induction false} CoresReadBack(fs: Fs, incomplete: bool, cfg: Config, i: nat)
    requires Absolute(fs.cwd) && Kept(fs, cfg) && CleanDevices(cfg) && i <= |cfg.cores|
    ensures ReadLines(fs, incomplete, Reading(false, true, Config(cfg.caches, cfg.cores[..i])), CoreLines(cfg.cores[i..]))
         == if CoresStayFrom(fs, incomplete, cfg, i) then Some(Reading(false, true, cfg)) else None
    decreases |cfg.cores| - i
  {
    hide Kept, CleanDevices, CoreStays, ReadLine;
    if i == |cfg.cores| {
      assert cfg.cores[..i] == cfg.cores;
    } else {
      CoreStep(fs, incomplete, cfg, i);
      CoresReadBack(fs, incomplete, cfg, i + 1);
      assert cfg.cores[i..][1..] == cfg.cores[i + 1..];
      var lines := CoreLines(cfg.cores[i..]);
      assert lines[1..] == CoreLines(cfg.cores[i + 1..]);
      assert CoresStayFrom(fs, incomplete, cfg, i) <==>
        CoreStays(fs, incomplete, cfg, i) && CoresStayFrom(fs, incomplete, cfg, i + 1);
    }
  }

  // ---------------------------------------------------------------- the written text, line by line

  lemma {:induction false} ConcatAppend(a: seq<string>, b: seq<string>)
    ensures Concat(a + b) == Concat(a) + Concat(b)
  {
    if a == [] {
      assert a + b == b;
    } else {
      ConcatAppend(a[1..], b);
      assert (a + b)[1..] == a[1..] + b;
    }
  }

  function Written(version: string, cfg: Config): seq<string> {
    [version, "\n", GENERATED, "[caches]\n"] + CacheLines(cfg.caches) + ["\n", "[cores]\n"] + CoreLines(cfg.cores)
  }

  lemma {:induction false} WriteIsWritten(version: string, cfg: Config)
    ensures Write(version, cfg) == Concat(Written(version, cfg))
  {
    var head := [version, "\n", GENERATED, "[caches]\n"];
    var mid := ["\n", "[cores]\n"];
    ConcatAppend(head, CacheLines(cfg.caches));
    ConcatAppend(head + CacheLines(cfg.caches), mid);
    ConcatAppend(head + CacheLines(cfg.caches) + mid, CoreLines(cfg.cores));
    ConcatFour(version, "\n", GENERATED, "[caches]\n");
    assert mid[1..] == ["[cores]\n"] && mid[1..][1..] == [];
    assert Concat(mid) == "\n" + "[cores]\n" == "\n[cores]\n";
  }

  lemma {:induction false} ConcatFour(a: string, b: string, c: string, d: string)
    ensures Concat([a, b, c, d]) == a + b + c + d
  {
    assert [a, b, c, d][1..] == [b, c, d] && [b, c, d][1..] == [c, d] && [c, d][1..] == [d] && [d][1..] == [];
    assert Concat([d]) == d;
    assert Concat([c, d]) == c + d;
    assert Concat([b, c, d]) == b + (c + d);
  }

  lemma {:induction false} CacheLinesAre(fs: Fs, caches: seq<Cache>)
    requires Absolute(fs.cwd)
    requires forall i :: 0 <= i < |caches| ==> CacheKept(fs, caches[i]) && Column(caches[i].device)
    ensures AllLines(CacheLines(caches))
  {
    hide CacheLine, CacheFieldsOk, PlainParams, Settle;
    if caches != [] {
      assert CacheKept(fs, caches[0]);
      CacheLineReads(fs, caches[0]);
      CacheLinesAre(fs, caches[1..]);
    }
  }

  lemma {:induction false} CoreLinesAre(cores: seq<Core>)
    requires forall i :: 0 <= i < |cores| ==> CoreFieldsOk(cores[i]) && PlainParams(cores[i].params) && Column(cores[i].device)
    ensures AllLines(CoreLines(cores))
  {
    hide CoreLine, CoreFieldsOk, PlainParams;
    if cores != [] {
      CoreLineReads(cores[0]);
      CoreLinesAre(cores[1..]);
    }
  }

  lemma {:induction false} ReadAppend(fs: Fs, incomplete: bool, st: Reading, a: seq<string>, b: seq<string>)
    requires Absolute(fs.cwd)
    ensures ReadLines(fs, incomplete, st, a + b)
         == var m := ReadLines(fs, incomplete, st, a); if m.None? then None else ReadLines(fs, incomplete, m.value, b)
    decreases |a|
  {
    hide ReadLine;
    if a == [] {
      assert a + b == b;
    } else {
      assert (a + b)[1..] == a[1..] + b;
      var next := ReadLine(fs, incomplete, st, a[0]);
      if next.Some? {
        ReadAppend(fs, incomplete, next.value, a[1..], b);
      }
    }
  }

  lemma {:induction false} BlankContent()
    ensures Content("\n") == "" && IsLine("\n")
  {
    SplitNothing("\n", '#');
    assert "\n"[..0] == "";
  }

  lemma {:induction false} CommentContent(s: string)
    requires s != "" && s[0] == '#'
    ensures Content(s) == ""
  {
    SplitFirst("", '#', s[1..]);
    assert "" + ['#'] + s[1..] == s;
  }

  lemma {:induction false} GeneratedIsLine()
    ensures IsLine(GENERATED)
  {
    hide IsSpace;
  }

  lemma {:induction false} HeaderContent(s: string)
    requires s == "[caches]" || s == "[cores]"
    ensures Content(s + "\n") == s && IsLine(s + "\n")
  {
    ContentOfLine(s);
    assert (s + "\n")[..|s|] == s;
  }

  lemma {:induction false} ReadOne(fs: Fs, incomplete: bool, st: Reading, lines: seq<string>, next: Reading)
    requires Absolute(fs.cwd) && lines != [] && ReadLine(fs, incomplete, st, lines[0]) == Some(next)
    ensures ReadLines(fs, incomplete, st, lines) == ReadLines(fs, incomplete, next, lines[1..])
  {
  }

  lemma {:induction false} HeadRead(fs: Fs, incomplete: bool)
    requires Absolute(fs.cwd)
    ensures ReadLines(fs, incomplete, EMPTY, ["\n", GENERATED, "[caches]\n"]) == Some(Reading(true, false, Config([], [])))
  {
    hide Content, ReadCache, ReadCore, ReadLines;
    BlankContent();
    CommentContent(GENERATED);
    HeaderContent("[caches]");
    var done := Reading(true, false, Config([], []));
    assert "[caches]" + "\n" == "[caches]\n";
    var head := ["\n", GENERATED, "[caches]\n"];
    ReadOne(fs, incomplete, EMPTY, head, EMPTY);
    ReadOne(fs, incomplete, EMPTY, head[1..], EMPTY);
    ReadOne(fs, incomplete, EMPTY, head[1..][1..], done);
    ReadNone(fs, incomplete, done, head[1..][1..][1..]);
  }

  lemma ReadNone(fs: Fs, incomplete: bool, st: Reading, lines: seq<string>)
    requires Absolute(fs.cwd) && lines == []
    ensures ReadLines(fs, incomplete, st, lines) == Some(st)
  {
  }

  lemma {:induction false} MidRead(fs: Fs, incomplete: bool, caches: seq<Cache>)
    requires Absolute(fs.cwd)
    ensures ReadLines(fs, incomplete, Reading(true, false, Config(caches, [])), ["\n", "[cores]\n"])
         == Some(Reading(false, true, Config(caches, [])))
  {
    hide Content, ReadCache, ReadCore, ReadLines;
    BlankContent();
    HeaderContent("[cores]");
    var st, done := Reading(true, false, Config(caches, [])), Reading(false, true, Config(caches, []));
    assert "[cores]" + "\n" == "[cores]\n";
    var mid := ["\n", "[cores]\n"];
    ReadOne(fs, incomplete, st, mid, st);
    ReadOne(fs, incomplete, st, mid[1..], done);
    ReadNone(fs, incomplete, done, mid[1..][1..]);
  }

  lemma {:induction false} WrittenReads(fs: Fs, incomplete: bool, version: string, cfg: Config)
    requires Absolute(fs.cwd) && Kept(fs, cfg) && CleanDevices(cfg)
    ensures ReadLines(fs, incomplete, EMPTY, Written(version, cfg)[1..])
         == if !CachesStayFrom(fs, incomplete, cfg, 0) || !CoresStayFrom(fs, incomplete, cfg, 0) then None
            else Some(Reading(false, true, cfg))
  {
    hide Kept, CleanDevices, CachesStayFrom, CoresStayFrom, ReadLine;
    var head := ["\n", GENERATED, "[caches]\n"];
    var mid := ["\n", "[cores]\n"];
    var a, b := CacheLines(cfg.caches), CoreLines(cfg.cores);
    assert Written(version, cfg)[1..] == head + (a + (mid + b));
    ReadAppend(fs, incomplete, EMPTY, head, a + (mid + b));
    HeadRead(fs, incomplete);
    var st := Reading(true, false, Config([], []));
    ReadAppend(fs, incomplete, st, a, mid + b);
    CachesReadBack(fs, incomplete, cfg, 0);
    assert cfg.caches[..0] == [] && cfg.caches[0..] == cfg.caches;
    var st2 := Reading(true, false, Config(cfg.caches, []));
    ReadAppend(fs, incomplete, st2, mid, b);
    MidRead(fs, incomplete, cfg.caches);
    CoresReadBack(fs, incomplete, cfg, 0);
    assert cfg.cores[..0] == [] && cfg.cores[0..] == cfg.cores;
  }

  /**
   Writing a configuration that was read from a file and reading it again gives the same tag, caches, cores,
   order and parameters, if and only if the device names that were kept pass validation themselves and
   resolve to different devices; otherwise the second reading is refused.
   */
  lemma {:induction false} ReadBackIff(fs: Fs, incomplete: bool, text: string)
    requires Absolute(fs.cwd) && FromFile(fs, incomplete, text).Some?
    requires IsLine(FromFile(fs, incomplete, text).value.0) && CleanDevices(FromFile(fs, incomplete, text).value.1)
    ensures var (version, cfg) := FromFile(fs, incomplete, text).value;
      FromFile(fs, incomplete, Write(version, cfg)) == if Stays(fs, incomplete, cfg) then Some((version, cfg)) else None
  {
    var (version, cfg) := FromFile(fs, incomplete, text).value;
    assert StartsWith(version, VERSION_PREFIX);
    ReadConfigIsKept(fs, incomplete, text);
    hide FromFile, Kept, CleanDevices, CacheStays, CoreStays;
    WrittenLines(fs, version, cfg);
    WrittenReads(fs, incomplete, version, cfg);
    ReadWritten(fs, incomplete, version, cfg);
  }

  /** A file that is a version tag without newline has nothing else in it; its tag gains the newline. */
  lemma {:induction false} BareTagReadsBack(fs: Fs, incomplete: bool, text: string)
    requires Absolute(fs.cwd) && FromFile(fs, incomplete, text).Some? && !IsLine(FromFile(fs, incomplete, text).value.0)
    ensures var (version, cfg) := FromFile(fs, incomplete, text).value;
      cfg == Config([], []) && version == text
      && FromFile(fs, incomplete, Write(version, cfg)) == Some((version + "\n", cfg))
  {
    var (version, cfg) := FromFile(fs, incomplete, text).value;
    BareTag(text);
    assert [text][1..] == [];
    hide Write, GENERATED, Lines;
    var tag := version + "\n";
    var rest := BareLines(fs, version);
    WrittenReads(fs, incomplete, tag, cfg);
    EmptyStays(fs, incomplete);
    hide ReadLines, CachesStayFrom, CoresStayFrom;
    BlankSkipped(fs, incomplete, rest);
    assert ([tag] + rest)[1..] == rest;
  }

  lemma EmptyStays(fs: Fs, incomplete: bool)
    requires Absolute(fs.cwd)
    ensures CachesStayFrom(fs, incomplete, Config([], []), 0) && CoresStayFrom(fs, incomplete, Config([], []), 0)
    ensures Kept(fs, Config([], [])) && CleanDevices(Config([], []))
  {
  }

  lemma {:induction false} BlankSkipped(fs: Fs, incomplete: bool, rest: seq<string>)
    requires Absolute(fs.cwd)
    ensures ReadLines(fs, incomplete, EMPTY, ["\n"] + rest) == ReadLines(fs, incomplete, EMPTY, rest)
  {
    hide ReadLines, Content;
    BlankContent();
    ReadOne(fs, incomplete, EMPTY, ["\n"] + rest, EMPTY);
    assert (["\n"] + rest)[1..] == rest;
  }

  lemma {:induction false} BareLines(fs: Fs, version: string) returns (rest: seq<string>)
    requires Absolute(fs.cwd) && '\n' !in version
    ensures Lines(Write(version, Config([], []))) == [version + "\n"] + rest
    ensures Written(version + "\n", Config([], []))[1..] == ["\n"] + rest
  {
    hide GENERATED, Lines;
    var cfg, tag := Config([], []), version + "\n";
    assert tag[..|version|] == version;
    WrittenLines(fs, tag, cfg);
    var text := GENERATED + "[caches]\n" + "" + "\n[cores]\n" + "";
    rest := Lines(text);
    assert Write(version, cfg) == version + "\n" + text;
    assert Write(tag, cfg) == version + "\n" + ("" + "\n" + text);
    hide Write;
    FirstLine(version, text);
    FirstLine(version, "" + "\n" + text);
    FirstLine("", text);
    assert "" + "\n" == "\n";
    assert Lines(Write(tag, cfg)) == [tag] + (["\n"] + rest);
  }

  lemma {:induction false} BareTag(text: string)
    requires text != "" && !IsLine(Lines(text)[0])
    ensures '\n' !in text && Lines(text) == [text]
  {
    if '\n' in text {
      FirstLineIsLine(text);
    }
  }

  lemma {:induction false} FirstLineIsLine(text: string)
    requires '\n' in text
    ensures IsLine(text[..LineLength(text)])
  {
    if text[0] != '\n' {
      FirstLineIsLine(text[1..]);
      var n := LineLength(text[1..]);
      assert text[..n + 1] == [text[0]] + text[1..][..n];
      assert text[..n] == [text[0]] + text[1..][..n - 1];
    }
  }

  lemma {:induction false} ReadWritten(fs: Fs, incomplete: bool, version: string, cfg: Config)
    requires Absolute(fs.cwd) && StartsWith(version, VERSION_PREFIX) && Lines(Write(version, cfg)) == Written(version, cfg)
    ensures FromFile(fs, incomplete, Write(version, cfg))
         == var r := ReadLines(fs, incomplete, EMPTY, Written(version, cfg)[1..]);
            if r.None? then None else Some((version, r.value.cfg))
  {
    hide ReadLines, Lines, Write, CacheLines, CoreLines;
  }

  lemma {:induction false} WrittenLines(fs: Fs, version: string, cfg: Config)
    requires Absolute(fs.cwd) && Kept(fs, cfg) && CleanDevices(cfg) && IsLine(version)
    ensures Lines(Write(version, cfg)) == Written(version, cfg)
  {
    hide CacheFieldsOk, CoreFieldsOk, PlainParams, Settle, Column, CacheLines, CoreLines, Write, GENERATED, AllLines;
    WriteIsWritten(version, cfg);
    CacheLinesAre(fs, cfg.caches);
    CoresAreKept(fs, cfg);
    CoreLinesAre(cfg.cores);
    hide Kept, CleanDevices;
    FixedLines(version);
    var head, mid := [version, "\n", GENERATED, "[caches]\n"], ["\n", "[cores]\n"];
    AllAppend(head, CacheLines(cfg.caches));
    AllAppend(head + CacheLines(cfg.caches), mid);
    AllAppend(head + CacheLines(cfg.caches) + mid, CoreLines(cfg.cores));
    AllLinesConcat(Written(version, cfg));
  }

  ghost predicate AllLines(lines: seq<string>) {
    forall i :: 0 <= i < |lines| ==> IsLine(lines[i])
  }

  lemma AllAppend(a: seq<string>, b: seq<string>)
    requires AllLines(a) && AllLines(b)
    ensures AllLines(a + b)
  {
  }

  lemma AllLinesConcat(lines: seq<string>)
    requires AllLines(lines)
    ensures Lines(Concat(lines)) == lines
  {
    LinesConcat(lines);
  }

  lemma {:induction false} FixedLines(version: string)
    requires IsLine(version)
    ensures AllLines([version, "\n", GENERATED, "[caches]\n"]) && AllLines(["\n", "[cores]\n"])
  {
    hide IsLine, Content, GENERATED;
    BlankContent();
    GeneratedIsLine();
    HeaderContent("[caches]");
    HeaderContent("[cores]");
    assert "[caches]" + "\n" == "[caches]\n" && "[cores]" + "\n" == "[cores]\n";
  }

  lemma CoresAreKept(fs: Fs, cfg: Config)
    requires Absolute(fs.cwd) && Kept(fs, cfg)
    ensures forall i :: 0 <= i < |cfg.cores| ==> CoreFieldsOk(cfg.cores[i]) && PlainParams(cfg.cores[i].params)
  {
    forall i | 0 <= i < |cfg.cores|
      ensures CoreFieldsOk(cfg.cores[i]) && PlainParams(cfg.cores[i].params)
    {
      assert CoreKept(fs, cfg, cfg.cores[i]);
    }
  }
}
