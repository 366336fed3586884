/**
 Which lines of opencas.conf are accepted, whatever blanks and comments they are typed with, and what a
 configuration that was read can therefore hold.
 */
module ConfigLines {
  import opened Basics
  import opened PyText
  import opened PyPath
  import opened Config
  import opened ConfigRoundTrip
  import opened ConfigDevices

  // ---------------------------------------------------------------- lines as they are typed

  predicate Spaces(s: string) {
    forall i :: 0 <= i < |s| ==> IsSpace(s[i])
  }

  /** Any run of blanks and tabs will do, and so will what ends a line. */
  lemma UsualSpaces(s: string)
    requires forall i :: 0 <= i < |s| ==> s[i] == ' ' || s[i] == '\t' || s[i] == '\r' || s[i] == '\n'
    ensures Spaces(s)
  {
  }

  /** Each word with the blanks before it. */
  function Spaced(words: seq<string>, gaps: seq<string>): string
    requires |gaps| == |words|
  {
    if words == [] then "" else gaps[0] + words[0] + Spaced(words[1..], gaps[1..])
  }

  ghost predicate GapsOk(gaps: seq<string>) {
    (forall i :: 0 <= i < |gaps| ==> Spaces(gaps[i])) && forall i :: 0 < i < |gaps| ==> gaps[i] != ""
  }

  lemma {:induction false} SpacesSkipped(gap: string, rest: string)
    requires Spaces(gap) && (rest == "" || !IsSpace(rest[0]))
    ensures SkipSpaces(gap + rest) == rest
  {
    if gap == "" {
      assert gap + rest == rest;
    } else {
      assert (gap + rest)[1..] == gap[1..] + rest;
      SpacesSkipped(gap[1..], rest);
    }
  }

  /** split() finds the words, however many blanks of whatever kind are between them. */
  lemma {:induction false} SpacedWords(words: seq<string>, gaps: seq<string>)
    requires |gaps| == |words| && GapsOk(gaps) && forall i :: 0 <= i < |words| ==> Word(words[i])
    ensures Words(Spaced(words, gaps)) == words
    decreases |words|
  {
    if words != [] {
      var w, rest := words[0], Spaced(words[1..], gaps[1..]);
      assert rest != "" ==> rest[0] == gaps[1][0];
      assert Spaced(words, gaps) == gaps[0] + (w + rest);
      SpacesSkipped(gaps[0], w + rest);
      WordEnds(w, rest);
      assert (w + rest)[..|w|] == w && (w + rest)[|w|..] == rest;
      SpacedWords(words[1..], gaps[1..]);
    }
  }

  lemma {:induction false} Stripped(s: string, pad: string)
    requires Spaces(pad) && (s == "" || !IsSpace(s[|s| - 1]))
    ensures RStrip(s + pad) == s
  {
    if pad == "" {
      assert s + pad == s;
    } else {
      var t := s + pad;
      assert t[|t| - 1] == pad[|pad| - 1] && t[..|t| - 1] == s + pad[..|pad| - 1];
      Stripped(s, pad[..|pad| - 1]);
    }
  }

  /** Blanks at the end and everything from the first '#' on do not count. */
  lemma {:induction false} TypedContent(s: string, pad: string, comment: string)
    requires '#' !in s && (s == "" || !IsSpace(s[|s| - 1])) && Spaces(pad) && (comment == "" || comment[0] == '#')
    ensures Content(s + pad + comment) == s
  {
    assert '#' !in s + pad;
    if comment == "" {
      assert s + pad + comment == s + pad;
      SplitNothing(s + pad, '#');
    } else {
      assert s + pad + comment == s + pad + ['#'] + comment[1..];
      SplitFirst(s + pad, '#', comment[1..]);
    }
    Stripped(s, pad);
  }

  /** The line holds these columns, with any blanks around them and any comment behind. */
  ghost predicate Typed(line: string, words: seq<string>, gaps: seq<string>, pad: string, comment: string) {
    && |gaps| == |words| && GapsOk(gaps) && Spaces(pad) && (comment == "" || comment[0] == '#')
    && words != [] && (forall i :: 0 <= i < |words| ==> Column(words[i]))
    && line == Spaced(words, gaps) + pad + comment
  }

  lemma {:induction false} SpacedIsClean(words: seq<string>, gaps: seq<string>)
    requires |gaps| == |words| && GapsOk(gaps) && words != [] && forall i :: 0 <= i < |words| ==> Column(words[i])
    ensures var s := Spaced(words, gaps); s != "" && '#' !in s && !IsSpace(s[|s| - 1])
    decreases |words|
  {
    if |words| == 1 {
      assert Spaced(words[1..], gaps[1..]) == "";
    } else {
      SpacedIsClean(words[1..], gaps[1..]);
    }
  }

  lemma {:induction false} TypedWords(line: string, words: seq<string>, gaps: seq<string>, pad: string, comment: string)
    requires Typed(line, words, gaps, pad, comment)
    ensures Content(line) != "" && Words(Content(line)) == words
  {
    hide Words, Content;
    SpacedIsClean(words, gaps);
    TypedContent(Spaced(words, gaps), pad, comment);
    SpacedWords(words, gaps);
  }

  // ---------------------------------------------------------------- what is accepted

  /** The parameters of a cache, by name and value; an I/O class file has to be there. */
  lemma CacheParamIs(fs: Fs, p: Param)
    ensures CacheParamOk(fs, p) <==>
      || (p.name == "ioclass_file" && fs.isThere(p.value))
      || (p.name == "cleaning_policy" && (p.value == "acp" || p.value == "alru" || p.value == "nop"))
      || (p.name == "promotion_policy" && (p.value == "always" || p.value == "nhit"))
      || (p.name == "cache_line_size" && p.value in ["4", "8", "16", "32", "64"])
      || (p.name == "lazy_startup" && (p.value == "true" || p.value == "false"))
      || (p.name == "target_failover_state" && (p.value == "active" || p.value == "standby"))
  {
  }

  /** Parameters are read without regard to case. */
  lemma ParamsIgnoreCase(s: string)
    ensures ParseParams(s) == ParseParams(Lower(s))
  {
    FixedLower(Lower(s));
  }

  /** A name under /dev/cas belongs to another cache exactly if its number is another. */
  lemma {:induction false} ExportedNameIs(n: nat, m: nat, cacheId: int)
    ensures NotRecursive("/dev/cas" + Decimal(n) + "-" + Decimal(m), cacheId) <==> n != cacheId
  {
    var ids := [Decimal(n), Decimal(m)];
    var rest := Decimal(n) + "-" + Decimal(m);
    assert "/dev/cas" + Decimal(n) + "-" + Decimal(m) == "/dev/cas" + rest;
    assert ("/dev/cas" + rest)[|CAS_PREFIX|..] == rest;
    NoSlash(rest);
    assert Join(ids, '-') == rest by {
      assert ids[1..] == [Decimal(m)];
    }
    SplitJoin(ids, '-');
    IntOfDecimal(n);
  }

  lemma {:induction false} NoSlash(s: string)
    requires '/' !in s
    ensures UpTo(s, CAS_PREFIX) == s
  {
    if s != "" {
      assert s[0] in s && CAS_PREFIX[0] == '/';
      NoSlash(s[1..]);
      assert s == [s[0]] + s[1..];
    }
  }

  /** The id is new, and no cache or core resolves to the device. */
  ghost predicate Free(fs: Fs, cfg: Config, device: string) {
    && (forall i :: 0 <= i < |cfg.caches| ==> fs.realpath(cfg.caches[i].device) != fs.realpath(device))
    && (forall i :: 0 <= i < |cfg.cores| ==> fs.realpath(cfg.cores[i].device) != fs.realpath(device))
  }

  /** What the system says of the device, unless devices may be missing. */
  ghost predicate Present(fs: Fs, device: string) {
    fs.isBlock(device) || (!fs.isThere(device) && "/dev/cas" <= device)
  }

  /** A device is kept under its absolute name if that exists or is one of an exported device, and as given otherwise. */
  ghost function KeptName(fs: Fs, device: string): string
    requires Absolute(fs.cwd)
  {
    var path := AbsPath(fs.cwd, device);
    if fs.isThere(path) || fs.isExported(path) then path else device
  }

  /** Each piece is one name and one value, and no name occurs twice. */
  ghost predicate Pairs(pieces: seq<string>) {
    && (forall i :: 0 <= i < |pieces| ==> |SplitOn(pieces[i], '=')| == 2)
    && (forall i, j :: 0 <= i < j < |pieces| ==> SplitOn(pieces[i], '=')[0] != SplitOn(pieces[j], '=')[0])
  }

  /** A parameter column is accepted exactly if its pieces are such pairs, and then in their order. */
  lemma {:induction false} ParamsAcceptedIff(s: string)
    ensures var pieces := SplitOn(Lower(s), ',');
      && (ParseParams(s).Some? <==> Pairs(pieces))
      && (ParseParams(s).Some? ==>
            && |ParseParams(s).value| == |pieces|
            && forall i :: 0 <= i < |pieces| ==>
                 SplitOn(pieces[i], '=') == [ParseParams(s).value[i].name, ParseParams(s).value[i].value])
  {
    hide SplitOn, Lower, ParsePieces;
    PiecesAcceptedIff(SplitOn(Lower(s), ','), []);
    assert forall name :: !Named([], name);
  }

  lemma {:induction false} PiecesAcceptedIff(pieces: seq<string>, acc: seq<Param>)
    ensures var r := ParsePieces(pieces, acc);
      && (r.Some? <==>
            && Pairs(pieces)
            && (forall i :: 0 <= i < |pieces| ==> !Named(acc, SplitOn(pieces[i], '=')[0])))
      && (r.Some? ==>
            && |r.value| == |acc| + |pieces| && acc <= r.value
            && forall i :: 0 <= i < |pieces| ==>
                 SplitOn(pieces[i], '=') == [r.value[|acc| + i].name, r.value[|acc| + i].value])
    decreases |pieces|
  {
    hide SplitOn;
    if pieces != [] {
      var kv := SplitOn(pieces[0], '=');
      if |kv| == 2 && !Named(acc, kv[0]) {
        var more := acc + [Param(kv[0], kv[1])];
        PiecesAcceptedIff(pieces[1..], more);
        NamedMore(acc, Param(kv[0], kv[1]));
        assert forall i :: 0 < i < |pieces| ==> pieces[i] == pieces[1..][i - 1];
        assert forall i :: 0 <= i < |pieces[1..]| ==> pieces[1..][i] == pieces[i + 1];
      }
    }
  }

  lemma NamedMore(acc: seq<Param>, p: Param)
    ensures forall name :: Named(acc + [p], name) <==> Named(acc, name) || name == p.name
  {
    forall name
      ensures Named(acc + [p], name) <==> Named(acc, name) || name == p.name
    {
      assert (acc + [p])[|acc|] == p;
      if Named(acc, name) {
        var i :| 0 <= i < |acc| && acc[i].name == name;
        assert (acc + [p])[i].name == name;
      }
    }
  }

  /** What the columns of a cache line must be. */
  ghost predicate CacheColumnsOk(fs: Fs, incomplete: bool, cfg: Config, words: seq<string>) {
    && 3 <= |words| <= 4 && PyInt(words[0]).Some? && ParamsColumn(words).Some?
    && 1 <= PyInt(words[0]).value <= 16384 && Lower(words[2]) in ["wt", "pt", "wa", "wb", "wo"]
    && (forall i :: 0 <= i < |ParamsColumn(words).value| ==> CacheParamOk(fs, ParamsColumn(words).value[i]))
    && NotRecursive(words[1], PyInt(words[0]).value)
    && (incomplete || (Present(fs, words[1]) && !fs.hasPartitions(words[1])))
    && (forall i :: 0 <= i < |cfg.caches| ==> cfg.caches[i].id != PyInt(words[0]).value)
    && Free(fs, cfg, words[1])
  }

  ghost predicate CoreColumnsOk(fs: Fs, incomplete: bool, cfg: Config, words: seq<string>) {
    && 3 <= |words| <= 4 && PyInt(words[0]).Some? && PyInt(words[1]).Some? && ParamsColumn(words).Some?
    && 1 <= PyInt(words[0]).value <= 16384 && 0 <= PyInt(words[1]).value <= 4095
    && (forall i :: 0 <= i < |ParamsColumn(words).value| ==>
          ParamsColumn(words).value[i].name == "lazy_startup" && ParamsColumn(words).value[i].value in ["true", "false"])
    && NotRecursive(words[2], PyInt(words[0]).value) && (incomplete || Present(fs, words[2]))
    && (exists i :: 0 <= i < |cfg.caches| && cfg.caches[i].id == PyInt(words[0]).value)
    && (forall i :: 0 <= i < |cfg.cores| ==>
          cfg.cores[i].cacheId != PyInt(words[0]).value || cfg.cores[i].id != PyInt(words[1]).value)
    && Free(fs, cfg, words[2])
  }

  lemma {:induction false} ReadCacheIff(fs: Fs, incomplete: bool, cfg: Config, s: string)
    requires Absolute(fs.cwd)
    ensures var words, r := Words(s), ReadCache(fs, incomplete, cfg, s);
      && (r.Some? <==> CacheColumnsOk(fs, incomplete, cfg, words))
      && (r.Some? ==> r.value == cfg.(caches := cfg.caches +
            [Cache(PyInt(words[0]).value, KeptName(fs, words[1]), Lower(words[2]), ParamsColumn(words).value)]))
  {
    hide Words, PyInt, ParamsColumn, NotRecursive, Settle, Lower, CacheParamOk, KeptName;
    if |Words(s)| >= 3 {
      KeptIsSettled(fs, Words(s)[1]);
    }
  }

  lemma KeptIsSettled(fs: Fs, device: string)
    requires Absolute(fs.cwd)
    ensures KeptName(fs, device) == Settle(fs, device)
  {
  }

  lemma {:induction false} ReadCoreIff(fs: Fs, incomplete: bool, cfg: Config, s: string)
    requires Absolute(fs.cwd)
    ensures var words, r := Words(s), ReadCore(fs, incomplete, cfg, s);
      && (r.Some? <==> CoreColumnsOk(fs, incomplete, cfg, words))
      && (r.Some? ==> r.value == cfg.(cores := cfg.cores +
            [Core(PyInt(words[0]).value, PyInt(words[1]).value, KeptName(fs, words[2]), ParamsColumn(words).value)]))
  {
    hide Words, PyInt, ParamsColumn, NotRecursive, Settle, KeptName;
    if |Words(s)| >= 3 {
      KeptIsSettled(fs, Words(s)[2]);
    }
  }

  /** A line among the caches is accepted exactly if all this holds of its columns, and then the cache is put in last. */
  lemma {:induction false} CacheAcceptedIff(fs: Fs, incomplete: bool, st: Reading, line: string,
                                            words: seq<string>, gaps: seq<string>, pad: string, comment: string)
    requires Absolute(fs.cwd) && st.inCaches && Typed(line, words, gaps, pad, comment)
    requires Content(line) != "[caches]" && Content(line) != "[cores]"
    ensures var r := ReadLine(fs, incomplete, st, line);
      && (r.Some? <==> CacheColumnsOk(fs, incomplete, st.cfg, words))
      && (r.Some? ==> r.value == st.(cfg := st.cfg.(caches := st.cfg.caches +
            [Cache(PyInt(words[0]).value, KeptName(fs, words[1]), Lower(words[2]), ParamsColumn(words).value)])))
  {
    TypedWords(line, words, gaps, pad, comment);
    hide Content, Words, PyInt, ParamsColumn, Settle, Lower, Typed, ReadCache, Free;
    ReadCacheIff(fs, incomplete, st.cfg, Content(line));
  }

  lemma {:induction false} CoreAcceptedIff(fs: Fs, incomplete: bool, st: Reading, line: string,
                                           words: seq<string>, gaps: seq<string>, pad: string, comment: string)
    requires Absolute(fs.cwd) && !st.inCaches && st.inCores && Typed(line, words, gaps, pad, comment)
    requires Content(line) != "[caches]" && Content(line) != "[cores]"
    ensures var r := ReadLine(fs, incomplete, st, line);
      && (r.Some? <==> CoreColumnsOk(fs, incomplete, st.cfg, words))
      && (r.Some? ==> r.value == st.(cfg := st.cfg.(cores := st.cfg.cores +
            [Core(PyInt(words[0]).value, PyInt(words[1]).value, KeptName(fs, words[2]), ParamsColumn(words).value)])))
  {
    TypedWords(line, words, gaps, pad, comment);
    hide Content, Words, PyInt, ParamsColumn, Settle, Typed, ReadCore, Free;
    ReadCoreIff(fs, incomplete, st.cfg, Content(line));
  }

  /** Outside both sections nothing counts but their headers. */
  lemma {:induction false} OutsideIsIgnored(fs: Fs, incomplete: bool, st: Reading, line: string)
    requires Absolute(fs.cwd) && !st.inCaches && !st.inCores && Content(line) != "[caches]" && Content(line) != "[cores]"
    ensures ReadLine(fs, incomplete, st, line) == Some(st)
  {
  }

  // ---------------------------------------------------------------- what a configuration that was read holds

  lemma {:induction false} ReadValues(fs: Fs, incomplete: bool, text: string)
    requires Absolute(fs.cwd) && FromFile(fs, incomplete, text).Some?
    ensures "version=" <= text
    ensures var (version, cfg) := FromFile(fs, incomplete, text).value;
      && (forall i :: 0 <= i < |cfg.caches| ==>
            1 <= cfg.caches[i].id <= 16384 && cfg.caches[i].mode in ["wt", "pt", "wa", "wb", "wo"])
      && (forall i :: 0 <= i < |cfg.cores| ==> 1 <= cfg.cores[i].cacheId <= 16384 && 0 <= cfg.cores[i].id <= 4095)
  {
    hide PlainParams, Settle;
    ReadConfigIsKept(fs, incomplete, text);
    FirstLineStarts(text);
    var cfg := FromFile(fs, incomplete, text).value.1;
    hide FromFile;
    forall i | 0 <= i < |cfg.cores|
      ensures 1 <= cfg.cores[i].cacheId <= 16384 && 0 <= cfg.cores[i].id <= 4095
    {
      assert CoreKept(fs, cfg, cfg.cores[i]);
    }
    forall i | 0 <= i < |cfg.caches|
      ensures 1 <= cfg.caches[i].id <= 16384 && cfg.caches[i].mode in ["wt", "pt", "wa", "wb", "wo"]
    {
      assert CacheKept(fs, cfg.caches[i]);
    }
  }

  lemma {:induction false} FirstLineStarts(text: string)
    requires text != ""
    ensures Lines(text) != [] && Lines(text)[0] <= text
  {
  }

  /** Any tag will do, and with nothing else in the file the configuration is empty. */
  lemma {:induction false} TagIsEnough(fs: Fs, incomplete: bool, tag: string)
    requires Absolute(fs.cwd) && '\n' !in tag
    ensures FromFile(fs, incomplete, "version=" + tag) == Some(("version=" + tag, Config([], [])))
    ensures FromFile(fs, incomplete, "version=" + tag + "\n") == Some(("version=" + tag + "\n", Config([], [])))
  {
    var text := "version=" + tag;
    assert '\n' !in text;
    assert [text][1..] == [];
    FirstLine(text, "");
    assert text + "\n" + "" == text + "\n" && Lines("") == [];
    assert [text + "\n"] + [] == [text + "\n"];
    hide ReadLine;
  }

  /** Unless devices may be missing, every device a file gives is there, and no cache device has partitions. */
  lemma {:induction false} ReadDevices(fs: Fs, text: string, i: nat)
    requires Absolute(fs.cwd) && FromFile(fs, false, text).Some? && i < |GivenIn(fs, false, text)|
    ensures var e := GivenIn(fs, false, text)[i];
      Present(fs, DeviceOf(e)) && (e.CacheEntry? ==> !fs.hasPartitions(DeviceOf(e)))
  {
    hide Given, NotRecursive, ReadLines;
    GivenAdds(fs, false, EMPTY, Lines(text)[1..]);
  }
}
