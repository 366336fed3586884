/**
 Which device names make a configuration read back as it was written.
 */
module ConfigDevices {
  import opened Basics
  import opened PyText
  import opened PyPath
  import opened Config
  import opened ConfigRoundTrip

  /** A cache or core line that was accepted, its device as the line gives it. */
  datatype Entry = CacheEntry(cache: Cache) | CoreEntry(core: Core)

  function DeviceOf(e: Entry): string {
    match e
    case CacheEntry(c) => c.device
    case CoreEntry(c) => c.device
  }

  predicate DeviceOk(fs: Fs, incomplete: bool, e: Entry) {
    match e
    case CacheEntry(c) => CacheDeviceOk(fs, incomplete, c)
    case CoreEntry(c) => CoreDeviceOk(fs, incomplete, c)
  }

  function Add(fs: Fs, cfg: Config, e: Entry): Option<Config>
    requires Absolute(fs.cwd)
  {
    match e
    case CacheEntry(c) => AddCache(fs, cfg, c)
    case CoreEntry(c) => AddCore(fs, cfg, c)
  }

  function AddAll(fs: Fs, cfg: Config, es: seq<Entry>): Option<Config>
    requires Absolute(fs.cwd)
    decreases |es|
  {
    if es == [] then Some(cfg)
    else
      var next := Add(fs, cfg, es[0]);
      if next.None? then None else AddAll(fs, next.value, es[1..])
  }

  /** The entry on a line, if the line is one in this section. */
  function EntryOn(st: Reading, line: string): seq<Entry> {
    var s := Content(line);
    if s == "" || s == "[caches]" || s == "[cores]" then []
    else if st.inCaches then (var c := CacheFromLine(s); if c.None? then [] else [CacheEntry(c.value)])
    else if st.inCores then (var c := CoreFromLine(s); if c.None? then [] else [CoreEntry(c.value)])
    else []
  }

  /** All entries of a text that can be read, with the devices as given. */
  function Given(fs: Fs, incomplete: bool, st: Reading, lines: seq<string>): seq<Entry>
    requires Absolute(fs.cwd)
    decreases |lines|
  {
    if lines == [] then []
    else
      var next := ReadLine(fs, incomplete, st, lines[0]);
      if next.None? then [] else EntryOn(st, lines[0]) + Given(fs, incomplete, next.value, lines[1..])
  }

  function GivenIn(fs: Fs, incomplete: bool, text: string): seq<Entry>
    requires Absolute(fs.cwd)
  {
    if Lines(text) == [] then [] else Given(fs, incomplete, EMPTY, Lines(text)[1..])
  }

  ghost predicate Accepted(fs: Fs, incomplete: bool, e: Entry) {
    Column(DeviceOf(e)) && DeviceOk(fs, incomplete, e)
  }

  lemma {:induction false} LineDevicesAreClean(s: string)
    requires '#' !in s
    ensures CacheFromLine(s).Some? ==> Column(CacheFromLine(s).value.device)
    ensures CoreFromLine(s).Some? ==> Column(CoreFromLine(s).value.device)
  {
    hide PyInt, ParamsColumn, Words;
    WordsAreWords(s);
    var words := Words(s);
    if 3 <= |words| <= 4 {
      DrawnAvoids(words[1], s, '#');
      DrawnAvoids(words[2], s, '#');
    }
  }

  lemma {:induction false} LineAdds(fs: Fs, incomplete: bool, st: Reading, line: string)
    requires Absolute(fs.cwd) && ReadLine(fs, incomplete, st, line).Some?
    ensures AddAll(fs, st.cfg, EntryOn(st, line)) == Some(ReadLine(fs, incomplete, st, line).value.cfg)
    ensures forall i :: 0 <= i < |EntryOn(st, line)| ==> Accepted(fs, incomplete, EntryOn(st, line)[i])
  {
    hide CacheFieldsOk, CoreFieldsOk, CacheDeviceOk, CoreDeviceOk, CacheFromLine, CoreFromLine, Content, AddCache, AddCore;
    ContentHasNoHash(line);
    LineDevicesAreClean(Content(line));
    var es := EntryOn(st, line);
    if es != [] {
      assert es[1..] == [];
    }
  }

  lemma {:induction false} AddAllAppend(fs: Fs, cfg: Config, a: seq<Entry>, b: seq<Entry>)
    requires Absolute(fs.cwd) && AddAll(fs, cfg, a).Some?
    ensures AddAll(fs, cfg, a + b) == AddAll(fs, AddAll(fs, cfg, a).value, b)
    decreases |a|
  {
    hide Add;
    if a == [] {
      assert a + b == b;
    } else {
      assert (a + b)[1..] == a[1..] + b;
      AddAllAppend(fs, Add(fs, cfg, a[0]).value, a[1..], b);
    }
  }

  /** Reading a file is putting its entries in, one after the other. */
  lemma {:induction false} GivenAdds(fs: Fs, incomplete: bool, st: Reading, lines: seq<string>)
    requires Absolute(fs.cwd) && ReadLines(fs, incomplete, st, lines).Some?
    ensures AddAll(fs, st.cfg, Given(fs, incomplete, st, lines)) == Some(ReadLines(fs, incomplete, st, lines).value.cfg)
    ensures forall i :: 0 <= i < |Given(fs, incomplete, st, lines)| ==> Accepted(fs, incomplete, Given(fs, incomplete, st, lines)[i])
    decreases |lines|
  {
    hide ReadLine, EntryOn, Accepted;
    if lines != [] {
      var next := ReadLine(fs, incomplete, st, lines[0]);
      LineAdds(fs, incomplete, st, lines[0]);
      GivenAdds(fs, incomplete, next.value, lines[1..]);
      AddAllAppend(fs, st.cfg, EntryOn(st, lines[0]), Given(fs, incomplete, next.value, lines[1..]));
    }
  }

  // ---------------------------------------------------------------- devices that are kept as given

  /** The name is kept as the line gives it, as an absolute and normalised one is. */
  ghost predicate Unmoved(fs: Fs, e: Entry)
    requires Absolute(fs.cwd)
  {
    Settle(fs, DeviceOf(e)) == DeviceOf(e)
  }

  lemma {:induction false} AddStays(fs: Fs, incomplete: bool, cfg: Config, e: Entry)
    requires Absolute(fs.cwd) && CleanDevices(cfg) && Stays(fs, incomplete, cfg)
    requires Accepted(fs, incomplete, e) && Unmoved(fs, e) && Add(fs, cfg, e).Some?
    ensures var now := Add(fs, cfg, e).value; CleanDevices(now) && Stays(fs, incomplete, now)
  {
    hide CacheDeviceOk, CoreDeviceOk, Column, Settle;
    var now := Add(fs, cfg, e).value;
    forall i | 0 <= i < |now.caches|
      ensures CacheStays(fs, incomplete, now, i)
    {
      if i < |cfg.caches| {
        assert CacheStays(fs, incomplete, cfg, i);
      }
    }
    forall i | 0 <= i < |now.cores|
      ensures CoreStays(fs, incomplete, now, i)
    {
      if i < |cfg.cores| {
        assert CoreStays(fs, incomplete, cfg, i);
      }
    }
  }

  lemma {:induction false} AddAllStays(fs: Fs, incomplete: bool, cfg: Config, es: seq<Entry>)
    requires Absolute(fs.cwd) && CleanDevices(cfg) && Stays(fs, incomplete, cfg)
    requires forall i :: 0 <= i < |es| ==> Accepted(fs, incomplete, es[i]) && Unmoved(fs, es[i])
    requires AddAll(fs, cfg, es).Some?
    ensures var now := AddAll(fs, cfg, es).value; CleanDevices(now) && Stays(fs, incomplete, now)
    decreases |es|
  {
    hide Accepted, Unmoved, CleanDevices, Stays, Add;
    if es != [] {
      AddStays(fs, incomplete, cfg, es[0]);
      AddAllStays(fs, incomplete, Add(fs, cfg, es[0]).value, es[1..]);
    }
  }

  /** A file whose devices are kept as given reads back the same once written. */
  lemma {:induction false} UnmovedReadsBack(fs: Fs, incomplete: bool, text: string)
    requires Absolute(fs.cwd) && FromFile(fs, incomplete, text).Some?
    requires IsLine(FromFile(fs, incomplete, text).value.0)
    requires forall i :: 0 <= i < |GivenIn(fs, incomplete, text)| ==> Unmoved(fs, GivenIn(fs, incomplete, text)[i])
    ensures var (version, cfg) := FromFile(fs, incomplete, text).value;
      FromFile(fs, incomplete, Write(version, cfg)) == Some((version, cfg))
  {
    GivenAdds(fs, incomplete, EMPTY, Lines(text)[1..]);
    AddAllStays(fs, incomplete, Config([], []), GivenIn(fs, incomplete, text));
    ReadBackIff(fs, incomplete, text);
  }

  /** Absolute and normalised names are kept as given, whatever is there. */
  lemma {:induction false} NormalIsUnmoved(fs: Fs, e: Entry)
    requires Absolute(fs.cwd) && AbsPath(fs.cwd, DeviceOf(e)) == DeviceOf(e)
    ensures Unmoved(fs, e)
  {
  }

  // ---------------------------------------------------------------- absolute devices

  lemma {:induction false} AbsoluteSettlesClean(fs: Fs, d: string)
    requires Absolute(fs.cwd) && Absolute(d) && Column(d)
    ensures Column(Settle(fs, d))
  {
    AbsDrawn(fs.cwd, d);
    var path := AbsPath(fs.cwd, d);
    DrawnAvoids(path, d, '#');
    forall i | 0 <= i < |path|
      ensures !IsSpace(path[i])
    {
      var j :| 0 <= j < |d| && d[j] == path[i];
    }
  }

  lemma {:induction false} AddAllClean(fs: Fs, cfg: Config, es: seq<Entry>)
    requires Absolute(fs.cwd) && CleanDevices(cfg) && AddAll(fs, cfg, es).Some?
    requires forall i :: 0 <= i < |es| ==> Column(DeviceOf(es[i])) && Absolute(DeviceOf(es[i]))
    ensures CleanDevices(AddAll(fs, cfg, es).value)
    decreases |es|
  {
    hide Settle, Column, Absolute;
    if es != [] {
      AbsoluteSettlesClean(fs, DeviceOf(es[0]));
      AddAllClean(fs, Add(fs, cfg, es[0]).value, es[1..]);
    }
  }

  /** For absolute devices, reading back works exactly when the kept names validate and resolve differently. */
  lemma {:induction false} AbsoluteReadsBackIff(fs: Fs, incomplete: bool, text: string)
    requires Absolute(fs.cwd) && FromFile(fs, incomplete, text).Some?
    requires IsLine(FromFile(fs, incomplete, text).value.0)
    requires forall i :: 0 <= i < |GivenIn(fs, incomplete, text)| ==> Absolute(DeviceOf(GivenIn(fs, incomplete, text)[i]))
    ensures var (version, cfg) := FromFile(fs, incomplete, text).value;
      FromFile(fs, incomplete, Write(version, cfg)) == if Stays(fs, incomplete, cfg) then Some((version, cfg)) else None
  {
    GivenAdds(fs, incomplete, EMPTY, Lines(text)[1..]);
    AddAllClean(fs, Config([], []), GivenIn(fs, incomplete, text));
    ReadBackIff(fs, incomplete, text);
  }

  // ---------------------------------------------------------------- resolved devices stay apart

  /** No two caches or cores resolve to the same device. */
  ghost predicate Apart(fs: Fs, cfg: Config) {
    (forall i, j :: 0 <= i < j < |cfg.caches| ==> fs.realpath(cfg.caches[i].device) != fs.realpath(cfg.caches[j].device))
    && (forall i, j :: 0 <= i < j < |cfg.cores| ==> fs.realpath(cfg.cores[i].device) != fs.realpath(cfg.cores[j].device))
    && (forall i, j :: 0 <= i < |cfg.caches| && 0 <= j < |cfg.cores| ==>
          fs.realpath(cfg.caches[i].device) != fs.realpath(cfg.cores[j].device))
  }

  /** Normalising the name does not change what it resolves to; ".." behind a symbolic link can. */
  ghost predicate SameTarget(fs: Fs, e: Entry)
    requires Absolute(fs.cwd)
  {
    fs.realpath(Settle(fs, DeviceOf(e))) == fs.realpath(DeviceOf(e))
  }

  lemma {:induction false} AddAllApart(fs: Fs, cfg: Config, es: seq<Entry>)
    requires Absolute(fs.cwd) && Apart(fs, cfg) && AddAll(fs, cfg, es).Some?
    requires forall i :: 0 <= i < |es| ==> SameTarget(fs, es[i])
    ensures Apart(fs, AddAll(fs, cfg, es).value)
    decreases |es|
  {
    hide Settle;
    if es != [] {
      assert SameTarget(fs, es[0]);
      AddApart(fs, cfg, es[0]);
      AddAllApart(fs, Add(fs, cfg, es[0]).value, es[1..]);
    }
  }

  lemma {:induction false} AddApart(fs: Fs, cfg: Config, e: Entry)
    requires Absolute(fs.cwd) && Apart(fs, cfg) && SameTarget(fs, e) && Add(fs, cfg, e).Some?
    ensures Apart(fs, Add(fs, cfg, e).value)
  {
    hide Settle;
  }

  /** insert_cache and insert_core keep all resolved devices different over a whole file. */
  lemma {:induction false} ReadConfigIsApart(fs: Fs, incomplete: bool, text: string)
    requires Absolute(fs.cwd) && FromFile(fs, incomplete, text).Some?
    requires forall i :: 0 <= i < |GivenIn(fs, incomplete, text)| ==> SameTarget(fs, GivenIn(fs, incomplete, text)[i])
    ensures Apart(fs, FromFile(fs, incomplete, text).value.1)
  {
    GivenAdds(fs, incomplete, EMPTY, Lines(text)[1..]);
    AddAllApart(fs, Config([], []), GivenIn(fs, incomplete, text));
  }

  // ---------------------------------------------------------------- a name that does not survive

  const CACHE_ONE := Cache(1, "/dev/sda", "wt", [])
  const CORE_DOT := Core(1, 1, "/dev/./cas1-1", [])
  const CORE_ONE := Core(1, 1, "/dev/cas1-1", [])

  /** A file with one cache and one core of it, whose device is given as /dev/./cas1-1. */
  function DotFile(): string {
    Concat(["version=1\n", "[caches]\n", CacheLine(CACHE_ONE), "[cores]\n", CoreLine(CORE_DOT)])
  }

  /**
   Absolute is not enough. The file above passes the recursion check and is read; its core is kept as
   /dev/cas1-1, and what is then written is refused.
   */
  lemma {:induction false} DotHidesRecursion(fs: Fs)
    requires Absolute(fs.cwd) && (fs.isThere("/dev/cas1-1") || fs.isExported("/dev/cas1-1"))
    requires fs.realpath("/dev/./cas1-1") != fs.realpath("/dev/sda")
    ensures FromFile(fs, true, DotFile()) == Some(("version=1\n", Config([CACHE_ONE], [CORE_ONE])))
    ensures FromFile(fs, true, Write("version=1\n", Config([CACHE_ONE], [CORE_ONE]))) == None
  {
    var cfg := Config([CACHE_ONE], [CORE_ONE]);
    DotFileReads(fs);
    assert !Stays(fs, true, cfg) by {
      hide NotRecursive;
      OwnDeviceIsRecursive();
      assert !CoreStays(fs, true, cfg, 0);
    }
    hide FromFile, Stays;
    ReadBackIff(fs, true, DotFile());
  }

  lemma {:induction false} HeadersRead(fs: Fs)
    requires Absolute(fs.cwd)
    ensures ReadLine(fs, true, EMPTY, "[caches]\n") == Some(Reading(true, false, Config([], [])))
    ensures ReadLine(fs, true, Reading(true, false, Config([CACHE_ONE], [])), "[cores]\n")
         == Some(Reading(false, true, Config([CACHE_ONE], [])))
  {
    hide Content, CacheFromLine, CoreFromLine;
    HeaderContent("[caches]");
    HeaderContent("[cores]");
    assert "[caches]" + "\n" == "[caches]\n" && "[cores]" + "\n" == "[cores]\n";
  }

  lemma {:induction false} DotFileReads(fs: Fs)
    requires Absolute(fs.cwd) && (fs.isThere("/dev/cas1-1") || fs.isExported("/dev/cas1-1"))
    requires fs.realpath("/dev/./cas1-1") != fs.realpath("/dev/sda")
    ensures FromFile(fs, true, DotFile()) == Some(("version=1\n", Config([CACHE_ONE], [CORE_ONE])))
    ensures IsLine("version=1\n") && CleanDevices(Config([CACHE_ONE], [CORE_ONE]))
  {
    hide ReadLines, CacheLine, CoreLine, Content;
    var lines := ["version=1\n", "[caches]\n", CacheLine(CACHE_ONE), "[cores]\n", CoreLine(CORE_DOT)];
    DotLines(fs);
    LinesConcat(lines);
    var st1 := Reading(true, false, Config([], []));
    var st2 := Reading(true, false, Config([CACHE_ONE], []));
    var st3 := Reading(false, true, Config([CACHE_ONE], []));
    var st4 := Reading(false, true, Config([CACHE_ONE], [CORE_ONE]));
    CacheIsRead(fs);
    CoreIsRead(fs);
    HeadersRead(fs);
    hide ReadLine, Lines, CleanDevices, IsLine;
    var rest := lines[1..];
    ReadOne(fs, true, EMPTY, rest, st1);
    ReadOne(fs, true, st1, rest[1..], st2);
    ReadOne(fs, true, st2, rest[1..][1..], st3);
    ReadOne(fs, true, st3, rest[1..][1..][1..], st4);
    ReadNone(fs, true, st4, rest[1..][1..][1..][1..]);
  }

  /** Printable ASCII without the comment sign makes a clean name. */
  lemma PrintableIsClean(d: string)
    requires d != "" && forall i :: 0 <= i < |d| ==> '!' <= d[i] <= '~' && d[i] != '#'
    ensures Column(d)
  {
  }

  lemma DevicesAreClean()
    ensures Column("/dev/sda") && Column("/dev/./cas1-1") && Column("/dev/cas1-1")
  {
    hide Column;
    PrintableIsClean("/dev/sda");
    PrintableIsClean("/dev/./cas1-1");
    PrintableIsClean("/dev/cas1-1");
  }

  lemma {:induction false} SdaSplit()
    ensures SplitOn("/dev/sda", '/') == ["", "dev", "sda"]
  {
    var parts := ["", "dev", "sda"];
    assert parts[1..] == ["dev", "sda"] && ["dev", "sda"][1..] == ["sda"];
    assert Join(["sda"], '/') == "sda" && Join(["dev", "sda"], '/') == "dev/sda" && Join(parts, '/') == "/dev/sda";
    SplitJoin(parts, '/');
  }

  lemma {:induction false} SdaResolved()
    ensures Resolve(["", "dev", "sda"], []) == ["dev", "sda"]
  {
    var parts := ["", "dev", "sda"];
    assert parts[1..] == ["dev", "sda"] && ["dev", "sda"][1..] == ["sda"] && ["sda"][1..] == [];
    assert ["dev"] + ["sda"] == ["dev", "sda"] && [] + ["dev"] == ["dev"];
    assert Resolve(["sda"], ["dev"]) == ["dev", "sda"];
    assert Resolve(["dev", "sda"], []) == ["dev", "sda"];
  }

  lemma {:induction false} SdaIsKept(fs: Fs)
    requires Absolute(fs.cwd)
    ensures Settle(fs, "/dev/sda") == "/dev/sda"
  {
    hide Resolve, SplitOn;
    SdaSplit();
    SdaResolved();
    assert Root("/dev/sda") == "/";
    assert ["dev", "sda"][1..] == ["sda"];
    assert Join(["dev", "sda"], '/') == "dev/sda";
    assert "/" + "dev/sda" == "/dev/sda";
  }

  /** The recursion check looks only at names that start with /dev/cas. */
  lemma OtherNamesPass(d: string, cacheId: int)
    requires |d| > 5 && d[5] != 'c'
    ensures NotRecursive(d, cacheId)
  {
    assert CAS_PREFIX[5] == 'c';
  }

  /** A written cache line, where caches are read, puts the cache in. */
  lemma {:induction false} CacheLineAdds(fs: Fs, incomplete: bool, st: Reading, c: Cache)
    requires Absolute(fs.cwd) && st.inCaches && CacheFieldsOk(fs, c) && PlainParams(c.params) && Column(c.device)
    requires CacheDeviceOk(fs, incomplete, c)
    ensures ReadLine(fs, incomplete, st, CacheLine(c)) == WithConfig(st, AddCache(fs, st.cfg, c))
  {
    hide Content, CacheLine, CacheFromLine, CacheFieldsOk, CacheDeviceOk, PlainParams, Column, AddCache;
    CacheLineReads(fs, c);
  }

  lemma {:induction false} CoreLineAdds(fs: Fs, incomplete: bool, st: Reading, c: Core)
    requires Absolute(fs.cwd) && !st.inCaches && st.inCores && CoreFieldsOk(c) && PlainParams(c.params) && Column(c.device)
    requires CoreDeviceOk(fs, incomplete, c)
    ensures ReadLine(fs, incomplete, st, CoreLine(c)) == WithConfig(st, AddCore(fs, st.cfg, c))
  {
    hide Content, CoreLine, CoreFromLine, CoreFieldsOk, CoreDeviceOk, PlainParams, Column, AddCore;
    CoreLineReads(c);
  }

  lemma {:induction false} CacheIsRead(fs: Fs)
    requires Absolute(fs.cwd)
    ensures ReadLine(fs, true, Reading(true, false, Config([], [])), CacheLine(CACHE_ONE))
         == Some(Reading(true, false, Config([CACHE_ONE], [])))
  {
    hide ReadLine, CacheLine, Settle, NotRecursive, Column;
    DevicesAreClean();
    SdaIsKept(fs);
    OtherNamesPass("/dev/sda", 1);
    CacheLineAdds(fs, true, Reading(true, false, Config([], [])), CACHE_ONE);
    assert [] + [CACHE_ONE] == [CACHE_ONE];
  }

  lemma {:induction false} CoreIsRead(fs: Fs)
    requires Absolute(fs.cwd) && (fs.isThere("/dev/cas1-1") || fs.isExported("/dev/cas1-1"))
    requires fs.realpath("/dev/./cas1-1") != fs.realpath("/dev/sda")
    ensures ReadLine(fs, true, Reading(false, true, Config([CACHE_ONE], [])), CoreLine(CORE_DOT))
         == Some(Reading(false, true, Config([CACHE_ONE], [CORE_ONE])))
  {
    hide ReadLine, CoreLine, AbsPath, NotRecursive, Column;
    DevicesAreClean();
    DotDropped(fs.cwd);
    OtherNamesPass("/dev/./cas1-1", 1);
    var cfg := Config([CACHE_ONE], []);
    CoreLineAdds(fs, true, Reading(false, true, cfg), CORE_DOT);
    assert cfg.caches[0].id == 1;
    assert [] + [CORE_ONE] == [CORE_ONE];
  }

  lemma {:induction false} DotLines(fs: Fs)
    requires Absolute(fs.cwd)
    ensures IsLine("version=1\n") && IsLine("[caches]\n") && IsLine("[cores]\n")
    ensures IsLine(CacheLine(CACHE_ONE)) && IsLine(CoreLine(CORE_DOT))
    ensures CleanDevices(Config([CACHE_ONE], [CORE_ONE]))
  {
    DevicesAreClean();
    hide CacheLine, CoreLine, Column, Content, CacheFromLine, CoreFromLine;
    CacheLineReads(fs, CACHE_ONE);
    CoreLineReads(CORE_DOT);
  }

  lemma {:induction false} DotDropped(cwd: string)
    requires Absolute(cwd)
    ensures AbsPath(cwd, "/dev/./cas1-1") == "/dev/cas1-1"
  {
    hide Resolve, SplitOn;
    DotSplit();
    DotResolved();
    assert Root("/dev/./cas1-1") == "/";
    assert ["dev", "cas1-1"][1..] == ["cas1-1"];
    assert Join(["dev", "cas1-1"], '/') == "dev/cas1-1";
    assert "/" + "dev/cas1-1" == "/dev/cas1-1";
  }

  lemma {:induction false} DotSplit()
    ensures SplitOn("/dev/./cas1-1", '/') == ["", "dev", ".", "cas1-1"]
  {
    var parts := ["", "dev", ".", "cas1-1"];
    assert parts[1..] == ["dev", ".", "cas1-1"] && parts[1..][1..] == [".", "cas1-1"] && parts[1..][1..][1..] == ["cas1-1"];
    assert Join(["cas1-1"], '/') == "cas1-1" && Join([".", "cas1-1"], '/') == "./cas1-1";
    assert Join(["dev", ".", "cas1-1"], '/') == "dev/./cas1-1" && Join(parts, '/') == "/dev/./cas1-1";
    SplitJoin(parts, '/');
  }

  lemma {:induction false} DotResolved()
    ensures Resolve(["", "dev", ".", "cas1-1"], []) == ["dev", "cas1-1"]
  {
    var parts := ["", "dev", ".", "cas1-1"];
    assert parts[1..] == ["dev", ".", "cas1-1"] && parts[1..][1..] == [".", "cas1-1"] && parts[1..][1..][1..] == ["cas1-1"];
    assert ["cas1-1"][1..] == [];
    assert ["dev"] + ["cas1-1"] == ["dev", "cas1-1"] && [] + ["dev"] == ["dev"];
    assert Resolve(["cas1-1"], ["dev"]) == ["dev", "cas1-1"];
    assert Resolve([".", "cas1-1"], ["dev"]) == ["dev", "cas1-1"];
    assert Resolve(["dev", ".", "cas1-1"], []) == ["dev", "cas1-1"];
  }

  lemma {:induction false} OwnDeviceIsRecursive()
    ensures !NotRecursive("/dev/cas1-1", 1)
  {
    var d := "/dev/cas1-1";
    assert d[|CAS_PREFIX|..] == "1-1";
    assert UpTo("1-1", CAS_PREFIX) == "1-1" by {
      assert "1-1"[1..] == "-1" && "-1"[1..] == "1" && "1"[1..] == "";
      assert UpTo("1", CAS_PREFIX) == "1";
      assert UpTo("-1", CAS_PREFIX) == "-1";
    }
    var ids := ["1", "1"];
    assert ids[1..] == ["1"] && Join(ids, '-') == "1-1";
    SplitJoin(ids, '-');
    assert "1"[..0] == "";
    assert PyInt("1") == Some(1);
  }
}
