/**
 The configuration object: caches and cores put in one by one, read from a file and written to one.
 */
module ConfigFile {
  import opened Basics
  import opened PyText
  import opened PyPath
  import opened Config
  import opened ConfigRoundTrip
  import opened ConfigDevices

  datatype Outcome = Done | Conflicting | AlreadyConfigured | NoSuchCache

  // ---------------------------------------------------------------- lines

  /** The parameter loop of from_line. */
  method ReadParams(column: string) returns (r: Option<seq<Param>>)
    ensures r == ParseParams(column)
  {
    var pieces := SplitOn(Lower(column), ',');
    var params := [];
    var i := 0;
    while i < |pieces|
      invariant i <= |pieces| && ParsePieces(pieces[i..], params) == ParseParams(column)
    {
      assert pieces[i..][0] == pieces[i] && pieces[i..][1..] == pieces[i + 1..];
      var kv := SplitOn(pieces[i], '=');
      if |kv| != 2 {
        return None;
      }
      if Named(params, kv[0]) {
        return None;
      }
      params := params + [Param(kv[0], kv[1])];
      i := i + 1;
    }
    return Some(params);
  }

  method CacheOfLine(line: string) returns (r: Option<Cache>)
    ensures r == CacheFromLine(line)
  {
    var values := Words(line);
    if |values| < 3 {
      return None;
    } else if |values| > 4 {
      return None;
    }
    var id := PyInt(values[0]);
    if id.None? {
      return None;
    }
    var params := Some([]);
    if |values| > 3 {
      params := ReadParams(values[3]);
      if params.None? {
        return None;
      }
    }
    return Some(Cache(id.value, values[1], Lower(values[2]), params.value));
  }

  method CoreOfLine(line: string) returns (r: Option<Core>)
    ensures r == CoreFromLine(line)
  {
    var values := Words(line);
    if |values| > 4 {
      return None;
    } else if |values| < 3 {
      return None;
    }
    var cacheId := PyInt(values[0]);
    if cacheId.None? {
      return None;
    }
    var id := PyInt(values[1]);
    if id.None? {
      return None;
    }
    var params := Some([]);
    if |values| > 3 {
      params := ReadParams(values[3]);
      if params.None? {
        return None;
      }
    }
    return Some(Core(cacheId.value, id.value, values[2], params.value));
  }

  lemma {:induction false} JoinSnoc(parts: seq<string>, part: string, sep: char)
    requires parts != []
    ensures Join(parts + [part], sep) == Join(parts, sep) + [sep] + part
  {
    if |parts| == 1 {
      assert (parts + [part])[1..] == [part];
    } else {
      JoinSnoc(parts[1..], part, sep);
      assert (parts + [part])[1..] == parts[1..] + [part];
    }
  }

  /** What to_line has built after i parameters. */
  function Built(line: string, params: seq<Param>, i: nat): string
    requires i <= |params|
  {
    if i == 0 then line else line + "\t" + Join(Pieces(params)[..i], ',')
  }

  lemma {:induction false} BuiltMore(line: string, params: seq<Param>, i: nat)
    requires i < |params|
    ensures Built(line, params, i + 1)
         == Built(line, params, i) + (if i > 0 then "," else "\t") + params[i].name + "=" + params[i].value
  {
    var pieces := Pieces(params);
    assert pieces[..i + 1] == pieces[..i] + [pieces[i]];
    if i > 0 {
      JoinSnoc(pieces[..i], pieces[i], ',');
    }
  }

  /** The parameter loop of to_line: a tab before the first, commas between. */
  method AppendParams(line: string, params: seq<Param>) returns (ret: string)
    ensures ret == if params == [] then line else line + "\t" + Join(Pieces(params), ',')
  {
    ret := line;
    var i := 0;
    while i < |params|
      invariant i <= |params| && ret == Built(line, params, i)
    {
      BuiltMore(line, params, i);
      if i > 0 {
        ret := ret + ",";
      } else {
        ret := ret + "\t";
      }
      ret := ret + params[i].name + "=" + params[i].value;
      i := i + 1;
    }
    assert Pieces(params)[..i] == Pieces(params);
  }

  lemma {:induction false} ThreeColumns(a: string, b: string, c: string, params: seq<Param>)
    ensures Join([a, b, c] + ParamsText(params), '\t')
         == var line := a + "\t" + b + "\t" + c; if params == [] then line else line + "\t" + Join(Pieces(params), ',')
  {
    assert [a, b, c] == [a] + [b] + [c];
    JoinSnoc([a], b, '\t');
    JoinSnoc([a] + [b], c, '\t');
    if params == [] {
      assert [a, b, c] + ParamsText(params) == [a, b, c];
    } else {
      JoinSnoc([a, b, c], Join(Pieces(params), ','), '\t');
    }
  }

  method CacheToLine(c: Cache) returns (ret: string)
    ensures ret == CacheLine(c)
  {
    ThreeColumns(IntText(c.id), c.device, c.mode, c.params);
    ret := IntText(c.id) + "\t" + c.device + "\t" + c.mode;
    if |c.params| > 0 {
      ret := AppendParams(ret, c.params);
    }
    ret := ret + "\n";
  }

  method CoreToLine(c: Core) returns (ret: string)
    ensures ret == CoreLine(c)
  {
    ThreeColumns(IntText(c.cacheId), IntText(c.id), c.device, c.params);
    ret := IntText(c.cacheId) + "\t" + IntText(c.id) + "\t" + c.device;
    ret := AppendParams(ret, c.params);
    ret := ret + "\n";
  }

  // ---------------------------------------------------------------- the object

  class CasConfig {
    var versionTag: string
    /** The caches dictionary in its order, and the list of cores; a cache's own dictionary holds the cores with its id. */
    var caches: seq<Cache>
    var cores: seq<Core>

    constructor (versionTag: string)
      ensures this.versionTag == versionTag && caches == [] && cores == [] && Valid()
    {
      this.versionTag, caches, cores := versionTag, [], [];
    }

    function View(): Config
      reads this
    {
      Config(caches, cores)
    }

    /** Every cache has an id of its own, and every core is in the dictionary of some cache, under an id of its own. */
    ghost predicate Valid()
      reads this
    {
      (forall i :: 0 <= i < |cores| ==> HasCache(View(), cores[i].cacheId))
      && (forall i, j :: 0 <= i < j < |cores| ==> cores[i].cacheId != cores[j].cacheId || cores[i].id != cores[j].id)
      && (forall i, j :: 0 <= i < j < |caches| ==> caches[i].id != caches[j].id)
    }

    method FindCache(id: int) returns (i: nat)
      ensures i <= |caches| && (i == |caches| <==> !HasCache(View(), id)) && (i < |caches| ==> caches[i].id == id)
    {
      i := 0;
      while i < |caches|
        invariant i <= |caches| && forall j :: 0 <= j < i ==> caches[j].id != id
      {
        if caches[i].id == id {
          return;
        }
        i := i + 1;
      }
    }

    /** Whether a core of one cache resolves to the device. */
    method CoreOfCacheUses(fs: Fs, cacheId: int, device: string) returns (used: bool)
      ensures used <==> exists j :: 0 <= j < |cores| && cores[j].cacheId == cacheId
                                    && fs.realpath(cores[j].device) == fs.realpath(device)
    {
      var j := 0;
      while j < |cores|
        invariant j <= |cores|
        invariant forall k :: 0 <= k < j && cores[k].cacheId == cacheId ==> fs.realpath(cores[k].device) != fs.realpath(device)
      {
        if cores[j].cacheId == cacheId && fs.realpath(cores[j].device) == fs.realpath(device) {
          return true;
        }
        j := j + 1;
      }
      return false;
    }

    /** The checks of insert_cache. */
    method CheckCache(fs: Fs, c: Cache) returns (r: Outcome)
      requires Valid()
      ensures r.Done? <==> !HasCache(View(), c.id) && !UsedByCache(fs, View(), c.device) && !UsedByCore(fs, View(), c.device)
      ensures r.AlreadyConfigured? <==> exists i :: 0 <= i < |caches| && Same(fs, caches[i], c)
      ensures !r.NoSuchCache?
    {
      var at := FindCache(c.id);
      if at < |caches| {
        if fs.realpath(caches[at].device) != fs.realpath(c.device) {
          return Conflicting;
        } else {
          return AlreadyConfigured;
        }
      }
      var i := 0;
      while i < |caches|
        invariant i <= |caches|
        invariant forall j :: 0 <= j < i ==> fs.realpath(caches[j].device) != fs.realpath(c.device)
        invariant forall k :: 0 <= k < |cores| && Among(caches, i, cores[k].cacheId)
                              ==> fs.realpath(cores[k].device) != fs.realpath(c.device)
      {
        if caches[i].id != c.id {
          if fs.realpath(c.device) == fs.realpath(caches[i].device) {
            return Conflicting;
          }
        }
        var used := CoreOfCacheUses(fs, caches[i].id, c.device);
        if used {
          return Conflicting;
        }
        i := i + 1;
      }
      AllAmong();
      return Done;
    }

    lemma AllAmong()
      requires Valid()
      ensures forall k :: 0 <= k < |cores| ==> Among(caches, |caches|, cores[k].cacheId)
    {
      forall k | 0 <= k < |cores|
        ensures Among(caches, |caches|, cores[k].cacheId)
      {
        assert HasCache(View(), cores[k].cacheId);
      }
    }

    /** insert_cache. */
    method InsertCache(fs: Fs, c: Cache) returns (r: Outcome)
      requires Valid() && Absolute(fs.cwd)
      modifies this`caches
      ensures Valid()
      ensures AddCache(fs, old(View()), c) == if r.Done? then Some(View()) else None
      ensures !r.Done? ==> View() == old(View())
      ensures r.AlreadyConfigured? <==> exists i :: 0 <= i < |old(caches)| && Same(fs, old(caches)[i], c)
      ensures !r.NoSuchCache?
    {
      r := CheckCache(fs, c);
      if !r.Done? {
        return;
      }
      caches := caches + [c.(device := Settle(fs, c.device))];
      StillThere(old(View()), View());
    }

    static lemma StillThere(was: Config, now: Config)
      requires |was.caches| <= |now.caches| && now.caches[..|was.caches|] == was.caches
      ensures forall id :: HasCache(was, id) ==> HasCache(now, id)
    {
      forall id | HasCache(was, id)
        ensures HasCache(now, id)
      {
        var i :| 0 <= i < |was.caches| && was.caches[i].id == id;
        assert now.caches[i] == was.caches[i];
      }
    }

    /** The cores of one cache against a new core. */
    method CheckCores(fs: Fs, cacheId: int, c: Core) returns (r: Outcome)
      ensures r.Done? ==> forall j :: 0 <= j < |cores| && cores[j].cacheId == cacheId ==> !Clashes(fs, cores[j], c)
      ensures !r.Done? ==> exists j :: 0 <= j < |cores| && Clashes(fs, cores[j], c)
      ensures r.AlreadyConfigured? ==> exists j :: 0 <= j < |cores| && Repeats(fs, cores[j], c)
      ensures r.Conflicting? ==> exists j :: 0 <= j < |cores| && Clashes(fs, cores[j], c) && !Repeats(fs, cores[j], c)
      ensures !r.NoSuchCache?
    {
      var j := 0;
      while j < |cores|
        invariant j <= |cores|
        invariant forall k :: 0 <= k < j && cores[k].cacheId == cacheId ==> !Clashes(fs, cores[k], c)
      {
        if cores[j].cacheId == cacheId {
          if cacheId == c.cacheId && cores[j].id == c.id {
            if fs.realpath(cores[j].device) == fs.realpath(c.device) {
              return AlreadyConfigured;
            } else {
              return Conflicting;
            }
          } else {
            if fs.realpath(cores[j].device) == fs.realpath(c.device) {
              return Conflicting;
            }
          }
        }
        j := j + 1;
      }
      return Done;
    }

    /** The checks of insert_core. */
    method CheckCore(fs: Fs, c: Core) returns (r: Outcome)
      requires Valid()
      ensures r.NoSuchCache? <==> !HasCache(View(), c.cacheId)
      ensures r.Done? <==> HasCache(View(), c.cacheId) && !UsedByCache(fs, View(), c.device)
                           && forall k :: 0 <= k < |cores| ==> !Clashes(fs, cores[k], c)
      ensures r.AlreadyConfigured? ==> exists k :: 0 <= k < |cores| && Repeats(fs, cores[k], c)
      ensures r.Conflicting? ==> UsedByCache(fs, View(), c.device)
                                 || exists k :: 0 <= k < |cores| && Clashes(fs, cores[k], c) && !Repeats(fs, cores[k], c)
    {
      var at := FindCache(c.cacheId);
      if at == |caches| {
        return NoSuchCache;
      }
      var i := 0;
      while i < |caches|
        invariant i <= |caches|
        invariant forall j :: 0 <= j < i ==> fs.realpath(caches[j].device) != fs.realpath(c.device)
        invariant forall k :: 0 <= k < |cores| && Among(caches, i, cores[k].cacheId) ==> !Clashes(fs, cores[k], c)
      {
        if fs.realpath(caches[i].device) == fs.realpath(c.device) {
          return Conflicting;
        }
        r := CheckCores(fs, caches[i].id, c);
        if !r.Done? {
          return;
        }
        i := i + 1;
      }
      AllAmong();
      return Done;
    }

    /** insert_core. While resolved devices are apart, "already configured" means exactly that id with that device. */
    method InsertCore(fs: Fs, c: Core) returns (r: Outcome)
      requires Valid() && Absolute(fs.cwd)
      modifies this`cores
      ensures Valid()
      ensures AddCore(fs, old(View()), c) == if r.Done? then Some(View()) else None
      ensures !r.Done? ==> View() == old(View())
      ensures r.NoSuchCache? <==> !HasCache(View(), c.cacheId)
      ensures r.AlreadyConfigured? ==> exists j :: 0 <= j < |cores| && Repeats(fs, cores[j], c)
      ensures r.Conflicting? && Apart(fs, View()) ==> forall j :: 0 <= j < |cores| ==> !Repeats(fs, cores[j], c)
    {
      r := CheckCore(fs, c);
      ClashIsUse(fs, View(), c);
      if !r.Done? {
        if r.Conflicting? {
          ConflictIsNoRepeat(fs, View(), c);
        }
        return;
      }
      cores := cores + [c.(device := Settle(fs, c.device))];
    }

    static lemma ClashIsUse(fs: Fs, cfg: Config, c: Core)
      ensures (exists k :: 0 <= k < |cfg.cores| && Clashes(fs, cfg.cores[k], c)) <==>
              HasCore(cfg, c.cacheId, c.id) || UsedByCore(fs, cfg, c.device)
    {
      if HasCore(cfg, c.cacheId, c.id) {
        var k :| 0 <= k < |cfg.cores| && cfg.cores[k].cacheId == c.cacheId && cfg.cores[k].id == c.id;
        assert Clashes(fs, cfg.cores[k], c);
      }
      if UsedByCore(fs, cfg, c.device) {
        var k :| 0 <= k < |cfg.cores| && fs.realpath(cfg.cores[k].device) == fs.realpath(c.device);
        assert Clashes(fs, cfg.cores[k], c);
      }
    }

    static lemma ConflictIsNoRepeat(fs: Fs, cfg: Config, c: Core)
      requires UsedByCache(fs, cfg, c.device)
               || exists k :: 0 <= k < |cfg.cores| && Clashes(fs, cfg.cores[k], c) && !Repeats(fs, cfg.cores[k], c)
      requires forall i, j :: 0 <= i < j < |cfg.cores| ==> cfg.cores[i].cacheId != cfg.cores[j].cacheId || cfg.cores[i].id != cfg.cores[j].id
      ensures Apart(fs, cfg) ==> forall j :: 0 <= j < |cfg.cores| ==> !Repeats(fs, cfg.cores[j], c)
    {
    }
  }

  // ---------------------------------------------------------------- files

  /** One line of from_file; the section flags and the object are what the line leaves them at. */
  method TakeLine(fs: Fs, incomplete: bool, config: CasConfig, line: string, inCaches: bool, inCores: bool)
    returns (ok: bool, caches: bool, cores: bool)
    requires Absolute(fs.cwd) && config.Valid()
    modifies config`caches, config`cores
    ensures config.Valid()
    ensures ReadLine(fs, incomplete, Reading(inCaches, inCores, old(config.View())), line)
         == if ok then Some(Reading(caches, cores, config.View())) else None
  {
    hide Content, CacheFieldsOk, CoreFieldsOk, CacheDeviceOk, CoreDeviceOk, AddCache, AddCore;
    caches, cores := inCaches, inCores;
    var s := Content(line);
    if s == "" {
      return true, caches, cores;
    }
    if s == "[caches]" {
      return true, true, cores;
    }
    if s == "[cores]" {
      return true, false, true;
    }
    if inCaches {
      var c := CacheOfLine(s);
      if c.None? || !CacheFieldsOk(fs, c.value) || !CacheDeviceOk(fs, incomplete, c.value) {
        return false, caches, cores;
      }
      var r := config.InsertCache(fs, c.value);
      return r.Done?, caches, cores;
    } else if inCores {
      var c := CoreOfLine(s);
      if c.None? || !CoreFieldsOk(c.value) || !CoreDeviceOk(fs, incomplete, c.value) {
        return false, caches, cores;
      }
      var r := config.InsertCore(fs, c.value);
      return r.Done?, caches, cores;
    }
    return true, caches, cores;
  }

  /** from_file; null stands for the exception that leaves it. */
  method ReadFile(fs: Fs, incomplete: bool, text: string) returns (config: CasConfig?)
    requires Absolute(fs.cwd)
    ensures config == null <==> FromFile(fs, incomplete, text).None?
    ensures config != null ==> fresh(config) && config.Valid()
                               && FromFile(fs, incomplete, text) == Some((config.versionTag, config.View()))
  {
    hide ReadLine;
    var lines := Lines(text);
    if lines == [] || !StartsWith(lines[0], VERSION_PREFIX) {
      return null;
    }
    var c := new CasConfig(lines[0]);
    var inCaches, inCores := false, false;
    var i := 1;
    while i < |lines|
      invariant 1 <= i <= |lines| && c.Valid() && c.versionTag == lines[0] && fresh(c)
      invariant ReadLines(fs, incomplete, EMPTY, lines[1..])
             == ReadLines(fs, incomplete, Reading(inCaches, inCores, c.View()), lines[i..])
    {
      assert lines[i..][0] == lines[i] && lines[i..][1..] == lines[i + 1..];
      var ok;
      ok, inCaches, inCores := TakeLine(fs, incomplete, c, lines[i], inCaches, inCores);
      if !ok {
        return null;
      }
      i := i + 1;
    }
    return c;
  }

  lemma {:induction false} CacheLinesSnoc(caches: seq<Cache>, c: Cache)
    ensures CacheLines(caches + [c]) == CacheLines(caches) + [CacheLine(c)]
  {
    hide CacheLine;
    if caches == [] {
      assert (caches + [c])[1..] == [];
    } else {
      CacheLinesSnoc(caches[1..], c);
      assert (caches + [c])[1..] == caches[1..] + [c];
    }
  }

  lemma {:induction false} CoreLinesSnoc(cores: seq<Core>, c: Core)
    ensures CoreLines(cores + [c]) == CoreLines(cores) + [CoreLine(c)]
  {
    hide CoreLine;
    if cores == [] {
      assert (cores + [c])[1..] == [];
    } else {
      CoreLinesSnoc(cores[1..], c);
      assert (cores + [c])[1..] == cores[1..] + [c];
    }
  }

  lemma {:induction false} ConcatSnoc(lines: seq<string>, line: string)
    ensures Concat(lines + [line]) == Concat(lines) + line
  {
    ConcatAppend(lines, [line]);
    assert [line][1..] == [];
  }

  /** write: the text put into the file. */
  method WriteFile(config: CasConfig) returns (text: string)
    ensures text == Write(config.versionTag, config.View())
  {
    hide CacheLine, CoreLine;
    text := config.versionTag + "\n";
    text := text + GENERATED;
    text := text + "[caches]\n";
    ghost var head := text;
    var i := 0;
    while i < |config.caches|
      invariant i <= |config.caches| && text == head + Concat(CacheLines(config.caches[..i]))
    {
      var line := CacheToLine(config.caches[i]);
      CacheLinesSnoc(config.caches[..i], config.caches[i]);
      ConcatSnoc(CacheLines(config.caches[..i]), line);
      assert config.caches[..i] + [config.caches[i]] == config.caches[..i + 1];
      text := text + line;
      i := i + 1;
    }
    assert config.caches[..i] == config.caches;
    text := text + "\n[cores]\n";
    ghost var most := text;
    i := 0;
    while i < |config.cores|
      invariant i <= |config.cores| && text == most + Concat(CoreLines(config.cores[..i]))
    {
      var line := CoreToLine(config.cores[i]);
      CoreLinesSnoc(config.cores[..i], config.cores[i]);
      ConcatSnoc(CoreLines(config.cores[..i]), line);
      assert config.cores[..i] + [config.cores[i]] == config.cores[..i + 1];
      text := text + line;
      i := i + 1;
    }
    assert config.cores[..i] == config.cores;
  }

  /** One of the first i caches has the id. */
  predicate Among(caches: seq<Cache>, i: nat, id: int) {
    exists j :: 0 <= j < i && j < |caches| && caches[j].id == id
  }

  /** The cache itself: same id and same device. */
  predicate Same(fs: Fs, known: Cache, c: Cache) {
    known.id == c.id && fs.realpath(known.device) == fs.realpath(c.device)
  }

  /** Same id, or same device. */
  predicate Clashes(fs: Fs, known: Core, c: Core) {
    (known.cacheId == c.cacheId && known.id == c.id) || fs.realpath(known.device) == fs.realpath(c.device)
  }

  /** Same id and same device. */
  predicate Repeats(fs: Fs, known: Core, c: Core) {
    known.cacheId == c.cacheId && known.id == c.id && fs.realpath(known.device) == fs.realpath(c.device)
  }
}
