/**
 The configuration file opencas.conf: what a line says, what a configuration may hold, and what
 writing a configuration and reading it again gives.
 */
module Config {
  import opened Basics
  import opened PyText
  import opened PyPath

  /** What the system answers about paths while a configuration is read. */
  datatype Fs = Fs(
    cwd: string,
    isThere: string -> bool,
    isBlock: string -> bool,
    hasPartitions: string -> bool,
    isExported: string -> bool,
    realpath: string -> string)

  datatype Param = Param(name: string, value: string)
  datatype Cache = Cache(id: int, device: string, mode: string, params: seq<Param>)
  datatype Core = Core(cacheId: int, id: int, device: string, params: seq<Param>)

  /** Caches in the order they were put in, and cores in theirs; the cores of a cache are those with its id. */
  datatype Config = Config(caches: seq<Cache>, cores: seq<Core>)

  // ---------------------------------------------------------------- one line

  predicate Named(params: seq<Param>, name: string) {
    exists i :: 0 <= i < |params| && params[i].name == name
  }

  /** name=value pieces; a piece of another shape or a repeated name is an error. */
  function ParsePieces(pieces: seq<string>, acc: seq<Param>): Option<seq<Param>> {
    if pieces == [] then Some(acc)
    else
      var kv := SplitOn(pieces[0], '=');
      if |kv| != 2 || Named(acc, kv[0]) then None
      else ParsePieces(pieces[1..], acc + [Param(kv[0], kv[1])])
  }

  function ParseParams(s: string): Option<seq<Param>> {
    ParsePieces(SplitOn(Lower(s), ','), [])
  }

  function ParamsColumn(words: seq<string>): Option<seq<Param>> {
    if |words| > 3 then ParseParams(words[3]) else Some([])
  }

  /** cache_config.from_line up to its validation. */
  function CacheFromLine(line: string): Option<Cache> {
    var words := Words(line);
    if |words| < 3 || |words| > 4 then None
    else
      var id := PyInt(words[0]);
      var params := ParamsColumn(words);
      if id.None? || params.None? then None
      else Some(Cache(id.value, words[1], Lower(words[2]), params.value))
  }

  /** core_config.from_line up to its validation. */
  function CoreFromLine(line: string): Option<Core> {
    var words := Words(line);
    if |words| < 3 || |words| > 4 then None
    else
      var cacheId, id := PyInt(words[0]), PyInt(words[1]);
      var params := ParamsColumn(words);
      if cacheId.None? || id.None? || params.None? then None
      else Some(Core(cacheId.value, id.value, words[2], params.value))
  }

  function PieceOf(p: Param): string {
    p.name + "=" + p.value
  }

  function Pieces(params: seq<Param>): seq<string> {
    seq(|params|, i requires 0 <= i < |params| => PieceOf(params[i]))
  }

  function IntText(n: int): string {
    if n < 0 then "-" + Decimal(-n) else Decimal(n)
  }

  function ParamsText(params: seq<Param>): seq<string> {
    if params == [] then [] else [Join(Pieces(params), ',')]
  }

  function CacheLine(c: Cache): string {
    Join([IntText(c.id), c.device, c.mode] + ParamsText(c.params), '\t') + "\n"
  }

  function CoreLine(c: Core): string {
    Join([IntText(c.cacheId), IntText(c.id), c.device] + ParamsText(c.params), '\t') + "\n"
  }

  // ---------------------------------------------------------------- validation

  predicate StartsWith(s: string, prefix: string) {
    prefix <= s
  }

  function UpTo(s: string, sep: string): string {
    if s == "" || sep <= s then "" else [s[0]] + UpTo(s[1..], sep)
  }

  const CAS_PREFIX := "/dev/cas"

  /** check_recursive: a device named /dev/cas<n>-<m> is not of the cache itself. */
  predicate NotRecursive(device: string, cacheId: int) {
    StartsWith(device, CAS_PREFIX) ==>
      var ids := SplitOn(UpTo(device[|CAS_PREFIX|..], CAS_PREFIX), '-');
      |ids| == 2 && PyInt(ids[0]).Some? && PyInt(ids[0]).value != cacheId
  }

  predicate BlockOk(fs: Fs, device: string) {
    (!fs.isThere(device) && StartsWith(device, CAS_PREFIX)) || fs.isBlock(device)
  }

  predicate CacheParamOk(fs: Fs, p: Param) {
    match p.name
    case "ioclass_file" => fs.isThere(p.value)
    case "cleaning_policy" => p.value in ["acp", "alru", "nop"]
    case "promotion_policy" => p.value in ["always", "nhit"]
    case "cache_line_size" => p.value in ["4", "8", "16", "32", "64"]
    case "lazy_startup" => p.value in ["true", "false"]
    case "target_failover_state" => p.value in ["active", "standby"]
    case _ => false
  }

  predicate CoreParamOk(p: Param) {
    p.name == "lazy_startup" && p.value in ["true", "false"]
  }

  /** What validation asks about everything but the device. */
  predicate CacheFieldsOk(fs: Fs, c: Cache) {
    1 <= c.id <= 16384 && c.mode in ["wt", "pt", "wa", "wb", "wo"]
    && forall i :: 0 <= i < |c.params| ==> CacheParamOk(fs, c.params[i])
  }

  predicate CoreFieldsOk(c: Core) {
    0 <= c.id <= 4095 && 1 <= c.cacheId <= 16384
    && forall i :: 0 <= i < |c.params| ==> CoreParamOk(c.params[i])
  }

  /** What it asks about the device. */
  predicate CacheDeviceOk(fs: Fs, incomplete: bool, c: Cache) {
    NotRecursive(c.device, c.id) && (incomplete || (BlockOk(fs, c.device) && !fs.hasPartitions(c.device)))
  }

  predicate CoreDeviceOk(fs: Fs, incomplete: bool, c: Core) {
    NotRecursive(c.device, c.cacheId) && (incomplete || BlockOk(fs, c.device))
  }

  // ---------------------------------------------------------------- putting caches and cores in

  predicate HasCache(cfg: Config, id: int) {
    exists i :: 0 <= i < |cfg.caches| && cfg.caches[i].id == id
  }

  predicate HasCore(cfg: Config, cacheId: int, id: int) {
    exists i :: 0 <= i < |cfg.cores| && cfg.cores[i].cacheId == cacheId && cfg.cores[i].id == id
  }

  predicate UsedByCache(fs: Fs, cfg: Config, device: string) {
    exists i :: 0 <= i < |cfg.caches| && fs.realpath(cfg.caches[i].device) == fs.realpath(device)
  }

  predicate UsedByCore(fs: Fs, cfg: Config, device: string) {
    exists i :: 0 <= i < |cfg.cores| && fs.realpath(cfg.cores[i].device) == fs.realpath(device)
  }

  /** The device name kept: absolute where something is there, as given where nothing is. */
  function Settle(fs: Fs, device: string): string
    requires Absolute(fs.cwd)
  {
    var path := AbsPath(fs.cwd, device);
    if fs.isThere(path) || fs.isExported(path) then path else device
  }

  function AddCache(fs: Fs, cfg: Config, c: Cache): Option<Config>
    requires Absolute(fs.cwd)
  {
    if HasCache(cfg, c.id) || UsedByCache(fs, cfg, c.device) || UsedByCore(fs, cfg, c.device) then None
    else Some(cfg.(caches := cfg.caches + [c.(device := Settle(fs, c.device))]))
  }

  function AddCore(fs: Fs, cfg: Config, c: Core): Option<Config>
    requires Absolute(fs.cwd)
  {
    if !HasCache(cfg, c.cacheId) || HasCore(cfg, c.cacheId, c.id)
       || UsedByCache(fs, cfg, c.device) || UsedByCore(fs, cfg, c.device) then None
    else Some(cfg.(cores := cfg.cores + [c.(device := Settle(fs, c.device))]))
  }

  // ---------------------------------------------------------------- whole files

  datatype Reading = Reading(inCaches: bool, inCores: bool, cfg: Config)

  function ReadCache(fs: Fs, incomplete: bool, cfg: Config, line: string): Option<Config>
    requires Absolute(fs.cwd)
  {
    var c := CacheFromLine(line);
    if c.None? || !CacheFieldsOk(fs, c.value) || !CacheDeviceOk(fs, incomplete, c.value) then None
    else AddCache(fs, cfg, c.value)
  }

  function ReadCore(fs: Fs, incomplete: bool, cfg: Config, line: string): Option<Config>
    requires Absolute(fs.cwd)
  {
    var c := CoreFromLine(line);
    if c.None? || !CoreFieldsOk(c.value) || !CoreDeviceOk(fs, incomplete, c.value) then None
    else AddCore(fs, cfg, c.value)
  }

  function WithConfig(st: Reading, cfg: Option<Config>): Option<Reading> {
    if cfg.None? then None else Some(st.(cfg := cfg.value))
  }

  function ReadLine(fs: Fs, incomplete: bool, st: Reading, line: string): Option<Reading>
    requires Absolute(fs.cwd)
  {
    var s := Content(line);
    if s == "" then Some(st)
    else if s == "[caches]" then Some(st.(inCaches := true))
    else if s == "[cores]" then Some(st.(inCaches := false, inCores := true))
    else if st.inCaches then WithConfig(st, ReadCache(fs, incomplete, st.cfg, s))
    else if st.inCores then WithConfig(st, ReadCore(fs, incomplete, st.cfg, s))
    else Some(st)
  }

  function ReadLines(fs: Fs, incomplete: bool, st: Reading, lines: seq<string>): Option<Reading>
    requires Absolute(fs.cwd)
    decreases |lines|
  {
    if lines == [] then Some(st)
    else
      var next := ReadLine(fs, incomplete, st, lines[0]);
      if next.None? then None else ReadLines(fs, incomplete, next.value, lines[1..])
  }

  const VERSION_PREFIX := "version="
  const EMPTY := Reading(false, false, Config([], []))

  /** from_file: the version tag with its newline, and the configuration. */
  function FromFile(fs: Fs, incomplete: bool, text: string): Option<(string, Config)>
    requires Absolute(fs.cwd)
  {
    var lines := Lines(text);
    if lines == [] || !StartsWith(lines[0], VERSION_PREFIX) then None
    else
      var r := ReadLines(fs, incomplete, EMPTY, lines[1..]);
      if r.None? then None else Some((lines[0], r.value.cfg))
  }

  function CacheLines(caches: seq<Cache>): seq<string> {
    if caches == [] then [] else [CacheLine(caches[0])] + CacheLines(caches[1..])
  }

  function CoreLines(cores: seq<Core>): seq<string> {
    if cores == [] then [] else [CoreLine(cores[0])] + CoreLines(cores[1..])
  }

  const GENERATED := "# This config was automatically generated\n"

  /** write */
  function Write(version: string, cfg: Config): string {
    version + "\n" + GENERATED + "[caches]\n" + Concat(CacheLines(cfg.caches))
    + "\n[cores]\n" + Concat(CoreLines(cfg.cores))
  }

  // ---------------------------------------------------------------- parameters: read, written and read again

  ghost predicate PlainText(s: string) {
    NoSpace(s) && '#' !in s && ',' !in s && '=' !in s && Lower(s) == s
  }

  /** Parameters as reading yields them. */
  ghost predicate PlainParams(params: seq<Param>) {
    (forall i :: 0 <= i < |params| ==> PlainText(params[i].name) && PlainText(params[i].value))
    && (forall i, j :: 0 <= i < j < |params| ==> params[i].name != params[j].name)
  }

  lemma {:induction false} PieceParses(p: Param)
    requires PlainText(p.name) && PlainText(p.value)
    ensures SplitOn(PieceOf(p), '=') == [p.name, p.value]
  {
    SplitFirst(p.name, '=', p.value);
    SplitNothing(p.value, '=');
    assert p.name + ['='] + p.value == PieceOf(p);
  }

  lemma {:induction false} PiecesParse(params: seq<Param>, n: nat)
    requires PlainParams(params) && n <= |params|
    ensures ParsePieces(Pieces(params)[n..], params[..n]) == Some(params)
    decreases |params| - n
  {
    var rest := Pieces(params)[n..];
    if n < |params| {
      PieceParses(params[n]);
      assert rest[0] == PieceOf(params[n]) && rest[1..] == Pieces(params)[n + 1..];
      assert params[..n] + [params[n]] == params[..n + 1];
      assert Param(params[n].name, params[n].value) == params[n];
      PiecesParse(params, n + 1);
    } else {
      assert params[..n] == params;
    }
  }

  lemma {:induction false} LowerJoin(parts: seq<string>, c: char)
    requires LowerChar(c) == c && forall i :: 0 <= i < |parts| ==> Lower(parts[i]) == parts[i]
    ensures Lower(Join(parts, c)) == Join(parts, c)
  {
    if |parts| > 1 {
      LowerJoin(parts[1..], c);
      LowerFixed(parts[0]);
      LowerFixed(Join(parts[1..], c));
      FixedLower(Join(parts, c));
    }
  }

  lemma LowerFixed(s: string)
    requires Lower(s) == s
    ensures forall i :: 0 <= i < |s| ==> LowerChar(s[i]) == s[i]
  {
    forall i | 0 <= i < |s|
      ensures LowerChar(s[i]) == s[i]
    {
      assert Lower(s)[i] == LowerChar(s[i]);
    }
  }

  lemma FixedLower(s: string)
    requires forall i :: 0 <= i < |s| ==> LowerChar(s[i]) == s[i]
    ensures Lower(s) == s
  {
  }

  lemma {:induction false} PieceIsPlain(p: Param)
    requires PlainText(p.name) && PlainText(p.value)
    ensures Word(PieceOf(p)) && '#' !in PieceOf(p) && ',' !in PieceOf(p) && Lower(PieceOf(p)) == PieceOf(p)
  {
    LowerFixed(p.name);
    LowerFixed(p.value);
    FixedLower(PieceOf(p));
  }

  /** The parameter column comes back as it was. */
  lemma {:induction false} ParamsParse(params: seq<Param>)
    requires PlainParams(params) && params != []
    ensures ParseParams(Join(Pieces(params), ',')) == Some(params)
  {
    var pieces := Pieces(params);
    forall i | 0 <= i < |pieces|
      ensures ',' !in pieces[i] && Lower(pieces[i]) == pieces[i]
    {
      PieceIsPlain(params[i]);
    }
    LowerJoin(pieces, ',');
    SplitJoin(pieces, ',');
    PiecesParse(params, 0);
    assert pieces[0..] == pieces && params[..0] == [];
  }
}
