/**
 Multilevel caching: a core may sit on the exported device of another cache's core. The walk made before
 a core is added keeps every stack of devices from going through the same cache twice.
 */
module Stacking {
  import opened Basics

  /** What a device path turns out to be: gone, an ordinary disk, an unreadable /dev/cas name, or /dev/cas<cache>-<core>. */
  datatype Device = Missing | Plain | Unparsable | Exported(cacheId: nat, coreId: nat)

  /** lstat and link resolution of a path; the file system does not change under the configuration. */
  type Resolver = string -> Device

  /** The cores of each cache, by id, with the path each was given. */
  type Config = map<nat, map<nat, string>>

  predicate HasCore(cfg: Config, cacheId: nat, coreId: nat) {
    cacheId in cfg && coreId in cfg[cacheId]
  }

  function Below(cfg: Config, d: Device): string
    requires d.Exported? && HasCore(cfg, d.cacheId, d.coreId)
  {
    cfg[d.cacheId][d.coreId]
  }

  /** From `path` down, every exported device exists and the stack reaches an ordinary disk within n levels. */
  predicate Grounded(cfg: Config, resolve: Resolver, path: string, n: nat)
    decreases n
  {
    match resolve(path)
    case Plain => true
    case Exported(c, k) => n > 0 && HasCore(cfg, c, k) && Grounded(cfg, resolve, cfg[c][k], n - 1)
    case _ => false
  }

  /** The caches the stack below `path` goes through, top first. */
  function Caches(cfg: Config, resolve: Resolver, path: string, n: nat): (cs: seq<nat>)
    requires Grounded(cfg, resolve, path, n)
    ensures forall i :: 0 <= i < |cs| ==> cs[i] in cfg
    decreases n
  {
    match resolve(path)
    case Plain => []
    case Exported(c, k) => [c] + Caches(cfg, resolve, cfg[c][k], n - 1)
  }

  /** The stack under an existing core is grounded and, with its own cache, goes through no cache twice. */
  ghost predicate CoreSane(cfg: Config, resolve: Resolver, c: nat, k: nat)
    requires HasCore(cfg, c, k)
  {
    exists n: nat :: Grounded(cfg, resolve, cfg[c][k], n) && Distinct([c] + Caches(cfg, resolve, cfg[c][k], n))
  }

  ghost predicate Sane(cfg: Config, resolve: Resolver) {
    forall c, k :: HasCore(cfg, c, k) ==> CoreSane(cfg, resolve, c, k)
  }

  lemma {:induction false} GroundedDeeper(cfg: Config, resolve: Resolver, path: string, n: nat, m: nat)
    requires Grounded(cfg, resolve, path, n) && n <= m
    ensures Grounded(cfg, resolve, path, m) && Caches(cfg, resolve, path, m) == Caches(cfg, resolve, path, n)
    decreases n
  {
    if resolve(path).Exported? {
      GroundedDeeper(cfg, resolve, Below(cfg, resolve(path)), n - 1, m - 1);
    }
  }

  /** The walk of illegal_recursive_core accepts: the stack is grounded and does not go through the cache. */
  ghost predicate Accepts(cfg: Config, resolve: Resolver, cacheId: nat, path: string) {
    exists n: nat :: Grounded(cfg, resolve, path, n) && cacheId !in Caches(cfg, resolve, path, n)
  }

  /** A core as get_cache_device lists it. */
  datatype Core = Core(id: nat, path: string)

  /** The listing of each cache, where it could be had. */
  type Listing = map<nat, seq<Core>>

  predicate Listed(cores: seq<Core>, coreId: nat) {
    exists i :: 0 <= i < |cores| && cores[i].id == coreId
  }

  /** Listings show only cores that exist, with their paths. */
  ghost predicate Truthful(listing: Listing, cfg: Config) {
    forall c | c in listing ::
      forall i | 0 <= i < |listing[c]| :: HasCore(cfg, c, listing[c][i].id) && cfg[c][listing[c][i].id] == listing[c][i].path
  }

  /** Every lookup succeeds. */
  ghost predicate Complete(listing: Listing, cfg: Config) {
    forall c, k :: HasCore(cfg, c, k) ==> c in listing && Listed(listing[c], k)
  }

  /** Every exported device of the stack below `path` is listed. */
  predicate Seen(cfg: Config, listing: Listing, resolve: Resolver, path: string, n: nat)
    requires Grounded(cfg, resolve, path, n)
    decreases n
  {
    match resolve(path)
    case Plain => true
    case Exported(c, k) => c in listing && Listed(listing[c], k) && Seen(cfg, listing, resolve, cfg[c][k], n - 1)
  }

  /** What the walk lets through, given what it can look up. */
  ghost predicate Passes(cfg: Config, listing: Listing, resolve: Resolver, cacheId: nat, path: string) {
    exists n: nat ::
      Grounded(cfg, resolve, path, n) && cacheId !in Caches(cfg, resolve, path, n) && Seen(cfg, listing, resolve, path, n)
  }

  lemma {:induction false} SeenDeeper(cfg: Config, listing: Listing, resolve: Resolver, path: string, n: nat, m: nat)
    requires Grounded(cfg, resolve, path, n) && n <= m
    ensures Grounded(cfg, resolve, path, m) && Seen(cfg, listing, resolve, path, m) == Seen(cfg, listing, resolve, path, n)
    decreases n
  {
    if resolve(path).Exported? {
      SeenDeeper(cfg, listing, resolve, Below(cfg, resolve(path)), n - 1, m - 1);
    }
  }

  lemma {:induction false} PassesOnce(cfg: Config, listing: Listing, resolve: Resolver, cacheId: nat, path: string, n: nat)
    requires Grounded(cfg, resolve, path, n)
    ensures Passes(cfg, listing, resolve, cacheId, path) <==>
      cacheId !in Caches(cfg, resolve, path, n) && Seen(cfg, listing, resolve, path, n)
  {
    if Passes(cfg, listing, resolve, cacheId, path) {
      var m: nat :| Grounded(cfg, resolve, path, m) && cacheId !in Caches(cfg, resolve, path, m)
                    && Seen(cfg, listing, resolve, path, m);
      var lo, hi := if n <= m then n else m, if n <= m then m else n;
      GroundedDeeper(cfg, resolve, path, lo, hi);
      SeenDeeper(cfg, listing, resolve, path, lo, hi);
    }
  }

  lemma {:induction false} CompleteSeesAll(cfg: Config, listing: Listing, resolve: Resolver, path: string, n: nat)
    requires Grounded(cfg, resolve, path, n) && Complete(listing, cfg)
    ensures Seen(cfg, listing, resolve, path, n)
    decreases n
  {
    if resolve(path).Exported? {
      CompleteSeesAll(cfg, listing, resolve, Below(cfg, resolve(path)), n - 1);
    }
  }

  /** What passes is acceptable, and with complete lookups nothing else is. */
  lemma {:induction false} PassesIsAccepted(cfg: Config, listing: Listing, resolve: Resolver, cacheId: nat, path: string)
    ensures Passes(cfg, listing, resolve, cacheId, path) ==> Accepts(cfg, resolve, cacheId, path)
    ensures Complete(listing, cfg) && Accepts(cfg, resolve, cacheId, path) ==> Passes(cfg, listing, resolve, cacheId, path)
  {
    if Complete(listing, cfg) && Accepts(cfg, resolve, cacheId, path) {
      var n: nat :| Grounded(cfg, resolve, path, n) && cacheId !in Caches(cfg, resolve, path, n);
      CompleteSeesAll(cfg, listing, resolve, path, n);
    }
  }

  method LookupCore(cores: seq<Core>, coreId: nat) returns (i: nat)
    ensures i <= |cores| && (i == |cores| <==> !Listed(cores, coreId))
    ensures i < |cores| ==> cores[i].id == coreId
  {
    i := 0;
    while i != |cores|
      invariant i <= |cores| && forall j :: 0 <= j < i ==> cores[j].id != coreId
    {
      if cores[i].id == coreId {
        return;
      }
      i := i + 1;
    }
  }

  /**
   illegal_recursive_core. On a sane configuration the walk ends within one round per cache and one more.
   It lets through exactly what is grounded, avoids the cache and can be looked up all the way down; when every
   lookup succeeds, that is all that is grounded and avoids the cache.
   */
  method IllegalRecursiveCore(cfg: Config, listing: Listing, resolve: Resolver, cacheId: nat, coreDevice: string)
    returns (illegal: bool, ghost rounds: nat)
    requires Sane(cfg, resolve) && Truthful(listing, cfg)
    ensures illegal <==> !Passes(cfg, listing, resolve, cacheId, coreDevice)
    ensures !illegal ==> Accepts(cfg, resolve, cacheId, coreDevice)
    ensures Complete(listing, cfg) ==> (illegal <==> !Accepts(cfg, resolve, cacheId, coreDevice))
    ensures rounds <= |cfg| + 1
  {
    PassesIsAccepted(cfg, listing, resolve, cacheId, coreDevice);
    hide Sane, Truthful, Accepts, Complete, Passes;
    var device := coreDevice;
    ghost var first := true;
    ghost var n: nat := 0;
    rounds := 0;
    while true
      invariant Passes(cfg, listing, resolve, cacheId, coreDevice) == Passes(cfg, listing, resolve, cacheId, device)
      invariant !first ==> Grounded(cfg, resolve, device, n) && rounds + |Caches(cfg, resolve, device, n)| <= |cfg|
      invariant first ==> rounds == 0
      decreases first, n
    {
      rounds := rounds + 1;
      var d := resolve(device);
      if !d.Exported? {
        EndOfWalk(cfg, listing, resolve, cacheId, device);
        return !d.Plain?, rounds;
      }
      if d.cacheId == cacheId {
        OwnCacheRejected(cfg, listing, resolve, cacheId, device);
        return true, rounds;
      }
      if d.cacheId !in listing {
        LookupFailed(cfg, listing, resolve, cacheId, device);
        return true, rounds;
      }
      var i := LookupCore(listing[d.cacheId], d.coreId);
      if i == |listing[d.cacheId]| {
        LookupFailed(cfg, listing, resolve, cacheId, device);
        return true, rounds;
      }
      TruthfulAt(cfg, listing, d.cacheId, i);
      if first {
        n := FirstLevel(cfg, resolve, d.cacheId, d.coreId);
      } else {
        n := n - 1;
      }
      PassesBelow(cfg, listing, resolve, cacheId, device, n);
      device := listing[d.cacheId][i].path;
      first := false;
    }
  }

  lemma TruthfulAt(cfg: Config, listing: Listing, c: nat, i: nat)
    requires Truthful(listing, cfg) && c in listing && i < |listing[c]|
    ensures HasCore(cfg, c, listing[c][i].id) && cfg[c][listing[c][i].id] == listing[c][i].path
  {
  }

  lemma {:induction false} EndOfWalk(cfg: Config, listing: Listing, resolve: Resolver, cacheId: nat, path: string)
    requires !resolve(path).Exported?
    ensures Passes(cfg, listing, resolve, cacheId, path) <==> resolve(path).Plain?
  {
    if resolve(path).Plain? {
      PassesOnce(cfg, listing, resolve, cacheId, path, 0);
    }
  }

  lemma {:induction false} LookupFailed(cfg: Config, listing: Listing, resolve: Resolver, cacheId: nat, path: string)
    requires resolve(path).Exported?
    requires resolve(path).cacheId !in listing || !Listed(listing[resolve(path).cacheId], resolve(path).coreId)
    ensures !Passes(cfg, listing, resolve, cacheId, path)
  {
  }

  lemma {:induction false} FirstLevel(cfg: Config, resolve: Resolver, c: nat, k: nat) returns (n: nat)
    requires Sane(cfg, resolve) && HasCore(cfg, c, k)
    ensures Grounded(cfg, resolve, cfg[c][k], n) && 1 + |Caches(cfg, resolve, cfg[c][k], n)| <= |cfg|
  {
    assert CoreSane(cfg, resolve, c, k);
    n :| Grounded(cfg, resolve, cfg[c][k], n) && Distinct([c] + Caches(cfg, resolve, cfg[c][k], n));
    var cs := [c] + Caches(cfg, resolve, cfg[c][k], n);
    DistinctFit(cs, cfg.Keys);
    assert |cfg.Keys| == |cfg|;
  }

  lemma {:induction false} OwnCacheRejected(cfg: Config, listing: Listing, resolve: Resolver, cacheId: nat, path: string)
    requires resolve(path).Exported? && resolve(path).cacheId == cacheId
    ensures !Passes(cfg, listing, resolve, cacheId, path)
  {
  }

  lemma {:induction false} PassesBelow(cfg: Config, listing: Listing, resolve: Resolver, cacheId: nat, path: string, n: nat)
    requires resolve(path).Exported? && HasCore(cfg, resolve(path).cacheId, resolve(path).coreId)
    requires resolve(path).cacheId in listing && Listed(listing[resolve(path).cacheId], resolve(path).coreId)
    requires resolve(path).cacheId != cacheId && Grounded(cfg, resolve, Below(cfg, resolve(path)), n)
    ensures Passes(cfg, listing, resolve, cacheId, path) <==> Passes(cfg, listing, resolve, cacheId, Below(cfg, resolve(path)))
  {
    PassesOnce(cfg, listing, resolve, cacheId, Below(cfg, resolve(path)), n);
    PassesOnce(cfg, listing, resolve, cacheId, path, n + 1);
  }

  // ---------------------------------------------------------------- configuration changes

  datatype Change =
    | StartCache(cacheId: nat)
    | StopCache(cacheId: nat)
    | AddCore(cacheId: nat, coreId: nat, path: string)
    | RemoveCore(cacheId: nat, coreId: nat)

  /** No core sits on the exported device of this one. */
  predicate Free(cfg: Config, resolve: Resolver, cacheId: nat, coreId: nat) {
    forall c | c in cfg :: forall k | k in cfg[c] :: resolve(cfg[c][k]) != Exported(cacheId, coreId)
  }

  /** Cores are only added through the walk, and only removed when nothing is stacked on them. */
  ghost predicate Allowed(cfg: Config, resolve: Resolver, ch: Change) {
    match ch
    case StartCache(c) => c !in cfg
    case StopCache(c) => c in cfg && cfg[c] == map[]
    case AddCore(c, k, path) => c in cfg && k !in cfg[c] && Accepts(cfg, resolve, c, path)
    case RemoveCore(c, k) => HasCore(cfg, c, k) && Free(cfg, resolve, c, k)
  }

  function WithCore(cores: map<nat, string>, coreId: nat, path: string): map<nat, string> {
    cores[coreId := path]
  }

  function Changed(cfg: Config, ch: Change): Config
    requires ch.AddCore? || ch.RemoveCore? ==> ch.cacheId in cfg
  {
    match ch
    case StartCache(c) => cfg[c := map[]]
    case StopCache(c) => cfg - {c}
    case AddCore(c, k, path) => cfg[c := WithCore(cfg[c], k, path)]
    case RemoveCore(c, k) => cfg[c := cfg[c] - {k}]
  }

  /** A stack that avoids what changed is the same stack afterwards. */
  lemma {:induction false} StackKept(cfg: Config, cfg': Config, resolve: Resolver, path: string, n: nat)
    requires Grounded(cfg, resolve, path, n)
    requires forall c, k :: HasCore(cfg, c, k) && OnStack(cfg, resolve, path, n, c, k) ==> HasCore(cfg', c, k) && cfg'[c][k] == cfg[c][k]
    ensures Grounded(cfg', resolve, path, n) && Caches(cfg', resolve, path, n) == Caches(cfg, resolve, path, n)
    decreases n
  {
    if resolve(path).Exported? {
      var d := resolve(path);
      assert OnStack(cfg, resolve, path, n, d.cacheId, d.coreId);
      StackKept(cfg, cfg', resolve, Below(cfg, d), n - 1);
    }
  }

  /** The exported device of this core is part of the stack below `path`. */
  predicate OnStack(cfg: Config, resolve: Resolver, path: string, n: nat, c: nat, k: nat)
    requires Grounded(cfg, resolve, path, n)
    decreases n
  {
    match resolve(path)
    case Plain => false
    case Exported(c', k') => (c' == c && k' == k) || OnStack(cfg, resolve, cfg[c'][k'], n - 1, c, k)
  }

  /** A core nothing sits on is on no stack but those that start at it. */
  lemma {:induction false} FreeIsOnNoStack(cfg: Config, resolve: Resolver, path: string, n: nat, c: nat, k: nat)
    requires Grounded(cfg, resolve, path, n) && Free(cfg, resolve, c, k) && resolve(path) != Exported(c, k)
    ensures !OnStack(cfg, resolve, path, n, c, k)
    decreases n
  {
    if resolve(path).Exported? {
      var d := resolve(path);
      assert resolve(cfg[d.cacheId][d.coreId]) != Exported(c, k);
      FreeIsOnNoStack(cfg, resolve, Below(cfg, d), n - 1, c, k);
    }
  }

  lemma {:induction false} OldCoreStaysSane(cfg: Config, resolve: Resolver, ch: Change, c: nat, k: nat)
    requires Allowed(cfg, resolve, ch) && HasCore(cfg, c, k) && CoreSane(cfg, resolve, c, k) && HasCore(Changed(cfg, ch), c, k)
    ensures CoreSane(Changed(cfg, ch), resolve, c, k)
  {
    hide Accepts, Distinct;
    var cfg' := Changed(cfg, ch);
    var n: nat :| Grounded(cfg, resolve, cfg[c][k], n) && Distinct([c] + Caches(cfg, resolve, cfg[c][k], n));
    if ch.RemoveCore? {
      FreeIsOnNoStack(cfg, resolve, cfg[c][k], n, ch.cacheId, ch.coreId);
    }
    StackKept(cfg, cfg', resolve, cfg[c][k], n);
  }

  lemma {:induction false} NewCoreIsSane(cfg: Config, resolve: Resolver, ch: Change)
    requires Sane(cfg, resolve) && ch.AddCore? && Allowed(cfg, resolve, ch)
    ensures CoreSane(Changed(cfg, ch), resolve, ch.cacheId, ch.coreId)
  {
    var n: nat :| Grounded(cfg, resolve, ch.path, n) && ch.cacheId !in Caches(cfg, resolve, ch.path, n);
    CachesDistinct(cfg, resolve, ch.path, n);
    hide Sane;
    var cfg' := Changed(cfg, ch);
    StackKept(cfg, cfg', resolve, ch.path, n);
    assert cfg'[ch.cacheId][ch.coreId] == ch.path;
    assert Distinct([ch.cacheId] + Caches(cfg', resolve, ch.path, n));
  }

  lemma {:induction false} ChangeKeepsSane(cfg: Config, resolve: Resolver, ch: Change)
    requires Sane(cfg, resolve) && Allowed(cfg, resolve, ch)
    ensures Sane(Changed(cfg, ch), resolve)
  {
    hide CoreSane, Accepts, Free;
    forall c, k | HasCore(Changed(cfg, ch), c, k)
      ensures CoreSane(Changed(cfg, ch), resolve, c, k)
    {
      if HasCore(cfg, c, k) {
        OldCoreStaysSane(cfg, resolve, ch, c, k);
      } else {
        NewCoreIsSane(cfg, resolve, ch);
      }
    }
  }

  /** Below any path of a sane configuration no cache occurs twice. */
  lemma {:induction false} CachesDistinct(cfg: Config, resolve: Resolver, path: string, n: nat)
    requires Sane(cfg, resolve) && Grounded(cfg, resolve, path, n)
    ensures Distinct(Caches(cfg, resolve, path, n))
  {
    if resolve(path).Exported? {
      var d := resolve(path);
      assert CoreSane(cfg, resolve, d.cacheId, d.coreId);
      var m: nat :| Grounded(cfg, resolve, cfg[d.cacheId][d.coreId], m)
                    && Distinct([d.cacheId] + Caches(cfg, resolve, cfg[d.cacheId][d.coreId], m));
      if m <= n - 1 {
        GroundedDeeper(cfg, resolve, Below(cfg, d), m, n - 1);
      } else {
        GroundedDeeper(cfg, resolve, Below(cfg, d), n - 1, m);
      }
    }
  }

  /** add_core: the walk decides, then the driver inserts, which it may refuse for reasons of its own. */
  method AdmitCore(cfg: Config, listing: Listing, resolve: Resolver, cacheId: nat, coreId: nat, path: string, inserts: bool)
    returns (ok: bool, now: Config)
    requires Sane(cfg, resolve) && Truthful(listing, cfg)
    ensures Sane(now, resolve)
    ensures ok ==> Allowed(cfg, resolve, Change.AddCore(cacheId, coreId, path)) && now == Changed(cfg, Change.AddCore(cacheId, coreId, path))
    ensures !ok ==> now == cfg
    ensures ok <==> cacheId in cfg && coreId !in cfg[cacheId] && Passes(cfg, listing, resolve, cacheId, path) && inserts
    ensures Complete(listing, cfg) ==> (ok <==> Allowed(cfg, resolve, Change.AddCore(cacheId, coreId, path)) && inserts)
  {
    hide Sane, Truthful, Accepts, Complete, Passes;
    var illegal, rounds := IllegalRecursiveCore(cfg, listing, resolve, cacheId, path);
    if illegal || cacheId !in cfg || coreId in cfg[cacheId] || !inserts {
      return false, cfg;
    }
    ok, now := true, cfg[cacheId := WithCore(cfg[cacheId], coreId, path)];
    ChangeKeepsSane(cfg, resolve, Change.AddCore(cacheId, coreId, path));
  }

  // ---------------------------------------------------------------- whole runs

  ghost predicate Legal(cfg: Config, resolve: Resolver, run: seq<Change>)
    decreases |run|
  {
    run == [] || (Allowed(cfg, resolve, run[0]) && Legal(Changed(cfg, run[0]), resolve, run[1..]))
  }

  ghost function After(cfg: Config, resolve: Resolver, run: seq<Change>): Config
    requires Legal(cfg, resolve, run)
    decreases |run|
  {
    if run == [] then cfg else After(Changed(cfg, run[0]), resolve, run[1..])
  }

  lemma {:induction false} RunKeepsSane(cfg: Config, resolve: Resolver, run: seq<Change>)
    requires Sane(cfg, resolve) && Legal(cfg, resolve, run)
    ensures Sane(After(cfg, resolve, run), resolve)
    decreases |run|
  {
    if run != [] {
      ChangeKeepsSane(cfg, resolve, run[0]);
      RunKeepsSane(Changed(cfg, run[0]), resolve, run[1..]);
    }
  }

  /**
   Whatever was started, stopped, added and removed: from any exported device down, the stack reaches an
   ordinary disk, no cache occurs twice on it, and it is no deeper than the number of caches.
   */
  lemma {:induction false} EachCacheAtMostOnce(resolve: Resolver, run: seq<Change>, c: nat, k: nat) returns (n: nat)
    requires Legal(map[], resolve, run) && HasCore(After(map[], resolve, run), c, k)
    ensures var cfg := After(map[], resolve, run);
      Grounded(cfg, resolve, cfg[c][k], n)
      && Distinct([c] + Caches(cfg, resolve, cfg[c][k], n))
      && |[c] + Caches(cfg, resolve, cfg[c][k], n)| <= |cfg|
  {
    RunKeepsSane(map[], resolve, run);
    var cfg := After(map[], resolve, run);
    assert CoreSane(cfg, resolve, c, k);
    n :| Grounded(cfg, resolve, cfg[c][k], n) && Distinct([c] + Caches(cfg, resolve, cfg[c][k], n));
    DistinctFit([c] + Caches(cfg, resolve, cfg[c][k], n), cfg.Keys);
    assert |cfg.Keys| == |cfg|;
  }

  /**
   The rule on removal is needed. Cache 2 sits on core 1-1 and holds core 2-2 beside it; take 1-1 away from
   under it, and a new 1-1 on top of 2-2 passes the walk although device 2-1 then goes through cache 2 twice.
   */
  lemma {:induction false} RemovalRuleIsNeeded(resolve: Resolver)
    requires resolve("/dev/sda") == Plain && resolve("/dev/sdb") == Plain
    requires resolve("/dev/cas1-1") == Exported(1, 1) && resolve("/dev/cas2-2") == Exported(2, 2)
    ensures Sane(BeforeRemoval(), resolve)
    ensures var gone := Changed(BeforeRemoval(), RemoveCore(1, 1));
      !Allowed(BeforeRemoval(), resolve, RemoveCore(1, 1))
      && Allowed(gone, resolve, AddCore(1, 1, "/dev/cas2-2"))
      && var again := Changed(gone, AddCore(1, 1, "/dev/cas2-2"));
         Grounded(again, resolve, again[2][1], 2) && !Distinct([2] + Caches(again, resolve, again[2][1], 2))
  {
    var cfg := BeforeRemoval();
    assert Grounded(cfg, resolve, cfg[1][1], 0) && Distinct([1] + Caches(cfg, resolve, cfg[1][1], 0));
    assert Grounded(cfg, resolve, cfg[2][2], 0) && Distinct([2] + Caches(cfg, resolve, cfg[2][2], 0));
    assert Grounded(cfg, resolve, cfg[2][1], 1) && Caches(cfg, resolve, cfg[2][1], 1) == [1];
    assert Sane(cfg, resolve) by {
      forall c, k | HasCore(cfg, c, k)
        ensures CoreSane(cfg, resolve, c, k)
      {
        assert (c == 1 && k == 1) || (c == 2 && k == 1) || (c == 2 && k == 2);
      }
    }
    AfterRemoval(resolve, Changed(cfg, RemoveCore(1, 1)));
  }

  lemma {:induction false} AfterRemoval(resolve: Resolver, gone: Config)
    requires resolve("/dev/sdb") == Plain
    requires resolve("/dev/cas1-1") == Exported(1, 1) && resolve("/dev/cas2-2") == Exported(2, 2)
    requires gone == map[1 := map[], 2 := map[1 := "/dev/cas1-1", 2 := "/dev/sdb"]]
    ensures Allowed(gone, resolve, AddCore(1, 1, "/dev/cas2-2"))
    ensures var again := Changed(gone, AddCore(1, 1, "/dev/cas2-2"));
      Grounded(again, resolve, again[2][1], 2) && !Distinct([2] + Caches(again, resolve, again[2][1], 2))
  {
    hide Sane, CoreSane;
    assert Caches(gone, resolve, "/dev/cas2-2", 1) == [2] + Caches(gone, resolve, "/dev/sdb", 0);
    var again := Changed(gone, AddCore(1, 1, "/dev/cas2-2"));
    assert again[2][1] == "/dev/cas1-1" && again[1][1] == "/dev/cas2-2" && again[2][2] == "/dev/sdb";
    assert Grounded(again, resolve, "/dev/cas2-2", 1);
    var cs := [2] + Caches(again, resolve, "/dev/cas1-1", 2);
    assert cs[0] == 2 && cs[2] == 2;
  }

  function BeforeRemoval(): Config {
    map[1 := map[1 := "/dev/sda"], 2 := map[1 := "/dev/cas1-1", 2 := "/dev/sdb"]]
  }
}
