/**
 * The package loader `technisync/config.py`: a parsed YAML document gives
 * the base settings, and the process environment overrides them. Servers
 * from the YAML come first; each numbered environment server either
 * overwrites the URL and key of the YAML server with its name or is
 * appended.
 */
module Config {
  import opened Wrappers
  import opened Strings
  import opened Models
  import opened Environment

  // ---------------------------------------------------------------------
  // The parsed YAML document

  /** A YAML scalar as `yaml.safe_load` returns it. */
  datatype Scalar = BoolValue(b: bool) | IntValue(i: int) | StrValue(s: string) | NullValue

  /** A `servers:` entry; `server['name']` and friends raise KeyError when a key is missing. */
  type ServerEntry = map<string, string>

  /** The keys `Config` looks up in the document, each absent or present. */
  datatype Document = Document(
    servers: Option<seq<ServerEntry>>,
    syncInterval: Option<Scalar>,
    logLevel: Option<string>,
    syncReverseZones: Option<Scalar>,
    zonesToSync: Option<seq<string>>)

  /** What a missing or empty config file loads as (`yaml.safe_load(f) or {}`). */
  const EmptyDocument: Document := Document(None, None, None, None, None)

  /** Python's `str(v)`. */
  function PyStr(v: Scalar): (s: string)
    ensures v.StrValue? ==> s == v.s
    ensures v.BoolValue? ==> s == (if v.b then "True" else "False")
  {
    match v
    case BoolValue(b) => if b then "True" else "False"
    case IntValue(i) => IntToString(i)
    case StrValue(s) => s
    case NullValue => "None"
  }

  /** Python's `int(v)`; None where it raises (a malformed string, `None`). */
  function PyInt(v: Scalar): (r: Option<int>)
    ensures v.IntValue? ==> r == Some(v.i)
    ensures v.NullValue? ==> r.None?
  {
    match v
    case BoolValue(b) => Some(if b then 1 else 0)
    case IntValue(i) => Some(i)
    case StrValue(s) => ParseInt(s)
    case NullValue => None
  }

  // ---------------------------------------------------------------------
  // Servers

  /** `next((s for s in servers if s.name == name), None)`: the position of the first server with that name. */
  function IndexOfName(servers: seq<Server>, name: string): (r: Option<nat>)
    ensures r.Some? ==> r.value < |servers| && servers[r.value].name == name
    ensures r.Some? ==> forall k :: 0 <= k < r.value ==> servers[k].name != name
    ensures r.None? ==> forall k :: 0 <= k < |servers| ==> servers[k].name != name
    decreases |servers|
  {
    if servers == [] then None
    else if servers[0].name == name then Some(0)
    else
      match IndexOfName(servers[1..], name)
      case None => None
      case Some(k) => Some(k + 1)
  }

  /** One step of the environment scan: overwrite the first server of that name, or append. */
  function Upsert(servers: seq<Server>, s: Server): seq<Server> {
    match IndexOfName(servers, s.name)
    case Some(k) => servers[k := servers[k].(url := s.url, apiKey := s.apiKey)]
    case None => servers + [s]
  }

  /** The environment servers applied one after another, the last one last. */
  function UpsertAll(servers: seq<Server>, ss: seq<Server>): seq<Server>
    decreases |ss|
  {
    if ss == [] then servers
    else Upsert(UpsertAll(servers, ss[..|ss| - 1]), ss[|ss| - 1])
  }

  /** The YAML `servers:` list as `Server` objects, failing at the first entry that lacks a key. */
  function ParseServers(entries: seq<ServerEntry>): (r: Result<seq<Server>>)
    ensures r.Success? ==> |r.value| == |entries|
    ensures r.Success? ==> forall k :: 0 <= k < |entries| ==>
      "name" in entries[k] && "url" in entries[k] && "api_key" in entries[k] &&
      r.value[k] == Server(entries[k]["name"], entries[k]["url"], entries[k]["api_key"])
    ensures r.Failure? <==> exists k :: 0 <= k < |entries| && !EntryComplete(entries[k])
    decreases |entries|
  {
    if entries == [] then Success([])
    else
      var last := entries[|entries| - 1];
      match ParseServers(entries[..|entries| - 1])
      case Failure(e) => Failure(e)
      case Success(servers) =>
        if "name" !in last then Failure("KeyError: 'name'")
        else if "url" !in last then Failure("KeyError: 'url'")
        else if "api_key" !in last then Failure("KeyError: 'api_key'")
        else
          assert forall k :: 0 <= k < |entries| - 1 ==> entries[..|entries| - 1][k] == entries[k];
          Success(servers + [Server(last["name"], last["url"], last["api_key"])])
  }

  /** Once a prefix of the entries fails, the whole list fails with the same error. */
  lemma {:induction false} ParseFailureExtends(entries: seq<ServerEntry>, n: nat)
    requires n <= |entries|
    requires ParseServers(entries[..n]).Failure?
    ensures ParseServers(entries) == ParseServers(entries[..n])
    decreases |entries|
  {
    if n < |entries| {
      var init := entries[..|entries| - 1];
      assert init[..n] == entries[..n];
      ParseFailureExtends(init, n);
    } else {
      assert entries[..n] == entries;
    }
  }

  predicate EntryComplete(entry: ServerEntry) {
    "name" in entry && "url" in entry && "api_key" in entry
  }

  /** `_get_servers` as a value: the YAML servers, then the environment scan merged in. */
  function MergedServers(doc: Document, env: Env): Result<seq<Server>> {
    match ParseServers(doc.servers.GetOr([]))
    case Failure(e) => Failure(e)
    case Success(base) => Success(UpsertAll(base, EnvServers(env, 1)))
  }

  /** The `for server in yaml_servers` loop of `Config._get_servers`. */
  method ReadServerEntries(entries: seq<ServerEntry>) returns (r: Result<seq<Server>>)
    ensures r == ParseServers(entries)
  {
    var servers: seq<Server> := [];
    for k := 0 to |entries|
      invariant ParseServers(entries[..k]) == Success(servers)
    {
      var entry := entries[k];
      assert entries[..k + 1][..k] == entries[..k];
      if !EntryComplete(entry) {
        ParseFailureExtends(entries, k + 1);
      }
      if "name" !in entry {
        return Failure("KeyError: 'name'");
      }
      if "url" !in entry {
        return Failure("KeyError: 'url'");
      }
      if "api_key" !in entry {
        return Failure("KeyError: 'api_key'");
      }
      servers := servers + [Server(entry["name"], entry["url"], entry["api_key"])];
    }
    assert entries[..|entries|] == entries;
    r := Success(servers);
  }

  /** The `while True` loop of `Config._get_servers`: merge `server1`, `server2`, ... into the list. */
  method MergeEnvServers(base: seq<Server>, env: Env) returns (servers: seq<Server>)
    ensures servers == UpsertAll(base, EnvServers(env, 1))
  {
    servers := base;
    var done: seq<Server> := [];
    var i := 1;
    while true
      invariant 1 <= i
      invariant done + EnvServers(env, i) == EnvServers(env, 1)
      invariant servers == UpsertAll(base, done)
      decreases |env.Keys - UrlVarsBelow(i)|
    {
      var next := NextServer(env, i);
      if next.None? {
        ScanEnds(done, EnvServers(env, i), EnvServers(env, 1));
        break;
      }
      var s := next.value;
      servers := MergeServer(base, done, servers, s);
      done := ScanAppend(done, s, EnvServers(env, i + 1));
      i := i + 1;
    }
  }

  /** One environment server: overwrite the URL and key of the first server of that name, or append it. */
  method MergeServer(base: seq<Server>, ghost done: seq<Server>, servers: seq<Server>, s: Server) returns (r: seq<Server>)
    requires servers == UpsertAll(base, done)
    ensures r == UpsertAll(base, done + [s])
  {
    UpsertAllStep(base, done, s);
    var existing := IndexOfName(servers, s.name);
    if existing.Some? {
      var k := existing.value;
      r := servers[k := servers[k].(url := s.url, apiKey := s.apiKey)];
    } else {
      r := servers + [s];
    }
  }

  /** Upserting one more server extends the fold by that server. */
  lemma UpsertAllStep(base: seq<Server>, done: seq<Server>, s: Server)
    ensures UpsertAll(base, done + [s]) == Upsert(UpsertAll(base, done), s)
  {
    assert (done + [s])[..|done + [s]| - 1] == done;
  }

  /** `Config._get_servers`. */
  method GetServers(doc: Document, env: Env) returns (r: Result<seq<Server>>)
    ensures r == MergedServers(doc, env)
  {
    r := ReadServerEntries(doc.servers.GetOr([]));
    if r.Success? {
      var servers := MergeEnvServers(r.value, env);
      r := Success(servers);
    }
  }

  predicate DistinctNames(servers: seq<Server>) {
    forall k, l :: 0 <= k < l < |servers| ==> servers[k].name != servers[l].name
  }

  /** An upsert overwrites in place (same length, same names) or appends exactly one server at the end. */
  lemma UpsertShape(servers: seq<Server>, s: Server)
    ensures var r := Upsert(servers, s);
      && (IndexOfName(servers, s.name).Some? ==> |r| == |servers|)
      && (IndexOfName(servers, s.name).None? ==> r == servers + [s])
      && (forall k :: 0 <= k < |servers| ==> r[k].name == servers[k].name)
  {
  }

  /** After the upsert, the first server of that name carries exactly the new URL and key. */
  lemma UpsertFound(servers: seq<Server>, s: Server)
    ensures var r := Upsert(servers, s);
      IndexOfName(r, s.name).Some? && r[IndexOfName(r, s.name).value] == s
  {
    var r := Upsert(servers, s);
    match IndexOfName(servers, s.name)
    case Some(k) =>
      IndexSameNames(servers, r, s.name);
    case None =>
      assert forall k :: 0 <= k < |servers| ==> r[k].name != s.name;
      IndexAfterAppend(servers, s);
  }

  /** An upsert of another name leaves the first server of this name where it was and as it was. */
  lemma UpsertOther(servers: seq<Server>, s: Server, name: string)
    requires s.name != name
    ensures var r := Upsert(servers, s);
      && IndexOfName(r, name) == IndexOfName(servers, name)
      && (IndexOfName(servers, name).Some? ==> r[IndexOfName(servers, name).value] == servers[IndexOfName(servers, name).value])
  {
    var r := Upsert(servers, s);
    match IndexOfName(servers, s.name)
    case Some(k) =>
      IndexSameNames(servers, r, name);
    case None =>
      IndexAfterAppend(servers, s);
      IndexOfPrefix(servers, r, name);
  }

  /** Two lists with the same names position by position have the same first index of every name. */
  lemma {:induction false} IndexSameNames(a: seq<Server>, b: seq<Server>, name: string)
    requires |a| == |b|
    requires forall k :: 0 <= k < |a| ==> a[k].name == b[k].name
    ensures IndexOfName(a, name) == IndexOfName(b, name)
    decreases |a|
  {
    if a != [] {
      IndexSameNames(a[1..], b[1..], name);
    }
  }

  lemma IndexAfterAppend(servers: seq<Server>, s: Server)
    requires IndexOfName(servers, s.name).None?
    ensures IndexOfName(servers + [s], s.name) == Some(|servers|)
  {
    var r := servers + [s];
    var found := IndexOfName(r, s.name);
    assert r[|servers|].name == s.name;
    if found.None? {
      assert false;
    }
  }

  /** A name already present keeps its first position when something is appended. */
  lemma IndexOfPrefix(a: seq<Server>, b: seq<Server>, name: string)
    requires |a| <= |b| && a == b[..|a|]
    requires IndexOfName(a, name).Some? || forall k :: |a| <= k < |b| ==> b[k].name != name
    ensures IndexOfName(b, name) == IndexOfName(a, name)
  {
    var ia := IndexOfName(a, name);
    var ib := IndexOfName(b, name);
    if ia.Some? {
      assert b[ia.value] == a[ia.value];
      assert ib.Some? && ib.value <= ia.value;
      assert a[ib.value] == b[ib.value];
    } else {
      forall k | 0 <= k < |b| ensures b[k].name != name {
        if k < |a| { assert b[k] == a[k]; }
      }
    }
  }

  /** The YAML servers stay first, in YAML order, under their own names; nothing is ever removed. */
  lemma {:induction false} UpsertAllKeepsBase(base: seq<Server>, ss: seq<Server>)
    ensures |base| <= |UpsertAll(base, ss)| <= |base| + |ss|
    ensures forall k :: 0 <= k < |base| ==> UpsertAll(base, ss)[k].name == base[k].name
    decreases |ss|
  {
    if ss != [] {
      var prev := UpsertAll(base, ss[..|ss| - 1]);
      UpsertAllKeepsBase(base, ss[..|ss| - 1]);
      UpsertShape(prev, ss[|ss| - 1]);
    }
  }

  /**
   * With distinct names on the environment side (as the scan gives), every
   * environment server ends up as the first server of its name, with its
   * URL and key.
   */
  lemma {:induction false} UpsertAllFound(base: seq<Server>, ss: seq<Server>)
    requires DistinctNames(ss)
    ensures forall j :: 0 <= j < |ss| ==>
      IndexOfName(UpsertAll(base, ss), ss[j].name).Some? &&
      UpsertAll(base, ss)[IndexOfName(UpsertAll(base, ss), ss[j].name).value] == ss[j]
    decreases |ss|
  {
    if ss != [] {
      var init := ss[..|ss| - 1];
      var last := ss[|ss| - 1];
      var prev := UpsertAll(base, init);
      UpsertAllFound(base, init);
      UpsertFound(prev, last);
      forall j | 0 <= j < |ss| - 1
        ensures IndexOfName(UpsertAll(base, ss), ss[j].name).Some? &&
          UpsertAll(base, ss)[IndexOfName(UpsertAll(base, ss), ss[j].name).value] == ss[j]
      {
        assert init[j] == ss[j];
        UpsertOther(prev, last, ss[j].name);
      }
    }
  }

  /** Servers with distinct names keep distinct names: merging adds no duplicate. */
  lemma UpsertDistinct(servers: seq<Server>, s: Server)
    requires DistinctNames(servers)
    ensures DistinctNames(Upsert(servers, s))
  {
    UpsertShape(servers, s);
  }

  lemma {:induction false} UpsertAllDistinct(base: seq<Server>, ss: seq<Server>)
    requires DistinctNames(base)
    ensures DistinctNames(UpsertAll(base, ss))
    decreases |ss|
  {
    if ss != [] {
      UpsertAllDistinct(base, ss[..|ss| - 1]);
      UpsertDistinct(UpsertAll(base, ss[..|ss| - 1]), ss[|ss| - 1]);
    }
  }

  /**
   * `_get_servers` as a whole: the YAML servers first under their own names,
   * every environment server `server<i>` present with its URL and key, at
   * most one server added per environment server, and no duplicate name
   * when the YAML has none.
   */
  lemma MergedServersSpec(doc: Document, env: Env)
    requires MergedServers(doc, env).Success?
    ensures var base := ParseServers(doc.servers.GetOr([])).value;
      var r := MergedServers(doc, env).value;
      && |base| <= |r| <= |base| + |EnvServers(env, 1)|
      && (forall k :: 0 <= k < |base| ==> r[k].name == base[k].name)
      && (forall j :: 0 <= j < |EnvServers(env, 1)| ==>
            IndexOfName(r, EnvServers(env, 1)[j].name).Some? &&
            r[IndexOfName(r, EnvServers(env, 1)[j].name).value] == EnvServers(env, 1)[j])
      && (DistinctNames(base) ==> DistinctNames(r))
  {
    var base := ParseServers(doc.servers.GetOr([])).value;
    var ss := EnvServers(env, 1);
    EnvServersWellFormed(env, 1);
    UpsertAllKeepsBase(base, ss);
    UpsertAllFound(base, ss);
    if DistinctNames(base) {
      UpsertAllDistinct(base, ss);
    }
  }

  // ---------------------------------------------------------------------
  // The other settings

  datatype Settings = Settings(
    servers: seq<Server>,
    syncInterval: int,
    dbPath: string,
    logLevel: string,
    syncReverseZones: bool,
    zonesToSync: seq<string>)

  const DefaultSyncInterval: int := 300
  const DefaultDbPath: string := "./data/dns_sync.db"
  const DefaultLogLevel: string := "INFO"

  /** `int(os.getenv('SYNC_INTERVAL', config.get('sync_interval', 300)))`. */
  function SyncInterval(doc: Document, env: Env): (r: Option<int>)
    ensures "SYNC_INTERVAL" in env ==> r == ParseInt(env["SYNC_INTERVAL"])
    ensures "SYNC_INTERVAL" !in env && doc.syncInterval.None? ==> r == Some(DefaultSyncInterval)
    ensures "SYNC_INTERVAL" !in env && doc.syncInterval.Some? ==> r == PyInt(doc.syncInterval.value)
  {
    match Get(env, "SYNC_INTERVAL")
    case Some(text) => ParseInt(text)
    case None => PyInt(doc.syncInterval.GetOr(IntValue(DefaultSyncInterval)))
  }

  /** `os.getenv('LOG_LEVEL', config.get('log_level', 'INFO'))`. */
  function LogLevel(doc: Document, env: Env): string {
    Getenv(env, "LOG_LEVEL", doc.logLevel.GetOr(DefaultLogLevel))
  }

  /** `os.getenv('SYNC_REVERSE_ZONES', str(config.get('sync_reverse_zones', False))).lower() == 'true'`. */
  predicate SyncReverseZones(doc: Document, env: Env) {
    IsTrueFlag(Getenv(env, "SYNC_REVERSE_ZONES", PyStr(doc.syncReverseZones.GetOr(BoolValue(false)))))
  }

  /** `ZONES_TO_SYNC`: the variable when set, otherwise the YAML list joined with commas; then split, strip, drop empties. */
  function ZonesToSync(doc: Document, env: Env): (zones: seq<string>)
    ensures forall k :: 0 <= k < |zones| ==> zones[k] != "" && Stripped(zones[k]) && ',' !in zones[k]
  {
    var text := Getenv(env, "ZONES_TO_SYNC", Join(doc.zonesToSync.GetOr([]), ','));
    ZoneListEntries(text);
    ZoneList(text)
  }

  /**
   * `Config.__init__` after the file is read, in its order of evaluation:
   * the servers (KeyError on an incomplete entry), then SYNC_INTERVAL
   * (`int` may raise), then the rest.
   */
  function Load(doc: Document, env: Env): (r: Result<Settings>)
    ensures r.Success? <==> MergedServers(doc, env).Success? && SyncInterval(doc, env).Some?
    ensures MergedServers(doc, env).Failure? ==> r == Failure(MergedServers(doc, env).error)
  {
    match MergedServers(doc, env)
    case Failure(e) => Failure(e)
    case Success(servers) =>
      match SyncInterval(doc, env)
      case None => Failure("ValueError: invalid literal for int() with base 10")
      case Some(interval) =>
        Success(Settings(
          servers,
          interval,
          Getenv(env, "DB_PATH", DefaultDbPath),
          LogLevel(doc, env),
          SyncReverseZones(doc, env),
          ZonesToSync(doc, env)))
  }

  /** With no config file and no environment, the defaults. */
  lemma Defaults()
    ensures Load(EmptyDocument, map[]) == Success(Settings([], 300, "./data/dns_sync.db", "INFO", false, []))
  {
    assert EnvServers(map[], 1) == [];
    assert Join([], ',') == "";
    assert Split("", ',') == [""];
    assert Strip("") == "";
    TrueFlagSpellings("False");
  }

  /** DB_PATH is read from the environment only: the YAML document plays no part. */
  lemma DbPathFromEnvOnly(doc1: Document, doc2: Document, env: Env)
    requires Load(doc1, env).Success? && Load(doc2, env).Success?
    ensures Load(doc1, env).value.dbPath == Load(doc2, env).value.dbPath
    ensures "DB_PATH" !in env ==> Load(doc1, env).value.dbPath == "./data/dns_sync.db"
  {
  }

  /** An environment value overrides the YAML value, for the log level, the flag and the zone list. */
  lemma EnvOverridesDocument(doc1: Document, doc2: Document, env: Env)
    requires "LOG_LEVEL" in env && "SYNC_REVERSE_ZONES" in env && "ZONES_TO_SYNC" in env
    ensures LogLevel(doc1, env) == LogLevel(doc2, env) == env["LOG_LEVEL"]
    ensures SyncReverseZones(doc1, env) <==> SyncReverseZones(doc2, env)
    ensures ZonesToSync(doc1, env) == ZonesToSync(doc2, env) == ZoneList(env["ZONES_TO_SYNC"])
  {
  }

  /**
   * Without the environment variable, the YAML flag decides: a YAML boolean
   * is taken as it is (`str(True) == 'True'`), a string when it reads `true`
   * in any letter case, and a number, `null` or a missing key never.
   */
  lemma ReverseZonesFromDocument(doc: Document, env: Env)
    requires "SYNC_REVERSE_ZONES" !in env
    ensures doc.syncReverseZones.None? ==> !SyncReverseZones(doc, env)
    ensures doc.syncReverseZones.Some? && doc.syncReverseZones.value.BoolValue? ==>
      (SyncReverseZones(doc, env) <==> doc.syncReverseZones.value.b)
    ensures doc.syncReverseZones.Some? && doc.syncReverseZones.value.StrValue? ==>
      (SyncReverseZones(doc, env) <==> IsTrueFlag(doc.syncReverseZones.value.s))
    ensures doc.syncReverseZones.Some? && (doc.syncReverseZones.value.IntValue? || doc.syncReverseZones.value.NullValue?) ==>
      !SyncReverseZones(doc, env)
  {
    TrueFlagSpellings("True");
    TrueFlagSpellings("False");
    TrueFlagSpellings("None");
    if doc.syncReverseZones.Some? && doc.syncReverseZones.value.IntValue? {
      var s := IntToString(doc.syncReverseZones.value.i);
      TrueFlagSpellings(s);
      assert s[0] == '-' || IsDigit(s[0]);
    }
  }

  /** Without the environment variable, a clean YAML zone list is taken as it is. */
  lemma ZonesFromDocument(doc: Document, env: Env)
    requires "ZONES_TO_SYNC" !in env && doc.zonesToSync.Some?
    requires forall k :: 0 <= k < |doc.zonesToSync.value| ==>
      doc.zonesToSync.value[k] != "" && Stripped(doc.zonesToSync.value[k]) && ',' !in doc.zonesToSync.value[k]
    ensures ZonesToSync(doc, env) == doc.zonesToSync.value
  {
    ZoneListOfJoin(doc.zonesToSync.value);
  }

  /** The YAML interval is used when the variable is unset; `True` counts as 1 as in Python. */
  lemma IntervalFromDocument(doc: Document, env: Env)
    requires "SYNC_INTERVAL" !in env && doc.syncInterval.Some?
    ensures doc.syncInterval.value.IntValue? ==> SyncInterval(doc, env) == Some(doc.syncInterval.value.i)
    ensures doc.syncInterval.value.StrValue? ==> SyncInterval(doc, env) == ParseInt(doc.syncInterval.value.s)
    ensures doc.syncInterval.value.BoolValue? ==> SyncInterval(doc, env) == Some(if doc.syncInterval.value.b then 1 else 0)
  {
  }
}
