/**
 * The stand-alone loader `config.py`: every setting comes from the process
 * environment, with fixed defaults.
 */
module RootConfig {
  import opened Wrappers
  import opened Strings
  import opened Models
  import opened Environment

  /** `Config.get_servers`: try i = 1, 2, ... until the URL or the API key of `SERVER<i>` is unset or empty. */
  method GetServers(env: Env) returns (servers: seq<Server>)
    ensures servers == EnvServers(env, 1)
    ensures forall j :: 1 <= j <= |servers| ==>
      HasServer(env, j) && servers[j - 1] == Server(ServerName(j), env[UrlVar(j)], env[KeyVar(j)])
    ensures forall k :: 0 <= k < |servers| ==> servers[k].url != "" && servers[k].apiKey != ""
    ensures !HasServer(env, |servers| + 1)
  {
    servers := ScanServers(env);
    ScanFromOne(env, servers);
  }

  /** The loop of `get_servers`, proved against the scan it performs. */
  method ScanServers(env: Env) returns (servers: seq<Server>)
    ensures servers == EnvServers(env, 1)
  {
    servers := [];
    var i := 1;
    while true
      invariant 1 <= i == |servers| + 1
      invariant servers + EnvServers(env, i) == EnvServers(env, 1)
      decreases |env.Keys - UrlVarsBelow(i)|
    {
      var next := NextServer(env, i);
      if next.None? {
        ScanEnds(servers, EnvServers(env, i), EnvServers(env, 1));
        break;
      }
      servers := ScanAppend(servers, next.value, EnvServers(env, i + 1));
      i := i + 1;
    }
  }

  /** What the scan from `SERVER1` yields, position by position. */
  lemma ScanFromOne(env: Env, ss: seq<Server>)
    requires ss == EnvServers(env, 1)
    ensures && (forall j :: 1 <= j <= |ss| ==>
            HasServer(env, j) && ss[j - 1] == Server(ServerName(j), env[UrlVar(j)], env[KeyVar(j)]))
      && (forall k :: 0 <= k < |ss| ==> ss[k].url != "" && ss[k].apiKey != "")
      && !HasServer(env, |ss| + 1)
  {
    EnvServersSpec(env, 1);
    forall j | 1 <= j <= |ss|
      ensures HasServer(env, j) && ss[j - 1] == Server(ServerName(j), env[UrlVar(j)], env[KeyVar(j)])
    {
      assert HasServer(env, j) && ss[j - 1] == EnvServer(env, j);
    }
    forall k | 0 <= k < |ss| ensures ss[k].url != "" && ss[k].apiKey != "" {
      assert HasServer(env, k + 1) && ss[(k + 1) - 1] == EnvServer(env, k + 1);
    }
  }

  /** The settings `config.py` exposes as class attributes. */
  datatype Settings = Settings(
    servers: seq<Server>,
    syncInterval: int,
    dbPath: string,
    logLevel: string,
    zonesToSync: seq<string>,
    syncReverseZones: bool)

  const DefaultSyncInterval: int := 300
  const DefaultDbPath: string := "dns_sync.db"
  const DefaultLogLevel: string := "INFO"

  /**
   * `int(os.getenv("SYNC_INTERVAL", 300))`: the default number when the
   * variable is unset, otherwise the parsed text (None where `int` raises).
   */
  function SyncInterval(env: Env): (r: Option<int>)
    ensures "SYNC_INTERVAL" !in env ==> r == Some(DefaultSyncInterval)
    ensures "SYNC_INTERVAL" in env ==> r == ParseInt(env["SYNC_INTERVAL"])
  {
    match Get(env, "SYNC_INTERVAL")
    case None => Some(DefaultSyncInterval)
    case Some(text) => ParseInt(text)
  }

  /** `ZONES_TO_SYNC`: the comma-separated variable, empty when unset. */
  function ZonesToSync(env: Env): (zones: seq<string>)
    ensures forall k :: 0 <= k < |zones| ==> zones[k] != "" && Stripped(zones[k]) && ',' !in zones[k]
  {
    ZoneListEntries(Getenv(env, "ZONES_TO_SYNC", ""));
    ZoneList(Getenv(env, "ZONES_TO_SYNC", ""))
  }

  /** `SYNC_REVERSE_ZONES`: the variable, `"false"` when unset, compared with `true` after lower-casing. */
  predicate SyncReverseZones(env: Env) {
    IsTrueFlag(Getenv(env, "SYNC_REVERSE_ZONES", "false"))
  }

  /**
   * All class attributes of `Config`, in the order the class body evaluates
   * them; a SYNC_INTERVAL that `int` rejects makes loading fail.
   */
  function Load(env: Env): (r: Result<Settings>)
    ensures r.Success? <==> SyncInterval(env).Some?
  {
    match SyncInterval(env)
    case None => Failure("ValueError: invalid literal for int() with base 10")
    case Some(interval) =>
      Success(Settings(
        EnvServers(env, 1),
        interval,
        Getenv(env, "DB_PATH", DefaultDbPath),
        Getenv(env, "LOG_LEVEL", DefaultLogLevel),
        ZonesToSync(env),
        SyncReverseZones(env)))
  }

  /** With none of the settings' variables set, every setting takes its default. */
  lemma Defaults(env: Env)
    requires forall k :: k in env ==> k !in {"SYNC_INTERVAL", "DB_PATH", "LOG_LEVEL", "ZONES_TO_SYNC", "SYNC_REVERSE_ZONES"}
    ensures Load(env) == Success(Settings(EnvServers(env, 1), 300, "dns_sync.db", "INFO", [], false))
  {
    assert "SYNC_INTERVAL" !in env && "ZONES_TO_SYNC" !in env && "SYNC_REVERSE_ZONES" !in env;
    assert "DB_PATH" !in env && "LOG_LEVEL" !in env;
    EmptyZoneList(env);
    ReverseZonesFlag(env);
  }

  /** SYNC_REVERSE_ZONES is on exactly when the variable is set and reads `true` in any letter case. */
  lemma ReverseZonesFlag(env: Env)
    ensures SyncReverseZones(env) <==> "SYNC_REVERSE_ZONES" in env && IsTrueFlag(env["SYNC_REVERSE_ZONES"])
  {
    TrueFlagSpellings("false");
  }

  /** An unset or empty ZONES_TO_SYNC selects no zones (so every zone is synced). */
  lemma EmptyZoneList(env: Env)
    requires "ZONES_TO_SYNC" !in env || env["ZONES_TO_SYNC"] == ""
    ensures ZonesToSync(env) == []
  {
    assert Getenv(env, "ZONES_TO_SYNC", "") == "";
    assert Split("", ',') == [""];
    assert Strip("") == "";
  }
}
