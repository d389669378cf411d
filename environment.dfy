/**
 * What both configuration loaders (config.py and technisync/config.py) read
 * from the process environment, with the environment given as a map: the
 * numbered `SERVER<i>_URL` / `SERVER<i>_API_KEY` variables, integer values,
 * the comma-separated zone list and the `true` flag.
 */
module Environment {
  import opened Wrappers
  import opened Strings
  import opened Models

  type Env = map<string, string>

  /** `os.getenv(name, default)`: the default only when the variable is unset; a set but empty variable gives "". */
  function Getenv(env: Env, name: string, default: string): (r: string)
    ensures name in env ==> r == env[name]
    ensures name !in env ==> r == default
  {
    Get(env, name).GetOr(default)
  }

  function UrlVar(i: nat): string { "SERVER" + NatToString(i) + "_URL" }

  function KeyVar(i: nat): string { "SERVER" + NatToString(i) + "_API_KEY" }

  function ServerName(i: nat): string { "server" + NatToString(i) }

  /** Different indices name different variables and servers. */
  lemma NamesInjective(a: nat, b: nat)
    ensures UrlVar(a) == UrlVar(b) <==> a == b
    ensures ServerName(a) == ServerName(b) <==> a == b
  {
    var ua, ub := UrlVar(a), UrlVar(b);
    assert ua[6..|ua| - 4] == NatToString(a);
    assert ub[6..|ub| - 4] == NatToString(b);
    if ua == ub {
      NatToStringInjective(a, b);
    }
    var na, nb := ServerName(a), ServerName(b);
    assert na[6..] == NatToString(a);
    assert nb[6..] == NatToString(b);
    if na == nb {
      NatToStringInjective(a, b);
    }
  }

  /** The scan goes on at `i` only if both variables are set and non-empty (`if not url or not api_key: break`). */
  predicate HasServer(env: Env, i: nat) {
    UrlVar(i) in env && env[UrlVar(i)] != "" && KeyVar(i) in env && env[KeyVar(i)] != ""
  }

  function EnvServer(env: Env, i: nat): Server {
    Server(ServerName(i), Getenv(env, UrlVar(i), ""), Getenv(env, KeyVar(i), ""))
  }

  /** The URL variables of the indices below `i`: the part of the environment the scan has used up. */
  function UrlVarsBelow(i: nat): set<string> {
    set j | 0 <= j < i :: UrlVar(j)
  }

  /** The scan terminates because every step uses up one more variable of the (finite) environment. */
  lemma ScanMeasureDecreases(env: Env, i: nat)
    requires UrlVar(i) in env
    ensures |env.Keys - UrlVarsBelow(i + 1)| < |env.Keys - UrlVarsBelow(i)|
  {
    var rest := env.Keys - UrlVarsBelow(i);
    forall j | 0 <= j < i ensures UrlVar(j) != UrlVar(i) {
      NamesInjective(j, i);
    }
    assert UrlVarsBelow(i + 1) == UrlVarsBelow(i) + {UrlVar(i)};
    assert env.Keys - UrlVarsBelow(i + 1) == rest - {UrlVar(i)};
  }

  /** The servers the environment defines from index `i` up to the first gap. */
  function EnvServers(env: Env, i: nat): seq<Server>
    decreases |env.Keys - UrlVarsBelow(i)|
  {
    if HasServer(env, i) then
      ScanMeasureDecreases(env, i);
      [EnvServer(env, i)] + EnvServers(env, i + 1)
    else []
  }

  /** One probe of the scan: `SERVER<i>` when both of its variables are set and non-empty. */
  method NextServer(env: Env, i: nat) returns (next: Option<Server>)
    ensures next.None? <==> !HasServer(env, i)
    ensures next.None? ==> EnvServers(env, i) == []
    ensures next.Some? ==> next.value == Server(ServerName(i), env[UrlVar(i)], env[KeyVar(i)])
    ensures next.Some? ==> EnvServers(env, i) == [next.value] + EnvServers(env, i + 1)
    ensures next.Some? ==> |env.Keys - UrlVarsBelow(i + 1)| < |env.Keys - UrlVarsBelow(i)|
  {
    var url := Get(env, UrlVar(i));
    var apiKey := Get(env, KeyVar(i));
    if url.None? || url.value == "" || apiKey.None? || apiKey.value == "" {
      assert EnvServers(env, i) == [];
      return None;
    }
    ScanStep(env, i, url.value, apiKey.value);
    next := Some(Server(ServerName(i), url.value, apiKey.value));
  }

  /** At a gap the servers scanned so far are the whole scan. */
  lemma ScanEnds(done: seq<Server>, rest: seq<Server>, all: seq<Server>)
    requires done + rest == all && rest == []
    ensures done == all
  {
    assert done + rest == done;
  }

  /** A present `SERVER<i>` is the next server of the scan, and the scan moves on. */
  lemma ScanStep(env: Env, i: nat, url: string, apiKey: string)
    requires Get(env, UrlVar(i)) == Some(url) && Get(env, KeyVar(i)) == Some(apiKey)
    requires url != "" && apiKey != ""
    ensures EnvServers(env, i) == [Server(ServerName(i), url, apiKey)] + EnvServers(env, i + 1)
    ensures |env.Keys - UrlVarsBelow(i + 1)| < |env.Keys - UrlVarsBelow(i)|
  {
    ScanMeasureDecreases(env, i);
  }

  /** Appending the next server keeps the prefix-plus-rest equation. */
  function ScanAppend(servers: seq<Server>, s: Server, rest: seq<Server>): (r: seq<Server>)
    ensures r + rest == servers + ([s] + rest)
    ensures |r| == |servers| + 1
  {
    servers + [s]
  }

  /**
   * The scan from `i` yields the servers `i`, `i + 1`, ... in order, each
   * with its non-empty URL and key, and stops at the first index whose URL
   * or key is unset or empty.
   */
  lemma {:induction false} EnvServersSpec(env: Env, i: nat)
    ensures forall j :: i <= j < i + |EnvServers(env, i)| ==> HasServer(env, j)
    ensures forall j :: i <= j < i + |EnvServers(env, i)| ==> EnvServers(env, i)[j - i] == EnvServer(env, j)
    ensures !HasServer(env, i + |EnvServers(env, i)|)
    decreases |env.Keys - UrlVarsBelow(i)|
  {
    if HasServer(env, i) {
      ScanMeasureDecreases(env, i);
      EnvServersSpec(env, i + 1);
      var ss := EnvServers(env, i);
      var rest := EnvServers(env, i + 1);
      assert ss == [EnvServer(env, i)] + rest;
      assert !HasServer(env, (i + 1) + |rest|);
      forall j | i < j < i + |ss| ensures ss[j - i] == EnvServer(env, j) {
        assert ss[j - i] == rest[j - (i + 1)];
      }
    } else {
      assert EnvServers(env, i) == [];
    }
  }

  /** Every scanned server has a non-empty URL and API key, and the names are distinct. */
  lemma EnvServersWellFormed(env: Env, i: nat)
    ensures var ss := EnvServers(env, i);
      && (forall k :: 0 <= k < |ss| ==> ss[k].url != "" && ss[k].apiKey != "")
      && (forall k, l :: 0 <= k < l < |ss| ==> ss[k].name != ss[l].name)
  {
    EnvServersSpec(env, i);
    var ss := EnvServers(env, i);
    forall k | 0 <= k < |ss| ensures ss[k].url != "" && ss[k].apiKey != "" {
      assert HasServer(env, i + k) && ss[(i + k) - i] == EnvServer(env, i + k);
    }
    forall k, l | 0 <= k < l < |ss| ensures ss[k].name != ss[l].name {
      assert ss[(i + k) - i] == EnvServer(env, i + k);
      assert ss[(i + l) - i] == EnvServer(env, i + l);
      NamesInjective(i + k, i + l);
    }
  }

  // ---------------------------------------------------------------------
  // Integers: int(s)

  /**
   * `int(s)` for a string: surrounding whitespace, an optional sign, then
   * decimal digits. Anything else makes Python raise, which is None here.
   */
  function ParseInt(s: string): (r: Option<int>)
    ensures r.Some? ==> Strip(s) != ""
  {
    var t := Strip(s);
    if t != [] && (t[0] == '-' || t[0] == '+') then
      var digits := t[1..];
      if digits != [] && AllDigits(digits) then
        var n: int := ParseNat(digits);
        Some(if t[0] == '-' then -n else n)
      else None
    else if t != [] && AllDigits(t) then Some(ParseNat(t))
    else None
  }

  /** Reading back what `str(i)` wrote gives `i`. */
  lemma ParseIntToString(i: int)
    ensures ParseInt(IntToString(i)) == Some(i)
  {
    if i < 0 {
      ParseNegative(i);
    } else {
      ParseNonNegative(i);
    }
  }

  lemma ParseNonNegative(n: nat)
    ensures ParseInt(NatToString(n)) == Some(n)
  {
    var s := NatToString(n);
    ParseNatToString(n);
    assert !IsSpace(s[0]) && !IsSpace(s[|s| - 1]);
    StripOfStripped(s);
  }

  lemma ParseNegative(i: int)
    requires i < 0
    ensures ParseInt(IntToString(i)) == Some(i)
  {
    ParseNatToString(-i);
    ParseMinus(NatToString(-i));
  }

  /** `-` followed by digits reads as the negated number. */
  lemma ParseMinus(digits: string)
    requires digits != [] && AllDigits(digits)
    ensures ParseInt("-" + digits) == Some(-(ParseNat(digits) as int))
  {
    var s := "-" + digits;
    assert s[|s| - 1] == digits[|digits| - 1];
    assert !IsSpace(s[0]) && !IsSpace(s[|s| - 1]);
    StripOfStripped(s);
    assert s[1..] == digits;
  }

  // ---------------------------------------------------------------------
  // The zone list

  /** `[zone.strip() for zone in parts if zone.strip()]`. */
  function KeepZones(parts: seq<string>): (zones: seq<string>)
    ensures |zones| <= |parts|
    ensures forall k :: 0 <= k < |zones| ==> zones[k] != "" && Stripped(zones[k])
    decreases |parts|
  {
    if parts == [] then []
    else
      var z := Strip(parts[0]);
      (if z != "" then [z] else []) + KeepZones(parts[1..])
  }

  /** `s.split(',')` followed by the strip-and-drop-empty comprehension. */
  function ZoneList(s: string): seq<string> {
    KeepZones(Split(s, ','))
  }

  /** A comma-free text strips to a comma-free text. */
  lemma StripKeepsOut(s: string, c: char)
    requires c !in s
    ensures c !in Strip(s)
  {
    var r := Strip(s);
    var lo := StripStart(s, 0);
    forall k | 0 <= k < |r| ensures r[k] != c {
      assert r[k] == s[lo + k];
    }
  }

  lemma {:induction false} KeepZonesNoComma(parts: seq<string>)
    requires forall k :: 0 <= k < |parts| ==> ',' !in parts[k]
    ensures forall k :: 0 <= k < |KeepZones(parts)| ==> ',' !in KeepZones(parts)[k]
    decreases |parts|
  {
    if parts != [] {
      StripKeepsOut(parts[0], ',');
      KeepZonesNoComma(parts[1..]);
    }
  }

  /** Every zone in the list is non-empty, stripped and free of commas. */
  lemma ZoneListEntries(s: string)
    ensures forall k :: 0 <= k < |ZoneList(s)| ==>
      ZoneList(s)[k] != "" && Stripped(ZoneList(s)[k]) && ',' !in ZoneList(s)[k]
  {
    KeepZonesNoComma(Split(s, ','));
  }

  lemma {:induction false} KeepZonesOfClean(zones: seq<string>)
    requires forall k :: 0 <= k < |zones| ==> zones[k] != "" && Stripped(zones[k])
    ensures KeepZones(zones) == zones
    decreases |zones|
  {
    if zones != [] {
      StripOfStripped(zones[0]);
      KeepZonesOfClean(zones[1..]);
      assert zones == [zones[0]] + zones[1..];
    }
  }

  /**
   * Joining a list of clean zone names with commas and parsing it back gives
   * the list: the YAML `zones_to_sync` list survives `','.join` and `split`.
   */
  lemma ZoneListOfJoin(zones: seq<string>)
    requires forall k :: 0 <= k < |zones| ==> zones[k] != "" && Stripped(zones[k]) && ',' !in zones[k]
    ensures ZoneList(Join(zones, ',')) == zones
  {
    if zones == [] {
      assert Split("", ',') == [""];
      assert Strip("") == "";
    } else {
      SplitJoin(zones, ',');
      KeepZonesOfClean(zones);
    }
  }

  /** Parsing the joined zone list again changes nothing. */
  lemma ZoneListIdempotent(s: string)
    ensures ZoneList(Join(ZoneList(s), ',')) == ZoneList(s)
  {
    ZoneListEntries(s);
    ZoneListOfJoin(ZoneList(s));
  }
}
