/**
 * The requests `propagate_changes` makes, as a function of the shadow copy
 * and of what the servers answer (technisync/sync_manager.py).
 */
module Propagation {
  import opened Wrappers
  import opened Models
  import opened SyncCore
  import opened Db
  import opened ClientPlan

  /** Each server's answer to `get_records(zone)`; a missing entry is a fetch that raised. */
  type RecordAnswers = map<(string, string), seq<DnsRecord>>

  /** Each server's answer to `get_zones()`, as zone names; a missing entry is a fetch that raised. */
  type ZoneAnswers = map<string, seq<string>>

  /** The records of every configured server for a zone, server by server in configuration order. */
  function Gathered(rows: seq<Row>, servers: seq<string>, zone: string): seq<DnsRecord> {
    if servers == [] then []
    else Gathered(rows, servers[..|servers| - 1], zone) + Select(rows, servers[|servers| - 1], zone)
  }

  /** `get_all_records_for_zone(zone)`. */
  function AllRecords(rows: seq<Row>, servers: seq<string>, zone: string): seq<DnsRecord> {
    Values(FirstWins(Gathered(rows, servers, zone), zone))
  }

  /** One more server appends that server's records. */
  lemma GatheredStep(rows: seq<Row>, servers: seq<string>, zone: string, n: nat)
    requires n < |servers|
    ensures Gathered(rows, servers[..n + 1], zone) == Gathered(rows, servers[..n], zone) + Select(rows, servers[n], zone)
  {
    assert servers[..n + 1][..n] == servers[..n];
  }

  /** One more server appends its share, unless it is the owner. */
  lemma FanOutStep(servers: seq<string>, owner: Option<string>, zone: string, target: seq<DnsRecord>,
                   records: RecordAnswers, zones: ZoneAnswers, n: nat)
    requires n < |servers|
    ensures FanOut(servers[..n + 1], owner, zone, target, records, zones) ==
      FanOut(servers[..n], owner, zone, target, records, zones)
        + (if owner == Some(servers[n]) then [] else ServerCalls(servers[n], zone, target, records, zones))
  {
    assert servers[..n + 1][..n] == servers[..n];
  }

  /** One more zone appends that zone's propagation. */
  lemma PropagateStep(rows: seq<Row>, owners: map<string, Ownership>, servers: seq<string>, zoneList: seq<string>,
                      records: RecordAnswers, zones: ZoneAnswers, n: nat)
    requires n < |zoneList|
    ensures Propagate(rows, owners, servers, zoneList[..n + 1], records, zones) ==
      Propagate(rows, owners, servers, zoneList[..n], records, zones) + ZonePropagation(rows, owners, servers, zoneList[n], records, zones)
  {
    assert zoneList[..n + 1][..n] == zoneList[..n];
  }

  lemma GatheredSplit(rows: seq<Row>, servers: seq<string>, zone: string, n: nat)
    requires n < |servers|
    ensures Gathered(rows, servers, zone) ==
      Gathered(rows, servers[..n], zone) + Select(rows, servers[n], zone) + Gathered(rows, servers[n + 1..], zone)
  {
    var front := servers[..n];
    var rest := servers[n + 1..];
    assert servers == (front + [servers[n]]) + rest;
    GatheredAppend(rows, front + [servers[n]], rest, zone);
    GatheredAppend(rows, front, [servers[n]], zone);
    assert [servers[n]][..0] == [];
  }

  /** Gathering over two lists of servers is gathering over each, one after the other. */
  lemma {:induction false} GatheredAppend(rows: seq<Row>, a: seq<string>, b: seq<string>, zone: string)
    ensures Gathered(rows, a + b, zone) == Gathered(rows, a, zone) + Gathered(rows, b, zone)
    decreases |b|
  {
    if b == [] {
      assert a + b == a;
    } else {
      var ab := a + b;
      var init := b[..|b| - 1];
      assert ab[..|ab| - 1] == a + init;
      assert ab[|ab| - 1] == b[|b| - 1];
      GatheredAppend(rows, a, init, zone);
      RecordsAssoc(Gathered(rows, a, zone), Gathered(rows, init, zone), Select(rows, b[|b| - 1], zone));
    }
  }

  lemma RecordsAssoc(x: seq<DnsRecord>, y: seq<DnsRecord>, z: seq<DnsRecord>)
    ensures (x + y) + z == x + (y + z)
  {
  }

  /** In `front + mine + rest`, a record of `mine` whose key appears nowhere earlier is the one kept. */
  lemma FirstWinsInMiddle(front: seq<DnsRecord>, mine: seq<DnsRecord>, rest: seq<DnsRecord>, zone: string, m: nat)
    requires Considered(mine, m)
    requires forall y :: y in front && !IsExcluded(y.rtype) ==> RecordKey(y, zone) != RecordKey(mine[m], zone)
    requires forall l :: 0 <= l < m && Considered(mine, l) ==> RecordKey(mine[l], zone) != RecordKey(mine[m], zone)
    ensures RecordKey(mine[m], zone) in FirstWins(front + mine + rest, zone).values
    ensures FirstWins(front + mine + rest, zone).values[RecordKey(mine[m], zone)] == mine[m]
  {
    var fm := front + mine;
    var g := fm + rest;
    var i := |front| + m;
    assert g[i] == fm[i] == mine[m];
    forall j | 0 <= j < i && Considered(g, j) ensures RecordKey(g[j], zone) != RecordKey(g[i], zone) {
      assert g[j] == fm[j];
      if j < |front| {
        assert fm[j] == front[j];
        assert front[j] in front;
      } else {
        assert fm[j] == mine[j - |front|];
        assert Considered(mine, j - |front|);
      }
    }
    assert Considered(g, i);
    FirstWinsEarliest(g, zone, i);
  }

  /**
   * For a key several servers hold, `get_all_records_for_zone` keeps the
   * record of the earliest server in configuration order (and, within that
   * server, its first record of the key).
   */
  lemma EarliestServerWins(rows: seq<Row>, servers: seq<string>, zone: string, n: nat, m: nat)
    requires n < |servers|
    requires Considered(Select(rows, servers[n], zone), m)
    requires forall y :: y in Gathered(rows, servers[..n], zone) && !IsExcluded(y.rtype) ==>
      RecordKey(y, zone) != RecordKey(Select(rows, servers[n], zone)[m], zone)
    requires forall l :: 0 <= l < m && Considered(Select(rows, servers[n], zone), l) ==>
      RecordKey(Select(rows, servers[n], zone)[l], zone) != RecordKey(Select(rows, servers[n], zone)[m], zone)
    ensures RecordKey(Select(rows, servers[n], zone)[m], zone) in FirstWins(Gathered(rows, servers, zone), zone).values
    ensures FirstWins(Gathered(rows, servers, zone), zone).values[RecordKey(Select(rows, servers[n], zone)[m], zone)] ==
      Select(rows, servers[n], zone)[m]
  {
    GatheredSplit(rows, servers, zone, n);
    FirstWinsInMiddle(Gathered(rows, servers[..n], zone), Select(rows, servers[n], zone), Gathered(rows, servers[n + 1..], zone), zone, m);
  }

  /** `ensure_reverse_zone_exists(server, zone)`: `add_zone` when the zone list was fetched without the zone. */
  function ZoneCalls(server: string, zone: string, zones: ZoneAnswers): seq<ClientCall> {
    if server in zones && zone !in zones[server] then [AddZoneCall(server, zone)] else []
  }

  /** `update_server_records(server, zone, target)`: nothing when the current records cannot be fetched. */
  function RecordCalls(server: string, zone: string, target: seq<DnsRecord>, records: RecordAnswers): seq<ClientCall> {
    if (server, zone) in records then PlannedCalls(server, zone, target, records[(server, zone)]) else []
  }

  /** The reverse-zone check is made for reverse zones only. */
  function ReverseCalls(server: string, zone: string, zones: ZoneAnswers): seq<ClientCall> {
    if IsReverseZone(zone) then ZoneCalls(server, zone, zones) else []
  }

  /** One server's share of a zone's propagation: the reverse-zone check, then `update_server_records`. */
  function ServerCalls(server: string, zone: string, target: seq<DnsRecord>, records: RecordAnswers, zones: ZoneAnswers): seq<ClientCall> {
    ReverseCalls(server, zone, zones) + RecordCalls(server, zone, target, records)
  }

  /** The loop over the configured servers, leaving out the owner when there is one. */
  function FanOut(servers: seq<string>, owner: Option<string>, zone: string, target: seq<DnsRecord>, records: RecordAnswers, zones: ZoneAnswers): seq<ClientCall> {
    if servers == [] then []
    else
      var s := servers[|servers| - 1];
      FanOut(servers[..|servers| - 1], owner, zone, target, records, zones)
        + (if owner == Some(s) then [] else ServerCalls(s, zone, target, records, zones))
  }

  /** The owner `get_zone_owner` reports, when it is set and not empty. */
  function OwnerOf(owners: map<string, Ownership>, zone: string): Option<string> {
    if zone in owners && owners[zone].owner != "" then Some(owners[zone].owner) else None
  }

  /** The body of the zone loop of `propagate_changes`. */
  function ZonePropagation(rows: seq<Row>, owners: map<string, Ownership>, servers: seq<string>, zone: string,
                           records: RecordAnswers, zones: ZoneAnswers): seq<ClientCall> {
    if IsInternalZone(zone) then []
    else
      match OwnerOf(owners, zone)
      case Some(owner) => FanOut(servers, Some(owner), zone, Select(rows, owner, zone), records, zones)
      case None => FanOut(servers, None, zone, AllRecords(rows, servers, zone), records, zones)
  }

  /** Every request of `propagate_changes`, zone by zone in the order `get_all_zones` lists them. */
  function Propagate(rows: seq<Row>, owners: map<string, Ownership>, servers: seq<string>, zoneList: seq<string>,
                     records: RecordAnswers, zones: ZoneAnswers): seq<ClientCall> {
    if zoneList == [] then []
    else
      Propagate(rows, owners, servers, zoneList[..|zoneList| - 1], records, zones)
        + ZonePropagation(rows, owners, servers, zoneList[|zoneList| - 1], records, zones)
  }

  /** What every request of one server's share is for. */
  predicate CallFor(call: ClientCall, server: string, zone: string) {
    call.server == server && call.zone == zone
  }

  lemma ServerCallsFor(server: string, zone: string, target: seq<DnsRecord>, records: RecordAnswers, zones: ZoneAnswers, calls: seq<ClientCall>)
    requires calls == ServerCalls(server, zone, target, records, zones)
    ensures forall i :: 0 <= i < |calls| ==> CallFor(calls[i], server, zone) && (calls[i].AddZoneCall? ==> IsReverseZone(zone))
  {
    var z := ReverseCalls(server, zone, zones);
    var p := RecordCalls(server, zone, target, records);
    if (server, zone) in records {
      PlannedCallsAddressed(server, zone, target, records[(server, zone)], p);
    }
    assert calls == z + p;
    forall i | 0 <= i < |calls| ensures CallFor(calls[i], server, zone) && (calls[i].AddZoneCall? ==> IsReverseZone(zone)) {
      if i < |z| {
        assert calls[i] == z[i];
      } else {
        assert calls[i] == p[i - |z|];
      }
    }
  }

  /** The fan-out writes only to configured servers other than the owner, only in its zone. */
  lemma {:induction false} FanOutFor(servers: seq<string>, owner: Option<string>, zone: string, target: seq<DnsRecord>,
                                     records: RecordAnswers, zones: ZoneAnswers, calls: seq<ClientCall>)
    requires calls == FanOut(servers, owner, zone, target, records, zones)
    ensures forall i :: 0 <= i < |calls| ==> calls[i].zone == zone && calls[i].server in servers
    ensures forall i :: 0 <= i < |calls| ==> owner.Some? ==> calls[i].server != owner.value
    ensures forall i :: 0 <= i < |calls| ==> calls[i].AddZoneCall? ==> IsReverseZone(zone)
    decreases |servers|
  {
    if servers != [] {
      var init := servers[..|servers| - 1];
      var s := servers[|servers| - 1];
      var front := FanOut(init, owner, zone, target, records, zones);
      FanOutFor(init, owner, zone, target, records, zones, front);
      var last := if owner == Some(s) then [] else ServerCalls(s, zone, target, records, zones);
      ServerCallsFor(s, zone, target, records, zones, ServerCalls(s, zone, target, records, zones));
      var p := front + last;
      forall i | 0 <= i < |p|
        ensures p[i].zone == zone && p[i].server in servers
        ensures owner.Some? ==> p[i].server != owner.value
        ensures p[i].AddZoneCall? ==> IsReverseZone(zone)
      {
        if i < |front| {
          assert p[i] == front[i];
          assert front[i].server in init;
        } else {
          assert p[i] == last[i - |front|];
        }
      }
    }
  }

  /**
   * `propagate_changes` never writes to an internal zone, writes only zones
   * of the shadow copy and only to configured servers, never writes to a
   * zone's owner, and creates a zone only when it is a reverse zone.
   */
  lemma {:induction false} PropagateFor(rows: seq<Row>, owners: map<string, Ownership>, servers: seq<string>, zoneList: seq<string>,
                                        records: RecordAnswers, zones: ZoneAnswers, calls: seq<ClientCall>)
    requires calls == Propagate(rows, owners, servers, zoneList, records, zones)
    ensures forall i :: 0 <= i < |calls| ==> calls[i].zone in zoneList && !IsInternalZone(calls[i].zone) && calls[i].server in servers
    ensures forall i :: 0 <= i < |calls| ==> OwnerOf(owners, calls[i].zone).Some? ==> calls[i].server != OwnerOf(owners, calls[i].zone).value
    ensures forall i :: 0 <= i < |calls| ==> calls[i].AddZoneCall? ==> IsReverseZone(calls[i].zone)
    decreases |zoneList|
  {
    if zoneList != [] {
      var init := zoneList[..|zoneList| - 1];
      var zone := zoneList[|zoneList| - 1];
      var front := Propagate(rows, owners, servers, init, records, zones);
      PropagateFor(rows, owners, servers, init, records, zones, front);
      var last := ZonePropagation(rows, owners, servers, zone, records, zones);
      if !IsInternalZone(zone) {
        match OwnerOf(owners, zone)
        case Some(owner) => FanOutFor(servers, Some(owner), zone, Select(rows, owner, zone), records, zones, last);
        case None => FanOutFor(servers, None, zone, AllRecords(rows, servers, zone), records, zones, last);
      }
      var p := front + last;
      forall i | 0 <= i < |p|
        ensures p[i].zone in zoneList && !IsInternalZone(p[i].zone) && p[i].server in servers
        ensures OwnerOf(owners, p[i].zone).Some? ==> p[i].server != OwnerOf(owners, p[i].zone).value
        ensures p[i].AddZoneCall? ==> IsReverseZone(p[i].zone)
      {
        if i < |front| {
          assert p[i] == front[i];
          assert front[i].zone in init;
        } else {
          assert p[i] == last[i - |front|];
        }
      }
    }
  }

  /** With no servers configured, nothing is propagated. */
  lemma {:induction false} NoServersNoCalls(rows: seq<Row>, owners: map<string, Ownership>, zoneList: seq<string>, records: RecordAnswers, zones: ZoneAnswers)
    ensures Propagate(rows, owners, [], zoneList, records, zones) == []
    decreases |zoneList|
  {
    if zoneList != [] {
      NoServersNoCalls(rows, owners, zoneList[..|zoneList| - 1], records, zones);
    }
  }
}
