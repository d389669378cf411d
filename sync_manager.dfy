/**
 * `SyncManager` (technisync/sync_manager.py): the shadow copy, the change
 * counters and the client requests, each method proved against the value
 * functions of SyncPlan, ClientPlan and Propagation.
 */
module Sync {
  import opened Wrappers
  import opened Models
  import opened SyncCore
  import opened Db
  import opened SyncPlan
  import opened ClientPlan
  import opened Propagation

  class SyncManager {
    /** The names of `config.SERVERS`, in configuration order. */
    const servers: seq<string>
    const zonesToSync: seq<string>
    const syncReverseZones: bool
    const db: DatabaseManager
    /** What the servers answer: records per server and zone, zone lists per server, and the requests they refuse. */
    const records: RecordAnswers
    const zones: ZoneAnswers
    const rejected: set<ClientCall>
    /** `self.changes`. */
    var changes: Changes
    /** Every request sent through the clients so far, in order. */
    var calls: seq<ClientCall>

    predicate Valid()
      reads this, db
    {
      db.Valid() && changes.Keys == set s | s in servers
    }

    /** `__init__`: one empty counter map per configured server. */
    constructor (servers: seq<string>, zonesToSync: seq<string>, syncReverseZones: bool, db: DatabaseManager,
                 records: RecordAnswers, zones: ZoneAnswers, rejected: set<ClientCall>)
      requires db.Valid()
      ensures Valid()
      ensures this.servers == servers && this.zonesToSync == zonesToSync && this.syncReverseZones == syncReverseZones
      ensures this.db == db && this.records == records && this.zones == zones && this.rejected == rejected
      ensures changes == ResetChanges(servers) && calls == []
    {
      this.servers := servers;
      this.zonesToSync := zonesToSync;
      this.syncReverseZones := syncReverseZones;
      this.db := db;
      this.records := records;
      this.zones := zones;
      this.rejected := rejected;
      changes := ResetChanges(servers);
      calls := [];
    }

    /** `track_change`. */
    method TrackChange(server: string, zone: string, t: ChangeType)
      requires Valid() && server in changes
      modifies this
      ensures Valid()
      ensures changes == Track(old(changes), server, zone, t)
      ensures calls == old(calls)
    {
      var zoneChanges := changes[server];
      if zone !in zoneChanges {
        zoneChanges := zoneChanges[zone := ZeroCounts];
      }
      var bumped := Bump(zoneChanges[zone], t);
      assert zoneChanges[zone := bumped] == changes[server][zone := bumped];
      changes := changes[server := zoneChanges[zone := bumped]];
    }

    /** One client request inside its `try`: sent, and counted only when the server accepts it. */
    method Request(call: ClientCall)
      requires Valid()
      modifies this
      ensures Valid()
      ensures calls == old(calls) + [call]
      ensures changes == Recount(old(changes), [call], rejected)
    {
      calls := calls + [call];
      assert [call][..0] == [];
      if call !in rejected && call.server in changes {
        TrackChange(call.server, call.zone, KindOf(call));
      }
    }

    /** `process_records`. */
    method ProcessRecords(server: string, zone: string, remote: seq<DnsRecord>, local: seq<DnsRecord>, now: Clock)
      requires Valid() && server in servers
      modifies this, db
      ensures Valid()
      ensures db.rows == ProcessRows(old(db.rows), server, zone, remote, local, now)
      ensures db.owners == old(db.owners) && db.columns == old(db.columns)
      ensures changes == AddCounts(old(changes), server, zone,
        |AddKeys(Keyed(remote, zone), Keyed(local, zone), Keyed(remote, zone).order)|,
        |UpdateKeys(Keyed(remote, zone), Keyed(local, zone), Keyed(remote, zone).order)|,
        |DeleteKeys(Keyed(remote, zone), Keyed(local, zone))|)
      ensures calls == old(calls)
    {
      var rd := Keyed(remote, zone);
      var ld := Keyed(local, zone);
      AddCountsSplit(changes, server, zone, |AddKeys(rd, ld, rd.order)|, |UpdateKeys(rd, ld, rd.order)|, |DeleteKeys(rd, ld)|);
      ApplyRemoteRecords(server, zone, rd, ld, now);
      DeleteMissingRecords(server, zone, rd, ld, now);
    }

    /** The first loop of `process_records`. */
    method ApplyRemoteRecords(server: string, zone: string, rd: Dict, ld: Dict, now: Clock)
      requires Valid() && server in servers && WellFormed(rd)
      modifies this, db
      ensures Valid()
      ensures db.rows == ApplyRemote(old(db.rows), server, zone, rd, ld, rd.order, now)
      ensures db.owners == old(db.owners) && db.columns == old(db.columns)
      ensures changes == AddCounts(old(changes), server, zone, |AddKeys(rd, ld, rd.order)|, |UpdateKeys(rd, ld, rd.order)|, 0)
      ensures calls == old(calls)
    {
      var i := 0;
      assert rd.order[..0] == [];
      while i < |rd.order|
        invariant 0 <= i <= |rd.order|
        invariant Valid()
        invariant db.rows == ApplyRemote(old(db.rows), server, zone, rd, ld, rd.order[..i], now)
        invariant db.owners == old(db.owners) && db.columns == old(db.columns)
        invariant changes == AddCounts(old(changes), server, zone, |AddKeys(rd, ld, rd.order[..i])|, |UpdateKeys(rd, ld, rd.order[..i])|, 0)
        invariant calls == old(calls)
      {
        var k := rd.order[i];
        CountStep(old(changes), server, zone, rd, ld, rd.order, i);
        ApplyRemoteStep(old(db.rows), server, zone, rd, ld, rd.order, i, now);
        ApplyRemoteRecord(server, zone, rd, ld, k, now);
        i := i + 1;
      }
      assert rd.order[..i] == rd.order;
    }

    /** The body of the first loop of `process_records`, for one remote key. */
    method ApplyRemoteRecord(server: string, zone: string, rd: Dict, ld: Dict, k: Key, now: Clock)
      requires Valid() && server in servers && k in rd.values
      modifies this, db
      ensures Valid()
      ensures db.rows == ApplyKey(old(db.rows), server, zone, rd, ld, k, now)
      ensures changes == AddCounts(old(changes), server, zone, AddsFor(ld, k), UpdatesFor(rd, ld, k), 0)
      ensures db.owners == old(db.owners) && db.columns == old(db.columns)
      ensures calls == old(calls)
    {
      var record := rd.values[k];
      if k !in ld.values {
        db.AddRecord(server, zone, record, now);
        TrackAddCounts(changes, server, zone, 0, 0, 0, AddChange);
        TrackChange(server, zone, AddChange);
      } else if !RecordsEqual(record, ld.values[k]) {
        db.UpdateRecord(server, zone, record, now);
        TrackAddCounts(changes, server, zone, 0, 0, 0, UpdateChange);
        TrackChange(server, zone, UpdateChange);
      }
    }

    /** The second loop of `process_records`, over a Python set: the keys are taken in any order. */
    method DeleteMissingRecords(server: string, zone: string, rd: Dict, ld: Dict, now: Clock)
      requires Valid() && server in servers
      modifies this, db
      ensures Valid()
      ensures db.rows == StampDeleted(old(db.rows), server, zone, DeletedPairs(ld, DeleteKeys(rd, ld)), now)
      ensures db.owners == old(db.owners) && db.columns == old(db.columns)
      ensures changes == AddCounts(old(changes), server, zone, 0, 0, |DeleteKeys(rd, ld)|)
      ensures calls == old(calls)
    {
      var pending := DeleteKeys(rd, ld);
      ghost var done: set<Key> := {};
      DeleteStart(db.rows, server, zone, ld, done, now, changes);
      while pending != {}
        invariant Valid()
        invariant pending + done == DeleteKeys(rd, ld) && pending !! done
        invariant db.rows == StampDeleted(old(db.rows), server, zone, DeletedPairs(ld, done), now)
        invariant db.owners == old(db.owners) && db.columns == old(db.columns)
        invariant changes == AddCounts(old(changes), server, zone, 0, 0, |done|)
        invariant calls == old(calls)
        decreases |pending|
      {
        var k;
        k, pending := DeleteOneMissing(server, zone, rd, ld, pending, now, old(db.rows), old(changes), done);
        done := done + {k};
      }
    }

    /** One turn of the second loop: any key still pending, then `delete_record` and `track_change` for it. */
    method DeleteOneMissing(server: string, zone: string, rd: Dict, ld: Dict, pending: set<Key>, now: Clock,
                            ghost rows: seq<Row>, ghost start: Changes, ghost done: set<Key>)
        returns (k: Key, rest: set<Key>)
      requires Valid() && server in servers && server in start
      requires pending != {} && pending + done == DeleteKeys(rd, ld) && pending !! done
      requires db.rows == StampDeleted(rows, server, zone, DeletedPairs(ld, done), now)
      requires changes == AddCounts(start, server, zone, 0, 0, |done|)
      modifies this, db
      ensures Valid()
      ensures k in pending && rest == pending - {k} && |rest| < |pending|
      ensures rest + (done + {k}) == DeleteKeys(rd, ld) && rest !! (done + {k})
      ensures db.rows == StampDeleted(rows, server, zone, DeletedPairs(ld, done + {k}), now)
      ensures db.owners == old(db.owners) && db.columns == old(db.columns)
      ensures changes == AddCounts(start, server, zone, 0, 0, |done + {k}|)
      ensures calls == old(calls)
    {
      k :| k in pending;
      rest := pending - {k};
      TakeOne(pending, done, DeleteKeys(rd, ld), k);
      DeleteLocal(server, zone, ld, k, now, rows, start, done);
    }

    /** `delete_record` and `track_change` for one local key the remote side lacks. */
    method DeleteLocal(server: string, zone: string, ld: Dict, k: Key, now: Clock,
                       ghost rows: seq<Row>, ghost start: Changes, ghost done: set<Key>)
      requires Valid() && server in servers && server in start
      requires done <= ld.values.Keys && k in ld.values && k !in done
      requires db.rows == StampDeleted(rows, server, zone, DeletedPairs(ld, done), now)
      requires changes == AddCounts(start, server, zone, 0, 0, |done|)
      modifies this, db
      ensures Valid()
      ensures db.rows == StampDeleted(rows, server, zone, DeletedPairs(ld, done + {k}), now)
      ensures db.owners == old(db.owners) && db.columns == old(db.columns)
      ensures changes == AddCounts(start, server, zone, 0, 0, |done + {k}|)
      ensures calls == old(calls)
    {
      DeleteStep(rows, server, zone, ld, done, k, now, start);
      db.DeleteRecord(server, zone, ld.values[k], now);
      TrackChange(server, zone, DeleteChange);
    }

    /** `sync_zone`: fetch the zone's records, then `process_records` against the shadow copy. */
    method SyncZone(server: string, zone: string, now: Clock)
      requires Valid() && server in servers
      modifies this, db
      ensures Valid()
      ensures (server, zone) !in records ==> db.rows == old(db.rows) && changes == old(changes)
      ensures (server, zone) in records ==>
        db.rows == ProcessRows(old(db.rows), server, zone, records[(server, zone)], Select(old(db.rows), server, zone), now)
      ensures (server, zone) in records ==>
        var rd := Keyed(records[(server, zone)], zone);
        var ld := Keyed(Select(old(db.rows), server, zone), zone);
        changes == AddCounts(old(changes), server, zone, |AddKeys(rd, ld, rd.order)|, |UpdateKeys(rd, ld, rd.order)|, |DeleteKeys(rd, ld)|)
      ensures db.owners == old(db.owners) && db.columns == old(db.columns) && calls == old(calls)
    {
      if (server, zone) !in records {
        return;
      }
      var remote := records[(server, zone)];
      var local := db.GetRecords(server, zone);
      ProcessRecords(server, zone, remote, local, now);
    }

    /** `update_server_records`; a failed fetch of the current records makes no request. */
    method UpdateServerRecords(server: string, zone: string, target: seq<DnsRecord>)
      requires Valid() && server in servers
      modifies this
      ensures Valid()
      ensures (server, zone) !in records ==> calls == old(calls) && changes == old(changes)
      ensures calls == old(calls) + RecordCalls(server, zone, target, records)
      ensures changes == Recount(old(changes), RecordCalls(server, zone, target, records), rejected)
    {
      if (server, zone) !in records {
        assert calls + [] == calls;
        return;
      }
      var current := records[(server, zone)];
      var c := Keyed(current, zone);
      var t := Keyed(target, zone);
      RecountAppend(changes, TargetCalls(server, zone, t, c, t.order), CurrentCalls(server, zone, t, c, c.order), rejected);
      SendTargetCalls(server, zone, t, c);
      SendCurrentCalls(server, zone, t, c, old(calls), old(changes), TargetCalls(server, zone, t, c, t.order));
    }

    /** The first loop of `update_server_records`, over the target dictionary. */
    method SendTargetCalls(server: string, zone: string, t: Dict, c: Dict)
      requires Valid() && WellFormed(t)
      modifies this
      ensures Valid()
      ensures calls == old(calls) + TargetCalls(server, zone, t, c, t.order)
      ensures changes == Recount(old(changes), TargetCalls(server, zone, t, c, t.order), rejected)
    {
      var i := 0;
      assert t.order[..0] == [];
      while i < |t.order|
        invariant 0 <= i <= |t.order|
        invariant Valid()
        invariant calls == old(calls) + TargetCalls(server, zone, t, c, t.order[..i])
        invariant changes == Recount(old(changes), TargetCalls(server, zone, t, c, t.order[..i]), rejected)
      {
        TargetCallsStep(server, zone, t, c, t.order, i);
        SendTargetCall(server, zone, t, c, t.order[i], old(calls), old(changes), TargetCalls(server, zone, t, c, t.order[..i]));
        i := i + 1;
      }
      assert t.order[..i] == t.order;
    }

    /** One target key: `add_record` when the server lacks it, `update_record` when it differs. */
    method SendTargetCall(server: string, zone: string, t: Dict, c: Dict, k: Key,
                          ghost base: seq<ClientCall>, ghost start: Changes, ghost sent: seq<ClientCall>)
      requires Valid() && k in t.values
      requires calls == base + sent && changes == Recount(start, sent, rejected)
      modifies this
      ensures Valid()
      ensures calls == base + (sent + TargetCall(server, zone, t, c, k))
      ensures changes == Recount(start, sent + TargetCall(server, zone, t, c, k), rejected)
    {
      RecountAppend(start, sent, TargetCall(server, zone, t, c, k), rejected);
      var record := t.values[k];
      if k !in c.values {
        Request(AddCall(server, zone, record));
      } else if !RecordsEqual(record, c.values[k]) {
        Request(UpdateCall(server, zone, record, c.values[k]));
      } else {
        assert sent + [] == sent;
      }
    }

    /** The second loop of `update_server_records`, over the current dictionary. */
    method SendCurrentCalls(server: string, zone: string, t: Dict, c: Dict,
                            ghost base: seq<ClientCall>, ghost start: Changes, ghost sent: seq<ClientCall>)
      requires Valid() && WellFormed(c)
      requires calls == base + sent && changes == Recount(start, sent, rejected)
      modifies this
      ensures Valid()
      ensures calls == base + (sent + CurrentCalls(server, zone, t, c, c.order))
      ensures changes == Recount(start, sent + CurrentCalls(server, zone, t, c, c.order), rejected)
    {
      var j := 0;
      assert sent + CurrentCalls(server, zone, t, c, c.order[..0]) == sent;
      while j < |c.order|
        invariant 0 <= j <= |c.order|
        invariant Valid()
        invariant calls == base + (sent + CurrentCalls(server, zone, t, c, c.order[..j]))
        invariant changes == Recount(start, sent + CurrentCalls(server, zone, t, c, c.order[..j]), rejected)
      {
        SendCurrentNth(server, zone, t, c, j, base, start, sent);
        j := j + 1;
      }
      assert c.order[..j] == c.order;
    }

    /** Step `j` of the loop over the current keys. */
    method SendCurrentNth(server: string, zone: string, t: Dict, c: Dict, j: nat,
                          ghost base: seq<ClientCall>, ghost start: Changes, ghost sent: seq<ClientCall>)
      requires Valid() && WellFormed(c) && j < |c.order|
      requires calls == base + (sent + CurrentCalls(server, zone, t, c, c.order[..j]))
      requires changes == Recount(start, sent + CurrentCalls(server, zone, t, c, c.order[..j]), rejected)
      modifies this
      ensures Valid()
      ensures calls == base + (sent + CurrentCalls(server, zone, t, c, c.order[..j + 1]))
      ensures changes == Recount(start, sent + CurrentCalls(server, zone, t, c, c.order[..j + 1]), rejected)
    {
      CurrentCallsExtend(sent, server, zone, t, c, c.order, j);
      SendCurrentCall(server, zone, t, c, c.order[j], base, start, sent + CurrentCalls(server, zone, t, c, c.order[..j]));
    }

    /** One current key: `delete_record` when the target lacks it. */
    method SendCurrentCall(server: string, zone: string, t: Dict, c: Dict, k: Key,
                           ghost base: seq<ClientCall>, ghost start: Changes, ghost sent: seq<ClientCall>)
      requires Valid() && k in c.values
      requires calls == base + sent && changes == Recount(start, sent, rejected)
      modifies this
      ensures Valid()
      ensures calls == base + (sent + CurrentCall(server, zone, t, c, k))
      ensures changes == Recount(start, sent + CurrentCall(server, zone, t, c, k), rejected)
    {
      RecountAppend(start, sent, CurrentCall(server, zone, t, c, k), rejected);
      if k !in t.values {
        Request(DeleteCall(server, zone, c.values[k]));
      } else {
        assert sent + [] == sent;
      }
    }

    /** `ensure_reverse_zone_exists`; a failed zone listing makes no request. */
    method EnsureReverseZoneExists(server: string, zone: string)
      requires Valid() && server in servers
      modifies this
      ensures Valid()
      ensures calls == old(calls) + ZoneCalls(server, zone, zones)
      ensures changes == Recount(old(changes), ZoneCalls(server, zone, zones), rejected)
    {
      if server in zones && zone !in zones[server] {
        Request(AddZoneCall(server, zone));
      }
    }

    /** `get_all_records_for_zone`: every server's live records, the first of each key kept. */
    method GetAllRecordsForZone(zone: string) returns (result: seq<DnsRecord>)
      requires Valid()
      ensures result == AllRecords(db.rows, servers, zone)
    {
      var all := Dict([], map[]);
      var i := 0;
      assert servers[..0] == [];
      while i < |servers|
        invariant 0 <= i <= |servers|
        invariant all == FirstWins(Gathered(db.rows, servers[..i], zone), zone)
      {
        var records := db.GetRecords(servers[i], zone);
        all := KeepFirst(all, records, zone, Gathered(db.rows, servers[..i], zone));
        GatheredStep(db.rows, servers, zone, i);
        i := i + 1;
      }
      assert servers[..i] == servers;
      result := Values(all);
    }

    /** The servers loop of `propagate_changes`, the owner (if any) left out. */
    method FanOutZone(zone: string, target: seq<DnsRecord>, owner: Option<string>)
      requires Valid()
      modifies this
      ensures Valid()
      ensures calls == old(calls) + FanOut(servers, owner, zone, target, records, zones)
      ensures changes == Recount(old(changes), FanOut(servers, owner, zone, target, records, zones), rejected)
    {
      var i := 0;
      assert servers[..0] == [];
      while i < |servers|
        invariant 0 <= i <= |servers|
        invariant Valid()
        invariant calls == old(calls) + FanOut(servers[..i], owner, zone, target, records, zones)
        invariant changes == Recount(old(changes), FanOut(servers[..i], owner, zone, target, records, zones), rejected)
      {
        FanOutServer(zone, target, owner, i, old(calls), old(changes));
        i := i + 1;
      }
      assert servers[..i] == servers;
    }

    /** Step `i` of the servers loop: the owner is skipped, every other server is updated. */
    method FanOutServer(zone: string, target: seq<DnsRecord>, owner: Option<string>, i: nat,
                        ghost base: seq<ClientCall>, ghost start: Changes)
      requires Valid() && i < |servers|
      requires calls == base + FanOut(servers[..i], owner, zone, target, records, zones)
      requires changes == Recount(start, FanOut(servers[..i], owner, zone, target, records, zones), rejected)
      modifies this
      ensures Valid()
      ensures calls == base + FanOut(servers[..i + 1], owner, zone, target, records, zones)
      ensures changes == Recount(start, FanOut(servers[..i + 1], owner, zone, target, records, zones), rejected)
    {
      FanOutStep(servers, owner, zone, target, records, zones, i);
      if owner != Some(servers[i]) {
        UpdateServer(servers[i], zone, target, base, start, FanOut(servers[..i], owner, zone, target, records, zones));
      } else {
        assert FanOut(servers[..i], owner, zone, target, records, zones) + [] == FanOut(servers[..i], owner, zone, target, records, zones);
      }
    }

    /** One server of the servers loop: the reverse-zone check for a reverse zone, then `update_server_records`. */
    method UpdateServer(server: string, zone: string, target: seq<DnsRecord>,
                        ghost base: seq<ClientCall>, ghost start: Changes, ghost sent: seq<ClientCall>)
      requires Valid() && server in servers
      requires calls == base + sent && changes == Recount(start, sent, rejected)
      modifies this
      ensures Valid()
      ensures calls == base + (sent + ServerCalls(server, zone, target, records, zones))
      ensures changes == Recount(start, sent + ServerCalls(server, zone, target, records, zones), rejected)
    {
      ghost var z: seq<ClientCall> := ReverseCalls(server, zone, zones);
      ghost var u: seq<ClientCall> := RecordCalls(server, zone, target, records);
      RecountAppend(start, sent, z, rejected);
      RecountAppend(start, sent + z, u, rejected);
      CallsAssoc(sent, z, u);
      CallsAssoc(base, sent, z);
      CallsAssoc(base, sent + z, u);
      if IsReverseZone(zone) {
        EnsureReverseZoneExists(server, zone);
      } else {
        assert sent + z == sent;
      }
      UpdateServerRecords(server, zone, target);
    }

    /**
     * `propagate_changes`: for every zone of the shadow copy that is not
     * internal, the owner's records go to every other server; a zone without
     * owner gets the first-server-wins merge on every server.
     */
    method PropagateChanges()
      requires Valid()
      modifies this
      ensures Valid()
      ensures calls == old(calls) + Propagate(db.rows, db.owners, servers, DistinctZones(db.rows), records, zones)
      ensures changes == Recount(old(changes), Propagate(db.rows, db.owners, servers, DistinctZones(db.rows), records, zones), rejected)
    {
      var zoneList := db.GetAllZones();
      var i := 0;
      assert zoneList[..0] == [];
      while i < |zoneList|
        invariant 0 <= i <= |zoneList|
        invariant Valid()
        invariant calls == old(calls) + Propagate(db.rows, db.owners, servers, zoneList[..i], records, zones)
        invariant changes == Recount(old(changes), Propagate(db.rows, db.owners, servers, zoneList[..i], records, zones), rejected)
      {
        PropagateStep(db.rows, db.owners, servers, zoneList, records, zones, i);
        PropagateZone(zoneList[i], old(calls), old(changes), Propagate(db.rows, db.owners, servers, zoneList[..i], records, zones));
        i := i + 1;
      }
      assert zoneList[..i] == zoneList;
    }

    /** One zone of `propagate_changes`. */
    method PropagateZone(zone: string, ghost base: seq<ClientCall>, ghost start: Changes, ghost sent: seq<ClientCall>)
      requires Valid()
      requires calls == base + sent && changes == Recount(start, sent, rejected)
      modifies this
      ensures Valid()
      ensures calls == base + (sent + ZonePropagation(db.rows, db.owners, servers, zone, records, zones))
      ensures changes == Recount(start, sent + ZonePropagation(db.rows, db.owners, servers, zone, records, zones), rejected)
    {
      RecountAppend(start, sent, ZonePropagation(db.rows, db.owners, servers, zone, records, zones), rejected);
      CallsAssoc(base, sent, ZonePropagation(db.rows, db.owners, servers, zone, records, zones));
      if !IsInternalZone(zone) {
        var owner := db.GetZoneOwner(zone);
        if owner.Some? && owner.value != "" {
          assert OwnerOf(db.owners, zone) == owner;
          var ownerRecords := db.GetRecords(owner.value, zone);
          FanOutZone(zone, ownerRecords, owner);
        } else {
          assert OwnerOf(db.owners, zone) == None;
          var all := GetAllRecordsForZone(zone);
          FanOutZone(zone, all, None);
        }
      } else {
        assert sent + [] == sent;
      }
    }

    /** The reset at the end of `log_sync_summary` (the summary text itself is logging). */
    method LogSyncSummary()
      requires Valid()
      modifies this
      ensures Valid()
      ensures changes == ResetChanges(servers)
      ensures calls == old(calls)
    {
      changes := ResetChanges(servers);
    }
  }

  /** The inner loop of `get_all_records_for_zone`: a record is kept unless its type is excluded or its key is already there. */
  method KeepFirst(all: Dict, records: seq<DnsRecord>, zone: string, ghost front: seq<DnsRecord>) returns (r: Dict)
    requires all == FirstWins(front, zone)
    ensures r == FirstWins(front + records, zone)
  {
    r := all;
    ghost var seen := front;
    var j := 0;
    assert front + records[..0] == seen;
    while j < |records|
      invariant 0 <= j <= |records|
      invariant seen == front + records[..j]
      invariant r == FirstWins(seen, zone)
    {
      r := KeepRecord(r, records[j], zone, seen);
      PrefixSnoc(front, records, j);
      seen := seen + [records[j]];
      j := j + 1;
    }
    assert records[..j] == records;
  }

  /** One record of the inner loop: kept unless its type is excluded or its key is already there. */
  method KeepRecord(all: Dict, record: DnsRecord, zone: string, ghost seen: seq<DnsRecord>) returns (r: Dict)
    requires all == FirstWins(seen, zone)
    ensures r == FirstWins(seen + [record], zone)
  {
    FirstWinsSnoc(seen, record, zone);
    r := all;
    if !IsExcluded(record.rtype) {
      var key := RecordKey(record, zone);
      if key !in r.values {
        r := Insert(r, key, record);
      }
    }
  }

  /** One more record of the page extends the records seen. */
  lemma PrefixSnoc(front: seq<DnsRecord>, records: seq<DnsRecord>, j: nat)
    requires j < |records|
    ensures front + records[..j + 1] == (front + records[..j]) + [records[j]]
  {
    assert records[..j + 1] == records[..j] + [records[j]];
  }
}
