/**
 * What one reconciliation step does, as values: the change counters of
 * `track_change`, the row writes `process_records` makes to the shadow
 * copy, and the client calls `update_server_records` makes against a
 * server (technisync/sync_manager.py).
 */
module SyncPlan {
  import opened Wrappers
  import opened Models
  import opened SyncCore
  import opened Db

  // ---------------------------------------------------------------------
  // Change counters

  datatype ChangeType = AddChange | UpdateChange | DeleteChange

  /** `{'add': 0, 'update': 0, 'delete': 0}` and its later values. */
  datatype Counts = Counts(add: nat, update: nat, delete: nat)

  const ZeroCounts: Counts := Counts(0, 0, 0)

  /** `self.changes`: server name to zone name to counters. */
  type Changes = map<string, map<string, Counts>>

  function Bump(c: Counts, t: ChangeType): Counts {
    match t
    case AddChange => c.(add := c.add + 1)
    case UpdateChange => c.(update := c.update + 1)
    case DeleteChange => c.(delete := c.delete + 1)
  }

  /** `track_change`; the server must already have an entry (`self.changes[server_name]`). */
  function Track(changes: Changes, server: string, zone: string, t: ChangeType): Changes
    requires server in changes
  {
    var zones := changes[server];
    var before := if zone in zones then zones[zone] else ZeroCounts;
    changes[server := zones[zone := Bump(before, t)]]
  }

  /** The counter of one kind for one server and zone, 0 when there is no entry. */
  function Count(changes: Changes, server: string, zone: string, t: ChangeType): nat {
    if server in changes && zone in changes[server] then
      var c := changes[server][zone];
      match t
      case AddChange => c.add
      case UpdateChange => c.update
      case DeleteChange => c.delete
    else 0
  }

  /**
   * `track_change` increments exactly the named counter of the named server
   * and zone by one, creating the zone's entry (all other counters 0) when
   * it is new, and changes nothing else.
   */
  lemma TrackSpec(changes: Changes, server: string, zone: string, t: ChangeType, s: string, z: string, u: ChangeType)
    requires server in changes
    ensures Track(changes, server, zone, t).Keys == changes.Keys
    ensures Track(changes, server, zone, t)[server].Keys == changes[server].Keys + {zone}
    ensures s != server ==> s in changes ==> Track(changes, server, zone, t)[s] == changes[s]
    ensures Count(Track(changes, server, zone, t), s, z, u) ==
      Count(changes, s, z, u) + (if s == server && z == zone && u == t then 1 else 0)
  {
  }

  /** Several counts for one server and zone at once; no entry is created when all three are 0. */
  function AddCounts(changes: Changes, server: string, zone: string, a: nat, u: nat, d: nat): Changes
    requires server in changes
  {
    if a + u + d == 0 then changes
    else
      var zones := changes[server];
      var before := if zone in zones then zones[zone] else ZeroCounts;
      changes[server := zones[zone := Counts(before.add + a, before.update + u, before.delete + d)]]
  }

  /** One more tracked change is one more count of that kind. */
  lemma TrackAddCounts(changes: Changes, server: string, zone: string, a: nat, u: nat, d: nat, t: ChangeType)
    requires server in changes
    ensures server in AddCounts(changes, server, zone, a, u, d)
    ensures Track(AddCounts(changes, server, zone, a, u, d), server, zone, t) ==
      AddCounts(changes, server, zone,
        a + (if t == AddChange then 1 else 0),
        u + (if t == UpdateChange then 1 else 0),
        d + (if t == DeleteChange then 1 else 0))
  {
    var zones := changes[server];
    var before := if zone in zones then zones[zone] else ZeroCounts;
    var c := Counts(before.add + a, before.update + u, before.delete + d);
    if a + u + d != 0 {
      TrackOver(changes, server, zone, c, t);
    }
    match t
    case AddChange => assert Bump(c, t) == Counts(before.add + (a + 1), before.update + u, before.delete + d);
    case UpdateChange => assert Bump(c, t) == Counts(before.add + a, before.update + (u + 1), before.delete + d);
    case DeleteChange => assert Bump(c, t) == Counts(before.add + a, before.update + u, before.delete + (d + 1));
  }

  /** Tracking on top of a fresh entry `c` bumps `c`. */
  lemma TrackOver(changes: Changes, server: string, zone: string, c: Counts, t: ChangeType)
    requires server in changes
    ensures Track(changes[server := changes[server][zone := c]], server, zone, t) == changes[server := changes[server][zone := Bump(c, t)]]
  {
    var mid := changes[server := changes[server][zone := c]];
    assert mid[server][zone := Bump(c, t)] == changes[server][zone := Bump(c, t)];
  }

  /** Counting in two steps is counting the sums. */
  lemma AddCountsTwice(changes: Changes, server: string, zone: string, a: nat, u: nat, d: nat, a2: nat, u2: nat, d2: nat)
    requires server in changes
    ensures server in AddCounts(changes, server, zone, a, u, d)
    ensures AddCounts(AddCounts(changes, server, zone, a, u, d), server, zone, a2, u2, d2) ==
      AddCounts(changes, server, zone, a + a2, u + u2, d + d2)
  {
    var zones := changes[server];
    var before := if zone in zones then zones[zone] else ZeroCounts;
    if a + u + d != 0 && a2 + u2 + d2 != 0 {
      var c := Counts(before.add + a, before.update + u, before.delete + d);
      var mid := AddCounts(changes, server, zone, a, u, d);
      assert mid[server] == zones[zone := c];
      assert mid[server][zone := Counts(c.add + a2, c.update + u2, c.delete + d2)] ==
        zones[zone := Counts(before.add + a + a2, before.update + u + u2, before.delete + d + d2)];
    }
  }

  /** The counts of `process_records`: the first loop's adds and updates, then the second loop's deletes. */
  lemma AddCountsSplit(changes: Changes, server: string, zone: string, a: nat, u: nat, d: nat)
    requires server in changes
    ensures server in AddCounts(changes, server, zone, a, u, 0)
    ensures AddCounts(AddCounts(changes, server, zone, a, u, 0), server, zone, 0, 0, d) == AddCounts(changes, server, zone, a, u, d)
  {
    AddCountsTwice(changes, server, zone, a, u, 0, 0, 0, d);
  }

  lemma AddCountsCount(changes: Changes, server: string, zone: string, a: nat, u: nat, d: nat, s: string, z: string)
    requires server in changes
    ensures AddCounts(changes, server, zone, a, u, d).Keys == changes.Keys
    ensures Count(AddCounts(changes, server, zone, a, u, d), s, z, AddChange) ==
      Count(changes, s, z, AddChange) + (if s == server && z == zone then a else 0)
    ensures Count(AddCounts(changes, server, zone, a, u, d), s, z, UpdateChange) ==
      Count(changes, s, z, UpdateChange) + (if s == server && z == zone then u else 0)
    ensures Count(AddCounts(changes, server, zone, a, u, d), s, z, DeleteChange) ==
      Count(changes, s, z, DeleteChange) + (if s == server && z == zone then d else 0)
  {
  }

  /** The reset at the end of `log_sync_summary`: one empty entry per configured server. */
  function ResetChanges(servers: seq<string>): (changes: Changes)
    ensures changes.Keys == set s | s in servers
    ensures forall s, z, t :: Count(changes, s, z, t) == 0
  {
    map s | s in servers :: map[]
  }

  // ---------------------------------------------------------------------
  // The diff

  /** Remote keys missing locally, in remote order: each is one `add_record`. */
  function AddKeys(remote: Dict, local: Dict, keys: seq<Key>): (r: seq<Key>)
    ensures |r| <= |keys|
  {
    if keys == [] then []
    else
      var k := keys[|keys| - 1];
      AddKeys(remote, local, keys[..|keys| - 1]) + (if k !in local.values then [k] else [])
  }

  /** Keys on both sides whose records `records_equal` tells apart: each is one update. */
  function UpdateKeys(remote: Dict, local: Dict, keys: seq<Key>): (r: seq<Key>)
    requires forall k :: k in keys ==> k in remote.values
    ensures forall k :: k in r ==> k in remote.values && k in local.values
    ensures |r| <= |keys|
  {
    if keys == [] then []
    else
      var k := keys[|keys| - 1];
      UpdateKeys(remote, local, keys[..|keys| - 1])
        + (if k in local.values && !RecordsEqual(remote.values[k], local.values[k]) then [k] else [])
  }

  /** The adds are exactly the listed keys missing locally. */
  lemma {:induction false} AddKeysMembers(remote: Dict, local: Dict, keys: seq<Key>)
    ensures forall k :: k in AddKeys(remote, local, keys) <==> k in keys && k !in local.values
    decreases |keys|
  {
    if keys != [] {
      AddKeysMembers(remote, local, keys[..|keys| - 1]);
      assert keys == keys[..|keys| - 1] + [keys[|keys| - 1]];
    }
  }

  /** The updates are exactly the listed keys present locally with a record `records_equal` tells apart. */
  lemma {:induction false} UpdateKeysMembers(remote: Dict, local: Dict, keys: seq<Key>)
    requires forall k :: k in keys ==> k in remote.values
    ensures forall k :: k in UpdateKeys(remote, local, keys) <==>
      k in keys && k in local.values && !RecordsEqual(remote.values[k], local.values[k])
    decreases |keys|
  {
    if keys != [] {
      UpdateKeysMembers(remote, local, keys[..|keys| - 1]);
      assert keys == keys[..|keys| - 1] + [keys[|keys| - 1]];
    }
  }

  lemma {:induction false} AddKeysDistinct(remote: Dict, local: Dict, keys: seq<Key>)
    requires forall i, j :: 0 <= i < j < |keys| ==> keys[i] != keys[j]
    ensures forall i, j :: 0 <= i < j < |AddKeys(remote, local, keys)| ==> AddKeys(remote, local, keys)[i] != AddKeys(remote, local, keys)[j]
    decreases |keys|
  {
    if keys != [] {
      var init := keys[..|keys| - 1];
      var k := keys[|keys| - 1];
      forall i, j | 0 <= i < j < |init| ensures init[i] != init[j] {
        assert init[i] == keys[i] && init[j] == keys[j];
      }
      AddKeysDistinct(remote, local, init);
      AddKeysMembers(remote, local, init);
      assert k !in init by {
        forall i | 0 <= i < |init| ensures init[i] != k {
          assert init[i] == keys[i];
        }
      }
      var front := AddKeys(remote, local, init);
      var r := AddKeys(remote, local, keys);
      if k !in local.values {
        assert r == front + [k];
        forall i, j | 0 <= i < j < |r| ensures r[i] != r[j] {
          assert r[i] == front[i];
          if j < |front| {
            assert r[j] == front[j];
          } else {
            assert front[i] in front;
            assert front[i] in init;
          }
        }
      } else {
        assert r == front;
      }
    }
  }

  /** One more key adds its own add and update counts. */
  lemma DiffStep(remote: Dict, local: Dict, keys: seq<Key>, n: nat)
    requires n < |keys| && forall k :: k in keys ==> k in remote.values
    ensures |AddKeys(remote, local, keys[..n + 1])| == |AddKeys(remote, local, keys[..n])| + AddsFor(local, keys[n])
    ensures |UpdateKeys(remote, local, keys[..n + 1])| == |UpdateKeys(remote, local, keys[..n])| + UpdatesFor(remote, local, keys[n])
  {
    var p := keys[..n + 1];
    assert p[..|p| - 1] == keys[..n] && p[|p| - 1] == keys[n];
    AddStep(remote, local, p);
    UpdateStep(remote, local, p);
  }

  lemma AddStep(remote: Dict, local: Dict, p: seq<Key>)
    requires p != []
    ensures |AddKeys(remote, local, p)| == |AddKeys(remote, local, p[..|p| - 1])| + AddsFor(local, p[|p| - 1])
  {
  }

  lemma UpdateStep(remote: Dict, local: Dict, p: seq<Key>)
    requires p != [] && forall k :: k in p ==> k in remote.values
    ensures forall k :: k in p[..|p| - 1] ==> k in remote.values
    ensures |UpdateKeys(remote, local, p)| == |UpdateKeys(remote, local, p[..|p| - 1])| + UpdatesFor(remote, local, p[|p| - 1])
  {
    assert forall k :: k in p[..|p| - 1] ==> k in p;
  }

  /** The counters after one more key of the first loop. */
  lemma CountStep(changes: Changes, server: string, zone: string, remote: Dict, local: Dict, keys: seq<Key>, n: nat)
    requires server in changes
    requires n < |keys| && forall k :: k in keys ==> k in remote.values
    ensures forall k :: k in keys[..n] ==> k in remote.values
    ensures server in AddCounts(changes, server, zone, |AddKeys(remote, local, keys[..n])|, |UpdateKeys(remote, local, keys[..n])|, 0)
    ensures AddCounts(AddCounts(changes, server, zone, |AddKeys(remote, local, keys[..n])|, |UpdateKeys(remote, local, keys[..n])|, 0),
        server, zone, AddsFor(local, keys[n]), UpdatesFor(remote, local, keys[n]), 0) ==
      AddCounts(changes, server, zone, |AddKeys(remote, local, keys[..n + 1])|, |UpdateKeys(remote, local, keys[..n + 1])|, 0)
  {
    assert forall k :: k in keys[..n] ==> k in keys;
    DiffStep(remote, local, keys, n);
    var a0, u0 := |AddKeys(remote, local, keys[..n])|, |UpdateKeys(remote, local, keys[..n])|;
    var a1, u1 := AddsFor(local, keys[n]), UpdatesFor(remote, local, keys[n]);
    AddCountsTwice(changes, server, zone, a0, u0, 0, a1, u1, 0);
    assert a0 + a1 == |AddKeys(remote, local, keys[..n + 1])| && u0 + u1 == |UpdateKeys(remote, local, keys[..n + 1])|;
  }

  /** One add per remote key missing locally: as many adds as keys in the difference. */
  lemma AddKeysCard(remote: Dict, local: Dict)
    requires WellFormed(remote)
    ensures |AddKeys(remote, local, remote.order)| == |remote.values.Keys - local.values.Keys|
  {
    AddKeysDistinct(remote, local, remote.order);
    AddKeysMembers(remote, local, remote.order);
    DistinctCard(AddKeys(remote, local, remote.order), remote.values.Keys - local.values.Keys);
  }

  /** `set(local_dict.keys()) - set(remote_dict.keys())`. */
  function DeleteKeys(remote: Dict, local: Dict): set<Key> {
    local.values.Keys - remote.values.Keys
  }

  /** Because the key holds the type and the rData, an update only ever follows a change of ttl or of name spelling. */
  lemma UpdateKeysDiffer(remote: seq<DnsRecord>, local: seq<DnsRecord>, zone: string, k: Key)
    requires k in UpdateKeys(Keyed(remote, zone), Keyed(local, zone), Keyed(remote, zone).order)
    ensures var r := Keyed(remote, zone).values[k];
      var l := Keyed(local, zone).values[k];
      r.rtype == l.rtype && r.rdata == l.rdata && (r.ttl != l.ttl || r.name != l.name)
  {
    UpdateKeysMembers(Keyed(remote, zone), Keyed(local, zone), Keyed(remote, zone).order);
    SameKeyDiffers(Keyed(remote, zone).values[k], Keyed(local, zone).values[k], zone);
  }

  // ---------------------------------------------------------------------
  // process_records on the shadow copy, as written

  /** The body of the first loop of `process_records` for one remote key. */
  function ApplyKey(rows: seq<Row>, server: string, zone: string, remote: Dict, local: Dict, k: Key, now: Clock): seq<Row>
    requires k in remote.values
  {
    if k !in local.values then rows + [NewRow(server, zone, remote.values[k], now)]
    else if !RecordsEqual(remote.values[k], local.values[k]) then UpdateRows(rows, server, zone, remote.values[k], now)
    else rows
  }

  /** The first loop of `process_records`: add or update, key by key, in remote order. */
  function ApplyRemote(rows: seq<Row>, server: string, zone: string, remote: Dict, local: Dict, keys: seq<Key>, now: Clock): seq<Row>
    requires forall k :: k in keys ==> k in remote.values
  {
    if keys == [] then rows
    else ApplyKey(ApplyRemote(rows, server, zone, remote, local, keys[..|keys| - 1], now), server, zone, remote, local, keys[|keys| - 1], now)
  }

  /** The adds and updates one remote key is counted for: 1 or 0 each. */
  function AddsFor(local: Dict, k: Key): nat {
    if k !in local.values then 1 else 0
  }

  function UpdatesFor(remote: Dict, local: Dict, k: Key): nat
    requires k in remote.values
  {
    if k in local.values && !RecordsEqual(remote.values[k], local.values[k]) then 1 else 0
  }

  /** The first loop after one more key: `ApplyRemote` on a prefix one longer. */
  lemma ApplyRemoteStep(rows: seq<Row>, server: string, zone: string, remote: Dict, local: Dict, keys: seq<Key>, n: nat, now: Clock)
    requires n < |keys| && forall k :: k in keys ==> k in remote.values
    ensures forall k :: k in keys[..n] ==> k in remote.values
    ensures ApplyRemote(rows, server, zone, remote, local, keys[..n + 1], now) ==
      ApplyKey(ApplyRemote(rows, server, zone, remote, local, keys[..n], now), server, zone, remote, local, keys[n], now)
  {
    assert keys[..n + 1][..n] == keys[..n];
  }

  /** The second loop: `delete_record` for each listed name and type, in any order, all at one clock reading. */
  function StampDeleted(rows: seq<Row>, server: string, zone: string, pairs: set<(string, string)>, now: Clock): (r: seq<Row>)
    ensures |r| == |rows|
    ensures forall i :: 0 <= i < |rows| ==>
      r[i] == if LiveIn(rows[i], server, zone) && (rows[i].name, rows[i].rtype) in pairs
        then rows[i].(deletedAt := Some(now)) else rows[i]
  {
    seq(|rows|, i requires 0 <= i < |rows| =>
      if LiveIn(rows[i], server, zone) && (rows[i].name, rows[i].rtype) in pairs
      then rows[i].(deletedAt := Some(now)) else rows[i])
  }

  /** The name and type `delete_record` receives for each deleted key. */
  function DeletedPairs(local: Dict, keys: set<Key>): set<(string, string)>
    requires keys <= local.values.Keys
  {
    set k | k in keys :: (local.values[k].name, local.values[k].rtype)
  }

  /** Before the second loop nothing is stamped and nothing is counted. */
  lemma DeleteStart(rows: seq<Row>, server: string, zone: string, local: Dict, none: set<Key>, now: Clock, changes: Changes)
    requires server in changes && none == {}
    ensures StampDeleted(rows, server, zone, DeletedPairs(local, none), now) == rows
    ensures AddCounts(changes, server, zone, 0, 0, |none|) == changes
  {
    assert DeletedPairs(local, none) == {};
    StampNothing(rows, server, zone, now);
  }

  /** Moving one key from the pending set to the done set keeps them a disjoint split of the keys to delete. */
  lemma TakeOne(pending: set<Key>, done: set<Key>, all: set<Key>, k: Key)
    requires k in pending && pending + done == all && pending !! done
    ensures k !in done && done <= all
    ensures (pending - {k}) + (done + {k}) == all && (pending - {k}) !! (done + {k})
    ensures |pending - {k}| < |pending| && |done + {k}| == |done| + 1
  {
  }

  /** The second loop after one more deleted key: one more stamped pair and one more delete count. */
  lemma DeleteStep(rows: seq<Row>, server: string, zone: string, local: Dict, done: set<Key>, k: Key, now: Clock, changes: Changes)
    requires done <= local.values.Keys && k in local.values && k !in done && server in changes
    ensures server in AddCounts(changes, server, zone, 0, 0, |done|)
    ensures DeleteRows(StampDeleted(rows, server, zone, DeletedPairs(local, done), now), server, zone, local.values[k].name, local.values[k].rtype, now) ==
      StampDeleted(rows, server, zone, DeletedPairs(local, done + {k}), now)
    ensures Track(AddCounts(changes, server, zone, 0, 0, |done|), server, zone, DeleteChange) == AddCounts(changes, server, zone, 0, 0, |done + {k}|)
  {
    var r := local.values[k];
    StampOneMore(rows, server, zone, DeletedPairs(local, done), r.name, r.rtype, now);
    assert DeletedPairs(local, done + {k}) == DeletedPairs(local, done) + {(r.name, r.rtype)};
    TrackAddCounts(changes, server, zone, 0, 0, |done|, DeleteChange);
  }

  /** The rows after `process_records(server, zone, remote, local)`. */
  function ProcessRows(rows: seq<Row>, server: string, zone: string, remote: seq<DnsRecord>, local: seq<DnsRecord>, now: Clock): seq<Row> {
    var r := Keyed(remote, zone);
    var l := Keyed(local, zone);
    StampDeleted(ApplyRemote(rows, server, zone, r, l, r.order, now), server, zone, DeletedPairs(l, DeleteKeys(r, l)), now)
  }

  /** Nothing listed, nothing stamped. */
  lemma StampNothing(rows: seq<Row>, server: string, zone: string, now: Clock)
    ensures StampDeleted(rows, server, zone, {}, now) == rows
  {
  }

  /** One more `delete_record` is one more pair in the stamped set, whatever the order. */
  lemma StampOneMore(rows: seq<Row>, server: string, zone: string, pairs: set<(string, string)>, name: string, rtype: string, now: Clock)
    ensures DeleteRows(StampDeleted(rows, server, zone, pairs, now), server, zone, name, rtype, now) ==
      StampDeleted(rows, server, zone, pairs + {(name, rtype)}, now)
  {
  }

  /** The first loop only appends rows and edits rows in place; it never drops one. */
  lemma {:induction false} ApplyRemoteShape(rows: seq<Row>, server: string, zone: string, remote: Dict, local: Dict, keys: seq<Key>, now: Clock)
    requires forall k :: k in keys ==> k in remote.values
    ensures var r := ApplyRemote(rows, server, zone, remote, local, keys, now);
      && |r| == |rows| + |AddKeys(remote, local, keys)|
      && (forall i :: 0 <= i < |rows| && !(rows[i].server == server && rows[i].zone == zone) ==> r[i] == rows[i])
      && (forall i :: |rows| <= i < |r| ==> r[i].server == server && r[i].zone == zone)
    decreases |keys|
  {
    if keys != [] {
      ApplyRemoteShape(rows, server, zone, remote, local, keys[..|keys| - 1], now);
    }
  }

  /**
   * `process_records` inserts exactly one row per remote key missing locally
   * and never touches the rows of another server or zone.
   */
  lemma ProcessRowsShape(rows: seq<Row>, server: string, zone: string, remote: seq<DnsRecord>, local: seq<DnsRecord>, now: Clock)
    ensures var r := ProcessRows(rows, server, zone, remote, local, now);
      var rd := Keyed(remote, zone);
      var ld := Keyed(local, zone);
      && |r| == |rows| + |AddKeys(rd, ld, rd.order)|
      && (forall i :: 0 <= i < |rows| && !(rows[i].server == server && rows[i].zone == zone) ==> r[i] == rows[i])
      && (forall i :: |rows| <= i < |r| ==> r[i].server == server && r[i].zone == zone)
  {
    var rd := Keyed(remote, zone);
    var ld := Keyed(local, zone);
    ApplyRemoteShape(rows, server, zone, rd, ld, rd.order, now);
  }

  /** With the same records on both sides (key by key), `process_records` writes nothing. */
  lemma {:induction false} ApplyRemoteUnchanged(rows: seq<Row>, server: string, zone: string, remote: Dict, local: Dict, keys: seq<Key>, now: Clock)
    requires forall k :: k in keys ==> k in remote.values && k in local.values && remote.values[k] == local.values[k]
    ensures ApplyRemote(rows, server, zone, remote, local, keys, now) == rows
    decreases |keys|
  {
    if keys != [] {
      ApplyRemoteUnchanged(rows, server, zone, remote, local, keys[..|keys| - 1], now);
    }
  }

  lemma ProcessRowsUnchanged(rows: seq<Row>, server: string, zone: string, remote: seq<DnsRecord>, local: seq<DnsRecord>, now: Clock)
    requires Keyed(remote, zone).values == Keyed(local, zone).values
    ensures ProcessRows(rows, server, zone, remote, local, now) == rows
  {
    var rd := Keyed(remote, zone);
    var ld := Keyed(local, zone);
    ApplyRemoteUnchanged(rows, server, zone, rd, ld, rd.order, now);
    assert DeleteKeys(rd, ld) == {};
  }

  /**
   * A new rData for an existing name and type: the new record is added and
   * the old one deleted, but `delete_record` matches on name and type only,
   * so it stamps the new row as well and the shadow copy ends up without
   * the record the server has.
   */
  lemma ChangedRDataLosesRecord(server: string, zone: string, name: string, rtype: string, ttl: int, before: RData, after: RData, created: Clock, now: Clock)
    requires !IsExcluded(rtype) && before != after
    ensures var rows := [Row(server, zone, name, rtype, ttl, before, created, created, None)];
      var remote := [DnsRecord(name, rtype, ttl, after)];
      && Select(rows, server, zone) == [DnsRecord(name, rtype, ttl, before)]
      && Select(ProcessRows(rows, server, zone, remote, Select(rows, server, zone), now), server, zone) == []
      && KeysOf(Select(ProcessRows(rows, server, zone, remote, Select(rows, server, zone), now), server, zone), zone) !=
         KeysOf(remote, zone)
  {
    var rows := [Row(server, zone, name, rtype, ttl, before, created, created, None)];
    var remote := [DnsRecord(name, rtype, ttl, after)];
    var local := Select(rows, server, zone);
    assert rows[..0] == [];
    assert local == [DnsRecord(name, rtype, ttl, before)];
    var rd := Keyed(remote, zone);
    var ld := Keyed(local, zone);
    assert remote[..0] == [] && local[..0] == [];
    assert Keyed(remote[..0], zone) == Dict([], map[]);
    assert Keyed(local[..0], zone) == Dict([], map[]);
    var kn := RecordKey(remote[0], zone);
    var ko := RecordKey(local[0], zone);
    assert kn != ko;
    assert rd.order == [kn] && rd.values == map[kn := remote[0]];
    assert ld.values == map[ko := local[0]];
    var applied := ApplyRemote(rows, server, zone, rd, ld, rd.order, now);
    assert rd.order[..0] == [];
    assert ApplyRemote(rows, server, zone, rd, ld, rd.order[..0], now) == rows;
    assert applied == rows + [NewRow(server, zone, remote[0], now)];
    assert DeleteKeys(rd, ld) == {ko};
    assert DeletedPairs(ld, {ko}) == {(name, rtype)};
    var result := ProcessRows(rows, server, zone, remote, local, now);
    assert !LiveIn(result[0], server, zone) && !LiveIn(result[1], server, zone);
    NoLiveRows(result, server, zone);
    assert Considered(remote, 0);
    assert kn in KeysOf(remote, zone);
  }

  /**
   * Two records of one name and type, and a new ttl for the first: the
   * update matches on name and type only, so it also overwrites the second
   * record's rData, and the shadow copy ends up without the second record.
   */
  lemma ChangedTtlOverwritesSibling(server: string, zone: string, name: string, rtype: string, ttl: int, ttl2: int, d1: RData, d2: RData, created: Clock, now: Clock)
    requires !IsExcluded(rtype) && d1 != d2 && ttl != ttl2
    ensures var rows := [Row(server, zone, name, rtype, ttl, d1, created, created, None), Row(server, zone, name, rtype, ttl, d2, created, created, None)];
      var remote := [DnsRecord(name, rtype, ttl2, d1), DnsRecord(name, rtype, ttl, d2)];
      && Select(rows, server, zone) == [DnsRecord(name, rtype, ttl, d1), DnsRecord(name, rtype, ttl, d2)]
      && Select(ProcessRows(rows, server, zone, remote, Select(rows, server, zone), now), server, zone) ==
         [DnsRecord(name, rtype, ttl2, d1), DnsRecord(name, rtype, ttl2, d1)]
      && KeysOf(Select(ProcessRows(rows, server, zone, remote, Select(rows, server, zone), now), server, zone), zone) !=
         KeysOf(remote, zone)
  {
    var rows := [Row(server, zone, name, rtype, ttl, d1, created, created, None), Row(server, zone, name, rtype, ttl, d2, created, created, None)];
    var remote := [DnsRecord(name, rtype, ttl2, d1), DnsRecord(name, rtype, ttl, d2)];
    SelectPair(rows[0], rows[1], server, zone);
    var local := Select(rows, server, zone);
    SiblingRows(rows, remote, local, server, zone, now);
    SiblingOverwritten(rows, remote[0], server, zone, now);
    KeysOfPair(remote[0], remote[0], zone);
    KeysOfPair(remote[0], remote[1], zone);
    assert RecordKey(remote[0], zone) != RecordKey(remote[1], zone);
  }

  /** An update whose name and type match both of two live rows gives both its ttl and rData. */
  lemma SiblingOverwritten(rows: seq<Row>, record: DnsRecord, server: string, zone: string, now: Clock)
    requires |rows| == 2
    requires Matches(rows[0], server, zone, record.name, record.rtype) && Matches(rows[1], server, zone, record.name, record.rtype)
    ensures Select(UpdateRows(rows, server, zone, record, now), server, zone) == [record, record]
  {
    var updated := UpdateRows(rows, server, zone, record, now);
    assert updated == [updated[0], updated[1]];
    SelectPair(updated[0], updated[1], server, zone);
  }

  /** The keys of two considered records. */
  lemma KeysOfPair(x: DnsRecord, y: DnsRecord, zone: string)
    requires !IsExcluded(x.rtype) && !IsExcluded(y.rtype)
    ensures KeysOf([x, y], zone) == {RecordKey(x, zone), RecordKey(y, zone)}
  {
    assert Considered([x, y], 0) && Considered([x, y], 1);
  }

  /** In the sibling example `process_records` makes exactly one write: the update for the first record. */
  lemma SiblingRows(rows: seq<Row>, remote: seq<DnsRecord>, local: seq<DnsRecord>, server: string, zone: string, now: Clock)
    requires |remote| == 2 && |local| == 2
    requires !IsExcluded(remote[0].rtype) && !IsExcluded(remote[1].rtype)
    requires remote[0].rdata != remote[1].rdata && remote[0].ttl != local[0].ttl
    requires local[1] == remote[1]
    requires local[0] == remote[0].(ttl := local[0].ttl)
    ensures ProcessRows(rows, server, zone, remote, local, now) == UpdateRows(rows, server, zone, remote[0], now)
  {
    assert remote == [remote[0], remote[1]] && local == [local[0], local[1]];
    KeyedPair(remote[0], remote[1], zone);
    KeyedPair(local[0], local[1], zone);
    var rd := Keyed(remote, zone);
    var ld := Keyed(local, zone);
    var updated := UpdateRows(rows, server, zone, remote[0], now);
    FirstKeyUpdates(rows, server, zone, rd, ld, now);
    assert DeleteKeys(rd, ld) == {};
    assert DeletedPairs(ld, {}) == {};
    StampNothing(updated, server, zone, now);
  }

  /** `get_records` on two live rows. */
  lemma SelectPair(a: Row, b: Row, server: string, zone: string)
    requires LiveIn(a, server, zone) && LiveIn(b, server, zone)
    ensures Select([a, b], server, zone) == [Project(a), Project(b)]
  {
    assert [a, b][..1] == [a] && [a][..0] == [];
  }

  /** The dictionary of two considered records with different keys. */
  lemma KeyedPair(x: DnsRecord, y: DnsRecord, zone: string)
    requires !IsExcluded(x.rtype) && !IsExcluded(y.rtype) && RecordKey(x, zone) != RecordKey(y, zone)
    ensures Keyed([x, y], zone).order == [RecordKey(x, zone), RecordKey(y, zone)]
    ensures Keyed([x, y], zone).values == map[RecordKey(x, zone) := x, RecordKey(y, zone) := y]
  {
    assert [x, y][..1] == [x] && [x][..0] == [];
    assert Keyed([], zone) == Dict([], map[]);
    assert Keyed([x], zone) == Dict([RecordKey(x, zone)], map[RecordKey(x, zone) := x]);
  }

  /** The first loop of the sibling example: the first key is updated, the second is equal. */
  lemma FirstKeyUpdates(rows: seq<Row>, server: string, zone: string, rd: Dict, ld: Dict, now: Clock)
    requires |rd.order| == 2 && forall k :: k in rd.order ==> k in rd.values
    requires rd.order[0] in ld.values && !RecordsEqual(rd.values[rd.order[0]], ld.values[rd.order[0]])
    requires rd.order[1] in ld.values && rd.values[rd.order[1]] == ld.values[rd.order[1]]
    ensures ApplyRemote(rows, server, zone, rd, ld, rd.order, now) == UpdateRows(rows, server, zone, rd.values[rd.order[0]], now)
  {
    var k1 := rd.order[0];
    var k2 := rd.order[1];
    assert rd.order[..1] == [k1] && rd.order[..1][..0] == [] && rd.order[..2] == rd.order;
    var first := UpdateRows(rows, server, zone, rd.values[k1], now);
    assert ApplyRemote(rows, server, zone, rd, ld, rd.order[..1][..0], now) == rows;
    assert ApplyRemote(rows, server, zone, rd, ld, rd.order[..1], now) == first;
    assert RecordsEqual(rd.values[k2], ld.values[k2]);
    assert ApplyKey(first, server, zone, rd, ld, k2, now) == first;
  }

  lemma {:induction false} NoLiveRows(rows: seq<Row>, server: string, zone: string)
    requires forall i :: 0 <= i < |rows| ==> !LiveIn(rows[i], server, zone)
    ensures Select(rows, server, zone) == []
    decreases |rows|
  {
    if rows != [] {
      NoLiveRows(rows[..|rows| - 1], server, zone);
    }
  }

  // ---------------------------------------------------------------------
  // process_records with updates and deletes by key

  /** The keys of the live, non-excluded rows of one server and zone. */
  function LiveKeys(rows: seq<Row>, server: string, zone: string): set<Key> {
    set i | 0 <= i < |rows| && LiveIn(rows[i], server, zone) && !IsExcluded(rows[i].rtype) :: RecordKey(Project(rows[i]), zone)
  }

  /** The keys `get_records` yields are the keys of the live rows. */
  lemma {:induction false} SelectKeys(rows: seq<Row>, server: string, zone: string)
    ensures KeysOf(Select(rows, server, zone), zone) == LiveKeys(rows, server, zone)
    decreases |rows|
  {
    if rows != [] {
      var init := rows[..|rows| - 1];
      var last := rows[|rows| - 1];
      SelectKeys(init, server, zone);
      var front := Select(init, server, zone);
      forall i | 0 <= i < |init| ensures init[i] == rows[i] { }
      assert LiveKeys(rows, server, zone) == LiveKeys(init, server, zone) +
        (if LiveIn(last, server, zone) && !IsExcluded(last.rtype) then {RecordKey(Project(last), zone)} else {});
      if LiveIn(last, server, zone) {
        var all := front + [Project(last)];
        assert all[..|all| - 1] == front;
        KeysOfSnoc(all, zone);
      } else {
        assert front + [] == front;
      }
    }
  }

  /** A row whose key is `k` in the zone. */
  predicate HasKey(row: Row, server: string, zone: string, k: Key) {
    LiveIn(row, server, zone) && RecordKey(Project(row), zone) == k
  }

  /** An update that touches only the rows with that record's key. */
  function UpdateRowsByKey(rows: seq<Row>, server: string, zone: string, k: Key, record: DnsRecord, now: Clock): (r: seq<Row>)
    ensures |r| == |rows|
    ensures forall i :: 0 <= i < |rows| ==>
      r[i] == if HasKey(rows[i], server, zone, k) then rows[i].(ttl := record.ttl, rdata := record.rdata, updatedAt := now) else rows[i]
  {
    seq(|rows|, i requires 0 <= i < |rows| =>
      if HasKey(rows[i], server, zone, k) then rows[i].(ttl := record.ttl, rdata := record.rdata, updatedAt := now) else rows[i])
  }

  /** A delete that stamps exactly the rows whose key is listed. */
  function StampKeys(rows: seq<Row>, server: string, zone: string, keys: set<Key>, now: Clock): (r: seq<Row>)
    ensures |r| == |rows|
    ensures forall i :: 0 <= i < |rows| ==>
      r[i] == if LiveIn(rows[i], server, zone) && RecordKey(Project(rows[i]), zone) in keys then rows[i].(deletedAt := Some(now)) else rows[i]
  {
    seq(|rows|, i requires 0 <= i < |rows| =>
      if LiveIn(rows[i], server, zone) && RecordKey(Project(rows[i]), zone) in keys then rows[i].(deletedAt := Some(now)) else rows[i])
  }

  function ApplyRemoteByKey(rows: seq<Row>, server: string, zone: string, remote: Dict, local: Dict, keys: seq<Key>, now: Clock): seq<Row>
    requires forall k :: k in keys ==> k in remote.values
  {
    if keys == [] then rows
    else
      var before := ApplyRemoteByKey(rows, server, zone, remote, local, keys[..|keys| - 1], now);
      var k := keys[|keys| - 1];
      if k !in local.values then before + [NewRow(server, zone, remote.values[k], now)]
      else if !RecordsEqual(remote.values[k], local.values[k]) then UpdateRowsByKey(before, server, zone, k, remote.values[k], now)
      else before
  }

  /** `process_records` with the update and the delete addressed by record key. */
  function ProcessRowsByKey(rows: seq<Row>, server: string, zone: string, remote: seq<DnsRecord>, local: seq<DnsRecord>, now: Clock): seq<Row> {
    var r := Keyed(remote, zone);
    var l := Keyed(local, zone);
    StampKeys(ApplyRemoteByKey(rows, server, zone, r, l, r.order, now), server, zone, DeleteKeys(r, l), now)
  }

  lemma AppendKeys(rows: seq<Row>, server: string, zone: string, record: DnsRecord, now: Clock)
    requires !IsExcluded(record.rtype)
    ensures LiveKeys(rows + [NewRow(server, zone, record, now)], server, zone) ==
      LiveKeys(rows, server, zone) + {RecordKey(record, zone)}
  {
    var all := rows + [NewRow(server, zone, record, now)];
    forall i | 0 <= i < |rows| ensures all[i] == rows[i] { }
    assert Project(all[|rows|]) == record;
  }

  lemma UpdateByKeyKeys(rows: seq<Row>, server: string, zone: string, k: Key, record: DnsRecord, now: Clock)
    requires RecordKey(record, zone) == k
    ensures LiveKeys(UpdateRowsByKey(rows, server, zone, k, record, now), server, zone) == LiveKeys(rows, server, zone)
  {
    var after := UpdateRowsByKey(rows, server, zone, k, record, now);
    forall i | 0 <= i < |rows|
      ensures LiveIn(after[i], server, zone) == LiveIn(rows[i], server, zone)
      ensures after[i].rtype == rows[i].rtype
      ensures RecordKey(Project(after[i]), zone) == RecordKey(Project(rows[i]), zone)
    {
    }
  }

  lemma StampKeysKeys(rows: seq<Row>, server: string, zone: string, keys: set<Key>, now: Clock)
    ensures LiveKeys(StampKeys(rows, server, zone, keys, now), server, zone) == LiveKeys(rows, server, zone) - keys
  {
    var after := StampKeys(rows, server, zone, keys, now);
    forall x | x in LiveKeys(rows, server, zone) - keys ensures x in LiveKeys(after, server, zone) {
      var i :| 0 <= i < |rows| && LiveIn(rows[i], server, zone) && !IsExcluded(rows[i].rtype) && RecordKey(Project(rows[i]), zone) == x;
      assert after[i] == rows[i];
    }
    forall x | x in LiveKeys(after, server, zone) ensures x in LiveKeys(rows, server, zone) - keys {
      var i :| 0 <= i < |after| && LiveIn(after[i], server, zone) && !IsExcluded(after[i].rtype) && RecordKey(Project(after[i]), zone) == x;
      assert after[i] == rows[i];
    }
  }

  lemma {:induction false} ApplyRemoteByKeyKeys(rows: seq<Row>, server: string, zone: string, remote: Dict, local: Dict, keys: seq<Key>, now: Clock)
    requires forall k :: k in keys ==> k in remote.values
    requires forall k :: k in remote.values ==> RecordKey(remote.values[k], zone) == k && !IsExcluded(remote.values[k].rtype)
    ensures LiveKeys(ApplyRemoteByKey(rows, server, zone, remote, local, keys, now), server, zone) ==
      LiveKeys(rows, server, zone) + (set k | k in keys && k !in local.values)
    decreases |keys|
  {
    if keys != [] {
      var init := keys[..|keys| - 1];
      assert forall k :: k in init ==> k in keys;
      ApplyRemoteByKeyKeys(rows, server, zone, remote, local, init, now);
      MissingStep(keys, local.values);
      ApplyByKeyStep(rows, server, zone, remote, local, keys, now);
    }
  }

  /** The live keys after one more key of the by-key first loop. */
  lemma ApplyByKeyStep(rows: seq<Row>, server: string, zone: string, remote: Dict, local: Dict, keys: seq<Key>, now: Clock)
    requires keys != [] && forall k :: k in keys ==> k in remote.values
    requires forall k :: k in remote.values ==> RecordKey(remote.values[k], zone) == k && !IsExcluded(remote.values[k].rtype)
    ensures forall k :: k in keys[..|keys| - 1] ==> k in remote.values
    ensures var k := keys[|keys| - 1];
      LiveKeys(ApplyRemoteByKey(rows, server, zone, remote, local, keys, now), server, zone) ==
      LiveKeys(ApplyRemoteByKey(rows, server, zone, remote, local, keys[..|keys| - 1], now), server, zone)
        + (if k !in local.values then {k} else {})
  {
    var init := keys[..|keys| - 1];
    assert forall k :: k in init ==> k in keys;
    var k := keys[|keys| - 1];
    var before := ApplyRemoteByKey(rows, server, zone, remote, local, init, now);
    if k !in local.values {
      AppendKeys(before, server, zone, remote.values[k], now);
    } else if !RecordsEqual(remote.values[k], local.values[k]) {
      UpdateByKeyKeys(before, server, zone, k, remote.values[k], now);
    }
  }

  /** The keys of a sequence missing from `m`: those of all but the last, and the last if it is missing. */
  lemma MissingStep(keys: seq<Key>, m: map<Key, DnsRecord>)
    requires keys != []
    ensures (set j | j in keys && j !in m) ==
      (set j | j in keys[..|keys| - 1] && j !in m) + (if keys[|keys| - 1] !in m then {keys[|keys| - 1]} else {})
  {
    assert keys == keys[..|keys| - 1] + [keys[|keys| - 1]];
  }

  /**
   * With updates and deletes addressed by key, one `process_records` against
   * the current shadow copy leaves exactly the remote records' keys live.
   */
  lemma ProcessRowsByKeyMirrors(rows: seq<Row>, server: string, zone: string, remote: seq<DnsRecord>, now: Clock)
    ensures KeysOf(Select(ProcessRowsByKey(rows, server, zone, remote, Select(rows, server, zone), now), server, zone), zone) ==
      KeysOf(remote, zone)
  {
    var local := Select(rows, server, zone);
    var rd := Keyed(remote, zone);
    var ld := Keyed(local, zone);
    SelectKeys(rows, server, zone);
    ByKeyLiveKeys(rows, server, zone, rd, ld, now);
    SelectKeys(ProcessRowsByKey(rows, server, zone, remote, local, now), server, zone);
  }

  /** The by-key pass over rows whose live keys are the local keys leaves the remote keys live. */
  lemma ByKeyLiveKeys(rows: seq<Row>, server: string, zone: string, rd: Dict, ld: Dict, now: Clock)
    requires WellFormed(rd)
    requires forall k :: k in rd.values ==> RecordKey(rd.values[k], zone) == k && !IsExcluded(rd.values[k].rtype)
    requires LiveKeys(rows, server, zone) == ld.values.Keys
    ensures LiveKeys(StampKeys(ApplyRemoteByKey(rows, server, zone, rd, ld, rd.order, now), server, zone, DeleteKeys(rd, ld), now), server, zone) ==
      rd.values.Keys
  {
    ApplyRemoteByKeyKeys(rows, server, zone, rd, ld, rd.order, now);
    var applied := ApplyRemoteByKey(rows, server, zone, rd, ld, rd.order, now);
    StampKeysKeys(applied, server, zone, DeleteKeys(rd, ld), now);
    var added := set k | k in rd.order && k !in ld.values;
    assert added == rd.values.Keys - ld.values.Keys;
    MirrorSets(LiveKeys(rows, server, zone), rd.values.Keys, added, LiveKeys(applied, server, zone),
      LiveKeys(StampKeys(applied, server, zone, DeleteKeys(rd, ld), now), server, zone));
  }

  /** Adding the missing keys and then dropping the surplus ones leaves exactly the wanted keys. */
  lemma MirrorSets(have: set<Key>, want: set<Key>, added: set<Key>, mid: set<Key>, after: set<Key>)
    requires added == want - have && mid == have + added && after == mid - (have - want)
    ensures after == want
  {
  }
}
