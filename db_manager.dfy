/**
 * The shadow copy `DatabaseManager` keeps (technisync/db_manager.py): the
 * `dns_records` table as a sequence of rows with soft delete, and the
 * `zone_ownership` table as a map keyed by its UNIQUE zone column.
 * Timestamps are a clock value the caller supplies.
 */
module Db {
  import opened Wrappers
  import opened Models

  /** A `datetime.now(timezone.utc)` reading, supplied by the caller. */
  type Clock = nat

  /** One row of `dns_records`; `rdata` is the decoded JSON text. */
  datatype Row = Row(
    server: string,
    zone: string,
    name: string,
    rtype: string,
    ttl: int,
    rdata: RData,
    createdAt: Clock,
    updatedAt: Clock,
    deletedAt: Option<Clock>)

  /** One row of `zone_ownership`. */
  datatype Ownership = Ownership(owner: string, createdAt: Clock)

  /** The columns `check_and_create_dns_records_table` insists on. */
  const RequiredColumns: set<string> :=
    {"id", "server", "zone", "name", "type", "ttl", "rdata", "created_at", "updated_at", "deleted_at"}

  // ---------------------------------------------------------------------
  // The queries, on the table as a value

  /** A row `get_records(server, zone)` selects: that server and zone, `deleted_at IS NULL`. */
  predicate LiveIn(row: Row, server: string, zone: string) {
    row.server == server && row.zone == zone && row.deletedAt.None?
  }

  /** A row the UPDATE statements of `update_record` and `delete_record` touch. */
  predicate Matches(row: Row, server: string, zone: string, name: string, rtype: string) {
    LiveIn(row, server, zone) && row.name == name && row.rtype == rtype
  }

  /** The projection `SELECT name, type, ttl, rdata`. */
  function Project(row: Row): DnsRecord {
    DnsRecord(row.name, row.rtype, row.ttl, row.rdata)
  }

  /** `get_records` on the rows in table order. */
  function Select(rows: seq<Row>, server: string, zone: string): (r: seq<DnsRecord>)
    ensures |r| <= |rows|
    decreases |rows|
  {
    if rows == [] then []
    else
      var last := rows[|rows| - 1];
      Select(rows[..|rows| - 1], server, zone) + (if LiveIn(last, server, zone) then [Project(last)] else [])
  }

  /** `get_records` returns exactly the projections of the live rows of that server and zone. */
  lemma {:induction false} SelectMember(rows: seq<Row>, server: string, zone: string, x: DnsRecord)
    ensures x in Select(rows, server, zone) <==>
      exists k :: 0 <= k < |rows| && LiveIn(rows[k], server, zone) && Project(rows[k]) == x
    decreases |rows|
  {
    if rows != [] {
      var init := rows[..|rows| - 1];
      SelectMember(init, server, zone, x);
      if x in Select(rows, server, zone) && x !in Select(init, server, zone) {
        assert LiveIn(rows[|rows| - 1], server, zone) && Project(rows[|rows| - 1]) == x;
      }
      if exists k :: 0 <= k < |rows| && LiveIn(rows[k], server, zone) && Project(rows[k]) == x {
        var k :| 0 <= k < |rows| && LiveIn(rows[k], server, zone) && Project(rows[k]) == x;
        if k < |rows| - 1 {
          assert init[k] == rows[k];
        }
      }
    }
  }

  /** Rows of other servers or zones play no part in `get_records`. */
  lemma {:induction false} SelectFrame(a: seq<Row>, b: seq<Row>, server: string, zone: string)
    requires |a| == |b|
    requires forall k :: 0 <= k < |a| ==>
      (LiveIn(a[k], server, zone) <==> LiveIn(b[k], server, zone)) &&
      (LiveIn(a[k], server, zone) ==> Project(a[k]) == Project(b[k]))
    ensures Select(a, server, zone) == Select(b, server, zone)
    decreases |a|
  {
    if a != [] {
      SelectFrame(a[..|a| - 1], b[..|b| - 1], server, zone);
    }
  }

  /** `SELECT DISTINCT zone FROM dns_records`, in order of first appearance. */
  function DistinctZones(rows: seq<Row>): (zones: seq<string>)
    ensures forall k, l :: 0 <= k < l < |zones| ==> zones[k] != zones[l]
    ensures forall z :: z in zones <==> exists k :: 0 <= k < |rows| && rows[k].zone == z
    decreases |rows|
  {
    if rows == [] then []
    else
      var init := rows[..|rows| - 1];
      var z := rows[|rows| - 1].zone;
      var before := DistinctZones(init);
      assert forall k :: 0 <= k < |init| ==> init[k] == rows[k];
      if z in before then before else before + [z]
  }

  // ---------------------------------------------------------------------
  // The writes, on the table as a value

  /** The row `add_record` inserts: live, created and updated now. */
  function NewRow(server: string, zone: string, record: DnsRecord, now: Clock): Row {
    Row(server, zone, record.name, record.rtype, record.ttl, record.rdata, now, now, None)
  }

  /** `UPDATE ... SET ttl, rdata, updated_at WHERE server, zone, name, type match AND deleted_at IS NULL`. */
  function UpdateRows(rows: seq<Row>, server: string, zone: string, record: DnsRecord, now: Clock): (r: seq<Row>)
    ensures |r| == |rows|
    ensures forall k :: 0 <= k < |rows| && Matches(rows[k], server, zone, record.name, record.rtype) ==>
      r[k] == rows[k].(ttl := record.ttl, rdata := record.rdata, updatedAt := now)
    ensures forall k :: 0 <= k < |rows| && !Matches(rows[k], server, zone, record.name, record.rtype) ==>
      r[k] == rows[k]
  {
    seq(|rows|, k requires 0 <= k < |rows| =>
      if Matches(rows[k], server, zone, record.name, record.rtype)
      then rows[k].(ttl := record.ttl, rdata := record.rdata, updatedAt := now)
      else rows[k])
  }

  /** `UPDATE ... SET deleted_at WHERE server, zone, name, type match AND deleted_at IS NULL`; rdata plays no part. */
  function DeleteRows(rows: seq<Row>, server: string, zone: string, name: string, rtype: string, now: Clock): (r: seq<Row>)
    ensures |r| == |rows|
    ensures forall k :: 0 <= k < |rows| && Matches(rows[k], server, zone, name, rtype) ==>
      r[k] == rows[k].(deletedAt := Some(now))
    ensures forall k :: 0 <= k < |rows| && !Matches(rows[k], server, zone, name, rtype) ==>
      r[k] == rows[k]
  {
    seq(|rows|, k requires 0 <= k < |rows| =>
      if Matches(rows[k], server, zone, name, rtype) then rows[k].(deletedAt := Some(now)) else rows[k])
  }

  /** After `add_record`, `get_records` lists the new record last and everything it listed before. */
  lemma AddThenSelect(rows: seq<Row>, server: string, zone: string, record: DnsRecord, now: Clock)
    ensures Select(rows + [NewRow(server, zone, record, now)], server, zone) == Select(rows, server, zone) + [record]
  {
    assert (rows + [NewRow(server, zone, record, now)])[..|rows|] == rows;
  }

  /** `add_record` leaves `get_records` of every other server and zone alone. */
  lemma AddOtherSelect(rows: seq<Row>, server: string, zone: string, record: DnsRecord, now: Clock, s: string, z: string)
    requires s != server || z != zone
    ensures Select(rows + [NewRow(server, zone, record, now)], s, z) == Select(rows, s, z)
  {
    assert (rows + [NewRow(server, zone, record, now)])[..|rows|] == rows;
  }

  /**
   * After `update_record`, `get_records` lists the records of other names and
   * types as before, and every listed record of that name and type carries
   * the new ttl and rdata.
   */
  lemma UpdateThenSelect(rows: seq<Row>, server: string, zone: string, record: DnsRecord, now: Clock, x: DnsRecord)
    ensures var after := UpdateRows(rows, server, zone, record, now);
      && ((x.name != record.name || x.rtype != record.rtype) ==>
            (x in Select(after, server, zone) <==> x in Select(rows, server, zone)))
      && (x in Select(after, server, zone) && x.name == record.name && x.rtype == record.rtype ==>
            x.ttl == record.ttl && x.rdata == record.rdata)
  {
    var after := UpdateRows(rows, server, zone, record, now);
    SelectMember(rows, server, zone, x);
    SelectMember(after, server, zone, x);
    if x in Select(after, server, zone) {
      var k :| 0 <= k < |after| && LiveIn(after[k], server, zone) && Project(after[k]) == x;
      assert Matches(rows[k], server, zone, record.name, record.rtype) || after[k] == rows[k];
    }
    if x in Select(rows, server, zone) && (x.name != record.name || x.rtype != record.rtype) {
      var k :| 0 <= k < |rows| && LiveIn(rows[k], server, zone) && Project(rows[k]) == x;
      assert after[k] == rows[k];
    }
  }

  /** `update_record` never revives or hides a row, and leaves other servers and zones alone. */
  lemma UpdateOtherSelect(rows: seq<Row>, server: string, zone: string, record: DnsRecord, now: Clock, s: string, z: string)
    requires s != server || z != zone
    ensures Select(UpdateRows(rows, server, zone, record, now), s, z) == Select(rows, s, z)
  {
    SelectFrame(UpdateRows(rows, server, zone, record, now), rows, s, z);
  }

  /**
   * After `delete_record`, `get_records` lists exactly what it listed before
   * except every record of that name and type, whatever its rdata.
   */
  lemma DeleteThenSelect(rows: seq<Row>, server: string, zone: string, name: string, rtype: string, now: Clock, x: DnsRecord)
    ensures x in Select(DeleteRows(rows, server, zone, name, rtype, now), server, zone) <==>
      x in Select(rows, server, zone) && !(x.name == name && x.rtype == rtype)
  {
    var after := DeleteRows(rows, server, zone, name, rtype, now);
    SelectMember(rows, server, zone, x);
    SelectMember(after, server, zone, x);
    if x in Select(after, server, zone) {
      var k :| 0 <= k < |after| && LiveIn(after[k], server, zone) && Project(after[k]) == x;
      assert after[k] == rows[k];
    }
    if x in Select(rows, server, zone) && !(x.name == name && x.rtype == rtype) {
      var k :| 0 <= k < |rows| && LiveIn(rows[k], server, zone) && Project(rows[k]) == x;
      assert after[k] == rows[k];
    }
  }

  lemma DeleteOtherSelect(rows: seq<Row>, server: string, zone: string, name: string, rtype: string, now: Clock, s: string, z: string)
    requires s != server || z != zone
    ensures Select(DeleteRows(rows, server, zone, name, rtype, now), s, z) == Select(rows, s, z)
  {
    SelectFrame(DeleteRows(rows, server, zone, name, rtype, now), rows, s, z);
  }

  /** A soft delete keeps every row and its contents; only `deleted_at` is stamped, and only once. */
  lemma DeleteKeepsRows(rows: seq<Row>, server: string, zone: string, name: string, rtype: string, now: Clock)
    ensures var after := DeleteRows(rows, server, zone, name, rtype, now);
      && |after| == |rows|
      && (forall k :: 0 <= k < |rows| ==> after[k].(deletedAt := rows[k].deletedAt) == rows[k])
      && (forall k :: 0 <= k < |rows| && rows[k].deletedAt.Some? ==> after[k] == rows[k])
      && DistinctZones(after) == DistinctZones(rows)
  {
    var after := DeleteRows(rows, server, zone, name, rtype, now);
    ZonesFrame(after, rows);
  }

  /** Tables whose rows have the same zones position by position list the same zones. */
  lemma {:induction false} ZonesFrame(a: seq<Row>, b: seq<Row>)
    requires |a| == |b|
    requires forall k :: 0 <= k < |a| ==> a[k].zone == b[k].zone
    ensures DistinctZones(a) == DistinctZones(b)
    decreases |a|
  {
    if a != [] {
      ZonesFrame(a[..|a| - 1], b[..|b| - 1]);
    }
  }

  /** The table after the column check: kept as it is, or dropped and recreated empty. */
  function CheckedTable(columns: set<string>, rows: seq<Row>): (set<string>, seq<Row>) {
    if RequiredColumns <= columns then (columns, rows) else (RequiredColumns, [])
  }

  /** After the check the table has every required column, so the next start keeps it and its rows. */
  lemma CheckIdempotent(columns: set<string>, rows: seq<Row>)
    ensures RequiredColumns <= CheckedTable(columns, rows).0
    ensures CheckedTable(CheckedTable(columns, rows).0, CheckedTable(columns, rows).1) == CheckedTable(columns, rows)
    ensures (CheckedTable(columns, rows).1 == rows) <== RequiredColumns <= columns
    ensures !(RequiredColumns <= columns) ==> CheckedTable(columns, rows).1 == []
  {
  }

  // ---------------------------------------------------------------------
  // The database object

  class DatabaseManager {
    /** The columns of `dns_records`, as `PRAGMA table_info` lists them. */
    var columns: set<string>
    /** The rows of `dns_records`, in insertion order. */
    var rows: seq<Row>
    /** `zone_ownership`, keyed by its UNIQUE zone column. */
    var owners: map<string, Ownership>

    predicate Valid()
      reads this
    {
      RequiredColumns <= columns
    }

    /**
     * `__init__` on an existing database file: the records table is kept iff
     * it has every required column, otherwise dropped and recreated empty;
     * the ownership table is created if missing and otherwise kept.
     */
    constructor (existingColumns: set<string>, existingRows: seq<Row>, existingOwners: map<string, Ownership>)
      ensures Valid()
      ensures (columns, rows) == CheckedTable(existingColumns, existingRows)
      ensures owners == existingOwners
    {
      columns := existingColumns;
      rows := existingRows;
      owners := existingOwners;
      new;
      CheckAndCreateRecordsTable();
    }

    /** `check_and_create_dns_records_table`. */
    method CheckAndCreateRecordsTable()
      modifies this
      ensures Valid()
      ensures (columns, rows) == CheckedTable(old(columns), old(rows))
      ensures owners == old(owners)
    {
      if RequiredColumns <= columns {
        return;
      }
      rows := [];
      columns := RequiredColumns;
    }

    /** `get_records(server_name, zone_name)`. */
    function GetRecords(server: string, zone: string): (r: seq<DnsRecord>)
      reads this
      ensures forall x :: x in r <==> exists k :: 0 <= k < |rows| && LiveIn(rows[k], server, zone) && Project(rows[k]) == x
    {
      var r := Select(rows, server, zone);
      forall x ensures x in r <==> exists k :: 0 <= k < |rows| && LiveIn(rows[k], server, zone) && Project(rows[k]) == x {
        SelectMember(rows, server, zone, x);
      }
      r
    }

    /** `add_record`: always a new live row; nothing is replaced. */
    method AddRecord(server: string, zone: string, record: DnsRecord, now: Clock)
      requires Valid()
      modifies this
      ensures Valid()
      ensures rows == old(rows) + [NewRow(server, zone, record, now)]
      ensures columns == old(columns) && owners == old(owners)
      ensures GetRecords(server, zone) == old(GetRecords(server, zone)) + [record]
    {
      rows := rows + [NewRow(server, zone, record, now)];
      AddThenSelect(old(rows), server, zone, record, now);
    }

    /** `update_record`: new ttl and rdata on every live row of that server, zone, name and type. */
    method UpdateRecord(server: string, zone: string, record: DnsRecord, now: Clock)
      requires Valid()
      modifies this
      ensures Valid()
      ensures rows == UpdateRows(old(rows), server, zone, record, now)
      ensures columns == old(columns) && owners == old(owners)
    {
      rows := UpdateRows(rows, server, zone, record, now);
    }

    /** `delete_record`: stamp `deleted_at` on every live row of that server, zone, name and type. */
    method DeleteRecord(server: string, zone: string, record: DnsRecord, now: Clock)
      requires Valid()
      modifies this
      ensures Valid()
      ensures rows == DeleteRows(old(rows), server, zone, record.name, record.rtype, now)
      ensures columns == old(columns) && owners == old(owners)
    {
      rows := DeleteRows(rows, server, zone, record.name, record.rtype, now);
    }

    /** `get_zone_owner`: None for a zone never set. */
    function GetZoneOwner(zone: string): (r: Option<string>)
      reads this
      ensures r.Some? <==> zone in owners
      ensures r.Some? ==> r.value == owners[zone].owner
    {
      if zone in owners then Some(owners[zone].owner) else None
    }

    /** `set_zone_owner`: INSERT OR REPLACE on the UNIQUE zone, so a later call overwrites. */
    method SetZoneOwner(zone: string, owner: string, now: Clock)
      requires Valid()
      modifies this
      ensures Valid()
      ensures owners == old(owners)[zone := Ownership(owner, now)]
      ensures rows == old(rows) && columns == old(columns)
      ensures GetZoneOwner(zone) == Some(owner)
      ensures forall z :: z != zone ==> GetZoneOwner(z) == old(GetZoneOwner(z))
    {
      owners := owners[zone := Ownership(owner, now)];
    }

    /** `get_all_zones`: every zone of any row, soft-deleted ones included, once each. */
    function GetAllZones(): (zones: seq<string>)
      reads this
      ensures forall k, l :: 0 <= k < l < |zones| ==> zones[k] != zones[l]
      ensures forall z :: z in zones <==> exists k :: 0 <= k < |rows| && rows[k].zone == z
    {
      DistinctZones(rows)
    }
  }
}
