/**
 * The pure part of `SyncManager` (technisync/sync_manager.py): the record
 * key, the excluded types, record equality, zone selection, and the keyed
 * dictionaries the diff works on.
 */
module SyncCore {
  import opened Strings
  import opened Models

  /** The types the synchronisation never copies. */
  const ExcludedTypes: seq<string> :=
    ["SOA", "NS", "RRSIG", "NSEC", "NSEC3", "DNSKEY", "DS", "CDS", "CDNSKEY", "TSIG", "TKEY", "AXFR", "IXFR"]

  predicate IsExcluded(rtype: string) { rtype in ExcludedTypes }

  /**
   * `record_key`: the relative name, the type and the rData. The source
   * uses `json.dumps(rData, sort_keys=True)` as the third part; canonical
   * JSON is one-to-one on string maps, so the map itself stands for it.
   */
  type Key = (string, string, RData)

  /** The name part of `record_key`: `.zone` cut off, the zone itself `@`. */
  function RelativeName(name: string, zone: string): string {
    var suffix := "." + zone;
    if EndsWith(name, suffix) then name[..|name| - |suffix|]
    else if name == zone then "@"
    else name
  }

  function RecordKey(r: DnsRecord, zone: string): Key {
    (RelativeName(r.name, zone), r.rtype, r.rdata)
  }

  /**
   * A name inside the zone loses exactly the `.zone` suffix, the apex becomes
   * `@`, any other name is kept; type and rData pass through unchanged.
   */
  lemma RecordKeyCases(r: DnsRecord, zone: string, host: string)
    ensures RecordKey(r, zone).1 == r.rtype && RecordKey(r, zone).2 == r.rdata
    ensures r.name == host + "." + zone ==> RecordKey(r, zone).0 == host
    ensures r.name == zone ==> RecordKey(r, zone).0 == "@"
    ensures !EndsWith(r.name, "." + zone) && r.name != zone ==> RecordKey(r, zone).0 == r.name
  {
    if r.name == host + "." + zone {
      assert r.name[|r.name| - |"." + zone|..] == "." + zone;
      assert r.name[..|r.name| - |"." + zone|] == host;
    }
    if r.name == zone {
      assert !EndsWith(r.name, "." + zone);
    }
  }

  /** The name `host` stands for inside `zone`: the Technitium name `@` is the apex. */
  function AbsoluteName(host: string, zone: string): string {
    if host == "@" then zone else host + "." + zone
  }

  /**
   * For names inside the zone, the relative name determines the name again;
   * the one exception is the literal host `@.zone`, which shares the apex's `@`.
   */
  lemma RelativeNameInverse(name: string, zone: string)
    requires EndsWith(name, "." + zone) || name == zone
    requires name != "@." + zone
    ensures AbsoluteName(RelativeName(name, zone), zone) == name
  {
    var suffix := "." + zone;
    if EndsWith(name, suffix) {
      var host := name[..|name| - |suffix|];
      assert name == host + suffix;
      assert host + suffix == host + "." + zone;
    } else {
      assert !EndsWith(name, suffix);
    }
  }

  /** `records_equal`: name, type, ttl and rData all equal. */
  predicate RecordsEqual(a: DnsRecord, b: DnsRecord) {
    a.name == b.name && a.rtype == b.rtype && a.ttl == b.ttl && a.rdata == b.rdata
  }

  lemma RecordsEqualIsEquality(a: DnsRecord, b: DnsRecord)
    ensures RecordsEqual(a, b) <==> a == b
  {
  }

  /**
   * Records with the same key that `records_equal` tells apart differ in ttl
   * or in the spelling of the name (`www` against `www.zone`): type and rData
   * are part of the key.
   */
  lemma SameKeyDiffers(a: DnsRecord, b: DnsRecord, zone: string)
    requires RecordKey(a, zone) == RecordKey(b, zone)
    requires !RecordsEqual(a, b)
    ensures a.ttl != b.ttl || a.name != b.name
  {
  }

  /** Two spellings of one name share a key: the conflation `records_equal` then sees as an update. */
  lemma SpellingsShareKey(host: string, zone: string, rtype: string, ttl: int, rdata: RData)
    requires !EndsWith(host, "." + zone) && host != zone
    ensures RecordKey(DnsRecord(host, rtype, ttl, rdata), zone) ==
            RecordKey(DnsRecord(host + "." + zone, rtype, ttl, rdata), zone)
  {
    RecordKeyCases(DnsRecord(host, rtype, ttl, rdata), zone, host);
    RecordKeyCases(DnsRecord(host + "." + zone, rtype, ttl, rdata), zone, host);
  }

  // ---------------------------------------------------------------------
  // Zone selection

  /** `should_sync_zone` under the configured zone list and reverse-zone flag. */
  predicate ShouldSyncZone(zone: string, zonesToSync: seq<string>, syncReverseZones: bool) {
    if IsInternalZone(zone) then false
    else if zonesToSync == [] then true
    else zone in zonesToSync || (syncReverseZones && IsReverseZone(zone))
  }

  /**
   * Internal zones are never synced; with no zone list every other zone is;
   * otherwise exactly the listed zones, plus the reverse zones when the flag
   * is set.
   */
  lemma ShouldSyncZoneSpec(zone: string, zonesToSync: seq<string>, syncReverseZones: bool)
    ensures IsInternalZone(zone) ==> !ShouldSyncZone(zone, zonesToSync, syncReverseZones)
    ensures !IsInternalZone(zone) && zonesToSync == [] ==> ShouldSyncZone(zone, zonesToSync, syncReverseZones)
    ensures zonesToSync != [] ==>
      (ShouldSyncZone(zone, zonesToSync, syncReverseZones) <==>
        !IsInternalZone(zone) && (zone in zonesToSync || (syncReverseZones && IsReverseZone(zone))))
  {
  }

  /**
   * Without a zone list the reverse-zone flag makes no difference; with the
   * flag off a zone syncs exactly when it is listed and not internal; turning
   * the flag on only ever adds reverse zones.
   */
  lemma ShouldSyncZoneFlag(zone: string, zonesToSync: seq<string>)
    ensures zonesToSync == [] ==> (ShouldSyncZone(zone, zonesToSync, true) <==> ShouldSyncZone(zone, zonesToSync, false))
    ensures zonesToSync != [] ==> (ShouldSyncZone(zone, zonesToSync, false) <==> zone in zonesToSync && !IsInternalZone(zone))
    ensures ShouldSyncZone(zone, zonesToSync, false) ==> ShouldSyncZone(zone, zonesToSync, true)
    ensures ShouldSyncZone(zone, zonesToSync, true) && !ShouldSyncZone(zone, zonesToSync, false) ==> IsReverseZone(zone)
  {
  }

  /** A listed internal zone is still skipped: the internal test comes first. */
  lemma InternalZoneNeverSynced(zonesToSync: seq<string>, syncReverseZones: bool)
    ensures !ShouldSyncZone("127.in-addr.arpa", zonesToSync, syncReverseZones)
    ensures !ShouldSyncZone("localhost", zonesToSync, syncReverseZones)
  {
    assert IsInternalZone("127.in-addr.arpa") && IsInternalZone("localhost");
  }

  // ---------------------------------------------------------------------
  // Keyed dictionaries

  /** A Python dict from keys to records: its keys in insertion order, and the values. */
  datatype Dict = Dict(order: seq<Key>, values: map<Key, DnsRecord>)

  ghost predicate WellFormed(d: Dict) {
    && (forall i, j :: 0 <= i < j < |d.order| ==> d.order[i] != d.order[j])
    && (forall k :: k in d.values <==> k in d.order)
  }

  /** `d[k] = v`: a new key goes to the end, an old key keeps its place. */
  function Insert(d: Dict, k: Key, v: DnsRecord): Dict {
    Dict(if k in d.values then d.order else d.order + [k], d.values[k := v])
  }

  /** The non-excluded records of a list, as the records the diff considers. */
  predicate Considered(records: seq<DnsRecord>, i: int) {
    0 <= i < |records| && !IsExcluded(records[i].rtype)
  }

  /** The keys of the non-excluded records. */
  function KeysOf(records: seq<DnsRecord>, zone: string): set<Key> {
    set i | 0 <= i < |records| && Considered(records, i) :: RecordKey(records[i], zone)
  }

  /**
   * `{record_key(r, zone): r for r in records if r['type'] not in excluded}`:
   * keys in order of first appearance, the last record of each key kept.
   */
  function Keyed(records: seq<DnsRecord>, zone: string): (d: Dict)
    ensures WellFormed(d)
    ensures d.values.Keys == KeysOf(records, zone)
    ensures forall k :: k in d.values ==> RecordKey(d.values[k], zone) == k && !IsExcluded(d.values[k].rtype)
    decreases |records|
  {
    if records == [] then Dict([], map[])
    else
      var init := records[..|records| - 1];
      var r := records[|records| - 1];
      var d := Keyed(init, zone);
      KeysOfSnoc(records, zone);
      if IsExcluded(r.rtype) then d else Insert(d, RecordKey(r, zone), r)
  }

  /** `get_all_records_for_zone`'s dictionary: like `Keyed`, but the first record of each key is kept. */
  function FirstWins(records: seq<DnsRecord>, zone: string): (d: Dict)
    ensures WellFormed(d)
    ensures d.values.Keys == KeysOf(records, zone)
    ensures forall k :: k in d.values ==> RecordKey(d.values[k], zone) == k && !IsExcluded(d.values[k].rtype)
    decreases |records|
  {
    if records == [] then Dict([], map[])
    else
      var init := records[..|records| - 1];
      var r := records[|records| - 1];
      var d := FirstWins(init, zone);
      KeysOfSnoc(records, zone);
      if IsExcluded(r.rtype) || RecordKey(r, zone) in d.values then d else Insert(d, RecordKey(r, zone), r)
  }

  lemma KeysOfSnoc(records: seq<DnsRecord>, zone: string)
    requires records != []
    ensures var init := records[..|records| - 1];
      var r := records[|records| - 1];
      KeysOf(records, zone) == KeysOf(init, zone) + (if IsExcluded(r.rtype) then {} else {RecordKey(r, zone)})
  {
    var init := records[..|records| - 1];
    forall i | 0 <= i < |init| ensures Considered(init, i) == Considered(records, i) && init[i] == records[i] {
    }
  }

  /** The last non-excluded record of each key is the one the dict keeps. */
  lemma {:induction false} KeyedLastWins(records: seq<DnsRecord>, zone: string, i: nat)
    requires Considered(records, i)
    requires forall j :: i < j < |records| && Considered(records, j) ==> RecordKey(records[j], zone) != RecordKey(records[i], zone)
    ensures Keyed(records, zone).values[RecordKey(records[i], zone)] == records[i]
    decreases |records|
  {
    var init := records[..|records| - 1];
    if i < |records| - 1 {
      assert init[i] == records[i];
      assert Considered(init, i);
      forall j | i < j < |init| && Considered(init, j)
        ensures RecordKey(init[j], zone) != RecordKey(init[i], zone)
      {
        assert init[j] == records[j] && Considered(records, j);
      }
      KeyedLastWins(init, zone, i);
    }
  }

  /** The first non-excluded record of each key is the one `get_all_records_for_zone` keeps. */
  lemma {:induction false} FirstWinsEarliest(records: seq<DnsRecord>, zone: string, i: nat)
    requires Considered(records, i)
    requires forall j :: 0 <= j < i && Considered(records, j) ==> RecordKey(records[j], zone) != RecordKey(records[i], zone)
    ensures FirstWins(records, zone).values[RecordKey(records[i], zone)] == records[i]
    decreases |records|
  {
    var init := records[..|records| - 1];
    if i < |records| - 1 {
      assert init[i] == records[i];
      assert Considered(init, i);
      forall j | 0 <= j < i && Considered(init, j)
        ensures RecordKey(init[j], zone) != RecordKey(init[i], zone)
      {
        assert init[j] == records[j] && Considered(records, j);
      }
      FirstWinsEarliest(init, zone, i);
      KeysOfSnoc(records, zone);
    } else {
      forall j | 0 <= j < |init| && Considered(init, j)
        ensures RecordKey(init[j], zone) != RecordKey(records[i], zone)
      {
        assert init[j] == records[j] && Considered(records, j);
      }
      assert RecordKey(records[i], zone) !in KeysOf(init, zone);
    }
  }

  /** The loop of `get_all_records_for_zone` after one more record: kept only when its type counts and its key is new. */
  lemma FirstWinsSnoc(records: seq<DnsRecord>, r: DnsRecord, zone: string)
    ensures FirstWins(records + [r], zone) ==
      if IsExcluded(r.rtype) || RecordKey(r, zone) in FirstWins(records, zone).values then FirstWins(records, zone)
      else Insert(FirstWins(records, zone), RecordKey(r, zone), r)
  {
    assert (records + [r])[..|records|] == records;
  }

  /** `list(d.values())`: the values in key order. */
  function Values(d: Dict): (vs: seq<DnsRecord>)
    requires WellFormed(d)
    ensures |vs| == |d.order|
    ensures forall i :: 0 <= i < |d.order| ==> vs[i] == d.values[d.order[i]]
  {
    seq(|d.order|, i requires 0 <= i < |d.order| => d.values[d.order[i]])
  }

  /**
   * `get_all_records_for_zone` returns records with pairwise distinct keys
   * and no excluded type, one per key of the non-excluded input records.
   */
  lemma FirstWinsValues(records: seq<DnsRecord>, zone: string)
    ensures var vs := Values(FirstWins(records, zone));
      && (forall i, j :: 0 <= i < j < |vs| ==> RecordKey(vs[i], zone) != RecordKey(vs[j], zone))
      && (forall i :: 0 <= i < |vs| ==> !IsExcluded(vs[i].rtype))
      && |vs| == |KeysOf(records, zone)|
  {
    var d := FirstWins(records, zone);
    var vs := Values(d);
    forall i, j | 0 <= i < j < |vs| ensures RecordKey(vs[i], zone) != RecordKey(vs[j], zone) {
      assert RecordKey(vs[i], zone) == d.order[i] && RecordKey(vs[j], zone) == d.order[j];
    }
    DistinctCard(d.order, d.values.Keys);
  }

  /** A duplicate-free listing of a set has as many entries as the set. */
  lemma {:induction false} DistinctCard(order: seq<Key>, keys: set<Key>)
    requires forall i, j :: 0 <= i < j < |order| ==> order[i] != order[j]
    requires forall k :: k in keys <==> k in order
    ensures |order| == |keys|
    decreases |order|
  {
    if order != [] {
      var init := order[..|order| - 1];
      var last := order[|order| - 1];
      forall i | 0 <= i < |init| ensures init[i] != last {
        assert init[i] == order[i];
      }
      forall k ensures k in keys - {last} <==> k in init {
        if k in order && k != last {
          var i :| 0 <= i < |order| && order[i] == k;
          assert init[i] == k;
        }
      }
      DistinctCard(init, keys - {last});
    }
  }
}
