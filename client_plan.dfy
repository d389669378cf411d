/**
 * The client calls `update_server_records` makes to bring one server's zone
 * in line with a target record list, and the change counters the accepted
 * calls add (technisync/sync_manager.py).
 */
module ClientPlan {
  import opened Models
  import opened SyncCore
  import opened SyncPlan

  /** One request made through a `TechnitiumDNSClient`, with the arguments the caller passes. */
  datatype ClientCall =
    | AddRecordCall(server: string, zone: string, name: string, rtype: string, ttl: int, rdata: RData)
    | UpdateRecordCall(server: string, zone: string, name: string, rtype: string, oldRData: RData, newRData: RData)
    | DeleteRecordCall(server: string, zone: string, name: string, rtype: string, rdata: RData)
    | AddZoneCall(server: string, zone: string)

  function AddCall(server: string, zone: string, r: DnsRecord): ClientCall {
    AddRecordCall(server, zone, r.name, r.rtype, r.ttl, r.rdata)
  }

  /** `update_record(zone, record['name'], record['type'], current['rData'], record['rData'])`. */
  function UpdateCall(server: string, zone: string, r: DnsRecord, current: DnsRecord): ClientCall {
    UpdateRecordCall(server, zone, r.name, r.rtype, current.rdata, r.rdata)
  }

  function DeleteCall(server: string, zone: string, current: DnsRecord): ClientCall {
    DeleteRecordCall(server, zone, current.name, current.rtype, current.rdata)
  }

  /** The record key a record call is about (its new data for an update). */
  function CallKey(call: ClientCall, zone: string): Key
    requires !call.AddZoneCall?
  {
    match call
    case AddRecordCall(_, _, name, rtype, ttl, rdata) => RecordKey(DnsRecord(name, rtype, ttl, rdata), zone)
    case UpdateRecordCall(_, _, name, rtype, _, rdata) => RecordKey(DnsRecord(name, rtype, 0, rdata), zone)
    case DeleteRecordCall(_, _, name, rtype, rdata) => RecordKey(DnsRecord(name, rtype, 0, rdata), zone)
  }

  /** The counter `track_change` bumps for a call that succeeds; a new zone counts as an add. */
  function KindOf(call: ClientCall): ChangeType {
    match call
    case AddRecordCall(_, _, _, _, _, _) => AddChange
    case UpdateRecordCall(_, _, _, _, _, _) => UpdateChange
    case DeleteRecordCall(_, _, _, _, _) => DeleteChange
    case AddZoneCall(_, _) => AddChange
  }

  // ---------------------------------------------------------------------
  // The plan

  /** The first loop's request for one target key: add it, update it, or nothing. */
  function TargetCall(server: string, zone: string, target: Dict, current: Dict, k: Key): seq<ClientCall>
    requires k in target.values
  {
    var r := target.values[k];
    if k !in current.values then [AddCall(server, zone, r)]
    else if !RecordsEqual(r, current.values[k]) then [UpdateCall(server, zone, r, current.values[k])]
    else []
  }

  function TargetCalls(server: string, zone: string, target: Dict, current: Dict, keys: seq<Key>): seq<ClientCall>
    requires forall k :: k in keys ==> k in target.values
  {
    if keys == [] then []
    else TargetCalls(server, zone, target, current, keys[..|keys| - 1]) + TargetCall(server, zone, target, current, keys[|keys| - 1])
  }

  /** The second loop's request for one current key: delete it when the target lacks it. */
  function CurrentCall(server: string, zone: string, target: Dict, current: Dict, k: Key): seq<ClientCall>
    requires k in current.values
  {
    if k !in target.values then [DeleteCall(server, zone, current.values[k])] else []
  }

  function CurrentCalls(server: string, zone: string, target: Dict, current: Dict, keys: seq<Key>): seq<ClientCall>
    requires forall k :: k in keys ==> k in current.values
  {
    if keys == [] then []
    else CurrentCalls(server, zone, target, current, keys[..|keys| - 1]) + CurrentCall(server, zone, target, current, keys[|keys| - 1])
  }

  /** Every request `update_server_records(server, zone, target)` makes once the current records are fetched. */
  function PlannedCalls(server: string, zone: string, target: seq<DnsRecord>, current: seq<DnsRecord>): seq<ClientCall> {
    var t := Keyed(target, zone);
    var c := Keyed(current, zone);
    TargetCalls(server, zone, t, c, t.order) + CurrentCalls(server, zone, t, c, c.order)
  }

  /**
   * The first loop after one more target key: only the slicing step the loop
   * invariant of `Sync.SyncManager.SendTargetCalls` needs. The properties of
   * the loop are the Sound, Distinct and Complete lemmas below.
   */
  lemma TargetCallsStep(server: string, zone: string, t: Dict, c: Dict, keys: seq<Key>, n: nat)
    requires n < |keys| && forall k :: k in keys ==> k in t.values
    ensures forall k :: k in keys[..n] ==> k in t.values
    ensures TargetCalls(server, zone, t, c, keys[..n + 1]) == TargetCalls(server, zone, t, c, keys[..n]) + TargetCall(server, zone, t, c, keys[n])
  {
    assert keys[..n + 1][..n] == keys[..n];
  }

  /** The second loop after one more current key: the slicing step behind `CurrentCallsExtend`, as above. */
  lemma CurrentCallsStep(server: string, zone: string, t: Dict, c: Dict, keys: seq<Key>, n: nat)
    requires n < |keys| && forall k :: k in keys ==> k in c.values
    ensures forall k :: k in keys[..n] ==> k in c.values
    ensures CurrentCalls(server, zone, t, c, keys[..n + 1]) == CurrentCalls(server, zone, t, c, keys[..n]) + CurrentCall(server, zone, t, c, keys[n])
  {
    assert keys[..n + 1][..n] == keys[..n];
  }

  /** The calls sent so far, then one more current key's call. */
  lemma CurrentCallsExtend(sent: seq<ClientCall>, server: string, zone: string, t: Dict, c: Dict, keys: seq<Key>, n: nat)
    requires n < |keys| && forall k :: k in keys ==> k in c.values
    ensures forall k :: k in keys[..n] ==> k in c.values
    ensures (sent + CurrentCalls(server, zone, t, c, keys[..n])) + CurrentCall(server, zone, t, c, keys[n]) ==
      sent + CurrentCalls(server, zone, t, c, keys[..n + 1])
  {
    CurrentCallsStep(server, zone, t, c, keys, n);
    CallsAssoc(sent, CurrentCalls(server, zone, t, c, keys[..n]), CurrentCall(server, zone, t, c, keys[n]));
  }

  /** What a planned request is: an add of a missing key, an update of a differing one, or a delete of a surplus one. */
  predicate PlannedFor(call: ClientCall, server: string, zone: string, t: Dict, c: Dict) {
    && call.server == server && call.zone == zone && !call.AddZoneCall?
    && var k := CallKey(call, zone);
    && !IsExcluded(call.rtype)
    && (call.AddRecordCall? ==> k in t.values && k !in c.values && call == AddCall(server, zone, t.values[k]))
    && (call.UpdateRecordCall? ==>
          k in t.values && k in c.values && !RecordsEqual(t.values[k], c.values[k]) && call == UpdateCall(server, zone, t.values[k], c.values[k]))
    && (call.DeleteRecordCall? ==> k in c.values && k !in t.values && call == DeleteCall(server, zone, c.values[k]))
  }

  ghost predicate KeyedDict(d: Dict, zone: string) {
    && WellFormed(d)
    && forall k :: k in d.values ==> RecordKey(d.values[k], zone) == k && !IsExcluded(d.values[k].rtype)
  }

  /** Each request of the first loop is a planned add or update of one of the loop's keys. */
  lemma {:induction false} TargetCallsSound(server: string, zone: string, t: Dict, c: Dict, keys: seq<Key>, p: seq<ClientCall>)
    requires KeyedDict(t, zone) && KeyedDict(c, zone)
    requires forall k :: k in keys ==> k in t.values
    requires p == TargetCalls(server, zone, t, c, keys)
    ensures forall i :: 0 <= i < |p| ==> PlannedFor(p[i], server, zone, t, c) && CallKey(p[i], zone) in keys
    decreases |keys|
  {
    if keys != [] {
      var init := keys[..|keys| - 1];
      var k := keys[|keys| - 1];
      var front := TargetCalls(server, zone, t, c, init);
      TargetCallsSound(server, zone, t, c, init, front);
      var last := TargetCall(server, zone, t, c, k);
      forall i | 0 <= i < |p| ensures PlannedFor(p[i], server, zone, t, c) && CallKey(p[i], zone) in keys {
        if i < |front| {
          assert p[i] == front[i];
          assert CallKey(front[i], zone) in init;
        } else {
          assert p[i] == last[i - |front|];
        }
      }
    }
  }

  /** Distinct keys give requests for distinct keys. */
  lemma {:induction false} TargetCallsDistinct(server: string, zone: string, t: Dict, c: Dict, keys: seq<Key>, p: seq<ClientCall>)
    requires KeyedDict(t, zone) && KeyedDict(c, zone)
    requires forall k :: k in keys ==> k in t.values
    requires forall i, j :: 0 <= i < j < |keys| ==> keys[i] != keys[j]
    requires p == TargetCalls(server, zone, t, c, keys)
    ensures forall i :: 0 <= i < |p| ==> !p[i].AddZoneCall?
    ensures forall i, j :: 0 <= i < j < |p| ==> CallKey(p[i], zone) != CallKey(p[j], zone)
    decreases |keys|
  {
    TargetCallsSound(server, zone, t, c, keys, p);
    if keys != [] {
      var init := keys[..|keys| - 1];
      var k := keys[|keys| - 1];
      var front := TargetCalls(server, zone, t, c, init);
      TargetCallsDistinct(server, zone, t, c, init, front);
      TargetCallsSound(server, zone, t, c, init, front);
      TargetCallKey(server, zone, t, c, k);
      LastKeyFresh(keys);
      KeysDistinctSnoc(front, TargetCall(server, zone, t, c, k), p, init, k, zone);
    }
  }

  /** The requests of the first loop for key `k` are all about `k`. */
  lemma TargetCallKey(server: string, zone: string, t: Dict, c: Dict, k: Key)
    requires KeyedDict(t, zone) && k in t.values
    ensures forall i :: 0 <= i < |TargetCall(server, zone, t, c, k)| ==>
      !TargetCall(server, zone, t, c, k)[i].AddZoneCall? && CallKey(TargetCall(server, zone, t, c, k)[i], zone) == k
  {
  }

  /** The requests of the second loop for key `k` are all about `k`. */
  lemma CurrentCallKey(server: string, zone: string, t: Dict, c: Dict, k: Key)
    requires KeyedDict(c, zone) && k in c.values
    ensures forall i :: 0 <= i < |CurrentCall(server, zone, t, c, k)| ==>
      !CurrentCall(server, zone, t, c, k)[i].AddZoneCall? && CallKey(CurrentCall(server, zone, t, c, k)[i], zone) == k
  {
  }

  /** In a list of distinct keys the last one is not among the others. */
  lemma LastKeyFresh(keys: seq<Key>)
    requires keys != [] && forall i, j :: 0 <= i < j < |keys| ==> keys[i] != keys[j]
    ensures keys[|keys| - 1] !in keys[..|keys| - 1]
  {
    var init := keys[..|keys| - 1];
    forall i | 0 <= i < |init| ensures init[i] != keys[|keys| - 1] {
      assert init[i] == keys[i];
    }
  }

  /** Requests for distinct earlier keys followed by requests for one new key have distinct keys, at most one per key. */
  lemma KeysDistinctSnoc(front: seq<ClientCall>, last: seq<ClientCall>, p: seq<ClientCall>, init: seq<Key>, k: Key, zone: string)
    requires p == front + last && |last| <= 1 && k !in init
    requires forall i :: 0 <= i < |front| ==> !front[i].AddZoneCall? && CallKey(front[i], zone) in init
    requires forall i :: 0 <= i < |last| ==> !last[i].AddZoneCall? && CallKey(last[i], zone) == k
    requires forall i, j :: 0 <= i < j < |front| ==> CallKey(front[i], zone) != CallKey(front[j], zone)
    ensures forall i, j :: 0 <= i < j < |p| ==> CallKey(p[i], zone) != CallKey(p[j], zone)
  {
    forall i, j | 0 <= i < j < |p| ensures CallKey(p[i], zone) != CallKey(p[j], zone) {
      if j < |front| {
        assert p[i] == front[i] && p[j] == front[j];
      } else {
        assert p[j] == last[j - |front|] && p[i] == front[i];
      }
    }
  }

  /** The first loop adds every missing key and updates every differing one. */
  lemma {:induction false} TargetCallsComplete(server: string, zone: string, t: Dict, c: Dict, keys: seq<Key>, p: seq<ClientCall>)
    requires forall k :: k in keys ==> k in t.values
    requires p == TargetCalls(server, zone, t, c, keys)
    ensures forall k :: k in keys && k !in c.values ==> AddCall(server, zone, t.values[k]) in p
    ensures forall k :: k in keys && k in c.values && !RecordsEqual(t.values[k], c.values[k]) ==>
      UpdateCall(server, zone, t.values[k], c.values[k]) in p
    decreases |keys|
  {
    if keys != [] {
      var init := keys[..|keys| - 1];
      var k := keys[|keys| - 1];
      TargetCallsComplete(server, zone, t, c, init, TargetCalls(server, zone, t, c, init));
      forall k' | k' in keys ensures k' in init || k' == k {
        var i :| 0 <= i < |keys| && keys[i] == k';
        if i < |init| {
          assert init[i] == k';
        }
      }
    }
  }

  /** Each request of the second loop is a planned delete of one of the loop's keys that the target lacks. */
  lemma {:induction false} CurrentCallsSound(server: string, zone: string, t: Dict, c: Dict, keys: seq<Key>, p: seq<ClientCall>)
    requires KeyedDict(t, zone) && KeyedDict(c, zone)
    requires forall k :: k in keys ==> k in c.values
    requires p == CurrentCalls(server, zone, t, c, keys)
    ensures forall i :: 0 <= i < |p| ==> p[i].DeleteRecordCall? && PlannedFor(p[i], server, zone, t, c) && CallKey(p[i], zone) in keys
    decreases |keys|
  {
    if keys != [] {
      var init := keys[..|keys| - 1];
      var k := keys[|keys| - 1];
      var front := CurrentCalls(server, zone, t, c, init);
      CurrentCallsSound(server, zone, t, c, init, front);
      var last := CurrentCall(server, zone, t, c, k);
      forall i | 0 <= i < |p| ensures p[i].DeleteRecordCall? && PlannedFor(p[i], server, zone, t, c) && CallKey(p[i], zone) in keys {
        if i < |front| {
          assert p[i] == front[i];
          assert CallKey(front[i], zone) in init;
        } else {
          assert p[i] == last[i - |front|];
        }
      }
    }
  }

  lemma {:induction false} CurrentCallsDistinct(server: string, zone: string, t: Dict, c: Dict, keys: seq<Key>, p: seq<ClientCall>)
    requires KeyedDict(t, zone) && KeyedDict(c, zone)
    requires forall k :: k in keys ==> k in c.values
    requires forall i, j :: 0 <= i < j < |keys| ==> keys[i] != keys[j]
    requires p == CurrentCalls(server, zone, t, c, keys)
    ensures forall i :: 0 <= i < |p| ==> !p[i].AddZoneCall?
    ensures forall i, j :: 0 <= i < j < |p| ==> CallKey(p[i], zone) != CallKey(p[j], zone)
    decreases |keys|
  {
    CurrentCallsSound(server, zone, t, c, keys, p);
    if keys != [] {
      var init := keys[..|keys| - 1];
      var k := keys[|keys| - 1];
      var front := CurrentCalls(server, zone, t, c, init);
      CurrentCallsDistinct(server, zone, t, c, init, front);
      CurrentCallsSound(server, zone, t, c, init, front);
      CurrentCallKey(server, zone, t, c, k);
      LastKeyFresh(keys);
      KeysDistinctSnoc(front, CurrentCall(server, zone, t, c, k), p, init, k, zone);
    }
  }

  /** The second loop deletes every key the target lacks. */
  lemma {:induction false} CurrentCallsComplete(server: string, zone: string, t: Dict, c: Dict, keys: seq<Key>, p: seq<ClientCall>)
    requires forall k :: k in keys ==> k in c.values
    requires p == CurrentCalls(server, zone, t, c, keys)
    ensures forall k :: k in keys && k !in t.values ==> DeleteCall(server, zone, c.values[k]) in p
    decreases |keys|
  {
    if keys != [] {
      var init := keys[..|keys| - 1];
      var k := keys[|keys| - 1];
      CurrentCallsComplete(server, zone, t, c, init, CurrentCalls(server, zone, t, c, init));
      forall k' | k' in keys ensures k' in init || k' == k {
        var i :| 0 <= i < |keys| && keys[i] == k';
        if i < |init| {
          assert init[i] == k';
        }
      }
    }
  }

  lemma PlanSound(server: string, zone: string, t: Dict, c: Dict, p: seq<ClientCall>)
    requires KeyedDict(t, zone) && KeyedDict(c, zone)
    requires p == TargetCalls(server, zone, t, c, t.order) + CurrentCalls(server, zone, t, c, c.order)
    ensures forall i :: 0 <= i < |p| ==> PlannedFor(p[i], server, zone, t, c)
  {
    var a := TargetCalls(server, zone, t, c, t.order);
    var b := CurrentCalls(server, zone, t, c, c.order);
    TargetCallsSound(server, zone, t, c, t.order, a);
    CurrentCallsSound(server, zone, t, c, c.order, b);
    forall i | 0 <= i < |p| ensures PlannedFor(p[i], server, zone, t, c) {
      if i < |a| {
        assert p[i] == a[i];
      } else {
        assert p[i] == b[i - |a|];
      }
    }
  }

  lemma ConcatDistinct(a: seq<ClientCall>, b: seq<ClientCall>, zone: string, keys: set<Key>)
    requires forall i :: 0 <= i < |a| ==> !a[i].AddZoneCall?
    requires forall i :: 0 <= i < |b| ==> !b[i].AddZoneCall?
    requires forall i, j :: 0 <= i < j < |a| ==> CallKey(a[i], zone) != CallKey(a[j], zone)
    requires forall i, j :: 0 <= i < j < |b| ==> CallKey(b[i], zone) != CallKey(b[j], zone)
    requires forall i :: 0 <= i < |a| ==> CallKey(a[i], zone) in keys
    requires forall i :: 0 <= i < |b| ==> CallKey(b[i], zone) !in keys
    ensures forall i :: 0 <= i < |a + b| ==> !(a + b)[i].AddZoneCall?
    ensures forall i, j :: 0 <= i < j < |a + b| ==> CallKey((a + b)[i], zone) != CallKey((a + b)[j], zone)
  {
    var p := a + b;
    forall i | 0 <= i < |p| ensures !p[i].AddZoneCall? {
      if i >= |a| {
        assert p[i] == b[i - |a|];
      }
    }
    forall i, j | 0 <= i < j < |p| ensures CallKey(p[i], zone) != CallKey(p[j], zone) {
      if j < |a| {
        assert p[i] == a[i] && p[j] == a[j];
      } else if i >= |a| {
        assert p[i] == b[i - |a|] && p[j] == b[j - |a|];
      } else {
        assert p[i] == a[i] && p[j] == b[j - |a|];
      }
    }
  }

  lemma PlanDistinct(server: string, zone: string, t: Dict, c: Dict, p: seq<ClientCall>)
    requires KeyedDict(t, zone) && KeyedDict(c, zone)
    requires p == TargetCalls(server, zone, t, c, t.order) + CurrentCalls(server, zone, t, c, c.order)
    ensures forall i :: 0 <= i < |p| ==> !p[i].AddZoneCall?
    ensures forall i, j :: 0 <= i < j < |p| ==> CallKey(p[i], zone) != CallKey(p[j], zone)
  {
    var a := TargetCalls(server, zone, t, c, t.order);
    var b := CurrentCalls(server, zone, t, c, c.order);
    TargetCallsSound(server, zone, t, c, t.order, a);
    CurrentCallsSound(server, zone, t, c, c.order, b);
    TargetCallsDistinct(server, zone, t, c, t.order, a);
    CurrentCallsDistinct(server, zone, t, c, c.order, b);
    ConcatDistinct(a, b, zone, t.values.Keys);
  }

  lemma PlanComplete(server: string, zone: string, t: Dict, c: Dict, p: seq<ClientCall>)
    requires KeyedDict(t, zone) && KeyedDict(c, zone)
    requires p == TargetCalls(server, zone, t, c, t.order) + CurrentCalls(server, zone, t, c, c.order)
    ensures forall k :: k in t.values && k !in c.values ==> AddCall(server, zone, t.values[k]) in p
    ensures forall k :: k in t.values && k in c.values && !RecordsEqual(t.values[k], c.values[k]) ==>
      UpdateCall(server, zone, t.values[k], c.values[k]) in p
    ensures forall k :: k in c.values && k !in t.values ==> DeleteCall(server, zone, c.values[k]) in p
  {
    var a := TargetCalls(server, zone, t, c, t.order);
    var b := CurrentCalls(server, zone, t, c, c.order);
    TargetCallsComplete(server, zone, t, c, t.order, a);
    CurrentCallsComplete(server, zone, t, c, c.order, b);
  }

  /**
   * `update_server_records` asks for exactly the target-minus-current keys to
   * be added, the current-minus-target keys to be deleted, and the shared keys
   * whose records differ to be updated; it makes at most one request per key,
   * and none for an excluded type.
   */
  lemma PlannedCallsSpec(server: string, zone: string, target: seq<DnsRecord>, current: seq<DnsRecord>, t: Dict, c: Dict, p: seq<ClientCall>)
    requires t == Keyed(target, zone) && c == Keyed(current, zone)
    requires p == PlannedCalls(server, zone, target, current)
    ensures forall i :: 0 <= i < |p| ==> !p[i].AddZoneCall?
    ensures forall i :: 0 <= i < |p| ==> PlannedFor(p[i], server, zone, t, c)
    ensures forall i, j :: 0 <= i < j < |p| ==> CallKey(p[i], zone) != CallKey(p[j], zone)
    ensures forall k :: k in t.values && k !in c.values ==> AddCall(server, zone, t.values[k]) in p
    ensures forall k :: k in t.values && k in c.values && !RecordsEqual(t.values[k], c.values[k]) ==>
      UpdateCall(server, zone, t.values[k], c.values[k]) in p
    ensures forall k :: k in c.values && k !in t.values ==> DeleteCall(server, zone, c.values[k]) in p
  {
    PlanSound(server, zone, t, c, p);
    PlanDistinct(server, zone, t, c, p);
    PlanComplete(server, zone, t, c, p);
  }

  lemma {:induction false} TargetCallsAddressed(server: string, zone: string, t: Dict, c: Dict, keys: seq<Key>, p: seq<ClientCall>)
    requires forall k :: k in keys ==> k in t.values
    requires p == TargetCalls(server, zone, t, c, keys)
    ensures forall i :: 0 <= i < |p| ==> p[i].server == server && p[i].zone == zone && !p[i].AddZoneCall?
    decreases |keys|
  {
    if keys != [] {
      var front := TargetCalls(server, zone, t, c, keys[..|keys| - 1]);
      TargetCallsAddressed(server, zone, t, c, keys[..|keys| - 1], front);
      var last := TargetCall(server, zone, t, c, keys[|keys| - 1]);
      forall i | 0 <= i < |p| ensures p[i].server == server && p[i].zone == zone && !p[i].AddZoneCall? {
        if i < |front| {
          assert p[i] == front[i];
        } else {
          assert p[i] == last[i - |front|];
        }
      }
    }
  }

  lemma {:induction false} CurrentCallsAddressed(server: string, zone: string, t: Dict, c: Dict, keys: seq<Key>, p: seq<ClientCall>)
    requires forall k :: k in keys ==> k in c.values
    requires p == CurrentCalls(server, zone, t, c, keys)
    ensures forall i :: 0 <= i < |p| ==> p[i].server == server && p[i].zone == zone && !p[i].AddZoneCall?
    decreases |keys|
  {
    if keys != [] {
      var front := CurrentCalls(server, zone, t, c, keys[..|keys| - 1]);
      CurrentCallsAddressed(server, zone, t, c, keys[..|keys| - 1], front);
      var last := CurrentCall(server, zone, t, c, keys[|keys| - 1]);
      forall i | 0 <= i < |p| ensures p[i].server == server && p[i].zone == zone && !p[i].AddZoneCall? {
        if i < |front| {
          assert p[i] == front[i];
        } else {
          assert p[i] == last[i - |front|];
        }
      }
    }
  }

  /** Every request `update_server_records(server, zone, ...)` makes goes to that server, for that zone. */
  lemma PlannedCallsAddressed(server: string, zone: string, target: seq<DnsRecord>, current: seq<DnsRecord>, p: seq<ClientCall>)
    requires p == PlannedCalls(server, zone, target, current)
    ensures forall i :: 0 <= i < |p| ==> p[i].server == server && p[i].zone == zone && !p[i].AddZoneCall?
  {
    var t := Keyed(target, zone);
    var c := Keyed(current, zone);
    var a := TargetCalls(server, zone, t, c, t.order);
    var b := CurrentCalls(server, zone, t, c, c.order);
    TargetCallsAddressed(server, zone, t, c, t.order, a);
    CurrentCallsAddressed(server, zone, t, c, c.order, b);
    forall i | 0 <= i < |p| ensures p[i].server == server && p[i].zone == zone && !p[i].AddZoneCall? {
      if i < |a| {
        assert p[i] == a[i];
      } else {
        assert p[i] == b[i - |a|];
      }
    }
  }

  /** With the target equal to the current records, key by key, nothing is requested. */
  lemma PlannedNothing(server: string, zone: string, target: seq<DnsRecord>, current: seq<DnsRecord>)
    requires Keyed(target, zone).values == Keyed(current, zone).values
    ensures PlannedCalls(server, zone, target, current) == []
  {
    var t := Keyed(target, zone);
    var c := Keyed(current, zone);
    var p := PlannedCalls(server, zone, target, current);
    PlannedCallsSpec(server, zone, target, current, t, c, p);
    if p != [] {
      assert PlannedFor(p[0], server, zone, t, c);
      RecordsEqualIsEquality(t.values[CallKey(p[0], zone)], c.values[CallKey(p[0], zone)]);
    }
  }

  // ---------------------------------------------------------------------
  // The effect on the target server's keys

  /**
   * The keys a server holds after the requests, reading an add as inserting
   * its key and a delete as removing its key; an update keeps its key (the
   * old and new data passed are the same key's).
   */
  function KeysAfter(keys: set<Key>, calls: seq<ClientCall>, zone: string): set<Key> {
    if calls == [] then keys
    else
      var before := KeysAfter(keys, calls[..|calls| - 1], zone);
      var call := calls[|calls| - 1];
      match call
      case AddRecordCall(_, _, _, _, _, _) => before + {CallKey(call, zone)}
      case DeleteRecordCall(_, _, _, _, _) => before - {CallKey(call, zone)}
      case UpdateRecordCall(_, _, _, _, _, _) => before
      case AddZoneCall(_, _) => before
  }

  lemma {:induction false} KeysAfterAppend(keys: set<Key>, a: seq<ClientCall>, b: seq<ClientCall>, zone: string)
    ensures KeysAfter(keys, a + b, zone) == KeysAfter(KeysAfter(keys, a, zone), b, zone)
    decreases |b|
  {
    if b == [] {
      assert a + b == a;
    } else {
      assert (a + b)[..|a + b| - 1] == a + b[..|b| - 1];
      assert (a + b)[|a + b| - 1] == b[|b| - 1];
      KeysAfterAppend(keys, a, b[..|b| - 1], zone);
    }
  }

  lemma KeysAfterOne(keys: set<Key>, call: ClientCall, zone: string)
    ensures KeysAfter(keys, [call], zone) ==
      if call.AddRecordCall? then keys + {CallKey(call, zone)}
      else if call.DeleteRecordCall? then keys - {CallKey(call, zone)}
      else keys
  {
    assert [call][..0] == [];
  }

  /** The keys of a list missing from a map, one list element at a time. */
  lemma {:induction false} TargetCallsKeys(keys0: set<Key>, server: string, zone: string, t: Dict, c: Dict, keys: seq<Key>)
    requires forall k :: k in t.values ==> RecordKey(t.values[k], zone) == k
    requires forall k :: k in keys ==> k in t.values
    ensures KeysAfter(keys0, TargetCalls(server, zone, t, c, keys), zone) == keys0 + (set k | k in keys && k !in c.values)
    decreases |keys|
  {
    if keys != [] {
      var init := keys[..|keys| - 1];
      var k := keys[|keys| - 1];
      TargetCallsKeys(keys0, server, zone, t, c, init);
      var front := TargetCalls(server, zone, t, c, init);
      var last := TargetCall(server, zone, t, c, k);
      KeysAfterAppend(keys0, front, last, zone);
      var mid := KeysAfter(keys0, front, zone);
      MissingStep(keys, c.values);
      if k !in c.values {
        KeysAfterOne(mid, AddCall(server, zone, t.values[k]), zone);
        assert KeysAfter(mid, last, zone) == mid + {k};
      } else if !RecordsEqual(t.values[k], c.values[k]) {
        KeysAfterOne(mid, UpdateCall(server, zone, t.values[k], c.values[k]), zone);
      } else {
        assert KeysAfter(mid, last, zone) == mid;
      }
    }
  }

  lemma {:induction false} CurrentCallsKeys(keys0: set<Key>, server: string, zone: string, t: Dict, c: Dict, keys: seq<Key>)
    requires forall k :: k in c.values ==> RecordKey(c.values[k], zone) == k
    requires forall k :: k in keys ==> k in c.values
    ensures KeysAfter(keys0, CurrentCalls(server, zone, t, c, keys), zone) == keys0 - (set k | k in keys && k !in t.values)
    decreases |keys|
  {
    if keys != [] {
      var init := keys[..|keys| - 1];
      var k := keys[|keys| - 1];
      CurrentCallsKeys(keys0, server, zone, t, c, init);
      var front := CurrentCalls(server, zone, t, c, init);
      var last := CurrentCall(server, zone, t, c, k);
      KeysAfterAppend(keys0, front, last, zone);
      var mid := KeysAfter(keys0, front, zone);
      MissingStep(keys, t.values);
      if k !in t.values {
        KeysAfterOne(mid, DeleteCall(server, zone, c.values[k]), zone);
        assert KeysAfter(mid, last, zone) == mid - {k};
      } else {
        assert KeysAfter(mid, last, zone) == mid;
      }
    }
  }

  /**
   * If the server carries out every request, the keys of its zone become
   * exactly the keys of the target records: the owner's records are mirrored.
   */
  lemma PlannedCallsConverge(server: string, zone: string, target: seq<DnsRecord>, current: seq<DnsRecord>)
    ensures KeysAfter(KeysOf(current, zone), PlannedCalls(server, zone, target, current), zone) == KeysOf(target, zone)
  {
    var t := Keyed(target, zone);
    var c := Keyed(current, zone);
    var a := TargetCalls(server, zone, t, c, t.order);
    var b := CurrentCalls(server, zone, t, c, c.order);
    KeysAfterAppend(c.values.Keys, a, b, zone);
    TargetCallsKeys(c.values.Keys, server, zone, t, c, t.order);
    CurrentCallsKeys(KeysAfter(c.values.Keys, a, zone), server, zone, t, c, c.order);
    OrderMinus(t, c);
    OrderMinus(c, t);
    Mirror(t.values.Keys, c.values.Keys);
  }

  /** The keys of a dictionary's order missing from another dictionary. */
  lemma OrderMinus(d: Dict, other: Dict)
    requires WellFormed(d)
    ensures (set k | k in d.order && k !in other.values) == d.values.Keys - other.values.Keys
  {
  }

  /** Adding the missing keys and removing the surplus ones leaves the target keys. */
  lemma Mirror(target: set<Key>, current: set<Key>)
    ensures (current + (target - current)) - (current - target) == target
  {
  }

  // ---------------------------------------------------------------------
  // Counting the accepted calls

  /**
   * The counters after `track_change` for each call in turn that the server
   * accepted. A call for a server with no counter entry is not counted: there
   * `track_change` raises inside the request's `try` and the error is logged.
   */
  function Recount(changes: Changes, calls: seq<ClientCall>, rejected: set<ClientCall>): (r: Changes)
    ensures r.Keys == changes.Keys
  {
    if calls == [] then changes
    else
      var call := calls[|calls| - 1];
      var before := Recount(changes, calls[..|calls| - 1], rejected);
      if call in rejected || call.server !in before then before
      else
        TrackSpec(before, call.server, call.zone, KindOf(call), call.server, call.zone, KindOf(call));
        Track(before, call.server, call.zone, KindOf(call))
  }

  /** Requests sent in three runs are the same requests however the runs are grouped. */
  lemma CallsAssoc(a: seq<ClientCall>, b: seq<ClientCall>, c: seq<ClientCall>)
    ensures (a + b) + c == a + (b + c)
  {
  }

  /** How many accepted calls of a kind were for one server and zone. */
  function Accepted(calls: seq<ClientCall>, rejected: set<ClientCall>, server: string, zone: string, t: ChangeType): nat {
    if calls == [] then 0
    else
      var call := calls[|calls| - 1];
      Accepted(calls[..|calls| - 1], rejected, server, zone, t)
        + (if call !in rejected && call.server == server && call.zone == zone && KindOf(call) == t then 1 else 0)
  }

  /** Each counter grows by the number of accepted calls of its kind for its server and zone. */
  lemma {:induction false} RecountCount(changes: Changes, calls: seq<ClientCall>, rejected: set<ClientCall>, s: string, z: string, t: ChangeType)
    requires s in changes
    ensures Count(Recount(changes, calls, rejected), s, z, t) == Count(changes, s, z, t) + Accepted(calls, rejected, s, z, t)
    decreases |calls|
  {
    if calls != [] {
      var init := calls[..|calls| - 1];
      var call := calls[|calls| - 1];
      RecountCount(changes, init, rejected, s, z, t);
      if call !in rejected && call.server in changes {
        TrackSpec(Recount(changes, init, rejected), call.server, call.zone, KindOf(call), s, z, t);
      }
    }
  }

  lemma {:induction false} RecountAppend(changes: Changes, a: seq<ClientCall>, b: seq<ClientCall>, rejected: set<ClientCall>)
    ensures Recount(changes, a + b, rejected) == Recount(Recount(changes, a, rejected), b, rejected)
    decreases |b|
  {
    if b == [] {
      assert a + b == a;
    } else {
      var init := b[..|b| - 1];
      assert (a + b)[..|a + b| - 1] == a + init;
      assert (a + b)[|a + b| - 1] == b[|b| - 1];
      RecountAppend(changes, a, init, rejected);
    }
  }

  lemma {:induction false} AcceptedAppend(a: seq<ClientCall>, b: seq<ClientCall>, rejected: set<ClientCall>, s: string, z: string, t: ChangeType)
    ensures Accepted(a + b, rejected, s, z, t) == Accepted(a, rejected, s, z, t) + Accepted(b, rejected, s, z, t)
    decreases |b|
  {
    if b == [] {
      assert a + b == a;
    } else {
      assert (a + b)[..|a + b| - 1] == a + b[..|b| - 1];
      assert (a + b)[|a + b| - 1] == b[|b| - 1];
      AcceptedAppend(a, b[..|b| - 1], rejected, s, z, t);
    }
  }

  lemma {:induction false} TargetCallsCounted(server: string, zone: string, t: Dict, c: Dict, keys: seq<Key>)
    requires forall k :: k in keys ==> k in t.values
    ensures Accepted(TargetCalls(server, zone, t, c, keys), {}, server, zone, AddChange) == |AddKeys(t, c, keys)|
    ensures Accepted(TargetCalls(server, zone, t, c, keys), {}, server, zone, UpdateChange) == |UpdateKeys(t, c, keys)|
    ensures Accepted(TargetCalls(server, zone, t, c, keys), {}, server, zone, DeleteChange) == 0
    decreases |keys|
  {
    if keys != [] {
      var init := keys[..|keys| - 1];
      var k := keys[|keys| - 1];
      TargetCallsCounted(server, zone, t, c, init);
      var last := TargetCall(server, zone, t, c, k);
      AcceptedAppend(TargetCalls(server, zone, t, c, init), last, {}, server, zone, AddChange);
      AcceptedAppend(TargetCalls(server, zone, t, c, init), last, {}, server, zone, UpdateChange);
      AcceptedAppend(TargetCalls(server, zone, t, c, init), last, {}, server, zone, DeleteChange);
      if last != [] {
        assert last[..0] == [];
      }
    }
  }

  lemma {:induction false} CurrentCallsCounted(server: string, zone: string, t: Dict, c: Dict, keys: seq<Key>)
    requires forall k :: k in keys ==> k in c.values
    ensures Accepted(CurrentCalls(server, zone, t, c, keys), {}, server, zone, DeleteChange) == |AddKeys(c, t, keys)|
    ensures Accepted(CurrentCalls(server, zone, t, c, keys), {}, server, zone, AddChange) == 0
    ensures Accepted(CurrentCalls(server, zone, t, c, keys), {}, server, zone, UpdateChange) == 0
    decreases |keys|
  {
    if keys != [] {
      var init := keys[..|keys| - 1];
      var k := keys[|keys| - 1];
      CurrentCallsCounted(server, zone, t, c, init);
      var last := CurrentCall(server, zone, t, c, k);
      AcceptedAppend(CurrentCalls(server, zone, t, c, init), last, {}, server, zone, AddChange);
      AcceptedAppend(CurrentCalls(server, zone, t, c, init), last, {}, server, zone, UpdateChange);
      AcceptedAppend(CurrentCalls(server, zone, t, c, init), last, {}, server, zone, DeleteChange);
      if last != [] {
        assert last[..0] == [];
      }
    }
  }

  lemma PlanCounted(server: string, zone: string, t: Dict, c: Dict, p: seq<ClientCall>)
    requires WellFormed(t) && WellFormed(c)
    requires p == TargetCalls(server, zone, t, c, t.order) + CurrentCalls(server, zone, t, c, c.order)
    ensures && Accepted(p, {}, server, zone, AddChange) == |t.values.Keys - c.values.Keys|
      && Accepted(p, {}, server, zone, UpdateChange) == |UpdateKeys(t, c, t.order)|
      && Accepted(p, {}, server, zone, DeleteChange) == |c.values.Keys - t.values.Keys|
  {
    var a := TargetCalls(server, zone, t, c, t.order);
    var b := CurrentCalls(server, zone, t, c, c.order);
    TargetCallsCounted(server, zone, t, c, t.order);
    CurrentCallsCounted(server, zone, t, c, c.order);
    AcceptedAppend(a, b, {}, server, zone, AddChange);
    AcceptedAppend(a, b, {}, server, zone, UpdateChange);
    AcceptedAppend(a, b, {}, server, zone, DeleteChange);
    AddKeysCard(t, c);
    AddKeysCard(c, t);
  }

  /**
   * When every request succeeds, the session counters of the server and
   * zone grow by one add per missing key, one update per differing key and
   * one delete per surplus key.
   */
  lemma PlannedCallsCounted(server: string, zone: string, target: seq<DnsRecord>, current: seq<DnsRecord>, t: Dict, c: Dict, p: seq<ClientCall>)
    requires t == Keyed(target, zone) && c == Keyed(current, zone)
    requires p == PlannedCalls(server, zone, target, current)
    ensures && Accepted(p, {}, server, zone, AddChange) == |t.values.Keys - c.values.Keys|
      && Accepted(p, {}, server, zone, UpdateChange) == |UpdateKeys(t, c, t.order)|
      && Accepted(p, {}, server, zone, DeleteChange) == |c.values.Keys - t.values.Keys|
  {
    PlanCounted(server, zone, t, c, p);
  }

  /**
   * With no request refused, `update_server_records` leaves the server's
   * counters for the zone grown by exactly the adds, updates and deletes the
   * two dictionaries call for.
   */
  lemma PlannedCallsTracked(changes: Changes, server: string, zone: string, target: seq<DnsRecord>, current: seq<DnsRecord>, t: Dict, c: Dict)
    requires server in changes
    requires t == Keyed(target, zone) && c == Keyed(current, zone)
    ensures Count(Recount(changes, PlannedCalls(server, zone, target, current), {}), server, zone, AddChange) ==
      Count(changes, server, zone, AddChange) + |t.values.Keys - c.values.Keys|
    ensures Count(Recount(changes, PlannedCalls(server, zone, target, current), {}), server, zone, UpdateChange) ==
      Count(changes, server, zone, UpdateChange) + |UpdateKeys(t, c, t.order)|
    ensures Count(Recount(changes, PlannedCalls(server, zone, target, current), {}), server, zone, DeleteChange) ==
      Count(changes, server, zone, DeleteChange) + |c.values.Keys - t.values.Keys|
  {
    var p := PlannedCalls(server, zone, target, current);
    PlannedCallsCounted(server, zone, target, current, t, c, p);
    RecountCount(changes, p, {}, server, zone, AddChange);
    RecountCount(changes, p, {}, server, zone, UpdateChange);
    RecountCount(changes, p, {}, server, zone, DeleteChange);
  }

  /** Whatever the servers refuse, `update_server_records(server, zone, ...)` touches no other server's or zone's counters. */
  lemma PlannedCallsIsolated(changes: Changes, server: string, zone: string, target: seq<DnsRecord>, current: seq<DnsRecord>,
                             rejected: set<ClientCall>, s: string, z: string, u: ChangeType)
    requires s in changes && (s, z) != (server, zone)
    ensures Count(Recount(changes, PlannedCalls(server, zone, target, current), rejected), s, z, u) == Count(changes, s, z, u)
  {
    var p := PlannedCalls(server, zone, target, current);
    PlannedCallsAddressed(server, zone, target, current, p);
    RecountCount(changes, p, rejected, s, z, u);
    NoneAccepted(p, rejected, server, zone, s, z, u);
  }

  /** Calls all addressed to one server and zone count nothing for any other pair. */
  lemma {:induction false} NoneAccepted(calls: seq<ClientCall>, rejected: set<ClientCall>, server: string, zone: string, s: string, z: string, t: ChangeType)
    requires forall i :: 0 <= i < |calls| ==> calls[i].server == server && calls[i].zone == zone
    requires (s, z) != (server, zone)
    ensures Accepted(calls, rejected, s, z, t) == 0
    decreases |calls|
  {
    if calls != [] {
      var init := calls[..|calls| - 1];
      assert forall i :: 0 <= i < |init| ==> init[i] == calls[i];
      NoneAccepted(init, rejected, server, zone, s, z, t);
    }
  }
}
