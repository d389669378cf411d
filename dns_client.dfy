/**
 * Request building of the Technitium HTTP client (technisync/dns_client.py,
 * with the identical copy dns_client.py): the per-type rData parameters of
 * `_format_rdata`, the parameter sets of add/update/delete/add_zone, and the
 * token injection and status check of `_make_request`. HTTP itself is not
 * modelled: a server reply is given as data.
 */
module DnsClient {
  import opened Wrappers
  import opened Strings
  import opened Models

  /** A request parameter: requests sends both kinds as text. */
  datatype Param = Str(s: string) | Num(n: int)

  type Params = map<string, Param>

  /** The rData fields the client sends for a record type; none for other types. */
  function FieldsOf(rtype: string): (fields: seq<string>)
    ensures forall i, j :: 0 <= i < j < |fields| ==> fields[i] != fields[j]
  {
    if rtype == "A" || rtype == "AAAA" then ["ipAddress"]
    else if rtype == "CNAME" then ["cname"]
    else if rtype == "MX" then ["preference", "exchange"]
    else if rtype == "NS" then ["nameServer"]
    else if rtype == "TXT" then ["text"]
    else if rtype == "SOA" then
      ["primaryNameServer", "responsiblePerson", "serial", "refresh", "retry", "expire", "minimum"]
    else if rtype == "PTR" then ["ptrName"]
    else []
  }

  /** The record types `_format_rdata` knows. */
  const FormattedTypes: set<string> := {"A", "AAAA", "CNAME", "MX", "NS", "TXT", "SOA", "PTR"}

  /**
   * `_format_rdata(record_type, data, prefix)`: each branch assigns
   * `formatted[prefix + field] = data[field]` for the type's fields in
   * order. Python raises KeyError at the first field `data` lacks; that is a
   * Failure here.
   */
  function FormatRData(rtype: string, data: RData, prefix: string): (r: Result<Params>)
    ensures r.Success? <==> forall f :: f in FieldsOf(rtype) ==> f in data
    ensures r.Success? ==> r.value.Keys == set f | f in FieldsOf(rtype) :: prefix + f
    ensures r.Success? ==> forall f :: f in FieldsOf(rtype) ==> r.value[prefix + f] == Str(data[f])
    ensures rtype !in FormattedTypes ==> r == Success(map[])
  {
    AssignFields(map[], FieldsOf(rtype), data, prefix);
    Assign(map[], FieldsOf(rtype), data, prefix)
  }

  /** The assignments of one branch, applied left to right to `acc`. */
  function Assign(acc: Params, fields: seq<string>, data: RData, prefix: string): Result<Params>
    decreases |fields|
  {
    if fields == [] then Success(acc)
    else if fields[0] !in data then Failure("KeyError: " + fields[0])
    else Assign(acc[prefix + fields[0] := Str(data[fields[0]])], fields[1..], data, prefix)
  }

  lemma PrefixInjective(prefix: string, a: string, b: string)
    requires prefix + a == prefix + b
    ensures a == b
  {
    assert a == (prefix + a)[|prefix|..];
    assert b == (prefix + b)[|prefix|..];
  }

  /**
   * The assignments succeed exactly when every field is present; they add
   * one key per field, each holding that field's value, and keep every other
   * entry of `acc`.
   */
  lemma AssignFields(acc: Params, fields: seq<string>, data: RData, prefix: string)
    requires forall i, j :: 0 <= i < j < |fields| ==> fields[i] != fields[j]
    ensures var r := Assign(acc, fields, data, prefix);
      && (r.Success? <==> forall f :: f in fields ==> f in data)
      && (r.Success? ==> r.value.Keys == acc.Keys + set f | f in fields :: prefix + f)
      && (r.Success? ==> forall f :: f in fields ==> r.value[prefix + f] == Str(data[f]))
      && (r.Success? ==> forall k :: k in acc && k !in (set f | f in fields :: prefix + f) ==> r.value[k] == acc[k])
  {
    AssignSucceeds(acc, fields, data, prefix);
    AssignKeys(acc, fields, data, prefix);
    AssignValues(acc, fields, data, prefix);
    AssignKeeps(acc, fields, data, prefix);
  }

  lemma {:induction false} AssignSucceeds(acc: Params, fields: seq<string>, data: RData, prefix: string)
    ensures Assign(acc, fields, data, prefix).Success? <==> forall f :: f in fields ==> f in data
    decreases |fields|
  {
    if fields != [] {
      assert fields[0] in fields;
      if fields[0] in data {
        AssignSucceeds(acc[prefix + fields[0] := Str(data[fields[0]])], fields[1..], data, prefix);
        assert forall f :: f in fields <==> f == fields[0] || f in fields[1..];
      }
    }
  }

  /** The keys of `{prefix + f | f in fields}`: the first field's and the rest's. */
  lemma PrefixedSplit(fields: seq<string>, prefix: string)
    requires fields != []
    ensures (set f | f in fields :: prefix + f) == {prefix + fields[0]} + (set f | f in fields[1..] :: prefix + f)
  {
    assert forall f :: f in fields <==> f == fields[0] || f in fields[1..];
  }

  lemma {:induction false} AssignKeys(acc: Params, fields: seq<string>, data: RData, prefix: string)
    ensures var r := Assign(acc, fields, data, prefix);
      r.Success? ==> r.value.Keys == acc.Keys + set f | f in fields :: prefix + f
    decreases |fields|
  {
    if fields != [] && fields[0] in data {
      AssignKeys(acc[prefix + fields[0] := Str(data[fields[0]])], fields[1..], data, prefix);
      PrefixedSplit(fields, prefix);
    }
  }

  lemma {:induction false} AssignKeeps(acc: Params, fields: seq<string>, data: RData, prefix: string)
    ensures var r := Assign(acc, fields, data, prefix);
      r.Success? ==> forall k :: k in acc && k !in (set f | f in fields :: prefix + f) ==> k in r.value && r.value[k] == acc[k]
    decreases |fields|
  {
    if fields != [] && fields[0] in data {
      var acc' := acc[prefix + fields[0] := Str(data[fields[0]])];
      AssignKeeps(acc', fields[1..], data, prefix);
      PrefixedSplit(fields, prefix);
      var r := Assign(acc', fields[1..], data, prefix);
      if r.Success? {
        forall k | k in acc && k !in (set f | f in fields :: prefix + f) ensures k in r.value && r.value[k] == acc[k] {
          assert k != prefix + fields[0] && k in acc';
        }
      }
    }
  }

  /** The first field's prefixed key is not one of the other fields' keys. */
  lemma FirstKeyFresh(fields: seq<string>, prefix: string)
    requires fields != [] && forall i, j :: 0 <= i < j < |fields| ==> fields[i] != fields[j]
    ensures prefix + fields[0] !in (set f | f in fields[1..] :: prefix + f)
  {
    forall f | f in fields[1..] ensures prefix + f != prefix + fields[0] {
      if prefix + f == prefix + fields[0] { PrefixInjective(prefix, f, fields[0]); }
    }
  }

  lemma {:induction false} AssignValues(acc: Params, fields: seq<string>, data: RData, prefix: string)
    requires forall i, j :: 0 <= i < j < |fields| ==> fields[i] != fields[j]
    ensures var r := Assign(acc, fields, data, prefix);
      r.Success? ==> forall f :: f in fields ==> f in data && prefix + f in r.value && r.value[prefix + f] == Str(data[f])
    decreases |fields|
  {
    if fields != [] && fields[0] in data {
      var f0 := fields[0];
      var acc' := acc[prefix + f0 := Str(data[f0])];
      assert forall i, j :: 0 <= i < j < |fields[1..]| ==> fields[1..][i] != fields[1..][j] by {
        forall i, j | 0 <= i < j < |fields[1..]| ensures fields[1..][i] != fields[1..][j] {
          assert fields[1..][i] == fields[i + 1] && fields[1..][j] == fields[j + 1];
        }
      }
      AssignValues(acc', fields[1..], data, prefix);
      AssignKeeps(acc', fields[1..], data, prefix);
      FirstKeyFresh(fields, prefix);
      assert forall f :: f in fields <==> f == f0 || f in fields[1..];
    }
  }

  /** The `domain` parameter: the zone apex for `@`, the given name otherwise. */
  function Domain(zone: string, name: string): string {
    if name != "@" then name else zone
  }

  lemma DomainIsZoneIff(zone: string, name: string)
    ensures Domain(zone, name) == zone <==> name == "@" || name == zone
  {
  }

  /** The fixed parameters every record request carries. */
  function BaseParams(zone: string, name: string, rtype: string): Params {
    map["domain" := Str(Domain(zone, name)), "zone" := Str(zone), "type" := Str(rtype)]
  }

  /** Python's `params.update(extra)`: the extra entries win. */
  function Update(params: Params, extra: Params): Params {
    params + extra
  }

  /** `add_record`: domain, zone, type, ttl and the record's rData fields. */
  function AddRecordParams(zone: string, name: string, rtype: string, ttl: int, data: RData): Result<Params> {
    match FormatRData(rtype, data, "")
    case Failure(e) => Failure(e)
    case Success(fields) => Success(Update(BaseParams(zone, name, rtype)["ttl" := Num(ttl)], fields))
  }

  /** `update_record`: domain, zone, type, the old rData fields and the new ones under the prefix `new`. */
  function UpdateRecordParams(zone: string, name: string, rtype: string, oldData: RData, newData: RData): Result<Params> {
    match FormatRData(rtype, oldData, "")
    case Failure(e) => Failure(e)
    case Success(oldFields) =>
      match FormatRData(rtype, newData, "new")
      case Failure(e) => Failure(e)
      case Success(newFields) => Success(Update(Update(BaseParams(zone, name, rtype), oldFields), newFields))
  }

  /** `delete_record`: domain, zone, type and the record's rData fields. */
  function DeleteRecordParams(zone: string, name: string, rtype: string, data: RData): Result<Params> {
    match FormatRData(rtype, data, "")
    case Failure(e) => Failure(e)
    case Success(fields) => Success(Update(BaseParams(zone, name, rtype), fields))
  }

  /** `add_zone`. */
  function AddZoneParams(zone: string): Params {
    map["domain" := Str(zone), "type" := Str("Primary")]
  }

  /** Field names of the known types, as a set. */
  const AllFields: set<string> :=
    {"ipAddress", "cname", "preference", "exchange", "nameServer", "text",
     "primaryNameServer", "responsiblePerson", "serial", "refresh", "retry", "expire", "minimum", "ptrName"}

  /** The fixed parameter names, `token` included. */
  const FixedKeys: set<string> := {"domain", "zone", "type", "ttl", "token"}

  lemma FieldsOfAreKnown(rtype: string)
    ensures forall f :: f in FieldsOf(rtype) ==> f in AllFields
  {
  }

  /** No field name, bare or with the prefix `new`, is one of the fixed parameter names or a bare field name. */
  lemma FieldKeysAvoidFixedKeys(f: string)
    requires f in AllFields
    ensures f !in FixedKeys && "" + f == f
    ensures "new" + f !in FixedKeys
    ensures "new" + f !in AllFields
  {
    var k := "new" + f;
    assert k[0] == 'n' && k[1] == 'e' && k[2] == 'w';
  }

  /** With no prefix the rData keys are the bare field names. */
  lemma BareFieldKeys(rtype: string, data: RData)
    requires FormatRData(rtype, data, "").Success?
    ensures var keys := FormatRData(rtype, data, "").value.Keys;
      keys == (set f | f in FieldsOf(rtype) :: f) && keys <= AllFields && keys !! FixedKeys
  {
    FieldsOfAreKnown(rtype);
    forall f | f in FieldsOf(rtype) ensures f !in FixedKeys && "" + f == f {
      FieldKeysAvoidFixedKeys(f);
    }
  }

  /** With no prefix each field is stored under its own name. */
  lemma BareFieldValues(rtype: string, data: RData)
    requires FormatRData(rtype, data, "").Success?
    ensures forall f :: f in FieldsOf(rtype) ==> f in FormatRData(rtype, data, "").value
    ensures forall f :: f in FieldsOf(rtype) ==> FormatRData(rtype, data, "").value[f] == Str(data[f])
  {
    forall f | f in FieldsOf(rtype) ensures "" + f == f { }
  }

  /** With the prefix `new` no rData key is a bare field name or a fixed parameter name. */
  lemma NewFieldKeys(rtype: string, data: RData)
    requires FormatRData(rtype, data, "new").Success?
    ensures var keys := FormatRData(rtype, data, "new").value.Keys;
      keys == (set f | f in FieldsOf(rtype) :: "new" + f) && keys !! AllFields && keys !! FixedKeys
  {
    FieldsOfAreKnown(rtype);
    forall f | f in FieldsOf(rtype) ensures "new" + f !in FixedKeys && "new" + f !in AllFields {
      FieldKeysAvoidFixedKeys(f);
    }
  }

  /** The keys `add_record` sends: only it sends `ttl`, and every rData field survives the update. */
  lemma AddRecordParamsKeys(zone: string, name: string, rtype: string, ttl: int, data: RData, p: Params)
    requires AddRecordParams(zone, name, rtype, ttl, data) == Success(p)
    ensures p.Keys == {"domain", "zone", "type", "ttl"} + (set f | f in FieldsOf(rtype) :: f)
  {
    var fields := FormatRData(rtype, data, "").value;
    BareFieldKeys(rtype, data);
    BareFieldValues(rtype, data);
    BareFieldsShape(BaseParams(zone, name, rtype)["ttl" := Num(ttl)], fields, p, rtype, data);
  }

  /** The values `add_record` sends: the fixed ones and the rData fields as strings. */
  lemma AddRecordParamsValues(zone: string, name: string, rtype: string, ttl: int, data: RData, p: Params)
    requires AddRecordParams(zone, name, rtype, ttl, data) == Success(p)
    ensures p.Keys >= {"domain", "zone", "type", "ttl"}
    ensures p["domain"] == Str(Domain(zone, name)) && p["zone"] == Str(zone)
    ensures p["type"] == Str(rtype) && p["ttl"] == Num(ttl)
    ensures forall f :: f in FieldsOf(rtype) ==> f in p && p[f] == Str(data[f])
  {
    var fields := FormatRData(rtype, data, "").value;
    BareFieldKeys(rtype, data);
    BareFieldValues(rtype, data);
    BareFieldsShape(BaseParams(zone, name, rtype)["ttl" := Num(ttl)], fields, p, rtype, data);
  }

  /**
   * What `update_record` sends: the old fields under their own names and the
   * new ones under `new`-prefixed names, none overwriting another, and no ttl.
   */
  lemma UpdateRecordParamsShape(zone: string, name: string, rtype: string, oldData: RData, newData: RData, p: Params)
    requires UpdateRecordParams(zone, name, rtype, oldData, newData) == Success(p)
    ensures p.Keys == {"domain", "zone", "type"} + (set f | f in FieldsOf(rtype) :: f) + (set f | f in FieldsOf(rtype) :: "new" + f)
    ensures "ttl" !in p
    ensures p["domain"] == Str(Domain(zone, name)) && p["zone"] == Str(zone) && p["type"] == Str(rtype)
    ensures forall f :: f in FieldsOf(rtype) ==> p[f] == Str(oldData[f])
    ensures forall f :: f in FieldsOf(rtype) ==> p["new" + f] == Str(newData[f])
  {
    var oldFields, newFields := UpdateRecordParamsParts(zone, name, rtype, oldData, newData, p);
    UpdateFieldsDisjoint(rtype, oldData, newData, oldFields, newFields);
    ThreeParts(BaseParams(zone, name, rtype), oldFields, newFields, p);
    BareFieldKeys(rtype, oldData);
    NewFieldKeys(rtype, newData);
    forall f | f in FieldsOf(rtype) ensures p[f] == Str(oldData[f]) {
      BareFieldValues(rtype, oldData);
      assert f in oldFields;
    }
  }

  /** The old and the new rData keys avoid each other and the fixed parameter names. */
  lemma UpdateFieldsDisjoint(rtype: string, oldData: RData, newData: RData, oldFields: Params, newFields: Params)
    requires FormatRData(rtype, oldData, "") == Success(oldFields)
    requires FormatRData(rtype, newData, "new") == Success(newFields)
    ensures oldFields.Keys !! FixedKeys && newFields.Keys !! FixedKeys && oldFields.Keys !! newFields.Keys
  {
    BareFieldKeys(rtype, oldData);
    NewFieldKeys(rtype, newData);
  }

  /** The two rData dictionaries an `update_record` request is built from. */
  lemma UpdateRecordParamsParts(zone: string, name: string, rtype: string, oldData: RData, newData: RData, p: Params)
    returns (oldFields: Params, newFields: Params)
    requires UpdateRecordParams(zone, name, rtype, oldData, newData) == Success(p)
    ensures FormatRData(rtype, oldData, "") == Success(oldFields)
    ensures FormatRData(rtype, newData, "new") == Success(newFields)
    ensures p == Update(Update(BaseParams(zone, name, rtype), oldFields), newFields)
  {
    oldFields := FormatRData(rtype, oldData, "").value;
    newFields := FormatRData(rtype, newData, "new").value;
  }

  /** `base` updated with two dictionaries of rData keys that avoid each other and the fixed keys. */
  lemma ThreeParts(base: Params, oldFields: Params, newFields: Params, p: Params)
    requires base.Keys == {"domain", "zone", "type"}
    requires oldFields.Keys !! FixedKeys && newFields.Keys !! FixedKeys && oldFields.Keys !! newFields.Keys
    requires p == Update(Update(base, oldFields), newFields)
    ensures p.Keys == base.Keys + oldFields.Keys + newFields.Keys
    ensures "ttl" !in p
    ensures forall k :: k in base ==> p[k] == base[k]
    ensures forall k :: k in oldFields ==> p[k] == oldFields[k]
    ensures forall k :: k in newFields ==> p[k] == newFields[k]
  {
  }

  /** The keys `delete_record` sends: domain, zone, type and the rData fields, no ttl. */
  lemma DeleteRecordParamsKeys(zone: string, name: string, rtype: string, data: RData, p: Params)
    requires DeleteRecordParams(zone, name, rtype, data) == Success(p)
    ensures p.Keys == {"domain", "zone", "type"} + (set f | f in FieldsOf(rtype) :: f)
    ensures "ttl" !in p
  {
    var fields := FormatRData(rtype, data, "").value;
    BareFieldKeys(rtype, data);
    BareFieldValues(rtype, data);
    BareFieldsShape(BaseParams(zone, name, rtype), fields, p, rtype, data);
  }

  /** The values `delete_record` sends: the record's domain and the rData fields as strings. */
  lemma DeleteRecordParamsValues(zone: string, name: string, rtype: string, data: RData, p: Params)
    requires DeleteRecordParams(zone, name, rtype, data) == Success(p)
    ensures "domain" in p && p["domain"] == Str(Domain(zone, name))
    ensures forall f :: f in FieldsOf(rtype) ==> f in p && p[f] == Str(data[f])
  {
    var fields := FormatRData(rtype, data, "").value;
    BareFieldKeys(rtype, data);
    BareFieldValues(rtype, data);
    BareFieldsShape(BaseParams(zone, name, rtype), fields, p, rtype, data);
  }

  /**
   * `add_zone` sends exactly the zone name as `domain` and the type
   * `Primary`: no `zone` and no `ttl`, and with the token added nothing else.
   */
  lemma AddZoneParamsShape(zone: string, apiKey: string)
    ensures AddZoneParams(zone).Keys == {"domain", "type"}
    ensures AddZoneParams(zone)["domain"] == Str(zone) && AddZoneParams(zone)["type"] == Str("Primary")
    ensures "ttl" !in AddZoneParams(zone) && "zone" !in AddZoneParams(zone)
    ensures SentParams(Some(AddZoneParams(zone)), apiKey).Keys == {"domain", "type", "token"}
  {
  }

  /** Fixed parameters updated with the bare rData fields keep both. */
  lemma BareFieldsShape(base: Params, fields: Params, p: Params, rtype: string, data: RData)
    requires base.Keys <= FixedKeys && p == Update(base, fields)
    requires fields.Keys == (set f | f in FieldsOf(rtype) :: f) && fields.Keys !! FixedKeys
    requires forall f :: f in FieldsOf(rtype) ==> f in fields && f in data && fields[f] == Str(data[f])
    ensures p.Keys == base.Keys + (set f | f in FieldsOf(rtype) :: f)
    ensures forall k :: k in base ==> p[k] == base[k]
    ensures forall f :: f in FieldsOf(rtype) ==> p[f] == Str(data[f])
  {
  }

  // ---------------------------------------------------------------------
  // _make_request

  datatype HttpMethod = Get | Post | OtherMethod(name: string)

  /** The decoded JSON body of a reply: `status`, `errorMessage` and `response`, each possibly absent. */
  datatype Reply<T> = Reply(status: Option<string>, errorMessage: Option<string>, response: Option<T>)

  /** The parameters actually sent: the caller's (None standing for `params=None`) with `token` set to the API key. */
  function SentParams(params: Option<Params>, apiKey: string): (sent: Params)
    ensures "token" in sent && sent["token"] == Str(apiKey)
    ensures params.Some? ==> sent.Keys == params.value.Keys + {"token"}
    ensures params.Some? ==> forall k :: k in params.value && k != "token" ==> sent[k] == params.value[k]
    ensures params.None? ==> sent.Keys == {"token"}
  {
    params.GetOr(map[])["token" := Str(apiKey)]
  }

  /**
   * The outcome of `_make_request`: the reply's `response` (or `empty`, the
   * `{}` default) when the status is `ok`; an error for a failed transfer
   * (`reply` None), an unknown HTTP method (Python hits an unbound `response`),
   * a missing status or any status other than `ok`.
   */
  function RequestOutcome<T>(httpMethod: HttpMethod, reply: Option<Reply<T>>, empty: T): (r: Result<T>)
    ensures r.Success? <==>
      !httpMethod.OtherMethod? && reply.Some? && reply.value.status == Some("ok")
    ensures r.Success? ==> r.value == reply.value.response.GetOr(empty)
  {
    if httpMethod.OtherMethod? then Failure("UnboundLocalError: response")
    else match reply
      case None => Failure("request failed")
      case Some(Reply(status, errorMessage, response)) =>
        match status
        case None => Failure("KeyError: status")
        case Some(s) =>
          if s != "ok" then Failure("API error: " + errorMessage.GetOr("Unknown error"))
          else Success(response.GetOr(empty))
  }

  /** A non-`ok` status reports the server's error message, or `Unknown error` without one. */
  lemma ApiErrorMessage<T>(httpMethod: HttpMethod, status: string, errorMessage: Option<string>, response: Option<T>, empty: T)
    requires !httpMethod.OtherMethod? && status != "ok"
    ensures RequestOutcome(httpMethod, Some(Reply(Some(status), errorMessage, response)), empty)
            == Failure("API error: " + errorMessage.GetOr("Unknown error"))
  {
  }
}
