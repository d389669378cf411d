# TechniSync in Dafny

TechniSync keeps several Technitium DNS servers in step. For each configured
server it reads the records of every zone it should sync. It stores them in SQLite as a
"shadow copy" with soft-deleted rows. It then pushes each zone to every other
server: the zone owner's records when the zone has an owner, otherwise a
merge in which the first configured server wins. This project models that core:

- `Models` (models.dfy): the record value, `__eq__` and `__hash__`,
  `to_dict` and `from_dict`, the reverse and internal zone tests, and
  `get_reverse_zone_from_network` over dotted IPv4 octets and masks.
- `SyncCore` (sync_core.dfy): `record_key`, `records_equal` and
  `should_sync_zone`. It also models the two dictionary comprehensions, where
  the last record of a key wins. And it models the merge of
  `get_all_records_for_zone`, where the first record of a key wins. A
  Python insertion-ordered dict is a `Dict` of key order plus map.
- `Db` (db_manager.dfy): class `DatabaseManager`. Its fields are the
  `dns_records` rows (a `seq<Row>` in table order), the `zone_ownership`
  map and the table's columns. Each SQL statement is a function on the rows,
  and the methods assign its result.
- `SyncPlan` (sync_plan.dfy): what `process_records` does to the rows and
  to the counters, as functions. It also holds the two findings below, with the
  corrected by-key variant.
- `ClientPlan` (client_plan.dfy): the requests that `update_server_records`
  makes, and the counters that `track_change` keeps for the accepted ones.
- `Propagation` (propagation.dfy): every request of `propagate_changes`.
- `Sync` (sync_manager.dfy): class `SyncManager`. Its stateful fields are
  `changes` and a log `calls` of every request sent through the DNS clients.
  Each method (with its loops) is proved equal to the value functions above.
- `DnsClient` (dns_client.dfy): `_format_rdata`, and the parameter maps of
  `add_record`, `update_record`, `delete_record` and `add_zone`. It also models
  the token and the outcome of `_make_request`.
- `Redaction` (redaction.dfy): `SensitiveFormatter.format`, which
  substitutes `token=` and then `api_key=` values.
- `Config`, `Environment` and `Strings` (config.dfy, environment.dfy,
  strings.dfy): `technisync/config.py`. The YAML document and the
  environment are values. The files also model Python's `int`, `str`, `strip`,
  `lower`, `split` and `join` as the settings use them.
- `RootConfig` (root_config.dfy): the older top-level `config.py`.

The world outside is passed in as values:
- what each server answers to `get_records` (a map from server and zone to
  records: a missing entry means the request failed);
- what it answers to `get_zones`;
- the set of write requests the servers refuse (an exception inside the
  request's `try`);
- the time, which is a `Clock` parameter.

The two copies of `dns_client.py` are identical, and one model covers both.

## Model

| member | source | states |
|---|---|---|
| Models.ToDict | technisync/models.py:23-29 | the dictionary has exactly the keys name, type, ttl and rData |
| Models.FromDict | technisync/models.py:31-38 | a record exactly when all four keys are present with values of the field's kind; None when a key is missing (Python's KeyError) or a value has another kind |
| Models.FromDictToDict | technisync/models.py:23-38 | `from_dict(to_dict(r))` gives back `r` |
| Models.ToDictFromDict | technisync/models.py:23-38 | `to_dict(from_dict(d))` is `d` restricted to its four record keys |
| Models.RecordEqIsEquality | technisync/models.py:12-18 | `__eq__` holds exactly for another record with equal name, type, ttl and rdata; a non-record is never equal |
| Models.Items | technisync/models.py:20-21 | the item set holds exactly the rdata's key/value pairs |
| Models.ItemsInjective | technisync/models.py:20-21 | the frozen item set determines the rdata map |
| Models.HashConsistentWithEq | technisync/models.py:12-21 | two records are `__eq__` exactly when their hashed tuples are equal |
| Models.InternalZoneIsReverse | technisync/models.py:67-72 | every internal zone except `localhost` is a reverse zone |
| Models.MaskOctetsOf | technisync/models.py:74-79 | a valid prefix length or netmask gives a contiguous dotted netmask |
| Models.NetworkAddress | technisync/models.py:74-79 | the network address is a valid IPv4 address: each octet is the address octet AND the mask octet (`strict=False`) |
| Models.ReverseZoneFromNetwork | technisync/models.py:74-79 | gives a zone exactly when the address and the mask are valid, and that zone is a reverse zone |
| Models.ReverseZoneIgnoresHostBits | technisync/models.py:74-79 | two addresses with the same network address give the same zone |
| Models.ReverseZoneIgnoresFourthOctet | technisync/models.py:74-79 | the fourth octet never changes the zone, because the first label of the reverse pointer is dropped |
| Models.ReverseZoneInjective | technisync/models.py:74-79 | equal zones come from networks with equal first three octets |
| Models.ReverseZoneNameInjective | technisync/models.py:74-79 | the zone name `c.b.a.in-addr.arpa` determines `a`, `b` and `c` |
| SyncCore.RecordKeyCases | technisync/sync_manager.py:223-230 | the key keeps type and rData; a name inside the zone loses exactly `.zone`; the apex becomes `@`; any other name is kept |
| SyncCore.RelativeNameInverse | technisync/sync_manager.py:223-230 | for names inside the zone (except the literal `@.zone`), the relative name gives back the name |
| SyncCore.SpellingsShareKey | technisync/sync_manager.py:223-230 | `host` and `host.zone` with the same type and rData have the same key |
| SyncCore.RecordsEqualIsEquality | technisync/sync_manager.py:193-195 | `records_equal` is equality of the whole record |
| SyncCore.SameKeyDiffers | technisync/sync_manager.py:193-230 | two records with one key that `records_equal` tells apart differ in ttl or in the spelling of the name |
| SyncCore.ShouldSyncZoneSpec | technisync/sync_manager.py:64-69 | internal zones never sync; with no zone list every other zone syncs; otherwise exactly the listed zones, plus reverse zones when the flag is set |
| SyncCore.ShouldSyncZoneFlag | technisync/sync_manager.py:64-69 | with no zone list the reverse-zone flag has no effect; with it off exactly the listed non-internal zones sync; turning it on adds only reverse zones |
| SyncCore.InternalZoneNeverSynced | technisync/sync_manager.py:64-76 | `127.in-addr.arpa` and `localhost` are never synced, whatever the settings |
| SyncCore.Keyed | technisync/sync_manager.py:90-91 | the comprehension has distinct keys in first-appearance order, exactly the keys of the non-excluded records; each value has its own key and a non-excluded type |
| SyncCore.KeyedLastWins | technisync/sync_manager.py:90-91 | the value kept for a key is its last record in the list |
| SyncCore.FirstWins | technisync/sync_manager.py:182-191 | the merge has distinct keys, exactly the keys of the non-excluded records, each mapped to a record of that key |
| SyncCore.FirstWinsEarliest | technisync/sync_manager.py:186-190 | the value kept for a key is its first record in the list |
| SyncCore.FirstWinsSnoc | technisync/sync_manager.py:186-190 | one more record is inserted only when its type is not excluded and its key is new |
| SyncCore.Values | technisync/sync_manager.py:191 | `list(values())` lists the values in key order |
| SyncCore.FirstWinsValues | technisync/sync_manager.py:182-191 | the merged list has pairwise distinct keys, no excluded type, and one record per key of the input |
| SyncPlan.TrackSpec | technisync/sync_manager.py:197-200 | only the named counter of the named server and zone grows, by one; a new zone entry starts at zero; other servers are untouched |
| SyncPlan.TrackAddCounts | technisync/sync_manager.py:197-200 | one more `track_change` adds one to the matching total |
| SyncPlan.AddCountsCount | technisync/sync_manager.py:93-106 | adding totals for a server and zone raises exactly its three counters by those totals |
| SyncPlan.ResetChanges | technisync/sync_manager.py:12 | every configured server has an entry, and every counter reads zero |
| SyncPlan.AddKeysMembers | technisync/sync_manager.py:93-97 | a key is added exactly when it is remote and not local |
| SyncPlan.UpdateKeysMembers | technisync/sync_manager.py:98-101 | a key is updated exactly when it is remote and local and the two records differ |
| SyncPlan.AddKeysDistinct | technisync/sync_manager.py:93-97 | no key is added twice |
| SyncPlan.AddKeysCard | technisync/sync_manager.py:93-97 | the number of adds is the number of remote keys missing locally |
| SyncPlan.UpdateKeysDiffer | technisync/sync_manager.py:98-101 | an update always has the same type and rData, and a changed ttl or name spelling |
| SyncPlan.StampDeleted | technisync/sync_manager.py:103-106 | the delete loop stamps exactly the live rows of the server and zone whose name and type are deleted, and changes nothing else |
| SyncPlan.StampOneMore | technisync/db_manager.py:107-120 | one more `delete_record` stamps one more name and type, whatever the order of the deletes |
| SyncPlan.DeleteStep | technisync/sync_manager.py:103-106 | one iteration of the delete loop stamps one more key's rows and counts one more delete |
| SyncPlan.ApplyRemoteShape | technisync/sync_manager.py:93-101 | the add/update loop appends one row per added key, for this server and zone, and keeps the rows of other servers and zones |
| SyncPlan.ProcessRowsShape | technisync/sync_manager.py:89-106 | `process_records` inserts exactly one row per missing remote key and never touches another server's or zone's rows |
| SyncPlan.ApplyRemoteUnchanged | technisync/sync_manager.py:93-101 | keys whose records match locally cause no write |
| SyncPlan.ProcessRowsUnchanged | technisync/sync_manager.py:89-106 | when the remote records equal the local ones key by key, the table is unchanged |
| SyncPlan.ChangedRDataLosesRecord | technisync/db_manager.py:107-120 | a new rData for a live name and type leaves no live row, so the shadow copy no longer mirrors the server (see Findings) |
| SyncPlan.ChangedTtlOverwritesSibling | technisync/db_manager.py:90-105 | a new ttl for one of two live records of one name and type also gives the other its rData, so the shadow copy loses that record (see Findings) |
| SyncPlan.SelectKeys | technisync/db_manager.py:55-70 | the keys `get_records` yields are the keys of the live rows |
| SyncPlan.AppendKeys | technisync/db_manager.py:72-88 | an inserted row adds exactly its key to the live keys |
| SyncPlan.UpdateRowsByKey | technisync/db_manager.py:90-105 | the corrected update touches exactly the live rows with that record's key |
| SyncPlan.UpdateByKeyKeys | technisync/db_manager.py:90-105 | an update by key leaves the live keys unchanged |
| SyncPlan.StampKeys | technisync/db_manager.py:107-120 | the corrected delete stamps exactly the live rows whose key is deleted |
| SyncPlan.StampKeysKeys | technisync/db_manager.py:107-120 | a delete by key removes exactly those keys from the live keys |
| SyncPlan.ApplyRemoteByKeyKeys | technisync/sync_manager.py:93-101 | the corrected add/update loop adds exactly the remote keys missing locally |
| SyncPlan.ByKeyLiveKeys | technisync/sync_manager.py:89-106 | when the local keys are the live keys, the corrected pass leaves exactly the remote keys live |
| SyncPlan.ProcessRowsByKeyMirrors | technisync/sync_manager.py:89-106 | corrected `process_records`, run against the current shadow copy, leaves exactly the remote records' keys live |
| Db.Select | technisync/db_manager.py:55-70 | `get_records` returns at most one record per row |
| Db.SelectMember | technisync/db_manager.py:55-70 | a record is listed exactly when some live row of that server and zone projects to it |
| Db.SelectFrame | technisync/db_manager.py:55-70 | rows that agree on liveness and projection give the same listing |
| Db.DistinctZones | technisync/db_manager.py:135-137 | `SELECT DISTINCT zone` lists each zone of any row, including deleted ones, exactly once |
| Db.UpdateRows | technisync/db_manager.py:90-105 | exactly the live rows with that server, zone, name and type get the new ttl, rdata and time |
| Db.DeleteRows | technisync/db_manager.py:107-120 | exactly the live rows with that server, zone, name and type are stamped deleted, whatever their rdata |
| Db.AddThenSelect | technisync/db_manager.py:72-88 | after `add_record`, the server and zone's listing is the old one plus the record |
| Db.AddOtherSelect | technisync/db_manager.py:72-88 | `add_record` does not change any other server's or zone's listing |
| Db.UpdateThenSelect | technisync/db_manager.py:90-105 | records of other names and types are listed as before; the listed records of that name and type carry the new ttl and rdata |
| Db.UpdateOtherSelect | technisync/db_manager.py:90-105 | `update_record` does not change any other server's or zone's listing |
| Db.DeleteThenSelect | technisync/db_manager.py:107-120 | after `delete_record` the listing is the old one without every record of that name and type |
| Db.DeleteOtherSelect | technisync/db_manager.py:107-120 | `delete_record` does not change any other server's or zone's listing |
| Db.DeleteKeepsRows | technisync/db_manager.py:107-120 | a delete is soft: no row disappears, only `deleted_at` changes, and rows already deleted keep their stamp |
| Db.CheckIdempotent | technisync/db_manager.py:15-25 | after the check the table has every required column, a second check changes nothing, and the rows are kept exactly when the columns were complete |
| Db.DatabaseManager.constructor | technisync/db_manager.py:6-13 | opening keeps a records table with all columns and its rows, else recreates it empty; the ownership table is kept |
| Db.DatabaseManager.CheckAndCreateRecordsTable | technisync/db_manager.py:15-25 | the PRAGMA check on the current table: kept or dropped and recreated |
| Db.DatabaseManager.GetRecords | technisync/db_manager.py:55-70 | lists exactly the projections of the live rows of that server and zone |
| Db.DatabaseManager.AddRecord | technisync/db_manager.py:72-88 | appends one live row with both times set to now; the listing grows by the record |
| Db.DatabaseManager.UpdateRecord | technisync/db_manager.py:90-105 | the rows become the UPDATE statement's result; ownership is untouched |
| Db.DatabaseManager.DeleteRecord | technisync/db_manager.py:107-120 | the rows become the soft-delete statement's result; ownership is untouched |
| Db.DatabaseManager.GetZoneOwner | technisync/db_manager.py:122-125 | the owner exactly when the zone has an ownership row, else None |
| Db.DatabaseManager.SetZoneOwner | technisync/db_manager.py:127-133 | INSERT OR REPLACE: the zone's owner becomes `owner`, and every other zone's owner is unchanged |
| Db.DatabaseManager.GetAllZones | technisync/db_manager.py:135-137 | every zone of the table, once each |
| DnsClient.FieldsOf | technisync/dns_client.py:80-104 | each type's field list has no repeats |
| DnsClient.FormatRData | technisync/dns_client.py:80-104 | succeeds exactly when every field of the type is in the data (KeyError otherwise); the keys are prefix + field; each value is the field's data; an unlisted type gives `{}` |
| DnsClient.DomainIsZoneIff | technisync/dns_client.py:44-52 | the `domain` parameter is the zone exactly for the name `@` or the zone's own name |
| DnsClient.AddRecordParamsKeys | technisync/dns_client.py:44-52 | `add_record` sends exactly domain, zone, type, ttl and the type's fields |
| DnsClient.AddRecordParamsValues | technisync/dns_client.py:44-52 | those parameters hold the domain, the zone, the type, the ttl and each field's data |
| DnsClient.UpdateFieldsDisjoint | technisync/dns_client.py:54-62 | old fields, `new` fields and fixed keys never collide |
| DnsClient.UpdateRecordParamsShape | technisync/dns_client.py:54-62 | `update_record` sends domain, zone, type, the old fields under their names and the new fields under `new` names, with no ttl |
| DnsClient.DeleteRecordParamsKeys | technisync/dns_client.py:64-71 | `delete_record` sends exactly domain, zone, type and the type's fields, with no ttl |
| DnsClient.DeleteRecordParamsValues | technisync/dns_client.py:64-71 | those parameters hold the domain and each field's data |
| DnsClient.AddZoneParamsShape | technisync/dns_client.py:73-78 | `add_zone` sends exactly domain = the zone name and type = `Primary`, with no zone and no ttl; with the token, nothing else |
| DnsClient.SentParams | technisync/dns_client.py:11-14 | the token is always sent with the API key; every other parameter is kept |
| DnsClient.RequestOutcome | technisync/dns_client.py:11-36 | success exactly for GET or POST with a reply of status `ok`, and then the `response` entry or `{}` |
| DnsClient.ApiErrorMessage | technisync/dns_client.py:24-25 | any other status fails with `API error:` and the server's message or `Unknown error` |
| ClientPlan.TargetCallsSound | technisync/sync_manager.py:139-153 | every request of the first loop is a planned add of a missing key or a planned update of a differing one |
| ClientPlan.TargetCallsDistinct | technisync/sync_manager.py:139-153 | the first loop makes at most one request per key |
| ClientPlan.TargetCallsComplete | technisync/sync_manager.py:139-153 | it adds every missing key and updates every differing one |
| ClientPlan.CurrentCallsSound | technisync/sync_manager.py:155-162 | every request of the second loop is a delete of a current key the target lacks |
| ClientPlan.CurrentCallsDistinct | technisync/sync_manager.py:155-162 | the second loop makes at most one request per key |
| ClientPlan.CurrentCallsComplete | technisync/sync_manager.py:155-162 | it deletes every current key the target lacks |
| ClientPlan.PlanSound | technisync/sync_manager.py:139-162 | every request of both loops is a planned add, update or delete |
| ClientPlan.PlanDistinct | technisync/sync_manager.py:139-162 | both loops together make at most one request per key |
| ClientPlan.PlanComplete | technisync/sync_manager.py:139-162 | both loops together make every needed add, update and delete |
| ClientPlan.PlannedCallsSpec | technisync/sync_manager.py:136-162 | `update_server_records` requests exactly the adds, updates and deletes the two dictionaries call for, at most one per key, never for an excluded type |
| ClientPlan.PlannedCallsAddressed | technisync/sync_manager.py:128-162 | every request goes to that server, for that zone, and is a record request |
| ClientPlan.PlannedNothing | technisync/sync_manager.py:136-162 | with target and current equal key by key, no request is made |
| ClientPlan.TargetCallsKeys | technisync/sync_manager.py:139-153 | carried out, the first loop adds exactly the missing keys |
| ClientPlan.CurrentCallsKeys | technisync/sync_manager.py:155-162 | carried out, the second loop removes exactly the surplus keys |
| ClientPlan.PlannedCallsConverge | technisync/sync_manager.py:128-162 | when every request succeeds, the server's keys for the zone become exactly the target's keys |
| ClientPlan.Recount | technisync/sync_manager.py:142-162 | counting the accepted requests keeps the set of servers |
| ClientPlan.RecountCount | technisync/sync_manager.py:197-200 | each counter grows by the number of accepted requests of its kind for its server and zone |
| ClientPlan.RecountAppend | technisync/sync_manager.py:139-162 | counting two runs of requests is counting one after the other |
| ClientPlan.TargetCallsCounted | technisync/sync_manager.py:139-153 | with nothing refused, the first loop counts one add per missing key and one update per differing key |
| ClientPlan.CurrentCallsCounted | technisync/sync_manager.py:155-162 | with nothing refused, the second loop counts one delete per surplus key |
| ClientPlan.PlanCounted | technisync/sync_manager.py:139-162 | both loops count exactly the adds, the updates and the deletes |
| ClientPlan.PlannedCallsCounted | technisync/sync_manager.py:136-162 | the accepted counts are the sizes of target-minus-current, the differing shared keys, and current-minus-target |
| ClientPlan.PlannedCallsTracked | technisync/sync_manager.py:128-162 | with nothing refused, the server's counters for the zone grow by exactly those sizes |
| ClientPlan.PlannedCallsIsolated | technisync/sync_manager.py:128-162 | no counter of another server or zone changes |
| Propagation.EarliestServerWins | technisync/sync_manager.py:182-191 | for a key several servers hold, the earliest server's first record of the key is kept |
| Propagation.ServerCallsFor | technisync/sync_manager.py:118-120 | one server's share goes to that server and zone, and creates a zone only for a reverse zone |
| Propagation.FanOutFor | technisync/sync_manager.py:116-126 | the server loop writes only to configured servers, never to the owner, and for this zone only |
| Propagation.PropagateFor | technisync/sync_manager.py:108-126 | `propagate_changes` writes only zones of the shadow copy that are not internal, only to configured servers, never to a zone's owner, and creates only reverse zones |
| Propagation.NoServersNoCalls | technisync/sync_manager.py:108-126 | with no configured servers, nothing is sent |
| Sync.SyncManager.constructor | technisync/sync_manager.py:7-12 | the counters start with one empty entry per configured server, and nothing has been sent |
| Sync.SyncManager.TrackChange | technisync/sync_manager.py:197-200 | `changes` becomes the `track_change` value and nothing else changes |
| Sync.SyncManager.Request | technisync/sync_manager.py:142-146 | one client request is logged, and counted when the server accepts it |
| Sync.SyncManager.ProcessRecords | technisync/sync_manager.py:89-106 | the rows become the `process_records` value; the counters grow by the number of adds, updates and deletes; nothing is sent to a server |
| Sync.SyncManager.ApplyRemoteRecords | technisync/sync_manager.py:93-101 | the add/update loop, proved against its value function and counts |
| Sync.SyncManager.ApplyRemoteRecord | technisync/sync_manager.py:94-101 | one remote key: a missing key is added, a differing one updated, and each is counted |
| Sync.SyncManager.DeleteMissingRecords | technisync/sync_manager.py:103-106 | the delete loop, in any order of the set, stamps exactly the surplus keys' names and types and counts one delete per key |
| Sync.SyncManager.DeleteOneMissing | technisync/sync_manager.py:103-106 | one iteration takes a pending key and moves it to the done keys |
| Sync.SyncManager.DeleteLocal | technisync/sync_manager.py:104-106 | one `delete_record` and one counted delete |
| Sync.SyncManager.SyncZone | technisync/sync_manager.py:78-87 | a failed fetch changes nothing; otherwise the rows become `process_records` of the fetched records against `get_records`, and the zone's add, update and delete counters grow by the numbers of missing, differing and surplus keys |
| Sync.SyncManager.UpdateServerRecords | technisync/sync_manager.py:128-162 | a failed fetch sends and counts nothing; otherwise the planned requests are sent and the accepted ones counted |
| Sync.SyncManager.SendTargetCalls | technisync/sync_manager.py:139-153 | the first loop sends exactly its requests in key order |
| Sync.SyncManager.SendTargetCall | technisync/sync_manager.py:140-153 | one target key's request is sent and counted |
| Sync.SyncManager.SendCurrentCalls | technisync/sync_manager.py:155-162 | the second loop sends exactly its requests in key order |
| Sync.SyncManager.SendCurrentNth | technisync/sync_manager.py:155-162 | one more iteration of the second loop |
| Sync.SyncManager.SendCurrentCall | technisync/sync_manager.py:156-162 | one current key's delete is sent and counted when the target lacks it |
| Sync.SyncManager.EnsureReverseZoneExists | technisync/sync_manager.py:172-180 | `add_zone` is sent exactly when the server's zone list lacks the zone, and counted as an add |
| Sync.SyncManager.GetAllRecordsForZone | technisync/sync_manager.py:182-191 | the loop returns the first-server-wins merge of all servers' shadow records |
| Sync.SyncManager.FanOutZone | technisync/sync_manager.py:116-126 | the server loop sends exactly the fan-out requests |
| Sync.SyncManager.FanOutServer | technisync/sync_manager.py:116-126 | one more server of the loop, skipped when it is the owner |
| Sync.SyncManager.UpdateServer | technisync/sync_manager.py:118-126 | the reverse-zone check for reverse zones, then `update_server_records` |
| Sync.SyncManager.PropagateChanges | technisync/sync_manager.py:108-126 | sends exactly the requests of `Propagate` over `get_all_zones`, and counts the accepted ones |
| Sync.SyncManager.PropagateZone | technisync/sync_manager.py:112-126 | one zone: nothing for an internal zone; the owner's records with an owner, else the merge |
| Sync.SyncManager.LogSyncSummary | technisync/sync_manager.py:202-221 | the counters are reset to one empty entry per configured server |
| Sync.KeepFirst | technisync/sync_manager.py:184-190 | the inner loop over one server's records extends the first-wins merge |
| Sync.KeepRecord | technisync/sync_manager.py:186-190 | one record is kept exactly when its type is not excluded and its key is new |
| Redaction.RunSpec | technisync/utils.py:7-10 | the run is the longest prefix of characters matching `[^&\s]` |
| Redaction.KeysHaveShape | technisync/utils.py:7-10 | `token=` and `api_key=` cannot match inside each other's replacement |
| Redaction.FormatMessage | technisync/utils.py:12-16 | the pattern loop gives the two substitutions in order, and no value survives after either key |
| Redaction.SubClean | technisync/utils.py:7-10 | after a substitution with one key, every value after that key is exactly `[REDACTED]` |
| Redaction.SubIdempotent | technisync/utils.py:7-10 | substituting twice is substituting once |
| Redaction.SecretReplaced | technisync/utils.py:7-10 | the first secret after the key becomes `[REDACTED]`; the text before it is copied and the rest is redacted in turn |
| Redaction.MatchReplaced | technisync/utils.py:7-10 | a text starting with the key and a secret has that secret replaced |
| Redaction.EmptyValueKept | technisync/utils.py:7-10 | a key followed by `&`, whitespace or the end is left as it is |
| Redaction.NoKeyUnchanged | technisync/utils.py:7-10 | a text without the key is unchanged |
| Redaction.CleanPreserved | technisync/utils.py:12-16 | the `api_key=` pass keeps the `token=` pass's redactions |
| Redaction.FormatClean | technisync/utils.py:12-16 | the formatted message has no token value and no api_key value left |
| Redaction.FormatIdempotent | technisync/utils.py:12-16 | formatting an already formatted message changes nothing |
| Redaction.FormatWithoutKeys | technisync/utils.py:12-16 | a message without either key passes unchanged |
| Config.PyStr | technisync/config.py:19 | `str` of a YAML string is itself, and of a boolean is `True` or `False` |
| Config.PyInt | technisync/config.py:14 | `int` of a YAML integer is itself; of `null`, Python raises |
| Config.IndexOfName | technisync/config.py:36 | `next(...)` finds the first server of that name, or none |
| Config.ParseServers | technisync/config.py:25-27 | succeeds exactly when every YAML entry has name, url and api_key, and gives one server per entry in order |
| Config.ParseFailureExtends | technisync/config.py:25-27 | one incomplete entry fails the whole list |
| Config.ReadServerEntries | technisync/config.py:25-27 | the YAML loop, proved against `ParseServers` |
| Config.MergeServer | technisync/config.py:36-41 | one environment server: update in place or append |
| Config.MergeEnvServers | technisync/config.py:29-42 | the environment loop merges exactly the scanned servers, in order |
| Config.GetServers | technisync/config.py:23-44 | `_get_servers` gives the YAML servers merged with the environment scan, or the KeyError |
| Config.UpsertShape | technisync/config.py:36-41 | a known name is overwritten in place (same names, same length); a new one is appended |
| Config.UpsertFound | technisync/config.py:36-41 | afterwards the first server of that name carries the new URL and key |
| Config.UpsertOther | technisync/config.py:36-41 | servers of other names are untouched |
| Config.UpsertAllKeepsBase | technisync/config.py:29-42 | the YAML servers keep their places and names, and at most one server is added per environment server |
| Config.UpsertAllFound | technisync/config.py:29-42 | every environment server ends up as the first server of its name |
| Config.UpsertDistinct | technisync/config.py:36-41 | an upsert keeps names distinct |
| Config.UpsertAllDistinct | technisync/config.py:29-42 | the merge keeps names distinct when the YAML has no duplicates |
| Config.MergedServersSpec | technisync/config.py:23-44 | `_get_servers` as a whole: YAML servers first under their names, each `server<i>` with its URL and key, length bounds, distinct names preserved |
| Config.SyncInterval | technisync/config.py:14 | the variable's text parsed by `int`, else the YAML value, else 300 |
| Config.ZonesToSync | technisync/config.py:20-21 | the zone list holds only non-empty, stripped, comma-free names |
| Config.Load | technisync/config.py:6-21 | loading succeeds exactly when the servers parse and the interval converts; a server error is reported as it is |
| Config.Defaults | technisync/config.py:6-21 | with an empty document and environment: no servers, 300, `./data/dns_sync.db`, `INFO`, no reverse zones, no zone list |
| Config.DbPathFromEnvOnly | technisync/config.py:16 | the database path never depends on the YAML document |
| Config.EnvOverridesDocument | technisync/config.py:18-21 | a set variable overrides the YAML for the log level, the reverse-zone flag and the zone list |
| Config.ReverseZonesFromDocument | technisync/config.py:19 | without the variable: a YAML boolean counts as itself, a string when it reads `true` in any case, anything else never |
| Config.ZonesFromDocument | technisync/config.py:20-21 | a YAML list of clean zone names survives the join and split |
| Config.IntervalFromDocument | technisync/config.py:14 | without the variable: a YAML integer as is, a string parsed, a boolean as 1 or 0 |
| Environment.Getenv | technisync/config.py:16 | `os.getenv` gives the variable when set, else the default |
| Environment.NamesInjective | technisync/config.py:31-35 | different indices give different variable names and server names |
| Environment.ScanMeasureDecreases | technisync/config.py:29-42 | each step of the scan uses another variable of the finite environment, so the loop ends |
| Environment.NextServer | technisync/config.py:31-35 | stops exactly when the URL or the key is unset or empty; otherwise it gives `server<i>` with that URL and key |
| Environment.EnvServersSpec | technisync/config.py:29-42 | the scan yields servers `i`, `i+1`, ... in order, and stops at the first index without a URL and key |
| Environment.EnvServersWellFormed | technisync/config.py:29-42 | scanned servers have non-empty URLs and keys, and distinct names |
| Environment.ParseInt | technisync/config.py:14 | `int` accepts only text that is not blank after stripping |
| Environment.ParseIntToString | technisync/config.py:14 | `int(str(i)) == i` for every integer |
| Environment.ParseNonNegative | technisync/config.py:14 | decimal digits parse to their value |
| Environment.ParseNegative | technisync/config.py:14 | negative integers round-trip through their text |
| Environment.ParseMinus | technisync/config.py:14 | a minus sign negates the digits |
| Environment.KeepZones | technisync/config.py:21 | the comprehension keeps only non-empty stripped names, no more than it was given |
| Environment.ZoneListEntries | technisync/config.py:20-21 | every entry of the parsed list is non-empty, stripped and comma-free |
| Environment.KeepZonesOfClean | technisync/config.py:21 | clean names pass the comprehension unchanged |
| Environment.ZoneListOfJoin | technisync/config.py:20-21 | joining clean names and parsing them back gives the names |
| Environment.ZoneListIdempotent | technisync/config.py:20-21 | parsing the joined parsed list gives the same list |
| Strings.Strip | technisync/config.py:21 | `strip` drops exactly the leading and trailing whitespace |
| Strings.StripOfStripped | technisync/config.py:21 | `strip` does not change a stripped text |
| Strings.Lower | technisync/config.py:19 | `lower` maps each character, lowering the ASCII letters only |
| Strings.TrueFlagSpellings | technisync/config.py:19 | `.lower() == 'true'` accepts exactly the sixteen letter-case spellings of `true` |
| Strings.Split | technisync/config.py:20 | `split(',')` gives at least one part, and no part has a comma |
| Strings.JoinSplit | technisync/config.py:20 | joining the parts of a split gives back the text |
| Strings.SplitJoin | technisync/config.py:20 | splitting the join of comma-free parts gives back the parts |
| Strings.NatToStringInjective | technisync/config.py:31-35 | different numbers give different decimal texts |
| Strings.ParseNatToString | technisync/config.py:14 | decimal text parses back to its number |
| RootConfig.ScanServers | config.py:9-21 | the `get_servers` loop, proved against the scan |
| RootConfig.ScanFromOne | config.py:8-22 | position `j` holds `server<j>` with its URL and key, all non-empty, and the scan stopped at a missing one |
| RootConfig.GetServers | config.py:8-22 | `get_servers` returns exactly the scan from `SERVER1` with those properties |
| RootConfig.SyncInterval | config.py:25 | 300 when unset, else the variable parsed by `int` |
| RootConfig.ZonesToSync | config.py:29-30 | the zone list holds only non-empty, stripped, comma-free names |
| RootConfig.Load | config.py:24-32 | the class attributes load exactly when SYNC_INTERVAL converts |
| RootConfig.Defaults | config.py:24-32 | with none of the settings' variables set: 300, `dns_sync.db`, `INFO`, no zones, no reverse zones |
| RootConfig.ReverseZonesFlag | config.py:32 | on exactly when the variable is set and reads `true` in any case |
| RootConfig.EmptyZoneList | config.py:29-30 | an unset or empty ZONES_TO_SYNC selects no zones |

## Left out

- HTTP with `requests`, SQLite and JSON are modelled as values. JSON coding of an rData map is taken to be one-to-one, so `record_key` uses the map itself.
- `datetime.now` is the `Clock` parameter. One `process_records` pass uses one reading for all its statements, where Python reads the clock once per statement.
- Parsing of the dotted address text by `ipaddress` is left out. `get_reverse_zone_from_network` takes four octets and a prefix length or netmask.
- Reading the YAML file (`os.path.exists`, `open`, `yaml.safe_load`) and `load_dotenv` are left out. The document and the environment are inputs.
- `int` of floats, of text with underscores, and of non-ASCII digits is left out.
- Logging output, the summary text of `log_sync_summary` and `setup_logging`'s handlers are left out. Only the counter reset and `SensitiveFormatter.format` after the base formatter are modelled.
- `sync` and `sync_dhcp_scopes` (technisync/sync_manager.py:30-62) are left out. Their parts are modelled: `should_sync_zone`, `sync_zone`, `get_reverse_zone_from_network`, `ensure_reverse_zone_exists`, `set_zone_owner` and `propagate_changes`.
- `get_zones`, `get_records`, `get_dhcp_scopes` and `get_dhcp_scope` are modelled only by their answers, the `records` and `zones` fields. `main.py` is not part of this model.
- `Config` servers are values, not shared objects. The in-place update of `existing_server` becomes a new sequence.
- The classes `ZoneSync` and `ZoneOwnership` of models.py and the `__repr__`s are left out. They do nothing beyond holding fields. `Server` is modelled as the datatype `Models.Server`, built by the configuration readers.
- `update_server_records`' `zone_owner` parameter is not used by the source and is dropped.
- The servers' answers are a fixed snapshot. `get_zones` does not see a zone that `add_zone` created earlier in the same run.
- The order of the delete loop (a Python set) is left open. The method picks any pending key, and the result is the same for every order.
- The row order of `SELECT` is taken to be table order.
- Sync.SyncManager.ProcessRecords: the exceptions that `add_record` and the other statements may raise mid-loop are not modelled. In Python they abort the rest of the pass for that zone.
- ClientPlan.Recount: a request for a server without a counter entry is not counted. In Python, `track_change` raises there inside the request's `try`. Every server in `servers` has an entry, so this concerns foreign names only.
- Models.FromDict: Python builds a record from values of any kind (a ttl given as the text `'300'`, say); the model keeps only values of the field's own kind and gives None for the rest, since the server's JSON answers are typed.
- Strings.Lower: lowers ASCII letters only, where Python's `str.lower` also lowers other letters; its one use, the `== 'true'` test, has the same outcome either way, since no other letter lowers to one of t, r, u, e.
- Models.NetworkAddress: states the octet-wise AND and its range, not the bit arithmetic of `IPv4Network`.
- Environment.ParseInt: its own contract states only that blank text is rejected. Its meaning is given by ParseIntToString, ParseNonNegative, ParseNegative and ParseMinus.

## Findings

| source | as written | input that shows it | evidently intended | confidence | as-written member | corrected member |
|---|---|---|---|---|---|---|
| technisync/db_manager.py:107-120 | `delete_record` soft-deletes every live row of the server, zone, name and type. `process_records` adds the new rData (a new key) and then deletes the old key's record (technisync/sync_manager.py:93-106), so the delete also stamps the row just added | a shadow copy with one live row (name, type, ttl, rData `before`) and a server answer of the same name, type and ttl with rData `after` different from `before`, the type not excluded: afterwards the zone has no live row | the delete removes only the record with that key (name, type and rData), so after a pass the shadow copy's live keys are exactly the server's keys | not executed | SyncPlan.ChangedRDataLosesRecord | SyncPlan.ProcessRowsByKeyMirrors |
| technisync/db_manager.py:90-105 | `update_record` rewrites the ttl and rData of every live row of the server, zone, name and type. `process_records` calls it for one key whose ttl changed (technisync/sync_manager.py:98-101), so the other records of that name and type take over its rData | a shadow copy with two live rows of one name, type and ttl, rData `d1` and `d2` different, and a server answer with the same two records where the first has another ttl, the type not excluded: afterwards both live rows carry `d1` and the key of `d2` is gone | the update changes only the record with that key (name, type and rData), so after a pass the shadow copy's live keys are exactly the server's keys | not executed | SyncPlan.ChangedTtlOverwritesSibling | SyncPlan.ProcessRowsByKeyMirrors |
