/**
  rtdas_master.py: station master data. Records are not validated; each one is written with
  `INSERT ... ON CONFLICT (stationID) DO UPDATE SET <every other column> = EXCLUDED.<column>`
  into the shared table rtdas_master, keyed by stationID.
 */
module Master {
  import opened Wrappers
  import opened Values
  import opened Envelope
  import Api2Psql

  /** A master-data source as configured: its name and the label written to the source column. */
  datatype MasterApi = MasterApi(name: string, source: string)

  const MasterApis: seq<MasterApi> := [
    MasterApi("AWS Master", "AWS station"),
    MasterApi("AWLR Master", "AWLR station"),
    MasterApi("ARG Master", "ARG station")
  ]

  /**
    The three sources share rtdas_master but write different labels, so a row's source column
    tells which configured source wrote it last.
   */
  lemma SourceLabelsDistinct(r1: Record, r2: Record)
    ensures |MasterApis| == 3
    ensures forall i, j :: 0 <= i < j < |MasterApis| ==>
              RowOf(r1, MasterApis[i].source).source != RowOf(r2, MasterApis[j].source).source
  {
  }

  /** The non-key columns of rtdas_master (the column `type` is `stationType` here). */
  datatype MasterRow = MasterRow(
    name: Value, location: Value, longitude: Value, latitude: Value,
    stationType: Value, zone: Value, source: Value)

  /** rtdas_master: stationID to the rest of the row. */
  type MasterRows = map<Value, MasterRow>

  /** The record fields the statement reads besides stationID, in column order. */
  const RecordColumns: seq<string> := ["name", "location", "longitude", "latitude", "type", "zone"]

  /**
    The values the statement writes for one record: `r.get(c)` for each column, so a missing
    field is written as None and no value is checked; the source label comes from the
    configuration, never from the record.
   */
  function RowOf(r: Record, source: string): (row: MasterRow)
    ensures row.source == Str(source)
    ensures row.name == Get(r, "name") && row.location == Get(r, "location")
    ensures row.longitude == Get(r, "longitude") && row.latitude == Get(r, "latitude")
    ensures row.stationType == Get(r, "type") && row.zone == Get(r, "zone")
  {
    MasterRow(Get(r, "name"), Get(r, "location"), Get(r, "longitude"), Get(r, "latitude"),
              Get(r, "type"), Get(r, "zone"), Str(source))
  }

  /** Only the six listed fields of a record reach the row; any other field, "source" included, is ignored. */
  lemma RowOfReadsOnlyItsColumns(r1: Record, r2: Record, source: string)
    requires forall c :: c in RecordColumns ==> Get(r1, c) == Get(r2, c)
    ensures RowOf(r1, source) == RowOf(r2, source)
  {
  }

  /** The value a row stores under one of the record columns. */
  function ColumnValue(row: MasterRow, c: string): Value
  {
    match c
    case "name" => row.name
    case "location" => row.location
    case "longitude" => row.longitude
    case "latitude" => row.latitude
    case "type" => row.stationType
    case "zone" => row.zone
    case _ => Null
  }

  /**
    Master data is not validated: a None, "" or -99 in a column is written as it is, where the
    reading pipeline's `clean_record` rejects the whole record for it.
   */
  lemma FaultyValuesAreWritten(r: Record, source: string, c: string, fields: seq<string>, id: string)
    requires c in RecordColumns && IsFaulty(Get(r, c))
    requires c in fields
    ensures ColumnValue(RowOf(r, source), c) == Get(r, c)
    ensures Api2Psql.Clean(r, fields, id).None?
  {
  }

  /**
    Effect of one statement that does not raise: insert or overwrite the row of the record's
    stationID. A missing stationID is a NULL primary key, which the store refuses.
   */
  function UpsertOne(t: MasterRows, source: string, r: Record): (u: MasterRows)
    ensures Get(r, "stationID") == Null ==> u == t
    ensures Get(r, "stationID") != Null ==>
              && u.Keys == t.Keys + {Get(r, "stationID")}
              && u[Get(r, "stationID")] == RowOf(r, source)
    ensures forall k :: k in t && k != Get(r, "stationID") ==> u[k] == t[k]
  {
    var k := Get(r, "stationID");
    if k == Null then t else t[k := RowOf(r, source)]
  }

  /** Record i of the batch is attempted, its statement does not raise, and it writes station k. */
  predicate Writes(recs: seq<Record>, fails: set<nat>, i: int, k: Value)
  {
    0 <= i < |recs| && i !in fails && k != Null && Get(recs[i], "stationID") == k
  }

  /**
    The table after the write loop of `upsert_data`; the statements at the positions in
    `fails` raise and are skipped. An upsert never removes a station.
   */
  function UpsertAll(t: MasterRows, source: string, recs: seq<Record>, fails: set<nat>): (u: MasterRows)
    ensures t.Keys <= u.Keys
    decreases |recs|
  {
    if recs == [] then t
    else
      var n := |recs| - 1;
      var before := UpsertAll(t, source, recs[..n], fails);
      if n in fails then before else UpsertOne(before, source, recs[n])
  }

  /** The last record of the batch that writes station k, if any. */
  function LastWriter(recs: seq<Record>, fails: set<nat>, k: Value): (r: Option<nat>)
    ensures r.Some? ==>
              && Writes(recs, fails, r.value, k)
              && forall j :: r.value < j < |recs| ==> !Writes(recs, fails, j, k)
    ensures r.None? ==> forall j :: 0 <= j < |recs| ==> !Writes(recs, fails, j, k)
    decreases |recs|
  {
    if recs == [] then None
    else
      var n := |recs| - 1;
      assert forall j :: 0 <= j < n ==> Writes(recs[..n], fails, j, k) == Writes(recs, fails, j, k);
      if Writes(recs, fails, n, k) then Some(n) else LastWriter(recs[..n], fails, k)
  }

  /**
    Last write wins: after the loop, a station written by the batch holds the row of the last
    record that wrote it; every other station is exactly as before.
   */
  lemma {:induction false} UpsertAllAt(t: MasterRows, source: string, recs: seq<Record>, fails: set<nat>, k: Value)
    ensures LastWriter(recs, fails, k).Some? ==>
              && k in UpsertAll(t, source, recs, fails)
              && UpsertAll(t, source, recs, fails)[k] == RowOf(recs[LastWriter(recs, fails, k).value], source)
    ensures LastWriter(recs, fails, k).None? ==>
              && (k in UpsertAll(t, source, recs, fails) <==> k in t)
              && (k in t ==> UpsertAll(t, source, recs, fails)[k] == t[k])
    decreases |recs|
  {
    if recs != [] {
      var n := |recs| - 1;
      var pre := recs[..n];
      var before := UpsertAll(t, source, pre, fails);
      UpsertAllAt(t, source, pre, fails, k);
      assert UpsertAll(t, source, recs, fails) == if n in fails then before else UpsertOne(before, source, recs[n]);
      if !Writes(recs, fails, n, k) {
        var w := LastWriter(pre, fails, k);
        assert LastWriter(recs, fails, k) == w;
        if w.Some? {
          assert pre[w.value] == recs[w.value];
        }
      }
    }
  }

  /** Upserting the same batch twice, with the same statements failing, gives the table of upserting it once. */
  lemma UpsertAllIdempotent(t: MasterRows, source: string, recs: seq<Record>, fails: set<nat>)
    ensures UpsertAll(UpsertAll(t, source, recs, fails), source, recs, fails) == UpsertAll(t, source, recs, fails)
  {
    var t1 := UpsertAll(t, source, recs, fails);
    var t2 := UpsertAll(t1, source, recs, fails);
    forall k
      ensures (k in t2 <==> k in t1) && (k in t1 ==> t2[k] == t1[k])
    {
      UpsertAllAt(t, source, recs, fails, k);
      UpsertAllAt(t1, source, recs, fails, k);
    }
    assert t2 == t1;
  }

  /** A statement that raises affects only its own station: every other station ends up as without the failure. */
  lemma UpsertFailureIsolated(t: MasterRows, source: string, recs: seq<Record>, fails: set<nat>, i: nat, k: Value)
    requires i < |recs|
    requires Get(recs[i], "stationID") != k
    ensures k in UpsertAll(t, source, recs, fails + {i}) <==> k in UpsertAll(t, source, recs, fails)
    ensures k in UpsertAll(t, source, recs, fails) ==>
              UpsertAll(t, source, recs, fails + {i})[k] == UpsertAll(t, source, recs, fails)[k]
  {
    assert forall j :: Writes(recs, fails + {i}, j, k) == Writes(recs, fails, j, k);
    var a := LastWriter(recs, fails + {i}, k);
    var b := LastWriter(recs, fails, k);
    if a.Some? && b.Some? {
      assert !(a.value < b.value) && !(b.value < a.value);
    }
    assert a == b;
    UpsertAllAt(t, source, recs, fails + {i}, k);
    UpsertAllAt(t, source, recs, fails, k);
  }

  /**
    A station sent again by a later run with a changed name holds the later name: the second
    batch's row replaces the first one's.
   */
  lemma RenamedStationTakesLaterName(t: MasterRows, source: string, station: Value, first: Record, second: Record)
    requires station != Null
    requires Get(first, "stationID") == station && Get(second, "stationID") == station
    ensures UpsertAll(UpsertAll(t, source, [first], {}), source, [second], {})[station] == RowOf(second, source)
    ensures UpsertAll(UpsertAll(t, source, [first], {}), source, [second], {})[station].name == Get(second, "name")
  {
  }

  /** The master table of the store, changed one statement at a time. */
  class MasterTable {
    var rows: MasterRows

    constructor (initial: MasterRows)
      ensures rows == initial
    {
      rows := initial;
    }

    /**
      One `cur.execute(...)` inside its try block; `raises` is the store's verdict on the
      statement. A raised statement changes nothing and the caller carries on.
     */
    method Execute(r: Record, source: string, raises: bool)
      modifies this
      ensures rows == if raises then old(rows) else UpsertOne(old(rows), source, r)
      ensures forall k :: k in old(rows) && k != Get(r, "stationID") ==> k in rows && rows[k] == old(rows)[k]
    {
      var k := Get(r, "stationID");
      if !raises && k != Null {
        rows := rows[k := RowOf(r, source)];
      }
    }
  }

  /**
    `upsert_data(api, records)`: one upsert per record, a raised statement is skipped, and
    the count returned is the number of records attempted (0 for an empty batch).
   */
  method UpsertData(api: MasterApi, table: MasterTable, records: seq<Record>, fails: set<nat>) returns (count: nat)
    modifies table
    ensures count == |records|
    ensures records == [] ==> table.rows == old(table.rows)
    ensures table.rows == UpsertAll(old(table.rows), api.source, records, fails)
  {
    if records == [] {
      return 0;
    }
    var i := 0;
    while i < |records|
      invariant 0 <= i <= |records|
      invariant table.rows == UpsertAll(old(table.rows), api.source, records[..i], fails)
    {
      table.Execute(records[i], api.source, i in fails);
      assert records[..i + 1][..i] == records[..i];
      i := i + 1;
    }
    assert records[..i] == records;
    return |records|;
  }

  /** The table after the first n sources, each fetched successfully and upserted in turn; no station is ever removed. */
  function UpsertSources(t: MasterRows, apis: seq<MasterApi>, responses: seq<Response>, fails: seq<set<nat>>, n: nat): (u: MasterRows)
    requires n <= |apis| && n <= |responses| && n <= |fails|
    requires forall j :: 0 <= j < n ==> FetchStations(responses[j]).Ok?
    ensures t.Keys <= u.Keys
  {
    if n == 0 then t
    else UpsertAll(UpsertSources(t, apis, responses, fails, n - 1),
                   apis[n - 1].source, FetchStations(responses[n - 1]).value, fails[n - 1])
  }

  /**
    `__main__`: fetch and upsert each source in turn. Nothing catches a fetch failure (or a
    payload `upsert_data` cannot iterate), so the first one ends the run: the sources before
    it stay written and the rest are not fetched.
   */
  method RunMaster(apis: seq<MasterApi>, responses: seq<Response>, fails: seq<set<nat>>, table: MasterTable)
    returns (updated: seq<nat>, failure: Option<FetchError>)
    requires |responses| == |apis| && |fails| == |apis|
    modifies table
    ensures |updated| <= |apis|
    ensures failure.None? ==> |updated| == |apis|
    ensures failure.Some? ==>
              |updated| < |apis| && FetchStations(responses[|updated|]) == Err(failure.value)
    ensures forall j :: 0 <= j < |updated| ==>
              FetchStations(responses[j]).Ok? && updated[j] == |FetchStations(responses[j]).value|
    ensures table.rows == UpsertSources(old(table.rows), apis, responses, fails, |updated|)
  {
    updated := [];
    var i := 0;
    while i < |apis|
      invariant i == |updated| <= |apis|
      invariant forall j :: 0 <= j < i ==>
                  FetchStations(responses[j]).Ok? && updated[j] == |FetchStations(responses[j]).value|
      invariant table.rows == UpsertSources(old(table.rows), apis, responses, fails, i)
    {
      match FetchStations(responses[i]) {
        case Err(e) =>
          return updated, Some(e);
        case Ok(data) =>
          var count := UpsertData(apis[i], table, data, fails[i]);
          updated := updated + [count];
      }
      i := i + 1;
    }
    failure := None;
  }
}
