/**
  rtdas_api2psql.py: the generic reading pipeline. Each configured source is fetched,
  every record is cleaned against the source's field list, the rejected ones are dropped,
  and the rest are written with insert-ignore into the source's reading table.
 */
module Api2Psql {
  import opened Wrappers
  import opened Values
  import opened Envelope
  import opened ReadingTables

  /** A reading source as configured: its name and its required fields, in column order.
      URL, credentials and table name come from the environment and are not modelled. */
  datatype Api = Api(name: string, fields: seq<string>)

  const Apis: seq<Api> := [
    Api("AWS", ["inputDate", "batteryLevel", "hourlyRainFall", "dailyRainfall",
                "averageTempreture", "windSpeed", "windDirection", "atmosphericPressure",
                "relativeHumidity", "sunRadiation", "stationID"]),
    Api("AWLR", ["inputDate", "batteryLevel", "waterLevel", "stationID"]),
    Api("ARG", ["inputDate", "batteryLevel", "hourlyRainFall", "dailyRainfall", "stationID"])
  ]

  /** `["uuid"] + api["fields"]`: the insert's column list and the order of its parameters. */
  function Columns(fields: seq<string>): seq<string>
  {
    ["uuid"] + fields
  }

  /** Every configured field list names each field once, leaves "uuid" to the generated id,
      and contains both columns of the conflict key. */
  lemma ConfiguredApisWellFormed()
    ensures forall a :: a in Apis ==>
              && Distinct(Columns(a.fields))
              && "stationID" in a.fields
              && "inputDate" in a.fields
  {
  }

  /** The accepted record: the fresh id under "uuid", then each required field's value. */
  function Projection(record: Record, fields: seq<string>, id: string): Record
  {
    map k | k in {"uuid"} + Elems(fields) :: if k in fields then Get(record, k) else Str(id)
  }

  /**
    `clean_record(record, fields)` with `id` standing for `str(uuid.uuid4())`: the whole
    record is rejected when any required field is missing, None, "" or -99; otherwise it is
    projected onto the required fields and tagged with the id.
   */
  function Clean(record: Record, fields: seq<string>, id: string): (r: Option<Record>)
    ensures r.None? <==> exists f :: f in fields && (f !in record || IsFaulty(record[f]))
    ensures r.Some? ==> r.value.Keys == {"uuid"} + Elems(fields)
    ensures r.Some? ==> forall f :: f in fields ==> f in record && r.value[f] == record[f]
    ensures r.Some? && "uuid" !in fields ==> r.value["uuid"] == Str(id)
  {
    if exists f :: f in fields && IsFaulty(Get(record, f)) then None
    else Some(Projection(record, fields, id))
  }

  /** The loop of `clean_record`: build `filtered` field by field, return None at the first faulty value. */
  method CleanRecord(record: Record, fields: seq<string>, id: string) returns (r: Option<Record>)
    ensures r == Clean(record, fields, id)
  {
    var filtered: Record := map["uuid" := Str(id)];
    var i := 0;
    while i < |fields|
      invariant 0 <= i <= |fields|
      invariant forall j :: 0 <= j < i ==> !IsFaulty(Get(record, fields[j]))
      invariant filtered == Projection(record, fields[..i], id)
    {
      var val := Get(record, fields[i]);
      if IsFaulty(val) {
        return None;
      }
      assert fields[..i + 1] == fields[..i] + [fields[i]];
      filtered := filtered[fields[i] := val];
      i := i + 1;
    }
    assert fields[..i] == fields;
    return Some(filtered);
  }

  /** An accepted record holds no faulty value, its id included (a generated uuid is never empty). */
  lemma AcceptedHoldsNoFault(record: Record, fields: seq<string>, id: string)
    requires id != ""
    requires Clean(record, fields, id).Some?
    ensures forall k :: k in Clean(record, fields, id).value ==> !IsFaulty(Clean(record, fields, id).value[k])
  {
  }

  /** Keys outside the required fields are dropped: they do not affect the outcome. */
  lemma CleanIgnoresOtherKeys(r1: Record, r2: Record, fields: seq<string>, id: string)
    requires forall f :: f in fields ==> Get(r1, f) == Get(r2, f)
    ensures Clean(r1, fields, id) == Clean(r2, fields, id)
  {
    assert Projection(r1, fields, id) == Projection(r2, fields, id);
  }

  /** The column list is duplicate-free when the fields are and do not reuse "uuid". */
  lemma ColumnsDistinct(fields: seq<string>)
    requires Distinct(fields) && "uuid" !in fields
    ensures Distinct(Columns(fields))
  {
    var cols := Columns(fields);
    forall i, j | 0 <= i < j < |cols|
      ensures cols[i] != cols[j]
    {
      assert cols[j] == fields[j - 1];
      if i > 0 {
        assert cols[i] == fields[i - 1];
      }
    }
  }

  /** Conversely, a duplicate-free column list has duplicate-free fields, none of them "uuid". */
  lemma ColumnsDistinctFields(fields: seq<string>)
    requires Distinct(Columns(fields))
    ensures Distinct(fields) && "uuid" !in fields
  {
    var cols := Columns(fields);
    forall i | 0 <= i < |fields|
      ensures fields[i] == cols[i + 1] && fields[i] != "uuid"
    {
      assert cols[0] != cols[i + 1];
    }
  }

  /** The parameter tuple of an accepted record lists the id, then the field values in the configured order. */
  lemma {:induction false} TupleInColumnOrder(record: Record, fields: seq<string>, id: string)
    requires "uuid" !in fields
    requires Clean(record, fields, id).Some?
    ensures Params(Clean(record, fields, id).value, Columns(fields))
              == Some([Str(id)] + seq(|fields|, i requires 0 <= i < |fields| => record[fields[i]]))
  {
    var rec := Clean(record, fields, id).value;
    var cols := Columns(fields);
    var expected := [Str(id)] + seq(|fields|, i requires 0 <= i < |fields| => record[fields[i]]);
    forall i | 0 <= i < |cols|
      ensures cols[i] in rec && expected[i] == rec[cols[i]]
    {
      if i > 0 {
        assert cols[i] == fields[i - 1];
      }
    }
    ParamsOf(rec, cols, expected);
  }

  /** Inserting an accepted record stores exactly that record. */
  lemma CleanedRecordIsStored(record: Record, fields: seq<string>, id: string)
    requires Distinct(fields) && "uuid" !in fields
    requires Clean(record, fields, id).Some?
    ensures Row(Columns(fields), Clean(record, fields, id).value) == Some(Clean(record, fields, id).value)
  {
    var rec := Clean(record, fields, id).value;
    assert rec.Keys == Elems(Columns(fields));
    ColumnsDistinct(fields);
    RowOfExactRecord(Columns(fields), rec);
  }

  /** `cleaned` of `process_api`: clean every fetched record (record i with id `uuids(i)`) and drop the rejected ones. */
  function CleanAll(raw: seq<Record>, fields: seq<string>, uuids: nat -> string): (cleaned: seq<Record>)
    ensures |cleaned| <= |raw|
    ensures forall rec :: rec in cleaned ==>
              && rec.Keys == {"uuid"} + Elems(fields)
              && forall f :: f in fields ==> !IsFaulty(rec[f])
  {
    var xs := seq(|raw|, i requires 0 <= i < |raw| => Clean(raw[i], fields, uuids(i)));
    assert forall rec :: Some(rec) in xs ==> exists i :: 0 <= i < |raw| && Clean(raw[i], fields, uuids(i)) == Some(rec);
    DropNone(xs)
  }

  /** A cleaned record is the cleaning of some fetched record, and every accepted one is kept;
      there are never more cleaned than fetched records. */
  lemma CleanAllMembers(raw: seq<Record>, fields: seq<string>, uuids: nat -> string, rec: Record)
    ensures rec in CleanAll(raw, fields, uuids) <==>
              exists i :: 0 <= i < |raw| && Clean(raw[i], fields, uuids(i)) == Some(rec)
    ensures |CleanAll(raw, fields, uuids)| <= |raw|
  {
    var xs := seq(|raw|, i requires 0 <= i < |raw| => Clean(raw[i], fields, uuids(i)));
    assert CleanAll(raw, fields, uuids) == DropNone(xs);
    assert forall i :: 0 <= i < |raw| ==> xs[i] == Clean(raw[i], fields, uuids(i));
    DropNoneMembers(xs, rec);
    if Some(rec) in xs {
      var i :| 0 <= i < |xs| && xs[i] == Some(rec);
      assert Clean(raw[i], fields, uuids(i)) == Some(rec);
    }
  }

  /** Nothing is dropped exactly when every fetched record is accepted. */
  lemma CleanAllKeepsAll(raw: seq<Record>, fields: seq<string>, uuids: nat -> string)
    ensures |CleanAll(raw, fields, uuids)| == |raw| <==>
              forall i :: 0 <= i < |raw| ==> Clean(raw[i], fields, uuids(i)).Some?
  {
    var xs := seq(|raw|, i requires 0 <= i < |raw| => Clean(raw[i], fields, uuids(i)));
    assert CleanAll(raw, fields, uuids) == DropNone(xs);
    assert forall i :: 0 <= i < |raw| ==> xs[i] == Clean(raw[i], fields, uuids(i));
    DropNoneKeepsAll(xs);
  }

  /** The filter keeps fetch order: cleaning two consecutive stretches of records is cleaning their concatenation. */
  lemma CleanAllKeepsOrder(a: seq<Record>, b: seq<Record>, fields: seq<string>, uuids: nat -> string)
    ensures CleanAll(a + b, fields, uuids)
              == CleanAll(a, fields, uuids) + CleanAll(b, fields, (i: nat) => uuids(|a| + i))
  {
    var xs := seq(|a + b|, i requires 0 <= i < |a + b| => Clean((a + b)[i], fields, uuids(i)));
    var xa := seq(|a|, i requires 0 <= i < |a| => Clean(a[i], fields, uuids(i)));
    var ub := (i: nat) => uuids(|a| + i);
    var xb := seq(|b|, i requires 0 <= i < |b| => Clean(b[i], fields, ub(i)));
    assert xs == xa + xb;
    DropNoneAppend(xa, xb);
  }

  /**
    `insert_data(api, records)`: one insert-ignore statement per record, a raised statement
    is skipped, and the count returned is the number of records attempted.
   */
  method InsertData(api: Api, table: ReadingTable, records: seq<Record>, fails: set<nat>) returns (count: nat)
    modifies table
    ensures count == |records|
    ensures table.rows == InsertAll(old(table.rows), Columns(api.fields), records, fails)
  {
    if records == [] {
      return 0;
    }
    InsertLoop(table, Columns(api.fields), records, fails);
    return |records|;
  }

  /** What `process_api` reports for one source. */
  datatype Outcome = Inserted(count: nat) | Failed(error: FetchError)

  /**
    `process_api(api)`: a fetch failure, or a payload that cannot be iterated, is reported as the source's failure and writes
    nothing; otherwise the cleaned batch is inserted and its length reported, whatever
    the individual statements did.
   */
  method ProcessApi(api: Api, resp: Response, uuids: nat -> string, table: ReadingTable, fails: set<nat>)
    returns (outcome: Outcome)
    modifies table
    ensures FetchReadings(resp).Err? ==>
              outcome == Failed(FetchReadings(resp).error) && table.rows == old(table.rows)
    ensures FetchReadings(resp).Ok? ==>
              var cleaned := CleanAll(FetchReadings(resp).value, api.fields, uuids);
              && outcome == Inserted(|cleaned|)
              && table.rows == InsertAll(old(table.rows), Columns(api.fields), cleaned, fails)
  {
    match FetchReadings(resp)
    case Err(e) =>
      outcome := Failed(e);
    case Ok(raw) =>
      var cleaned := CleanAll(raw, api.fields, uuids);
      var inserted := InsertData(api, table, cleaned, fails);
      outcome := Inserted(inserted);
  }
}
