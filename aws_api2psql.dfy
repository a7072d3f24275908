/**
  rtdas_aws_api2psql.py: the single-source AWS pipeline with its field list written out.
  Its `clean_record` builds the whole 12-entry dictionary first and then searches it for a
  faulty value; its `insert_data` issues the same insert-ignore statement per record.
 */
module AwsApi2Psql {
  import opened Wrappers
  import opened Values
  import opened Envelope
  import opened ReadingTables
  import Api2Psql

  /** The eleven fields copied from an AWS record, in the order of the dictionary literal. */
  const AwsFields: seq<string> := [
    "inputDate", "batteryLevel", "hourlyRainFall", "dailyRainfall", "averageTempreture",
    "windSpeed", "windDirection", "atmosphericPressure", "relativeHumidity", "sunRadiation",
    "stationID"
  ]

  /** The keys of the dictionary literal of `clean_record`, in order. */
  const AwsColumns: seq<string> := ["uuid"] + AwsFields

  /** The column list written out in the insert statement. */
  const StatementColumns: seq<string> := [
    "uuid", "inputDate", "batteryLevel", "hourlyRainFall", "dailyRainfall",
    "averageTempreture", "windSpeed", "windDirection", "atmosphericPressure",
    "relativeHumidity", "sunRadiation", "stationID"
  ]

  /**
    The parameter tuple written out in the insert statement, subscript by subscript;
    None when a subscript raises KeyError.
   */
  function AwsTuple(rec: Record): (r: Option<seq<Value>>)
    ensures r.Some? ==> |r.value| == |StatementColumns|
  {
    if && "uuid" in rec && "inputDate" in rec && "batteryLevel" in rec && "hourlyRainFall" in rec
       && "dailyRainfall" in rec && "averageTempreture" in rec && "windSpeed" in rec
       && "windDirection" in rec && "atmosphericPressure" in rec && "relativeHumidity" in rec
       && "sunRadiation" in rec && "stationID" in rec
    then Some([
      rec["uuid"], rec["inputDate"], rec["batteryLevel"], rec["hourlyRainFall"],
      rec["dailyRainfall"], rec["averageTempreture"], rec["windSpeed"],
      rec["windDirection"], rec["atmosphericPressure"], rec["relativeHumidity"],
      rec["sunRadiation"], rec["stationID"]])
    else None
  }

  /** The statement's column list is the dictionary's key order. */
  lemma StatementColumnsInKeyOrder()
    ensures StatementColumns == AwsColumns
  {
  }

  /**
    The hand-written tuple is the generic `tuple(rec[c] for c in cols)` over the dictionary's
    keys: the same values in the same order, and a KeyError exactly when a column is missing.
   */
  lemma TupleFollowsColumns(rec: Record)
    ensures Params(rec, AwsColumns) == AwsTuple(rec)
  {
    if AwsTuple(rec).None? {
      TupleRaisesWithColumns(rec);
    } else {
      TupleAgreesWithColumns(rec);
    }
  }

  /** When every subscript succeeds, the two tuples agree position by position. */
  lemma TupleAgreesWithColumns(rec: Record)
    requires AwsTuple(rec).Some?
    ensures Params(rec, AwsColumns) == AwsTuple(rec)
  {
    StatementColumnsInKeyOrder();
    var cols := StatementColumns;
    var t := AwsTuple(rec).value;
    forall i | 0 <= i < |cols|
      ensures cols[i] in rec && t[i] == rec[cols[i]]
    {
      TupleEntry(rec, i);
    }
    ParamsOf(rec, cols, t);
  }

  /** Subscript i of the hand-written tuple reads column i of the statement. */
  lemma TupleEntry(rec: Record, i: nat)
    requires AwsTuple(rec).Some? && i < |StatementColumns|
    ensures StatementColumns[i] in rec && AwsTuple(rec).value[i] == rec[StatementColumns[i]]
  {
    // Naming the index three at a time keeps each case small for the solver:
    // a single twelve-way case split is much costlier to verify.
    if i < 6 {
      if i < 3 {
        assert i == 0 || i == 1 || i == 2;
      } else {
        assert i == 3 || i == 4 || i == 5;
      }
    } else if i < 9 {
      assert i == 6 || i == 7 || i == 8;
    } else {
      assert i == 9 || i == 10 || i == 11;
    }
  }

  /** A record missing a column raises KeyError in the hand-written tuple exactly as in the generic one. */
  lemma TupleRaisesWithColumns(rec: Record)
    requires AwsTuple(rec).None?
    ensures Params(rec, AwsColumns).None?
  {
    StatementColumnsInKeyOrder();
    var cols := StatementColumns;
    if "uuid" !in rec {
      assert cols[0] !in rec;
    } else if "inputDate" !in rec {
      assert cols[1] !in rec;
    } else if "batteryLevel" !in rec {
      assert cols[2] !in rec;
    } else if "hourlyRainFall" !in rec {
      assert cols[3] !in rec;
    } else if "dailyRainfall" !in rec {
      assert cols[4] !in rec;
    } else if "averageTempreture" !in rec {
      assert cols[5] !in rec;
    } else if "windSpeed" !in rec {
      assert cols[6] !in rec;
    } else if "windDirection" !in rec {
      assert cols[7] !in rec;
    } else if "atmosphericPressure" !in rec {
      assert cols[8] !in rec;
    } else if "relativeHumidity" !in rec {
      assert cols[9] !in rec;
    } else if "sunRadiation" !in rec {
      assert cols[10] !in rec;
    } else {
      assert cols[11] !in rec;
    }
  }

  /** The fixed field list is the one the generic script configures for its "AWS" source. */
  lemma SameFieldsAsGenericConfig()
    ensures AwsFields == Api2Psql.Apis[0].fields
    ensures AwsColumns == Api2Psql.Columns(Api2Psql.Apis[0].fields)
  {
  }

  /** The dictionary literal of `clean_record`: the id under "uuid", then `record.get(f)` for each AWS field. */
  function Filtered(record: Record, id: string): (m: Record)
    ensures m.Keys == Elems(AwsColumns)
    ensures m["uuid"] == Str(id)
    ensures forall f :: f in AwsFields ==> m[f] == Get(record, f)
  {
    map k | k in Elems(AwsColumns) :: if k == "uuid" then Str(id) else Get(record, k)
  }

  /**
    `clean_record(record)` with `id` standing for `str(uuid.uuid4())`: build the dictionary,
    then reject when any of its twelve values is None, "" or -99.
   */
  function CleanAws(record: Record, id: string): (r: Option<Record>)
    ensures r.None? <==> IsFaulty(Str(id)) || exists f :: f in AwsFields && IsFaulty(Get(record, f))
    ensures r.Some? ==> r.value.Keys == Elems(AwsColumns)
    ensures r.Some? ==> r.value["uuid"] == Str(id) && forall f :: f in AwsFields ==> f in record && r.value[f] == record[f]
  {
    var filtered := Filtered(record, id);
    if exists k :: k in filtered && IsFaulty(filtered[k]) then None else Some(filtered)
  }

  /** The id never causes a rejection: acceptance depends on the eleven record fields only. */
  lemma AcceptanceIgnoresId(record: Record, id1: string, id2: string)
    requires id1 != "" && id2 != ""
    ensures CleanAws(record, id1).Some? <==> CleanAws(record, id2).Some?
    ensures CleanAws(record, id1).Some? <==> forall f :: f in AwsFields ==> f in record && !IsFaulty(record[f])
  {
  }

  /** The hard-coded variant accepts, rejects and builds exactly like the generic `clean_record` on the AWS fields. */
  lemma CleanAwsMatchesGeneric(record: Record, id: string)
    requires id != ""
    ensures CleanAws(record, id) == Api2Psql.Clean(record, AwsFields, id)
  {
    var a := CleanAws(record, id);
    var g := Api2Psql.Clean(record, AwsFields, id);
    assert a.Some? <==> g.Some?;
    if a.Some? {
      assert a.value.Keys == g.value.Keys;
      forall k | k in a.value
        ensures a.value[k] == g.value[k]
      {
      }
      assert a.value == g.value;
    }
  }

  /**
    The hand-written parameter tuple follows the column list, so inserting an accepted record
    stores exactly that record.
   */
  lemma AcceptedRecordIsStored(record: Record, id: string)
    requires id != ""
    requires CleanAws(record, id).Some?
    ensures AwsTuple(CleanAws(record, id).value) == Params(CleanAws(record, id).value, AwsColumns)
    ensures Row(AwsColumns, CleanAws(record, id).value) == Some(CleanAws(record, id).value)
  {
    TupleFollowsColumns(CleanAws(record, id).value);
    AwsFieldsDistinct();
    CleanAwsMatchesGeneric(record, id);
    Api2Psql.CleanedRecordIsStored(record, AwsFields, id);
  }

  /** The AWS fields name each column once and leave "uuid" to the generated id. */
  lemma AwsFieldsDistinct()
    ensures Distinct(AwsFields) && "uuid" !in AwsFields
  {
    Api2Psql.ConfiguredApisWellFormed();
    assert Api2Psql.Apis[0] in Api2Psql.Apis;
    SameFieldsAsGenericConfig();
    Api2Psql.ColumnsDistinctFields(Api2Psql.Apis[0].fields);
  }

  /** The `cleaned` list of `__main__`: clean every fetched record and drop the rejected ones. */
  function CleanAllAws(raw: seq<Record>, uuids: nat -> string): (cleaned: seq<Record>)
    ensures |cleaned| <= |raw|
    ensures forall rec :: rec in cleaned ==>
              && rec.Keys == Elems(AwsColumns)
              && forall k :: k in rec ==> !IsFaulty(rec[k])
  {
    var xs := seq(|raw|, i requires 0 <= i < |raw| => CleanAws(raw[i], uuids(i)));
    assert forall rec :: Some(rec) in xs ==> exists i :: 0 <= i < |raw| && CleanAws(raw[i], uuids(i)) == Some(rec);
    DropNone(xs)
  }

  /** With generated (non-empty) ids, the AWS filter keeps exactly what the generic one keeps, in the same order. */
  lemma CleanAllAwsMatchesGeneric(raw: seq<Record>, uuids: nat -> string)
    requires forall i: nat :: uuids(i) != ""
    ensures CleanAllAws(raw, uuids) == Api2Psql.CleanAll(raw, AwsFields, uuids)
  {
    var xa := seq(|raw|, i requires 0 <= i < |raw| => CleanAws(raw[i], uuids(i)));
    var xg := seq(|raw|, i requires 0 <= i < |raw| => Api2Psql.Clean(raw[i], AwsFields, uuids(i)));
    forall i | 0 <= i < |raw|
      ensures xa[i] == xg[i]
    {
      CleanAwsMatchesGeneric(raw[i], uuids(i));
    }
    assert xa == xg;
  }

  /**
    `insert_data(records)`: nothing happens for an empty list; otherwise one insert-ignore
    statement per record, a raised statement is skipped and the loop goes on. The error
    handler itself reads `rec['stationID']` and `rec['inputDate']`, so a record without them
    would abort the loop; cleaned records always carry both.
   */
  method InsertData(table: ReadingTable, records: seq<Record>, fails: set<nat>)
    requires forall rec :: rec in records ==> "stationID" in rec && "inputDate" in rec
    modifies table
    ensures records == [] ==> table.rows == old(table.rows)
    ensures table.rows == InsertAll(old(table.rows), AwsColumns, records, fails)
  {
    if records == [] {
      return;
    }
    InsertLoop(table, AwsColumns, records, fails);
  }

  /**
    `__main__`: fetch, clean, filter, insert, and report the number of accepted records.
    A fetch failure, or a payload that cannot be iterated, is not caught: the script stops
    with it before writing anything.
   */
  method Run(resp: Response, uuids: nat -> string, table: ReadingTable, fails: set<nat>)
    returns (reported: Result<nat, FetchError>)
    modifies table
    ensures FetchReadings(resp).Err? ==>
              reported == Err(FetchReadings(resp).error) && table.rows == old(table.rows)
    ensures FetchReadings(resp).Ok? ==>
              var cleaned := CleanAllAws(FetchReadings(resp).value, uuids);
              && reported == Ok(|cleaned|)
              && table.rows == InsertAll(old(table.rows), AwsColumns, cleaned, fails)
  {
    match FetchReadings(resp)
    case Err(e) =>
      reported := Err(e);
    case Ok(rawData) =>
      var cleaned := CleanAllAws(rawData, uuids);
      assert AwsColumns[1] == "inputDate" && AwsColumns[11] == "stationID";
      InsertData(table, cleaned, fails);
      reported := Ok(|cleaned|);
  }
}
