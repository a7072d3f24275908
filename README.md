# RTDAS ingestion core in Dafny

RTDAS-fetch pulls telemetry readings from automatic weather stations (AWS), water-level
loggers (AWLR) and rain gauges (ARG), and station master data, from HTTP sources. It
writes them into PostgreSQL. This project models the sequential core of its three
scripts and proves properties of that model:

- **Envelope extraction** (`fetch_data`): `raise_for_status()`, then
  `resp.json().get("content", [])` for readings or `.get("data", [])` for master data.
  The HTTP response is an input (`Envelope.Response`).
- **Record validation/cleaning** (`clean_record`, generic and AWS variants): a record is
  rejected as a whole when any required field is missing, `None`, `""` or the fault code
  `-99`. Otherwise it is projected onto the required fields and tagged with a fresh id.
  The id (`uuid.uuid4()`) is a parameter.
- **Pipeline filter**: `[clean_record(r) ...]` followed by `[r for r in cleaned if r]`.
- **Reading tables**: `INSERT ... ON CONFLICT (stationID, inputDate) DO NOTHING`, one
  statement per record. The table is a map from the conflict key to the row.
- **Master table**: `INSERT ... ON CONFLICT (stationID) DO UPDATE SET ...` into
  `rtdas_master`, one statement per record, keyed by `stationID`.

JSON values are `Values.Value = Null | Num(real) | Str(string) | Other(repr)`. Numbers are
rationals, so the integer `-99` and the float `-99.0` are the same fault code, as Python's
`==` treats them. Records are `map<string, Value>`, and `Values.Get` reads a missing key as
`Null`, like `dict.get`.

Each table is a class whose `rows` field the write loops update one statement at a time.
The loops are proved equal to the specification functions `ReadingTables.InsertAll` and
`Master.UpsertAll`, which the lemmas characterise. The store may raise on any statement
(constraint violation, type mismatch, lost connection). This is an oracle `fails`: the set
of batch positions whose statement raises. A raised statement changes nothing, and the
loop goes on. The model also derives the statement failures the scripts cause themselves:
- a `KeyError` while building the parameter tuple;
- a column named twice;
- a `NULL` stationID in a master record, refused as a primary key.

In `rtdas_aws_api2psql.py` a `KeyError` is not absorbed in the same way. Its error handler
prints `rec['stationID']` and `rec['inputDate']`, so for a record without either of those two keys the
handler raises again and the script stops. `AwsApi2Psql.InsertData` therefore requires
both keys in every record. Its caller `AwsApi2Psql.Run` always meets that requirement,
because every cleaned record carries all twelve columns.

Where the intended design and the code differ, the model follows the code:
- `rtdas_master.py`'s `__main__` has no `try`. A failed fetch ends the whole run, and the
  master sources after it are not processed (`Master.RunMaster`). Failures are not
  isolated per source there, unlike in `rtdas_api2psql.py`'s `process_api`.
- The count a write loop returns is `len(records)`, the number attempted. It is not the
  number stored: statements that raise or hit a conflict still count.

Modules: `Wrappers`, `Values` (values.dfy), `Envelope` (envelope.dfy), `ReadingTables`
(reading_tables.dfy), `Api2Psql` (api2psql.dfy), `AwsApi2Psql` (aws_api2psql.dfy),
`Master` (master.dfy).

## Model

| member | source | states |
|---|---|---|
| `Values.IsFaulty` | rtdas_api2psql.py:72 | `v in [-99, None, ""]`: None is faulty, a number is faulty iff it equals -99 (int or float), a string iff it is empty, and any other JSON value never is |
| `Values.Get` | rtdas_api2psql.py:71 | `record.get(key)`: the stored value when the key is present, None otherwise |
| `Values.DropNone` | rtdas_api2psql.py:108 | The `if r` filter never lengthens the list, and every value it keeps was accepted in the input |
| `Values.DropNoneAppend` | rtdas_api2psql.py:108 | The `if r` filter distributes over concatenation, so kept records stay in fetch order |
| `Values.DropNoneMembers` | rtdas_aws_api2psql.py:95 | A value survives the filter iff it was accepted somewhere in the input |
| `Values.DropNoneKeepsAll` | rtdas_api2psql.py:107-108 | Nothing is dropped iff every element was accepted |
| `Envelope.RaisesForStatus` | rtdas_api2psql.py:64 | Statuses below 400 pass, and every 4xx and 5xx status raises |
| `Envelope.FetchData` | rtdas_api2psql.py:62-65 | A request that raises before any response fails with `ConnectionError`. A 4xx/5xx status fails with that status, and a body that is not an object fails. Otherwise it succeeds: an absent key gives the empty list, and a present key gives its member unchanged, whatever its kind |
| `Envelope.FetchReadings` | rtdas_api2psql.py:106-108 | A reading script iterates the member: a list gives its records, `""` or `{}` gives none, and null, 0, false or a non-list raises (`BadPayload`). Fetch errors pass through |
| `Envelope.FetchStations` | rtdas_master.py:55-62 | `upsert_data` returns early on any falsy member (null, 0, false, `""`, `{}`) as an empty batch, iterates a list, and raises (`BadPayload`) on anything else. Fetch errors pass through |
| `Envelope.FalsyPayloadDiffers` | rtdas_master.py:56-57 | The same member under the key is accepted by a reading script iff it is not null/0/false and a master script accepts it; when both accept it they yield the same records |
| `Envelope.EnvelopeRoundTrip` | rtdas_master.py:49-52 | A list wrapped under the envelope key is fetched back unchanged by both kinds of script, whatever the other members |
| `Envelope.FetchReadsOnlyItsKey` | rtdas_aws_api2psql.py:32-35 | The result depends on the body only through the member under the key |
| `ReadingTables.Params` | rtdas_api2psql.py:94 | The tuple exists iff every column is in the record. It then lists `rec[c]` for each column, in column order |
| `ReadingTables.ParamsOf` | rtdas_api2psql.py:94 | Conversely, any tuple holding `rec[c]` for each column in column order is exactly the tuple `tuple(rec[c] for c in cols)` builds |
| `ReadingTables.Bind` | rtdas_api2psql.py:90-94 | The stored row has exactly the listed columns, and column i holds parameter i when the columns are distinct |
| `ReadingTables.RowIsProjection` | rtdas_api2psql.py:84-94 | A statement can be formed iff the columns are distinct and all present. Its row is the record restricted to the columns |
| `ReadingTables.RowOfExactRecord` | rtdas_api2psql.py:90-94 | A record holding exactly the listed, distinct columns is stored as it is |
| `ReadingTables.InsertOne` | rtdas_api2psql.py:90-94 | With DO NOTHING: when the statement can be formed and its key is absent, exactly the record's row is added under that key; otherwise the table is unchanged. Existing rows always keep their values |
| `ReadingTables.InsertAll` | rtdas_api2psql.py:88-96 | After the loop, every existing row is unchanged, no row is removed, and each record adds at most one row |
| `ReadingTables.FirstWriter` | rtdas_api2psql.py:88-96 | The position it names is inside the batch |
| `ReadingTables.FirstWriterSpec` | rtdas_api2psql.py:88-96 | `FirstWriter` names the first position whose statement does not raise and whose row has the given key; when it names none, no record lands on the key |
| `ReadingTables.FirstWriterFromLands` | rtdas_api2psql.py:88-96 | Two failure sets under which the same records land on a key give the same first writer for it |
| `ReadingTables.InsertAllAt` | rtdas_api2psql.py:88-96 | An absent key gets the row of the first record landing on it, or stays absent. Failures do not stop later records |
| `ReadingTables.InsertAllIdempotent` | rtdas_aws_api2psql.py:71-77 | Inserting the same batch a second time, failing at least where the first run failed, leaves the table as one insertion did |
| `ReadingTables.InsertFailureIsolated` | rtdas_aws_api2psql.py:69-85 | A statement that raises affects no key other than its own record's |
| `ReadingTables.InsertLoop` | rtdas_api2psql.py:88-96 | The shared write loop of both reading scripts, one statement per record, leaves the table equal to `InsertAll` of the batch |
| `ReadingTables.ReadingTable.Execute` | rtdas_api2psql.py:89-96 | One statement in its try block: a raised statement changes nothing, otherwise insert-ignore. Existing rows are never changed |
| `Api2Psql.ConfiguredApisWellFormed` | rtdas_api2psql.py:22-55 | Each configured column list `["uuid"] + fields` is duplicate-free and contains stationID and inputDate |
| `Api2Psql.Clean` | rtdas_api2psql.py:68-75 | Rejects iff some required field is missing or faulty (None, "", -99). An accepted record has keys exactly {"uuid"} ∪ fields, copies each field's raw value, and has the id under "uuid" |
| `Api2Psql.CleanRecord` | rtdas_api2psql.py:68-75 | The loop with early return computes exactly `Clean` |
| `Api2Psql.AcceptedHoldsNoFault` | rtdas_api2psql.py:69-74 | With a non-empty id, no value of an accepted record is a sentinel |
| `Api2Psql.CleanIgnoresOtherKeys` | rtdas_api2psql.py:70-74 | Raw keys outside the required fields do not affect the result |
| `Api2Psql.ColumnsDistinctFields` | rtdas_api2psql.py:84 | A duplicate-free column list `["uuid"] + fields` has duplicate-free fields, none named "uuid" |
| `Api2Psql.TupleInColumnOrder` | rtdas_api2psql.py:84-94 | For an accepted record, the parameter tuple is the id followed by the field values in configured column order |
| `Api2Psql.CleanedRecordIsStored` | rtdas_api2psql.py:84-94 | The row stored for an accepted record, with distinct fields not named "uuid", is exactly that record |
| `Api2Psql.CleanAll` | rtdas_api2psql.py:107-108 | The cleaned list is no longer than the fetched one, and each of its records has exactly the keys "uuid" and the fields, with no faulty field value |
| `Api2Psql.CleanAllMembers` | rtdas_api2psql.py:107-108 | The cleaned list holds exactly the accepted cleanings of fetched records, and is no longer than the fetched list |
| `Api2Psql.CleanAllKeepsAll` | rtdas_api2psql.py:107 | The cleaned list is as long as the fetched list iff every record is accepted |
| `Api2Psql.CleanAllKeepsOrder` | rtdas_api2psql.py:108 | Cleaning a concatenation is the concatenation of the cleanings, so fetch order is kept |
| `Api2Psql.InsertData` | rtdas_api2psql.py:78-101 | Returns len(records), which is 0 for an empty batch, whatever the statements raised. The table becomes `InsertAll` of the batch |
| `Api2Psql.ProcessApi` | rtdas_api2psql.py:104-112 | A fetch failure, or a payload that cannot be iterated, is reported and writes nothing. Otherwise the cleaned batch is inserted and its length reported |
| `AwsApi2Psql.SameFieldsAsGenericConfig` | rtdas_aws_api2psql.py:40-53 | The hard-coded field and column lists equal the generic script's "AWS" configuration |
| `AwsApi2Psql.AwsTuple` | rtdas_aws_api2psql.py:78-83 | The hand-written tuple, when every subscript succeeds, has one value per column of the statement |
| `AwsApi2Psql.StatementColumnsInKeyOrder` | rtdas_aws_api2psql.py:73-75 | The statement's column list is the dictionary's key order |
| `AwsApi2Psql.TupleFollowsColumns` | rtdas_aws_api2psql.py:71-83 | The hand-written tuple equals `tuple(rec[c] for c in cols)` over the dictionary's keys: the same values in order, and a KeyError exactly when a column is missing |
| `AwsApi2Psql.TupleRaisesWithColumns` | rtdas_aws_api2psql.py:78-83 | A record missing a column raises KeyError in the generic tuple whenever it does in the hand-written one |
| `AwsApi2Psql.Filtered` | rtdas_aws_api2psql.py:40-53 | The dictionary has the 12 columns as keys: the id under "uuid" and `record.get(f)` for each field |
| `AwsApi2Psql.CleanAws` | rtdas_aws_api2psql.py:38-59 | Rejects iff the id or one of the 11 fields is missing or faulty. An accepted record has the 12 keys, the id, and raw values copied |
| `AwsApi2Psql.AcceptanceIgnoresId` | rtdas_aws_api2psql.py:55-58 | With a generated (non-empty) id, acceptance depends only on the 11 record fields |
| `AwsApi2Psql.CleanAwsMatchesGeneric` | rtdas_aws_api2psql.py:38-59 | Equals the generic `Clean` on the AWS field list |
| `AwsApi2Psql.AcceptedRecordIsStored` | rtdas_aws_api2psql.py:71-83 | For an accepted record, the hand-written tuple is the column-ordered tuple, and the row stored is exactly that record |
| `AwsApi2Psql.CleanAllAws` | rtdas_aws_api2psql.py:94-95 | The cleaned list is no longer than the fetched one, and each of its records has exactly the 12 columns as keys, none holding a faulty value |
| `AwsApi2Psql.CleanAllAwsMatchesGeneric` | rtdas_aws_api2psql.py:94-95 | The `__main__` filter keeps exactly what the generic filter keeps, in the same order |
| `AwsApi2Psql.InsertData` | rtdas_aws_api2psql.py:62-89 | Given records that carry stationID and inputDate, which the error handler at line 85 reads, an empty list writes nothing. Otherwise the table becomes `InsertAll` of the batch, skipping raised statements |
| `AwsApi2Psql.Run` | rtdas_aws_api2psql.py:92-97 | A fetch failure, or a payload that cannot be iterated, ends the run with no writes. Otherwise the reported count is the number of accepted records |
| `Master.SourceLabelsDistinct` | rtdas_master.py:20-42 | The three configured sources write three different labels into the source column of the one shared table |
| `Master.RowOf` | rtdas_master.py:76-84 | Each of name, location, longitude, latitude, type and zone holds `r.get(c)`: a missing field is None and no value is checked. The source column holds the configured label |
| `Master.RowOfReadsOnlyItsColumns` | rtdas_master.py:77-83 | Only the six named fields reach the row; any other record key, "source" included, is ignored |
| `Master.FaultyValuesAreWritten` | rtdas_master.py:77-83 | A None, "" or -99 in a master column reaches the row unchanged, whereas `clean_record` rejects a reading record for it |
| `Master.UpsertOne` | rtdas_master.py:64-85 | A NULL stationID changes nothing. Otherwise the station is inserted or overwritten with the record's row, and every other station is unchanged |
| `Master.UpsertAll` | rtdas_master.py:62-87 | The upsert loop never removes a station |
| `Master.LastWriter` | rtdas_master.py:62-87 | Finds the last batch position whose statement does not raise and that writes the given station, or reports that none exists |
| `Master.UpsertAllAt` | rtdas_master.py:62-87 | Last write wins: a station written by the batch holds its last writer's row, and every other station is unchanged |
| `Master.UpsertAllIdempotent` | rtdas_master.py:68-75 | Upserting the same batch twice, with the same failures, equals upserting it once |
| `Master.UpsertFailureIsolated` | rtdas_master.py:86-87 | A statement that raises affects no station other than its own record's |
| `Master.RenamedStationTakesLaterName` | rtdas_master.py:64-75 | A station sent again with a changed name holds the later name |
| `Master.MasterTable.Execute` | rtdas_master.py:63-87 | One statement in its try block: a raised statement, or one with a NULL stationID, changes nothing. Otherwise it overwrites the station's row. Other stations are unchanged |
| `Master.UpsertData` | rtdas_master.py:55-92 | Returns len(records), 0 for an empty batch with no writes. The table becomes `UpsertAll` of the batch |
| `Master.UpsertSources` | rtdas_master.py:96-99 | Upserting the sources one after another never removes a station |
| `Master.RunMaster` | rtdas_master.py:95-100 | Sources are processed in order. The first fetch failure ends the run; earlier sources stay written and each reported count is its fetched length |

## Left out

- HTTP: `requests.get`, Basic authentication and JSON parsing are replaced by a `Response` value. A request that raises before any response arrives (connection error, timeout) is the `NoResponse` value, and `fetch_data` then fails with `ConnectionError`. Retries are not part of the code.
- JSON members under the envelope key are reduced to four kinds (`Envelope.Member`): a list of objects, an empty string or object, a null/0/false, and anything else. Reading scripts iterate `""` and `{}` as empty batches and raise on null, 0, false and non-lists. `upsert_data` returns 0 for every falsy member and raises on the rest. A non-empty list holding a non-object, or a non-empty string or object, is the "anything else" kind. The model treats such a payload as `BadPayload` with no writes. In `upsert_data` a list whose later element is not an object first executes the statements of the objects before it. The exception then escapes before `commit`, and the model does not follow those uncommitted statements.
- Database plumbing: connections, cursors, SQL text and the table-name interpolation are left out. A failing `get_connection`, `commit` or `close` is not modelled.
- PostgreSQL transaction semantics: after one statement fails in an open transaction, PostgreSQL fails every later statement and rolls back at `commit`. The code uses no savepoints. The model follows the Python loop only. Its tables are the state seen by the loop before `commit`, and it makes no claim that rows after a failure are durably stored. The oracle `fails` can express the "every later statement fails" pattern, but the model does not impose it. Crash and rollback atomicity are out of scope.
- ReadingTables.KeyOf / Master.UpsertOne: two conflict keys are equal in the model exactly when their JSON values are equal. PostgreSQL compares them after conversion to the column types, which the scripts do not declare. So the store may identify more keys than the model does, for example two spellings of one timestamp in inputDate, or `101` and `"101"` as stationID in a text column. Where that happens, the store ignores (readings) or overwrites (master) a row that the model keeps separate.
- ReadingTables.InsertAll: a `NULL` in stationID or inputDate never conflicts in PostgreSQL, so such rows would all be stored. The map model keys them like any other value. The pipeline never produces them, because every configured field list contains both columns and accepted records carry no `Null`.
- The concurrent `ThreadPoolExecutor` fan-out and the completion-order results list of `rtdas_api2psql.py`'s `__main__` are left out. The per-source pipelines share no state, and `Api2Psql.ProcessApi` models one source.
- Configuration (`dotenv`, `os.getenv`: URLs, credentials, table names), `print` output and `datetime.now()` are left out. The outcome messages are the `Outcome`/`Result` values.
- `uuid.uuid4()` is an input. The uniqueness of generated ids cannot be stated about a parameter. Non-emptiness is assumed where a lemma needs it (`requires id != ""`).
- Floating-point values are opaque. Readings, longitudes and latitudes are compared only for equality with `-99`.
