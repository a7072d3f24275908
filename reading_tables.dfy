/**
  A reading table (AWS, AWLR, ARG) and the statement both reading scripts issue per record:
  `INSERT INTO <table> (<cols>) VALUES (...) ON CONFLICT (stationID, inputDate) DO NOTHING`.
  The table is a map from the unique key (stationID, inputDate) to the stored row.
 */
module ReadingTables {
  import opened Wrappers
  import opened Values

  type ReadingKey = (Value, Value)

  type Table = map<ReadingKey, Record>

  /** The columns of the unique constraint the conflict clause names. */
  function KeyOf(row: Record): ReadingKey
  {
    (Get(row, "stationID"), Get(row, "inputDate"))
  }

  /** `tuple(rec[c] for c in cols)`: None when a column is missing (the KeyError is raised inside the try block). */
  function Params(rec: Record, cols: seq<string>): (r: Option<seq<Value>>)
    ensures r.Some? <==> forall c :: c in cols ==> c in rec
    ensures r.Some? ==> |r.value| == |cols| && forall i :: 0 <= i < |cols| ==> r.value[i] == rec[cols[i]]
    decreases |cols|
  {
    if cols == [] then Some([])
    else if cols[0] !in rec then None
    else match Params(rec, cols[1..])
      case None => None
      case Some(ps) => Some([rec[cols[0]]] + ps)
  }

  /** A tuple holding `rec[c]` for each column, in column order, is the tuple the statement builds. */
  lemma ParamsOf(rec: Record, cols: seq<string>, ps: seq<Value>)
    requires |ps| == |cols|
    requires forall i :: 0 <= i < |cols| ==> cols[i] in rec && ps[i] == rec[cols[i]]
    ensures Params(rec, cols) == Some(ps)
  {
    assert forall c :: c in cols ==> c in rec;
    assert Params(rec, cols).value == ps;
  }

  /** The row the store builds from a column list and the parameter tuple, column i taking parameter i. */
  function Bind(cols: seq<string>, ps: seq<Value>): (row: Record)
    requires |ps| == |cols|
    ensures row.Keys == Elems(cols)
    ensures Distinct(cols) ==> forall i :: 0 <= i < |cols| ==> row[cols[i]] == ps[i]
    decreases |cols|
  {
    if cols == [] then map[] else Bind(cols[1..], ps[1..])[cols[0] := ps[0]]
  }

  /**
    The row one statement would store, or None when the statement cannot be executed:
    a column named twice is refused by the store, a missing column raises before execute.
   */
  function Row(cols: seq<string>, rec: Record): Option<Record>
  {
    if !Distinct(cols) then None
    else match Params(rec, cols)
      case None => None
      case Some(ps) => Some(Bind(cols, ps))
  }

  /** The stored row is the record restricted to the listed columns. */
  lemma RowIsProjection(cols: seq<string>, rec: Record)
    ensures Row(cols, rec).Some? <==> Distinct(cols) && forall c :: c in cols ==> c in rec
    ensures Row(cols, rec).Some? ==>
              && Row(cols, rec).value.Keys == Elems(cols)
              && forall c :: c in cols ==> Row(cols, rec).value[c] == rec[c]
  {
  }

  /** A record holding exactly the listed (distinct) columns is stored as it is. */
  lemma RowOfExactRecord(cols: seq<string>, rec: Record)
    requires Distinct(cols) && rec.Keys == Elems(cols)
    ensures Row(cols, rec) == Some(rec)
  {
    RowIsProjection(cols, rec);
    assert Row(cols, rec).value == rec;
  }

  /** Effect of one statement that does not raise: insert the row unless its key is present, so at most one row is added. */
  function InsertOne(t: Table, cols: seq<string>, rec: Record): (r: Table)
    ensures t.Keys <= r.Keys && forall k :: k in t ==> r[k] == t[k]
    ensures |t| <= |r| <= |t| + 1
    ensures forall k :: k in r && k !in t ==> Row(cols, rec) == Some(r[k]) && KeyOf(r[k]) == k
    ensures Row(cols, rec).Some? && KeyOf(Row(cols, rec).value) !in t ==>
              r == t[KeyOf(Row(cols, rec).value) := Row(cols, rec).value]
    ensures Row(cols, rec).None? || KeyOf(Row(cols, rec).value) in t ==> r == t
  {
    match Row(cols, rec)
    case None => t
    case Some(row) => if KeyOf(row) in t then t else t[KeyOf(row) := row]
  }

  /** Record i of the batch is attempted, its statement does not raise, and its row has key k. */
  predicate Lands(cols: seq<string>, recs: seq<Record>, fails: set<nat>, i: int, k: ReadingKey)
  {
    0 <= i < |recs| && i !in fails && LandsOn(cols, recs[i], k)
  }

  /** The statement for `rec` can be formed and its row has key k. */
  predicate LandsOn(cols: seq<string>, rec: Record, k: ReadingKey)
  {
    Row(cols, rec).Some? && KeyOf(Row(cols, rec).value) == k
  }

  /**
    The table after the write loop over `recs`, where the statements at the positions in
    `fails` raise and are skipped. Failures do not stop the loop. With DO NOTHING, a row
    whose key already exists is left unchanged and no row is ever removed; each record adds
    at most one row.
   */
  function InsertAll(t: Table, cols: seq<string>, recs: seq<Record>, fails: set<nat>): (r: Table)
    ensures t.Keys <= r.Keys && forall k :: k in t ==> r[k] == t[k]
    ensures |t| <= |r| <= |t| + |recs|
    decreases |recs|
  {
    if recs == [] then t
    else
      var n := |recs| - 1;
      var before := InsertAll(t, cols, recs[..n], fails);
      if n in fails then before else InsertOne(before, cols, recs[n])
  }

  /** The first record of the batch that lands on key k, if any. */
  function FirstWriter(cols: seq<string>, recs: seq<Record>, fails: set<nat>, k: ReadingKey): (r: Option<nat>)
    ensures r.Some? ==> r.value < |recs|
    decreases |recs|
  {
    if recs == [] then None
    else
      var n := |recs| - 1;
      match FirstWriter(cols, recs[..n], fails, k)
      case Some(i) => Some(i)
      case None => if Lands(cols, recs, fails, n, k) then Some(n) else None
  }

  /** Dropping the last record of a batch does not change where the others land. */
  lemma LandsOnPrefix(cols: seq<string>, recs: seq<Record>, fails: set<nat>, k: ReadingKey)
    requires recs != []
    ensures forall j :: 0 <= j < |recs| - 1 ==> Lands(cols, recs[..|recs| - 1], fails, j, k) == Lands(cols, recs, fails, j, k)
  {
    var n := |recs| - 1;
    forall j | 0 <= j < n
      ensures Lands(cols, recs[..n], fails, j, k) == Lands(cols, recs, fails, j, k)
    {
      assert recs[..n][j] == recs[j];
    }
  }

  /**
    `FirstWriter` finds the first record landing on k: the record it names lands there and
    none before it does; when it finds none, no record of the batch lands there.
   */
  lemma {:induction false} FirstWriterSpec(cols: seq<string>, recs: seq<Record>, fails: set<nat>, k: ReadingKey)
    ensures FirstWriter(cols, recs, fails, k).Some? ==>
              && Lands(cols, recs, fails, FirstWriter(cols, recs, fails, k).value, k)
              && forall j :: 0 <= j < FirstWriter(cols, recs, fails, k).value ==> !Lands(cols, recs, fails, j, k)
    ensures FirstWriter(cols, recs, fails, k).None? ==> forall j :: 0 <= j < |recs| ==> !Lands(cols, recs, fails, j, k)
    decreases |recs|
  {
    if recs != [] {
      FirstWriterSpec(cols, recs[..|recs| - 1], fails, k);
      LandsOnPrefix(cols, recs, fails, k);
    }
  }

  /** Two failure sets under which the same records land on k have the same first writer for k. */
  lemma FirstWriterFromLands(cols: seq<string>, recs: seq<Record>, fails1: set<nat>, fails2: set<nat>, k: ReadingKey)
    requires forall j :: Lands(cols, recs, fails1, j, k) == Lands(cols, recs, fails2, j, k)
    ensures FirstWriter(cols, recs, fails1, k) == FirstWriter(cols, recs, fails2, k)
  {
    var a := FirstWriter(cols, recs, fails1, k);
    var b := FirstWriter(cols, recs, fails2, k);
    FirstWriterSpec(cols, recs, fails1, k);
    FirstWriterSpec(cols, recs, fails2, k);
    if a.Some? && b.Some? {
      assert !(a.value < b.value) && !(b.value < a.value);
    }
  }

  /** One step of the loop: the last record of a non-empty batch is applied to the table the rest left. */
  lemma InsertAllStep(t: Table, cols: seq<string>, recs: seq<Record>, fails: set<nat>)
    requires recs != []
    ensures var n := |recs| - 1;
            var before := InsertAll(t, cols, recs[..n], fails);
            InsertAll(t, cols, recs, fails) == if n in fails then before else InsertOne(before, cols, recs[n])
  {
  }

  /** The first writer of a batch is the first writer of its prefix, or else its last record if that lands. */
  lemma FirstWriterStep(cols: seq<string>, recs: seq<Record>, fails: set<nat>, k: ReadingKey)
    requires recs != []
    ensures var n := |recs| - 1;
            var w := FirstWriter(cols, recs[..n], fails, k);
            && FirstWriter(cols, recs, fails, k) == (if w.Some? then w else if Lands(cols, recs, fails, n, k) then Some(n) else None)
            && (w.Some? ==> recs[..n][w.value] == recs[w.value])
  {
  }

  /**
    The content of the table at an absent key after the loop: it receives the row of the
    first record that lands on it, or stays absent (an existing row is never touched, as
    `InsertAll` states).
   */
  lemma {:induction false} InsertAllAt(t: Table, cols: seq<string>, recs: seq<Record>, fails: set<nat>, k: ReadingKey)
    ensures k !in t && FirstWriter(cols, recs, fails, k).None? ==> k !in InsertAll(t, cols, recs, fails)
    ensures k !in t && FirstWriter(cols, recs, fails, k).Some? ==>
              && k in InsertAll(t, cols, recs, fails)
              && Some(InsertAll(t, cols, recs, fails)[k]) == Row(cols, recs[FirstWriter(cols, recs, fails, k).value])
    decreases |recs|
  {
    if recs != [] {
      InsertAllAt(t, cols, recs[..|recs| - 1], fails, k);
      InsertAllStep(t, cols, recs, fails);
      FirstWriterStep(cols, recs, fails, k);
    }
  }

  /**
    Running the same batch again changes nothing, provided the second run fails at least
    where the first did (in particular: the same failures, or a first run without any).
   */
  lemma InsertAllIdempotent(t: Table, cols: seq<string>, recs: seq<Record>, fails1: set<nat>, fails2: set<nat>)
    requires fails1 <= fails2
    ensures InsertAll(InsertAll(t, cols, recs, fails1), cols, recs, fails2) == InsertAll(t, cols, recs, fails1)
  {
    var t1 := InsertAll(t, cols, recs, fails1);
    var t2 := InsertAll(t1, cols, recs, fails2);
    forall k
      ensures (k in t2 <==> k in t1) && (k in t1 ==> t2[k] == t1[k])
    {
      InsertAllAt(t1, cols, recs, fails2, k);
      if k !in t1 {
        var w := FirstWriter(cols, recs, fails2, k);
        FirstWriterSpec(cols, recs, fails2, k);
        FirstWriterSpec(cols, recs, fails1, k);
        if w.Some? {
          assert Lands(cols, recs, fails1, w.value, k);
          InsertAllAt(t, cols, recs, fails1, k);
          assert false;
        }
      }
    }
    assert t2 == t1;
  }

  /** A statement that raises affects only the key of its own record: every other key ends up as without the failure. */
  lemma InsertFailureIsolated(t: Table, cols: seq<string>, recs: seq<Record>, fails: set<nat>, i: nat, k: ReadingKey)
    requires i < |recs|
    requires Row(cols, recs[i]).None? || KeyOf(Row(cols, recs[i]).value) != k
    ensures k in InsertAll(t, cols, recs, fails + {i}) <==> k in InsertAll(t, cols, recs, fails)
    ensures k in InsertAll(t, cols, recs, fails) ==>
              InsertAll(t, cols, recs, fails + {i})[k] == InsertAll(t, cols, recs, fails)[k]
  {
    assert forall j :: Lands(cols, recs, fails + {i}, j, k) == Lands(cols, recs, fails, j, k);
    FirstWriterFromLands(cols, recs, fails + {i}, fails, k);
    InsertAllAt(t, cols, recs, fails + {i}, k);
    InsertAllAt(t, cols, recs, fails, k);
  }

  /**
    The write loop of both reading scripts' `insert_data`: one statement per record, in
    order; a raised statement is skipped and the loop goes on.
   */
  method InsertLoop(table: ReadingTable, cols: seq<string>, records: seq<Record>, fails: set<nat>)
    modifies table
    ensures table.rows == InsertAll(old(table.rows), cols, records, fails)
  {
    var i := 0;
    while i < |records|
      invariant 0 <= i <= |records|
      invariant table.rows == InsertAll(old(table.rows), cols, records[..i], fails)
    {
      table.Execute(cols, records[i], i in fails);
      assert records[..i + 1][..i] == records[..i];
      i := i + 1;
    }
    assert records[..i] == records;
  }

  /** A reading table of the store, changed one statement at a time. */
  class ReadingTable {
    var rows: Table

    constructor (initial: Table)
      ensures rows == initial
    {
      rows := initial;
    }

    /**
      One `cur.execute(...)` inside its try block. `raises` is the store's verdict on the
      statement (constraint violation, type mismatch, lost connection); a raised statement
      changes nothing and the caller carries on.
     */
    method Execute(cols: seq<string>, rec: Record, raises: bool)
      modifies this
      ensures rows == if raises then old(rows) else InsertOne(old(rows), cols, rec)
      ensures forall k :: k in old(rows) ==> k in rows && rows[k] == old(rows)[k]
    {
      var row := Row(cols, rec);
      if !raises && row.Some? && KeyOf(row.value) !in rows {
        rows := rows[KeyOf(row.value) := row.value];
      }
    }
  }
}
