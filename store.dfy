/**
 * The `values` table behind the four handlers: listing every record,
 * creating one under a fresh primary key, overwriting both columns of one,
 * and restoring one record's current value to its default.
 *
 * Each handler commits on its own, so each is one atomic transition of the
 * table. The transitions are stated first as functions on the table (a map
 * from primary key to row); the `Store` class then performs them in place.
 */
module ValueStore {
  import opened Records
  import Ids

  /** What a handler hands back: the affected record, or "Value not found". */
  datatype Result = Ok(value: ValueRecord) | NotFound

  /** The table after one handler has run, and what the handler returned. */
  datatype Outcome = Outcome(rows: map<int, ValueRecord>, result: Result)

  /** The primary-key invariant: every row is stored under its own id. */
  ghost predicate WellKeyed(rows: map<int, ValueRecord>)
  {
    forall id :: id in rows ==> rows[id].id == id
  }

  /** No row other than the one under `id` was added, removed or changed. */
  ghost predicate OthersUnchanged(before: map<int, ValueRecord>, after: map<int, ValueRecord>, id: int)
  {
    && (forall k :: k in after && k != id ==> k in before)
    && (forall k :: k in before && k != id ==> k in after && after[k] == before[k])
  }

  /** The query that fetches the row with a given id, or nothing. */
  function Find(rows: map<int, ValueRecord>, id: int): (found: Result)
  {
    if id in rows then Ok(rows[id]) else NotFound
  }

  /** The rows stored under the given ids, in the order of the ids. */
  function RowsAt(rows: map<int, ValueRecord>, ids: seq<int>): (records: seq<ValueRecord>)
    requires forall i :: 0 <= i < |ids| ==> ids[i] in rows
    ensures |records| == |ids|
    ensures forall i :: 0 <= i < |ids| ==> records[i] == rows[ids[i]]
  {
    if ids == [] then [] else [rows[ids[0]]] + RowsAt(rows, ids[1..])
  }

  /**
   * The query for every row: each stored record exactly once (in ascending id
   * order, one order the table may return them in).
   */
  function AllRecords(rows: map<int, ValueRecord>): (records: seq<ValueRecord>)
    requires WellKeyed(rows)
    ensures |records| == |rows|
    ensures forall i :: 0 <= i < |records| ==> records[i].id in rows && rows[records[i].id] == records[i]
    ensures forall id :: id in rows ==> rows[id] in records
    ensures forall i, j :: 0 <= i < j < |records| ==> records[i].id != records[j].id
  {
    var ids := Ids.SortedIds(rows.Keys);
    var records := RowsAt(rows, ids);
    forall id | id in rows ensures rows[id] in records {
      var i :| 0 <= i < |ids| && ids[i] == id;
      assert records[i] == rows[id];
    }
    records
  }

  /** The records as dictionaries, entry by entry, each reading back as its record. */
  function ListValues(records: seq<ValueRecord>): (values: seq<map<string, int>>)
    ensures |values| == |records|
    ensures forall i :: 0 <= i < |values| ==> values[i].Keys == DictKeys() && FromDict(values[i]) == Some(records[i])
  {
    seq(|records|, i requires 0 <= i < |records| => ToDict(records[i]))
  }

  /** The dictionary `d` reads back as a row the table stores under its own id. */
  ghost predicate ShowsStoredRow(rows: map<int, ValueRecord>, d: map<string, int>)
  {
    match FromDict(d)
    case None => false
    case Some(r) => r.id in rows && rows[r.id] == r
  }

  /** Every entry of the listing reads back as a row stored under its own id. */
  lemma ListingEntriesStored(rows: map<int, ValueRecord>)
    requires WellKeyed(rows)
    ensures |ListValues(AllRecords(rows))| == |rows|
    ensures forall d :: d in ListValues(AllRecords(rows)) ==> ShowsStoredRow(rows, d)
  {
    var records := AllRecords(rows);
    var values := ListValues(records);
    forall d | d in values ensures ShowsStoredRow(rows, d) {
      var i :| 0 <= i < |values| && values[i] == d;
      assert FromDict(d) == Some(records[i]);
    }
  }

  /** Every stored row appears in the listing, as its dictionary. */
  lemma ListingComplete(rows: map<int, ValueRecord>)
    requires WellKeyed(rows)
    ensures forall id :: id in rows ==> ToDict(rows[id]) in ListValues(AllRecords(rows))
  {
    var records := AllRecords(rows);
    var values := ListValues(records);
    forall id | id in rows ensures ToDict(rows[id]) in values {
      var i :| 0 <= i < |records| && records[i] == rows[id];
      DictRoundTrip(values[i]);
      assert values[i] == ToDict(rows[id]);
    }
  }

  /**
   * Creating a record under `newId`, an id the table does not hold yet: one
   * row with the given values is added and every other row stays as it was.
   */
  function CreateStep(rows: map<int, ValueRecord>, newId: int, currentValue: int, defaultValue: int): (o: Outcome)
    requires WellKeyed(rows)
    requires newId !in rows
    ensures o.result == Ok(ValueRecord(newId, currentValue, defaultValue))
    ensures o.rows.Keys == rows.Keys + {newId}
    ensures |o.rows| == |rows| + 1
    ensures OthersUnchanged(rows, o.rows, newId)
    ensures WellKeyed(o.rows)
    ensures Find(o.rows, newId) == o.result
  {
    var value := ValueRecord(newId, currentValue, defaultValue);
    Outcome(rows[newId := value], Ok(value))
  }

  /**
   * Overwriting both columns of the record with `id`: NotFound and no change
   * when there is none; otherwise that record, keeping its id, now holds the
   * given values, and no other row changes.
   */
  function UpdateStep(rows: map<int, ValueRecord>, id: int, currentValue: int, defaultValue: int): (o: Outcome)
    requires WellKeyed(rows)
    ensures id !in rows ==> o == Outcome(rows, NotFound)
    ensures id in rows ==> o.result == Ok(ValueRecord(id, currentValue, defaultValue))
    ensures o.rows.Keys == rows.Keys
    ensures OthersUnchanged(rows, o.rows, id)
    ensures WellKeyed(o.rows)
    ensures o.result.Ok? ==> Find(o.rows, id) == o.result
  {
    match Find(rows, id)
    case NotFound => Outcome(rows, NotFound)
    case Ok(value) =>
      var updated := value.(currentValue := currentValue, defaultValue := defaultValue);
      Outcome(rows[id := updated], Ok(updated))
  }

  /**
   * Restoring the default of the record with `id`: NotFound and no change when
   * there is none; otherwise its current value becomes its own default value,
   * the default value and the id stay, and no other row changes.
   */
  function RestoreStep(rows: map<int, ValueRecord>, id: int): (o: Outcome)
    requires WellKeyed(rows)
    ensures id !in rows ==> o == Outcome(rows, NotFound)
    ensures id in rows ==> o.result == Ok(ValueRecord(id, rows[id].defaultValue, rows[id].defaultValue))
    ensures o.rows.Keys == rows.Keys
    ensures OthersUnchanged(rows, o.rows, id)
    ensures WellKeyed(o.rows)
    ensures o.result.Ok? ==> Find(o.rows, id) == o.result
  {
    match Find(rows, id)
    case NotFound => Outcome(rows, NotFound)
    case Ok(value) =>
      var restored := value.(currentValue := value.defaultValue);
      Outcome(rows[id := restored], Ok(restored))
  }

  /** Restoring twice gives the same record and the same table as restoring once. */
  lemma RestoreIdempotent(rows: map<int, ValueRecord>, id: int)
    requires WellKeyed(rows)
    ensures RestoreStep(RestoreStep(rows, id).rows, id) == RestoreStep(rows, id)
  {
  }

  /** After an update, restoring the default makes the current value the default just written. */
  lemma UpdateThenRestore(rows: map<int, ValueRecord>, id: int, currentValue: int, defaultValue: int)
    requires WellKeyed(rows)
    requires id in rows
    ensures RestoreStep(UpdateStep(rows, id, currentValue, defaultValue).rows, id).result
            == Ok(ValueRecord(id, defaultValue, defaultValue))
  {
  }

  /** A created record can be fetched back with the values it was created with. */
  lemma CreateThenFind(rows: map<int, ValueRecord>, newId: int, currentValue: int, defaultValue: int)
    requires WellKeyed(rows)
    requires newId !in rows
    ensures Find(CreateStep(rows, newId, currentValue, defaultValue).rows, newId)
            == Ok(ValueRecord(newId, currentValue, defaultValue))
  {
  }

  /** After an update, the listing shows the record with exactly the new values. */
  lemma UpdateThenList(rows: map<int, ValueRecord>, id: int, currentValue: int, defaultValue: int)
    requires WellKeyed(rows)
    requires id in rows
    ensures ToDict(ValueRecord(id, currentValue, defaultValue))
            in ListValues(AllRecords(UpdateStep(rows, id, currentValue, defaultValue).rows))
  {
    ListingComplete(UpdateStep(rows, id, currentValue, defaultValue).rows);
  }

  /** An id the table does not hold is refused by both update and restore, and nothing changes. */
  lemma MissingIdNotFound(rows: map<int, ValueRecord>, id: int, currentValue: int, defaultValue: int)
    requires WellKeyed(rows)
    requires id !in rows
    ensures UpdateStep(rows, id, currentValue, defaultValue) == Outcome(rows, NotFound)
    ensures RestoreStep(rows, id) == Outcome(rows, NotFound)
  {
  }

  /** The `values` table, changed in place by the handlers. */
  class Store {
    var rows: map<int, ValueRecord>

    ghost predicate Valid()
      reads this
    {
      WellKeyed(rows)
    }

    /** A freshly created, empty table. */
    constructor ()
      ensures Valid() && rows == map[]
    {
      rows := map[];
    }

    /** The list handler: every record as a dictionary. */
    method GetValues() returns (values: seq<map<string, int>>)
      requires Valid()
      ensures |values| == |rows|
      ensures forall d :: d in values ==> ShowsStoredRow(rows, d)
      ensures forall id :: id in rows ==> ToDict(rows[id]) in values
    {
      var records := AllRecords(rows);
      values := ListValues(records);
      ListingEntriesStored(rows);
      ListingComplete(rows);
    }

    /** The create handler: adds a row under an id the table does not hold yet. */
    method CreateValue(currentValue: int, defaultValue: int) returns (value: ValueRecord)
      requires Valid()
      modifies this
      ensures Valid()
      ensures value.id !in old(rows)
      ensures Outcome(rows, Ok(value)) == CreateStep(old(rows), value.id, currentValue, defaultValue)
    {
      Ids.FreshIdExists(rows.Keys);
      var id :| id !in rows.Keys;
      value := ValueRecord(id, currentValue, defaultValue);
      rows := rows[id := value];
    }

    /** The update handler: overwrites both columns of the record with `valueId`. */
    method UpdateValue(valueId: int, currentValue: int, defaultValue: int) returns (res: Result)
      requires Valid()
      modifies this
      ensures Valid()
      ensures Outcome(rows, res) == UpdateStep(old(rows), valueId, currentValue, defaultValue)
    {
      if valueId !in rows {
        return NotFound;
      }
      var value := rows[valueId];
      value := value.(currentValue := currentValue);
      value := value.(defaultValue := defaultValue);
      rows := rows[valueId := value];
      res := Ok(value);
    }

    /** The restore handler: sets the current value of the record with `valueId` to its default. */
    method RestoreDefault(valueId: int) returns (res: Result)
      requires Valid()
      modifies this
      ensures Valid()
      ensures Outcome(rows, res) == RestoreStep(old(rows), valueId)
    {
      if valueId !in rows {
        return NotFound;
      }
      var value := rows[valueId];
      value := value.(currentValue := value.defaultValue);
      rows := rows[valueId := value];
      res := Ok(value);
    }
  }

  /**
   * A client of the handlers: a record created with (5, 0), updated to
   * (10, 0) and then restored ends with current value 0; restoring an id the
   * empty table does not hold fails and changes nothing.
   */
  method Scenario()
  {
    var empty := new Store();
    var missing := empty.RestoreDefault(999);
    assert missing == NotFound && empty.rows == map[];
    var listed := empty.GetValues();
    assert listed == [];

    var store := new Store();
    var created := store.CreateValue(5, 0);
    assert created.currentValue == 5 && created.defaultValue == 0;
    var updated := store.UpdateValue(created.id, 10, 0);
    assert updated == Ok(ValueRecord(created.id, 10, 0));
    var restored := store.RestoreDefault(created.id);
    assert restored == Ok(ValueRecord(created.id, 0, 0));
    var again := store.RestoreDefault(created.id);
    assert again == restored;
  }
}
