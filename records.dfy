/**
 * The one entity of the service: a row of the `values` table, and the
 * dictionary shape in which the handlers return it.
 */
module Records {

  datatype Option<+T> = None | Some(value: T)

  /** A row of the `values` table: the primary key and two integer columns. */
  datatype ValueRecord = ValueRecord(id: int, currentValue: int, defaultValue: int)

  /** The keys of the dictionary that describes one record. */
  const IdKey: string := "id"
  const CurrentKey: string := "current_value"
  const DefaultKey: string := "default_value"

  /** The three keys a record's dictionary carries, and no others. */
  function DictKeys(): (keys: set<string>)
  {
    {IdKey, CurrentKey, DefaultKey}
  }

  /** Reads a record back out of its dictionary; None when a key is missing. */
  function FromDict(d: map<string, int>): (r: Option<ValueRecord>)
  {
    if IdKey in d && CurrentKey in d && DefaultKey in d
    then Some(ValueRecord(d[IdKey], d[CurrentKey], d[DefaultKey]))
    else None
  }

  /**
   * The record as a dictionary: exactly the three column keys, and nothing of
   * the record is lost on the way (FromDict recovers it).
   */
  function ToDict(r: ValueRecord): (d: map<string, int>)
    ensures d.Keys == DictKeys()
    ensures FromDict(d) == Some(r)
  {
    map[IdKey := r.id, CurrentKey := r.currentValue, DefaultKey := r.defaultValue]
  }

  /** Different records never share a dictionary. */
  lemma ToDictInjective(r: ValueRecord, s: ValueRecord)
    ensures ToDict(r) == ToDict(s) <==> r == s
  {
  }

  /** Every dictionary with exactly the three keys is the dictionary of some record. */
  lemma DictRoundTrip(d: map<string, int>)
    requires d.Keys == DictKeys()
    ensures FromDict(d).Some? && ToDict(FromDict(d).value) == d
  {
  }
}
