/**
 The technique catalog: the parsed list of technique records projected into
 five parallel columns (ids, names, descriptions, tactic ids, tactic names).
 Index i of every column comes from record i, which is what keeps the catalog
 aligned with the corpus embeddings computed from the descriptions.
 */
module Catalog {

  /** One parsed JSON object of the technique file: field name to value. */
  type Record = map<string, string>

  /** The value the tactic columns take when a record has no such field. */
  const UNKNOWN: string := "Unknown"

  const ID_KEY: string := "id"
  const NAME_KEY: string := "name"
  const DESCRIPTION_KEY: string := "description"
  const TACTIC_ID_KEY: string := "tacticId"
  const TACTIC_NAME_KEY: string := "tacticName"

  /** The five column lists built once when the pipeline is loaded. */
  datatype Catalog = Catalog(
    ids: seq<string>,
    names: seq<string>,
    texts: seq<string>,
    tacticIds: seq<string>,
    tacticNames: seq<string>)
  {
    /** All five columns have one entry per technique. */
    predicate Valid() {
      |names| == |ids| && |texts| == |ids| && |tacticIds| == |ids| && |tacticNames| == |ids|
    }

    function Size(): nat {
      |ids|
    }
  }

  /** Loading either yields the catalog or fails on the first lookup of a missing field. */
  datatype Loaded = Ready(catalog: Catalog) | KeyError(key: string)

  predicate AllHave(records: seq<Record>, key: string) {
    forall i :: 0 <= i < |records| ==> key in records[i]
  }

  /** `[t[key] for t in records]`: defined only when every record has the field. */
  function Column(records: seq<Record>, key: string): (col: seq<string>)
    requires AllHave(records, key)
    ensures |col| == |records|
    ensures forall i :: 0 <= i < |records| ==> col[i] == records[i][key]
  {
    if records == [] then [] else [records[0][key]] + Column(records[1..], key)
  }

  /** `[t.get(key, default) for t in records]`. */
  function ColumnOr(records: seq<Record>, key: string, default: string): (col: seq<string>)
    ensures |col| == |records|
    ensures forall i :: 0 <= i < |records| ==>
      col[i] == (if key in records[i] then records[i][key] else default)
  {
    if records == [] then []
    else [if key in records[0] then records[0][key] else default] + ColumnOr(records[1..], key, default)
  }

  /**
   Builds the five columns. The id column is built first, then names, then
   descriptions, so the reported missing field is the first of those three
   that some record lacks. The tactic columns never fail.
   */
  function Load(records: seq<Record>): (r: Loaded)
    ensures r.Ready? <==>
      AllHave(records, ID_KEY) && AllHave(records, NAME_KEY) && AllHave(records, DESCRIPTION_KEY)
    ensures r.Ready? ==> r.catalog.Valid() && r.catalog.Size() == |records|
    ensures r.KeyError? ==>
      && r.key in [ID_KEY, NAME_KEY, DESCRIPTION_KEY]
      && (exists i :: 0 <= i < |records| && r.key !in records[i])
      && (r.key != ID_KEY ==> AllHave(records, ID_KEY))
      && (r.key == DESCRIPTION_KEY ==> AllHave(records, NAME_KEY))
  {
    if !AllHave(records, ID_KEY) then KeyError(ID_KEY)
    else if !AllHave(records, NAME_KEY) then KeyError(NAME_KEY)
    else if !AllHave(records, DESCRIPTION_KEY) then KeyError(DESCRIPTION_KEY)
    else
      Ready(Catalog(
        Column(records, ID_KEY),
        Column(records, NAME_KEY),
        Column(records, DESCRIPTION_KEY),
        ColumnOr(records, TACTIC_ID_KEY, UNKNOWN),
        ColumnOr(records, TACTIC_NAME_KEY, UNKNOWN)))
  }

  /** Row i of the catalog written back as a record carrying all five fields. */
  function RowRecord(cat: Catalog, i: nat): Record
    requires cat.Valid() && i < cat.Size()
  {
    map[ID_KEY := cat.ids[i], NAME_KEY := cat.names[i], DESCRIPTION_KEY := cat.texts[i],
        TACTIC_ID_KEY := cat.tacticIds[i], TACTIC_NAME_KEY := cat.tacticNames[i]]
  }

  /** Every row of the catalog as a record, in catalog order. */
  function Records(cat: Catalog): (rs: seq<Record>)
    requires cat.Valid()
    ensures |rs| == cat.Size()
  {
    seq(cat.Size(), i requires 0 <= i < cat.Size() => RowRecord(cat, i))
  }

  /** Row i of a loaded catalog holds exactly the fields of record i, with "Unknown" for a missing tactic. */
  lemma LoadedRow(records: seq<Record>, i: nat)
    requires Load(records).Ready? && i < |records|
    ensures var cat := Load(records).catalog;
      && cat.ids[i] == records[i][ID_KEY]
      && cat.names[i] == records[i][NAME_KEY]
      && cat.texts[i] == records[i][DESCRIPTION_KEY]
      && cat.tacticIds[i] == (if TACTIC_ID_KEY in records[i] then records[i][TACTIC_ID_KEY] else UNKNOWN)
      && cat.tacticNames[i] == (if TACTIC_NAME_KEY in records[i] then records[i][TACTIC_NAME_KEY] else UNKNOWN)
  {
  }

  lemma RecordsHaveRequiredKeys(cat: Catalog)
    requires cat.Valid()
    ensures var rs := Records(cat);
      AllHave(rs, ID_KEY) && AllHave(rs, NAME_KEY) && AllHave(rs, DESCRIPTION_KEY)
  {
    var rs := Records(cat);
    forall i | 0 <= i < |rs| ensures ID_KEY in rs[i] && NAME_KEY in rs[i] && DESCRIPTION_KEY in rs[i] {
      assert rs[i] == RowRecord(cat, i);
    }
  }

  /** Loading the rows of a catalog gives back that catalog. */
  lemma LoadRecords(cat: Catalog)
    requires cat.Valid()
    ensures Load(Records(cat)) == Ready(cat)
  {
    var rs := Records(cat);
    RecordsHaveRequiredKeys(cat);
    var loaded := Load(rs).catalog;
    forall i | 0 <= i < |rs|
      ensures loaded.ids[i] == cat.ids[i] && loaded.names[i] == cat.names[i]
      ensures loaded.texts[i] == cat.texts[i] && loaded.tacticIds[i] == cat.tacticIds[i]
      ensures loaded.tacticNames[i] == cat.tacticNames[i]
    {
      LoadedRow(rs, i);
      assert rs[i] == RowRecord(cat, i);
    }
  }

  /** A record carrying exactly the five fields survives loading unchanged as its catalog row. */
  lemma RowRoundTrip(records: seq<Record>, i: nat)
    requires Load(records).Ready? && i < |records|
    requires records[i].Keys == {ID_KEY, NAME_KEY, DESCRIPTION_KEY, TACTIC_ID_KEY, TACTIC_NAME_KEY}
    ensures RowRecord(Load(records).catalog, i) == records[i]
  {
    var cat := Load(records).catalog;
    var row := RowRecord(cat, i);
    LoadedRow(records, i);
    var r := records[i];
    assert row[ID_KEY] == r[ID_KEY] && row[NAME_KEY] == r[NAME_KEY] && row[DESCRIPTION_KEY] == r[DESCRIPTION_KEY];
    assert row[TACTIC_ID_KEY] == r[TACTIC_ID_KEY] && row[TACTIC_NAME_KEY] == r[TACTIC_NAME_KEY];
    assert row.Keys == r.Keys;
  }
}
