/**
 * The spreadsheet as the core sees it once loaded: a frame with a set of column
 * names and a sequence of records, each carrying its index label and a map from
 * column name to cell value, a blank cell being `None`.
 */
module Tables {
  import opened Wrappers
  import Seqs

  /** A non-blank cell: text or a number. */
  datatype Value = Str(text: string) | Num(number: real)

  type Cells = map<string, Option<Value>>

  /** One row of a frame and its index label (the row's position in the file it was read from). */
  datatype Record = Record(index: nat, cells: Cells)

  datatype Table = Table(columns: set<string>, rows: seq<Record>)

  /** The frame with no columns and no rows (`pd.DataFrame()`). */
  const EmptyTable: Table := Table({}, [])

  /** The index label of a record. */
  function IndexOf(r: Record): nat {
    r.index
  }

  /**
   * A frame as pandas builds it: no two records share an index label, and every
   * record carries a cell for each column and for nothing else. No operation
   * requires it. In a well-formed frame "the record carries the field" and "the
   * field is a column" agree (`CarriesColumns`), so the readings of a missing
   * key by `Filled` (a blank cell) and by the row loop (a missing column) never
   * meet. `dropna` keeps a frame well-formed (`DropBlankKeepsWellFormed`).
   */
  predicate WellFormed(t: Table) {
    && Seqs.DistinctBy(t.rows, IndexOf)
    && (forall i :: 0 <= i < |t.rows| ==> t.rows[i].cells.Keys == t.columns)
  }

  /** The record has a non-blank value for `field`; a field it does not carry counts as blank. */
  predicate Filled(r: Record, field: string) {
    field in r.cells && r.cells[field].Some?
  }

  /** Every required field of the record is non-blank. */
  predicate HasAll(r: Record, headers: seq<string>) {
    forall h :: h in headers ==> Filled(r, h)
  }

  function KeepsRow(headers: seq<string>): Record -> bool {
    r => HasAll(r, headers)
  }

  predicate HasColumns(t: Table, headers: seq<string>) {
    forall h :: h in headers ==> h in t.columns
  }

  /**
   * `t.dropna(subset=headers)`: the records whose required fields are all
   * non-blank, with their index labels; `None` for the KeyError pandas raises
   * when a required field is not a column.
   */
  function DropBlank(t: Table, headers: seq<string>): Option<Table> {
    if HasColumns(t, headers) then Some(Table(t.columns, Seqs.Filter(t.rows, KeepsRow(headers)))) else None
  }

  /**
   * The valid rows are exactly the loaded records whose required fields are all
   * non-blank, in their original order and with their index labels; the columns
   * stay as loaded, and only a missing column makes the filter fail.
   */
  lemma ValidRowsExact(t: Table, headers: seq<string>)
    ensures DropBlank(t, headers).Some? <==> HasColumns(t, headers)
    ensures DropBlank(t, headers).Some? ==>
      var v := DropBlank(t, headers).value;
      && v.columns == t.columns
      && Seqs.IsSubsequence(v.rows, t.rows)
      && (forall i :: 0 <= i < |v.rows| ==> HasAll(v.rows[i], headers))
      && (forall i :: 0 <= i < |t.rows| ==> (t.rows[i] in v.rows <==> HasAll(t.rows[i], headers)))
  {
    Seqs.FilterIsSubsequence(t.rows, KeepsRow(headers));
  }

  /** With required fields `name` and `time`, a row whose `time` is blank is dropped. */
  lemma SecondRowDropped()
    ensures
      var a := Record(0, map["name" := Some(Str("A")), "time" := Some(Str("2025-01-01")), "status" := None]);
      var b := Record(1, map["name" := Some(Str("B")), "time" := None, "status" := None]);
      var t := Table({"name", "time", "status"}, [a, b]);
      DropBlank(t, ["name", "time"]) == Some(Table(t.columns, [a]))
  {
    var a := Record(0, map["name" := Some(Str("A")), "time" := Some(Str("2025-01-01")), "status" := None]);
    var b := Record(1, map["name" := Some(Str("B")), "time" := None, "status" := None]);
    var keep := KeepsRow(["name", "time"]);
    assert keep(a);
    assert "time" in ["name", "time"] && !Filled(b, "time");
    assert !keep(b);
    assert [a, b][1..] == [b];
    assert [b][1..] == [];
    assert Seqs.Filter([a, b], keep) == [a];
  }

  /** In a well-formed frame a record carries exactly the frame's columns. */
  lemma CarriesColumns(t: Table, r: Record, field: string)
    requires WellFormed(t) && r in t.rows
    ensures field in r.cells <==> field in t.columns
  {
  }

  /** `dropna` keeps a frame well-formed: the surviving records still have distinct labels and all columns. */
  lemma DropBlankKeepsWellFormed(t: Table, headers: seq<string>)
    requires WellFormed(t) && HasColumns(t, headers)
    ensures WellFormed(DropBlank(t, headers).value)
  {
    Seqs.FilterKeepsDistinct(t.rows, KeepsRow(headers), IndexOf);
  }
}
