/**
 * The in-memory table. A reader hands over a `Sheet` whose cells may be
 * missing; ingestion turns it into a `Table` whose cells are all text. Both
 * are rectangular and have distinct column names, as a data frame has (the
 * readers rename repeated header names).
 */
module Tables {

  /** A cell as a reader produces it: missing (NaN), or the reader's text rendering of its value. */
  datatype Cell = Missing | Value(text: string)

  datatype Frame<C> = Frame(columns: seq<string>, rows: seq<seq<C>>)

  predicate Distinct(names: seq<string>)
  {
    forall i, j :: 0 <= i < j < |names| ==> names[i] != names[j]
  }

  /** Every row has one cell per column, and no column name repeats. */
  predicate WellShaped<C>(f: Frame<C>)
  {
    && (forall i :: 0 <= i < |f.rows| ==> |f.rows[i]| == |f.columns|)
    && Distinct(f.columns)
  }

  /** What a reader returns. */
  type Sheet = f: Frame<Cell> | WellShaped(f) witness Frame([], [])

  /** What the session store holds: every cell is text. */
  type Table = f: Frame<string> | WellShaped(f) witness Frame([], [])

  /** `fillna('')` followed by `astype(str)` on one cell. */
  function CellText(c: Cell): string
  {
    match c
    case Missing => ""
    case Value(text) => text
  }

  /**
   * `fillna('')` then `astype(str)` on a whole sheet: the same columns and
   * rows, a missing cell becomes the empty string and every other cell its
   * text.
   */
  function Normalize(s: Sheet): (t: Table)
    ensures t.columns == s.columns && |t.rows| == |s.rows|
    ensures forall i, j :: 0 <= i < |s.rows| && 0 <= j < |s.columns| ==>
      (s.rows[i][j].Missing? ==> t.rows[i][j] == "") &&
      (s.rows[i][j].Value? ==> t.rows[i][j] == s.rows[i][j].text)
  {
    Frame(s.columns, seq(|s.rows|, i requires 0 <= i < |s.rows| =>
      seq(|s.rows[i]|, j requires 0 <= j < |s.rows[i]| => CellText(s.rows[i][j]))))
  }

  /** A table read back by a reader that finds every cell present. */
  function Lift(t: Table): (s: Sheet)
    ensures s.columns == t.columns && |s.rows| == |t.rows|
    ensures forall i, j :: 0 <= i < |t.rows| && 0 <= j < |t.columns| ==> s.rows[i][j] == Value(t.rows[i][j])
  {
    Frame(t.columns, seq(|t.rows|, i requires 0 <= i < |t.rows| =>
      seq(|t.rows[i]|, j requires 0 <= j < |t.rows[i]| => Value(t.rows[i][j]))))
  }

  /** Ingesting a table that is already all text gives that table back. */
  lemma NormalizeLift(t: Table)
    ensures Normalize(Lift(t)) == t
  {
    var u := Normalize(Lift(t));
    assert |u.rows| == |t.rows|;
    forall i | 0 <= i < |t.rows| ensures u.rows[i] == t.rows[i] {
      assert |u.rows[i]| == |t.rows[i]|;
    }
  }

  /** Normalisation leaves nothing for a second pass to change. */
  lemma NormalizeIdempotent(s: Sheet)
    ensures Normalize(Lift(Normalize(s))) == Normalize(s)
  {
    NormalizeLift(Normalize(s));
  }

  /** One row as `to_dict('records')` renders it: column name to cell. */
  type Record = map<string, string>

  function ColumnSet(columns: seq<string>): set<string>
  {
    set c | c in columns
  }

  /** The record of one row; with distinct column names each name maps to its own cell. */
  function RecordOf(columns: seq<string>, row: seq<string>): (r: Record)
    requires |row| == |columns|
    ensures r.Keys == ColumnSet(columns)
    ensures Distinct(columns) ==> forall j :: 0 <= j < |columns| ==> r[columns[j]] == row[j]
  {
    if |columns| == 0 then map[]
    else
      var n := |columns| - 1;
      assert ColumnSet(columns) == ColumnSet(columns[..n]) + {columns[n]} by {
        assert columns == columns[..n] + [columns[n]];
      }
      RecordOf(columns[..n], row[..n])[columns[n] := row[n]]
  }

  /** The records of some rows of table `t`, in the order given. */
  function RecordsOf(t: Table, rows: seq<seq<string>>): (rs: seq<Record>)
    requires forall i :: 0 <= i < |rows| ==> |rows[i]| == |t.columns|
    ensures |rs| == |rows|
    ensures forall k :: 0 <= k < |rows| ==> rs[k] == RecordOf(t.columns, rows[k])
  {
    seq(|rows|, k requires 0 <= k < |rows| => RecordOf(t.columns, rows[k]))
  }
}
