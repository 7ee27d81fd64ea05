/**
 * `search`: strip the query, refuse an empty one, refuse an unknown column,
 * then keep, in their original order, the rows in which some cell (column
 * "all") or the named column's cell contains the query, ignoring case.
 */
module SearchEngine {
  import opened Wrappers
  import opened Text
  import opened Tables
  import opened Errors

  /** The column selector that means "search every column". */
  const AllColumns: string := "all"

  datatype SearchResponse = SearchResponse(results: seq<Record>, totalResults: nat, query: string, column: string)

  /**
   * Reference meaning of a match, independent of how the mask is computed:
   * for "all", some cell of the row contains the query; otherwise the cell
   * under the column of that name does.
   */
  ghost predicate RowMatches(columns: seq<string>, row: seq<string>, query: string, column: string)
  {
    if column == AllColumns then exists j :: 0 <= j < |row| && ContainsIgnoreCase(row[j], query)
    else exists j :: 0 <= j < |columns| && j < |row| && columns[j] == column && ContainsIgnoreCase(row[j], query)
  }

  /** `.any(axis=1)` over one row of per-cell `str.contains` results. */
  function AnyCellContains(row: seq<string>, query: string): (b: bool)
    ensures b <==> exists j :: 0 <= j < |row| && ContainsIgnoreCase(row[j], query)
  {
    if |row| == 0 then false
    else if ContainsIgnoreCase(row[0], query) then true
    else
      var b := AnyCellContains(row[1..], query);
      assert forall j :: 1 <= j < |row| ==> row[j] == row[1..][j - 1];
      b
  }

  /** The position of a column name in the header. */
  function IndexOf(columns: seq<string>, column: string): (j: nat)
    requires column in columns
    ensures j < |columns| && columns[j] == column
    ensures column !in columns[..j]
  {
    if columns[0] == column then 0
    else
      assert columns[1..][..IndexOf(columns[1..], column)] == columns[1..IndexOf(columns[1..], column) + 1];
      1 + IndexOf(columns[1..], column)
  }

  /** The boolean mask of the search: one entry per row. */
  function Mask(t: Table, query: string, column: string): (m: seq<bool>)
    requires column == AllColumns || column in t.columns
    ensures |m| == |t.rows|
  {
    if column == AllColumns then
      seq(|t.rows|, i requires 0 <= i < |t.rows| => AnyCellContains(t.rows[i], query))
    else
      var j := IndexOf(t.columns, column);
      seq(|t.rows|, i requires 0 <= i < |t.rows| => ContainsIgnoreCase(t.rows[i][j], query))
  }

  /** Each mask entry says whether its row matches. */
  lemma MaskMeansMatch(t: Table, query: string, column: string, i: int)
    requires column == AllColumns || column in t.columns
    requires 0 <= i < |t.rows|
    ensures Mask(t, query, column)[i] <==> RowMatches(t.columns, t.rows[i], query, column)
  {
  }

  /** Boolean indexing `df[mask]`: the entries whose mask is true, in order. */
  function Select<T>(xs: seq<T>, mask: seq<bool>): (r: seq<T>)
    requires |mask| == |xs|
    ensures |r| <= |xs|
    ensures forall k :: 0 <= k < |r| ==> r[k] in xs
  {
    if |xs| == 0 then []
    else
      var n := |xs| - 1;
      Select(xs[..n], mask[..n]) + (if mask[n] then [xs[n]] else [])
  }

  /** The positions where the mask is true, ascending; they are all such positions and no others. */
  function TrueIndices(mask: seq<bool>): (idx: seq<nat>)
    ensures forall k :: 0 <= k < |idx| ==> idx[k] < |mask| && mask[idx[k]]
    ensures forall k, l :: 0 <= k < l < |idx| ==> idx[k] < idx[l]
    ensures forall i :: 0 <= i < |mask| && mask[i] ==> i in idx
  {
    if |mask| == 0 then []
    else
      var n := |mask| - 1;
      var idx := TrueIndices(mask[..n]);
      idx + (if mask[n] then [n] else [])
  }

  /** `Select` takes exactly the entries at `TrueIndices`, in that order. */
  lemma {:induction false} SelectAtTrueIndices<T>(xs: seq<T>, mask: seq<bool>)
    requires |mask| == |xs|
    ensures |Select(xs, mask)| == |TrueIndices(mask)|
    ensures forall k :: 0 <= k < |Select(xs, mask)| ==> Select(xs, mask)[k] == xs[TrueIndices(mask)[k]]
  {
    if |xs| > 0 {
      var n := |xs| - 1;
      SelectAtTrueIndices(xs[..n], mask[..n]);
    }
  }

  /** `rs` lists the records of rows `idx` of `t`, the positions ascending, and `idx` is every row that matches. */
  ghost predicate IsStableFilter(rs: seq<Record>, idx: seq<nat>, t: Table, query: string, column: string)
  {
    && |idx| == |rs|
    && (forall k, l :: 0 <= k < l < |idx| ==> idx[k] < idx[l])
    && (forall k :: 0 <= k < |idx| ==> idx[k] < |t.rows| && rs[k] == RecordOf(t.columns, t.rows[idx[k]]))
    && (forall i :: 0 <= i < |t.rows| ==> (i in idx <==> RowMatches(t.columns, t.rows[i], query, column)))
  }

  /** The records of the rows the mask keeps: the records of exactly the matching rows, in table order. */
  function FilterRecords(t: Table, query: string, column: string): (rs: seq<Record>)
    requires column == AllColumns || column in t.columns
    ensures |rs| <= |t.rows|
    ensures IsStableFilter(rs, TrueIndices(Mask(t, query, column)), t, query, column)
  {
    var m := Mask(t, query, column);
    var kept := Select(t.rows, m);
    SelectAtTrueIndices(t.rows, m);
    TrueIndicesBound(m);
    MaskIsStableFilter(t, query, column);
    RecordsOf(t, kept)
  }

  /** The mask followed by boolean indexing keeps the records of exactly the matching rows, in order. */
  lemma MaskIsStableFilter(t: Table, query: string, column: string)
    requires column == AllColumns || column in t.columns
    ensures |Select(t.rows, Mask(t, query, column))| <= |t.rows|
    ensures IsStableFilter(RecordsOf(t, Select(t.rows, Mask(t, query, column))), TrueIndices(Mask(t, query, column)), t, query, column)
  {
    var m := Mask(t, query, column);
    var idx := TrueIndices(m);
    SelectAtTrueIndices(t.rows, m);
    TrueIndicesBound(m);
    var rs := RecordsOf(t, Select(t.rows, m));
    forall i | 0 <= i < |t.rows| ensures i in idx <==> RowMatches(t.columns, t.rows[i], query, column) {
      MaskMeansMatch(t, query, column, i);
    }
    assert IsStableFilter(rs, idx, t, query, column);
  }

  lemma {:induction false} TrueIndicesBound(mask: seq<bool>)
    ensures |TrueIndices(mask)| <= |mask|
  {
    if |mask| > 0 {
      TrueIndicesBound(mask[..|mask| - 1]);
    }
  }

  /**
   * The search handler over the session slot `df`. Errors, in the order the
   * handler tests them: no table, empty query after stripping, unknown column.
   */
  function Search(df: Option<Table>, rawQuery: string, column: string): (r: Result<SearchResponse, Error>)
    ensures df.None? ==> r == Err(NoFileUploaded)
    ensures df.Some? && Strip(rawQuery) == [] ==> r == Err(EmptyQuery)
    ensures df.Some? && Strip(rawQuery) != [] && column != AllColumns && column !in df.value.columns ==>
      r == Err(ColumnNotFound(column))
    ensures r.Ok? <==> df.Some? && Strip(rawQuery) != [] && (column == AllColumns || column in df.value.columns)
    ensures r.Ok? ==>
      && r.value.query == Strip(rawQuery)
      && r.value.column == column
      && r.value.totalResults == |r.value.results|
      && |r.value.results| <= |df.value.rows|
  {
    match df
    case None => Err(NoFileUploaded)
    case Some(t) =>
      var query := Strip(rawQuery);
      if query == [] then Err(EmptyQuery)
      else if column != AllColumns && column !in t.columns then Err(ColumnNotFound(column))
      else
        var results := FilterRecords(t, query, column);
        Ok(SearchResponse(results, |results|, query, column))
  }

  /**
   * A successful search returns the records of exactly the matching rows,
   * each once, in the table's order.
   */
  lemma SearchIsStableFilter(t: Table, rawQuery: string, column: string)
    requires Search(Some(t), rawQuery, column).Ok?
    ensures exists idx :: IsStableFilter(Search(Some(t), rawQuery, column).value.results, idx, t, Strip(rawQuery), column)
  {
    var query := Strip(rawQuery);
    var results := FilterRecords(t, query, column);
    assert Search(Some(t), rawQuery, column).value.results == results;
    assert IsStableFilter(results, TrueIndices(Mask(t, query, column)), t, query, column);
  }

  /** An empty slot is an error; a loaded table without rows is a search with no results. */
  lemma EmptySlotIsNotEmptyTable(rawQuery: string, column: string)
    requires Strip(rawQuery) != []
    ensures Search(None, rawQuery, column) == Err(NoFileUploaded)
    ensures Search(Some(Frame([], [])), rawQuery, AllColumns) == Ok(SearchResponse([], 0, Strip(rawQuery), AllColumns))
  {
    var t: Table := Frame([], []);
    var m := Mask(t, Strip(rawQuery), AllColumns);
    assert |Select(t.rows, m)| == 0;
    assert FilterRecords(t, Strip(rawQuery), AllColumns) == [];
  }

  /** A missing cell, stored as "", never matches: the query is never empty. */
  lemma BlankCellNeverMatches(query: string)
    requires query != []
    ensures !ContainsIgnoreCase("", query)
  {
  }

  lemma StripExample()
    ensures Strip(" anand ") == "anand"
  {
    var s := " anand ";
    assert IsSpace(s[0]) && s[1..] == "anand ";
    assert !IsSpace("anand "[0]);
    assert TrimStart("anand ") == "anand ";
    assert TrimStart(s) == "anand ";
    assert IsSpace("anand "[5]) && "anand "[..5] == "anand";
    assert !IsSpace("anand"[4]);
    assert TrimEnd("anand") == "anand";
  }

  lemma CityMatches()
    ensures ContainsIgnoreCase("Anand", "anand")
    ensures ContainsIgnoreCase("ANANDNAGAR", "anand")
    ensures !ContainsIgnoreCase("Surat", "anand")
  {
    assert Lower("anand") == "anand";
    assert Lower("Anand") == "anand";
    assert Lower("ANANDNAGAR") == "anandnagar";
    assert Lower("Surat") == "surat";
    assert IsPrefix("anand", "anand");
    assert "anandnagar"[..5] == "anand";
    assert IsPrefix("anand", "anandnagar");
    assert "surat"[..5][0] != "anand"[0];
  }

  lemma CityRowsKept(t: Table)
    requires t == Frame(["City"], [["Anand"], ["ANANDNAGAR"], ["Surat"]])
    ensures Select(t.rows, Mask(t, "anand", "City")) == [["Anand"], ["ANANDNAGAR"]]
  {
    CityMatches();
    var m := Mask(t, "anand", "City");
    assert IndexOf(t.columns, "City") == 0;
    assert m == [true, true, false];
    assert t.rows[..2] == [["Anand"], ["ANANDNAGAR"]];
    assert t.rows[..2][..1] == [["Anand"]];
    assert m[..2] == [true, true];
    assert m[..2][..1] == [true];
    assert Select(t.rows[..2][..1], m[..2][..1]) == [["Anand"]];
    assert Select(t.rows[..2], m[..2]) == [["Anand"], ["ANANDNAGAR"]];
  }

  lemma CitySelect(t: Table)
    requires t == Frame(["City"], [["Anand"], ["ANANDNAGAR"], ["Surat"]])
    ensures FilterRecords(t, "anand", "City") == [map["City" := "Anand"], map["City" := "ANANDNAGAR"]]
  {
    CityRowsKept(t);
    var kept := Select(t.rows, Mask(t, "anand", "City"));
    assert RecordOf(["City"], ["Anand"]) == map["City" := "Anand"];
    assert RecordOf(["City"], ["ANANDNAGAR"]) == map["City" := "ANANDNAGAR"];
    assert RecordsOf(t, kept) == [map["City" := "Anand"], map["City" := "ANANDNAGAR"]];
  }

  /**
   * Column City holding "Anand", "ANANDNAGAR", "Surat": the query " anand "
   * on City keeps the first two rows, and a column the table lacks is refused.
   */
  lemma CityExample(t: Table)
    requires t == Frame(["City"], [["Anand"], ["ANANDNAGAR"], ["Surat"]])
    ensures Search(Some(t), " anand ", "City") ==
      Ok(SearchResponse([map["City" := "Anand"], map["City" := "ANANDNAGAR"]], 2, "anand", "City"))
    ensures Search(Some(t), "anand", "NoSuchColumn") == Err(ColumnNotFound("NoSuchColumn"))
  {
    StripExample();
    CitySelect(t);
    assert Strip("anand") != [] by {
      assert "anand"[0] == 'a';
    }
  }
}
