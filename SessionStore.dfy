/**
 * The process-wide session slot: the current table and the name it was
 * loaded under. Uploads and the startup load replace both together; the
 * read-only handlers see an empty slot as "No file uploaded".
 */
module SessionStore {
  import opened Wrappers
  import opened Text
  import opened Tables
  import opened Errors
  import opened Validation
  import opened Ingestion
  import SearchEngine
  import Pagination
  import Export

  /** The `data` part of a successful upload response. */
  datatype UploadInfo = UploadInfo(filename: string, rows: nat, columns: nat, columnNames: seq<string>)

  function InfoOf(filename: string, t: Table): UploadInfo
  {
    UploadInfo(filename, |t.rows|, |t.columns|, t.columns)
  }

  class Store {
    var df: Option<Table>
    var filename: Option<string>

    /** A table is loaded exactly when a file name is recorded. */
    ghost predicate Valid()
      reads this
    {
      df.Some? <==> filename.Some?
    }

    /** Process start: nothing is loaded. */
    constructor ()
      ensures Valid()
      ensures df == None && filename == None
    {
      df := None;
      filename := None;
    }

    /**
     * `upload_file`. `file` is the name of the uploaded file part (None when
     * the request has none); `secured` is what `secure_filename` makes of
     * that name; `read` is the outcome of each reader on the saved file.
     */
    method Upload(file: Option<string>, secured: string, read: Format -> Parsed) returns (r: Result<UploadInfo, Error>)
      requires Valid()
      modifies this
      ensures Valid()
      ensures (file.None? || file.value == "") ==> r == Err(NoFileSelected)
      ensures file.Some? && file.value != "" && !AllowedFile(file.value) ==> r == Err(InvalidFileType)
      ensures file.Some? && file.value != "" && AllowedFile(file.value) ==>
        match read(ReaderFor(secured))
        case Failed(reason) => r == Err(ReadFailed(reason))
        case Read(sheet) => r == Ok(InfoOf(secured, Normalize(sheet)))
      ensures r.Ok? ==> df == Some(Normalize(read(ReaderFor(secured)).sheet)) && filename == Some(secured)
      ensures r.Err? ==> df == old(df) && filename == old(filename)
    {
      if file.None? || file.value == "" {
        return Err(NoFileSelected);
      }
      if !AllowedFile(file.value) {
        return Err(InvalidFileType);
      }
      var parsed := read(ReaderFor(secured));
      if parsed.Failed? {
        return Err(ReadFailed(parsed.reason));
      }
      var t := Normalize(parsed.sheet);
      df := Some(t);
      filename := Some(secured);
      r := Ok(InfoOf(secured, t));
    }

    /**
     * `load_default_file`: try each candidate path in order; the first that
     * exists and reads becomes the state, under the bare default name, and
     * the result is true. When none does, the state is untouched.
     */
    method LoadDefaultFile(pathExists: string -> bool, readExcel: string -> Parsed) returns (loaded: bool)
      requires Valid()
      modifies this
      ensures Valid()
      ensures loaded == FirstLoadable(DefaultFilePaths, 0, pathExists, readExcel).Some?
      ensures loaded ==>
        var k := FirstLoadable(DefaultFilePaths, 0, pathExists, readExcel).value;
        df == Some(Normalize(readExcel(DefaultFilePaths[k]).sheet)) && filename == Some(DefaultFileName)
      ensures !loaded ==> df == old(df) && filename == old(filename)
    {
      var paths := DefaultFilePaths;
      for i := 0 to |paths|
        invariant FirstLoadable(paths, 0, pathExists, readExcel) == FirstLoadable(paths, i, pathExists, readExcel)
        invariant df == old(df) && filename == old(filename)
      {
        if pathExists(paths[i]) {
          var parsed := readExcel(paths[i]);
          if parsed.Read? {
            df := Some(Normalize(parsed.sheet));
            filename := Some(DefaultFileName);
            return true;
          }
        }
      }
      return false;
    }

    /** `search` against the current slot; it reads the state and changes nothing. */
    method Search(rawQuery: string, column: string) returns (r: Result<SearchEngine.SearchResponse, Error>)
      ensures r == SearchEngine.Search(df, rawQuery, column)
      ensures df.None? ==> r == Err(NoFileUploaded)
    {
      r := SearchEngine.Search(df, rawQuery, column);
    }

    /** `get_data` against the current slot; it reads the state and changes nothing. */
    method GetData(page: Option<int>, perPage: Option<int>) returns (r: Result<Pagination.PageResponse, Error>)
      requires df.Some? ==> Pagination.OrDefault(page, Pagination.DefaultPage) >= 1
      requires df.Some? ==> Pagination.OrDefault(perPage, Pagination.DefaultPerPage) >= 1
      ensures r == Pagination.GetData(df, filename, page, perPage)
      ensures df.None? ==> r == Err(NoFileUploaded)
    {
      r := Pagination.GetData(df, filename, page, perPage);
    }

    /** `export_results` against the current slot; it reads the state and changes nothing. */
    method ExportResults(results: seq<Record>) returns (r: Result<Export.ExportPlan, Error>)
      requires Valid()
      ensures r == Export.ExportResults(df, filename, results)
      ensures r.Ok? ==> filename.Some? && r.value.filename == Export.ExportPrefix + filename.value
    {
      r := Export.ExportResults(df, filename, results);
    }
  }

  /**
   * A session as the handlers see it: searching before any load is refused,
   * a successful upload is visible to the next search, and a failed upload
   * leaves the earlier table and name in place.
   */
  method SessionScenario(sheet: Sheet, reason: string)
  {
    var store := new Store();
    var before := store.Search("x", SearchEngine.AllColumns);
    assert before == Err(NoFileUploaded);

    var good := (f: Format) => Read(sheet);
    assert AllowedFile("a.csv") by {
      AfterLastIsUnique("a.csv", '.', 1);
      assert "a.csv"[2..] == "csv";
      assert Lower("csv") == "csv";
    }
    var up := store.Upload(Some("a.csv"), "a.csv", good);
    assert up.Ok? && store.df == Some(Normalize(sheet)) && store.filename == Some("a.csv");

    var bad := (f: Format) => Failed(reason);
    var again := store.Upload(Some("a.csv"), "a.csv", bad);
    assert again == Err(ReadFailed(reason));
    assert store.df == Some(Normalize(sheet)) && store.filename == Some("a.csv");

    var missing := store.Upload(None, "", good);
    assert missing == Err(NoFileSelected);
  }
}
