/**
 * `export_results`: the guards and the choice of output name and codec. The
 * records come from the caller, not from the stored table.
 */
module Export {
  import opened Wrappers
  import opened Text
  import opened Tables
  import opened Errors
  import opened Ingestion

  const ExportPrefix: string := "search_results_"

  /** What is written: the file name, the codec, and the caller's records. */
  datatype ExportPlan = ExportPlan(filename: string, format: Format, records: seq<Record>)

  /** How an f-string renders the filename slot; `None` prints as "None". */
  function Rendered(filename: Option<string>): string
  {
    if filename.Some? then filename.value else "None"
  }

  /**
   * The export handler. It refuses when no table is loaded (whatever the
   * records), then when there are no records; otherwise it names the file
   * `search_results_<filename>` and writes CSV exactly when that name ends
   * in ".csv".
   */
  function ExportResults(df: Option<Table>, filename: Option<string>, results: seq<Record>): (r: Result<ExportPlan, Error>)
    ensures df.None? ==> r == Err(NoFileUploaded)
    ensures df.Some? && results == [] ==> r == Err(NoResultsToExport)
    ensures r.Ok? <==> df.Some? && results != []
    ensures r.Ok? ==>
      && r.value.filename == ExportPrefix + Rendered(filename)
      && (r.value.format == Csv <==> EndsWith(r.value.filename, ".csv"))
      && r.value.records == results
  {
    if df.None? then Err(NoFileUploaded)
    else if results == [] then Err(NoResultsToExport)
    else
      var name := ExportPrefix + Rendered(filename);
      Ok(ExportPlan(name, if EndsWith(name, ".csv") then Csv else Excel, results))
  }

  /** The prefix cannot supply part of a ".csv" ending: the name ends in ".csv" exactly when the filename does. */
  lemma PrefixKeepsCsvEnding(filename: string)
    ensures EndsWith(ExportPrefix + filename, ".csv") <==> EndsWith(filename, ".csv")
  {
    var name := ExportPrefix + filename;
    if |filename| >= 4 {
      assert name[|name| - 4..] == filename[|filename| - 4..];
    } else {
      assert name[|name| - 4 + (3 - |filename|)] == '_';
    }
  }

  /**
   * With a file loaded, the export is CSV exactly when the upload of that
   * file name was given to the CSV reader.
   */
  lemma ExportFormatMatchesReader(t: Table, filename: string, results: seq<Record>)
    requires results != []
    ensures ExportResults(Some(t), Some(filename), results).Ok?
    ensures ExportResults(Some(t), Some(filename), results).value.format == ReaderFor(filename)
  {
    PrefixKeepsCsvEnding(filename);
  }

  /** The startup file is an .xlsx, so its search results are exported as Excel. */
  lemma DefaultFileExportsAsExcel(t: Table, results: seq<Record>)
    requires results != []
    ensures ExportResults(Some(t), Some(DefaultFileName), results).value.format == Excel
  {
    ExportFormatMatchesReader(t, DefaultFileName, results);
    assert DefaultFileName[|DefaultFileName| - 4] == 'x';
  }
}
