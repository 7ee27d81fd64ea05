/**
 * Reading a file into a sheet: which reader is used, what a reader may
 * return, and the candidate locations of the startup file.
 */
module Ingestion {
  import opened Wrappers
  import opened Text
  import opened Tables
  import opened Validation

  /** The two codecs: `read_csv`/`to_csv` and `read_excel`/`to_excel`. */
  datatype Format = Csv | Excel

  /** A reader either returns a sheet or raises with a message. */
  datatype Parsed = Read(sheet: Sheet) | Failed(reason: string)

  /** An upload is read as CSV only when its (sanitised) name ends in ".csv", case-sensitively. */
  function ReaderFor(filename: string): (f: Format)
    ensures f == Csv <==> |filename| >= 4 && filename[|filename| - 4..] == ".csv"
  {
    if EndsWith(filename, ".csv") then Csv else Excel
  }

  /** "X.CSV" passes the extension check, yet it is handed to the Excel reader. */
  lemma UpperCaseCsvGoesToExcelReader()
    ensures AllowedFile("X.CSV") && ReaderFor("X.CSV") == Excel
  {
    AfterLastIsUnique("X.CSV", '.', 1);
    assert "X.CSV"[2..] == "CSV";
    assert Lower("CSV") == "csv";
    assert "X.CSV"[1..] != ".csv";
  }

  const DefaultFileName: string := "nadiad_All_part_merged-filterd.xlsx"

  /** The startup file is looked for in the working directory, then under uploads/. */
  const DefaultFilePaths: seq<string> := [DefaultFileName, "uploads/" + DefaultFileName]

  /** The path exists and the Excel reader returns a sheet for it. */
  predicate Loadable(path: string, pathExists: string -> bool, readExcel: string -> Parsed)
  {
    pathExists(path) && readExcel(path).Read?
  }

  /**
   * The first candidate, from position `from` on, that exists and reads:
   * every candidate before it fails, and if there is none, every candidate fails.
   */
  function FirstLoadable(paths: seq<string>, from: nat, pathExists: string -> bool, readExcel: string -> Parsed): (k: Option<nat>)
    requires from <= |paths|
    ensures k.Some? ==> from <= k.value < |paths| && Loadable(paths[k.value], pathExists, readExcel)
    ensures forall j :: from <= j < |paths| && (k.None? || j < k.value) ==> !Loadable(paths[j], pathExists, readExcel)
    decreases |paths| - from
  {
    if from == |paths| then None
    else if Loadable(paths[from], pathExists, readExcel) then Some(from)
    else FirstLoadable(paths, from + 1, pathExists, readExcel)
  }
}
