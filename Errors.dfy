/**
 * The error responses of the web handlers. Every one of them is answered
 * with HTTP status 400 and a JSON body `{"error": Message(e)}`.
 */
module Errors {

  datatype Error =
    | NoFileSelected                 // the upload carries no file part, or its name is empty
    | InvalidFileType                // the extension is not one of xlsx, xls, csv
    | ReadFailed(reason: string)     // the CSV or Excel reader raised
    | NoFileUploaded                 // the session slot is empty
    | EmptyQuery                     // the search query is empty after stripping
    | ColumnNotFound(column: string) // the search names a column the table lacks
    | NoResultsToExport              // the export request carries no records

  /** The text of the `error` field. */
  function Message(e: Error): string
  {
    match e
    case NoFileSelected => "No file selected"
    case InvalidFileType => "Invalid file type"
    case ReadFailed(reason) => "Error reading file: " + reason
    case NoFileUploaded => "No file uploaded"
    case EmptyQuery => "Search query cannot be empty"
    case ColumnNotFound(column) => "Column \"" + column + "\" not found"
    case NoResultsToExport => "No results to export"
  }
}
