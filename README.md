# Excel search app: a Dafny model of its session, search, paging and export logic

The application keeps one spreadsheet in memory. A user uploads a `.csv`,
`.xlsx` or `.xls` file, or the server loads a default workbook at startup.
The user then searches the rows for a substring, across all columns or in
one, pages through the table, and exports a set of rows. This project models
the logic under the web handlers in `app.py`:

- **Session store** (`SessionStore.Store`): the process-wide slot of
  `current_df` and `current_filename`. `Upload` and `LoadDefaultFile` replace
  both fields together. `Valid()` states that a table is loaded exactly when
  a name is recorded. The read-only handlers (`Search`, `GetData`,
  `ExportResults`) have no `modifies` clause, so they cannot change the slot.
- **Ingestion** (`Tables`, `Ingestion`): a reader returns either a `Sheet`,
  whose cells may be `Missing`, or a failure. `Normalize` is
  `fillna('')` followed by `astype(str)`. The reader is chosen by a
  case-sensitive `.endswith('.csv')`. The startup load tries its candidate
  paths in order (`FirstLoadable`).
- **Extension check** (`Validation.AllowedFile`): the text after the last
  `.`, lower-cased, must be `xlsx`, `xls` or `csv`.
- **Search** (`SearchEngine`): the query is stripped, and an empty query is
  refused. An unknown column is refused too. Otherwise the result is the
  stable filter of rows where some cell (column `all`) or the named cell
  contains the query, ignoring case. `RowMatches` gives this meaning as a
  reference definition, and `SearchIsStableFilter` proves that the mask and
  the boolean indexing compute exactly it.
- **Paging** (`Pagination`): the clipped slice
  `[(page-1)*per_page, page*per_page)` and
  `total_pages = (n + per_page - 1) // per_page`. The model proves that this
  is the ceiling, gives the exact size of every page, and proves that the
  pages together list every row once, in order.
- **Export** (`Export`): the guards, the name `search_results_<filename>`,
  and the choice of CSV exactly when that name ends in `.csv`. That choice
  always agrees with the reader the same file name was uploaded with.

Tables are a subset type: rows are rectangular and column names are
distinct, as in a data frame built by the readers (they rename repeated
headers). The readers, `secure_filename`, the file system and the web layer
are parameters of the methods: `read: Format -> Parsed`,
`readExcel: string -> Parsed`, `pathExists: string -> bool`, and the
sanitised name `secured`.

`get_data` puts no upper bound on `per_page`. It also has no fallback for a
non-positive page or page size. The model keeps the first and excludes the
second by precondition.

## Model

| member | source | states |
|---|---|---|
| `Text.Strip` | app.py:123 | `str.strip()`: the result is the part of the query after its leading whitespace; everything cut off on either side is whitespace, and the result neither starts nor ends with whitespace |
| `Text.StripEmptyIff` | app.py:123-127 | a query is refused as empty exactly when all of its characters are whitespace |
| `Text.StripIdempotent` | app.py:123 | stripping the echoed query again changes nothing |
| `Text.IsSubstring` | app.py:134 | the literal reading of `str.contains`: true when the query is a prefix of the cell or of some suffix of it |
| `Text.IsSubstringIff` | app.py:134 | the computed containment test holds exactly when the query occurs at some position of the cell |
| `Text.EmptyContainsOnlyEmpty` | app.py:134 | the empty cell contains only the empty string |
| `Text.Lower` | app.py:49 | `.lower()` restricted to ASCII: same length, each character lower-cased on its own |
| `Text.ContainsIgnoreCase` | app.py:134 | `str.contains(query, case=False)` read literally: the lower-cased query occurs in the lower-cased cell |
| `Text.AfterLast` | app.py:49 | `rsplit('.', 1)[1]`: the suffix right after an occurrence of the separator that has no separator after it |
| `Text.AfterLastIsUnique` | app.py:49 | any position holding the last separator yields exactly that suffix |
| `Validation.AllowedFile` | app.py:48-49 | `allowed_file`: the name has a '.', and the text after its last '.', lower-cased, is one of xlsx, xls, csv (characterised by `AllowedFileIff`) |
| `Validation.AllowedFileIff` | app.py:48-49 | a name is accepted iff it has a last '.' and the text after it, lower-cased, is one of xlsx, xls, csv |
| `Validation.AcceptsUpperCaseLastExtension` | app.py:48-49 | "a.b.CSV" is accepted |
| `Validation.AcceptsBareExtension` | app.py:48-49 | ".csv" is accepted (empty stem) |
| `Validation.RejectsNameWithoutDot` | app.py:48-49 | "csv" is refused |
| `Validation.RejectsOtherExtensions` | app.py:48-49 | "a.txt" and "data.csv.txt" are refused |
| `Ingestion.ReaderFor` | app.py:85-88 | CSV reader iff the sanitised name ends in ".csv", case-sensitively; Excel otherwise |
| `Ingestion.UpperCaseCsvGoesToExcelReader` | app.py:78-88 | "X.CSV" passes the extension check, yet it goes to the Excel reader |
| `Ingestion.DefaultFilePaths` | app.py:22-28 | the startup candidates: the default workbook name, then the same name under uploads/ |
| `Ingestion.FirstLoadable` | app.py:25-43 | the first candidate path that exists and reads; every earlier candidate fails, and when the result is None every candidate fails |
| `Tables.Normalize` | app.py:91-92 | columns and row count are kept; a missing cell becomes "" and every other cell its text |
| `Tables.NormalizeLift` | app.py:35-36 | ingesting a table that is already all text returns it unchanged |
| `Tables.NormalizeIdempotent` | app.py:91-92 | a second normalisation pass changes nothing |
| `Tables.RecordOf` | app.py:149 | `to_dict('records')` for one row: the keys are exactly the column names, and each name maps to its own cell |
| `Tables.RecordsOf` | app.py:149 | one record per row, in order |
| `SearchEngine.AnyCellContains` | app.py:133-135 | `.any(axis=1)`: true iff some cell of the row contains the query, ignoring case |
| `SearchEngine.IndexOf` | app.py:138-140 | the position of the named column, which holds that name |
| `SearchEngine.Mask` | app.py:131-140 | the boolean mask: one entry per row; for "all" the row's `AnyCellContains`, otherwise whether the named column's cell contains the query |
| `SearchEngine.MaskMeansMatch` | app.py:131-140 | mask entry i is true iff row i matches by the reference definition, in both column modes |
| `SearchEngine.Select` | app.py:143 | `df[mask]`: never more entries than the input, and every entry is one of the input rows (order and exactness in `SelectAtTrueIndices`) |
| `SearchEngine.TrueIndices` | app.py:143 | the positions where the mask is true, strictly ascending: all of them and no others |
| `SearchEngine.SelectAtTrueIndices` | app.py:143 | `df[mask]` returns the rows at exactly those positions, in that order |
| `SearchEngine.TrueIndicesBound` | app.py:143 | filtering never yields more rows than the table has |
| `SearchEngine.FilterRecords` | app.py:143-149 | no more result records than table rows, and they are the records of exactly the matching rows, each once, in table order |
| `SearchEngine.Search` | app.py:119-157 | errors in order (no table, query empty after stripping, unknown column), and success iff none applies; a success echoes the stripped query and the column, and `total_results` is the number of results |
| `SearchEngine.MaskIsStableFilter` | app.py:131-149 | the mask followed by boolean indexing yields the records of exactly the matching rows, each once, in table order |
| `SearchEngine.SearchIsStableFilter` | app.py:131-157 | the results of a successful search are the records of exactly the matching rows, each once, in the table's order |
| `SearchEngine.EmptySlotIsNotEmptyTable` | app.py:119-120 | an empty slot is the "No file uploaded" error; a loaded table with no rows gives a successful empty result |
| `SearchEngine.BlankCellNeverMatches` | app.py:134 | a blank cell (a missing value after ingestion) never matches a non-empty query |
| `SearchEngine.StripExample` | app.py:123 | " anand " strips to "anand" |
| `SearchEngine.CityExample` | app.py:123-157 | City = Anand, ANANDNAGAR, Surat: " anand " on City returns rows 0 and 1 with total 2; the column "NoSuchColumn" is refused |
| `Pagination.TotalPages` | app.py:187 | `(n + per_page - 1) // per_page`, never negative (its meaning in `TotalPagesIsCeiling`) |
| `Pagination.TotalPagesIsCeiling` | app.py:187 | `total_pages` is the ceiling of n / per_page: at least n rows fit in that many pages and not in one fewer, and it is 0 iff n is 0 |
| `Pagination.Page` | app.py:174-178 | `iloc[start:end]` clipped to the row count: at most `per_page` rows and never more than the table has |
| `Pagination.PageShape` | app.py:174-178 | entry k of a page is row (page-1)*per_page + k; pages before the last are full, the last holds the remainder, and later pages are empty |
| `Pagination.PageNonEmptyIff` | app.py:174-187 | a page is non-empty iff its number is at most `total_pages` |
| `Pagination.PagesUpToIsPrefix` | app.py:174-178 | pages 1..k together are the first min(n, k*per_page) rows |
| `Pagination.PagesCoverRows` | app.py:174-187 | pages 1..total_pages together list every row once, in order |
| `Pagination.PageExample` | app.py:174-187 | 105 rows at 50 per page: 3 pages, page 3 holds the last 5 rows, page 4 is empty |
| `Pagination.PageRecords` | app.py:178-180 | the records of one page: the size `PageShape` gives, and entry k is the record of row (page-1)*per_page + k |
| `Pagination.OrDefault` | app.py:170-171 | the request's page or page size, or the default 1 or 50 when absent |
| `Pagination.GetData` | app.py:166-190 | "No file uploaded" iff the slot is empty; otherwise page and per_page default to 1 and 50 and the response carries that page's records, total_rows, total_pages, the columns and the file name |
| `Export.ExportResults` | app.py:196-216 | "No file uploaded" when no table is loaded, then "No results to export" for no records, success otherwise; the name is "search_results_" + the file name, CSV iff that name ends in ".csv", and the records are the caller's own |
| `Export.Rendered` | app.py:210 | the f-string rendering of the recorded file name ("None" for an empty slot name) |
| `Export.PrefixKeepsCsvEnding` | app.py:210-213 | the prefix cannot supply part of a ".csv" ending: the export name ends in ".csv" iff the file name does |
| `Export.ExportFormatMatchesReader` | app.py:210-216 | with a file loaded, the export codec is the one the same file name was read with on upload |
| `Export.DefaultFileExportsAsExcel` | app.py:210-216 | results of the startup workbook are exported as Excel |
| `Errors.Message` | app.py:72-203 | the text of each error response: "No file selected", "Invalid file type", "Error reading file: ...", "No file uploaded", "Search query cannot be empty", "Column \"...\" not found", "No results to export" |
| `SessionStore.Store.constructor` | app.py:12-13 | the slot starts empty: no table and no name |
| `SessionStore.Store.Upload` | app.py:67-113 | no part or empty name gives "No file selected"; a disallowed extension gives "Invalid file type"; a reader failure gives "Error reading file"; on every error the table and the name are unchanged; on success the table is the normalised sheet from the reader the sanitised name selects, and the name is the sanitised name |
| `SessionStore.Store.LoadDefaultFile` | app.py:18-46 | returns true iff some candidate path exists and reads; the first such path becomes the normalised table under the bare default name; otherwise the state is untouched |
| `SessionStore.Store.Search` | app.py:115-160 | the search over the current slot, with no state change |
| `SessionStore.Store.GetData` | app.py:162-190 | the page over the current slot, with no state change |
| `SessionStore.Store.ExportResults` | app.py:192-221 | the export over the current slot, with no state change; a successful export is named after the recorded file name |

## Left out

- HTTP and Flask: routing, request and JSON extraction, `jsonify`, `send_file`, status codes (every error response is 400) and `MAX_CONTENT_LENGTH`. The page view `index` is left out too: it renders the same file information as an upload through `render_template`.
- Missing request fields: when the query field is absent the handler uses "", and when the column field is absent it uses "all". The model takes both as strings the caller has already defaulted. A query that is not a string, or page parameters that `int()` cannot parse, raise outside the handler's error handling; this is not modelled.
- The codecs: `read_csv`, `read_excel`, `to_csv`, `to_excel`, `DataFrame(results)` and the text `astype(str)` gives a value. Parsing is an abstract `Parsed` outcome. Writing the export file, and the "Export error" it can raise, are left out; the model stops at the file name, the codec and the records.
- `secure_filename`, `file.save`, `os.path.exists`, `os.makedirs`, the port read from the environment, and the `print` logging. These are I/O or foreign calls, passed in as parameters or dropped.
- Store.LoadDefaultFile: normalisation is total in the model. In the source the Excel reader's frame is stored before `fillna`/`astype` run. If either of them raised, the loop would keep that raw frame in the table and go on to the next path. If no later path loaded, the result would be false with the table already replaced. This path is not modelled.
- Store.Upload: normalisation is total in the model. In the source the reader's frame is stored before `fillna`/`astype` run. If either of them raised, the table would be replaced while the name was not. This path is not modelled.
- Search: `str.contains` is a regular-expression search. The model is a literal substring test, so it agrees with the source only for queries without regex metacharacters. Case is ignored by ASCII lower-casing, so Unicode case folding is out. In the model no search raises, so the "Search error" path is not reachable.
- Column labels are strings in the model; pandas can produce numeric labels for some files.
- `page <= 0` and `per_page <= 0`: excluded by precondition. The source would compute negative `iloc` bounds, or divide by zero in `total_pages`.
- Concurrency on the unsynchronised globals. The model is sequential, so replacing both fields together is atomic in it.
