# Bulk WhatsApp number checker: verified model of the page logic

The page lets a user upload a spreadsheet of phone numbers. It keeps the first column of every
row after the header, if that cell is truthy and not blank after trimming. It validates each
number in turn through a lookup endpoint, showing a progress percentage as it goes. Then it
exports the annotated list as a sheet with the columns Number, Status and Error.

This project models that logic from `src/app/page.tsx` in Dafny:

- `JsString`: the JavaScript runtime pieces the extraction relies on. These are
  `String.prototype.trim`, with the ECMAScript WhiteSpace and LineTerminator sets, and the
  decimal `toString` of an integer.
- `Cells`: a parsed cell, which is missing, a string, an integer or a boolean. The module
  gives its JavaScript truthiness and its `toString`.
- `Records`: the `NumberValidation` record, and the abstract `Outcome` of one request. An
  outcome is either a thrown request (`Failure`) or a JSON body with optional `numberstatus`
  and `error` fields.
- `Extraction`: the `slice(1).filter(...).map(...)` chain of `handleFileUpload`.
- `Progress`: `Math.round((i + 1) / n * 100)` in exact arithmetic, and the sequence of values
  the progress takes during a run.
- `Validation`: what a run does to the list, as functions of the list and of the outcomes.
- `Export`: the row mapping of `downloadResults`, and the round trip back through extraction.
- `HomePage`: the component state as a class `Page` with methods for the three handlers.
  `validateNumbers` is a loop that updates a copied array in place. The state's list is an
  array reference, because `setValidations(newValidations)` makes the state and the working
  copy one and the same array.

Each request is replaced by an input: `outcomes[i]` is what the request for row `i` produced.
The methods that take outcomes require one outcome per row. This is a property of the
environment, not a demand of the code. `ValidateNumbers` also requires `Idle()` (no run going
on, progress 0). Every handler keeps this state between calls, and the page disables the
button while a run is going on (line 169).

## Model

| member | source | states |
|---|---|---|
| `JsString.LeadingWhiteSpace` | src/app/page.tsx:35 | the count of leading white space: that prefix is all white space, and the next character is not |
| `JsString.TrailingWhiteSpace` | src/app/page.tsx:35 | the count of trailing white space: that suffix is all white space, and the character before it is not |
| `JsString.Trim` | src/app/page.tsx:35 | `trim()`: the result is the contiguous middle of the string; everything outside it is white space; it neither starts nor ends with white space; it is empty iff the string is blank |
| `JsString.TrimOfTrimmed` | src/app/page.tsx:37 | a string without white space at either end is its own trim |
| `JsString.TrimIdempotent` | src/app/page.tsx:37 | trimming twice equals trimming once |
| `JsString.NatToDecimal` | src/app/page.tsx:37 | `toString` of a natural number: non-empty, digits only, a leading zero only for 0 (whose numeral is exactly "0"), and the digits read in base ten give back the number |
| `JsString.IntToDecimal` | src/app/page.tsx:37 | `toString` of an integer: a minus sign exactly for negatives, the digits after it read in base ten give back the absolute value, and there is no leading zero; 0 gives exactly "0" |
| `JsString.TrimIntToDecimal` | src/app/page.tsx:35-37 | an integer's numeral is non-empty and trimming leaves it unchanged |
| `Cells.NonStringCellTrims` | src/app/page.tsx:35-37 | a truthy number or boolean cell prints non-empty and without surrounding white space, so only string cells can fail the blank test |
| `Cells.Truthy` | src/app/page.tsx:35 | the falsy cells are exactly `undefined`, `""`, `0` and `false` |
| `Cells.CellString` | src/app/page.tsx:35-37 | `toString` of a cell: a string is itself; a number gives digits (with a minus sign for negatives) that denote its value, with no leading zero, and 0 gives exactly "0"; a boolean gives "true" or "false" |
| `Cells.TrimBlankCases` | src/app/page.tsx:35 | for a truthy cell, the trimmed string is empty exactly when the cell is a string of white space only |
| `Extraction.KeepRow` | src/app/page.tsx:35 | a row passes the filter iff it has a first cell that is a string not all white space, a non-zero number, or `true` |
| `Extraction.FilterRows` | src/app/page.tsx:35 | the filter (given its callback, `KeepRow` at this line) keeps no more rows than it is given, and every row it keeps passes the callback |
| `Extraction.ToNumberValidation` | src/app/page.tsx:36-38 | the mapped record has a non-empty number that is already trimmed, with status and error unset |
| `Extraction.ExtractNumbers` | src/app/page.tsx:33-38 | an empty sheet gives nothing; otherwise at most (rows − 1) entries; each number is non-empty and trimmed, with status and error unset |
| `Extraction.KeptIndicesExact` | src/app/page.tsx:35 | for any callback, the reference list of passing positions lies in range, increases, and holds a position iff its row passes the callback |
| `Extraction.FilterRowsAtIndices` | src/app/page.tsx:35 | for any callback, the filter returns exactly the rows at the passing positions, one for one and in the same order |
| `Extraction.ExtractNumbersSpec` | src/app/page.tsx:33-38 | entry k comes from the k-th passing row (position ≥ 1, so never the header), positions increase with k, and a body row is represented iff it passes the filter |
| `Extraction.HeaderIgnored` | src/app/page.tsx:34 | replacing the header row never changes the result |
| `Extraction.FalsyOrBlankFirstCellDropped` | src/app/page.tsx:35 | a first cell that is missing, the number 0 or a blank string drops the row |
| `Extraction.NumericFirstCellKept` | src/app/page.tsx:35-37 | a non-zero number in the first cell is kept, as its decimal numeral |
| `Extraction.FilterRowsAllKept` | src/app/page.tsx:35 | for any callback, when every row passes it the filter returns the rows unchanged |
| `Progress.Percent` | src/app/page.tsx:63 | the result is the integer nearest to 100·done/total, halves rounded up: (2p−1)·total ≤ 200·done < (2p+1)·total |
| `Progress.PercentUnique` | src/app/page.tsx:63 | that rounding has exactly one solution |
| `Progress.PercentMonotone` | src/app/page.tsx:63 | more rows done never gives a smaller percentage |
| `Progress.PercentAll` | src/app/page.tsx:63 | all rows done gives exactly 100 |
| `Progress.PercentAtMost100` | src/app/page.tsx:63 | the percentage stays within 0..100 |
| `Progress.ProgressAfter` | src/app/page.tsx:51-71 | the progress after any prefix of a run is at most 100 |
| `Progress.ProgressStep` | src/app/page.tsx:62-70 | a thrown row leaves the progress unchanged; a responded row i sets it to the rounded percentage of i + 1 rows done; this unfolds the definition and proves nothing beyond it |
| `Progress.ProgressAtMostPercent` | src/app/page.tsx:63-69 | after i rows the progress never exceeds the percentage of i rows done |
| `Progress.ProgressMonotone` | src/app/page.tsx:51-71 | the progress never decreases during a run |
| `Progress.ProgressComplete` | src/app/page.tsx:63 | if the last row gets a response, the run reaches exactly 100 before the reset |
| `Validation.ApplyOutcome` | src/app/page.tsx:56-69 | updating a row for its outcome never changes its number |
| `Validation.PartialRun` | src/app/page.tsx:49-71 | the working copy keeps the list's length at every step |
| `Validation.Validated` | src/app/page.tsx:49-71 | after the run the list has the same length and numbers; a thrown row has status false and error "Failed to validate"; a responded row has the response's `numberstatus` and `error`, each possibly absent |
| `Validation.PartialRunStart` | src/app/page.tsx:49 | before the first row the working copy equals the list; this unfolds the definition and proves nothing beyond it |
| `Validation.PartialRunStep` | src/app/page.tsx:56-69 | step i writes row i only, from row i's own outcome; earlier rows keep their results and later rows stay untouched; this unfolds the definition and proves nothing beyond it |
| `Validation.Published` | src/app/page.tsx:56-62 | the state's list after a run keeps length and numbers, and each row is either unchanged or updated by its own outcome; with some response, a thrown row has status false and "Failed to validate" and a responded row the response's fields; with none, every row keeps its previous status and error |
| `Validation.AllFailuresUnpublished` | src/app/page.tsx:62-69 | on a fresh upload where every request throws, the state keeps rows without status, although the loop recorded failures |
| `Validation.OneFailedRowUnpublished` | src/app/page.tsx:62-69 | concrete case: one number, one thrown request, and the state's row still has no status |
| `Export.ExportRecord` | src/app/page.tsx:80-82 | the record's Number is copied; Status is "Valid" iff the status is true, otherwise "Invalid"; Error is the error, or "" when absent or empty |
| `Export.ExportRows` | src/app/page.tsx:79-83 | one row per record, in order; Number is copied; Status is "Valid" iff the status is true, otherwise "Invalid"; Error is the error, or "" when absent or empty |
| `Export.ExportReimport` | src/app/page.tsx:79-83 | uploading the exported sheet again gives back the same numbers in order, with status and error unset |
| `Export.UploadRunExportRoundTrip` | src/app/page.tsx:33-83 | upload, run, download and upload again give back the first upload's numbers |
| `HomePage.Page.constructor` | src/app/page.tsx:14-17 | initial state: empty key, no records, idle with progress 0 |
| `HomePage.Page.SetApiKey` | src/app/page.tsx:116 | typing in the key input sets the state's key to the typed text and changes nothing else |
| `HomePage.Page.HandleFileUpload` | src/app/page.tsx:20-43 | with no file nothing changes; otherwise the state holds a fresh array equal to `ExtractNumbers` of the sheet |
| `HomePage.Page.RunRows` | src/app/page.tsx:51-71 | the in-place loop leaves the working copy equal to `Validated` of the list and the original array intact; the state points at the copy iff some response arrived; the progress after row k is `ProgressAfter(outcomes, k + 1)` |
| `HomePage.Page.ValidateNumbers` | src/app/page.tsx:45-75 | with an empty key or no records nothing changes; otherwise the state becomes `Published(old list, outcomes)`, the progress follows `ProgressAfter`, and the run ends idle with progress 0 |
| `HomePage.Page.ValidateNumbersAndPublish` | src/app/page.tsx:45-75 | the corrected run: same guard, progress and reset, and the state always holds `Validated(old list, outcomes)` |
| `HomePage.Page.DownloadResults` | src/app/page.tsx:77-84 | the rows written are `ExportRows` of the state's list |

## Left out

- `src/app/api/validate/route.ts` is not part of this model. It forwards the two query parameters to a third-party service. Its only logic is a missing-parameter guard.
- `src/app/layout.tsx` is not part of this model. It holds static metadata and markup.
- Rendering and JSX are not modelled. This covers the 100-row display slice (line 150), the condition that shows the download button (line 185) and the disabled button (line 169). The disabled button appears only as the `Idle()` precondition of `ValidateNumbers`.
- `FileReader` and spreadsheet parsing and writing (lines 24-30, 42, 78, 86-88) are a foreign library and file I/O. The model starts from the parsed first sheet, a sequence of rows of cells. `Export.ExportedSheet` stands for writing the rows and reading them back: every value returns as a string cell under a header row.
- Cells: numbers are integers and print in plain decimal. Non-integer numbers, the exponent form `toString` uses from 1e21 on, dates and `null` cells are not modelled.
- `fetch` and JSON decoding (lines 53-54) are network I/O. Each row's request is an `Outcome` input instead. `numberstatus` is a boolean or absent, and `error` is a string or absent. Other JSON values in those fields, which the export's truthiness tests would treat differently, are not modelled.
- `Progress.Percent`: computes exact round-half-up. It does not model the floating-point `Math.round(((i + 1) / n) * 100)`, which can differ when a quotient lands next to a half.
- Interleaving at the `await` points is not modelled: each handler runs to completion. So is the re-render timing of the table during a run. Failures after the last response become visible only because the state and the working copy are the same array, and that sharing is modelled.

## Findings

| source | as written | input that shows it | evidently intended | confidence | as-written member | corrected member |
|---|---|---|---|---|---|---|
| src/app/page.tsx:56-70 | the state's list is replaced only on a successful response (line 62). A run in which every request throws never hands the working copy to the state, so every "Failed to validate" written at lines 65-69 is lost and the rows keep no status | one uploaded number whose request throws | after every run the state holds the annotated list | not executed | `Validation.OneFailedRowUnpublished` | `HomePage.Page.ValidateNumbersAndPublish` |
