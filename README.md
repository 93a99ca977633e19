# docu-learn: tap hit-testing, OCR text clean-up and the book library, in Dafny

This project models the two parts of the docu-learn reading app whose
behaviour can be stated precisely, and proves properties of the model.

* **OCR tap helpers** (`OcrHelpers`, in `ocrhelpers.dfy`).
  `IsPointInsideWordBox` is the even-odd ray-casting test. It decides
  whether a tap lies inside the corner points the text recogniser reports
  for a word. The model is a loop with the source's two indices `i` and `j`.
  It is proved equal to `IsInside`, which asks whether an odd number of edges
  toggle the flag. `RemoveUnwantedCharacters` deletes every `.` and `,` and
  then trims. The model is a loop proved equal to `Normalized`, which is
  "filter, then trim". Coordinates are exact reals.
* **Book library reads** (`BookService`, in `bookservice.dfy`).
  `GetBooks` walks the books directory and builds a `Book` for each folder
  that is a directory holding a regular `doc.pdf`. It attaches `cover.jpg`
  when that is a regular file, then applies the case-insensitive search.
  `GetBook` finds a book by id. The file system is a `FileSystem` snapshot:
  * the listing `readDirectoryAsync` returns, or `None` when that call is rejected;
  * what `getInfoAsync` reports for each path, or `Unreadable` when that call is rejected.
* `JsString` (`jsstring.dfy`) holds the JavaScript string built-ins the two
  parts use: `trim` (with the full ECMAScript whitespace set written out),
  `toLowerCase` and `includes`. `Options` (`options.dfy`) is the `Option` type.

The code has a fixed two-character blacklist and accepts a corner list of
any length, including the empty one; the model follows the code.

## Model

| member | source | states |
|---|---|---|
| `OcrHelpers.EdgeToggles` | docu-learn-app/utils/ocr-helper-functions.ts:19-22 | an edge toggles only if it straddles the tap's y, so the divisor `yj - yi` is never zero when the division is reached; a horizontal edge never toggles |
| `OcrHelpers.CrossingXOnEdgeLine` | docu-learn-app/utils/ocr-helper-functions.ts:20 | the intersection formula gives `xi` at height `yi` and `xj` at height `yj`, and the point it gives lies on the line through the edge's two corners |
| `OcrHelpers.Prev` | docu-learn-app/utils/ocr-helper-functions.ts:13 | `j` trails `i` by one and is the last corner when `i` is 0 |
| `OcrHelpers.Crossings` | docu-learn-app/utils/ocr-helper-functions.ts:12-23 | the number of toggling edges in a range is at most the number of edges in it |
| `OcrHelpers.IsInside` | docu-learn-app/utils/ocr-helper-functions.ts:10-25 | false when x or y is zero or the box is missing; false for an empty box; otherwise true exactly when an odd number of edges toggle |
| `OcrHelpers.IsPointInsideWordBox` | docu-learn-app/utils/ocr-helper-functions.ts:5-26 | the two-index loop that flips `inside` returns exactly `IsInside`, the parity of the crossings |
| `OcrHelpers.HorizontalEdgeNeverToggles` | docu-learn-app/utils/ocr-helper-functions.ts:19-22 | visiting a horizontal edge leaves the crossing count unchanged |
| `OcrHelpers.RotationKeepsCrossings` | docu-learn-app/utils/ocr-helper-functions.ts:12-23 | a corner list started at any other corner has the same number of toggling edges |
| `OcrHelpers.RotationInvariant` | docu-learn-app/utils/ocr-helper-functions.ts:13-17 | the answer does not depend on which corner the list starts at |
| `OcrHelpers.IntersectionWithinEdge` | docu-learn-app/utils/ocr-helper-functions.ts:20 | for a straddling edge, the computed intersection x lies between the edge's two x values |
| `OcrHelpers.StraddleParity` | docu-learn-app/utils/ocr-helper-functions.ts:13-23 | when exactly the straddling edges toggle, edges 1..k-1 toggle an odd number of times iff corners 0 and k-1 are on opposite sides of y |
| `OcrHelpers.LeftOfBox` | docu-learn-app/utils/ocr-helper-functions.ts:12-25 | a tap left of every corner crosses an even number of edges |
| `OcrHelpers.NoEdgeToggles` | docu-learn-app/utils/ocr-helper-functions.ts:19-22 | for a tap right of, above or below every corner, no edge toggles |
| `OcrHelpers.OutsideBoundingBox` | docu-learn-app/utils/ocr-helper-functions.ts:10-25 | a tap strictly outside the corners' bounding box, on any side, is never inside |
| `OcrHelpers.IsBlacklisted` | docu-learn-app/utils/ocr-helper-functions.ts:3 | the blacklist holds exactly `.` and `,`: a character is blacklisted iff it is one of these two |
| `OcrHelpers.WithoutBlacklisted` | docu-learn-app/utils/ocr-helper-functions.ts:29-36 | the copied characters contain no `.` or `,` and are no more than the input |
| `OcrHelpers.WithoutBlacklistedAppend` | docu-learn-app/utils/ocr-helper-functions.ts:31-36 | filtering distributes over concatenation, so kept characters stay in input order |
| `OcrHelpers.WithoutBlacklistedSingle` | docu-learn-app/utils/ocr-helper-functions.ts:32-35 | one character is kept exactly when it is not in the blacklist |
| `OcrHelpers.WithoutBlacklistedClean` | docu-learn-app/utils/ocr-helper-functions.ts:31-36 | input without blacklisted characters is copied unchanged |
| `OcrHelpers.Normalized` | docu-learn-app/utils/ocr-helper-functions.ts:28-38 | the result has no `.` or `,`, no whitespace at either end, and is a contiguous middle of the filtered input with only whitespace cut from each side |
| `OcrHelpers.RemoveUnwantedCharacters` | docu-learn-app/utils/ocr-helper-functions.ts:28-39 | the character loop followed by `trim` returns exactly `Normalized(text)` |
| `OcrHelpers.NormalizedIdempotent` | docu-learn-app/utils/ocr-helper-functions.ts:28-38 | cleaning twice gives the same result as cleaning once |
| `OcrHelpers.OnlyBlacklistedGivesEmpty` | docu-learn-app/utils/ocr-helper-functions.ts:28-38 | input made only of `.` and `,`, the empty input included, cleans to the empty string |
| `OcrHelpers.BlacklistedCharacterIgnored` | docu-learn-app/utils/ocr-helper-functions.ts:31-38 | inserting a `.` or `,` anywhere in the input does not change the result |
| `OcrHelpers.NormalizedFixedPoint` | docu-learn-app/utils/ocr-helper-functions.ts:28-38 | the result equals the input iff the input has no `.` or `,` and no whitespace at either end, so inner whitespace is never collapsed |
| `OcrHelpers.NormalizedExamples` | docu-learn-app/utils/ocr-helper-functions.ts:28-38 | `""` cleans to `""` and `"..."` cleans to `""` |
| `JsString.Trim` | docu-learn-app/utils/ocr-helper-functions.ts:38 | `trim` gives the contiguous middle of the string: only whitespace is removed before and after it, and it neither starts nor ends with whitespace |
| `JsString.TrimIdempotent` | docu-learn-app/utils/ocr-helper-functions.ts:38 | trimming a trimmed string changes nothing |
| `JsString.TrimOfTrimmed` | docu-learn-app/utils/ocr-helper-functions.ts:38 | a non-empty string with non-whitespace ends is its own trim |
| `JsString.ToLower` | services/book-service.ts:49-51 | `toLowerCase` keeps the length, maps each character on its own, and leaves no ASCII capital letter |
| `JsString.Includes` | services/book-service.ts:50-52 | `includes` is true exactly when the needle occurs at some index of the haystack |
| `BookService.BooksDirUnderDocuments` | services/book-service.ts:9 | the books directory is the documents directory followed by `Doculearn/` |
| `BookService.FolderUriInjective` | services/book-service.ts:23 | two folder names give the same folder path iff they are the same name |
| `BookService.ProbeUrisDistinct` | services/book-service.ts:23-38 | the folder, `doc.pdf` and `cover.jpg` paths probed for a folder are pairwise different, and the last two lie inside the folder path |
| `BookService.QualifyingPathsExist` | services/book-service.ts:24-31 | a folder qualifies only if both its directory path and its `doc.pdf` path are in the snapshot; an absent path reports `exists: false` and is skipped |
| `BookService.InspectFolder` | services/book-service.ts:23-44 | a folder is added exactly when it qualifies and its cover probe is not rejected; an added book has id = name = folder name, `pdfUri` = folder + `doc.pdf`, and a cover exactly when `cover.jpg` is a regular file; the folder fails exactly when one of its probes is rejected, and is skipped exactly when it does not qualify and no probe is rejected |
| `BookService.Collect` | services/book-service.ts:20-46 | the collection fails iff some folder's probe is rejected; otherwise it has at most one book per listed folder, and each book comes from a listed, qualifying folder and has the fields above |
| `BookService.CollectAppend` | services/book-service.ts:22-46 | collecting from a concatenated listing is collecting from each part in turn, so books follow listing order |
| `BookService.CollectComplete` | services/book-service.ts:26-44 | when nothing fails, every listed qualifying folder yields a book with its name |
| `BookService.FilterByName` | services/book-service.ts:50-52 | a book is kept iff it was in the input and its lowercased name contains the term; the result is no longer than the input |
| `BookService.FilterByNameAppend` | services/book-service.ts:50-52 | filtering distributes over concatenation, so it never reorders books |
| `BookService.BlankSearchIsWhitespace` | services/book-service.ts:48 | a search term is blank, so `searchTerm && searchTerm.trim()` is falsy, iff it is missing or made only of whitespace |
| `BookService.Search` | services/book-service.ts:48-55 | a missing or blank term returns every book unchanged; otherwise a book is kept iff its lowercased name contains the trimmed, lowercased term |
| `BookService.GetBooksResult` | services/book-service.ts:15-60 | a rejected listing or any rejected probe gives the empty list; every returned book comes from a listed folder and is well formed |
| `BookService.SearchResultQualifies` | services/book-service.ts:22-53 | a book in the search results comes from a qualifying folder, and its name matches the term unless the term is blank |
| `BookService.QualifyingFolderFound` | services/book-service.ts:22-53 | a listed qualifying folder whose name matches the term, or any such folder for a blank term, has a book in the results |
| `BookService.GetBooksResultContents` | services/book-service.ts:15-60 | when nothing fails, a listed folder has a book in `getBooks(searchTerm)` iff it qualifies and the term is blank or the lowercased folder name contains the trimmed, lowercased term |
| `BookService.GetBooks` | services/book-service.ts:15-60 | the folder loop with its early failure exits and the final search returns exactly `GetBooksResult` |
| `BookService.FindBook` | services/book-service.ts:64 | `find` returns nothing iff no book has the id; otherwise it returns the first book with that id |
| `BookService.GetBook` | services/book-service.ts:62-65 | `getBook` returns `find` over the unfiltered library, and any book it returns has the requested id |
| `BookService.GetBookFindsFolder` | services/book-service.ts:62-65 | when nothing fails, `getBook(id)` finds a book exactly when folder `id` is listed and qualifies, and that book is the one built from the folder |

## Left out

- IEEE-754 rounding in the intersection formula: coordinates are exact reals, so the model is an idealisation of the JavaScript arithmetic.
- `NaN` in the `!x || !y` guard: a real is never NaN. Only the zero case of the guard is modelled.
- `!wordBox` is modelled as a missing (`None`) corner list. The source's other falsy values for it are not modelled.
- Which side wins for a tap exactly on an edge or a corner is whatever the formula computes; there is no separate statement about it. General "strictly inside a simple polygon gives true" (the Jordan curve property) is not proved. The bounding-box result is proved for all four sides.
- JavaScript indexes strings by UTF-16 code unit, while here a string is a sequence of Unicode scalar values. The `.`/`,` filter and the whitespace set lie in the Basic Multilingual Plane, so the two views differ only for lone surrogates, which are not modelled.
- `JsString.ToLower`: models `toLowerCase` on ASCII letters only. Other Unicode case mappings are not modelled.
- `trim` uses the ECMAScript whitespace set as of Unicode 15, written out; no other Unicode normalisation is modelled.
- The asynchronous file-system calls are replaced by one snapshot, so the model assumes the directory does not change while `getBooks` runs.
- `ensureBooksDirectoryExists` (book-service.ts:11-13) and the rejection it can raise outside the `try` are not modelled: directory creation is a side effect.
- `pickAndAddBook` and `deleteBook` are not modelled. They are document-picker, copy, delete and modal-dialog side effects.
- `console.error` logging in the `catch` branch is not modelled.
- The word locator that picks the first recognised word on the current page containing the tap is not part of this model. The API server, translation services and React components are not part of this model either: they are network, UI or floating-point numerics behind a foreign library.
