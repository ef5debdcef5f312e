# Bank-statement PDF to sheet: the statement-row pipeline

This project models the core of `backend/server.js`: the Express server that
receives a bank-statement PDF, reads its text, and turns the statement lines
it finds into a spreadsheet.

The pipeline has three stages.

1. **Text acquisition** (`extractTextFromPDF`). The server takes the PDF's
   native text layer. When that text is blank after `trim()`, it renders every
   page to an image and runs OCR on the pages in order. Each page's text is
   appended followed by `"\n"`, and each image is deleted after it has been
   recognised. An OCR error ends the loop with "OCR processing failed.".
2. **Row extraction** (`extractTableData`). The server runs the global
   pattern
   `(\d{2}-[A-Za-z]{3}-\d{4})\s+([TC])\s+(.+?)\s+([\d,]+\.\d{2})?\s+([\d,]+\.\d{2}Dr)?`
   through `matchAll`. Each match gives one row of its five capture groups.
3. **Result decision** (the `/upload` handler). No rows is the error "No
   matching data found in the PDF.". Otherwise the server writes a sheet
   holding the header `Date, Type, Description, Amount, Dr Amount` and then the
   rows, deletes the upload, and answers with the rows.

## How the model is built

The model follows the program's structure.

- `JsChars` holds the character classes the pattern and `trim()` use: the
  ECMAScript `\s` set, the line terminators that `.` does not match, ASCII
  digits and letters. It also holds `trim()` itself.
- `RowPattern` is the pattern.
  - `WellShaped(text, m)` is the pattern's language: a choice of positions
    that splits a piece of the text into the five groups, with the white
    space between them.
  - `MatchAt(text, p)` is what a backtracking engine returns when it tries the
    pattern at `p`. It follows the engine's priority order: greedy
    quantifiers longest first, the lazy description shortest first, and an
    optional group tried before it is skipped.
  - `MatchAt` is proved sound (what it finds is well shaped). `MatchAtComplete`
    proves it complete and states its priority: wherever the pattern fits,
    the engine finds a match there with the same type letter. Its
    description starts no earlier and, when it starts at the same place,
    ends no later. With the same description, it takes the amount group
    when the fitting split does, and the same Dr amount when the fitting
    split has one; with the same amount choice as well, its Dr group starts
    no earlier.
  - `Groups` is `match.slice(1)`. An optional group that takes no part is
    `None`, for JavaScript's `undefined`.
- `TableExtraction` models `matchAll`. `Scan` tries the engine at each
  position in turn. After a match, the search resumes where that match
  ended. `Scan` is generic in the engine it is given, and `Matches` applies
  it to `MatchAt`. `ExtractTableData` maps `Groups` over the matches.
- `Effects` models what the handler does to the outside world, as a log:
  rendering, recognising, deleting and writing the sheet.
- `TextAcquisition` holds the text-acquisition stage.
  - pdf-parse (together with the file read), pdf2pic and Tesseract are
    function fields of a `Libraries` value. The model sees only their
    results.
  - `Acquisition` is the closed-form specification of the stage.
    `ExtractTextFromPdf` is the step-by-step method with the OCR loop, and it
    is proved equal to `Acquisition`.
- `Upload` holds the `/upload` handler: the empty-table check, the sheet
  grid, the sheet path and the final deletion. `HandleUpload` is the method
  and `UploadOutcome` its specification. A failure is answered with
  `ErrorMessage` of it.
- `GroceryLine` works through the line
  `01-Jan-2023 T Grocery Purchase 1,234.56 100.00Dr` and proves the single
  row the pattern reads from it.

Some behaviours of the code that the model keeps as they are:

- the JSON `data` of a successful upload is the rows without the header;
- a page image is deleted only after its OCR call succeeds, so the image of
  a failing page is kept;
- the handler deletes the uploaded PDF only on the success path, after the
  sheet is written; on failure it deletes nothing itself, so the upload is
  kept unless its own path was among the page images handed to the
  recogniser (the real file names, `pdf_page` images beside a name multer
  chooses, rule that out, but the libraries here are abstract);
- every page's OCR text is followed by `"\n"`, the last one included (a
  terminator, not a separator);
- all pages are rendered before the first is recognised;
- the error answer carries the error's own message (for example "OCR
  processing failed."), with "Error processing the PDF."
  used only when the message is empty.

## Model

| member | source | states |
|---|---|---|
| JsChars.IsSpace | backend/server.js:19 | the `\s` class of ECMAScript: its WhiteSpace and LineTerminator code points (a definition; `trim()` strips the same set) |
| JsChars.IsLineTerminator | backend/server.js:19 | the characters `.` does not match, the ECMAScript LineTerminator set; each of them is also matched by `\s` |
| JsChars.Trim | backend/server.js:41 | `trim()`: the result is the slice of `s` left once the leading and the trailing white space are removed; everything before and after it is white space, and the result neither starts nor ends with white space when it is not empty |
| JsChars.TrimStripsSpace | backend/server.js:41 | trimming the start and then the end leaves a slice of `s` with only white space before and after it |
| JsChars.TrimStart | backend/server.js:41 | `trimStart` removes exactly the leading white space: the removed prefix is all white space, and what is left is a suffix that is empty or starts with a non-space character |
| JsChars.TrimEnd | backend/server.js:41 | removes exactly the trailing white space: the removed suffix is all white space, and what is left is a prefix that is empty or ends with a non-space character |
| JsChars.TrimEmptyIffAllSpace | backend/server.js:41 | `!s.trim()` holds exactly when every character of `s` is white space |
| RowPattern.WellShaped | backend/server.js:19 | the pattern's language: the positions of a match split the text into a date, white space, `T` or `C`, white space, a description without line terminators, white space, an optional amount, white space and an optional Dr amount (a definition, against which `MatchAt` is proved sound and complete) |
| RowPattern.SpaceRun | backend/server.js:19 | a greedy `\s+`/`\s*` takes a run that is all white space and cannot be extended |
| RowPattern.DigitCommaRun | backend/server.js:19 | a greedy `[\d,]+` takes a run of digits and commas that cannot be extended |
| RowPattern.SpaceRunIs | backend/server.js:19 | any run of white space that cannot be extended is the one the greedy `\s+` takes |
| RowPattern.DigitCommaRunIs | backend/server.js:19 | any run of digits and commas that cannot be extended is the one the greedy `[\d,]+` takes |
| RowPattern.AmountAt | backend/server.js:19 | what it finds at k is an amount group `[\d,]+\.\d{2}` starting at k |
| RowPattern.AmountAtComplete | backend/server.js:19 | any amount starting at k is the one found: the group can match only one way |
| RowPattern.DrAmountAt | backend/server.js:19 | what it finds at k is a Dr amount group `[\d,]+\.\d{2}Dr` starting at k |
| RowPattern.DrAmountAtComplete | backend/server.js:19 | any Dr amount starting at k is the one found |
| RowPattern.DrEnd | backend/server.js:19 | the optional Dr group either takes no part or spans a Dr amount |
| RowPattern.DrEndGreedy | backend/server.js:19 | the optional Dr group takes part wherever a Dr amount is present |
| RowPattern.TailAt | backend/server.js:19 | what the engine finds for `\s+(amount)?\s+(Dr amount)?` at q splits the text after q as that part of the pattern says |
| RowPattern.TailAtComplete | backend/server.js:19 | wherever that part of the pattern fits at q, the engine finds it; when a split with an amount fits, the engine's split has an amount too (the optional group is greedy); when a split with a Dr amount fits, the engine's split has the same Dr amount and takes the amount group exactly when that split does (the second `\s+` is greedy); and with the same choice about the amount group, the engine's Dr group starts no earlier than the fitting one |
| RowPattern.TailDrFromBound | backend/server.js:19 | with the same choice about the amount group, the engine's Dr group starts no earlier than a fitting one (the `\s+` before it is greedy) |
| RowPattern.DrFromAfterAmount | backend/server.js:19 | the same, when both take the amount group |
| RowPattern.DrFromWithoutAmount | backend/server.js:19 | the same, when neither takes the amount group |
| RowPattern.TailWithoutDr | backend/server.js:19 | the engine finds a tail wherever one fits, with an amount when the fitting one has one |
| RowPattern.TailDrAfterAmount | backend/server.js:19 | a fitting tail with both an amount and a Dr amount is exactly the engine's tail |
| RowPattern.TailDrWithoutAmount | backend/server.js:19 | a fitting tail with a Dr amount but no amount gives the engine's tail: no amount, then the same Dr amount |
| RowPattern.TailAtTakesDr | backend/server.js:19 | when a Dr amount follows where the engine's tail puts it, the match ends after that Dr amount |
| RowPattern.LazyEnd | backend/server.js:19 | the lazy `(.+?)` ends at the first end from which the rest of the pattern matches: that end fits, no earlier end fits, and no line terminator is crossed |
| RowPattern.LazyEndComplete | backend/server.js:19 | when some end e fits, the lazy search finds an end no later than e |
| RowPattern.SpacedDescription | backend/server.js:19 | the `\s+(.+?)` after the type letter gives a description after white space, free of line terminators, after which the rest of the pattern fits |
| RowPattern.SpacedDescriptionComplete | backend/server.js:19 | when a description from ds to e fits, the engine's description starts no earlier than ds and, starting at ds, ends no later than e |
| RowPattern.DescriptionFound | backend/server.js:19 | the same completeness, stated after the type letter |
| RowPattern.TypeAt | backend/server.js:19 | a found type letter follows a date and white space, and is `T` or `C` |
| RowPattern.MatchTyped | backend/server.js:19 | the match built after the type letter starts at p and keeps the type letter's position |
| RowPattern.MatchTypedShaped | backend/server.js:19 | the match built after the type letter is well shaped |
| RowPattern.MatchTypedComplete | backend/server.js:19 | after the type letter, when a description fits, the engine finds one that starts no earlier and, when it starts at the same place, ends no later |
| RowPattern.MatchAtTyped | backend/server.js:19 | once a type letter is found at p, the engine's match at p is the one built after that letter |
| RowPattern.MatchAt | backend/server.js:19 | soundness: a match found at p starts at p and splits the text as the pattern says |
| RowPattern.MatchAtComplete | backend/server.js:19 | completeness and priority: wherever the pattern fits, the engine finds a match there with the same type letter; its description starts no earlier, ends no later when it starts at the same place, and with the same description it has an amount when the fitting split has one, and the same Dr amount, with the same choice about the amount group, when the fitting split has a Dr amount; and with the same description and the same choice about the amount group, its Dr group starts no earlier than the fitting one's |
| RowPattern.MatchAtTail | backend/server.js:19 | the engine's match ends with the tail the engine finds right after the description |
| RowPattern.MatchAtTakesDr | backend/server.js:19 | once the Dr amount group of a match is placed, the match ends after the Dr amount that begins there, if there is one |
| RowPattern.FieldsAsStrings | backend/server.js:19 | the groups of a well-shaped match spell a date, an amount and a Dr amount as the pattern shapes them, and the description has no line terminator |
| RowPattern.Groups | backend/server.js:66 | `match.slice(1)` of a match is a row of five fields: a date, `T` or `C`, a non-empty description without line terminators, and an optional amount and Dr amount of the right shapes |
| TableExtraction.Scan | backend/server.js:65 | every match `matchAll` yields from `from` onward starts at or after `from` and is what the engine finds at its start |
| TableExtraction.ScanOrdered | backend/server.js:65 | the matches do not overlap and come in document order |
| TableExtraction.ScanCovers | backend/server.js:65 | no match is skipped: every position where the engine matches lies inside one of the matches yielded |
| TableExtraction.EngineSound | backend/server.js:65 | at a position inside the text the scan's engine is `MatchAt`, and what it finds is a well-shaped match starting there |
| TableExtraction.EngineAdvancing | backend/server.js:65 | every match the engine finds is non-empty and lies within the text, so the scan always moves forward |
| TableExtraction.MatchesSound | backend/server.js:65 | every match of the text is the engine's match at its start, and a well-shaped one |
| TableExtraction.Matches | backend/server.js:65 | `[...text.matchAll(regex)]`: the scan from position 0 with the engine `MatchAt` (a definition; its properties are `MatchesSound`, `MatchesOrdered` and `EveryFitCovered`) |
| TableExtraction.ExtractTableData | backend/server.js:64-67 | one row per match of the text |
| TableExtraction.RowsWellFormed | backend/server.js:64-67 | every extracted row has the five fields in order, each shaped as the pattern says |
| TableExtraction.MatchesOrdered | backend/server.js:65-66 | the matches behind the rows do not overlap and come in increasing position |
| TableExtraction.FitFound | backend/server.js:65 | wherever the pattern fits, the engine finds a match |
| TableExtraction.EveryFitCovered | backend/server.js:65 | every place where the pattern fits lies inside one of the matches yielded |
| TableExtraction.NoRowsIffNoFit | backend/server.js:64-67 | the table is empty exactly when the pattern fits nowhere in the text |
| TableExtraction.BlankTextHasNoRows | backend/server.js:64-67 | text that is all white space yields no rows |
| GroceryLine.MatchAtLine | backend/server.js:19 | on `01-Jan-2023 T Grocery Purchase 1,234.56 100.00Dr` the engine matches the whole line, with the description ending at the first place where the rest of the pattern fits |
| GroceryLine.MatchesOfLine | backend/server.js:65 | `matchAll` yields exactly that one match from the line |
| GroceryLine.GroceryRow | backend/server.js:64-67 | the table read from the line is exactly `[["01-Jan-2023", "T", "Grocery Purchase", "1,234.56", "100.00Dr"]]` |
| Effects.LogsAppend | backend/server.js:34-90 | the images recognised, the files deleted and the sheets written by two stretches of work in a row are those of the first followed by those of the second |
| Upload.ErrorMessage | backend/server.js:97-100 | the `error` of the 500 answer is never empty: it is "OCR processing failed." or "No matching data found in the PDF." for those failures, a library's own message when that message is non-empty, and "Error processing the PDF." otherwise |
| TextAcquisition.FirstUnrecognized | backend/server.js:54-57 | the page at which the OCR loop stops: every earlier page is recognised and that page, if any, is not |
| TextAcquisition.FirstUnrecognizedAt | backend/server.js:54-57 | the stopping page is the first page that fails |
| TextAcquisition.OcrText | backend/server.js:53-57 | the accumulated OCR text is at least one character per page, and ends in `"\n"` when there is a page |
| TextAcquisition.OcrTextAppend | backend/server.js:53-57 | the text of two runs of pages is the text of the first followed by that of the second |
| TextAcquisition.OcrTextFirstPage | backend/server.js:53-57 | the first page's text and its `"\n"` come first |
| TextAcquisition.BlankPagesGiveBlankText | backend/server.js:53-57 | pages the recogniser reads as white space give accumulated text that is all white space, newlines included |
| TextAcquisition.PageEffects | backend/server.js:54-57 | the OCR loop does two actions per page |
| TextAcquisition.PageEffectsPairs | backend/server.js:54-57 | page k is recognised at step 2k and its image deleted at step 2k + 1 |
| TextAcquisition.PageEffectsLogs | backend/server.js:54-57 | each page is recognised once, in order, and its image deleted; no sheet is written |
| TextAcquisition.LogsAfterPage | backend/server.js:55-56 | one page through the loop adds its image once to the recognised images and once to the deleted files, and writes no sheet |
| TextAcquisition.NextPage | backend/server.js:54-57 | one more recognised page appends its text and `"\n"`, and one recognise and one delete, to what came before |
| TextAcquisition.Acquisition | backend/server.js:34-61 | the result and log of `extractTextFromPDF`, in closed form: a library error; the text layer when it is not blank; otherwise a render error, the OCR text of every page, or the OCR error at the first page that fails (a definition; its properties are `OcrOnlyForBlankText`, `OcrPathSucceeds`, `OcrPathFails` and `AcquisitionLog`) |
| TextAcquisition.ExtractTextFromPdf | backend/server.js:34-61 | the method's result and log are exactly those of the specification `Acquisition`; the loop keeps the text so far equal to the OCR text of the pages done |
| TextAcquisition.OcrOnlyForBlankText | backend/server.js:38-60 | a text layer that is not blank is returned unchanged with nothing rendered or recognised; the pages are rendered exactly when the text layer is blank |
| TextAcquisition.OcrPathSucceeds | backend/server.js:52-57 | on the OCR path with every page recognised, the text is the pages' texts in page order each followed by `"\n"`, every page is recognised once in order, and every image is deleted |
| TextAcquisition.OcrPathFails | backend/server.js:22-57 | when OCR fails on page k, the result is the OCR error with no text; pages 0..k were tried, only the images of pages before k are deleted, and no later page is tried |
| TextAcquisition.FailedPageLog | backend/server.js:54-57 | the log of a loop stopped at page k: pages 0..k recognised, pages before k deleted |
| Upload.SheetGrid | backend/server.js:80-83 | the grid has N+1 rows: the header, then the N rows in order |
| Upload.DecideTable | backend/server.js:75-83 | zero rows is exactly the "No matching data" error; otherwise the result is the header-plus-rows grid |
| Upload.ExcelPath | backend/server.js:87 | the sheet path is `uploads/` + filename + `.xlsx` |
| Upload.AfterAcquisition | backend/server.js:72-101 | what the handler does once the text is read: a failure is passed on with nothing more done; an empty table is the no-data failure; otherwise the rows, after writing the sheet and deleting the upload (a definition; its properties are `AfterFailure` and `AfterSuccess`) |
| Upload.UploadOutcome | backend/server.js:70-101 | the handler's answer and log: `AfterAcquisition` applied to `Acquisition` (a definition; its properties are `FailureLeavesNoSheet`, `SuccessWritesSheet` and `NoMatchingDataIffNoFit`) |
| Upload.HandleUpload | backend/server.js:70-90 | the handler's answer and log are exactly those of `UploadOutcome` |
| Upload.AcquisitionLog | backend/server.js:54-57 | reading the text writes no sheet and deletes only images it has already recognised, in the same order |
| Upload.OcrLog | backend/server.js:54-57 | the log of the OCR path writes no sheet and deletes a prefix of the images recognised |
| Upload.AfterFailure | backend/server.js:75-77 | after a failure the handler does nothing more |
| Upload.FailureLeavesNoSheet | backend/server.js:70-90 | a failed upload writes no sheet, and its log is the text stage's log alone: the handler adds no deletion, so the upload is not deleted unless its path was one of the page images recognised |
| Upload.AfterSuccess | backend/server.js:73-90 | success means a non-empty table, followed by writing the sheet and then deleting the upload |
| Upload.FinalLog | backend/server.js:88-90 | the sheet write and the upload's deletion come last in the log |
| Upload.SuccessWritesSheet | backend/server.js:70-94 | a successful upload answers with the rows of the text read (no header), which are non-empty; it writes exactly one sheet, the header followed by those rows, and then deletes the upload |
| Upload.NoMatchingDataIffNoFit | backend/server.js:72-77 | the answer is "No matching data found in the PDF." exactly when the text was read and the pattern fits nowhere in it |
| Upload.GridColumnsAligned | backend/server.js:80-83 | every row of the sheet has the five columns of the header, and each data row is well formed |

## Left out

- HTTP plumbing: Express routing, CORS, multer, and the JSON shapes of the answers. A missing `req.file` is not modelled; the handler takes the upload's path and filename as given. The answer is a `Result` of the rows or a `Failure`, with `ErrorMessage` giving the 500 text. The `downloadUrl` is left out.
- Library internals: reading the file, pdf-parse, pdf2pic (with its density, size and file-name options) and Tesseract are abstract functions. Their outputs and failures are inputs to the model.
- The contents of the sheet file: XLSX serialization, the book, and the sheet name "Extracted Data". The log records only the path and the grid written.
- File-system failures: `writeFile` and `unlinkSync` are assumed to succeed. If one threw, the handler would answer 500 with that error's message; this is not modelled.
- The `/download` route, `app.listen` and the `console.log` calls are outside this pipeline.
- The React frontend is outside this pipeline.
- Concurrency between uploads is not modelled. In particular, every upload's page images share the fixed name `pdf_page`.
- Character encoding: JavaScript strings are UTF-16 code units, while a Dafny `char` is a Unicode scalar value. The model treats each character as one unit and does not model surrogate pairs.
- `ErrorMessage` is modelled for the three kinds of failures above. A library that throws a value without a `message` (a string, say) is represented as `LibraryFailure("")`, which is answered with "Error processing the PDF."; a thrown `null` or `undefined`, for which `error.message` itself throws inside the `catch` and no 500 answer is sent, is not modelled.
