/**
 * The `/upload` handler: read the text of the uploaded PDF, extract the
 * table, refuse an empty table, write the sheet (the header row, then the
 * rows) and delete the upload.
 */
module Upload {
  import opened Wrappers
  import opened RowPattern
  import opened TableExtraction
  import opened Effects
  import opened TextAcquisition
  import opened JsChars

  /** The `error` of the 500 response the handler's `catch` sends: the error's message, or the fallback when it is empty. */
  function ErrorMessage(f: Failure): (msg: string)
    ensures msg != ""
    ensures f.OcrProcessingFailed? ==> msg == "OCR processing failed."
    ensures f.NoMatchingData? ==> msg == "No matching data found in the PDF."
    ensures f.LibraryFailure? && f.message != "" ==> msg == f.message
    ensures f.LibraryFailure? && f.message == "" ==> msg == "Error processing the PDF."
  {
    match f
    case LibraryFailure(m) => if m == "" then "Error processing the PDF." else m
    case OcrProcessingFailed => "OCR processing failed."
    case NoMatchingData => "No matching data found in the PDF."
  }

  /** The header row of the sheet. */
  const Header: Row := [Some("Date"), Some("Type"), Some("Description"), Some("Amount"), Some("Dr Amount")]

  /** The rows `aoa_to_sheet` is given: the header, then the table rows in order. */
  function SheetGrid(rows: seq<Row>): (grid: seq<Row>)
    ensures |grid| == |rows| + 1
    ensures grid[0] == Header
    ensures forall i :: 0 <= i < |rows| ==> grid[i + 1] == rows[i]
  {
    [Header] + rows
  }

  /** No rows is an error; otherwise the grid of the sheet. */
  function DecideTable(rows: seq<Row>): (r: Result<seq<Row>, Failure>)
    ensures r.Failure? <==> rows == []
    ensures r.Failure? ==> r.error == NoMatchingData
    ensures r.Success? ==> r.value == SheetGrid(rows)
  {
    if |rows| == 0 then Failure(NoMatchingData) else Success(SheetGrid(rows))
  }

  /** `uploads/${req.file.filename}.xlsx`. */
  function ExcelPath(filename: string): (p: Path)
    ensures |p| == |filename| + 13
    ensures p[..8] == "uploads/" && p[8..|p| - 5] == filename && p[|p| - 5..] == ".xlsx"
  {
    "uploads/" + filename + ".xlsx"
  }

  /**
   * What the handler answers for an upload, and its log: on success the
   * table rows, without the header, after the sheet has been written and
   * the upload deleted.
   */
  function UploadOutcome(lib: Libraries, pdfPath: Path, filename: string): (r: (Result<seq<Row>, Failure>, seq<Effect>)) {
    AfterAcquisition(Acquisition(lib, pdfPath).0, Acquisition(lib, pdfPath).1, pdfPath, filename)
  }

  /** What the handler does once `extractTextFromPDF` has answered `acquired`, having done `log`. */
  function AfterAcquisition(acquired: Result<string, Failure>, log: seq<Effect>, pdfPath: Path, filename: string):
    (r: (Result<seq<Row>, Failure>, seq<Effect>))
  {
    match acquired
    case Failure(f) => (Failure(f), log)
    case Success(text) =>
      var rows := ExtractTableData(text);
      match DecideTable(rows)
      case Failure(f) => (Failure(f), log)
      case Success(grid) => (Success(rows), log + [WriteSheet(ExcelPath(filename), grid), Delete(pdfPath)])
  }

  /** The `/upload` handler, step by step; a failure is answered with `ErrorMessage` of it. */
  method HandleUpload(lib: Libraries, pdfPath: Path, filename: string) returns (r: Result<seq<Row>, Failure>, effects: seq<Effect>)
    ensures (r, effects) == UploadOutcome(lib, pdfPath, filename)
  {
    var extracted;
    extracted, effects := ExtractTextFromPdf(lib, pdfPath);
    if extracted.Failure? {
      return Failure(extracted.error), effects;
    }
    var tableData := ExtractTableData(extracted.value);
    if |tableData| == 0 {
      return Failure(NoMatchingData), effects;
    }
    var grid := SheetGrid(tableData);
    // The sheet is written, then the upload deleted.
    effects := effects + [WriteSheet(ExcelPath(filename), grid), Delete(pdfPath)];
    return Success(tableData), effects;
  }

  /** Reading the text writes no sheet, and deletes only page images it has recognised before. */
  lemma AcquisitionLog(lib: Libraries, pdfPath: Path)
    ensures Written(Acquisition(lib, pdfPath).1) == []
    ensures |Deleted(Acquisition(lib, pdfPath).1)| <= |Recognized(Acquisition(lib, pdfPath).1)|
    ensures Deleted(Acquisition(lib, pdfPath).1) == Recognized(Acquisition(lib, pdfPath).1)[..|Deleted(Acquisition(lib, pdfPath).1)|]
  {
    match lib.parsePdf(pdfPath)
    case Failure(_) =>
    case Success(native) =>
      if Trim(native) == "" {
        match lib.renderPages(pdfPath)
        case Failure(_) =>
          OcrLog(pdfPath, [], []);
          assert [RenderPages(pdfPath)] + PageEffects([]) + [] == [RenderPages(pdfPath)];
        case Success(images) =>
          var k := FirstUnrecognized(lib.recognize, images);
          if k == |images| {
            OcrLog(pdfPath, images, []);
            assert [RenderPages(pdfPath)] + PageEffects(images) + [] == [RenderPages(pdfPath)] + PageEffects(images);
          } else {
            OcrLog(pdfPath, images[..k], [Recognize(images[k])]);
          }
      }
  }

  /**
   * The log of the recognition path: the pages rendered, each recognised
   * page image recognised and then deleted, and perhaps one more image
   * handed to the recogniser.
   */
  lemma OcrLog(pdfPath: Path, pages: seq<Path>, last: seq<Effect>)
    requires last == [] || (|last| == 1 && last[0].Recognize?)
    ensures Written([RenderPages(pdfPath)] + PageEffects(pages) + last) == []
    ensures |Deleted([RenderPages(pdfPath)] + PageEffects(pages) + last)| <= |Recognized([RenderPages(pdfPath)] + PageEffects(pages) + last)|
    ensures Deleted([RenderPages(pdfPath)] + PageEffects(pages) + last) ==
            Recognized([RenderPages(pdfPath)] + PageEffects(pages) + last)[..|Deleted([RenderPages(pdfPath)] + PageEffects(pages) + last)|]
  {
    var pre := [RenderPages(pdfPath)] + PageEffects(pages);
    assert [RenderPages(pdfPath)][..0] == [];
    PageEffectsLogs(pages);
    LogsAppend([RenderPages(pdfPath)], PageEffects(pages));
    LogsAppend(pre, last);
    if last != [] {
      assert last[..0] == [];
    }
  }

  /**
   * A failed upload writes no sheet and deletes nothing but recognised
   * page images: the handler adds no deletion of its own, so the upload is
   * kept unless its own path was handed to the recogniser as a page image.
   */
  lemma FailureLeavesNoSheet(lib: Libraries, pdfPath: Path, filename: string)
    requires UploadOutcome(lib, pdfPath, filename).0.Failure?
    ensures UploadOutcome(lib, pdfPath, filename).1 == Acquisition(lib, pdfPath).1
    ensures Written(UploadOutcome(lib, pdfPath, filename).1) == []
    ensures pdfPath !in Recognized(Acquisition(lib, pdfPath).1) ==> pdfPath !in Deleted(UploadOutcome(lib, pdfPath, filename).1)
  {
    AfterFailure(Acquisition(lib, pdfPath).0, Acquisition(lib, pdfPath).1, pdfPath, filename);
    AcquisitionLog(lib, pdfPath);
    PrefixMember(Deleted(Acquisition(lib, pdfPath).1), Recognized(Acquisition(lib, pdfPath).1), pdfPath);
  }

  /** What is in a prefix of a sequence is in the sequence. */
  lemma PrefixMember(d: seq<Path>, r: seq<Path>, x: Path)
    requires |d| <= |r| && d == r[..|d|]
    ensures x in d ==> x in r
  {
    if x in d {
      var i :| 0 <= i < |d| && d[i] == x;
      assert r[i] == x;
    }
  }

  /** After a failure the handler does nothing more. */
  lemma AfterFailure(acquired: Result<string, Failure>, log: seq<Effect>, pdfPath: Path, filename: string)
    requires AfterAcquisition(acquired, log, pdfPath, filename).0.Failure?
    ensures AfterAcquisition(acquired, log, pdfPath, filename).1 == log
  {
  }

  /**
   * A successful upload answers with the table rows of the text read, and
   * its log ends by writing the sheet, the header followed by exactly
   * those rows, and then deleting the upload.
   */
  lemma SuccessWritesSheet(lib: Libraries, pdfPath: Path, filename: string)
    requires UploadOutcome(lib, pdfPath, filename).0.Success?
    ensures Acquisition(lib, pdfPath).0.Success?
    ensures UploadOutcome(lib, pdfPath, filename).0.value == ExtractTableData(Acquisition(lib, pdfPath).0.value) != []
    ensures Written(UploadOutcome(lib, pdfPath, filename).1) ==
            [WriteSheet(ExcelPath(filename), [Header] + UploadOutcome(lib, pdfPath, filename).0.value)]
    ensures Deleted(UploadOutcome(lib, pdfPath, filename).1) ==
            Deleted(Acquisition(lib, pdfPath).1) + [pdfPath]
  {
    var acquired := Acquisition(lib, pdfPath).0;
    var log := Acquisition(lib, pdfPath).1;
    AfterSuccess(acquired, log, pdfPath, filename);
    AcquisitionLog(lib, pdfPath);
    FinalLog(log, WriteSheet(ExcelPath(filename), SheetGrid(ExtractTableData(acquired.value))), pdfPath);
  }

  /** After a text is read, success means a non-empty table, and the sheet is written and the upload deleted. */
  lemma AfterSuccess(acquired: Result<string, Failure>, log: seq<Effect>, pdfPath: Path, filename: string)
    requires AfterAcquisition(acquired, log, pdfPath, filename).0.Success?
    ensures acquired.Success?
    ensures AfterAcquisition(acquired, log, pdfPath, filename).0.value == ExtractTableData(acquired.value) != []
    ensures AfterAcquisition(acquired, log, pdfPath, filename).1 ==
            log + [WriteSheet(ExcelPath(filename), SheetGrid(ExtractTableData(acquired.value))), Delete(pdfPath)]
  {
  }

  /** The two last effects of a successful upload, as seen in the log. */
  lemma FinalLog(log: seq<Effect>, sheet: Effect, pdfPath: Path)
    requires sheet.WriteSheet?
    ensures Written(log + [sheet, Delete(pdfPath)]) == Written(log) + [sheet]
    ensures Deleted(log + [sheet, Delete(pdfPath)]) == Deleted(log) + [pdfPath]
  {
    LogsAppend(log, [sheet, Delete(pdfPath)]);
    LogsAppend([sheet], [Delete(pdfPath)]);
    assert [sheet] + [Delete(pdfPath)] == [sheet, Delete(pdfPath)];
    assert [sheet][..0] == [] && [Delete(pdfPath)][..0] == [];
  }

  /**
   * "No matching data found in the PDF." is the answer exactly when the
   * text was read and the statement-line pattern fits nowhere in it.
   */
  lemma NoMatchingDataIffNoFit(lib: Libraries, pdfPath: Path, filename: string)
    ensures UploadOutcome(lib, pdfPath, filename).0 == Failure(NoMatchingData) <==>
            Acquisition(lib, pdfPath).0.Success? && forall m :: !WellShaped(Acquisition(lib, pdfPath).0.value, m)
  {
    if Acquisition(lib, pdfPath).0.Success? {
      NoRowsIffNoFit(Acquisition(lib, pdfPath).0.value);
    } else {
      assert Acquisition(lib, pdfPath).0.error != NoMatchingData;
    }
  }

  /** Every row of the sheet has the five columns of the header, and each data row is well formed. */
  lemma GridColumnsAligned(text: string)
    requires ExtractTableData(text) != []
    ensures DecideTable(ExtractTableData(text)).Success?
    ensures forall i :: 0 <= i < |DecideTable(ExtractTableData(text)).value| ==> |DecideTable(ExtractTableData(text)).value[i]| == 5
    ensures forall i :: 1 <= i < |DecideTable(ExtractTableData(text)).value| ==> WellFormedRow(DecideTable(ExtractTableData(text)).value[i])
  {
    var rows := ExtractTableData(text);
    var grid := SheetGrid(rows);
    RowsWellFormed(text);
    forall i | 1 <= i < |grid| ensures WellFormedRow(grid[i]) {
      assert grid[i] == rows[i - 1];
    }
  }
}
