/**
 * `extractTextFromPDF`: the native text layer of the PDF when it holds
 * anything but white space; otherwise the text the recogniser reads from
 * each rendered page, each page's text followed by a newline.
 */
module TextAcquisition {
  import opened Wrappers
  import opened JsChars
  import opened Effects

  /**
   * The libraries the server calls, as functions it cannot see into.
   * `parsePdf` reads the file and returns the text layer pdf-parse finds in
   * it, or the message of the error either call throws; `renderPages`
   * rasterises every page with pdf2pic and returns the image paths in page
   * order, or the message of its error; `recognize` is Tesseract on one
   * image, `None` when it throws.
   */
  datatype Libraries = Libraries(
    parsePdf: Path -> Result<string, string>,
    renderPages: Path -> Result<seq<Path>, string>,
    recognize: Path -> Option<string>)

  /** Why handling an upload stops. */
  datatype Failure =
    | LibraryFailure(message: string)  // an error thrown by a library, with its message
    | OcrProcessingFailed              // the recogniser failed on a page
    | NoMatchingData                   // no statement line was found in the text

  /** The recogniser reads every page of `ps`. */
  predicate AllRecognized(recognize: Path -> Option<string>, ps: seq<Path>) {
    forall i :: 0 <= i < |ps| ==> recognize(ps[i]).Some?
  }

  /** The index of the first page the recogniser fails on, or the number of pages when it fails on none. */
  function FirstUnrecognized(recognize: Path -> Option<string>, ps: seq<Path>): (k: nat)
    ensures k <= |ps|
    ensures AllRecognized(recognize, ps[..k])
    ensures k < |ps| ==> recognize(ps[k]).None?
    decreases |ps|
  {
    if ps == [] then 0
    else if recognize(ps[0]).None? then 0
    else 1 + FirstUnrecognized(recognize, ps[1..])
  }

  /** Every page recognised before `i` and page `i` not: the first failure is at `i`. */
  lemma {:induction false} FirstUnrecognizedAt(recognize: Path -> Option<string>, ps: seq<Path>, i: nat)
    requires i <= |ps|
    requires AllRecognized(recognize, ps[..i])
    requires i < |ps| ==> recognize(ps[i]).None?
    ensures FirstUnrecognized(recognize, ps) == i
    decreases i
  {
    if i > 0 {
      assert ps[..i][0] == ps[0];
      assert ps[1..][..i - 1] == ps[..i][1..];
      FirstUnrecognizedAt(recognize, ps[1..], i - 1);
    }
  }

  /** The text the OCR loop accumulates over pages all recognised: each page's text, then "\n". */
  function OcrText(recognize: Path -> Option<string>, ps: seq<Path>): (t: string)
    requires AllRecognized(recognize, ps)
    ensures |t| >= |ps|
    ensures ps != [] ==> t[|t| - 1] == '\n'
    decreases |ps|
  {
    if ps == [] then ""
    else OcrText(recognize, ps[..|ps| - 1]) + recognize(ps[|ps| - 1]).value + "\n"
  }

  /** The text of two runs of pages is the text of the first followed by that of the second. */
  lemma {:induction false} OcrTextAppend(recognize: Path -> Option<string>, a: seq<Path>, b: seq<Path>)
    requires AllRecognized(recognize, a) && AllRecognized(recognize, b)
    ensures AllRecognized(recognize, a + b)
    ensures OcrText(recognize, a + b) == OcrText(recognize, a) + OcrText(recognize, b)
    decreases |b|
  {
    forall i | 0 <= i < |a + b| ensures recognize((a + b)[i]).Some? {
      if i < |a| { assert (a + b)[i] == a[i]; } else { assert (a + b)[i] == b[i - |a|]; }
    }
    if b == [] {
      assert a + b == a;
    } else {
      var b' := b[..|b| - 1];
      assert (a + b)[..|a + b| - 1] == a + b';
      OcrTextAppend(recognize, a, b');
    }
  }

  /** Page order: the first page's text and its newline come first. */
  lemma OcrTextFirstPage(recognize: Path -> Option<string>, p: Path, ps: seq<Path>)
    requires recognize(p).Some? && AllRecognized(recognize, ps)
    ensures AllRecognized(recognize, [p] + ps)
    ensures OcrText(recognize, [p] + ps) == recognize(p).value + "\n" + OcrText(recognize, ps)
  {
    OcrTextAppend(recognize, [p], ps);
    assert [p][..0] == [];
  }

  /** Pages the recogniser reads as blank give text that is all white space. */
  lemma {:induction false} BlankPagesGiveBlankText(recognize: Path -> Option<string>, ps: seq<Path>)
    requires AllRecognized(recognize, ps)
    requires forall i :: 0 <= i < |ps| ==> AllSpace(recognize(ps[i]).value)
    ensures AllSpace(OcrText(recognize, ps))
    decreases |ps|
  {
    if ps != [] {
      BlankPagesGiveBlankText(recognize, ps[..|ps| - 1]);
      var t := OcrText(recognize, ps[..|ps| - 1]);
      var page := recognize(ps[|ps| - 1]).value;
      assert OcrText(recognize, ps) == t + page + "\n";
      forall k | 0 <= k < |t + page + "\n"|
        ensures IsSpace((t + page + "\n")[k])
      {
        if k < |t| {
          assert (t + page + "\n")[k] == t[k];
        } else if k < |t| + |page| {
          assert (t + page + "\n")[k] == page[k - |t|];
        } else {
          assert (t + page + "\n")[k] == '\n';
        }
      }
    }
  }

  /** The log of the OCR loop over pages all recognised: recognise a page, then delete its image. */
  function PageEffects(ps: seq<Path>): (es: seq<Effect>)
    ensures |es| == 2 * |ps|
    decreases |ps|
  {
    if ps == [] then []
    else PageEffects(ps[..|ps| - 1]) + [Recognize(ps[|ps| - 1]), Delete(ps[|ps| - 1])]
  }

  /** Page k is recognised at step 2k of the loop's log and its image deleted at step 2k + 1. */
  lemma {:induction false} PageEffectsPairs(ps: seq<Path>, k: nat)
    requires k < |ps|
    ensures PageEffects(ps)[2 * k] == Recognize(ps[k]) && PageEffects(ps)[2 * k + 1] == Delete(ps[k])
    decreases |ps|
  {
    if k < |ps| - 1 {
      PageEffectsPairs(ps[..|ps| - 1], k);
    }
  }

  /** Each page is recognised once, in order, and its image deleted after it. */
  lemma {:induction false} PageEffectsLogs(ps: seq<Path>)
    ensures Recognized(PageEffects(ps)) == ps
    ensures Deleted(PageEffects(ps)) == ps
    ensures Written(PageEffects(ps)) == []
    decreases |ps|
  {
    if ps != [] {
      var init := ps[..|ps| - 1];
      PageEffectsLogs(init);
      LogsAfterPage(PageEffects(init), ps[|ps| - 1]);
      assert init + [ps[|ps| - 1]] == ps;
    }
  }

  /** One more page through the loop: its image is recognised, then deleted. */
  lemma LogsAfterPage(es: seq<Effect>, p: Path)
    ensures Recognized(es + [Recognize(p), Delete(p)]) == Recognized(es) + [p]
    ensures Deleted(es + [Recognize(p), Delete(p)]) == Deleted(es) + [p]
    ensures Written(es + [Recognize(p), Delete(p)]) == Written(es)
  {
    var es1 := es + [Recognize(p)];
    var es2 := es + [Recognize(p), Delete(p)];
    assert es2[..|es2| - 1] == es1;
    assert es1[..|es1| - 1] == es;
  }

  /** One more page into the OCR loop: its text and its log come after those of the pages before it. */
  lemma NextPage(recognize: Path -> Option<string>, images: seq<Path>, i: nat)
    requires i < |images|
    requires AllRecognized(recognize, images[..i]) && recognize(images[i]).Some?
    ensures AllRecognized(recognize, images[..i + 1])
    ensures OcrText(recognize, images[..i + 1]) == OcrText(recognize, images[..i]) + recognize(images[i]).value + "\n"
    ensures PageEffects(images[..i + 1]) == PageEffects(images[..i]) + [Recognize(images[i]), Delete(images[i])]
  {
    assert images[..i + 1][..i] == images[..i];
  }

  /**
   * What `extractTextFromPDF(pdfPath)` returns, and the log of what it
   * does, as a function of what the libraries answer.
   */
  function Acquisition(lib: Libraries, pdfPath: Path): (r: (Result<string, Failure>, seq<Effect>)) {
    match lib.parsePdf(pdfPath)
    case Failure(e) => (Failure(LibraryFailure(e)), [])
    case Success(native) =>
      if Trim(native) != "" then (Success(native), [])
      else
        match lib.renderPages(pdfPath)
        case Failure(e) => (Failure(LibraryFailure(e)), [RenderPages(pdfPath)])
        case Success(images) =>
          var k := FirstUnrecognized(lib.recognize, images);
          if k == |images| then
            (Success(OcrText(lib.recognize, images)), [RenderPages(pdfPath)] + PageEffects(images))
          else
            (Failure(OcrProcessingFailed), [RenderPages(pdfPath)] + PageEffects(images[..k]) + [Recognize(images[k])])
  }

  /** `extractTextFromPDF`, step by step. */
  method ExtractTextFromPdf(lib: Libraries, pdfPath: Path) returns (r: Result<string, Failure>, effects: seq<Effect>)
    ensures (r, effects) == Acquisition(lib, pdfPath)
  {
    effects := [];
    var pdfData := lib.parsePdf(pdfPath);
    if pdfData.Failure? {
      return Failure(LibraryFailure(pdfData.error)), effects;
    }
    var extractedText := pdfData.value;
    if Trim(extractedText) == "" {
      effects := effects + [RenderPages(pdfPath)];
      var rendered := lib.renderPages(pdfPath);
      if rendered.Failure? {
        assert effects == [RenderPages(pdfPath)];
        return Failure(LibraryFailure(rendered.error)), effects;
      }
      var images := rendered.value;
      extractedText := "";
      var i := 0;
      while i < |images|
        invariant 0 <= i <= |images|
        invariant AllRecognized(lib.recognize, images[..i])
        invariant extractedText == OcrText(lib.recognize, images[..i])
        invariant effects == [RenderPages(pdfPath)] + PageEffects(images[..i])
      {
        effects := effects + [Recognize(images[i])];
        var text := lib.recognize(images[i]);
        if text.None? {
          FirstUnrecognizedAt(lib.recognize, images, i);
          return Failure(OcrProcessingFailed), effects;
        }
        NextPage(lib.recognize, images, i);
        extractedText := extractedText + text.value + "\n";
        effects := effects + [Delete(images[i])];
        i := i + 1;
      }
      assert images[..i] == images;
      FirstUnrecognizedAt(lib.recognize, images, i);
    }
    return Success(extractedText), effects;
  }

  /**
   * The recogniser is used exactly when the text layer is blank: then the
   * pages are rendered; otherwise the text layer is the result, unchanged,
   * and nothing is rendered or recognised.
   */
  lemma OcrOnlyForBlankText(lib: Libraries, pdfPath: Path, native: string)
    requires lib.parsePdf(pdfPath) == Success(native)
    ensures !AllSpace(native) ==> Acquisition(lib, pdfPath) == (Success(native), [])
    ensures AllSpace(native) <==> RenderPages(pdfPath) in Acquisition(lib, pdfPath).1
  {
    TrimEmptyIffAllSpace(native);
  }

  /**
   * On the OCR path with every page recognised, the text is the pages'
   * texts in page order, each followed by "\n"; each page is recognised
   * once, in order, and its image deleted after it.
   */
  lemma OcrPathSucceeds(lib: Libraries, pdfPath: Path, native: string, images: seq<Path>)
    requires lib.parsePdf(pdfPath) == Success(native) && AllSpace(native)
    requires lib.renderPages(pdfPath) == Success(images)
    requires AllRecognized(lib.recognize, images)
    ensures Acquisition(lib, pdfPath).0 == Success(OcrText(lib.recognize, images))
    ensures Recognized(Acquisition(lib, pdfPath).1) == images
    ensures Deleted(Acquisition(lib, pdfPath).1) == images
  {
    TrimEmptyIffAllSpace(native);
    FirstUnrecognizedAt(lib.recognize, images, |images|);
    PageEffectsLogs(images);
    LogsAppend([RenderPages(pdfPath)], PageEffects(images));
    assert [RenderPages(pdfPath)][..0] == [];
  }

  /**
   * On the OCR path, when the recogniser fails on a page, the result is the
   * OCR error and no text; the pages before it were recognised and their
   * images deleted, the failing page was tried and its image is not deleted,
   * and no later page is tried.
   */
  lemma OcrPathFails(lib: Libraries, pdfPath: Path, native: string, images: seq<Path>, k: nat)
    requires lib.parsePdf(pdfPath) == Success(native) && AllSpace(native)
    requires lib.renderPages(pdfPath) == Success(images)
    requires k < |images| && lib.recognize(images[k]).None?
    requires AllRecognized(lib.recognize, images[..k])
    ensures Acquisition(lib, pdfPath).0 == Failure(OcrProcessingFailed)
    ensures Recognized(Acquisition(lib, pdfPath).1) == images[..k + 1]
    ensures Deleted(Acquisition(lib, pdfPath).1) == images[..k]
  {
    TrimEmptyIffAllSpace(native);
    FirstUnrecognizedAt(lib.recognize, images, k);
    FailedPageLog(pdfPath, images, k);
  }

  /** The log of an OCR loop stopped by the page at k. */
  lemma FailedPageLog(pdfPath: Path, images: seq<Path>, k: nat)
    requires k < |images|
    ensures Recognized([RenderPages(pdfPath)] + PageEffects(images[..k]) + [Recognize(images[k])]) == images[..k + 1]
    ensures Deleted([RenderPages(pdfPath)] + PageEffects(images[..k]) + [Recognize(images[k])]) == images[..k]
  {
    var pre := [RenderPages(pdfPath)] + PageEffects(images[..k]);
    PageEffectsLogs(images[..k]);
    LogsAppend([RenderPages(pdfPath)], PageEffects(images[..k]));
    LogsAppend(pre, [Recognize(images[k])]);
    assert [RenderPages(pdfPath)][..0] == [] && [Recognize(images[k])][..0] == [];
    assert images[..k] + [images[k]] == images[..k + 1];
  }
}
