/**
 * What the upload handler does to the outside world, as a log: the calls
 * into the rasteriser and the recogniser, the files it deletes and the
 * sheet it writes, in the order it does them.
 */
module Effects {
  import opened RowPattern

  /** A file-system path. */
  type Path = string

  /** One action on the outside world. */
  datatype Effect =
    | RenderPages(pdf: Path)                       // pdf2pic: rasterise every page of the PDF
    | Recognize(image: Path)                       // Tesseract: recognise the text of one page image
    | Delete(path: Path)                           // fs.unlinkSync
    | WriteSheet(path: Path, grid: seq<seq<Field>>) // XLSX.writeFile of a one-sheet workbook

  /** The images handed to the recogniser, in order. */
  function Recognized(es: seq<Effect>): (ps: seq<Path>)
    decreases |es|
  {
    if es == [] then []
    else Recognized(es[..|es| - 1]) + (if es[|es| - 1].Recognize? then [es[|es| - 1].image] else [])
  }

  /** The files deleted, in order. */
  function Deleted(es: seq<Effect>): (ps: seq<Path>)
    decreases |es|
  {
    if es == [] then []
    else Deleted(es[..|es| - 1]) + (if es[|es| - 1].Delete? then [es[|es| - 1].path] else [])
  }

  /** The sheets written, in order. */
  function Written(es: seq<Effect>): (ws: seq<Effect>)
    decreases |es|
  {
    if es == [] then []
    else Written(es[..|es| - 1]) + (if es[|es| - 1].WriteSheet? then [es[|es| - 1]] else [])
  }

  /** The logs of two stretches of work, one after the other. */
  lemma {:induction false} LogsAppend(a: seq<Effect>, b: seq<Effect>)
    ensures Recognized(a + b) == Recognized(a) + Recognized(b)
    ensures Deleted(a + b) == Deleted(a) + Deleted(b)
    ensures Written(a + b) == Written(a) + Written(b)
    decreases |b|
  {
    if b == [] {
      assert a + b == a;
    } else {
      var b' := b[..|b| - 1];
      assert (a + b)[..|a + b| - 1] == a + b';
      LogsAppend(a, b');
    }
  }
}
