/**
 * `extractTableData`: every non-overlapping match of the statement-line
 * pattern, left to right, as `String.prototype.matchAll` with a global
 * pattern finds them, each turned into its five capture groups.
 */
module TableExtraction {
  import opened Wrappers
  import opened JsChars
  import opened RowPattern

  /** One row of the table: the five groups of a match. */
  type Row = seq<Field>

  /**
   * `find` plays the part of the engine tried at one position: what it
   * finds at p starts at p and ends after p, within the text.
   */
  predicate Advancing(text: string, find: nat -> Option<Match>) {
    forall p: nat :: p <= |text| && find(p).Some? ==> find(p).value.start == p && p < find(p).value.tail.end <= |text|
  }

  /**
   * The matches `matchAll` yields when the search starts at `from`: the
   * engine is tried at each position in turn; after a match the next
   * search starts where that match ends.
   */
  function Scan(text: string, find: nat -> Option<Match>, from: nat): (ms: seq<Match>)
    requires from <= |text| && Advancing(text, find)
    ensures forall i :: 0 <= i < |ms| ==> from <= ms[i].start <= |text| && find(ms[i].start) == Some(ms[i])
    decreases |text| - from
  {
    match find(from)
    case Some(m) => [m] + Scan(text, find, m.tail.end)
    case None => if from == |text| then [] else Scan(text, find, from + 1)
  }

  /** The matches do not overlap and come in increasing order. */
  lemma {:induction false} ScanOrdered(text: string, find: nat -> Option<Match>, from: nat)
    requires from <= |text| && Advancing(text, find)
    ensures forall i :: 0 <= i < |Scan(text, find, from)| - 1 ==>
              Scan(text, find, from)[i].tail.end <= Scan(text, find, from)[i + 1].start
    decreases |text| - from
  {
    match find(from)
    case Some(m) =>
      ScanOrdered(text, find, m.tail.end);
    case None =>
      if from < |text| {
        ScanOrdered(text, find, from + 1);
      }
  }

  /**
   * No match is skipped: every position at which the engine matches lies
   * inside one of the matches found (at its start, or covered by it).
   */
  lemma {:induction false} ScanCovers(text: string, find: nat -> Option<Match>, from: nat, p: nat)
    requires from <= p <= |text| && Advancing(text, find) && find(p).Some?
    ensures exists i :: 0 <= i < |Scan(text, find, from)| &&
              Scan(text, find, from)[i].start <= p < Scan(text, find, from)[i].tail.end
    decreases |text| - from
  {
    var ms := Scan(text, find, from);
    match find(from)
    case Some(m) =>
      if p < m.tail.end {
        assert ms[0].start <= p < ms[0].tail.end;
      } else {
        var rest := Scan(text, find, m.tail.end);
        ScanCovers(text, find, m.tail.end, p);
        var i :| 0 <= i < |rest| && rest[i].start <= p < rest[i].tail.end;
        assert ms[i + 1] == rest[i];
      }
    case None =>
      ScanCovers(text, find, from + 1, p);
  }

  /** The statement-line pattern tried at each position of the text. */
  function Engine(text: string): (find: nat -> Option<Match>) {
    (p: nat) => if p <= |text| then MatchAt(text, p) else None
  }

  /** What the engine finds is a well-shaped match starting where it was tried. */
  lemma EngineSound(text: string, p: nat)
    requires p <= |text| && Engine(text)(p).Some?
    ensures Engine(text)(p) == MatchAt(text, p)
    ensures Engine(text)(p).value.start == p && WellShaped(text, Engine(text)(p).value)
  {
  }

  lemma EngineAdvancing(text: string)
    ensures Advancing(text, Engine(text))
  {
    forall p: nat | p <= |text| && Engine(text)(p).Some?
      ensures Engine(text)(p).value.start == p && p < Engine(text)(p).value.tail.end <= |text|
    {
      EngineSound(text, p);
    }
  }

  /** The matches `text.matchAll(regex)` yields. */
  function Matches(text: string): (ms: seq<Match>) {
    EngineAdvancing(text);
    Scan(text, Engine(text), 0)
  }

  /** Each match is what the engine finds where it starts, and a well-shaped one. */
  lemma MatchesSound(text: string)
    ensures forall i :: 0 <= i < |Matches(text)| ==>
              Matches(text)[i].start <= |text| && MatchAt(text, Matches(text)[i].start) == Some(Matches(text)[i]) &&
              WellShaped(text, Matches(text)[i])
  {
    EngineAdvancing(text);
    var ms := Scan(text, Engine(text), 0);
    forall i | 0 <= i < |ms|
      ensures ms[i].start <= |text| && MatchAt(text, ms[i].start) == Some(ms[i]) && WellShaped(text, ms[i])
    {
      EngineSound(text, ms[i].start);
    }
  }

  /** `extractTableData(text)`: `[...text.matchAll(regex)].map(match => match.slice(1))`. */
  function ExtractTableData(text: string): (rows: seq<Row>)
    ensures |rows| == |Matches(text)|
  {
    MatchesSound(text);
    var ms := Matches(text);
    seq(|ms|, i requires 0 <= i < |ms| => Groups(text, ms[i]))
  }

  /** Every row has the five groups, each shaped as the pattern says. */
  lemma RowsWellFormed(text: string)
    ensures forall i :: 0 <= i < |ExtractTableData(text)| ==> WellFormedRow(ExtractTableData(text)[i])
  {
    MatchesSound(text);
  }

  /** The matches of the text do not overlap and come in increasing order. */
  lemma MatchesOrdered(text: string)
    ensures forall i :: 0 <= i < |Matches(text)| - 1 ==> Matches(text)[i].tail.end <= Matches(text)[i + 1].start
  {
    EngineAdvancing(text);
    ScanOrdered(text, Engine(text), 0);
  }

  /** Where the pattern fits, the engine finds a match. */
  lemma FitFound(text: string, m: Match)
    requires WellShaped(text, m)
    ensures m.start <= |text| && Engine(text)(m.start).Some?
  {
    MatchAtComplete(text, m);
  }

  /** Every place where the pattern fits lies inside one of the matches found. */
  lemma EveryFitCovered(text: string, m: Match)
    requires WellShaped(text, m)
    ensures exists i :: 0 <= i < |Matches(text)| && Matches(text)[i].start <= m.start < Matches(text)[i].tail.end
  {
    FitFound(text, m);
    EngineAdvancing(text);
    var ms := Scan(text, Engine(text), 0);
    ScanCovers(text, Engine(text), 0, m.start);
    var i :| 0 <= i < |ms| && ms[i].start <= m.start < ms[i].tail.end;
    assert Matches(text) == ms;
  }

  /** The table is empty exactly when the pattern fits nowhere in the text. */
  lemma NoRowsIffNoFit(text: string)
    ensures ExtractTableData(text) == [] <==> forall m :: !WellShaped(text, m)
  {
    if ExtractTableData(text) == [] {
      forall m | WellShaped(text, m)
        ensures false
      {
        EveryFitCovered(text, m);
      }
    } else {
      MatchesSound(text);
      assert WellShaped(text, Matches(text)[0]);
    }
  }

  /** Text that is all white space, as a blank native text layer is, yields no rows. */
  lemma BlankTextHasNoRows(text: string)
    requires AllSpace(text)
    ensures ExtractTableData(text) == []
  {
    forall m | WellShaped(text, m)
      ensures false
    {
    }
    NoRowsIffNoFit(text);
  }
}
