/**
 * A worked line of a statement: the row the pattern reads from
 * `01-Jan-2023 T Grocery Purchase 1,234.56 100.00Dr`.
 */
module GroceryLine {
  import opened Wrappers
  import opened JsChars
  import opened RowPattern
  import opened TableExtraction

  /**
   * `01-Jan-2023 T Grocery Purchase 1,234.56 100.00Dr`, written piece by
   * piece as sequences of characters.
   */
  const Line: string :=
    ['0', '1', '-', 'J', 'a', 'n', '-', '2', '0', '2', '3'] +
    [' ', 'T', ' '] +
    ['G', 'r', 'o', 'c', 'e', 'r', 'y'] +
    [' '] +
    ['P', 'u', 'r', 'c', 'h', 'a', 's', 'e'] +
    [' '] +
    ['1', ',', '2', '3', '4', '.', '5', '6'] +
    [' '] +
    ['1', '0', '0', '.', '0', '0', 'D', 'r']

  /** The split of `Line` into the groups: date, type, description, amount, Dr amount. */
  const Split: Match := Match(0, 12, 14, 30, Tail(31, 39, 40, 48))

  lemma SplitIsWellShaped()
    ensures WellShaped(Line, Split)
  {
    TailOfSplit();
    assert DateAt(Line, 0);
    forall k | 14 <= k < 30 ensures DotAt(Line, k) {
      assert !IsLineTerminator(Line[k]);
    }
  }

  lemma TailOfSplit()
    ensures TailShaped(Line, 30, Split.tail)
  {
    assert |Line| == 48;
    forall k | 31 <= k < 36 ensures DigitOrCommaAt(Line, k) {
      if k == 31 {} else if k == 32 {} else if k == 33 {} else if k == 34 {} else {}
    }
    forall k | 40 <= k < 43 ensures DigitOrCommaAt(Line, k) {
      if k == 40 {} else if k == 41 {} else {}
    }
  }

  /** Only one place between "G" and the end of "Purchase" holds white space, and no tail fits there. */
  lemma NoEarlierTail(q: nat, t: Tail)
    requires 14 < q < 30
    ensures !TailShaped(Line, q, t)
  {
    if q == 21 {
      assert SpaceAt(Line, 21) && !SpaceAt(Line, 22);
      SpaceRunIs(Line, 21, 1);
      assert !DigitOrCommaAt(Line, 22);
      assert DigitCommaRun(Line, 22) == 0;
      assert AmountAt(Line, 22).None?;
      assert TailAt(Line, q).None?;
    } else {
      assert !SpaceAt(Line, q);
      assert SpaceRun(Line, q) == 0;
      assert TailAt(Line, q).None?;
    }
    if TailShaped(Line, q, t) {
      TailAtComplete(Line, q, t);
      assert false;
    }
  }

  /** The only description the engine can choose: it starts at "G" and ends after "Purchase". */
  lemma DescriptionOfLine(f: Match)
    requires WellShaped(Line, f) && f.typeAt == 12 && 14 <= f.descFrom
    requires f.descFrom == 14 ==> f.descTo <= 30
    ensures f.descFrom == 14 && f.descTo == 30
  {
    assert !SpaceAt(Line, 14);
    if f.descTo < 30 {
      NoEarlierTail(f.descTo, f.tail);
    }
  }

  /** The only tail with an amount after the description: the amount 1,234.56, then the Dr amount. */
  lemma TailOfLine(t: Tail)
    requires TailShaped(Line, 30, t) && t.amountFrom < t.amountTo
    ensures t.amountFrom == 31 && t.amountTo == 39 && t.drFrom == 40
  {
    assert !SpaceAt(Line, 31);
    TailOfSplit();
    AmountAtComplete(Line, 31, 8);
    AmountAtComplete(Line, 31, t.amountTo - 31);
    assert !SpaceAt(Line, 40);
  }

  /** The engine, tried at the start of `Line`, splits it as `Split` says. */
  lemma MatchAtLine()
    ensures MatchAt(Line, 0) == Some(Split)
  {
    SplitIsWellShaped();
    MatchAtComplete(Line, Split);
    var f := MatchAt(Line, 0).value;
    DescriptionOfLine(f);
    TailOfLine(f.tail);
    MatchAtTakesDr(Line, 0, 48);
  }

  /** `matchAll` finds exactly one match in `Line`. */
  lemma MatchesOfLine()
    ensures Matches(Line) == [Split]
  {
    EngineAdvancing(Line);
    MatchAtLine();
    assert MatchAt(Line, 48).None?;
    assert Scan(Line, Engine(Line), 48) == [];
  }

  /** The five groups of the match. */
  lemma GroupsOfSplit()
    ensures WellShaped(Line, Split)
    ensures Groups(Line, Split) == [Some("01-Jan-2023"), Some("T"), Some("Grocery Purchase"), Some("1,234.56"), Some("100.00Dr")]
  {
    SplitIsWellShaped();
    assert Line[0..11] == "01-Jan-2023";
    assert [Line[12]] == "T";
    assert Line[14..30] == "Grocery Purchase";
    assert Line[31..39] == "1,234.56";
    assert Line[40..48] == "100.00Dr";
  }

  /**
   * The table read from the line: one row
   * ["01-Jan-2023", "T", "Grocery Purchase", "1,234.56", "100.00Dr"].
   */
  lemma GroceryRow()
    ensures ExtractTableData(Line) ==
            [[Some("01-Jan-2023"), Some("T"), Some("Grocery Purchase"), Some("1,234.56"), Some("100.00Dr")]]
  {
    TableOfLine();
    GroupsOfSplit();
  }

  lemma TableOfLine()
    ensures WellShaped(Line, Split)
    ensures ExtractTableData(Line) == [Groups(Line, Split)]
  {
    SplitIsWellShaped();
    MatchesOfLine();
  }
}
