/**
 * The statement-line pattern
 *
 *   (\d{2}-[A-Za-z]{3}-\d{4})\s+([TC])\s+(.+?)\s+([\d,]+\.\d{2})?\s+([\d,]+\.\d{2}Dr)?
 *
 * as a hand-written matcher. `WellShaped` is the language of the pattern: a
 * choice of positions that splits a piece of the text into the five groups
 * and the runs of white space between them. `MatchAt` is what a backtracking
 * engine returns when it tries the pattern at one position: the first split
 * in the engine's priority order (each greedy quantifier longest first, the
 * lazy description shortest first, an optional group taking part before it
 * is skipped).
 */
module RowPattern {
  import opened Wrappers
  import opened JsChars

  /** text[k] is white space. */
  predicate SpaceAt(text: string, k: nat)
    requires k < |text|
  {
    IsSpace(text[k])
  }

  /** text[k] is a digit or a comma. */
  predicate DigitOrCommaAt(text: string, k: nat)
    requires k < |text|
  {
    IsDigitOrComma(text[k])
  }

  /** `.` matches text[k]: it is not a line terminator. */
  predicate DotAt(text: string, k: nat)
    requires k < |text|
  {
    !IsLineTerminator(text[k])
  }

  /** Every character of text[i..j] is white space. */
  predicate SpaceIn(text: string, i: nat, j: nat)
    requires i <= j <= |text|
  {
    forall k :: i <= k < j ==> SpaceAt(text, k)
  }

  /** Every character of text[i..j] is a digit or a comma. */
  predicate DigitCommaIn(text: string, i: nat, j: nat)
    requires i <= j <= |text|
  {
    forall k :: i <= k < j ==> DigitOrCommaAt(text, k)
  }

  /** No character of text[i..j] is a line terminator, so `.` matches each of them. */
  predicate NoLineTerminatorIn(text: string, i: nat, j: nat)
    requires i <= j <= |text|
  {
    forall k :: i <= k < j ==> DotAt(text, k)
  }

  /** `\d{2}-[A-Za-z]{3}-\d{4}`, the date group, as a string. */
  predicate IsDate(s: string) {
    |s| == 11 &&
    IsDigit(s[0]) && IsDigit(s[1]) && s[2] == '-' &&
    IsAsciiLetter(s[3]) && IsAsciiLetter(s[4]) && IsAsciiLetter(s[5]) && s[6] == '-' &&
    IsDigit(s[7]) && IsDigit(s[8]) && IsDigit(s[9]) && IsDigit(s[10])
  }

  /** `[TC]`, the type group. */
  predicate IsTypeCode(c: char) {
    c == 'T' || c == 'C'
  }

  /** `[\d,]+\.\d{2}`, the amount group, as a string. */
  predicate IsAmount(s: string) {
    |s| >= 4 &&
    (forall k :: 0 <= k < |s| - 3 ==> IsDigitOrComma(s[k])) &&
    s[|s| - 3] == '.' && IsDigit(s[|s| - 2]) && IsDigit(s[|s| - 1])
  }

  /** `[\d,]+\.\d{2}Dr`, the Dr amount group, as a string. */
  predicate IsDrAmount(s: string) {
    |s| >= 6 && IsAmount(s[..|s| - 2]) && s[|s| - 2] == 'D' && s[|s| - 1] == 'r'
  }

  /** A date, `IsDate`, is text[p..p + 11]. */
  predicate DateAt(text: string, p: nat) {
    p + 11 <= |text| &&
    IsDigit(text[p]) && IsDigit(text[p + 1]) && text[p + 2] == '-' &&
    IsAsciiLetter(text[p + 3]) && IsAsciiLetter(text[p + 4]) && IsAsciiLetter(text[p + 5]) &&
    text[p + 6] == '-' &&
    IsDigit(text[p + 7]) && IsDigit(text[p + 8]) && IsDigit(text[p + 9]) && IsDigit(text[p + 10])
  }

  /** An amount, `IsAmount`, is text[a..b]. */
  predicate AmountIn(text: string, a: nat, b: nat) {
    a + 4 <= b <= |text| && DigitCommaIn(text, a, b - 3) &&
    text[b - 3] == '.' && IsDigit(text[b - 2]) && IsDigit(text[b - 1])
  }

  /** A Dr amount, `IsDrAmount`, is text[a..b]. */
  predicate DrAmountIn(text: string, a: nat, b: nat) {
    a + 6 <= b <= |text| && AmountIn(text, a, b - 2) && text[b - 2] == 'D' && text[b - 1] == 'r'
  }

  /**
   * Where the part after the description lies. The amount group is
   * text[amountFrom..amountTo] and did not take part when the two are equal;
   * the Dr amount group is text[drFrom..end] and did not take part when the
   * two are equal.
   */
  datatype Tail = Tail(amountFrom: nat, amountTo: nat, drFrom: nat, end: nat)

  /**
   * One match: the date starts at `start`, the type letter is text[typeAt],
   * the description is text[descFrom..descTo], the rest is `tail`, and the
   * whole match is text[start..tail.end].
   */
  datatype Match = Match(start: nat, typeAt: nat, descFrom: nat, descTo: nat, tail: Tail)

  /** `\s+([\d,]+\.\d{2})?\s+([\d,]+\.\d{2}Dr)?` splits text[q..t.end] as `t` says. */
  predicate TailShaped(text: string, q: nat, t: Tail) {
    q < t.amountFrom <= t.amountTo < t.drFrom <= t.end <= |text| &&
    SpaceIn(text, q, t.amountFrom) &&
    (t.amountFrom == t.amountTo || AmountIn(text, t.amountFrom, t.amountTo)) &&
    SpaceIn(text, t.amountTo, t.drFrom) &&
    (t.drFrom == t.end || DrAmountIn(text, t.drFrom, t.end))
  }

  /** The whole pattern splits text[m.start..m.tail.end] as `m` says. */
  predicate WellShaped(text: string, m: Match) {
    m.start + 11 < m.typeAt && m.typeAt + 1 < m.descFrom < m.descTo &&
    TailShaped(text, m.descTo, m.tail) &&
    DateAt(text, m.start) &&
    SpaceIn(text, m.start + 11, m.typeAt) &&
    IsTypeCode(text[m.typeAt]) &&
    SpaceIn(text, m.typeAt + 1, m.descFrom) &&
    NoLineTerminatorIn(text, m.descFrom, m.descTo)
  }

  /** The length of the longest run of white space starting at i (what a greedy `\s*` takes). */
  function SpaceRun(text: string, i: nat): (n: nat)
    requires i <= |text|
    ensures i + n <= |text| && SpaceIn(text, i, i + n)
    ensures i + n == |text| || !SpaceAt(text, i + n)
    decreases |text| - i
  {
    if i < |text| && SpaceAt(text, i) then 1 + SpaceRun(text, i + 1) else 0
  }

  /** The length of the longest run of digits and commas starting at i. */
  function DigitCommaRun(text: string, i: nat): (n: nat)
    requires i <= |text|
    ensures i + n <= |text| && DigitCommaIn(text, i, i + n)
    ensures i + n == |text| || !DigitOrCommaAt(text, i + n)
    decreases |text| - i
  {
    if i < |text| && DigitOrCommaAt(text, i) then 1 + DigitCommaRun(text, i + 1) else 0
  }

  /** A run that is all white space and cannot be extended is the longest one. */
  lemma SpaceRunIs(text: string, i: nat, n: nat)
    requires i + n <= |text| && SpaceIn(text, i, i + n)
    requires i + n == |text| || !SpaceAt(text, i + n)
    ensures SpaceRun(text, i) == n
  {
  }

  /** A run of digits and commas that cannot be extended is the longest one. */
  lemma DigitCommaRunIs(text: string, i: nat, n: nat)
    requires i + n <= |text| && DigitCommaIn(text, i, i + n)
    requires i + n == |text| || !DigitOrCommaAt(text, i + n)
    ensures DigitCommaRun(text, i) == n
  {
  }

  /**
   * The length of the amount group matched at k, if any. `[\d,]+` is greedy
   * over a class without '.', so only its longest run can be followed by the
   * point and the engine never needs a shorter one.
   */
  function AmountAt(text: string, k: nat): (r: Option<nat>)
    requires k <= |text|
    ensures r.Some? ==> AmountIn(text, k, k + r.value)
  {
    var d := DigitCommaRun(text, k);
    if 0 < d && k + d + 3 <= |text| && text[k + d] == '.' && IsDigit(text[k + d + 1]) && IsDigit(text[k + d + 2])
    then Some(d + 3)
    else None
  }

  /** An amount at k is the one `AmountAt` finds: the group has one way to match. */
  lemma AmountAtComplete(text: string, k: nat, n: nat)
    requires AmountIn(text, k, k + n)
    ensures AmountAt(text, k) == Some(n)
  {
    assert !DigitOrCommaAt(text, k + n - 3);
    DigitCommaRunIs(text, k, n - 3);
  }

  /** The length of the Dr amount group matched at k, if any. */
  function DrAmountAt(text: string, k: nat): (r: Option<nat>)
    requires k <= |text|
    ensures r.Some? ==> DrAmountIn(text, k, k + r.value)
  {
    match AmountAt(text, k)
    case Some(n) =>
      if k + n + 2 <= |text| && text[k + n] == 'D' && text[k + n + 1] == 'r' then Some(n + 2) else None
    case None => None
  }

  /** A Dr amount at k is the one `DrAmountAt` finds. */
  lemma DrAmountAtComplete(text: string, k: nat, n: nat)
    requires DrAmountIn(text, k, k + n)
    ensures DrAmountAt(text, k) == Some(n)
  {
    AmountAtComplete(text, k, n - 2);
  }

  /** Where the optional Dr amount group ends when the engine tries it at k. */
  function DrEnd(text: string, k: nat): (e: nat)
    requires k <= |text|
    ensures k <= e <= |text|
    ensures e == k || DrAmountIn(text, k, e)
  {
    match DrAmountAt(text, k)
    case Some(n) => k + n
    case None => k
  }

  /**
   * `\s+([\d,]+\.\d{2})?\s+([\d,]+\.\d{2}Dr)?` tried at q. With w the longest
   * run of white space at q, the engine first lets the first `\s+` take all
   * of it and the amount group match right after, which works when white
   * space follows the amount. Failing that, the amount group is skipped; the
   * second `\s+` then needs white space of its own, so the first one gives
   * back its last character, which needs w >= 2. The trailing `(...Dr)?`
   * always succeeds, with the Dr amount when there is one.
   */
  function TailAt(text: string, q: nat): (r: Option<Tail>)
    requires q <= |text|
    ensures r.Some? ==> TailShaped(text, q, r.value)
  {
    var w := SpaceRun(text, q);
    var k := q + w;
    var amount := AmountAt(text, k);
    if w == 0 then None
    else if amount.Some? && SpaceRun(text, k + amount.value) > 0 then
      var drFrom := k + amount.value + SpaceRun(text, k + amount.value);
      Some(Tail(k, k + amount.value, drFrom, DrEnd(text, drFrom)))
    else if w >= 2 then
      Some(Tail(k - 1, k - 1, k, DrEnd(text, k)))
    else None
  }

  /** Some space run covers text[i..j] only if the longest run at i reaches j. */
  lemma SpaceRunCovers(text: string, i: nat, j: nat)
    requires i <= j <= |text| && SpaceIn(text, i, j)
    ensures i + SpaceRun(text, i) >= j
  {
  }

  /**
   * Whenever the tail of the pattern fits at q, the engine finds a tail
   * there, and one with an amount when the fitting one has an amount.
   * When the fitting tail has a Dr amount, the engine's tail has the same
   * Dr amount and takes the amount group exactly when the fitting one does:
   * the second `\s+` is greedy, and it cannot stop before a Dr amount.
   */
  lemma TailAtComplete(text: string, q: nat, t: Tail)
    requires TailShaped(text, q, t)
    ensures TailAt(text, q).Some?
    ensures t.amountFrom < t.amountTo ==> TailAt(text, q).value.amountFrom < TailAt(text, q).value.amountTo
    ensures t.drFrom < t.end ==>
              TailAt(text, q).value.drFrom == t.drFrom && TailAt(text, q).value.end == t.end &&
              (TailAt(text, q).value.amountFrom < TailAt(text, q).value.amountTo <==> t.amountFrom < t.amountTo)
    ensures (TailAt(text, q).value.amountFrom < TailAt(text, q).value.amountTo <==> t.amountFrom < t.amountTo) ==>
              t.drFrom <= TailAt(text, q).value.drFrom
  {
    TailWithoutDr(text, q, t);
    if TailAt(text, q).value.amountFrom < TailAt(text, q).value.amountTo <==> t.amountFrom < t.amountTo {
      TailDrFromBound(text, q, t);
    }
    if t.drFrom < t.end {
      if t.amountFrom < t.amountTo {
        TailDrAfterAmount(text, q, t);
      } else {
        TailDrWithoutAmount(text, q, t);
      }
    }
  }

  /** The first two clauses of `TailAtComplete`: the engine finds a tail, with an amount when the fit has one. */
  lemma TailWithoutDr(text: string, q: nat, t: Tail)
    requires TailShaped(text, q, t)
    ensures TailAt(text, q).Some?
    ensures t.amountFrom < t.amountTo ==> TailAt(text, q).value.amountFrom < TailAt(text, q).value.amountTo
  {
    var w := SpaceRun(text, q);
    assert SpaceAt(text, q);
    if t.amountFrom < t.amountTo {
      assert DigitOrCommaAt(text, t.amountFrom);
      SpaceRunIs(text, q, t.amountFrom - q);
      AmountAtComplete(text, t.amountFrom, t.amountTo - t.amountFrom);
      assert SpaceAt(text, t.amountTo);
    } else {
      assert SpaceIn(text, q, t.drFrom);
      SpaceRunCovers(text, q, t.drFrom);
    }
  }

  /**
   * With the same choice about the amount group, the engine's Dr amount
   * group starts no earlier than a fitting one: the `\s+` before it is
   * greedy.
   */
  lemma TailDrFromBound(text: string, q: nat, t: Tail)
    requires TailShaped(text, q, t) && TailAt(text, q).Some?
    requires TailAt(text, q).value.amountFrom < TailAt(text, q).value.amountTo <==> t.amountFrom < t.amountTo
    ensures t.drFrom <= TailAt(text, q).value.drFrom
  {
    if t.amountFrom < t.amountTo {
      DrFromAfterAmount(text, q, t);
    } else {
      DrFromWithoutAmount(text, q, t);
    }
  }

  /** `TailDrFromBound` when both take the amount group. */
  lemma DrFromAfterAmount(text: string, q: nat, t: Tail)
    requires TailShaped(text, q, t) && TailAt(text, q).Some? && t.amountFrom < t.amountTo
    ensures t.drFrom <= TailAt(text, q).value.drFrom
  {
    assert DigitOrCommaAt(text, t.amountFrom);
    SpaceRunIs(text, q, t.amountFrom - q);
    AmountAtComplete(text, t.amountFrom, t.amountTo - t.amountFrom);
    SpaceRunCovers(text, t.amountTo, t.drFrom);
  }

  /** `TailDrFromBound` when neither takes the amount group. */
  lemma DrFromWithoutAmount(text: string, q: nat, t: Tail)
    requires TailShaped(text, q, t) && TailAt(text, q).Some? && t.amountFrom == t.amountTo
    requires TailAt(text, q).value.amountFrom == TailAt(text, q).value.amountTo
    ensures t.drFrom <= TailAt(text, q).value.drFrom
  {
    assert SpaceIn(text, q, t.drFrom) by {
      forall k | q <= k < t.drFrom ensures SpaceAt(text, k) {
        if k < t.amountFrom {} else {}
      }
    }
    SpaceRunCovers(text, q, t.drFrom);
  }

  /** A fitting tail with an amount and a Dr amount is the engine's tail. */
  lemma TailDrAfterAmount(text: string, q: nat, t: Tail)
    requires TailShaped(text, q, t) && t.amountFrom < t.amountTo && t.drFrom < t.end
    ensures TailAt(text, q) == Some(t)
  {
    assert DigitOrCommaAt(text, t.amountFrom);
    SpaceRunIs(text, q, t.amountFrom - q);
    AmountAtComplete(text, t.amountFrom, t.amountTo - t.amountFrom);
    assert DigitOrCommaAt(text, t.drFrom);
    SpaceRunIs(text, t.amountTo, t.drFrom - t.amountTo);
    DrEndGreedy(text, t.drFrom, t.end);
  }

  /**
   * A fitting tail with no amount but a Dr amount: the white space runs
   * unbroken from q to the Dr amount, whose own amount is followed by "Dr"
   * and not by white space, so the engine skips the amount group too and
   * takes the Dr amount.
   */
  lemma TailDrWithoutAmount(text: string, q: nat, t: Tail)
    requires TailShaped(text, q, t) && t.amountFrom == t.amountTo && t.drFrom < t.end
    ensures TailAt(text, q) == Some(Tail(t.drFrom - 1, t.drFrom - 1, t.drFrom, t.end))
  {
    assert SpaceIn(text, q, t.drFrom) by {
      forall k | q <= k < t.drFrom ensures SpaceAt(text, k) {
        if k < t.amountFrom {} else {}
      }
    }
    assert DigitOrCommaAt(text, t.drFrom);
    SpaceRunIs(text, q, t.drFrom - q);
    AmountAtComplete(text, t.drFrom, t.end - 2 - t.drFrom);
    assert !SpaceAt(text, t.end - 2);
    DrEndGreedy(text, t.drFrom, t.end);
  }

  /** The positions at which the part of the pattern after the description matches. */
  function TailFits(text: string): (fits: nat -> bool) {
    (e: nat) => e <= |text| && TailAt(text, e).Some?
  }

  /**
   * The lazy `(.+?)` begun at ds, with the ends before q already tried: the
   * first end e >= q such that text[ds..e] holds no line terminator and the
   * rest of the pattern fits at e.
   */
  function LazyEnd(text: string, ds: nat, q: nat, fits: nat -> bool): (r: Option<nat>)
    requires ds < q <= |text| && NoLineTerminatorIn(text, ds, q - 1)
    ensures r.Some? ==> q <= r.value <= |text| && NoLineTerminatorIn(text, ds, r.value) && fits(r.value)
    ensures r.Some? ==> forall e :: q <= e < r.value ==> !fits(e)
    decreases |text| - q
  {
    if !DotAt(text, q - 1) then None
    else if fits(q) then Some(q)
    else if q == |text| then None
    else LazyEnd(text, ds, q + 1, fits)
  }

  /** If some end e >= q works for the description, the lazy search finds one no later than e. */
  lemma {:induction false} LazyEndComplete(text: string, ds: nat, q: nat, e: nat, fits: nat -> bool)
    requires ds < q <= e <= |text| && NoLineTerminatorIn(text, ds, e) && fits(e)
    ensures LazyEnd(text, ds, q, fits).Some? && LazyEnd(text, ds, q, fits).value <= e
    decreases e - q
  {
    assert DotAt(text, q - 1);
    if !fits(q) {
      LazyEndComplete(text, ds, q + 1, e, fits);
    }
  }

  /**
   * `\s+(.+?)` after the type letter, with t just past the letter and the
   * first v characters from t white space: the greedy `\s+` takes v, then
   * v - 1, ... down to one, and the description is searched after each.
   * The result is (descFrom, descTo).
   */
  function SpacedDescription(text: string, t: nat, v: nat, fits: nat -> bool): (r: Option<(nat, nat)>)
    requires t + v <= |text| && SpaceIn(text, t, t + v)
    ensures r.Some? ==> t < r.value.0 <= t + v && r.value.0 < r.value.1 <= |text|
    ensures r.Some? ==> SpaceIn(text, t, r.value.0) && NoLineTerminatorIn(text, r.value.0, r.value.1)
    ensures r.Some? ==> fits(r.value.1)
    decreases v
  {
    if v == 0 then None
    else
      var found := if t + v < |text| then LazyEnd(text, t + v, t + v + 1, fits) else None;
      match found
      case Some(descTo) => Some((t + v, descTo))
      case None => SpacedDescription(text, t, v - 1, fits)
  }

  /**
   * If a description can start at ds and end at e, the engine's choice
   * starts no earlier than ds, and ends no later than e when it starts at ds.
   */
  lemma {:induction false} SpacedDescriptionComplete(text: string, t: nat, v: nat, ds: nat, e: nat, fits: nat -> bool)
    requires t + v <= |text| && SpaceIn(text, t, t + v)
    requires t < ds <= t + v && ds < e <= |text| && NoLineTerminatorIn(text, ds, e) && fits(e)
    ensures SpacedDescription(text, t, v, fits).Some?
    ensures ds <= SpacedDescription(text, t, v, fits).value.0
    ensures ds == SpacedDescription(text, t, v, fits).value.0 ==> SpacedDescription(text, t, v, fits).value.1 <= e
    decreases v
  {
    if ds == t + v {
      LazyEndComplete(text, ds, ds + 1, e, fits);
    } else if t + v < |text| && LazyEnd(text, t + v, t + v + 1, fits).Some? {
    } else {
      SpacedDescriptionComplete(text, t, v - 1, ds, e, fits);
    }
  }

  /**
   * The pattern tried at position p: the engine's first match starting at
   * p, if there is one.
   */
  function MatchAt(text: string, p: nat): (r: Option<Match>)
    requires p <= |text|
    ensures r.Some? ==> r.value.start == p && WellShaped(text, r.value)
  {
    match TypeAt(text, p)
    case Some(typeAt) =>
      MatchTypedShaped(text, p, typeAt);
      MatchTyped(text, p, typeAt)
    case None => None
  }

  /** The date at p, then the greedy `\s+` and the type letter: where the letter is. */
  function TypeAt(text: string, p: nat): (r: Option<nat>)
    requires p <= |text|
    ensures r.Some? ==> p + 11 < r.value < |text| && DateAt(text, p) && IsTypeCode(text[r.value]) && SpaceIn(text, p + 11, r.value)
  {
    if DateAt(text, p) then
      var typeAt := p + 11 + SpaceRun(text, p + 11);
      if typeAt > p + 11 && typeAt < |text| && IsTypeCode(text[typeAt]) then Some(typeAt)
      else None
    else None
  }

  /** The rest of the pattern once the type letter is found at typeAt: the description, then the tail. */
  function MatchTyped(text: string, p: nat, typeAt: nat): (r: Option<Match>)
    requires p <= |text| && TypeAt(text, p) == Some(typeAt)
    ensures r.Some? ==> r.value.start == p && r.value.typeAt == typeAt
  {
    match SpacedDescription(text, typeAt + 1, SpaceRun(text, typeAt + 1), TailFits(text))
    case Some((descFrom, descTo)) => Some(Match(p, typeAt, descFrom, descTo, TailAt(text, descTo).value))
    case None => None
  }

  /** What the description search and the tail find fits the pattern. */
  lemma MatchTypedShaped(text: string, p: nat, typeAt: nat)
    requires p <= |text| && TypeAt(text, p) == Some(typeAt)
    ensures MatchTyped(text, p, typeAt).Some? ==> WellShaped(text, MatchTyped(text, p, typeAt).value)
  {
  }

  /**
   * Completeness and priority: wherever the pattern fits, the engine
   * matches at that start. Its match puts the type letter at the same
   * place; its description starts no earlier (the `\s+` before it is
   * greedy) and, starting at the same place, ends no later (it is lazy);
   * with the same description it has an amount when the fitting split has
   * one (the optional group is greedy); and when the fitting split has a
   * Dr amount, the engine's match with the same description has the same
   * Dr amount and the same choice about the amount group.
   */
  lemma MatchAtComplete(text: string, m: Match)
    requires WellShaped(text, m)
    ensures MatchAt(text, m.start).Some?
    ensures MatchAt(text, m.start).value.typeAt == m.typeAt
    ensures m.descFrom <= MatchAt(text, m.start).value.descFrom
    ensures m.descFrom == MatchAt(text, m.start).value.descFrom ==> MatchAt(text, m.start).value.descTo <= m.descTo
    ensures m.descTo == MatchAt(text, m.start).value.descTo && m.tail.amountFrom < m.tail.amountTo ==>
              MatchAt(text, m.start).value.tail.amountFrom < MatchAt(text, m.start).value.tail.amountTo
    ensures m.descTo == MatchAt(text, m.start).value.descTo && m.tail.drFrom < m.tail.end ==>
              MatchAt(text, m.start).value.tail.drFrom == m.tail.drFrom && MatchAt(text, m.start).value.tail.end == m.tail.end &&
              (MatchAt(text, m.start).value.tail.amountFrom < MatchAt(text, m.start).value.tail.amountTo <==>
               m.tail.amountFrom < m.tail.amountTo)
    ensures m.descTo == MatchAt(text, m.start).value.descTo &&
            (MatchAt(text, m.start).value.tail.amountFrom < MatchAt(text, m.start).value.tail.amountTo <==>
             m.tail.amountFrom < m.tail.amountTo) ==>
              m.tail.drFrom <= MatchAt(text, m.start).value.tail.drFrom
  {
    var p := m.start;
    SpaceRunIs(text, p + 11, m.typeAt - p - 11);
    TypeAtFound(text, p, m.typeAt);
    MatchAtTyped(text, p, m.typeAt);
    TailAtComplete(text, m.descTo, m.tail);
    MatchTypedComplete(text, p, m.typeAt, m.descFrom, m.descTo);
    MatchAtTail(text, p);
  }

  /** `MatchAtComplete`, once the type letter has been found where the fitting split has it. */
  lemma MatchTypedComplete(text: string, p: nat, typeAt: nat, ds: nat, e: nat)
    requires p <= |text| && TypeAt(text, p) == Some(typeAt)
    requires typeAt + 1 < ds < e <= |text| && SpaceIn(text, typeAt + 1, ds) && NoLineTerminatorIn(text, ds, e)
    requires TailAt(text, e).Some?
    ensures var r := MatchTyped(text, p, typeAt);
            r.Some? && ds <= r.value.descFrom && (ds == r.value.descFrom ==> r.value.descTo <= e)
  {
    var fits := TailFits(text);
    assert fits(e);
    DescriptionFound(text, typeAt, ds, e, fits);
    MatchTypedFound(text, p, typeAt);
  }

  /**
   * The description search after the type letter text[typeAt]: when a
   * description can start at ds and end at e, it finds one that starts no
   * earlier and, starting at ds, ends no later.
   */
  lemma DescriptionFound(text: string, typeAt: nat, ds: nat, e: nat, fits: nat -> bool)
    requires typeAt + 1 < ds < e <= |text| && SpaceIn(text, typeAt + 1, ds) && NoLineTerminatorIn(text, ds, e) && fits(e)
    ensures var r := SpacedDescription(text, typeAt + 1, SpaceRun(text, typeAt + 1), fits);
            r.Some? && ds <= r.value.0 && (ds == r.value.0 ==> r.value.1 <= e)
  {
    SpaceRunCovers(text, typeAt + 1, ds);
    SpacedDescriptionComplete(text, typeAt + 1, SpaceRun(text, typeAt + 1), ds, e, fits);
  }

  /** The Dr amount group is greedy: it takes part wherever it can match. */
  lemma DrEndGreedy(text: string, k: nat, e: nat)
    requires DrAmountIn(text, k, e)
    ensures DrEnd(text, k) == e
  {
    DrAmountAtComplete(text, k, e - k);
  }

  /** The tail a match ends with is the one `TailAt` finds after its description. */
  lemma MatchAtTail(text: string, p: nat)
    requires p <= |text| && MatchAt(text, p).Some?
    ensures MatchAt(text, p).value.tail == TailAt(text, MatchAt(text, p).value.descTo).value
  {
    var typeAt := TypeAt(text, p).value;
    MatchAtTyped(text, p, typeAt);
  }

  /**
   * Once the engine has placed the Dr amount group of a match, the group
   * takes part whenever a Dr amount begins there.
   */
  lemma MatchAtTakesDr(text: string, p: nat, e: nat)
    requires p <= |text| && MatchAt(text, p).Some?
    requires DrAmountIn(text, MatchAt(text, p).value.tail.drFrom, e)
    ensures MatchAt(text, p).value.tail.end == e
  {
    MatchAtTail(text, p);
    var q := MatchAt(text, p).value.descTo;
    TailAtTakesDr(text, q, e);
  }

  /** A tail found by the engine ends after the longest Dr amount at its place, if there is one. */
  lemma TailAtTakesDr(text: string, q: nat, e: nat)
    requires q <= |text| && TailAt(text, q).Some?
    requires DrAmountIn(text, TailAt(text, q).value.drFrom, e)
    ensures TailAt(text, q).value.end == e
  {
    DrEndGreedy(text, TailAt(text, q).value.drFrom, e);
  }

  /** Where the type letter is found once the date and the spaces after it are. */
  lemma TypeAtFound(text: string, p: nat, typeAt: nat)
    requires p + 11 < typeAt < |text| && DateAt(text, p) && IsTypeCode(text[typeAt])
    requires p + 11 + SpaceRun(text, p + 11) == typeAt
    ensures TypeAt(text, p) == Some(typeAt)
  {
  }

  /** `MatchAt` continues from the type letter. */
  lemma MatchAtTyped(text: string, p: nat, typeAt: nat)
    requires p <= |text| && TypeAt(text, p) == Some(typeAt)
    ensures MatchAt(text, p) == MatchTyped(text, p, typeAt)
  {
  }

  /** How `MatchTyped` reads once the description is found. */
  lemma MatchTypedFound(text: string, p: nat, typeAt: nat)
    requires p <= |text| && TypeAt(text, p) == Some(typeAt)
    requires SpacedDescription(text, typeAt + 1, SpaceRun(text, typeAt + 1), TailFits(text)).Some?
    ensures var d := SpacedDescription(text, typeAt + 1, SpaceRun(text, typeAt + 1), TailFits(text)).value;
            MatchTyped(text, p, typeAt) == Some(Match(p, typeAt, d.0, d.1, TailAt(text, d.1).value))
  {
  }

  lemma DateAsString(text: string, p: nat)
    requires DateAt(text, p)
    ensures IsDate(text[p..p + 11])
  {
  }

  lemma AmountAsString(text: string, a: nat, b: nat)
    requires AmountIn(text, a, b)
    ensures IsAmount(text[a..b])
  {
    var s := text[a..b];
    forall k | 0 <= k < |s| - 3
      ensures IsDigitOrComma(s[k])
    {
      assert DigitOrCommaAt(text, a + k);
    }
  }

  lemma DescriptionAsString(text: string, a: nat, b: nat)
    requires a <= b <= |text| && NoLineTerminatorIn(text, a, b)
    ensures forall k :: 0 <= k < |text[a..b]| ==> !IsLineTerminator(text[a..b][k])
  {
    forall k | 0 <= k < b - a
      ensures !IsLineTerminator(text[a..b][k])
    {
      assert DotAt(text, a + k);
    }
  }

  lemma DrAmountAsString(text: string, a: nat, b: nat)
    requires DrAmountIn(text, a, b)
    ensures IsDrAmount(text[a..b])
  {
    AmountAsString(text, a, b - 2);
    assert text[a..b][..b - a - 2] == text[a..b - 2];
  }

  /** The groups of a well-shaped match spell the date and the amounts as the pattern shapes them. */
  lemma FieldsAsStrings(text: string, m: Match)
    requires WellShaped(text, m)
    ensures IsDate(text[m.start..m.start + 11])
    ensures m.tail.amountFrom < m.tail.amountTo ==> IsAmount(text[m.tail.amountFrom..m.tail.amountTo])
    ensures m.tail.drFrom < m.tail.end ==> IsDrAmount(text[m.tail.drFrom..m.tail.end])
    ensures forall k :: 0 <= k < |text[m.descFrom..m.descTo]| ==> !IsLineTerminator(text[m.descFrom..m.descTo][k])
  {
    DateAsString(text, m.start);
    DescriptionAsString(text, m.descFrom, m.descTo);
    if m.tail.amountFrom < m.tail.amountTo {
      AmountAsString(text, m.tail.amountFrom, m.tail.amountTo);
    }
    if m.tail.drFrom < m.tail.end {
      DrAmountAsString(text, m.tail.drFrom, m.tail.end);
    }
  }

  /** A field of a row: a capture group's text, or `None` for `undefined`. */
  type Field = Option<string>

  /** `match.slice(1)`: the five capture groups of a match, in order. */
  function Groups(text: string, m: Match): (row: seq<Field>)
    requires WellShaped(text, m)
    ensures WellFormedRow(row)
  {
    var row := [
      Some(text[m.start..m.start + 11]),
      Some([text[m.typeAt]]),
      Some(text[m.descFrom..m.descTo]),
      if m.tail.amountFrom == m.tail.amountTo then None else Some(text[m.tail.amountFrom..m.tail.amountTo]),
      if m.tail.drFrom == m.tail.end then None else Some(text[m.tail.drFrom..m.tail.end])
    ];
    FieldsAsStrings(text, m);
    row
  }

  /**
   * A row as the pattern shapes it: five fields Date, Type, Description,
   * Amount, Dr Amount; the first three always present, the last two
   * possibly `undefined`.
   */
  predicate WellFormedRow(row: seq<Field>) {
    |row| == 5 &&
    row[0].Some? && IsDate(row[0].value) &&
    (row[1] == Some("T") || row[1] == Some("C")) &&
    row[2].Some? && |row[2].value| > 0 &&
    (forall k :: 0 <= k < |row[2].value| ==> !IsLineTerminator(row[2].value[k])) &&
    (row[3].Some? ==> IsAmount(row[3].value)) &&
    (row[4].Some? ==> IsDrAmount(row[4].value))
  }
}
