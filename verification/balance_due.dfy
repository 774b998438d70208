/**
 * The "Balance due" extractor: `BALANCE_DUE_REGEX.search` over the
 * normalised text of a document, then `money_to_float` on the captured
 * numeral.
 *
 * The pattern is stated declaratively by `MatchShape`: where each of its
 * parts starts and ends. `TryMatchAt` is a scanner that decides it at one
 * position, and `Search` tries positions left to right as `re.search` does.
 */
module BalanceDue {
  import opened Wrappers
  import opened Chars
  import opened Money
  import opened TextNormalizer

  /** `\b` at position `k`: a word character on exactly one side. */
  predicate IsWordBoundary(t: string, k: nat)
    requires k <= |t|
  {
    (0 < k && IsWordChar(t[k - 1])) != (k < |t| && IsWordChar(t[k]))
  }

  /** `t[lo..hi]` is whitespace only (`\s` repeated). */
  predicate AllSpace(t: string, lo: nat, hi: nat)
    requires lo <= hi <= |t|
  {
    forall k :: lo <= k < hi ==> IsSpace(t[k])
  }

  /** The lower-case word `lit` occurs at `j`, ignoring case. */
  predicate WordAt(t: string, j: nat, lit: string) {
    j + |lit| <= |t| && forall k :: 0 <= k < |lit| ==> Lower(t[j + k]) == lit[k]
  }

  /**
   * One way for `\bBalance\s+due\b\s*:\s*\$?\s*([0-9]...)` to match at `i`:
   * `\s+` ends at `p2`, `\s*` before the colon at `p4`, the `\s*` after it at
   * `p5`, the optional `$` at `p6`, the last `\s*` at `p7`, where group 1 starts.
   */
  ghost predicate MatchShape(t: string, i: int, p2: int, p4: int, p5: int, p6: int, p7: int) {
    && 0 <= i && i + 7 < p2 && p2 + 3 <= p4 < p5 <= p6 <= p7 < |t|
    && IsWordBoundary(t, i) && WordAt(t, i, "balance")
    && AllSpace(t, i + 7, p2)
    && WordAt(t, p2, "due") && IsWordBoundary(t, p2 + 3)
    && AllSpace(t, p2 + 3, p4) && t[p4] == ':'
    && AllSpace(t, p4 + 1, p5)
    && (p6 == p5 || (p6 == p5 + 1 && t[p5] == '$'))
    && AllSpace(t, p6, p7) && IsDigit(t[p7])
  }

  /** The pattern matches at `i` with its group starting at `p`. */
  ghost predicate CapturesAt(t: string, i: int, p: int) {
    exists p2, p4, p5, p6 :: MatchShape(t, i, p2, p4, p5, p6, p)
  }

  /** The pattern matches at `i`. */
  ghost predicate MatchesAt(t: string, i: int) {
    exists p :: CapturesAt(t, i, p)
  }

  /** `i` is where `re.search` finds its match: the leftmost position that matches. */
  ghost predicate FirstMatch(t: string, i: int) {
    MatchesAt(t, i) && forall j :: 0 <= j < i ==> !MatchesAt(t, j)
  }

  /** Group 1 of the match at `i` is `t[p..q]`: the numeral sub-pattern is greedy. */
  ghost predicate GroupSpan(t: string, i: int, p: int, q: int) {
    CapturesAt(t, i, p) && LongestNumeral(t, p, q)
  }

  // ---------------------------------------------------------------------------
  // The scanner

  /** The end of the run of whitespace that starts at `j`. */
  function SkipSpaces(t: string, j: nat): (k: nat)
    requires j <= |t|
    ensures j <= k <= |t| && AllSpace(t, j, k) && (k == |t| || !IsSpace(t[k]))
    decreases |t| - j
  {
    if j < |t| && IsSpace(t[j]) then SkipSpaces(t, j + 1) else j
  }

  /** `\bBalance\s+due\b\s*:` at `i`: where the colon is. */
  function LabelAt(t: string, i: nat): Option<nat> {
    if !(i + 7 <= |t| && IsWordBoundary(t, i) && WordAt(t, i, "balance")) then None
    else
      var p2 := SkipSpaces(t, i + 7);
      if p2 == i + 7 || !WordAt(t, p2, "due") || !IsWordBoundary(t, p2 + 3) then None
      else
        var p4 := SkipSpaces(t, p2 + 3);
        if p4 < |t| && t[p4] == ':' then Some(p4) else None
  }

  /** `\s*\$?\s*[0-9]` after the colon at `p4`: where the digit is. */
  function AmountAfter(t: string, p4: nat): Option<nat>
    requires p4 < |t|
  {
    var p5 := SkipSpaces(t, p4 + 1);
    var p6 := if p5 < |t| && t[p5] == '$' then p5 + 1 else p5;
    var p7 := SkipSpaces(t, p6);
    if p7 < |t| && IsDigit(t[p7]) then Some(p7) else None
  }

  /** Where group 1 starts if the pattern matches at `i`. */
  function TryMatchAt(t: string, i: nat): Option<nat> {
    match LabelAt(t, i)
    case None => None
    case Some(p4) => AmountAfter(t, p4)
  }

  /** A run of whitespace from `j` that stops at a non-space ends where `SkipSpaces` does. */
  lemma SkipSpacesUnique(t: string, j: nat, k: nat)
    requires j <= k <= |t| && AllSpace(t, j, k) && (k == |t| || !IsSpace(t[k]))
    ensures SkipSpaces(t, j) == k
  {
  }

  /** What the scanner finds is a match of the pattern. */
  lemma TryMatchAtSound(t: string, i: nat)
    requires TryMatchAt(t, i).Some?
    ensures CapturesAt(t, i, TryMatchAt(t, i).value)
  {
    var p2 := SkipSpaces(t, i + 7);
    var p4 := LabelAt(t, i).value;
    LabelAtSound(t, i);
    var p5 := SkipSpaces(t, p4 + 1);
    var p6 := if p5 < |t| && t[p5] == '$' then p5 + 1 else p5;
    var p7 := SkipSpaces(t, p6);
    AmountAfterSound(t, p4);
    assert MatchShape(t, i, p2, p4, p5, p6, p7);
  }

  /** The label the scanner finds: `Balance`, whitespace, `due` and the colon, as the pattern has them. */
  lemma LabelAtSound(t: string, i: nat)
    requires LabelAt(t, i).Some?
    ensures var p2, p4 := SkipSpaces(t, i + 7), LabelAt(t, i).value;
      && i + 7 < p2 && p2 + 3 <= p4 < |t|
      && IsWordBoundary(t, i) && WordAt(t, i, "balance") && AllSpace(t, i + 7, p2)
      && WordAt(t, p2, "due") && IsWordBoundary(t, p2 + 3)
      && AllSpace(t, p2 + 3, p4) && t[p4] == ':'
  {
  }

  /** The amount the scanner finds after the colon: whitespace, an optional `$`, whitespace and a digit. */
  lemma AmountAfterSound(t: string, p4: nat)
    requires p4 < |t| && AmountAfter(t, p4).Some?
    ensures var p5 := SkipSpaces(t, p4 + 1);
      var p6 := if p5 < |t| && t[p5] == '$' then p5 + 1 else p5;
      var p7 := AmountAfter(t, p4).value;
      && p4 < p5 <= p6 <= p7 < |t| && (p6 == p5 || (p6 == p5 + 1 && t[p5] == '$'))
      && AllSpace(t, p4 + 1, p5) && AllSpace(t, p6, p7) && IsDigit(t[p7])
  {
  }

  /** The label part of any match is where the scanner finds it. */
  lemma LabelAtComplete(t: string, i: int, p2: int, p4: int, p5: int, p6: int, p7: int)
    requires MatchShape(t, i, p2, p4, p5, p6, p7)
    ensures LabelAt(t, i) == Some(p4)
  {
    assert !IsSpace(t[p2]) by {
      var lit := "due";
      assert Lower(t[p2 + 0]) == lit[0] == 'd';
    }
    SkipSpacesUnique(t, i + 7, p2);
    SkipSpacesUnique(t, p2 + 3, p4);
  }

  /** The amount part of any match is where the scanner finds it. */
  lemma AmountAfterComplete(t: string, i: int, p2: int, p4: int, p5: int, p6: int, p7: int)
    requires MatchShape(t, i, p2, p4, p5, p6, p7)
    ensures AmountAfter(t, p4) == Some(p7)
  {
    if p6 == p5 + 1 {
      // the dollar sign ends the first run of whitespace after the colon
      SkipSpacesUnique(t, p4 + 1, p5);
      SkipSpacesUnique(t, p6, p7);
    } else {
      // no dollar sign: the whitespace after the colon runs on to the digit
      assert AllSpace(t, p4 + 1, p7);
      SkipSpacesUnique(t, p4 + 1, p7);
      SkipSpacesUnique(t, p7, p7);
    }
  }

  /** Every way the pattern can match at `i` puts group 1 where the scanner finds it. */
  lemma TryMatchAtComplete(t: string, i: int, p2: int, p4: int, p5: int, p6: int, p7: int)
    requires MatchShape(t, i, p2, p4, p5, p6, p7)
    ensures TryMatchAt(t, i) == Some(p7)
  {
    LabelAtComplete(t, i, p2, p4, p5, p6, p7);
    AmountAfterComplete(t, i, p2, p4, p5, p6, p7);
  }

  /** The scanner finds a group exactly when the pattern matches at `i`, and the group start is unique. */
  lemma TryMatchAtCorrect(t: string, i: nat)
    ensures TryMatchAt(t, i).Some? <==> MatchesAt(t, i)
    ensures forall p :: CapturesAt(t, i, p) <==> TryMatchAt(t, i) == Some(p)
  {
    if TryMatchAt(t, i).Some? {
      TryMatchAtSound(t, i);
    }
    forall p | CapturesAt(t, i, p)
      ensures TryMatchAt(t, i) == Some(p)
    {
      var p2, p4, p5, p6 :| MatchShape(t, i, p2, p4, p5, p6, p);
      TryMatchAtComplete(t, i, p2, p4, p5, p6, p);
    }
  }

  /** Group 1 of a match is determined by where the match starts. */
  lemma GroupSpanUnique(t: string, i: int, p: int, q: int, p': int, q': int)
    requires GroupSpan(t, i, p, q) && GroupSpan(t, i, p', q')
    ensures p == p' && q == q'
  {
    TryMatchAtCorrect(t, i);
  }

  /** There is at most one leftmost match. */
  lemma FirstMatchUnique(t: string, i: int, j: int)
    requires FirstMatch(t, i) && FirstMatch(t, j)
    ensures i == j
  {
    var p :| CapturesAt(t, i, p);
    var p2, p4, p5, p6 :| MatchShape(t, i, p2, p4, p5, p6, p);
    var p' :| CapturesAt(t, j, p');
    var p2', p4', p5', p6' :| MatchShape(t, j, p2', p4', p5', p6', p');
  }

  // ---------------------------------------------------------------------------
  // re.search

  /** A match: where it starts, and the span `numStart..numEnd` of group 1. */
  datatype Match = Match(start: nat, numStart: nat, numEnd: nat)

  /** `re.search` from position `from`: the leftmost match at or after `from`. */
  function Search(t: string, from: nat): (r: Option<Match>)
    ensures r.None? ==> forall i :: from <= i ==> !MatchesAt(t, i)
    ensures r.Some? ==> var m := r.value;
      && from <= m.start
      && GroupSpan(t, m.start, m.numStart, m.numEnd)
      && forall i :: from <= i < m.start ==> !MatchesAt(t, i)
    decreases |t| - from
  {
    if from >= |t| then
      assert forall i, p2, p4, p5, p6, p7 :: from <= i ==> !MatchShape(t, i, p2, p4, p5, p6, p7);
      None
    else
      TryMatchAtCorrect(t, from);
      match TryMatchAt(t, from)
      case Some(p) =>
        NumeralEndLongest(t, p);
        Some(Match(from, p, NumeralEnd(t, p)))
      case None =>
        Search(t, from + 1)
  }

  /** The extractor on a normalised text: the amount after the first "Balance due", if any. */
  function ExtractFromText(t: string): (r: Option<nat>)
    ensures r.None? <==> forall i :: !MatchesAt(t, i)
    ensures r.Some? ==>
      exists i, p, q :: FirstMatch(t, i) && GroupSpan(t, i, p, q) && r.value == MoneyToCents(t[p..q])
  {
    match Search(t, 0)
    case None => None
    case Some(m) =>
      assert FirstMatch(t, m.start);
      Some(MoneyToCents(t[m.numStart..m.numEnd]))
  }

  /** Conversely, the leftmost match and its group determine the amount. */
  lemma ExtractFromFirstMatch(t: string, i: int, p: int, q: int)
    requires FirstMatch(t, i) && GroupSpan(t, i, p, q)
    ensures ExtractFromText(t) == Some(MoneyToCents(t[p..q]))
  {
    var x := ExtractFromText(t);
    var i', p', q' :| FirstMatch(t, i') && GroupSpan(t, i', p', q') && x.value == MoneyToCents(t[p'..q']);
    FirstMatchUnique(t, i, i');
    GroupSpanUnique(t, i, p, q, p', q');
  }

  /** `extract_balance_due_from_bytes`, given the text of each page of the document. */
  function BalanceDueOf(pages: seq<string>): Option<nat> {
    ExtractFromText(Normalize(pages))
  }

  /**
   * `extract_balance_due_from_bytes` as the source runs it: collect the page
   * texts one by one, normalise, search, convert.
   */
  method ExtractBalanceDue(pages: seq<string>) returns (amount: Option<nat>)
    ensures amount == BalanceDueOf(pages)
  {
    var textParts: seq<string> := [];
    for k := 0 to |pages|
      invariant textParts == pages[..k]
    {
      textParts := textParts + [pages[k]];
    }
    assert textParts == pages;
    var text := Normalize(textParts);
    var m := Search(text, 0);
    if m.None? {
      return None;
    }
    amount := Some(MoneyToCents(text[m.value.numStart..m.value.numEnd]));
  }

  /** Only the whitespace-separated words of the pages matter, not how they are laid out or split into pages. */
  lemma BalanceDueLayoutFree(pages: seq<string>, pages': seq<string>)
    requires SplitPages(pages) == SplitPages(pages')
    ensures BalanceDueOf(pages) == BalanceDueOf(pages')
  {
    SplitJoinPages(pages);
    SplitJoinPages(pages');
  }

  /** Extracting from the normalised text as a single page gives the same amount. */
  lemma BalanceDueRenormalized(pages: seq<string>)
    ensures BalanceDueOf([Normalize(pages)]) == BalanceDueOf(pages)
  {
    NormalizeIdempotent(pages);
  }

  // ---------------------------------------------------------------------------
  // re.IGNORECASE

  /** `t` and `u` differ at most in the case of their letters. */
  predicate SameUpToCase(t: string, u: string) {
    |t| == |u| && forall k :: 0 <= k < |t| ==> Lower(t[k]) == Lower(u[k])
  }

  /** Re-casing the letters of a text keeps every way the pattern matches in it. */
  lemma MatchShapeIgnoresCase(t: string, u: string, i: int, p2: int, p4: int, p5: int, p6: int, p7: int)
    requires SameUpToCase(t, u) && MatchShape(t, i, p2, p4, p5, p6, p7)
    ensures MatchShape(u, i, p2, p4, p5, p6, p7)
  {
    forall k | 0 <= k < |t|
      ensures IsSpace(t[k]) <==> IsSpace(u[k])
      ensures IsWordChar(t[k]) <==> IsWordChar(u[k])
      ensures !('A' <= t[k] <= 'Z' || 'a' <= t[k] <= 'z') ==> t[k] == u[k]
    {
      SameFoldSameClass(t[k], u[k]);
    }
  }

  /** Under re-casing, a numeral is left as it is. */
  lemma NumeralIgnoresCase(t: string, u: string, p: int, q: int)
    requires SameUpToCase(t, u) && 0 <= p <= q <= |t| && IsNumeral(t[p..q])
    ensures u[p..q] == t[p..q]
  {
    NumeralChars(t[p..q]);
    forall k | p <= k < q
      ensures u[k] == t[k]
    {
      assert t[k] == t[p..q][k - p];
      SameFoldSameClass(t[k], u[k]);
    }
  }

  /** `re.IGNORECASE`: the same positions match, with the same group 1, whatever the case of the letters. */
  lemma MatchIgnoresCase(t: string, u: string, i: int)
    requires SameUpToCase(t, u)
    ensures forall p :: CapturesAt(t, i, p) <==> CapturesAt(u, i, p)
    ensures MatchesAt(t, i) <==> MatchesAt(u, i)
    ensures forall p, q :: GroupSpan(t, i, p, q) <==> GroupSpan(u, i, p, q)
  {
    assert SameUpToCase(u, t);
    forall p | CapturesAt(t, i, p)
      ensures CapturesAt(u, i, p)
    {
      var p2, p4, p5, p6 :| MatchShape(t, i, p2, p4, p5, p6, p);
      MatchShapeIgnoresCase(t, u, i, p2, p4, p5, p6, p);
    }
    forall p | CapturesAt(u, i, p)
      ensures CapturesAt(t, i, p)
    {
      var p2, p4, p5, p6 :| MatchShape(u, i, p2, p4, p5, p6, p);
      MatchShapeIgnoresCase(u, t, i, p2, p4, p5, p6, p);
    }
    forall p, q | 0 <= p <= q <= |t|
      ensures IsNumeral(t[p..q]) <==> IsNumeral(u[p..q])
    {
      if IsNumeral(t[p..q]) {
        NumeralIgnoresCase(t, u, p, q);
      }
      if IsNumeral(u[p..q]) {
        NumeralIgnoresCase(u, t, p, q);
      }
    }
  }

  /** Two texts that differ only in case yield the same balance due. */
  lemma ExtractIgnoresCase(t: string, u: string)
    requires SameUpToCase(t, u)
    ensures ExtractFromText(t) == ExtractFromText(u)
  {
    forall i
      ensures MatchesAt(t, i) <==> MatchesAt(u, i)
    {
      MatchIgnoresCase(t, u, i);
    }
    var r, r' := ExtractFromText(t), ExtractFromText(u);
    if r.Some? {
      var i, p, q :| FirstMatch(t, i) && GroupSpan(t, i, p, q) && r.value == MoneyToCents(t[p..q]);
      var i', p', q' :| FirstMatch(u, i') && GroupSpan(u, i', p', q') && r'.value == MoneyToCents(u[p'..q']);
      assert i == i';
      MatchIgnoresCase(t, u, i);
      GroupSpanUnique(u, i, p, q, p', q');
      NumeralIgnoresCase(t, u, p, q);
    }
  }
}
