/**
 * Whole-pipeline consequences of the model: what the extractor returns for
 * a document whose text is the label followed by an amount.
 */
module Scenarios {
  import opened Wrappers
  import opened Chars
  import opened Money
  import opened TextNormalizer
  import opened BalanceDue

  /** The label the extractor looks for, spelt as invoices print it. */
  const Label: string := "Balance due: $"

  /** The label spells "balance" and "due" up to case. */
  lemma LabelWords()
    ensures forall k :: 0 <= k < 7 ==> Lower(Label[k]) == "balance"[k]
    ensures forall k :: 0 <= k < 3 ==> Lower(Label[8 + k]) == "due"[k]
  {
  }

  /** After a text `r` that does not end in a word character, the label and a digit match with group 1 at `|r| + 14`. */
  lemma LabelledShape(r: string, s: string)
    requires r == [] || !IsWordChar(r[|r| - 1])
    requires |s| > 0 && IsDigit(s[0])
    ensures var n := |r|; MatchShape(r + Label + s, n, n + 8, n + 11, n + 13, n + 14, n + 14)
  {
    var t := r + Label + s;
    var n := |r|;
    assert t[n + 14] == s[0];
    forall k | 0 <= k < 14
      ensures t[n + k] == Label[k]
    {
      assert t[n..n + 14] == Label;
    }
    LabelWords();
    assert n > 0 ==> t[n - 1] == r[n - 1];
  }

  /** With nothing matching inside `r`, the leftmost match is the label, with group 1 starting after it. */
  lemma LabelledMatch(r: string, s: string)
    requires r == [] || !IsWordChar(r[|r| - 1])
    requires |s| > 0 && IsDigit(s[0])
    requires forall j :: 0 <= j < |r| ==> !MatchesAt(r + Label + s, j)
    ensures FirstMatch(r + Label + s, |r|) && CapturesAt(r + Label + s, |r|, |r| + 14)
  {
    var t := r + Label + s;
    LabelledShape(r, s);
    assert CapturesAt(t, |r|, |r| + 14);
  }

  /**
   * When nothing matches inside `r`, the labelled amount after it is found:
   * the value is the longest numeral that `s` starts with.
   */
  lemma LabelledExtract(r: string, s: string, t: string)
    requires t == r + Label + s
    requires r == [] || !IsWordChar(r[|r| - 1])
    requires |s| > 0 && IsDigit(s[0])
    requires forall j :: 0 <= j < |r| ==> !MatchesAt(t, j)
    ensures IsNumeral(s[0..NumeralEnd(s, 0)])
    ensures ExtractFromText(t) == Some(MoneyToCents(s[0..NumeralEnd(s, 0)]))
  {
    var n := |r| + 14;
    LabelledMatch(r, s);
    assert t[n..] == s;
    ExtractOfSuffix(t, |r|, n, s);
  }

  /** When the leftmost match has its group start at suffix `s`, the amount is the longest numeral `s` starts with. */
  lemma ExtractOfSuffix(t: string, i: int, n: nat, s: string)
    requires FirstMatch(t, i) && CapturesAt(t, i, n)
    requires n <= |t| && t[n..] == s && |s| > 0 && IsDigit(s[0])
    ensures IsNumeral(s[0..NumeralEnd(s, 0)])
    ensures ExtractFromText(t) == Some(MoneyToCents(s[0..NumeralEnd(s, 0)]))
  {
    SuffixNumeral(t, n, s);
    ExtractFromFirstMatch(t, i, n, n + NumeralEnd(s, 0));
  }

  /** The longest numeral at the start of a suffix `s` of `t` is the longest one at its position in `t`. */
  lemma SuffixNumeral(t: string, n: nat, s: string)
    requires n <= |t| && t[n..] == s && |s| > 0 && IsDigit(s[0])
    ensures LongestNumeral(t, n, n + NumeralEnd(s, 0))
    ensures t[n..n + NumeralEnd(s, 0)] == s[0..NumeralEnd(s, 0)]
  {
    NumeralEndLongest(s, 0);
    forall q | n <= q <= |t|
      ensures t[n..q] == s[0..q - n]
    {
      assert t[n..q] == t[n..][0..q - n];
    }
  }

  /** A label with no numeral after it. */
  const NotAvailable: string := "Balance due: N/A "

  /** No match starts inside `NotAvailable`, whatever follows it. */
  lemma NotAvailableUnmatched(u: string, j: nat)
    requires j < |NotAvailable|
    ensures TryMatchAt(NotAvailable + u, j) == None
  {
    if j == 0 {
      NotAvailableNoAmount(u);
    } else {
      NotAvailableNoLabel(u, j);
    }
  }

  /** The label of `NotAvailable` is found, but no numeral follows its colon. */
  lemma NotAvailableNoAmount(u: string)
    ensures TryMatchAt(NotAvailable + u, 0) == None
  {
    var t := NotAvailable + u;
    assert t == LabelToColon + ['N'] + ("/A " + u) by {
      assert NotAvailable == LabelToColon + ['N'] + "/A ";
    }
    NoAmountAfterColon(t, 'N', "/A " + u);
  }

  /** The label and its colon, with nothing after them yet. */
  const LabelToColon: string := "Balance due: "

  /**
   * After the colon and its space the pattern admits only `$`, more
   * whitespace or a digit: any other character there, such as a minus sign
   * or an opening parenthesis, leaves the label unmatched.
   */
  lemma NoAmountAfterColon(t: string, x: char, u: string)
    requires t == LabelToColon + [x] + u
    requires !IsSpace(x) && x != '$' && !IsDigit(x)
    ensures TryMatchAt(t, 0) == None
  {
    assert t[..13] == LabelToColon && t[13] == x;
    assert t[7] == ' ' && t[8] == 'd';
    SkipSpacesUnique(t, 7, 8);
    assert WordAt(t, 8, "due");
    assert LabelAt(t, 0) == Some(11);
    SkipSpacesUnique(t, 12, 13);
    SkipSpacesUnique(t, 13, 13);
  }

  /** A signed or parenthesised amount after the label is not a match: the pattern has no sign and no parentheses. */
  lemma SignedAmountUnmatched(u: string)
    ensures TryMatchAt(LabelToColon + "-$" + u, 0) == None
    ensures TryMatchAt(LabelToColon + "($" + u, 0) == None
  {
    assert LabelToColon + "-$" + u == LabelToColon + ['-'] + ("$" + u);
    NoAmountAfterColon(LabelToColon + "-$" + u, '-', "$" + u);
    assert LabelToColon + "($" + u == LabelToColon + ['('] + ("$" + u);
    NoAmountAfterColon(LabelToColon + "($" + u, '(', "$" + u);
  }

  /** No other position of `NotAvailable` starts with a "b". */
  lemma NotAvailableNoLabel(u: string, j: nat)
    requires 0 < j < |NotAvailable|
    ensures TryMatchAt(NotAvailable + u, j) == None
  {
    var t := NotAvailable + u;
    assert t[j] == NotAvailable[j];
    assert Lower(t[j + 0]) != "balance"[0];
  }

  /**
   * A "Balance due:" with no numeral after it does not stop the search: the
   * next label with an amount is found.
   */
  lemma LaterLabelFound(s: string)
    requires |s| > 0 && IsDigit(s[0])
    ensures ExtractFromText(NotAvailable + Label + s) == Some(MoneyToCents(s[0..NumeralEnd(s, 0)]))
  {
    var t := NotAvailable + Label + s;
    forall j | 0 <= j < |NotAvailable|
      ensures !MatchesAt(t, j)
    {
      assert t == NotAvailable + (Label + s);
      NotAvailableUnmatched(Label + s, j);
      TryMatchAtCorrect(t, j);
    }
    LabelledExtract(NotAvailable, s, t);
  }

  /** The label followed by a text free of whitespace is already normalised. */
  lemma LabelledNormalized(s: string)
    requires forall k :: 0 <= k < |s| ==> !IsSpace(s[k])
    ensures IsNormalized(Label + s)
  {
    LabelNormalized();
    NormalizedAppend(Label, s);
  }

  /** The label itself is in normal form. */
  lemma LabelNormalized()
    ensures IsNormalized(Label) && !IsSpace(Label[|Label| - 1])
  {
    forall k | 0 <= k < |Label| && IsSpace(Label[k])
      ensures k == 7 || k == 12
    {
    }
    assert Label[7] == ' ' && Label[12] == ' ';
    assert !IsSpace(Label[6]) && !IsSpace(Label[8]) && !IsSpace(Label[11]) && !IsSpace(Label[13]);
  }

  /** A whole numeral after the label is read in full. */
  lemma LabelledNumeral(s: string)
    requires IsNumeral(s)
    ensures ExtractFromText(Label + s) == Some(MoneyToCents(s))
  {
    NumeralEndWhole(s);
    assert s[0..NumeralEnd(s, 0)] == s;
    LabelledExtract([], s, Label + s);
  }

  /** The label followed by a numeral is already in normal form. */
  lemma LabelledNumeralNormal(s: string)
    requires IsNumeral(s)
    ensures Normalize([Label + s]) == Label + s
  {
    NumeralChars(s);
    LabelledNormalized(s);
    NormalizeFixpoint(Label + s);
  }

  /** A document reading "Balance due: $" and an amount printed as `"{:,.2f}"` yields exactly that amount. */
  lemma LabelledAmountRoundTrip(c: nat)
    ensures BalanceDueOf([Label + FormatCents(c)]) == Some(c)
  {
    FormatCentsRoundTrip(c);
    LabelledNumeral(FormatCents(c));
    LabelledNumeralNormal(FormatCents(c));
  }

  /**
   * An amount of four or more digits written without thousands separators
   * stops after three digits: "1234.56" is read as 123.00.
   */
  lemma UngroupedAmountTruncated(s: string)
    requires |s| >= 4 && AllDigits(s[..4])
    ensures ExtractFromText(Label + s) == Some(DigitsValue(s[..3]) * 100)
  {
    assert IsDigit(s[0]) && IsDigit(s[1]) && IsDigit(s[2]) && IsDigit(s[3]) by {
      assert s[..4][0] == s[0] && s[..4][1] == s[1] && s[..4][2] == s[2] && s[..4][3] == s[3];
    }
    assert LeadEnd(s, 0) == 3;
    assert !GroupAt(s, 3) by {
      if 7 <= |s| { assert s[3..7][0] == s[3]; }
    }
    assert GroupsEnd(s, 3) == 3;
    assert NumeralEnd(s, 0) == 3;
    var w := s[0..3];
    assert w == s[..3];
    assert NumeralSplit(w, 3, 3) by { assert w[..3] == w && w[3..] == []; }
    MoneyToCentsOfSplit(w, 3, 3);
    assert w[..3] == w;
    StripCommasDigits(w);
    LabelledExtract([], s, Label + s);
  }

  lemma DigitsOf1234()
    ensures NatDigits(1234) == "1234"
  {
  }

  lemma GroupedOf1234()
    ensures Grouped("1234") == "1,234"
  {
  }

  /** `"{:,.2f}"` of 123456 cents. */
  lemma FormatExample()
    ensures FormatCents(123456) == "1,234.56"
  {
    var c := 123456;
    assert c / 100 == 1234 && c % 100 / 10 == 5 && c % 100 % 10 == 6;
    DigitsOf1234();
    GroupedOf1234();
    assert DigitChar(5) == '5' && DigitChar(6) == '6';
  }

  /** The labelled text "Balance due: $1,234.56" is read as 1234.56. */
  lemma GroupedAmountRead()
    ensures ExtractFromText(Label + "1,234.56") == Some(123456)
  {
    FormatExample();
    FormatCentsRoundTrip(123456);
    LabelledNumeral("1,234.56");
  }
}
