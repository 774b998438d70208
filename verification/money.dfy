/**
 * The numeral captured after "Balance due": its grammar
 * `[0-9]{1,3}(?:,[0-9]{3})*(?:\.[0-9]{2})?`, the greedy scan that finds
 * where it ends, and `money_to_float`, which drops the commas and reads
 * the rest as a number. Amounts are whole cents.
 */
module Money {
  import opened Chars

  predicate AllDigits(s: string) {
    forall k :: 0 <= k < |s| ==> IsDigit(s[k])
  }

  /** `,[0-9]{3}` */
  predicate IsGroup(g: string) {
    |g| == 4 && g[0] == ',' && AllDigits(g[1..])
  }

  /** `(?:,[0-9]{3})*` */
  predicate IsGroups(s: string)
    decreases |s|
  {
    s == [] || (|s| >= 4 && IsGroup(s[..4]) && IsGroups(s[4..]))
  }

  /** `(?:\.[0-9]{2})?` */
  predicate IsFraction(f: string) {
    f == [] || (|f| == 3 && f[0] == '.' && AllDigits(f[1..]))
  }

  /** `s` reads as 1 to 3 leading digits `s[..a]`, thousands groups `s[a..b]` and a fraction `s[b..]`. */
  predicate NumeralSplit(s: string, a: int, b: int) {
    1 <= a <= 3 && a <= b <= |s| && AllDigits(s[..a]) && IsGroups(s[a..b]) && IsFraction(s[b..])
  }

  /** `s` is a whole match of the numeral sub-pattern. */
  ghost predicate IsNumeral(s: string) {
    exists a, b :: NumeralSplit(s, a, b)
  }

  /** The numeral starting at `p` ends at `q` and no longer prefix of the rest of `t` is a numeral. */
  ghost predicate LongestNumeral(t: string, p: int, q: int) {
    0 <= p < q <= |t| && IsNumeral(t[p..q]) && forall q' :: q < q' <= |t| ==> !IsNumeral(t[p..q'])
  }

  // ---------------------------------------------------------------------------
  // The greedy scan

  /** `[0-9]{1,3}`, greedy: the end of up to three digits from `p`. */
  function LeadEnd(t: string, p: nat): (a: nat)
    requires p < |t| && IsDigit(t[p])
    ensures p < a <= p + 3 && a <= |t| && AllDigits(t[p..a])
    ensures a < p + 3 ==> a == |t| || !IsDigit(t[a])
  {
    if p + 1 < |t| && IsDigit(t[p + 1]) then
      if p + 2 < |t| && IsDigit(t[p + 2]) then p + 3 else p + 2
    else p + 1
  }

  predicate GroupAt(t: string, k: nat) {
    k + 4 <= |t| && IsGroup(t[k..k + 4])
  }

  predicate FractionAt(t: string, b: nat) {
    b + 3 <= |t| && t[b] == '.' && IsDigit(t[b + 1]) && IsDigit(t[b + 2])
  }

  /** `(?:,[0-9]{3})*`, greedy: repeats the group for as long as the next one is there. */
  function GroupsEnd(t: string, k: nat): (b: nat)
    requires k <= |t|
    ensures k <= b <= |t| && IsGroups(t[k..b]) && !GroupAt(t, b)
    decreases |t| - k
  {
    if GroupAt(t, k) then
      var b := GroupsEnd(t, k + 4);
      assert t[k..b][..4] == t[k..k + 4];
      assert t[k..b][4..] == t[k + 4..b];
      b
    else k
  }

  /** Where the greedy match of the numeral that starts at digit `p` ends. */
  function NumeralEnd(t: string, p: nat): (q: nat)
    requires p < |t| && IsDigit(t[p])
    ensures p < q <= |t| && IsNumeral(t[p..q])
  {
    var a := LeadEnd(t, p);
    var b := GroupsEnd(t, a);
    var q := if FractionAt(t, b) then b + 3 else b;
    NumeralOfParts(t, p, a, b, q);
    q
  }

  /** Leading digits, groups and an optional fraction laid end to end make a numeral. */
  lemma NumeralOfParts(t: string, p: nat, a: nat, b: nat, q: nat)
    requires p < a <= p + 3 && a <= b <= q <= |t|
    requires AllDigits(t[p..a]) && IsGroups(t[a..b])
    requires q == b || (q == b + 3 && FractionAt(t, b))
    ensures NumeralSplit(t[p..q], a - p, b - p)
  {
    var s := t[p..q];
    assert AllDigits(s[..a - p]) by {
      SliceOfSlice(t, p, q, 0, a - p);
    }
    assert IsGroups(s[a - p..b - p]) by {
      SliceOfSlice(t, p, q, a - p, b - p);
    }
    assert IsFraction(s[b - p..]) by {
      SliceOfSlice(t, p, q, b - p, q - p);
      if q == b + 3 {
        assert t[b..q][1..] == [t[b + 1], t[b + 2]];
      }
    }
  }

  /** A group sequence from `k` never runs past the greedy one. */
  lemma {:induction false} GroupsMaximal(t: string, k: nat, y: nat)
    requires k <= y <= |t| && IsGroups(t[k..y])
    ensures y <= GroupsEnd(t, k)
    decreases y - k
  {
    if y > k {
      assert t[k..y][..4] == t[k..k + 4];
      assert t[k..y][4..] == t[k + 4..y];
      GroupsMaximal(t, k + 4, y);
    }
  }

  /** Where a shorter group sequence stops, a longer one from the same place has a comma. */
  lemma {:induction false} GroupsBoundary(t: string, k: nat, x: nat, y: nat)
    requires k <= x <= y <= |t| && IsGroups(t[k..x]) && IsGroups(t[k..y])
    ensures x < y ==> t[x] == ','
    decreases x - k
  {
    if x < y {
      assert t[k..y][..4][0] == t[k];
      if x > k {
        assert t[k..x][4..] == t[k + 4..x];
        assert t[k..y][4..] == t[k + 4..y];
        GroupsBoundary(t, k + 4, x, y);
      }
    }
  }

  lemma SliceOfSlice(t: string, p: int, q: int, i: int, j: int)
    requires 0 <= p <= q <= |t| && 0 <= i <= j <= q - p
    ensures t[p..q][i..j] == t[p + i..p + j]
  {
    assert |t[p..q][i..j]| == j - i == |t[p + i..p + j]|;
    forall k | 0 <= k < j - i
      ensures t[p..q][i..j][k] == t[p + i..p + j][k]
    {
      assert t[p..q][i..j][k] == t[p..q][i + k] == t[p + i + k];
    }
  }

  /** A run of one to three digits from `p` is no longer than the greedy one. */
  lemma LeadMaximal(t: string, p: nat, k: nat)
    requires p < k <= |t| && k <= p + 3 && IsDigit(t[p]) && AllDigits(t[p..k])
    ensures k <= LeadEnd(t, p)
  {
    forall j | p <= j < k
      ensures IsDigit(t[j])
    {
      assert t[p..k][j - p] == t[j];
    }
  }

  /** A non-empty group sequence starts with a comma; a fraction is empty or starts with a dot. */
  lemma GroupsAndFractionStart(t: string, x: nat, y: nat, z: nat)
    requires x <= y <= z <= |t| && IsGroups(t[x..y]) && IsFraction(t[y..z])
    ensures x < y ==> t[x] == ','
    ensures z == y || (z == y + 3 && FractionAt(t, y))
  {
    if x < y {
      assert t[x..y][..4][0] == t[x];
    }
    if z != y {
      assert t[y..z][0] == t[y];
      assert t[y..z][1..][0] == t[y + 1] && t[y..z][1..][1] == t[y + 2];
    }
  }

  /** Maximal munch: a numeral from `p` that ends at `q'` ends no later than the greedy one. */
  lemma NumeralNoLonger(t: string, p: nat, q': nat, a': int, b': int)
    requires p < q' <= |t| && IsDigit(t[p]) && NumeralSplit(t[p..q'], a', b')
    ensures q' <= NumeralEnd(t, p)
  {
    var s := t[p..q'];
    assert 1 <= a' <= 3 && a' <= b' <= |s|;
    var A, B := p + a', p + b';
    assert AllDigits(t[p..A]) by {
      SliceOfSlice(t, p, q', 0, a');
    }
    assert IsGroups(t[A..B]) by {
      SliceOfSlice(t, p, q', a', b');
    }
    assert IsFraction(t[B..q']) by {
      SliceOfSlice(t, p, q', b', |s|);
    }
    PartsNoLonger(t, p, A, B, q');
  }

  /** The greedy scan ends no earlier than any leading digits, groups and fraction laid end to end from `p`. */
  lemma PartsNoLonger(t: string, p: nat, A: nat, B: nat, q': nat)
    requires p < A <= p + 3 && A <= B <= q' <= |t| && IsDigit(t[p])
    requires AllDigits(t[p..A]) && IsGroups(t[A..B]) && IsFraction(t[B..q'])
    ensures q' <= NumeralEnd(t, p)
  {
    var a := LeadEnd(t, p);
    var b := GroupsEnd(t, a);
    LeadMaximal(t, p, A);
    GroupsAndFractionStart(t, A, B, q');
    if A < a {
      assert IsDigit(t[p..a][A - p]);
    } else {
      GroupsMaximal(t, a, B);
      GroupsBoundary(t, a, B, b);
    }
  }

  /** The greedy scan captures the longest prefix that is a numeral, as the regular expression does. */
  lemma NumeralEndLongest(t: string, p: nat)
    requires p < |t| && IsDigit(t[p])
    ensures LongestNumeral(t, p, NumeralEnd(t, p))
  {
    var q := NumeralEnd(t, p);
    forall q' | q < q' <= |t|
      ensures !IsNumeral(t[p..q'])
    {
      if IsNumeral(t[p..q']) {
        var a', b' :| NumeralSplit(t[p..q'], a', b');
        NumeralNoLonger(t, p, q', a', b');
      }
    }
  }

  /** The characters a numeral is made of: digits, commas and a point. */
  predicate IsNumeralChar(c: char) {
    IsDigit(c) || c == ',' || c == '.'
  }

  lemma {:induction false} GroupsChars(g: string)
    requires IsGroups(g)
    ensures forall k :: 0 <= k < |g| ==> IsNumeralChar(g[k])
    decreases |g|
  {
    if g != [] {
      GroupsChars(g[4..]);
      forall k | 0 <= k < |g|
        ensures IsNumeralChar(g[k])
      {
        if k < 4 {
          assert g[k] == g[..4][k];
          if k > 0 { assert g[k] == g[..4][1..][k - 1]; }
        } else {
          assert g[k] == g[4..][k - 4];
        }
      }
    }
  }

  lemma NumeralChars(s: string)
    requires IsNumeral(s)
    ensures forall k :: 0 <= k < |s| ==> IsNumeralChar(s[k])
  {
    var a, b :| NumeralSplit(s, a, b);
    GroupsChars(s[a..b]);
    forall k | 0 <= k < |s|
      ensures IsNumeralChar(s[k])
    {
      if k < a {
        assert s[k] == s[..a][k];
      } else if k < b {
        assert s[k] == s[a..b][k - a];
      } else {
        assert s[k] == s[b..][k - b];
        if k > b { assert s[k] == s[b..][1..][k - b - 1]; }
      }
    }
  }

  /** A text that is a numeral as a whole starts with a digit and is scanned to its end. */
  lemma NumeralEndWhole(s: string)
    requires IsNumeral(s)
    ensures 0 < |s| && IsDigit(s[0]) && NumeralEnd(s, 0) == |s|
  {
    var a, b :| NumeralSplit(s, a, b);
    assert s[0] == s[..a][0];
    NumeralEndLongest(s, 0);
    assert s[0..|s|] == s;
    assert IsNumeral(s[0..|s|]);
  }

  // ---------------------------------------------------------------------------
  // money_to_float

  /** `s.replace(",", "")` */
  function StripCommas(s: string): (r: string)
    ensures forall k :: 0 <= k < |r| ==> r[k] != ','
    ensures |r| <= |s|
  {
    if s == [] then []
    else (if s[0] == ',' then [] else [s[0]]) + StripCommas(s[1..])
  }

  /** The value of a string of decimal digits. */
  function DigitsValue(s: string): nat
    requires AllDigits(s)
  {
    if s == [] then 0 else 10 * DigitsValue(s[..|s| - 1]) + DigitValue(s[|s| - 1])
  }

  /** What `float` reads from a comma-free numeral, in cents: `d+` or `d+.dd`. */
  predicate IsDecimal(d: string) {
    || (|d| >= 1 && AllDigits(d))
    || (|d| >= 4 && AllDigits(d[..|d| - 3]) && d[|d| - 3] == '.' && AllDigits(d[|d| - 2..]))
  }

  function DecimalCents(d: string): nat
    requires IsDecimal(d)
  {
    if |d| >= 4 && d[|d| - 3] == '.' && AllDigits(d[..|d| - 3]) && AllDigits(d[|d| - 2..]) then
      DigitsValue(d[..|d| - 3]) * 100 + DigitsValue(d[|d| - 2..])
    else
      DigitsValue(d) * 100
  }

  /** `money_to_float(s)`, exact, in cents; the only caller hands it a captured numeral. */
  function MoneyToCents(s: string): nat
    requires IsNumeral(s)
  {
    NumeralStripsToDecimal(s);
    DecimalCents(StripCommas(s))
  }

  lemma {:induction false} StripCommasAppend(a: string, b: string)
    ensures StripCommas(a + b) == StripCommas(a) + StripCommas(b)
  {
    if a == [] {
      assert a + b == b;
    } else {
      var head := if a[0] == ',' then [] else [a[0]];
      assert (a + b)[0] == a[0];
      assert (a + b)[1..] == a[1..] + b;
      StripCommasAppend(a[1..], b);
      calc {
        StripCommas(a + b);
        head + StripCommas(a[1..] + b);
        head + (StripCommas(a[1..]) + StripCommas(b));
        (head + StripCommas(a[1..])) + StripCommas(b);
        StripCommas(a) + StripCommas(b);
      }
    }
  }

  /** A single character is dropped when it is a comma and kept otherwise. */
  lemma StripCommasChar(c: char)
    ensures StripCommas([c]) == (if c == ',' then [] else [c])
  {
    assert [c][1..] == [];
  }

  /** Text without commas is left unchanged. */
  lemma {:induction false} StripCommasNoCommas(s: string)
    requires forall k :: 0 <= k < |s| ==> s[k] != ','
    ensures StripCommas(s) == s
  {
    if s != [] {
      StripCommasNoCommas(s[1..]);
    }
  }

  lemma {:induction false} StripCommasDigits(s: string)
    requires AllDigits(s)
    ensures StripCommas(s) == s
  {
    if s != [] {
      StripCommasDigits(s[1..]);
    }
  }

  /** Thousands groups lose their commas and keep their digits. */
  lemma {:induction false} StripCommasGroups(g: string)
    requires IsGroups(g)
    ensures AllDigits(StripCommas(g))
    decreases |g|
  {
    if g != [] {
      assert g == g[..4] + g[4..];
      StripCommasAppend(g[..4], g[4..]);
      assert g[..4] == [','] + g[1..4];
      StripCommasAppend([','], g[1..4]);
      StripCommasDigits(g[1..4]);
      StripCommasGroups(g[4..]);
    }
  }

  /** The split of a numeral, with commas removed: whole digits, then the fraction as it was. */
  lemma NumeralSplitStrips(s: string, a: int, b: int)
    requires NumeralSplit(s, a, b)
    ensures AllDigits(StripCommas(s[..b])) && |StripCommas(s[..b])| >= 1
    ensures StripCommas(s) == StripCommas(s[..b]) + s[b..]
  {
    assert s[..b] == s[..a] + s[a..b];
    StripCommasAppend(s[..a], s[a..b]);
    StripCommasDigits(s[..a]);
    StripCommasGroups(s[a..b]);
    assert s == s[..b] + s[b..];
    StripCommasAppend(s[..b], s[b..]);
    if s[b..] != [] {
      assert s[b..] == ['.'] + s[b..][1..];
      StripCommasAppend(['.'], s[b..][1..]);
      StripCommasDigits(s[b..][1..]);
    }
  }

  lemma NumeralStripsToDecimal(s: string)
    requires IsNumeral(s)
    ensures IsDecimal(StripCommas(s))
  {
    var a, b :| NumeralSplit(s, a, b);
    NumeralSplitStrips(s, a, b);
    var d := StripCommas(s);
    var w := StripCommas(s[..b]);
    if s[b..] != [] {
      assert d[..|d| - 3] == w;
      assert d[|d| - 2..] == s[b..][1..];
    }
  }

  lemma TwoDigitsValue(x: char, y: char)
    requires IsDigit(x) && IsDigit(y)
    ensures DigitsValue([x, y]) == 10 * DigitValue(x) + DigitValue(y)
  {
    assert [x, y][..1] == [x];
    assert [x][..0] == [];
    assert DigitsValue([x]) == DigitValue(x);
  }

  /** The cents of a numeral: its whole part (commas removed) times 100, plus its two fraction digits. */
  lemma MoneyToCentsOfSplit(s: string, a: int, b: int)
    requires NumeralSplit(s, a, b)
    ensures AllDigits(StripCommas(s[..b]))
    ensures MoneyToCents(s) == DigitsValue(StripCommas(s[..b])) * 100
                               + (if b == |s| then 0 else 10 * DigitValue(s[b + 1]) + DigitValue(s[b + 2]))
  {
    NumeralSplitStrips(s, a, b);
    var w := StripCommas(s[..b]);
    if b == |s| {
      assert s[b..] == [];
      assert w + s[b..] == w;
      DecimalCentsWhole(w);
    } else {
      assert s[b..] == ['.', s[b + 1], s[b + 2]] by {
        assert s[b..][1..] == [s[b + 1], s[b + 2]];
      }
      DecimalCentsFraction(w, s[b + 1], s[b + 2]);
    }
  }

  /** `float` of whole digits, in cents. */
  lemma DecimalCentsWhole(w: string)
    requires |w| >= 1 && AllDigits(w)
    ensures IsDecimal(w) && DecimalCents(w) == DigitsValue(w) * 100
  {
    if |w| >= 4 {
      assert IsDigit(w[|w| - 3]);
    }
  }

  /** `float` of whole digits, a dot and two digits, in cents. */
  lemma DecimalCentsFraction(w: string, x: char, y: char)
    requires |w| >= 1 && AllDigits(w) && IsDigit(x) && IsDigit(y)
    ensures IsDecimal(w + ['.', x, y])
    ensures DecimalCents(w + ['.', x, y]) == DigitsValue(w) * 100 + 10 * DigitValue(x) + DigitValue(y)
  {
    var d := w + ['.', x, y];
    assert d[..|d| - 3] == w && d[|d| - 3] == '.' by {
      AppendSlices(w, ['.', x, y], |w|);
    }
    assert d[|d| - 2..] == [x, y] && AllDigits([x, y]);
    TwoDigitsValue(x, y);
  }

  // ---------------------------------------------------------------------------
  // The canonical numeral of an amount, `"{:,.2f}"` without the dollar sign

  /** The decimal digits of `n`, most significant first, without leading zeros. */
  function NatDigits(n: nat): (ds: string)
    ensures |ds| >= 1 && AllDigits(ds)
    ensures DigitsValue(ds) == n
  {
    if n < 10 then [DigitChar(n)]
    else
      var ds := NatDigits(n / 10) + [DigitChar(n % 10)];
      assert ds[..|ds| - 1] == NatDigits(n / 10);
      ds
  }

  /** Digits with a comma before every group of three counted from the right. */
  function Grouped(ds: string): (g: string)
    decreases |ds|
  {
    if |ds| <= 3 then ds else Grouped(ds[..|ds| - 3]) + [','] + ds[|ds| - 3..]
  }

  function FormatCents(c: nat): (s: string) {
    var cents := c % 100;
    Grouped(NatDigits(c / 100)) + ['.', DigitChar(cents / 10), DigitChar(cents % 10)]
  }

  lemma {:induction false} IsGroupsAppend(x: string, g: string)
    requires IsGroups(x) && IsGroup(g)
    ensures IsGroups(x + g)
    decreases |x|
  {
    if x == [] {
      assert g[..4] == g && g[4..] == [];
    } else {
      assert (x + g)[..4] == x[..4];
      assert (x + g)[4..] == x[4..] + g;
      IsGroupsAppend(x[4..], g);
    }
  }

  /** Removing the commas from grouped digits gives the digits back. */
  lemma {:induction false} GroupedStrips(ds: string)
    requires AllDigits(ds)
    ensures StripCommas(Grouped(ds)) == ds
    decreases |ds|
  {
    if |ds| <= 3 {
      StripCommasDigits(ds);
    } else {
      var init, last := ds[..|ds| - 3], ds[|ds| - 3..];
      assert ds == init + last;
      var tail := [','] + last;
      GroupedStrips(init);
      assert Grouped(ds) == Grouped(init) + tail;
      StripCommasAppend(Grouped(init), tail);
      assert tail[0] == ',' && tail[1..] == last;
      assert StripCommas(tail) == StripCommas(last);
      StripCommasDigits(last);
    }
  }

  lemma AppendSlices(x: string, y: string, a: int)
    requires 0 <= a <= |x|
    ensures (x + y)[..a] == x[..a] && (x + y)[a..] == x[a..] + y
  {
  }

  lemma LeadWidth(n: int)
    requires n > 3
    ensures (n - 3 - 1) % 3 + 1 == (n - 1) % 3 + 1
  {
  }

  /** Appending a thousands group keeps the leading digits and extends the groups. */
  lemma GroupedShapeStep(gi: string, init: string, last: string, a: int)
    requires 1 <= a <= |gi| && a <= |init| && gi[..a] == init[..a] && IsGroups(gi[a..])
    requires |last| == 3 && AllDigits(last)
    ensures a <= |gi + [','] + last|
    ensures (gi + [','] + last)[..a] == (init + last)[..a]
    ensures IsGroups((gi + [','] + last)[a..])
  {
    var tail := [','] + last;
    assert gi + [','] + last == gi + tail;
    AppendSlices(gi, tail, a);
    AppendSlices(init, last, a);
    assert IsGroup(tail) by {
      assert tail[1..] == last;
    }
    IsGroupsAppend(gi[a..], tail);
  }

  /** The shape of the grouped digits of `ds` follows from that of all but its last three digits. */
  lemma GroupedShapeExtend(ds: string)
    requires |ds| > 3 && AllDigits(ds[|ds| - 3..])
    requires var init := ds[..|ds| - 3]; var a := (|init| - 1) % 3 + 1;
      a <= |Grouped(init)| && Grouped(init)[..a] == init[..a] && IsGroups(Grouped(init)[a..])
    ensures var a := (|ds| - 1) % 3 + 1;
      a <= |Grouped(ds)| && Grouped(ds)[..a] == ds[..a] && IsGroups(Grouped(ds)[a..])
  {
    var n := |ds|;
    var init, last := ds[..n - 3], ds[n - 3..];
    LeadWidth(n);
    assert ds == init + last;
    assert Grouped(ds) == Grouped(init) + [','] + last;
    GroupedShapeStep(Grouped(init), init, last, (n - 1) % 3 + 1);
  }

  /** The two parts of an all-digit text are all digits. */
  lemma AllDigitsSplit(ds: string, k: int)
    requires AllDigits(ds) && 0 <= k <= |ds|
    ensures AllDigits(ds[..k]) && AllDigits(ds[k..])
  {
    forall i | 0 <= i < k ensures IsDigit(ds[..k][i]) { assert ds[..k][i] == ds[i]; }
    forall i | 0 <= i < |ds| - k ensures IsDigit(ds[k..][i]) { assert ds[k..][i] == ds[k + i]; }
  }

  /** The grouped digits split into a first group of `(|ds| - 1) % 3 + 1` digits and thousands groups. */
  lemma {:induction false} GroupedShape(ds: string)
    requires |ds| >= 1 && AllDigits(ds)
    ensures var a := (|ds| - 1) % 3 + 1;
      a <= |Grouped(ds)| && Grouped(ds)[..a] == ds[..a] && IsGroups(Grouped(ds)[a..])
    decreases |ds|
  {
    if |ds| > 3 {
      AllDigitsSplit(ds, |ds| - 3);
      GroupedShape(ds[..|ds| - 3]);
      GroupedShapeExtend(ds);
    } else {
      GroupedShapeShort(ds);
    }
  }

  /** Up to three digits are left as they are. */
  lemma GroupedShapeShort(ds: string)
    requires 1 <= |ds| <= 3
    ensures var a := (|ds| - 1) % 3 + 1;
      a <= |Grouped(ds)| && Grouped(ds)[..a] == ds[..a] && IsGroups(Grouped(ds)[a..])
  {
    assert (|ds| - 1) % 3 + 1 == |ds|;
    assert Grouped(ds)[|ds|..] == [];
  }

  lemma ConcatParts(g: string, f: string, a: int)
    requires 0 <= a <= |g|
    ensures (g + f)[..a] == g[..a] && (g + f)[a..|g|] == g[a..] && (g + f)[|g|..] == f
  {
  }

  /** The canonical numeral of an amount matches the numeral pattern in full. */
  lemma FormatCentsSplit(c: nat)
    ensures var ds := NatDigits(c / 100);
      NumeralSplit(FormatCents(c), (|ds| - 1) % 3 + 1, |Grouped(ds)|)
  {
    var ds := NatDigits(c / 100);
    var a := (|ds| - 1) % 3 + 1;
    GroupedShape(ds);
    var g := Grouped(ds);
    var x, y := DigitChar(c % 100 / 10), DigitChar(c % 100 % 10);
    var f := ['.', x, y];
    assert FormatCents(c) == g + f;
    ConcatParts(g, f, a);
    assert AllDigits(ds[..a]) by {
      forall k | 0 <= k < a ensures IsDigit(ds[..a][k]) {
        assert ds[..a][k] == ds[k];
      }
    }
    assert IsFraction(f) by {
      assert f[1..] == [x, y];
    }
  }

  /** Reading the canonical numeral of an amount gives the amount back. */
  lemma FormatCentsRoundTrip(c: nat)
    ensures IsNumeral(FormatCents(c))
    ensures MoneyToCents(FormatCents(c)) == c
  {
    var ds := NatDigits(c / 100);
    var g := Grouped(ds);
    var s := FormatCents(c);
    var a, b := (|ds| - 1) % 3 + 1, |g|;
    FormatCentsSplit(c);
    GroupedStrips(ds);
    assert s[..b] == g;
    MoneyToCentsOfSplit(s, a, b);
    assert s[b + 1] == DigitChar(c % 100 / 10) && s[b + 2] == DigitChar(c % 100 % 10);
    CentsDigits(c);
  }

  /** An amount is its whole dollars and its two cent digits. */
  lemma CentsDigits(c: nat)
    ensures c == c / 100 * 100 + 10 * (c % 100 / 10) + c % 100 % 10
  {
    var m := c % 100;
    assert c == c / 100 * 100 + m;
    assert m == 10 * (m / 10) + m % 10;
  }
}
