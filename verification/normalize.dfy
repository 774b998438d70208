/**
 * Text normalisation of a document: the page texts are joined with single
 * spaces, split on runs of whitespace, and the tokens joined again with
 * single spaces (`" ".join(" ".join(text_parts).split())`).
 */
module TextNormalizer {
  import opened Chars

  /** A token as `str.split()` yields it: non-empty and free of whitespace. */
  predicate IsToken(w: string) {
    |w| > 0 && forall k :: 0 <= k < |w| ==> !IsSpace(w[k])
  }

  /** A normalised text: every whitespace character is a single space with a non-space on each side. */
  predicate IsNormalized(t: string) {
    forall k :: 0 <= k < |t| && IsSpace(t[k]) ==>
      t[k] == ' ' && 0 < k < |t| - 1 && !IsSpace(t[k - 1]) && !IsSpace(t[k + 1])
  }

  /** The longest whitespace-free prefix of `s`. */
  function LeadingToken(s: string): (w: string)
    ensures |w| <= |s| && w == s[..|w|]
    ensures forall k :: 0 <= k < |w| ==> !IsSpace(w[k])
    ensures |w| == |s| || IsSpace(s[|w|])
  {
    if s == [] || IsSpace(s[0]) then [] else [s[0]] + LeadingToken(s[1..])
  }

  /** `str.split()` with no separator: the maximal whitespace-free runs of `s`, in order. */
  function Split(s: string): seq<string>
    decreases |s|
  {
    if s == [] then []
    else if IsSpace(s[0]) then Split(s[1..])
    else
      var w := LeadingToken(s);
      [w] + Split(s[|w|..])
  }

  /** `sep.join(parts)`. */
  function Join(sep: string, parts: seq<string>): string {
    if parts == [] then ""
    else if |parts| == 1 then parts[0]
    else parts[0] + sep + Join(sep, parts[1..])
  }

  /** The tokens of every page, page after page. */
  function SplitPages(pages: seq<string>): seq<string> {
    if pages == [] then [] else Split(pages[0]) + SplitPages(pages[1..])
  }

  /** The text the pattern is searched in: app.py line 76 applied to the collected page texts. */
  function Normalize(pages: seq<string>): string {
    Join(" ", Split(Join(" ", pages)))
  }

  /**
   * The normalised text has no whitespace at either end and never two
   * whitespace characters in a row, and its tokens are those of the pages,
   * in page order.
   */
  lemma NormalizeShape(pages: seq<string>)
    ensures IsNormalized(Normalize(pages))
    ensures Split(Normalize(pages)) == SplitPages(pages)
  {
    var tokens := Split(Join(" ", pages));
    SplitTokens(Join(" ", pages));
    JoinTokensNormalized(tokens);
    SplitJoinTokens(tokens);
    SplitJoinPages(pages);
  }

  /** Whitespace after `a` ends its leading token. */
  lemma {:induction false} LeadingTokenAppend(a: string, b: string)
    requires b == [] || IsSpace(b[0])
    ensures LeadingToken(a + b) == LeadingToken(a)
  {
    if a == [] {
    } else if IsSpace(a[0]) {
      assert (a + b)[0] == a[0];
    } else {
      assert (a + b)[1..] == a[1..] + b;
      LeadingTokenAppend(a[1..], b);
    }
  }

  /** Every piece `str.split()` returns is non-empty and free of whitespace. */
  lemma {:induction false} SplitTokens(s: string)
    ensures forall k :: 0 <= k < |Split(s)| ==> IsToken(Split(s)[k])
    decreases |s|
  {
    if s == [] {
    } else if IsSpace(s[0]) {
      SplitTokens(s[1..]);
    } else {
      var w := LeadingToken(s);
      SplitTokens(s[|w|..]);
      assert Split(s) == [w] + Split(s[|w|..]);
    }
  }

  /** A token followed by nothing or by whitespace splits into that token and the split of the rest. */
  lemma SplitTokenThen(w: string, u: string)
    requires IsToken(w) && (u == [] || IsSpace(u[0]))
    ensures Split(w + u) == [w] + Split(u)
  {
    LeadingTokenAppend(w, u);
    LeadingTokenOfToken(w);
    assert (w + u)[0] == w[0];
    assert (w + u)[|w|..] == u;
  }

  lemma {:induction false} LeadingTokenOfToken(w: string)
    requires IsToken(w)
    ensures LeadingToken(w) == w
    decreases |w|
  {
    if |w| > 1 {
      LeadingTokenOfToken(w[1..]);
    }
  }

  /** Splitting at a whitespace character splits the tokens there. */
  lemma {:induction false} SplitAppendSpace(a: string, c: char, b: string)
    requires IsSpace(c)
    ensures Split(a + [c] + b) == Split(a) + Split(b)
    decreases |a|
  {
    if a == [] {
      assert a + [c] + b == [c] + b;
      assert ([c] + b)[1..] == b;
    } else if IsSpace(a[0]) {
      SplitAppendSpace(a[1..], c, b);
      SplitAppendSpaceSkip(a, c, b);
    } else {
      var w := LeadingToken(a);
      var r := a[|w|..];
      assert a == w + r;
      SplitAppendSpace(r, c, b);
      SplitAppendSpaceToken(w, r, c, b);
    }
  }

  /** The step of `SplitAppendSpace` for text starting with whitespace. */
  lemma SplitAppendSpaceSkip(a: string, c: char, b: string)
    requires a != [] && IsSpace(a[0])
    requires Split(a[1..] + [c] + b) == Split(a[1..]) + Split(b)
    ensures Split(a + [c] + b) == Split(a) + Split(b)
  {
    assert (a + [c] + b)[0] == a[0];
    assert (a + [c] + b)[1..] == a[1..] + [c] + b;
  }

  /** The step of `SplitAppendSpace` for text starting with a token. */
  lemma SplitAppendSpaceToken(w: string, r: string, c: char, b: string)
    requires IsToken(w) && (r == [] || IsSpace(r[0])) && IsSpace(c)
    requires Split(r + [c] + b) == Split(r) + Split(b)
    ensures Split(w + r + [c] + b) == Split(w + r) + Split(b)
  {
    SplitTokenThen(w, r);
    SplitTokenThen(w, r + [c] + b);
    AppendAssoc(w, r, [c]);
    AppendAssoc(w, r + [c], b);
    AppendAssoc([w], Split(r), Split(b));
  }

  /** Concatenation regroups freely. */
  lemma AppendAssoc<T>(x: seq<T>, y: seq<T>, z: seq<T>)
    ensures x + (y + z) == x + y + z
  {
  }

  lemma SplitOfToken(w: string)
    requires IsToken(w)
    ensures Split(w) == [w]
  {
    assert LeadingToken(w) == w;
    assert w[|w|..] == [];
  }

  /** Splitting the space-join of tokens gives the tokens back. */
  lemma {:induction false} SplitJoinTokens(ws: seq<string>)
    requires forall k :: 0 <= k < |ws| ==> IsToken(ws[k])
    ensures Split(Join(" ", ws)) == ws
  {
    if |ws| == 0 {
    } else if |ws| == 1 {
      SplitOfToken(ws[0]);
    } else {
      SplitJoinTokens(ws[1..]);
      SplitOfToken(ws[0]);
      SplitAppendSpace(ws[0], ' ', Join(" ", ws[1..]));
      assert ws[0] + " " + Join(" ", ws[1..]) == ws[0] + [' '] + Join(" ", ws[1..]);
      assert ws == [ws[0]] + ws[1..];
    }
  }

  /** The space-join of tokens is normalised, and starts with a non-space when non-empty. */
  lemma {:induction false} JoinTokensNormalized(ws: seq<string>)
    requires forall k :: 0 <= k < |ws| ==> IsToken(ws[k])
    ensures IsNormalized(Join(" ", ws))
    ensures ws == [] <==> Join(" ", ws) == []
    ensures ws != [] ==> !IsSpace(Join(" ", ws)[0]) && !IsSpace(Join(" ", ws)[|Join(" ", ws)| - 1])
  {
    if |ws| <= 1 {
    } else {
      JoinTokensNormalized(ws[1..]);
      var w, j := ws[0], Join(" ", ws[1..]);
      var t := Join(" ", ws);
      assert t == w + " " + j;
      forall k | 0 <= k < |t| && IsSpace(t[k])
        ensures t[k] == ' ' && 0 < k < |t| - 1 && !IsSpace(t[k - 1]) && !IsSpace(t[k + 1])
      {
        if k == |w| {
          assert t[k - 1] == w[|w| - 1];
          assert t[k + 1] == j[0];
        } else if k > |w| {
          assert t[k] == j[k - |w| - 1];
          if k - |w| - 1 == 0 {
            assert false;
          }
          assert t[k - 1] == j[k - |w| - 2];
          assert t[k + 1] == j[k - |w|];
        }
      }
      assert t[|t| - 1] == j[|j| - 1];
    }
  }

  /** The pages joined with spaces split into the tokens of the pages, in page order. */
  lemma {:induction false} SplitJoinPages(pages: seq<string>)
    ensures Split(Join(" ", pages)) == SplitPages(pages)
  {
    if |pages| == 0 {
    } else if |pages| == 1 {
      assert SplitPages(pages[1..]) == [];
    } else {
      SplitJoinPages(pages[1..]);
      SplitAppendSpace(pages[0], ' ', Join(" ", pages[1..]));
      assert pages[0] + " " + Join(" ", pages[1..]) == pages[0] + [' '] + Join(" ", pages[1..]);
    }
  }

  /** What follows a whitespace character of a normalised text is normalised too. */
  lemma NormalizedAfterSpace(t: string, n: nat)
    requires IsNormalized(t) && 0 < n < |t| && IsSpace(t[n - 1])
    ensures IsNormalized(t[n..]) && t[n..] != [] && !IsSpace(t[n])
  {
    var rest := t[n..];
    forall k | 0 <= k < |rest| && IsSpace(rest[k])
      ensures rest[k] == ' ' && 0 < k < |rest| - 1 && !IsSpace(rest[k - 1]) && !IsSpace(rest[k + 1])
    {
      assert rest[k] == t[k + n];
      assert rest[k - 1] == t[k + n - 1];
      assert rest[k + 1] == t[k + n + 1];
    }
  }

  /** A text made of a token, a space and more splits into that token and the split of the rest. */
  lemma SplitTokenSpace(t: string, w: string, rest: string)
    requires t == w + " " + rest && w == LeadingToken(t) && w != []
    ensures Split(t) == [w] + Split(rest)
  {
    assert t[|w|..][1..] == rest;
  }

  /** Splitting a normalised text and joining the tokens with spaces gives the text back. */
  lemma {:induction false} JoinSplitNormalized(t: string)
    requires IsNormalized(t)
    ensures Join(" ", Split(t)) == t
    decreases |t|
  {
    if t == [] {
    } else {
      assert !IsSpace(t[0]);
      var w := LeadingToken(t);
      if |w| == |t| {
        assert w == t;
        SplitOfToken(t);
      } else {
        var rest := t[|w| + 1..];
        NormalizedAfterSpace(t, |w| + 1);
        JoinSplitNormalized(rest);
        assert t == w + " " + rest;
        assert Split(rest) != [];
        JoinSplitStep(t, w, rest);
      }
    }
  }

  /** The step of `JoinSplitNormalized` past the first token and the space after it. */
  lemma JoinSplitStep(t: string, w: string, rest: string)
    requires t == w + " " + rest && w == LeadingToken(t) && w != []
    requires Split(rest) != [] && Join(" ", Split(rest)) == rest
    ensures Join(" ", Split(t)) == t
  {
    SplitTokenSpace(t, w, rest);
    var xs := Split(rest);
    assert ([w] + xs)[0] == w && ([w] + xs)[1..] == xs;
  }

  /** Two normalised texts that meet at non-space characters concatenate to a normalised text. */
  lemma NormalizedAppend(a: string, b: string)
    requires IsNormalized(a) && IsNormalized(b)
    requires a == [] || !IsSpace(a[|a| - 1])
    requires b == [] || !IsSpace(b[0])
    ensures IsNormalized(a + b)
  {
    var t := a + b;
    forall k | 0 <= k < |t| && IsSpace(t[k])
      ensures t[k] == ' ' && 0 < k < |t| - 1 && !IsSpace(t[k - 1]) && !IsSpace(t[k + 1])
    {
      if k < |a| {
        assert t[k] == a[k] && t[k - 1] == a[k - 1] && t[k + 1] == a[k + 1];
      } else {
        assert t[k] == b[k - |a|] && t[k - 1] == b[k - |a| - 1] && t[k + 1] == b[k - |a| + 1];
      }
    }
  }

  /** A text is left unchanged by normalisation exactly when it is already normalised. */
  lemma NormalizeFixpoint(t: string)
    ensures Normalize([t]) == t <==> IsNormalized(t)
  {
    assert Join(" ", [t]) == t;
    NormalizeShape([t]);
    if IsNormalized(t) {
      JoinSplitNormalized(t);
    }
  }

  /** Normalising twice is normalising once. */
  lemma NormalizeIdempotent(pages: seq<string>)
    ensures Normalize([Normalize(pages)]) == Normalize(pages)
  {
    NormalizeShape(pages);
    NormalizeFixpoint(Normalize(pages));
  }
}
