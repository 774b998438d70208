# Balance due: extraction and summing, in Dafny

A model of the core of the "Balance due" web app (`app.py`). The user uploads a batch of PDF
documents. For each document the app:

1. collects the text of every page;
2. joins the page texts with spaces, splits the result on runs of whitespace and re-joins
   the tokens with single spaces;
3. searches that text, ignoring case, for `BALANCE_DUE_REGEX`:
   `\bBalance\s+due\b\s*:\s*\$?\s*([0-9]{1,3}(?:,[0-9]{3})*(?:\.[0-9]{2})?)`;
4. converts the captured numeral with `money_to_float`, which removes the commas and calls `float`.

Over the batch it builds one result row per file, adds up the amounts that were found and
counts the files where none was found.

## Files

| file | module | contents |
|---|---|---|
| `wrappers.dfy` | `Wrappers` | `Option`, which stands for Python's `None` or a value. |
| `chars.dfy` | `Chars` | Character classes: `str.isspace` / `\s` (the 29 whitespace characters), ASCII digits, ASCII `\w`, and ASCII lower-casing for `re.IGNORECASE`. |
| `normalize.dfy` | `TextNormalizer` | `str.split()`, `" ".join` and the normalisation of line 76, with its properties. |
| `money.dfy` | `Money` | The numeral sub-pattern as a grammar. The greedy scan that finds where the numeral ends. `money_to_float` in exact cents. A canonical formatter, used only as the inverse in a round trip. |
| `balance_due.dfy` | `BalanceDue` | The pattern, stated declaratively by `MatchShape`. A scanner `TryMatchAt` proved equivalent to it. `re.search` as `Search`. The extractor `ExtractFromText` and `extract_balance_due_from_bytes` as the method `ExtractBalanceDue`. Case insensitivity. |
| `summary.dfy` | `Summary` | The loop of `index` over the uploaded files, as the method `Summarize`, with its specification functions. |
| `scenarios.dfy` | `Scenarios` | Whole-pipeline consequences for concrete shapes of invoice text. |

Design choices:

- Amounts are `nat` cents. The pattern admits no sign and no parentheses, so a captured
  amount is never negative.
- The regular expression is not interpreted by a general engine. `MatchShape(t, i, p2, p4, p5, p6, p7)`
  says where each part of the pattern starts and ends. `CapturesAt` says the pattern matches at
  `i` with group 1 starting at `p`. `MatchesAt` says it matches at `i`. `FirstMatch` says `i` is the
  leftmost match. `LongestNumeral` says group 1 is the longest prefix that satisfies the numeral grammar.
  The last of these is how the greedy quantifiers behave here: nothing follows the group, so
  backtracking never shortens it.
- The page texts are the input. PyMuPDF is not part of this model.

## Model

| member | source | states |
|---|---|---|
| TextNormalizer.NormalizeShape | app.py:76 | The normalised text has no whitespace at either end and no two whitespace characters in a row; every whitespace character in it is a plain space. Its tokens are the tokens of the pages, page after page. |
| TextNormalizer.Split | app.py:76 | `str.split()` with no separator: the maximal runs of non-whitespace characters, in order, with whitespace at the ends and runs of whitespace between them dropped. Its properties are stated by `SplitTokens`, `SplitAppendSpace` and `SplitJoinTokens`. |
| TextNormalizer.Join | app.py:76 | `sep.join(parts)`: the parts in order with `sep` between consecutive parts, and the empty string for no parts. |
| TextNormalizer.Normalize | app.py:76 | `" ".join(" ".join(text_parts).split())` over the page texts. Its properties are stated by `NormalizeShape`, `NormalizeFixpoint` and `NormalizeIdempotent`. |
| TextNormalizer.SplitTokens | app.py:76 | Every piece `str.split()` returns is non-empty and free of whitespace. |
| TextNormalizer.SplitAppendSpace | app.py:76 | Splitting text that has a whitespace character in it equals splitting the two sides of that character separately and concatenating the results. |
| TextNormalizer.SplitJoinTokens | app.py:76 | Splitting the space-join of tokens gives the same tokens back. |
| TextNormalizer.JoinTokensNormalized | app.py:76 | The space-join of tokens is normalised, is empty only when there are no tokens, and starts and ends with a non-space. |
| TextNormalizer.SplitJoinPages | app.py:72-76 | Splitting the pages joined with spaces gives the tokens of every page, in page order. |
| TextNormalizer.JoinSplitNormalized | app.py:76 | On normalised text, splitting and re-joining with spaces is the identity. |
| TextNormalizer.NormalizedAppend | app.py:76 | Two normalised texts that meet at non-space characters concatenate to a normalised text. |
| TextNormalizer.NormalizeFixpoint | app.py:76 | Normalisation leaves a text unchanged exactly when the text is already normalised (both directions). |
| TextNormalizer.NormalizeIdempotent | app.py:76 | Normalising twice gives the same result as normalising once. |
| Money.LeadEnd | app.py:8 | `[0-9]{1,3}` taken greedily: one to three digits, and it stops early only at a non-digit or at the end of the text. |
| Money.GroupsEnd | app.py:8 | `(?:,[0-9]{3})*` taken greedily: the part scanned is a sequence of groups, and no further group follows it. |
| Money.NumeralEnd | app.py:8 | The greedy scan from a digit ends after a non-empty prefix that satisfies the numeral grammar. |
| Money.GroupsMaximal | app.py:8 | No sequence of groups from the same position runs past the greedy one. |
| Money.NumeralNoLonger | app.py:8 | Any numeral that starts at `p` ends no later than the greedy scan. |
| Money.NumeralEndLongest | app.py:8 | The greedy scan captures the longest prefix that satisfies the numeral grammar, which is what the regular expression captures. |
| Money.NumeralChars | app.py:8 | A numeral consists only of digits, commas and a dot. |
| Money.NumeralEndWhole | app.py:8 | On a whole numeral, the greedy scan from its first digit runs to its end. |
| Money.StripCommas | app.py:68 | `s.replace(",", "")`: the result has no comma and is no longer than `s`. `StripCommasChar`, `StripCommasNoCommas` and `StripCommasAppend` together fix it on every input: each comma is dropped and every other character is kept, in order. |
| Money.StripCommasChar | app.py:68 | A single comma is removed, and any other single character is kept. |
| Money.StripCommasNoCommas | app.py:68 | Text that contains no comma is left unchanged. |
| Money.MoneyToCents | app.py:67-68 | `money_to_float` in cents: `float` of the comma-free numeral, times 100. Its value is stated by `MoneyToCentsOfSplit` and `FormatCentsRoundTrip`. |
| Money.StripCommasAppend | app.py:68 | `replace(",", "")` distributes over concatenation. |
| Money.NumeralStripsToDecimal | app.py:67-68 | Without its commas, a numeral is digits with an optional `.dd`, which `float` reads. |
| Money.MoneyToCentsOfSplit | app.py:67-68 | A numeral with whole part W (its digits once the commas are removed) and fraction `.xy` is worth W·100 + 10·x + y cents. Without a fraction it is worth W·100 cents. |
| Money.FormatCentsRoundTrip | app.py:67-68 | Every amount has a comma-grouped numeral with two decimals that satisfies the grammar and that `money_to_float` reads back as the same amount. |
| BalanceDue.MatchShape | app.py:8 | The pattern as a predicate. It gives the positions where its parts start and end: a word boundary, `balance` ignoring case, one or more whitespace characters, `due` ignoring case, a word boundary, optional whitespace, `:`, optional whitespace, an optional `$`, optional whitespace, and a digit where group 1 starts. |
| BalanceDue.TryMatchAt | app.py:7-10 | The scanner at one position: where group 1 starts if the pattern matches there, and `None` otherwise. `TryMatchAtCorrect` proves it equivalent to `MatchShape`. |
| BalanceDue.SkipSpacesUnique | app.py:8 | A whitespace run that stops at a non-space ends where the scanner's `\s*` stops. |
| BalanceDue.TryMatchAtSound | app.py:7-10 | What the scanner finds at `i` is a match of the pattern, with group 1 starting where the scanner says. |
| BalanceDue.TryMatchAtComplete | app.py:7-10 | Every way the pattern can match at `i` has its group start where the scanner finds it. |
| BalanceDue.TryMatchAtCorrect | app.py:7-10 | The scanner finds a match at `i` exactly when the pattern matches at `i`, and it returns exactly the group starts the pattern allows. |
| BalanceDue.GroupSpanUnique | app.py:8 | Group 1 of a match is unique, however `\s*` and `\$?` are split. |
| BalanceDue.FirstMatchUnique | app.py:77 | There is only one leftmost match. |
| BalanceDue.Search | app.py:77 | `re.search` returns no match only when no position at or after the start matches. Otherwise it returns the leftmost match position and group 1 of that match. |
| BalanceDue.ExtractFromText | app.py:77-80 | The result is `None` exactly when no position matches. Otherwise it is `money_to_float` of group 1 of the leftmost match. |
| BalanceDue.ExtractFromFirstMatch | app.py:77-80 | Conversely, the leftmost match and its group determine the result. |
| BalanceDue.ExtractBalanceDue | app.py:70-80 | The method collects the page texts in a loop, normalises them, searches and converts, and returns the extractor's value for those pages. |
| BalanceDue.BalanceDueOf | app.py:70-80 | `extract_balance_due_from_bytes` given the page texts: the extractor applied to the normalised text. `ExtractBalanceDue` computes it with the source's loop. |
| BalanceDue.BalanceDueLayoutFree | app.py:72-77 | Only the whitespace-separated words of the pages decide the result, not their layout or page breaks. |
| BalanceDue.BalanceDueRenormalized | app.py:76-77 | Extracting from the already normalised text gives the same result. |
| BalanceDue.MatchShapeIgnoresCase | app.py:8-9 | A match survives any change of letter case in the text. |
| BalanceDue.NumeralIgnoresCase | app.py:8-9 | A change of case never changes a numeral. |
| BalanceDue.MatchIgnoresCase | app.py:8-9 | Texts that differ only in letter case have the same matches, at the same positions, with the same group 1. |
| BalanceDue.ExtractIgnoresCase | app.py:8-9 | Texts that differ only in letter case give the same extracted amount. |
| Summary.RowsOf | app.py:92-95 | There is one row per uploaded file. |
| Summary.Summarize | app.py:88-99 | The loop builds one row per file, in order, each with that file's extracted amount. `total` is the sum of the amounts found, `missing` is the number of rows without one, and the row count is `missing` plus the number of rows with an amount. With no files, the rows are empty and both counters are 0. |
| Summary.RowOf | app.py:94-95 | The row appended for one file: its file name and the amount extracted from its pages, or `None`. |
| Summary.RowsOfAt | app.py:92-95 | Row `k` is file `k`'s name together with its extracted amount. |
| Summary.AppendRow | app.py:95-99 | Appending a row adds 1 to the missing count when its amount is absent, and adds its amount to the total otherwise. |
| Summary.RowsPartition | app.py:88-99 | Every row has an amount or counts as missing, never both. |
| Summary.SummaryAdditive | app.py:92-99 | The counts and the total of a batch are the sums of those of its parts. |
| Summary.TotalWithoutAmounts | app.py:96-99 | When no file has an amount, the total is 0 and every file is counted as missing. |
| Chars.SameFoldSameClass | app.py:8-9 | Characters that are equal up to case agree on `\s` and `\w`, and non-letters are left unchanged by case folding. |
| Scenarios.LabelledShape | app.py:8 | `Balance due: $` followed by a digit, with no word character before it, matches with group 1 at that digit. |
| Scenarios.LabelledExtract | app.py:77-80 | When nothing earlier matches, the amount after the label is the greedy numeral that follows it. |
| Scenarios.LabelledNumeral | app.py:77-80 | The label followed by a numeral gives that numeral's amount. |
| Scenarios.LabelledAmountRoundTrip | app.py:67-80 | A one-page document reading `Balance due: $` and a formatted amount gives back exactly that amount. |
| Scenarios.NoAmountAfterColon | app.py:8 | After `Balance due: `, any character other than whitespace, `$` or a digit leaves the label unmatched. |
| Scenarios.SignedAmountUnmatched | app.py:8 | `Balance due: -$…` and `Balance due: ($…` do not match at the label. |
| Scenarios.NotAvailableUnmatched | app.py:8 | No match starts inside `Balance due: N/A `, whatever text follows it. |
| Scenarios.LaterLabelFound | app.py:77-79 | A label with no amount does not stop the search: the amount after the next label is found. |
| Scenarios.LabelledNumeralNormal | app.py:76 | The label followed by a numeral is already normalised. |
| Scenarios.UngroupedAmountTruncated | app.py:8 | After the label, a run of four or more digits without commas, such as `1234.56`, captures only its first three digits, read as whole dollars. |
| Scenarios.GroupedAmountRead | app.py:67-68 | `Balance due: $1,234.56` yields 123456 cents. |

## Left out

- Flask routing, reading the uploaded files, the HTML template and `render_template_string`: transport and presentation. `Summarize` takes the files' names and page texts as input.
- PyMuPDF (`fitz.open`, `page.get_text`, `doc.close`): a binary PDF parser. Its output, the text of each page, is the input of `ExtractBalanceDue` and of `BalanceDueOf`.
- Unreadable uploads: `fitz.open` raises on an upload it cannot open as a PDF. Nothing in `extract_balance_due_from_bytes` or in the loop of `index` catches the exception, so one such file ends the whole request with no rows, no total and no missing count. The model assumes that every file yields its page texts, so `Summarize` always returns one row per file.
- Floating point: `float(...)` and `total += amt` are modelled in exact whole cents. Rounding of binary floats and of the running sum is not modelled.
- The `{:,.2f}` display of amounts on the result page: presentation. `Money.FormatCents` exists only as the inverse in the round-trip lemma.
- Money.MoneyToCents: requires its argument to satisfy the numeral grammar. The only caller passes group 1 of a match. `float` on other strings, including its `ValueError`, is not modelled.
- Non-ASCII word characters for `\b`: `\w` is modelled as `[A-Za-z0-9_]`. Python 3 `str` patterns also count Unicode letters and digits, which the model does not.
- Non-ASCII case folding for `re.IGNORECASE`: only ASCII letters fold. Python also folds a few non-ASCII characters onto ASCII letters, such as KELVIN SIGN onto `k`. None of the letters of `balance` and `due` has such a partner, so the label matches the same texts.
- Negative amounts: the pattern has no sign and no parentheses, so a negative amount is never captured. `Scenarios.SignedAmountUnmatched` shows that such text does not match at that label.
