# Reference-section cut-off for a PDF paper summariser

The program summarises an academic paper without its bibliography. It
finds the page on which the references section starts (`find_reference_page`)
and copies the pages before it into a new document (`extract_pages_until`).
It then hands either that copy or the original file to an external
summariser and writes the summary under a name derived from the input.

This project models that logic in Dafny:

- `text.dfy` (module `Text`): the Python string operations the program
  relies on. These are `str.strip`, `str.split` with one separator,
  `str.replace`, the substring test `in`, and the whitespace, digit and
  lower-case character classes. `str.rfind` is modelled for `Path.stem`,
  which uses it.
- `header_pattern.dfy` (module `HeaderPattern`): the compiled header pattern
  `^\s*(?:\d+\.?\s*)?(references|bibliography|works cited|literature cited)\s*$`
  with `re.IGNORECASE`. `MatchesPattern` states what the regular expression
  accepts, as a split of the line into its parts. `Matches` is a
  deterministic left-to-right scanner. The two are proved equal, and so are
  "accepted after `strip()`" and "accepted as is".
- `early_page_guard.dfy` (module `EarlyPageGuard`): the false-positive guard
  `page_num < len(doc) * 0.1`, written out in IEEE-754 double arithmetic.
  The integer count is converted to a double, multiplied by the double
  nearest to 0.1, rounded to 53 bits with ties to even, and compared
  exactly. It is proved to be the integer test `10 * k < n` for every page
  count below 2^50.
- `reference_page.dfy` (module `ReferencePage`): `find_reference_page`.
  - A document is its pages; a page is its blocks' texts in extraction order.
  - The scan is three loop methods (lines, blocks, pages), each proved
    against a specification predicate.
  - `FirstReferencePage` states what the scan returns. Lemmas state the
    bound, the witness, earliest match, `None` exactly when no page
    qualifies, that page 0 is never returned, and, for page counts below
    2^50, that a returned page `k` has `10 * k >= n`.
  - The scan is stated for any whole-line test. The program's test is
    `HeaderTest`, the header pattern's `match`.
- `truncation.dfy` (module `Truncation`): `extract_pages_until` as a prefix
  of the document, and the truncate-or-not decision in `main`. The document
  summarised is a prefix, it holds no qualifying header page, and it is
  shorter than the original exactly when the scan returned `Some(k)` with
  `k > 0`.
- `naming.dfy` (module `Naming`): how `main` classifies its input, the arXiv
  abstract-to-PDF URL rewrite, and the summary file name.
- `wrappers.dfy` (module `Wrappers`): the `Option` type for `None` results.

## Model

| member | source | states |
|---|---|---|
| Text.IsSpace | main.py:43-55 | defines the whitespace class of `\s` and `str.isspace`: the ASCII controls 9-13 and 28-31, the space, and the Unicode separators; `Strip` and the pattern use it |
| Text.Strip | main.py:55 | `line.strip()` is no longer than the line and, unless empty, starts and ends with a non-whitespace character |
| Text.StripIsMiddle | main.py:55 | the line is a whitespace run, then its stripped form, then a whitespace run |
| Text.Split | main.py:52 | `block_text.split("\n")` gives at least one piece and no piece holds the separator |
| Text.JoinSplit | main.py:52 | joining the pieces with the separator gives the block text back |
| Text.SplitJoin | main.py:52 | splitting a join of separator-free pieces gives the pieces back |
| Text.LastPiece | main.py:188 | `split("/")[-1]` holds no `/`, is a suffix of the input, and is preceded by `/` unless it is the whole input |
| Text.Replace | main.py:97 | defines `str.replace`: each occurrence of the pattern, found left to right without overlap, is replaced; its contract is carried by the three lemmas below |
| Text.ReplaceKeepsLength | main.py:97 | replacing a pattern by a string of equal length keeps the length |
| Text.ReplaceAbsent | main.py:97 | `replace` leaves a string without the pattern unchanged |
| Text.ReplaceSkipsPrefix | main.py:97 | characters before the first occurrence of the pattern are copied unchanged |
| Text.Contains | main.py:137 | defines Python's substring test `in`: the pattern occurs at some index; `ExampleIsArxivUrl` and `SummaryFilename` use it |
| Text.LastIndexOf | main.py:185 | `rfind` returns -1 or an index holding the character, with no later occurrence |
| HeaderPattern.EqualsIgnoringCase | main.py:43-44 | defines the `re.IGNORECASE` comparison of a line part with a lower-case section name: equal length, equal after ASCII lower-casing |
| HeaderPattern.MatchesPattern | main.py:43 | defines the language of the regular expression as a split of the line into leading whitespace, optional numbering, a section name and trailing whitespace; its contract with the scanner is `MatchesIffPattern` |
| HeaderPattern.Matches | main.py:42-45 | defines the scanner: skip whitespace, an optional numbering, then a section name followed only by whitespace; its contract is `MatchesIffPattern` |
| HeaderPattern.IsHeaderLine | main.py:55-57 | defines `HEADER_PATTERN.match(line.strip())`; its contract is `HeaderLineIffPattern` |
| HeaderPattern.MatchesIffPattern | main.py:42-45 | the scanner accepts a string exactly when the regular expression's optional numbering, section name and surrounding whitespace split it |
| HeaderPattern.HeaderLineIffPattern | main.py:55-57 | `match(line.strip())` succeeds exactly when the pattern accepts the unstripped line |
| HeaderPattern.HeaderLineShape | main.py:43 | a header line, stripped, ends with one of the four section names in any case, preceded only by digits, dots and whitespace |
| HeaderPattern.KeywordEnds | main.py:43 | each section name is non-empty; its first character is not whitespace, a digit or `.`, and its last is not whitespace |
| HeaderPattern.TrailingTextIsNoHeader | main.py:43 | a stripped line whose last character, lower-cased, is not `s`, `y` or `d` is not a header |
| HeaderPattern.NumberedHeaderMatches | main.py:42-45 | `5. References` is a header line |
| HeaderPattern.PaddedCapitalHeaderMatches | main.py:42-45 | `  BIBLIOGRAPHY  ` is a header line |
| HeaderPattern.CitationDoesNotMatch | main.py:42-45 | `See References [12]` is not a header line |
| HeaderPattern.SentenceDoesNotMatch | main.py:42-45 | `Recent work cites many References.` is not a header line |
| EarlyPageGuard.RoundToDouble | main.py:59 | the rounded value is a multiple of the unit in the last place and within half a unit of the integer; a tie goes to the even multiple; it equals the integer below 2^53 and is positive for a positive integer |
| EarlyPageGuard.RoundBits | main.py:59 | rounding to a multiple of `2^s`: the result has no low bits, lies within half of `2^s`, takes the even multiple on a tie, and is not below the value with its low bits cleared |
| EarlyPageGuard.RoundToDoubleIsNearest | main.py:59 | no multiple of the unit in the last place is nearer to the integer than the rounded value |
| EarlyPageGuard.TenthOf | main.py:59 | defines `len(doc) * 0.1` as a double: the count converted to a double, times the double nearest 0.1, rounded again |
| EarlyPageGuard.InFirstTenth | main.py:59 | defines the guard `page_num < len(doc) * 0.1`, an exact comparison of the integer with that double; its contract is `InFirstTenthExact` |
| EarlyPageGuard.ExactTenthRoundsToPage | main.py:59 | for `n < 2^50` and `n == 10 * k`, the double product `n * 0.1` is exactly `k` |
| EarlyPageGuard.InFirstTenthExact | main.py:59 | for `n < 2^50`, `k < n * 0.1` in double arithmetic holds exactly when `10 * k < n` |
| ReferencePage.Lines | main.py:52 | defines `block_text.split("\n")`; its contract is `Text.Split`'s |
| ReferencePage.FirstReferencePage | main.py:34-64 | defines the scan's result as the first qualifying page from page 0; its contract is `FirstReferencePageFrom`'s and the lemmas below |
| ReferencePage.FirstReferencePageFrom | main.py:47-64 | the first page from `p` on that holds a header line and passes the guard: it qualifies, no earlier one from `p` does, and `None` means none does |
| ReferencePage.ScanBlock | main.py:54-62 | the line loop reports a match exactly when the page is not guarded and some stripped line of the block matches |
| ReferencePage.ScanPage | main.py:50-62 | the block loop reports a match exactly when the page is not guarded and some block holds a header line |
| ReferencePage.FindReferencePage | main.py:34-64 | the nested scan returns the first qualifying page, or `None` |
| ReferencePage.HeaderTestIsPattern | main.py:57 | with the program's test, a header line is exactly a line the regular expression accepts |
| ReferencePage.FirstReferencePageIsEarliest | main.py:47-64 | the result is `Some(k)` exactly when page `k` exists and qualifies and no earlier page does |
| ReferencePage.NoReferencePageIffNoneQualifies | main.py:64 | the result is `None` exactly when no page qualifies, so for the empty document |
| ReferencePage.FirstPageIsGuarded | main.py:59 | the guard discards page 0 of every non-empty document |
| ReferencePage.FirstPageNeverReturned | main.py:59-62 | page 0 is never returned |
| ReferencePage.ReferencePageAfterFirstTenth | main.py:59-62 | for page counts below 2^50, a returned page `k` has `10 * k >= n` |
| ReferencePage.ReferencePageInIntegers | main.py:47-64 | for page counts below 2^50, `Some(k)` exactly for the first page with a header line and `10 * k >= n`, and `None` exactly when there is none, so headers only in the first tenth give `None` |
| Truncation.ExtractPagesUntil | main.py:67-87 | the new document has `last + 1` pages, equal to the source's first pages in order |
| Truncation.ExtractThenRestIsDocument | main.py:77 | the extracted pages followed by the remaining pages are the source document |
| Truncation.ExtractTwice | main.py:77 | extracting up to `last`, then up to `other <= last`, is extracting up to `other` |
| Truncation.TargetDocument | main.py:156-165 | defines the document handed on: the first `k` pages after `Some(k)` with `k > 0`, else the whole document; its contract is `TargetIsPrefix` and `TargetExcludesReferences` |
| Truncation.PrepareTarget | main.py:154-165 | the document handed on is the policy applied to the scan's result, and a copy is made exactly when it is shorter than the original |
| Truncation.TargetIsPrefix | main.py:156-165 | the document handed on is a prefix; it is shorter exactly for `Some(k)` with `k > 0`, and then it is the first `k` pages |
| Truncation.TargetExcludesReferences | main.py:154-165 | no page of the document handed on qualifies, and after `Some(k)` it has exactly `k` pages |
| Truncation.TargetKeepsFirstTenth | main.py:154-165 | for page counts below 2^50, the document handed on keeps at least a tenth of the pages |
| Naming.Classify | main.py:136-137 | defines the three kinds of input: a URL (`http://` or `https://`) holding `arxiv.org`, any other URL, a local path |
| Naming.ArxivPdfUrl | main.py:97 | the rewritten URL has the length of the original |
| Naming.UrlWithoutAbstractUnchanged | main.py:97 | a URL without `/abs/` is left as it is |
| Naming.AbstractUrlBecomesPdfUrl | main.py:97 | `base + "/abs/" + id`, with no other `/abs/`, becomes `base + "/pdf/" + id` |
| Naming.ExampleAbstractUrl | main.py:96-97 | `https://arxiv.org/abs/2507.19457` becomes `https://arxiv.org/pdf/2507.19457` |
| Naming.ExampleIsArxivUrl | main.py:136-137 | `https://arxiv.org/abs/2507.19457` is classified as an arXiv URL |
| Naming.PathName | main.py:185 | a path's name holds no `/` and ends the path |
| Naming.Stem | main.py:185 | defines `Path(p).stem` as in Python 3.12 and 3.13, the name up to its last `.` unless that dot is first or last; its contract is `StemThenSuffix` |
| Naming.StemThenSuffix | main.py:185 | a name is its stem followed by its suffix; the suffix is empty or a dot with no further dot; a non-empty name has a non-empty stem |
| Naming.ExampleStem | main.py:185 | the stem of `attention.pdf` is `attention` |
| Naming.SummaryFilename | main.py:185-189 | no name for a refused URL; otherwise it starts with `summary_`, ends with `.md` and holds no `/` |
| Naming.LastPieceAfterSlash | main.py:188 | the last `/`-piece of `base + "/" + id` is `id` when `id` holds no `/` |
| Naming.ArxivSummaryNamedAfterId | main.py:187-189 | an arXiv URL ending in `/<id>` gives `summary_arxiv_<id>.md` |
| Naming.LocalSummaryNamedAfterStem | main.py:185 | a local path ending in `/<stem>.<ext>`, with a non-empty `stem` and a non-empty `ext` without dots, gives `summary_<stem>.md` |

## Left out

- Opening and reading PDFs (`pymupdf.open`, `page.get_text("blocks")`,
  `insert_pdf`, `save`) belongs to a foreign library. A document is given
  as the block texts (`block[4]`) of its pages. A page is a value, so what
  `insert_pdf` copies besides the text (images, links, annotations) is not
  modelled.
- Truncation.ExtractPagesUntil: requires `last < |doc|`. The program only
  calls it with `k - 1` for a page `k` the scan returned. What `insert_pdf`
  does with an out-of-range `to_page` belongs to the PDF library.
- Temporary files, the HTTP download, the `gemini` subprocess, the output
  directory, writing the summary file and deleting temporary files are I/O.
  So are the `PROMPT` text, the default constants, `argparse` and the
  `print` diagnostics.
- Error exits that depend on I/O are not modelled: a missing local file, a
  failed download and a failing summariser.
- Naming.SummaryFilename: gives the name the program would write once it
  gets that far. For an unsupported URL it gives no name.
- ReferencePage.FindReferencePage: evaluates the guard once per page. The program
  evaluates `len(doc) * 0.1` again at every matching line. The value is the
  same every time, so the result is unchanged.
- Digits are ASCII `0`-`9` and case-insensitivity is ASCII only. Python's
  `\d` also accepts other Unicode decimal digits. `re.IGNORECASE` also
  folds a few non-ASCII letters onto ASCII ones: the Kelvin sign, the long
  s, the dotted capital I and the dotless i (U+0131). Whitespace is modelled exactly: the
  characters `str.isspace` and the regular expression's `\s` accept.
- EarlyPageGuard.InFirstTenthExact: proved for page counts below 2^50. The
  as-written double guard is still modelled for every count. The double
  model has no exponent limit, so a count too large for a double
  (`OverflowError` in Python) is not modelled.
- EarlyPageGuard.ExactTenthRoundsToPage: stated for `n < 2^50` only. It
  serves `InFirstTenthExact`. From 2^53 on, the count itself is no longer
  exact as a double.
- ReferencePage.ReferencePageAfterFirstTenth: stated for page counts below
  2^50, for the same reason.
- ReferencePage.ReferencePageInIntegers: stated for page counts below
  2^50, for the same reason.
- Truncation.TargetKeepsFirstTenth: stated for page counts below 2^50, for
  the same reason.
- Naming.PathName: takes the text after the last `/`. `pathlib` also
  collapses repeated separators, ignores a trailing separator and `.`
  components, and treats `\` as a separator on Windows.
- Naming.Stem: follows `Path.stem` of Python 3.12 and 3.13, where a
  trailing dot is no suffix (`foo.` keeps its dot). Python 3.14 cuts a
  single trailing dot, which the model does not.
- The branch at main.py:98 has an empty body, so it is not modelled.
