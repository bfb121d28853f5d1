/**
 * `find_reference_page`: the scan that finds the page on which the
 * references section starts. A document is its pages in order, a page its
 * blocks' texts in extraction order; the scan walks pages, then blocks, then
 * the lines of each block, strips each line and tests it with the header
 * pattern's `match`, and returns the first page outside the guarded first
 * tenth of the document that holds a matching line.
 *
 * The scan is stated for any line test `matches`; the program's own test is
 * `HeaderPattern.Matches` (see `HeaderTest` and `HeaderTestIsPattern`).
 */
module ReferencePage {
  import opened Wrappers
  import opened Text
  import HeaderPattern
  import opened EarlyPageGuard

  /** The raw text of one extracted block (the fifth field of a `get_text("blocks")` entry). */
  type Block = string

  /** A page: its blocks in extraction order. */
  type Page = seq<Block>

  /** A document: its pages in order, page `k` at index `k`. */
  type Document = seq<Page>

  /** A whole-line test applied to a stripped line, as `header_pattern.match(clean_line)` is. */
  type LineTest = string -> bool

  /** The lines of a block: its text split on `"\n"`. */
  function Lines(block: Block): seq<string>
  {
    Split(block, '\n')
  }

  /**
   * The line, once stripped, passes the test. With the program's test
   * `HeaderTest` this is `HeaderPattern.IsHeaderLine`.
   */
  predicate IsHeader(line: string, matches: LineTest)
  {
    matches(Strip(line))
  }

  /** Some line of the block is a header. */
  predicate BlockHasHeader(block: Block, matches: LineTest)
  {
    exists l | 0 <= l < |Lines(block)| :: IsHeader(Lines(block)[l], matches)
  }

  /** Some block of the page holds a header line. */
  predicate PageHasHeader(page: Page, matches: LineTest)
  {
    exists b | 0 <= b < |page| :: BlockHasHeader(page[b], matches)
  }

  /** Page `k` holds a header line and the guard does not discard it. */
  predicate Qualifies(doc: Document, k: nat, matches: LineTest)
    requires k < |doc|
  {
    PageHasHeader(doc[k], matches) && !InFirstTenth(k, |doc|)
  }

  /**
   * The first qualifying page at or after `p`, or `None`: the returned page
   * qualifies and none between `p` and it does; `None` means no page from
   * `p` on qualifies.
   */
  function FirstReferencePageFrom(doc: Document, p: nat, matches: LineTest): (r: Option<nat>)
    requires p <= |doc|
    ensures r.Some? ==> p <= r.value < |doc| && Qualifies(doc, r.value, matches)
    ensures r.Some? ==> forall j :: p <= j < r.value ==> !Qualifies(doc, j, matches)
    ensures r.None? ==> forall j :: p <= j < |doc| ==> !Qualifies(doc, j, matches)
    decreases |doc| - p
  {
    if p == |doc| then None
    else if Qualifies(doc, p, matches) then Some(p)
    else FirstReferencePageFrom(doc, p + 1, matches)
  }

  /** What `find_reference_page` returns for a document. */
  function FirstReferencePage(doc: Document, matches: LineTest): Option<nat>
  {
    FirstReferencePageFrom(doc, 0, matches)
  }

  /**
   * The innermost loop of `find_reference_page` over the lines of one block:
   * a matching line on a guarded page is skipped (`continue`), the first one
   * on an unguarded page ends the scan.
   */
  method ScanBlock(block: Block, guarded: bool, matches: LineTest) returns (found: bool)
    ensures found <==> !guarded && BlockHasHeader(block, matches)
  {
    var lines := Lines(block);
    var l := 0;
    while l < |lines|
      invariant l <= |lines|
      invariant !guarded ==> forall l' :: 0 <= l' < l ==> !IsHeader(lines[l'], matches)
    {
      var cleanLine := Strip(lines[l]);
      if matches(cleanLine) {
        if guarded {
          l := l + 1;
          continue;
        }
        assert IsHeader(lines[l], matches);
        return true;
      }
      l := l + 1;
    }
    return false;
  }

  /** The loop over the blocks of one page. */
  method ScanPage(page: Page, guarded: bool, matches: LineTest) returns (found: bool)
    ensures found <==> !guarded && PageHasHeader(page, matches)
  {
    var b := 0;
    while b < |page|
      invariant b <= |page|
      invariant !guarded ==> forall b' :: 0 <= b' < b ==> !BlockHasHeader(page[b'], matches)
    {
      found := ScanBlock(page[b], guarded, matches);
      if found {
        return;
      }
      b := b + 1;
    }
    return false;
  }

  /**
   * `find_reference_page`: the loop over the pages. Whether the guard
   * discards a page is the same at every line of that page, so it is
   * computed once per page.
   */
  method FindReferencePage(doc: Document, matches: LineTest) returns (pageIndex: Option<nat>)
    ensures pageIndex == FirstReferencePage(doc, matches)
  {
    // `len(doc) * 0.1` as a double.
    var tenth := TenthOf(|doc|);
    var pageNum := 0;
    while pageNum < |doc|
      invariant pageNum <= |doc|
      invariant FirstReferencePageFrom(doc, pageNum, matches) == FirstReferencePage(doc, matches)
    {
      var found := ScanPage(doc[pageNum], pageNum * TwoTo55 < tenth, matches);
      if found {
        return Some(pageNum);
      }
      pageNum := pageNum + 1;
    }
    return None;
  }

  /** The test `find_reference_page` applies: the compiled header pattern's `match`. */
  const HeaderTest: LineTest := HeaderPattern.Matches

  /**
   * With the program's test, a header line is exactly a line the regular
   * expression accepts, stripped or not.
   */
  lemma HeaderTestIsPattern(line: string)
    ensures IsHeader(line, HeaderTest) <==> HeaderPattern.MatchesPattern(line)
  {
    HeaderPattern.HeaderLineIffPattern(line);
  }

  /**
   * The result names page `k` exactly when page `k` qualifies and no
   * earlier page does.
   */
  lemma FirstReferencePageIsEarliest(doc: Document, matches: LineTest, k: nat)
    ensures FirstReferencePage(doc, matches) == Some(k) <==>
      k < |doc| && Qualifies(doc, k, matches) && forall j :: 0 <= j < k ==> !Qualifies(doc, j, matches)
  {
  }

  /** The result is `None` exactly when no page qualifies; so for the empty document. */
  lemma NoReferencePageIffNoneQualifies(doc: Document, matches: LineTest)
    ensures FirstReferencePage(doc, matches).None? <==> forall j :: 0 <= j < |doc| ==> !Qualifies(doc, j, matches)
  {
  }

  /** The guard discards page 0 of every non-empty document. */
  lemma FirstPageIsGuarded(n: nat)
    requires n > 0
    ensures InFirstTenth(0, n)
  {
    assert RoundToDouble(n) > 0;
  }

  /** Page 0 is never returned. */
  lemma FirstPageNeverReturned(doc: Document, matches: LineTest)
    ensures FirstReferencePage(doc, matches) != Some(0)
  {
    if |doc| > 0 {
      FirstPageIsGuarded(|doc|);
    }
  }

  /**
   * For page counts below 2^50 a returned page lies outside the first tenth
   * of the document: `10 * k >= n`.
   */
  lemma ReferencePageAfterFirstTenth(doc: Document, matches: LineTest)
    requires |doc| < MaxExactPages
    ensures FirstReferencePage(doc, matches).Some? ==> 10 * FirstReferencePage(doc, matches).value >= |doc|
  {
    var r := FirstReferencePage(doc, matches);
    if r.Some? {
      InFirstTenthExact(r.value, |doc|);
    }
  }

  /**
   * For page counts below 2^50 the result in integer terms: `Some(k)` for
   * the first page with a header line and `10 * k >= n`, `None` when there
   * is none; headers only in the first tenth give `None`.
   */
  lemma ReferencePageInIntegers(doc: Document, matches: LineTest, k: nat)
    requires |doc| < MaxExactPages
    ensures FirstReferencePage(doc, matches) == Some(k) <==>
      && k < |doc| && 10 * k >= |doc| && PageHasHeader(doc[k], matches)
      && forall j :: 0 <= j < k && 10 * j >= |doc| ==> !PageHasHeader(doc[j], matches)
    ensures FirstReferencePage(doc, matches).None? <==>
      forall j :: 0 <= j < |doc| && 10 * j >= |doc| ==> !PageHasHeader(doc[j], matches)
  {
    forall j | 0 <= j < |doc| ensures Qualifies(doc, j, matches) <==> PageHasHeader(doc[j], matches) && 10 * j >= |doc| {
      InFirstTenthExact(j, |doc|);
    }
    FirstReferencePageIsEarliest(doc, matches, k);
    NoReferencePageIffNoneQualifies(doc, matches);
  }
}
