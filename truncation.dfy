/**
 * `extract_pages_until` and the decision in `main` whether to summarise a
 * truncated copy or the original document.
 */
module Truncation {
  import opened Wrappers
  import opened ReferencePage

  /**
   * `extract_pages_until(doc, last)`: a new document holding pages `0` to
   * `last` inclusive of `doc`, in order and unchanged.
   */
  function ExtractPagesUntil(doc: Document, last: nat): (r: Document)
    requires last < |doc|
    ensures |r| == last + 1
    ensures forall i :: 0 <= i < |r| ==> r[i] == doc[i]
  {
    doc[..last + 1]
  }

  /** The extracted pages followed by the pages after `last` are the document. */
  lemma ExtractThenRestIsDocument(doc: Document, last: nat)
    requires last < |doc|
    ensures ExtractPagesUntil(doc, last) + doc[last + 1..] == doc
  {
    var r := ExtractPagesUntil(doc, last);
    assert forall i :: 0 <= i < |doc| ==> (r + doc[last + 1..])[i] == doc[i];
  }

  /** Extracting up to `last` and then up to `other <= last` extracts up to `other`. */
  lemma ExtractTwice(doc: Document, last: nat, other: nat)
    requires other <= last < |doc|
    ensures ExtractPagesUntil(ExtractPagesUntil(doc, last), other) == ExtractPagesUntil(doc, other)
  {
    var a := ExtractPagesUntil(ExtractPagesUntil(doc, last), other);
    var b := ExtractPagesUntil(doc, other);
    assert forall i :: 0 <= i < |a| ==> a[i] == b[i];
  }

  /**
   * What `main` summarises for the result `pageIndex` of the reference scan:
   * the pages before `k` when the result is `Some(k)` with `k > 0`, the
   * original document otherwise.
   */
  function TargetDocument(doc: Document, pageIndex: Option<nat>): (target: Document)
    requires pageIndex.Some? ==> pageIndex.value < |doc|
  {
    if pageIndex.Some? && pageIndex.value > 0 then ExtractPagesUntil(doc, pageIndex.value - 1) else doc
  }

  /**
   * The truncate-or-not step of `main`: scan for the references page and
   * cut the document before it. `truncated` says whether a temporary copy
   * was made (`temp_pdf` is set).
   */
  method PrepareTarget(doc: Document, matches: LineTest) returns (target: Document, truncated: bool)
    ensures target == TargetDocument(doc, FirstReferencePage(doc, matches))
    ensures truncated <==> |target| < |doc|
  {
    var pageIndex := FindReferencePage(doc, matches);
    if pageIndex.Some? && pageIndex.value > 0 {
      target := ExtractPagesUntil(doc, pageIndex.value - 1);
      truncated := true;
    } else {
      target := doc;
      truncated := false;
    }
  }

  /**
   * The target is a prefix of the document; it is shorter exactly when the
   * result is `Some(k)` with `k > 0`, and then it is the first `k` pages,
   * which leaves page `k` out.
   */
  lemma TargetIsPrefix(doc: Document, pageIndex: Option<nat>)
    requires pageIndex.Some? ==> pageIndex.value < |doc|
    ensures var target := TargetDocument(doc, pageIndex);
      && |target| <= |doc|
      && (forall i :: 0 <= i < |target| ==> target[i] == doc[i])
      && (|target| < |doc| <==> pageIndex.Some? && pageIndex.value > 0)
      && (pageIndex.Some? && pageIndex.value > 0 ==> |target| == pageIndex.value)
  {
  }

  /**
   * Applied to the scan's result, the target holds no qualifying page: it
   * is cut before the references page, and it is the whole document only
   * when no page qualifies.
   */
  lemma TargetExcludesReferences(doc: Document, matches: LineTest)
    ensures var target := TargetDocument(doc, FirstReferencePage(doc, matches));
      forall j :: 0 <= j < |target| ==> j < |doc| && !Qualifies(doc, j, matches)
    ensures FirstReferencePage(doc, matches).Some? ==>
      |TargetDocument(doc, FirstReferencePage(doc, matches))| == FirstReferencePage(doc, matches).value
  {
    FirstPageNeverReturned(doc, matches);
    NoReferencePageIffNoneQualifies(doc, matches);
  }

  /**
   * For page counts below 2^50 the target keeps at least the first tenth of
   * the document: `10 * |target| >= n`.
   */
  lemma TargetKeepsFirstTenth(doc: Document, matches: LineTest)
    requires |doc| < EarlyPageGuard.MaxExactPages
    ensures 10 * |TargetDocument(doc, FirstReferencePage(doc, matches))| >= |doc|
  {
    ReferencePageAfterFirstTenth(doc, matches);
  }
}
