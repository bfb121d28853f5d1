/**
 * The string handling in `download_arxiv_pdf` and `main`: which kind of
 * input the program was given, the arXiv abstract-to-PDF URL rewrite, and
 * the name of the summary file.
 */
module Naming {
  import opened Wrappers
  import opened Text

  /** How `main` treats its input: an arXiv URL, any other URL (refused), or a local path. */
  datatype InputKind = ArxivUrl | UnsupportedUrl | LocalPath

  /** `input.startswith(("http://", "https://"))`, then `"arxiv.org" in input`. */
  function Classify(input: string): InputKind
  {
    if "http://" <= input || "https://" <= input then
      if Contains(input, "arxiv.org") then ArxivUrl else UnsupportedUrl
    else LocalPath
  }

  /** `url.replace("/abs/", "/pdf/")`: an abstract-page URL becomes its PDF URL. */
  function ArxivPdfUrl(url: string): (r: string)
    ensures |r| == |url|
  {
    ReplaceKeepsLength(url, "/abs/", "/pdf/");
    Replace(url, "/abs/", "/pdf/")
  }

  /** A URL without `/abs/`, such as a PDF link, is left as it is. */
  lemma UrlWithoutAbstractUnchanged(url: string)
    requires !Contains(url, "/abs/")
    ensures ArxivPdfUrl(url) == url
  {
    ReplaceAbsent(url, "/abs/", "/pdf/");
  }

  /**
   * An abstract URL `base + "/abs/" + id`, with no other `/abs/` in it,
   * becomes `base + "/pdf/" + id`.
   */
  lemma AbstractUrlBecomesPdfUrl(base: string, id: string)
    requires forall i :: 0 <= i < |base| ==> !OccursAt(base + "/abs/" + id, "/abs/", i)
    requires !Contains(id, "/abs/")
    ensures ArxivPdfUrl(base + "/abs/" + id) == base + "/pdf/" + id
  {
    var url := base + "/abs/" + id;
    ReplaceSkipsPrefix(url, "/abs/", "/pdf/", |base|);
    var rest := url[|base|..];
    assert rest == "/abs/" + id;
    assert rest[5..] == id;
    ReplaceAbsent(id, "/abs/", "/pdf/");
    assert url[..|base|] == base;
  }

  /** Python's `Path(p).name`, the text after the last `/`. */
  function PathName(p: string): (r: string)
    ensures '/' !in r && EndsWith(p, r)
    ensures |r| < |p| ==> p[|p| - |r| - 1] == '/'
  {
    LastPiece(p, '/')
  }

  /** Where `Path.stem` cuts a name: the last `.` if it is neither first nor last, else none. */
  function SuffixStart(name: string): (i: nat)
    ensures i <= |name|
  {
    var i := LastIndexOf(name, '.');
    if 0 < i < |name| - 1 then i else |name|
  }

  /** `Path(p).stem`: the name without its last suffix. */
  function Stem(name: string): string
  {
    name[..SuffixStart(name)]
  }

  /** `Path(p).suffix`: the last suffix, dot included, or the empty string. */
  function Suffix(name: string): string
  {
    name[SuffixStart(name)..]
  }

  /**
   * A name is its stem then its suffix; a suffix is empty or a dot followed
   * by at least one character and no further dot; the stem of a non-empty
   * name is not empty.
   */
  lemma StemThenSuffix(name: string)
    ensures Stem(name) + Suffix(name) == name
    ensures var x := Suffix(name); x == [] || (|x| >= 2 && x[0] == '.' && '.' !in x[1..])
    ensures name != [] ==> Stem(name) != []
  {
    var i := LastIndexOf(name, '.');
    var x := Suffix(name);
    if 0 < i < |name| - 1 {
      var tail := x[1..];
      forall k | 0 <= k < |tail| ensures tail[k] != '.' {
        assert tail[k] == name[i + 1 + k];
      }
    }
  }

  /**
   * The summary file name `main` writes: `summary_arxiv_<last URL piece>.md`
   * for an arXiv URL, `summary_<stem>.md` for a local file, and nothing for
   * any other URL, which `main` refuses. The name never holds a `/`, so the
   * file lands directly in the output directory.
   */
  function SummaryFilename(input: string): (r: Option<string>)
    ensures r.None? <==> Classify(input) == UnsupportedUrl
    ensures r.Some? ==> "summary_" <= r.value && EndsWith(r.value, ".md") && '/' !in r.value
  {
    match Classify(input)
    case UnsupportedUrl => None
    case ArxivUrl => Some("summary_arxiv_" + LastPiece(input, '/') + ".md")
    case LocalPath => Some("summary_" + Stem(PathName(input)) + ".md")
  }

  /** The piece after the last `/` of `base + "/" + id` is `id` when `id` holds no `/`. */
  lemma LastPieceAfterSlash(base: string, id: string)
    requires '/' !in id
    ensures LastPiece(base + "/" + id, '/') == id
  {
    var s := base + "/" + id;
    var r := LastPiece(s, '/');
    assert s[|base|] == '/';
    forall j | |s| - |r| <= j < |s| ensures s[j] != '/' {
      assert s[j] == r[j - (|s| - |r|)];
    }
    forall j | |base| < j < |s| ensures s[j] != '/' {
      assert s[j] == id[j - |base| - 1];
    }
    assert s[|s| - |id|..] == id;
  }

  /** For an arXiv URL ending in `/<id>` the summary is named after `id`. */
  lemma ArxivSummaryNamedAfterId(base: string, id: string)
    requires '/' !in id && Classify(base + "/" + id) == ArxivUrl
    ensures SummaryFilename(base + "/" + id) == Some("summary_arxiv_" + id + ".md")
  {
    LastPieceAfterSlash(base, id);
  }

  /**
   * For a local path ending in `/<stem>.<ext>` the summary is named after
   * `stem`, the file name without its last suffix.
   */
  lemma LocalSummaryNamedAfterStem(dir: string, stem: string, ext: string)
    requires '/' !in stem && '/' !in ext && '.' !in ext
    requires |stem| > 0 && |ext| > 0
    requires Classify(dir + "/" + stem + "." + ext) == LocalPath
    ensures SummaryFilename(dir + "/" + stem + "." + ext) == Some("summary_" + stem + ".md")
  {
    var name := stem + "." + ext;
    assert dir + "/" + stem + "." + ext == dir + "/" + name;
    forall j | 0 <= j < |name| ensures name[j] != '/' {
      if j < |stem| {
        assert name[j] == stem[j];
      } else if j > |stem| {
        assert name[j] == ext[j - |stem| - 1];
      }
    }
    LastPieceAfterSlash(dir, name);
    assert name[|stem|] == '.';
    forall j | |stem| < j < |name| ensures name[j] != '.' {
      assert name[j] == ext[j - |stem| - 1];
    }
    assert LastIndexOf(name, '.') == |stem|;
    assert name[..|stem|] == stem;
  }

  /** The abstract link from `download_arxiv_pdf`'s comment becomes its PDF link. */
  lemma ExampleAbstractUrl()
    ensures ArxivPdfUrl("https://arxiv.org/abs/2507.19457") == "https://arxiv.org/pdf/2507.19457"
  {
    var base, id := "https://arxiv.org", "2507.19457";
    var url := base + "/abs/" + id;
    forall i | 0 <= i < |base| ensures !OccursAt(url, "/abs/", i) {
      assert url[i..i + 5][2] == url[i + 2];
      assert url[i + 2] != 'b';
    }
    forall i | 0 <= i <= |id| - 5 ensures !OccursAt(id, "/abs/", i) {
      assert id[i..i + 5][0] == id[i];
    }
    AbstractUrlBecomesPdfUrl(base, id);
    assert url == "https://arxiv.org/abs/2507.19457";
    assert base + "/pdf/" + id == "https://arxiv.org/pdf/2507.19457";
  }

  /** The link is an arXiv URL. */
  lemma ExampleIsArxivUrl()
    ensures Classify("https://arxiv.org/abs/2507.19457") == ArxivUrl
  {
    var input := "https://arxiv.org/abs/2507.19457";
    assert input[..8] == "https://";
    forall j | 0 <= j < 9 ensures input[8..17][j] == "arxiv.org"[j] {
      assert input[8..17][j] == input[8 + j];
    }
    assert OccursAt(input, "arxiv.org", 8);
  }

  /** The stem of `attention.pdf` is `attention`. */
  lemma ExampleStem()
    ensures Stem("attention.pdf") == "attention"
  {
    var name := "attention.pdf";
    var i := LastIndexOf(name, '.');
    assert name[9] == '.';
    assert i == 9;
  }
}
