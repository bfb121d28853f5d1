/**
 * Recognition of a references-section header line: the compiled pattern
 * `^\s*(?:\d+\.?\s*)?(references|bibliography|works cited|literature cited)\s*$`
 * with `re.IGNORECASE`, applied with `match` to the stripped line.
 *
 * `MatchesPattern` states what the regular expression accepts, as a split of
 * the line into its five parts; `Matches` is a hand-written left-to-right
 * scanner; `MatchesIffPattern` proves them equal.
 */
module HeaderPattern {
  import opened Text

  /** The section names the pattern accepts, in lower case. */
  const Keywords: seq<string> := ["references", "bibliography", "works cited", "literature cited"]

  /** `s` spells the lower-case word `kw`, ignoring ASCII case. */
  predicate EqualsIgnoringCase(s: string, kw: string)
  {
    |s| == |kw| && forall i :: 0 <= i < |s| ==> ToLower(s[i]) == kw[i]
  }

  /** `s` is one of the section names, in any ASCII case. */
  predicate IsKeyword(s: string)
  {
    exists j | 0 <= j < |Keywords| :: EqualsIgnoringCase(s, Keywords[j])
  }

  predicate AllDigits(s: string)
  {
    forall i :: 0 <= i < |s| ==> IsDigit(s[i])
  }

  /**
   * The optional numbering group `(?:\d+\.?\s*)?`: nothing, or one or more
   * digits, an optional dot and optional whitespace.
   */
  ghost predicate IsNumbering(p: string)
  {
    p == [] || exists d, e :: NumberingSplit(p, d, e)
  }

  /** `p` is digits before `d`, at most a dot between `d` and `e`, whitespace after `e`. */
  predicate NumberingSplit(p: string, d: nat, e: nat)
  {
    && 1 <= d <= e <= |p|
    && AllDigits(p[..d])
    && (e == d || (e == d + 1 && p[d] == '.'))
    && AllSpace(p[e..])
  }

  /**
   * What the regular expression accepts: `s` is leading whitespace, a
   * numbering, a section name and trailing whitespace, and nothing else.
   */
  ghost predicate MatchesPattern(s: string)
  {
    exists a, b, c :: PatternSplit(s, a, b, c)
  }

  /** `s` is whitespace before `a`, a numbering up to `b`, a section name up to `c`, whitespace after. */
  ghost predicate PatternSplit(s: string, a: nat, b: nat, c: nat)
  {
    && a <= b <= c <= |s|
    && AllSpace(s[..a])
    && IsNumbering(s[a..b])
    && IsKeyword(s[b..c])
    && AllSpace(s[c..])
  }

  /** The first index at or after `i` that does not hold whitespace. */
  function SkipSpaces(s: string, i: nat): (j: nat)
    requires i <= |s|
    ensures i <= j <= |s|
    ensures forall k :: i <= k < j ==> IsSpace(s[k])
    ensures j < |s| ==> !IsSpace(s[j])
    decreases |s| - i
  {
    if i < |s| && IsSpace(s[i]) then SkipSpaces(s, i + 1) else i
  }

  /** The first index at or after `i` that does not hold a digit. */
  function SkipDigits(s: string, i: nat): (j: nat)
    requires i <= |s|
    ensures i <= j <= |s|
    ensures forall k :: i <= k < j ==> IsDigit(s[k])
    ensures j < |s| ==> !IsDigit(s[j])
    decreases |s| - i
  {
    if i < |s| && IsDigit(s[i]) then SkipDigits(s, i + 1) else i
  }

  /** Where the scan stands after the numbering group that may start at `i`. */
  function AfterNumbering(s: string, i: nat): (j: nat)
    requires i <= |s|
    ensures i <= j <= |s|
  {
    if i < |s| && IsDigit(s[i]) then
      var d := SkipDigits(s, i);
      var e := if d < |s| && s[d] == '.' then d + 1 else d;
      SkipSpaces(s, e)
    else i
  }

  /** `t` is a section name followed by whitespace only. */
  predicate KeywordThenSpaces(t: string)
  {
    exists j | 0 <= j < |Keywords| ::
      && |Keywords[j]| <= |t|
      && EqualsIgnoringCase(t[..|Keywords[j]|], Keywords[j])
      && AllSpace(t[|Keywords[j]|..])
  }

  /** The hand-written matcher: skip whitespace, skip a numbering, then a section name and whitespace to the end. */
  predicate Matches(s: string)
  {
    var a := SkipSpaces(s, 0);
    var b := AfterNumbering(s, a);
    KeywordThenSpaces(s[b..])
  }

  /** The test the scan applies to each line: `header_pattern.match(line.strip())`. */
  predicate IsHeaderLine(line: string)
  {
    Matches(Strip(line))
  }

  /**
   * A section name is non-empty; its first character is no whitespace, digit
   * or dot, and its last is no whitespace.
   */
  lemma KeywordEnds(x: string)
    requires IsKeyword(x)
    ensures |x| > 0
    ensures !IsSpace(x[0]) && !IsDigit(x[0]) && x[0] != '.'
    ensures !IsSpace(x[|x| - 1])
  {
    var j :| 0 <= j < |Keywords| && EqualsIgnoringCase(x, Keywords[j]);
    assert ToLower(x[0]) == Keywords[j][0];
    assert ToLower(x[|x| - 1]) == Keywords[j][|x| - 1];
  }

  /** The hand-written matcher accepts exactly the lines the regular expression accepts. */
  lemma MatchesIffPattern(s: string)
    ensures Matches(s) <==> MatchesPattern(s)
  {
    if Matches(s) {
      MatchesHasPattern(s);
    }
    if MatchesPattern(s) {
      var a, b, c :| PatternSplit(s, a, b, c);
      PatternIsMatched(s, a, b, c);
    }
  }

  /** A section name followed by whitespace, as found by `KeywordThenSpaces`. */
  lemma KeywordLength(t: string) returns (n: nat)
    requires KeywordThenSpaces(t)
    ensures n <= |t| && IsKeyword(t[..n]) && AllSpace(t[n..])
  {
    var j :| 0 <= j < |Keywords| && |Keywords[j]| <= |t|
      && EqualsIgnoringCase(t[..|Keywords[j]|], Keywords[j])
      && AllSpace(t[|Keywords[j]|..]);
    n := |Keywords[j]|;
  }

  /** What the numbering scan skips is a numbering. */
  lemma NumberingScanned(s: string, a: nat)
    requires a <= |s|
    ensures IsNumbering(s[a..AfterNumbering(s, a)])
  {
    if a < |s| && IsDigit(s[a]) {
      var b := AfterNumbering(s, a);
      var d := SkipDigits(s, a);
      var e := if d < |s| && s[d] == '.' then d + 1 else d;
      var p := s[a..b];
      var digits := p[..d - a];
      forall k | 0 <= k < |digits| ensures IsDigit(digits[k]) {
        assert digits[k] == s[a + k];
      }
      var spaces := p[e - a..];
      forall k | 0 <= k < |spaces| ensures IsSpace(spaces[k]) {
        assert spaces[k] == s[e + k];
      }
      assert e > d ==> p[d - a] == s[d];
      assert NumberingSplit(p, d - a, e - a);
    }
  }

  lemma MatchesHasPattern(s: string)
    requires Matches(s)
    ensures MatchesPattern(s)
  {
    var a := SkipSpaces(s, 0);
    var b := AfterNumbering(s, a);
    var t := s[b..];
    var n := KeywordLength(t);
    var c := b + n;
    assert s[b..c] == t[..n];
    assert s[c..] == t[n..];
    assert AllSpace(s[..a]);
    NumberingScanned(s, a);
    assert PatternSplit(s, a, b, c);
  }

  lemma PatternIsMatched(s: string, a: nat, b: nat, c: nat)
    requires PatternSplit(s, a, b, c)
    ensures Matches(s)
  {
    KeywordEnds(s[b..c]);
    assert s[b] == s[b..c][0];
    var p := s[a..b];
    if p == [] {
      assert SkipSpaces(s, 0) == a;
    } else {
      var d, e :| NumberingSplit(p, d, e);
      NumberingIsScanned(s, a, b, d, e);
    }
    var t := s[b..];
    var j :| 0 <= j < |Keywords| && EqualsIgnoringCase(s[b..c], Keywords[j]);
    assert t[..|Keywords[j]|] == s[b..c];
    assert t[|Keywords[j]|..] == s[c..];
  }

  /** A non-empty numbering followed by a letter is exactly what the scan skips. */
  lemma NumberingIsScanned(s: string, a: nat, b: nat, d: nat, e: nat)
    requires a <= b < |s| && AllSpace(s[..a])
    requires NumberingSplit(s[a..b], d, e)
    requires !IsSpace(s[b]) && !IsDigit(s[b]) && s[b] != '.'
    ensures SkipSpaces(s, 0) == a && AfterNumbering(s, a) == b
  {
    var p := s[a..b];
    assert IsDigit(s[a]) by {
      assert s[a] == p[..d][0];
    }
    forall k | 0 <= k < a ensures IsSpace(s[k]) {
      assert s[k] == s[..a][k];
    }
    SkipSpacesStops(s, 0, a);
    NumberingDigitsScanned(s, a, b, d, e);
    var spaces := p[e..];
    forall k | a + e <= k < b ensures IsSpace(s[k]) {
      assert s[k] == spaces[k - a - e];
    }
    SkipSpacesStops(s, a + e, b);
  }

  /** The digit run of a numbering ends where the numbering's digits end. */
  lemma NumberingDigitsScanned(s: string, a: nat, b: nat, d: nat, e: nat)
    requires a <= b < |s|
    requires NumberingSplit(s[a..b], d, e)
    requires !IsDigit(s[b]) && s[b] != '.'
    ensures AfterNumbering(s, a) == SkipSpaces(s, a + e)
  {
    var p := s[a..b];
    var digits := p[..d];
    forall k | a <= k < a + d ensures IsDigit(s[k]) {
      assert s[k] == digits[k - a];
    }
    var next := s[a + d];
    if a + d < b {
      assert next == p[d];
      if e == d {
        assert next == p[e..][0];
      }
    }
    SkipDigitsStops(s, a, a + d);
  }

  lemma SkipSpacesStops(s: string, i: nat, j: nat)
    requires i <= j < |s|
    requires forall k :: i <= k < j ==> IsSpace(s[k])
    requires !IsSpace(s[j])
    ensures SkipSpaces(s, i) == j
  {
  }

  lemma SkipDigitsStops(s: string, i: nat, j: nat)
    requires i <= j < |s|
    requires forall k :: i <= k < j ==> IsDigit(s[k])
    requires !IsDigit(s[j])
    ensures SkipDigits(s, i) == j
  {
  }

  /**
   * `strip()` changes nothing about the outcome: the pattern allows
   * surrounding whitespace itself, so a line is a header line exactly when
   * the regular expression accepts the raw line.
   */
  lemma HeaderLineIffPattern(line: string)
    ensures IsHeaderLine(line) <==> MatchesPattern(line)
  {
    var r := Strip(line);
    MatchesIffPattern(r);
    var i := StripIsMiddle(line);
    if MatchesPattern(r) {
      var a, b, c :| PatternSplit(r, a, b, c);
      PaddedPattern(line, r, i, a, b, c);
    }
    if MatchesPattern(line) {
      var a, b, c :| PatternSplit(line, a, b, c);
      UnpaddedPattern(line, r, i, a, b, c);
    }
  }

  /** Whitespace around an accepted line keeps it accepted. */
  lemma PaddedPattern(s: string, r: string, i: nat, a: nat, b: nat, c: nat)
    requires i + |r| <= |s| && s[i..i + |r|] == r
    requires AllSpace(s[..i]) && AllSpace(s[i + |r|..])
    requires PatternSplit(r, a, b, c)
    ensures PatternSplit(s, i + a, i + b, i + c)
  {
    SliceOfSlice(s, i, i + |r|, a, b);
    SliceOfSlice(s, i, i + |r|, b, c);
    var pre := s[..i + a];
    forall k | 0 <= k < |pre| ensures IsSpace(pre[k]) {
      if k >= i {
        assert pre[k] == r[..a][k - i];
      } else {
        assert pre[k] == s[..i][k];
      }
    }
    var post := s[i + c..];
    forall k | 0 <= k < |post| ensures IsSpace(post[k]) {
      if i + c + k < i + |r| {
        assert post[k] == r[c..][k];
      } else {
        assert post[k] == s[i + |r|..][c + k - |r|];
      }
    }
  }

  /** An accepted line stays accepted once its surrounding whitespace is gone. */
  lemma UnpaddedPattern(s: string, r: string, i: nat, a: nat, b: nat, c: nat)
    requires i + |r| <= |s| && s[i..i + |r|] == r
    requires AllSpace(s[..i]) && AllSpace(s[i + |r|..])
    requires PatternSplit(s, a, b, c)
    ensures i <= a && c <= i + |r|
    ensures PatternSplit(r, a - i, b - i, c - i)
  {
    PatternEnds(s, a, b, c);
    PaddingOutside(s, i, i + |r|, a, c);
    SliceOfSlice(s, i, i + |r|, a - i, b - i);
    SliceOfSlice(s, i, i + |r|, b - i, c - i);
    var pre := r[..a - i];
    forall k | 0 <= k < |pre| ensures IsSpace(pre[k]) {
      assert pre[k] == s[..a][k + i];
    }
    var post := r[c - i..];
    forall k | 0 <= k < |post| ensures IsSpace(post[k]) {
      assert post[k] == s[c..][k];
    }
  }

  /** The matched part of an accepted line starts and ends with a non-whitespace character. */
  lemma PatternEnds(s: string, a: nat, b: nat, c: nat)
    requires PatternSplit(s, a, b, c)
    ensures a < c && !IsSpace(s[a]) && !IsSpace(s[c - 1])
  {
    KeywordEnds(s[b..c]);
    assert !IsSpace(s[a]) by {
      var p := s[a..b];
      if p == [] {
        assert s[a] == s[b..c][0];
      } else {
        var d: nat, e: nat :| NumberingSplit(p, d, e);
        assert s[a] == p[..d][0];
      }
    }
    assert s[c - 1] == s[b..c][c - 1 - b];
  }

  /** Non-whitespace at `a` and at `c - 1` lies between whitespace runs `s[..i]` and `s[j..]`. */
  lemma PaddingOutside(s: string, i: nat, j: nat, a: nat, c: nat)
    requires i <= j <= |s| && AllSpace(s[..i]) && AllSpace(s[j..])
    requires a < c <= |s| && !IsSpace(s[a]) && !IsSpace(s[c - 1])
    ensures i <= a && c <= j
  {
    forall k | 0 <= k < i ensures IsSpace(s[k]) {
      assert s[k] == s[..i][k];
    }
    forall k | j <= k < |s| ensures IsSpace(s[k]) {
      assert s[k] == s[j..][k - j];
    }
  }

  lemma SliceOfSlice(s: string, i: nat, j: nat, a: nat, b: nat)
    requires i <= j <= |s| && a <= b <= j - i
    ensures s[i..j][a..b] == s[i + a..i + b]
  {
    assert forall k :: 0 <= k < b - a ==> s[i..j][a..b][k] == s[i + a..i + b][k];
  }

  /**
   * The shape of an accepted line once stripped: it ends with a section name
   * and everything before that name is a digit, a dot or whitespace.
   */
  lemma HeaderLineShape(line: string) returns (j: nat)
    requires IsHeaderLine(line)
    ensures j < |Keywords|
    ensures var r := Strip(line); var n := |r| - |Keywords[j]|;
      && n >= 0
      && EqualsIgnoringCase(r[n..], Keywords[j])
      && forall k :: 0 <= k < n ==> IsDigit(r[k]) || r[k] == '.' || IsSpace(r[k])
  {
    var r := Strip(line);
    MatchesIffPattern(r);
    var a, b, c :| PatternSplit(r, a, b, c);
    j := SplitShape(r, a, b, c);
  }

  lemma SplitShape(r: string, a: nat, b: nat, c: nat) returns (j: nat)
    requires PatternSplit(r, a, b, c)
    requires r == [] || !IsSpace(r[|r| - 1])
    ensures j < |Keywords|
    ensures var n := |r| - |Keywords[j]|;
      && n >= 0
      && EqualsIgnoringCase(r[n..], Keywords[j])
      && forall k :: 0 <= k < n ==> IsDigit(r[k]) || r[k] == '.' || IsSpace(r[k])
  {
    KeywordEnds(r[b..c]);
    SplitReachesEnd(r, c);
    j :| 0 <= j < |Keywords| && EqualsIgnoringCase(r[b..c], Keywords[j]);
    assert b == |r| - |Keywords[j]|;
    assert r[b..c] == r[b..];
    NumberingChars(r, a, b);
  }

  /** A split whose keyword ends in a letter covers a line with no trailing whitespace. */
  lemma SplitReachesEnd(r: string, c: nat)
    requires 0 < c <= |r| && AllSpace(r[c..])
    requires !IsSpace(r[|r| - 1])
    ensures c == |r|
  {
  }

  /** Leading whitespace and a numbering consist of digits, dots and whitespace. */
  lemma NumberingChars(r: string, a: nat, b: nat)
    requires a <= b <= |r| && AllSpace(r[..a]) && IsNumbering(r[a..b])
    ensures forall k :: 0 <= k < b ==> IsDigit(r[k]) || r[k] == '.' || IsSpace(r[k])
  {
    var p := r[a..b];
    forall k | 0 <= k < b ensures IsDigit(r[k]) || r[k] == '.' || IsSpace(r[k]) {
      if k < a {
        assert r[k] == r[..a][k];
      } else {
        var d: nat, e: nat :| NumberingSplit(p, d, e);
        if k < a + d {
          assert r[k] == p[..d][k - a];
        } else if k < a + e {
          assert r[k] == p[d];
        } else {
          assert r[k] == p[e..][k - a - e];
        }
      }
    }
  }

  /** Every section name ends with one of the letters `s`, `y`, `d`. */
  lemma KeywordLastLetter(j: nat)
    requires j < |Keywords|
    ensures Keywords[j][|Keywords[j]| - 1] in "syd"
  {
  }

  /** A line ending in anything other than a section name's last letter or whitespace is no header. */
  lemma TrailingTextIsNoHeader(line: string)
    requires Strip(line) != []
    requires ToLower(Strip(line)[|Strip(line)| - 1]) !in "syd"
    ensures !IsHeaderLine(line)
  {
    if IsHeaderLine(line) {
      var j := HeaderLineShape(line);
      var r := Strip(line);
      var n := |r| - |Keywords[j]|;
      KeywordLastLetter(j);
    }
  }

  /** A numbered header matches. */
  lemma NumberedHeaderMatches()
    ensures IsHeaderLine("5. References")
  {
    var s := "5. References";
    assert NumberingSplit(s[0..3], 1, 2);
    assert EqualsIgnoringCase(s[3..13], Keywords[0]);
    assert PatternSplit(s, 0, 3, 13);
    HeaderLineIffPattern(s);
  }

  /** A header in capitals with surrounding whitespace matches. */
  lemma PaddedCapitalHeaderMatches()
    ensures IsHeaderLine("  BIBLIOGRAPHY  ")
  {
    var s := "  BIBLIOGRAPHY  ";
    assert EqualsIgnoringCase(s[2..14], Keywords[1]);
    assert PatternSplit(s, 2, 2, 14);
    HeaderLineIffPattern(s);
  }

  /** A citation that mentions the word is not a header. */
  lemma CitationDoesNotMatch()
    ensures !IsHeaderLine("See References [12]")
  {
    var s := "See References [12]";
    assert Strip(s) == s by {
      assert !IsSpace(s[0]) && LeadingSpaceCount(s) == 0;
      assert !IsSpace(s[|s| - 1]) && TrailingSpaceCount(s) == 0;
    }
    TrailingTextIsNoHeader(s);
  }

  /** A sentence that mentions the word is not a header. */
  lemma SentenceDoesNotMatch()
    ensures !IsHeaderLine("Recent work cites many References.")
  {
    var s := "Recent work cites many References.";
    assert Strip(s) == s by {
      assert !IsSpace(s[0]) && LeadingSpaceCount(s) == 0;
      assert !IsSpace(s[|s| - 1]) && TrailingSpaceCount(s) == 0;
    }
    TrailingTextIsNoHeader(s);
  }
}
