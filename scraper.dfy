/** The string side of the wiki scraper: the file-name sanitiser, the names
    of the page, revisions and image files it writes, and the page titles
    the XML dump recovers from those names. */
module Scraper {

  /** The characters the sanitiser's class `[\/:*?"<>|]` matches. The `\/`
      in it is an escaped slash, so a backslash is not among them. */
  predicate IsForbidden(c: char)
  {
    c == '/' || c == ':' || c == '*' || c == '?' || c == '"' || c == '<' || c == '>' || c == '|'
  }

  predicate IsClean(s: string)
  {
    forall i :: 0 <= i < |s| ==> !IsForbidden(s[i])
  }

  /** sanitize_filename: every forbidden character becomes `_`, every other
      character stays where it is. */
  function Sanitize(title: string): (r: string)
    ensures |r| == |title|
    ensures forall i :: 0 <= i < |title| ==>
      (IsForbidden(title[i]) ==> r[i] == '_') && (!IsForbidden(title[i]) ==> r[i] == title[i])
  {
    if title == [] then []
    else [if IsForbidden(title[0]) then '_' else title[0]] + Sanitize(title[1..])
  }

  /** No forbidden character survives. */
  lemma SanitizedIsClean(title: string)
    ensures IsClean(Sanitize(title))
  {
    assert !IsForbidden('_');
  }

  /** The sanitiser changes a title exactly when the title has a forbidden
      character. */
  lemma SanitizeFixesExactlyClean(title: string)
    ensures Sanitize(title) == title <==> IsClean(title)
  {
    if Sanitize(title) == title {
      forall i | 0 <= i < |title| ensures !IsForbidden(title[i]) {
        assert !IsForbidden('_');
      }
    }
  }

  lemma SanitizeIsIdempotent(title: string)
    ensures Sanitize(Sanitize(title)) == Sanitize(title)
  {
    SanitizedIsClean(title);
    SanitizeFixesExactlyClean(Sanitize(title));
  }

  /** A backslash passes through. */
  lemma SanitizeKeepsBackslash()
    ensures Sanitize("a\\b") == "a\\b"
  {
    var s: string := "a\\b";
    assert IsClean(s);
    SanitizeFixesExactlyClean(s);
  }

  /** Two different titles can share one file name, so whichever comes
      second is taken for already downloaded. */
  lemma SanitizeMerges()
    ensures Sanitize("AC/DC") == Sanitize("AC:DC") == "AC_DC"
  {
    var r, r' := Sanitize("AC/DC"), Sanitize("AC:DC");
    assert r[0] == 'A' && r[1] == 'C' && r[2] == '_' && r[3] == 'D' && r[4] == 'C';
    assert r'[0] == 'A' && r'[1] == 'C' && r'[2] == '_' && r'[3] == 'D' && r'[4] == 'C';
  }

  // ---------------------------------------------------------------------
  // File names.

  predicate EndsWith(s: string, suffix: string)
  {
    |suffix| <= |s| && s[|s| - |suffix|..] == suffix
  }

  predicate OccursAt(s: string, pattern: string, k: nat)
  {
    k + |pattern| <= |s| && s[k..k + |pattern|] == pattern
  }

  /** `pattern` occurs in `s` as a contiguous piece. */
  ghost predicate Occurs(s: string, pattern: string)
  {
    exists k: nat :: OccursAt(s, pattern, k)
  }

  function PageFileName(title: string): string
  {
    Sanitize(title) + ".json"
  }

  function RevisionsFileName(title: string): string
  {
    Sanitize(title) + "_revisions.json"
  }

  /** `url.split('/')[-1]`: the text after the last slash, or the whole
      string if it has none. */
  function LastSegment(url: string): (seg: string)
    ensures '/' !in seg
    ensures |seg| <= |url| && seg == url[|url| - |seg|..]
    ensures |seg| < |url| ==> url[|url| - |seg| - 1] == '/'
  {
    if url == [] then []
    else if url[|url| - 1] == '/' then []
    else
      var init := url[..|url| - 1];
      var seg := LastSegment(init);
      assert url[|url| - |seg| - 1..] == init[|init| - |seg|..] + [url[|url| - 1]];
      seg + [url[|url| - 1]]
  }

  function ImageFileName(url: string): string
  {
    Sanitize(LastSegment(url))
  }

  /** The image file name is the sanitised last segment: as long as that
      segment and free of forbidden characters, a slash included. */
  lemma ImageFileNameIsClean(url: string)
    ensures |ImageFileName(url)| == |LastSegment(url)|
    ensures IsClean(ImageFileName(url)) && '/' !in ImageFileName(url)
  {
    SanitizedIsClean(LastSegment(url));
    assert IsForbidden('/');
  }

  /** The text the XML dump gives an image: its path under /images/. */
  function ImagePath(name: string): string
  {
    "/images/" + name
  }

  /** The last segment of a path ending in a slash-free name is that name. */
  lemma LastSegmentAfterSlash(dir: string, name: string)
    requires |dir| > 0 && dir[|dir| - 1] == '/' && '/' !in name
    ensures LastSegment(dir + name) == name
  {
    var path := dir + name;
    assert path[|path| - |name|..] == name;
  }

  /** The dump's image path leads back to the file the scraper wrote. */
  lemma ImagePathNamesTheFile(url: string)
    ensures LastSegment(ImagePath(ImageFileName(url))) == ImageFileName(url)
  {
    ImageFileNameIsClean(url);
    LastSegmentAfterSlash("/images/", ImageFileName(url));
  }

  // ---------------------------------------------------------------------
  // Recovering titles in the XML dump.

  /** Python's `s.replace(pattern, rep)`: every non-overlapping occurrence,
      scanning from the left. */
  function ReplaceAll(s: string, pattern: string, rep: string): string
    requires |pattern| > 0
    decreases |s|
  {
    if |s| < |pattern| then s
    else if s[..|pattern|] == pattern then rep + ReplaceAll(s[|pattern|..], pattern, rep)
    else [s[0]] + ReplaceAll(s[1..], pattern, rep)
  }

  /** A pattern whose first character occurs nowhere else in it cannot
      overlap a copy of itself. */
  predicate FirstCharUnique(pattern: string)
  {
    |pattern| > 0 && pattern[0] !in pattern[1..]
  }

  /** A non-empty pattern-free prefix keeps the scan from matching at the
      start: either the prefix itself would hold the match, or the match
      would put the pattern's first character where the pattern has
      another. */
  lemma NoMatchAtStart(t: string, pattern: string, rest: string)
    requires FirstCharUnique(pattern) && !Occurs(t, pattern) && t != []
    ensures (t + pattern + rest)[..|pattern|] != pattern
  {
    var s, n := t + pattern + rest, |pattern|;
    if |t| >= n {
      assert s[..n] == t[0..0 + n];
      assert !OccursAt(t, pattern, 0);
    } else {
      assert pattern[|t|] == pattern[1..][|t| - 1];
      assert s[..n][|t|] == pattern[0];
    }
  }

  lemma PatternFreeTail(t: string, pattern: string)
    requires !Occurs(t, pattern) && t != []
    ensures !Occurs(t[1..], pattern)
  {
    if Occurs(t[1..], pattern) {
      var k: nat :| OccursAt(t[1..], pattern, k);
      assert t[k + 1..k + 1 + |pattern|] == t[1..][k..k + |pattern|];
      assert OccursAt(t, pattern, k + 1);
    }
  }

  /** A match at the start is dropped and the scan resumes after it. */
  lemma ReplaceAtMatch(pattern: string, rest: string)
    requires |pattern| > 0
    ensures ReplaceAll(pattern + rest, pattern, "") == ReplaceAll(rest, pattern, "")
  {
    var s := pattern + rest;
    assert s[..|pattern|] == pattern && s[|pattern|..] == rest;
  }

  /** Without a match at the start the first character is kept. */
  lemma ReplaceSkipsFirst(s: string, pattern: string)
    requires |pattern| > 0 && |s| >= |pattern| && s[..|pattern|] != pattern
    ensures ReplaceAll(s, pattern, "") == [s[0]] + ReplaceAll(s[1..], pattern, "")
  {
  }

  /** In `t + pattern + rest`, with `t` free of the pattern, the first
      occurrence the scan meets is the appended one, so removing every
      occurrence keeps `t` whole. */
  lemma {:induction false} ReplaceAfterPatternFreePrefix(t: string, pattern: string, rest: string)
    requires FirstCharUnique(pattern) && !Occurs(t, pattern)
    ensures ReplaceAll(t + pattern + rest, pattern, "") == t + ReplaceAll(rest, pattern, "")
    decreases |t|
  {
    if t == [] {
      assert t + pattern + rest == pattern + rest;
      ReplaceAtMatch(pattern, rest);
    } else {
      var s := t + pattern + rest;
      NoMatchAtStart(t, pattern, rest);
      ReplaceSkipsFirst(s, pattern);
      PatternFreeTail(t, pattern);
      ReplaceAfterPatternFreePrefix(t[1..], pattern, rest);
      ConsOntoReplaced(t, pattern, rest, ReplaceAll(rest, pattern, ""));
    }
  }

  /** The list facts that put the first character back in front. */
  lemma ConsOntoReplaced(t: string, pattern: string, rest: string, tail: string)
    requires t != []
    ensures (t + pattern + rest)[0] == t[0]
    ensures (t + pattern + rest)[1..] == t[1..] + pattern + rest
    ensures [t[0]] + (t[1..] + tail) == t + tail
  {
    assert t == [t[0]] + t[1..];
  }

  /** `filename.replace('.json', '')`, as the dump recovers a page title. */
  function TitleFromPageFile(fileName: string): string
  {
    ReplaceAll(fileName, ".json", "")
  }

  /** `filename.replace('_revisions.json', '')`, for a revisions file. */
  function TitleFromRevisionsFile(fileName: string): string
  {
    ReplaceAll(fileName, "_revisions.json", "")
  }

  /** Removing every occurrence never lengthens a string. */
  lemma {:induction false} ReplaceNeverLengthens(s: string, pattern: string)
    requires |pattern| > 0
    ensures |ReplaceAll(s, pattern, "")| <= |s|
    decreases |s|
  {
    if |s| >= |pattern| {
      if s[..|pattern|] == pattern {
        ReplaceNeverLengthens(s[|pattern|..], pattern);
      } else {
        ReplaceNeverLengthens(s[1..], pattern);
      }
    }
  }

  /** A string with an occurrence loses at least one pattern's length. */
  lemma {:induction false} ReplaceShortens(s: string, pattern: string)
    requires |pattern| > 0 && Occurs(s, pattern)
    ensures |ReplaceAll(s, pattern, "")| <= |s| - |pattern|
    decreases |s|
  {
    var n := |pattern|;
    var k: nat :| OccursAt(s, pattern, k);
    if s[..n] == pattern {
      ReplaceNeverLengthens(s[n..], pattern);
    } else {
      assert k != 0 && s[1..][k - 1..k - 1 + n] == s[k..k + n];
      assert OccursAt(s[1..], pattern, k - 1);
      ReplaceShortens(s[1..], pattern);
    }
  }

  /** The first occurrence of a pattern: no occurrence lies wholly before it. */
  lemma FirstOccurrence(s: string, pattern: string) returns (k: nat)
    requires |pattern| > 0 && Occurs(s, pattern)
    ensures OccursAt(s, pattern, k) && !Occurs(s[..k], pattern)
    decreases |s|
  {
    k :| OccursAt(s, pattern, k);
    if Occurs(s[..k], pattern) {
      var j := FirstOccurrence(s[..k], pattern);
      assert s[..k][..j] == s[..j];
      assert s[..k][j..j + |pattern|] == s[j..j + |pattern|];
      k := j;
    }
  }

  lemma SplitAtOccurrence(s: string, pattern: string, k: nat)
    requires OccursAt(s, pattern, k)
    ensures s + pattern == s[..k] + pattern + (s[k + |pattern|..] + pattern)
  {
    assert s == s[..k] + s[k..k + |pattern|] + s[k + |pattern|..];
  }

  lemma EndsWithOccurrence(s: string, pattern: string)
    ensures OccursAt(s + pattern, pattern, |s|)
  {
    assert (s + pattern)[|s|..] == pattern;
  }

  /** When the string already has an occurrence, the scan removes it as
      well as the appended one, so less than the string is left. */
  lemma ReplaceAppendedLosesMore(s: string, pattern: string)
    requires FirstCharUnique(pattern) && Occurs(s, pattern)
    ensures |ReplaceAll(s + pattern, pattern, "")| < |s|
  {
    var k := FirstOccurrence(s, pattern);
    var a, b := s[..k], s[k + |pattern|..];
    SplitAtOccurrence(s, pattern, k);
    ReplaceAfterPatternFreePrefix(a, pattern, b + pattern);
    EndsWithOccurrence(b, pattern);
    ReplaceShortens(b + pattern, pattern);
  }

  /** Appending a pattern and then removing every occurrence gives the
      string back exactly when the string has no occurrence of its own. */
  lemma ReplaceSuffixRoundTrip(s: string, pattern: string)
    requires FirstCharUnique(pattern)
    ensures ReplaceAll(s + pattern, pattern, "") == s <==> !Occurs(s, pattern)
  {
    if Occurs(s, pattern) {
      ReplaceAppendedLosesMore(s, pattern);
    } else {
      ReplaceAfterPatternFreePrefix(s, pattern, "");
      assert s + pattern + "" == s + pattern;
    }
  }

  lemma EndsWithAppended(s: string, suffix: string)
    ensures EndsWith(s + suffix, suffix)
  {
    assert (s + suffix)[|s|..] == suffix;
  }

  /** Neither suffix can overlap a copy of itself. */
  lemma SuffixesDoNotOverlap()
    ensures FirstCharUnique(".json") && FirstCharUnique("_revisions.json")
  {
    var a: string, b: string := ".json", "_revisions.json";
    assert a[1..] == "json" && b[1..] == "revisions.json";
  }

  /** The page file passes the dump's `.json` filter, and its title comes
      back exactly when the sanitised title does not itself contain
      `.json`. */
  lemma PageTitleRoundTrip(title: string)
    ensures EndsWith(PageFileName(title), ".json")
    ensures TitleFromPageFile(PageFileName(title)) == Sanitize(title) <==>
      !Occurs(Sanitize(title), ".json")
  {
    EndsWithAppended(Sanitize(title), ".json");
    SuffixesDoNotOverlap();
    ReplaceSuffixRoundTrip(Sanitize(title), ".json");
  }

  /** The same for a revisions file and `_revisions.json`. */
  lemma RevisionsTitleRoundTrip(title: string)
    ensures EndsWith(RevisionsFileName(title), "_revisions.json")
    ensures TitleFromRevisionsFile(RevisionsFileName(title)) == Sanitize(title) <==>
      !Occurs(Sanitize(title), "_revisions.json")
  {
    EndsWithAppended(Sanitize(title), "_revisions.json");
    SuffixesDoNotOverlap();
    ReplaceSuffixRoundTrip(Sanitize(title), "_revisions.json");
  }

  /** A pattern-free stem followed by the pattern twice loses both. */
  lemma DoubledSuffixLost(t: string, pattern: string)
    requires FirstCharUnique(pattern) && !Occurs(t, pattern)
    ensures ReplaceAll(t + pattern + pattern, pattern, "") == t
  {
    ReplaceAfterPatternFreePrefix(t, pattern, pattern);
    ReplaceAfterPatternFreePrefix([], pattern, []);
    assert [] + pattern + [] == pattern;
  }

  lemma SuffixesAreClean()
    ensures IsClean(".json") && IsClean("_revisions.json")
  {
  }

  /** A title that is a clean stem followed by the suffix is written with
      the suffix twice, and removing every occurrence leaves the stem. */
  lemma SuffixedTitleLost(stem: string, suffix: string)
    requires IsClean(stem) && IsClean(suffix) && FirstCharUnique(suffix) && !Occurs(stem, suffix)
    ensures Sanitize(stem + suffix) + suffix == stem + suffix + suffix
    ensures ReplaceAll(Sanitize(stem + suffix) + suffix, suffix, "") == stem
  {
    assert IsClean(stem + suffix);
    SanitizeFixesExactlyClean(stem + suffix);
    DoubledSuffixLost(stem, suffix);
  }

  /** A page whose title is a clean stem followed by `.json` is written to
      the stem followed by `.json` twice, and the dump names it after the
      stem alone. */
  lemma PageTitleLoss(stem: string)
    requires IsClean(stem) && !Occurs(stem, ".json")
    ensures PageFileName(stem + ".json") == stem + ".json" + ".json"
    ensures TitleFromPageFile(PageFileName(stem + ".json")) == stem
  {
    SuffixesAreClean();
    SuffixesDoNotOverlap();
    SuffixedTitleLost(stem, ".json");
  }

  /** The same for revisions: `Log_revisions.json` is dumped as `Log`. */
  lemma RevisionsTitleLoss(stem: string)
    requires IsClean(stem) && !Occurs(stem, "_revisions.json")
    ensures RevisionsFileName(stem + "_revisions.json") == stem + "_revisions.json" + "_revisions.json"
    ensures TitleFromRevisionsFile(RevisionsFileName(stem + "_revisions.json")) == stem
  {
    SuffixesAreClean();
    SuffixesDoNotOverlap();
    SuffixedTitleLost(stem, "_revisions.json");
  }

  /** The page titled `Data.json` is dumped as `Data`. */
  lemma DataJsonTitleLoss()
    ensures TitleFromPageFile(PageFileName("Data" + ".json")) == "Data"
  {
    var stem: string := "Data";
    assert IsClean(stem) && !Occurs(stem, ".json");
    PageTitleLoss(stem);
  }

  /** The revisions of the page titled `Log_revisions.json` are dumped as
      `Log`. */
  lemma LogRevisionsTitleLoss()
    ensures RevisionsFileName("Log/revisions.json") == "Log_revisions.json" + "_revisions.json"
    ensures TitleFromRevisionsFile(RevisionsFileName("Log/revisions.json")) == "Log"
  {
    var stem: string := "Log";
    assert IsClean(stem) && !Occurs(stem, "_revisions.json");
    LogTitleSplits();
    SlashedTitleLoss(stem);
  }

  lemma LogTitleSplits()
    ensures "Log/revisions.json" == "Log" + "/revisions.json"
    ensures "Log_revisions.json" == "Log" + "_revisions.json"
  {
  }

  /** A title whose slash the sanitiser turns into the start of the
      `_revisions.json` suffix loses everything from the slash on. */
  lemma SlashedTitleLoss(stem: string)
    requires IsClean(stem) && !Occurs(stem, "_revisions.json")
    ensures RevisionsFileName(stem + "/revisions.json") == stem + "_revisions.json" + "_revisions.json"
    ensures TitleFromRevisionsFile(RevisionsFileName(stem + "/revisions.json")) == stem
  {
    SlashSuffixSplits(stem);
    SanitizeSlashJoined(stem, "revisions.json");
    RevisionsTitleLoss(stem);
  }

  lemma SlashSuffixSplits(stem: string)
    ensures IsClean("revisions.json")
    ensures stem + "/revisions.json" == stem + "/" + "revisions.json"
    ensures stem + "_" + "revisions.json" == stem + "_revisions.json"
  {
  }

  /** A slash between two clean parts is the one character the sanitiser
      changes. */
  lemma SanitizeSlashJoined(stem: string, rest: string)
    requires IsClean(stem) && IsClean(rest)
    ensures Sanitize(stem + "/" + rest) == stem + "_" + rest
  {
    var joined := stem + "/" + rest;
    var r := Sanitize(joined);
    var fixed := stem + "_" + rest;
    forall i | 0 <= i < |joined| ensures r[i] == fixed[i] {
      if i < |stem| {
        assert joined[i] == stem[i] == fixed[i] && !IsForbidden(stem[i]);
      } else if i == |stem| {
        assert joined[i] == '/' && fixed[i] == '_';
      } else {
        assert joined[i] == rest[i - |stem| - 1] == fixed[i] && !IsForbidden(rest[i - |stem| - 1]);
      }
    }
  }

  /** Stripping only a trailing suffix, as the dump evidently means to. */
  function StripSuffix(s: string, suffix: string): (r: string)
    ensures EndsWith(s, suffix) ==> r + suffix == s
    ensures !EndsWith(s, suffix) ==> r == s
  {
    if EndsWith(s, suffix) then s[..|s| - |suffix|] else s
  }

  function PageTitleOf(fileName: string): string
  {
    StripSuffix(fileName, ".json")
  }

  function RevisionsTitleOf(fileName: string): string
  {
    StripSuffix(fileName, "_revisions.json")
  }

  /** With suffix stripping every sanitised title comes back, whatever it
      contains. */
  lemma StrippedTitlesRoundTrip(title: string)
    ensures PageTitleOf(PageFileName(title)) == Sanitize(title)
    ensures RevisionsTitleOf(RevisionsFileName(title)) == Sanitize(title)
  {
    var s := Sanitize(title);
    assert (s + ".json")[|s|..] == ".json";
    assert (s + "_revisions.json")[|s|..] == "_revisions.json";
  }
}
