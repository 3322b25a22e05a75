/**
 * The crawler's link filter `is_valid`, over the parts of an already-parsed
 * URL: scheme, hostname (absent for some URLs), path, query, and the length
 * of the whole URL text.
 */
module Crawler {
  import opened Common
  import opened Strings

  datatype ParsedUrl = ParsedUrl(scheme: string, hostname: Option<string>, path: string, query: string)

  /** The file extensions whose links are never fetched. */
  const Extensions: seq<string> := [
    "css", "js", "bmp", "gif", "jpeg", "jpg", "ico", "png", "tiff", "mid", "mp2", "mp3", "mp4",
    "wav", "avi", "mov", "mpeg", "ram", "m4v", "mkv", "ogg", "ogv", "pdf",
    "ps", "eps", "tex", "ppt", "pptx", "doc", "docx", "xls", "xlsx", "names", "data", "dat", "exe",
    "bz2", "tar", "msi", "bin", "7z", "psd", "dmg", "iso", "epub", "dll", "cnf", "tgz", "sha1",
    "thmx", "mso", "arff", "rtf", "jar", "csv",
    "rm", "smil", "wmv", "swf", "wma", "zip", "rar", "gz"]

  const Domain := ".ics.uci.edu"
  const MaxUrlLength := 200
  const MaxQueryParts := 10

  /** `t in s` for strings. */
  predicate Contains(s: string, t: string)
    decreases |s|
  {
    |t| <= |s| && (s[..|t|] == t || Contains(s[1..], t))
  }

  predicate EndsWith(s: string, t: string)
  {
    |t| <= |s| && s[|s| - |t|..] == t
  }

  /**
   * The extension pattern finds a match at the end of the lower-cased path;
   * its `$` also matches just before a final "\n".
   */
  predicate HasBlockedExtension(path: string)
  {
    exists i :: 0 <= i < |Extensions| &&
      (EndsWith(Lower(path), "." + Extensions[i]) || EndsWith(Lower(path), "." + Extensions[i] + "\n"))
  }

  /** A path ending in a blocked extension is blocked, and so is the path with a "\n" after it. */
  lemma BlockedBeforeLineBreak(path: string, i: nat)
    requires i < |Extensions| && EndsWith(Lower(path), "." + Extensions[i])
    ensures HasBlockedExtension(path) && HasBlockedExtension(path + "\n")
  {
    var ext := "." + Extensions[i];
    var l := Lower(path + "\n");
    assert l == Lower(path) + "\n";
    assert l[|l| - |ext + "\n"|..] == Lower(path)[|Lower(path)| - |ext|..] + "\n";
  }

  /** Some path segment occurs more than once. */
  predicate HasRepeatedSegment(segments: seq<string>)
  {
    exists i :: 0 <= i < |segments| && Count(segments, segments[i]) > 1
  }

  /** `is_valid`. A missing hostname makes the substring test raise a TypeError, which is caught as False. */
  function IsValid(url: ParsedUrl, urlLength: nat): (ok: bool)
    ensures ok ==> url.scheme == "http" || url.scheme == "https"
    ensures ok ==> url.hostname.Some? && Contains(url.hostname.value, Domain)
    ensures ok ==> !HasBlockedExtension(url.path) && urlLength <= MaxUrlLength
    ensures ok ==> |Split(url.query, '&')| <= MaxQueryParts
  {
    if url.scheme != "http" && url.scheme != "https" then false
    else if url.hostname.None? then false
    else if !Contains(url.hostname.value, Domain) then false
    else if HasBlockedExtension(url.path) then false
    else if urlLength > MaxUrlLength then false
    else if HasRepeatedSegment(Split(url.path, '/')) then false
    else if |Split(url.query, '&')| > MaxQueryParts then false
    else true
  }

  /** An element at two positions is counted at least twice. */
  lemma {:induction false} CountTwice(xs: seq<string>, i: nat, j: nat)
    requires i < j < |xs| && xs[i] == xs[j]
    ensures Count(xs, xs[i]) > 1
    decreases |xs|
  {
    var init := xs[..|xs| - 1];
    if j == |xs| - 1 {
      assert init[i] == xs[i];
    } else {
      CountTwice(init, i, j);
    }
  }

  /** An element counted more than once sits at a second position. */
  lemma {:induction false} CountedTwice(xs: seq<string>, i: nat)
    requires i < |xs| && Count(xs, xs[i]) > 1
    ensures exists j :: 0 <= j < |xs| && j != i && xs[j] == xs[i]
    decreases |xs|
  {
    var n := |xs| - 1;
    var init := xs[..n];
    if i == n {
      assert xs[i] in init;
      var j :| 0 <= j < n && init[j] == xs[i];
      assert xs[j] == xs[i];
    } else if xs[n] == xs[i] {
      assert xs[n] == xs[i];
    } else {
      assert init[i] == xs[i];
      CountedTwice(init, i);
      var j :| 0 <= j < n && j != i && init[j] == init[i];
      assert xs[j] == xs[i];
    }
  }

  predicate DistinctSegments(segments: seq<string>)
  {
    forall i, j :: 0 <= i < j < |segments| ==> segments[i] != segments[j]
  }

  /** The `any(segments.count(s) > 1 ...)` test holds exactly when two segments are equal. */
  lemma RepeatedIffNotDistinct(segments: seq<string>)
    ensures HasRepeatedSegment(segments) <==> !DistinctSegments(segments)
  {
    if HasRepeatedSegment(segments) {
      var i :| 0 <= i < |segments| && Count(segments, segments[i]) > 1;
      CountedTwice(segments, i);
      var j :| 0 <= j < |segments| && j != i && segments[j] == segments[i];
      if j < i {
        assert segments[j] == segments[i];
      }
    }
    if !DistinctSegments(segments) {
      var i, j :| 0 <= i < j < |segments| && segments[i] == segments[j];
      CountTwice(segments, i, j);
    }
  }

  /**
   * A link is fetched exactly when its scheme is http or https, its host
   * contains ".ics.uci.edu", its path has no blocked extension, the URL has
   * at most 200 characters, no two path segments are equal and the query has
   * at most 10 parts.
   */
  lemma IsValidExactly(url: ParsedUrl, urlLength: nat)
    ensures IsValid(url, urlLength) <==>
      && (url.scheme == "http" || url.scheme == "https")
      && url.hostname.Some? && Contains(url.hostname.value, Domain)
      && !HasBlockedExtension(url.path)
      && urlLength <= MaxUrlLength
      && DistinctSegments(Split(url.path, '/'))
      && |Split(url.query, '&')| <= MaxQueryParts
  {
    RepeatedIffNotDistinct(Split(url.path, '/'));
  }

  /** Two equal segments make the path a trap. */
  lemma RepeatRejected(url: ParsedUrl, urlLength: nat, i: nat, j: nat)
    requires var segs := Split(url.path, '/'); i < j < |segs| && segs[i] == segs[j]
    ensures !IsValid(url, urlLength)
  {
    CountTwice(Split(url.path, '/'), i, j);
  }

  /** A repeated segment includes the empty one: "/" and "/a/" are both rejected. */
  lemma RootAndTrailingSlashRejected(scheme: string, hostname: Option<string>, query: string, urlLength: nat)
    ensures !IsValid(ParsedUrl(scheme, hostname, "/", query), urlLength)
    ensures !IsValid(ParsedUrl(scheme, hostname, "/a/", query), urlLength)
  {
    assert Join(["", ""], '/') == "/";
    SplitJoin(["", ""], '/');
    RepeatRejected(ParsedUrl(scheme, hostname, "/", query), urlLength, 0, 1);
    assert Join(["", "a", ""], '/') == "/a/";
    SplitJoin(["", "a", ""], '/');
    RepeatRejected(ParsedUrl(scheme, hostname, "/a/", query), urlLength, 0, 2);
  }

  /** The domain test is a substring test on ".ics.uci.edu", so the bare "ics.uci.edu" is rejected. */
  lemma BareDomainRejected(url: ParsedUrl, urlLength: nat)
    requires url.hostname == Some("ics.uci.edu")
    ensures !IsValid(url, urlLength)
  {
    assert !Contains("ics.uci.edu", Domain);
  }

  /** More than 10 "&"-separated query parts are rejected. */
  lemma LongQueryRejected(url: ParsedUrl, urlLength: nat)
    requires Count(url.query, '&') >= MaxQueryParts
    ensures !IsValid(url, urlLength)
  {
    SplitLength(url.query, '&');
  }
}
