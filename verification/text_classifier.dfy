/**
 The text classifier `finish` consults: Go's `MatchString` with the pattern
 `(t0|t0|t1|...)\b.*` built from a list of content-type patterns.

 The writer model takes the classifier as a predicate and relies on two facts only
 (`Assumptions`). `DefaultIsText` spells out the classifier the default list builds, so
 that the assumptions are shown to be met by it.
 */
module TextClassifier {
  import opened Headers

  /** What the writer relies on: the default Content-Type is text, the empty one is not. */
  predicate Assumptions(isText: string -> bool) {
    isText(DefaultContentType) && !isText("")
  }

  /** `\w` of RE2: an ASCII letter, digit or underscore. */
  predicate IsWordChar(c: char) {
    ('a' <= c <= 'z') || ('A' <= c <= 'Z') || ('0' <= c <= '9') || c == '_'
  }

  /** `\b` between positions j-1 and j of s, with the ends of s counting as non-word. */
  predicate WordBoundary(s: string, j: int)
    requires 0 <= j <= |s|
  {
    (j > 0 && IsWordChar(s[j - 1])) != (j < |s| && IsWordChar(s[j]))
  }

  /** `.*`: any run of characters without a newline. */
  predicate AnyLine(t: string) {
    forall k :: 0 <= k < |t| ==> t[k] != '\n'
  }

  /**
   t matches in full one of the alternatives installed at start-up: `text/.*`,
   `application/json`, `application/.*\+json`, `application/xml`, `application/.*\+xml`.
   */
  predicate MatchesDefaultAlternative(t: string) {
    || (|t| >= 5 && t[..5] == "text/" && AnyLine(t[5..]))
    || t == "application/json"
    || (|t| >= 17 && t[..12] == "application/" && t[|t| - 5..] == "+json" && AnyLine(t[12..|t| - 5]))
    || t == "application/xml"
    || (|t| >= 16 && t[..12] == "application/" && t[|t| - 4..] == "+xml" && AnyLine(t[12..|t| - 4]))
  }

  /**
   Unanchored `MatchString` of the default pattern: some substring matches an
   alternative and ends at a word boundary (the trailing `.*` may match nothing).
   */
  predicate DefaultIsText(s: string)
    ensures DefaultIsText(s) ==> Contains(s, "text/") || Contains(s, "application/")
  {
    MatchNamesAType(s);
    exists i, j | 0 <= i <= j <= |s| :: MatchesDefaultAlternative(s[i..j]) && WordBoundary(s, j)
  }

  /** p occurs in s at position i. */
  predicate OccursAt(s: string, p: string, i: int) {
    0 <= i <= |s| - |p| && s[i..i + |p|] == p
  }

  /** p occurs in s. */
  predicate Contains(s: string, p: string) {
    exists i | 0 <= i <= |s| :: OccursAt(s, p, i)
  }

  /** Every alternative starts with `text/` or `application/`. */
  lemma AlternativePrefix(t: string)
    requires MatchesDefaultAlternative(t)
    ensures (|t| >= 5 && t[..5] == "text/") || (|t| >= 12 && t[..12] == "application/")
  {
    if t == "application/json" || t == "application/xml" {
      assert t[..12] == "application/";
    }
  }

  /** A substring that matches an alternative starts with one of the two type prefixes. */
  lemma MatchAtNamesAType(s: string, i: int, j: int)
    requires 0 <= i <= j <= |s| && MatchesDefaultAlternative(s[i..j])
    ensures OccursAt(s, "text/", i) || OccursAt(s, "application/", i)
  {
    var t := s[i..j];
    AlternativePrefix(t);
    if |t| >= 5 && t[..5] == "text/" {
      assert s[i..i + 5] == t[..5];
    } else {
      assert s[i..i + 12] == t[..12];
    }
  }

  /** A match of the default pattern contains one of the two type prefixes. */
  lemma MatchNamesAType(s: string)
    ensures (exists i, j | 0 <= i <= j <= |s| :: MatchesDefaultAlternative(s[i..j]) && WordBoundary(s, j))
            ==> Contains(s, "text/") || Contains(s, "application/")
  {
    if exists i, j | 0 <= i <= j <= |s| :: MatchesDefaultAlternative(s[i..j]) && WordBoundary(s, j) {
      var i, j :| 0 <= i <= j <= |s| && MatchesDefaultAlternative(s[i..j]) && WordBoundary(s, j);
      MatchAtNamesAType(s, i, j);
    }
  }

  /** A string that lacks one of p's characters does not contain p. */
  lemma MissingCharNotContained(s: string, p: string, k: int)
    requires 0 <= k < |p| && p[k] !in s
    ensures !Contains(s, p)
  {
  }

  /** A content type with neither a `t` nor a `c` is not text. */
  lemma NoTypeLettersNotText(s: string)
    requires 't' !in s && 'c' !in s
    ensures !DefaultIsText(s)
  {
    MissingCharNotContained(s, "text/", 0);
    MissingCharNotContained(s, "application/", 5);
  }

  /** Every alternative holds an `x`, a `j` or a `+`. */
  lemma AlternativeMarker(t: string)
    requires MatchesDefaultAlternative(t)
    ensures 'x' in t || 'j' in t || '+' in t
  {
    if |t| >= 5 && t[..5] == "text/" {
      assert t[2] == t[..5][2];
    } else if t == "application/json" || t == "application/xml" {
      assert t[12] in "jx";
    } else if |t| >= 17 && t[..12] == "application/" && t[|t| - 5..] == "+json" {
      assert t[|t| - 5] == t[|t| - 5..][0];
    } else {
      assert t[|t| - 4] == t[|t| - 4..][0];
    }
  }

  /** A substring that matches an alternative puts its marker character into the whole string. */
  lemma MatchMarker(s: string, i: int, j: int)
    requires 0 <= i <= j <= |s| && MatchesDefaultAlternative(s[i..j])
    ensures 'x' in s || 'j' in s || '+' in s
  {
    AlternativeMarker(s[i..j]);
    var k :| 0 <= k < j - i && s[i..j][k] in "xj+";
    assert s[i + k] == s[i..j][k];
  }

  /** A content type with no `x`, `j` or `+` is not text. */
  lemma NoMarkerNotText(s: string)
    requires 'x' !in s && 'j' !in s && '+' !in s
    ensures !DefaultIsText(s)
  {
    forall i, j | 0 <= i <= j <= |s|
      ensures !MatchesDefaultAlternative(s[i..j])
    {
      if MatchesDefaultAlternative(s[i..j]) {
        MatchMarker(s, i, j);
      }
    }
  }

  /** `application/octet-stream` is not text, so binary bodies under it are sent as base64. */
  lemma DefaultRejectsOctetStream()
    ensures !DefaultIsText("application/octet-stream")
  {
    NoMarkerNotText("application/octet-stream");
  }

  /** Images, audio and the empty Content-Type are not text. */
  lemma DefaultRejectsMedia()
    ensures !DefaultIsText("image/png")
    ensures !DefaultIsText("audio/mpeg")
    ensures !DefaultIsText("")
  {
    NoTypeLettersNotText("image/png");
    NoTypeLettersNotText("audio/mpeg");
    NoTypeLettersNotText("");
  }

  /** Classifying `t` followed by a boundary: the whole string is text. */
  lemma MatchAtStart(s: string, j: int)
    requires 0 <= j <= |s| && MatchesDefaultAlternative(s[..j]) && WordBoundary(s, j)
    ensures DefaultIsText(s)
  {
    assert s[0..j] == s[..j];
  }

  /** The default classifier meets the writer's assumptions. */
  lemma DefaultMeetsAssumptions()
    ensures Assumptions(DefaultIsText)
  {
    var s := DefaultContentType;
    assert s[..10] == "text/plain";
    assert s[..10][..5] == "text/";
    MatchAtStart(s, 10);
  }

  /** A whole content type that matches an alternative and ends in a word character is text. */
  lemma WholeIsText(s: string)
    requires MatchesDefaultAlternative(s) && |s| > 0 && IsWordChar(s[|s| - 1])
    ensures DefaultIsText(s)
  {
    assert s[..|s|] == s;
    MatchAtStart(s, |s|);
  }

  /** The default list recognises JSON and XML. */
  lemma DefaultRecognisesJsonAndXml()
    ensures DefaultIsText("application/json")
    ensures DefaultIsText("application/xml")
  {
    WholeIsText("application/json");
    WholeIsText("application/xml");
  }

  /** The default list recognises the `+json` structured-syntax suffix. */
  lemma DefaultRecognisesJsonSuffix()
    ensures DefaultIsText("application/problem+json")
  {
    var s := "application/problem+json";
    assert s[..12] == "application/" && s[19..] == "+json";
    WholeIsText(s);
  }

  /** The default list recognises the `+xml` structured-syntax suffix. */
  lemma DefaultRecognisesXmlSuffix()
    ensures DefaultIsText("application/atom+xml")
  {
    var s := "application/atom+xml";
    assert s[..12] == "application/" && s[16..] == "+xml";
    WholeIsText(s);
  }

  /**
   The match is not anchored at the start: a content type that merely contains a text
   type after any prefix is classified as text.
   */
  lemma DefaultIsUnanchored()
    ensures DefaultIsText("x-text/csv")
  {
    var s := "x-text/csv";
    assert s[2..10] == "text/csv";
    assert s[2..10][..5] == "text/";
    assert MatchesDefaultAlternative(s[2..10]) && WordBoundary(s, 10);
  }
}
