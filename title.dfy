/**
 * The display title of a search result: three global regular-expression
 * replacements, run one after the other, that turn the HTML entities
 * `&amp;`, `&#39;` and `&quot;` back into `&`, `'` and `"`.
 */
module TitleDecoding {

  /** q occurs in s starting at index i. */
  predicate OccursAt(s: string, q: string, i: int)
  {
    0 <= i && i + |q| <= |s| && s[i..i + |q|] == q
  }

  predicate Contains(s: string, q: string)
  {
    exists i :: 0 <= i <= |s| && OccursAt(s, q, i)
  }

  predicate StartsWith(s: string, q: string)
  {
    |q| <= |s| && s[..|q|] == q
  }

  /** No character of r appears in q. */
  predicate Disjoint(r: string, q: string)
  {
    forall c :: c in r ==> c !in q
  }

  /**
   * `s.replace(/p/g, r)` for a pattern without special characters: scanning from
   * the left, each match of p is replaced by r and the scan resumes after it.
   */
  function ReplaceAll(s: string, p: string, r: string): (out: string)
    requires p != []
    ensures |r| <= |p| ==> |out| <= |s|
    decreases |s|
  {
    if |s| < |p| then s
    else if s[..|p|] == p then r + ReplaceAll(s[|p|..], p, r)
    else [s[0]] + ReplaceAll(s[1..], p, r)
  }

  /** The title as the player shows it; decoding never makes it longer. */
  function DecodeTitle(title: string): (d: string)
    ensures |d| <= |title|
  {
    var t1 := ReplaceAll(title, "&amp;", "&");
    var t2 := ReplaceAll(t1, "&#39;", "'");
    ReplaceAll(t2, "&quot;", "\"")
  }

  /** `parts` joined with `sep` between neighbours. */
  function Join(parts: seq<string>, sep: string): string
  {
    if parts == [] then ""
    else if |parts| == 1 then parts[0]
    else parts[0] + sep + Join(parts[1..], sep)
  }

  // ----- ReplaceAll -----

  /** A match at the front is replaced and the scan resumes right after it. */
  lemma ReplaceAllAtMatch(p: string, r: string, u: string)
    requires p != []
    ensures ReplaceAll(p + u, p, r) == r + ReplaceAll(u, p, r)
  {
    assert (p + u)[..|p|] == p;
    assert (p + u)[|p|..] == u;
  }

  /** Text free of the pattern's first character is copied unchanged. */
  lemma {:induction false} ReplaceAllCopies(a: string, t: string, p: string, r: string)
    requires p != [] && p[0] !in a
    ensures ReplaceAll(a + t, p, r) == a + ReplaceAll(t, p, r)
    decreases |a|
  {
    if a == [] {
      assert a + t == t;
    } else {
      var s := a + t;
      assert s[0] == a[0] && s[1..] == a[1..] + t;
      assert a[0] in a;
      assert p[0] !in a[1..];
      ReplaceAllCopies(a[1..], t, p, r);
      if |s| < |p| {
        assert ReplaceAll(t, p, r) == t;
        assert ReplaceAll(s, p, r) == s;
      } else {
        assert s[..|p|][0] == a[0];
        assert ReplaceAll(s, p, r) == [a[0]] + ReplaceAll(a[1..] + t, p, r);
      }
      assert [a[0]] + a[1..] == a;
    }
  }

  /** A text without the pattern's first character passes through unchanged. */
  lemma ReplaceAllIdentity(a: string, p: string, r: string)
    requires p != [] && p[0] !in a
    ensures ReplaceAll(a, p, r) == a
  {
    ReplaceAllCopies(a, "", p, r);
    assert a + "" == a;
  }

  /** What does not occur in a text does not occur in its tail. */
  lemma AbsentFromTail(a: string, p: string)
    requires a != [] && !Contains(a, p)
    ensures !Contains(a[1..], p)
  {
    forall i | 0 <= i <= |a[1..]| ensures !OccursAt(a[1..], p, i) {
      OccursBehind([a[0]], a[1..], p, i);
      assert [a[0]] + a[1..] == a;
      assert !OccursAt(a, p, i + 1);
    }
  }

  /** No match of a non-overlapping p starts at a non-empty text without p that p follows. */
  lemma NoMatchAtFront(a: string, p: string, u: string)
    requires p != [] && p[0] !in p[1..] && a != [] && !Contains(a, p)
    ensures (a + p + u)[..|p|] != p
  {
    var s := a + p + u;
    if |a| >= |p| {
      assert s[..|p|] == a[..|p|];
      assert !OccursAt(a, p, 0);
    } else {
      assert p[|a|] == p[1..][|a| - 1];
      assert s[..|p|][|a|] == s[|a|] == p[0] != p[|a|];
    }
  }

  /** A text in which p does not occur passes through unchanged. */
  lemma {:induction false} ReplaceAllAbsent(a: string, p: string, r: string)
    requires p != [] && !Contains(a, p)
    ensures ReplaceAll(a, p, r) == a
    decreases |a|
  {
    if |a| >= |p| {
      assert !OccursAt(a, p, 0);
      AbsentFromTail(a, p);
      ReplaceAllAbsent(a[1..], p, r);
      assert [a[0]] + a[1..] == a;
    }
  }

  /**
   * When p cannot overlap itself (its first character does not recur in it), a
   * text without p followed by p is copied, and the p after it is replaced.
   */
  lemma {:induction false} ReplaceAllBeforeMatch(a: string, p: string, r: string, u: string)
    requires p != [] && p[0] !in p[1..] && !Contains(a, p)
    ensures ReplaceAll(a + p + u, p, r) == a + r + ReplaceAll(u, p, r)
    decreases |a|
  {
    var s := a + p + u;
    if a == [] {
      assert s == p + u;
      ReplaceAllAtMatch(p, r, u);
    } else {
      NoMatchAtFront(a, p, u);
      assert s[1..] == a[1..] + p + u;
      AbsentFromTail(a, p);
      ReplaceAllBeforeMatch(a[1..], p, r, u);
      assert [a[0]] + (a[1..] + r + ReplaceAll(u, p, r)) == a + r + ReplaceAll(u, p, r);
    }
  }

  /**
   * Every occurrence of p is replaced: for a pattern that cannot overlap itself,
   * pieces in which p does not occur, joined by p, come out as the same pieces
   * joined by r.
   */
  lemma {:induction false} ReplaceAllJoin(parts: seq<string>, p: string, r: string)
    requires p != [] && p[0] !in p[1..]
    requires forall i :: 0 <= i < |parts| ==> !Contains(parts[i], p)
    ensures ReplaceAll(Join(parts, p), p, r) == Join(parts, r)
    decreases |parts|
  {
    if parts == [] {
    } else if |parts| == 1 {
      ReplaceAllAbsent(parts[0], p, r);
    } else {
      var rest := Join(parts[1..], p);
      ReplaceAllBeforeMatch(parts[0], p, r, rest);
      ReplaceAllJoin(parts[1..], p, r);
    }
  }

  /** If the output starts with w, and r contributes no character of w, the input starts with w too. */
  lemma {:induction false} StartsWithBack(u: string, p: string, r: string, w: string)
    requires p != [] && r != [] && Disjoint(r, w)
    ensures StartsWith(ReplaceAll(u, p, r), w) ==> StartsWith(u, w)
    decreases |u|
  {
    var out := ReplaceAll(u, p, r);
    if w == [] || |u| < |p| {
    } else if u[..|p|] == p {
      assert out[0] == r[0] && r[0] in r;
    } else {
      var tail := ReplaceAll(u[1..], p, r);
      assert out == [u[0]] + tail;
      StartsWithBack(u[1..], p, r, w[1..]);
      if StartsWith(out, w) {
        assert out[0] == w[0];
        assert tail[..|w| - 1] == out[1..|w|] == w[1..];
        assert u[..|w|] == [u[0]] + u[1..][..|w| - 1];
      }
    }
  }

  /** The characters of q's tail are characters of q. */
  lemma DisjointTail(r: string, q: string)
    requires q != [] && Disjoint(r, q)
    ensures Disjoint(r, q[1..])
  {
  }

  /** Behind a prefix, occurrences are those of the rest, shifted by the prefix's length. */
  lemma OccursBehind(pre: string, t: string, q: string, i: int)
    requires 0 <= i
    ensures OccursAt(pre + t, q, i + |pre|) <==> OccursAt(t, q, i)
  {
    if i + |q| <= |t| {
      assert (pre + t)[i + |pre|..i + |pre| + |q|] == t[i..i + |q|];
    }
  }

  /** A copied character in front of a replaced tail does not start q if it did not start q before. */
  lemma FrontStaysClear(c: char, u: string, p: string, r: string, q: string)
    requires p != [] && r != [] && q != [] && Disjoint(r, q) && !StartsWith([c] + u, q)
    ensures !StartsWith([c] + ReplaceAll(u, p, r), q)
  {
    var tail := ReplaceAll(u, p, r);
    DisjointTail(r, q);
    StartsWithBack(u, p, r, q[1..]);
    if |q| <= 1 + |u| {
      assert ([c] + u)[..|q|] == [c] + u[..|q| - 1];
    }
    if |q| <= 1 + |tail| {
      assert ([c] + tail)[..|q|] == [c] + tail[..|q| - 1];
    }
  }

  /** When r shares no character with p (and is not empty), no occurrence of p is left behind. */
  lemma {:induction false} ReplaceAllLeavesNone(s: string, p: string, r: string)
    requires p != [] && r != [] && Disjoint(r, p)
    ensures !Contains(ReplaceAll(s, p, r), p)
    decreases |s|
  {
    var out := ReplaceAll(s, p, r);
    if |s| < |p| {
    } else if s[..|p|] == p {
      var tail := ReplaceAll(s[|p|..], p, r);
      ReplaceAllLeavesNone(s[|p|..], p, r);
      assert out == r + tail;
      forall i | 0 <= i <= |out| ensures !OccursAt(out, p, i) {
        if i < |r| {
          assert out[i] == r[i] && r[i] in r;
        } else {
          OccursBehind(r, tail, p, i - |r|);
        }
      }
    } else {
      var tail := ReplaceAll(s[1..], p, r);
      ReplaceAllLeavesNone(s[1..], p, r);
      assert out == [s[0]] + tail;
      forall i | 0 <= i <= |out| ensures !OccursAt(out, p, i) {
        if i == 0 {
          assert s == [s[0]] + s[1..];
          FrontStaysClear(s[0], s[1..], p, r, p);
        } else {
          OccursBehind([s[0]], tail, p, i - 1);
        }
      }
    }
  }

  /** When r shares no character with q, replacing never creates an occurrence of q. */
  lemma {:induction false} ReplaceAllKeepsAbsent(s: string, p: string, r: string, q: string)
    requires p != [] && r != [] && q != [] && Disjoint(r, q)
    requires !Contains(s, q)
    ensures !Contains(ReplaceAll(s, p, r), q)
    decreases |s|
  {
    var out := ReplaceAll(s, p, r);
    if |s| < |p| {
    } else if s[..|p|] == p {
      var u := s[|p|..];
      var tail := ReplaceAll(u, p, r);
      assert s == p + u;
      forall i | 0 <= i <= |u| ensures !OccursAt(u, q, i) {
        OccursBehind(p, u, q, i);
        assert !OccursAt(s, q, i + |p|);
      }
      ReplaceAllKeepsAbsent(u, p, r, q);
      assert out == r + tail;
      forall i | 0 <= i <= |out| ensures !OccursAt(out, q, i) {
        if i < |r| {
          assert out[i] == r[i] && r[i] in r;
        } else {
          OccursBehind(r, tail, q, i - |r|);
        }
      }
    } else {
      var u := s[1..];
      var tail := ReplaceAll(u, p, r);
      AbsentFromTail(s, q);
      ReplaceAllKeepsAbsent(u, p, r, q);
      assert out == [s[0]] + tail;
      forall i | 0 <= i <= |out| ensures !OccursAt(out, q, i) {
        if i == 0 {
          assert !OccursAt(s, q, 0);
          FrontStaysClear(s[0], u, p, r, q);
        } else {
          OccursBehind([s[0]], tail, q, i - 1);
        }
      }
    }
  }

  /** A character where no match starts is copied and the scan moves one step on. */
  lemma ReplaceAllSkip(c: char, u: string, p: string, r: string)
    requires p != [] && !StartsWith([c] + u, p)
    ensures ReplaceAll([c] + u, p, r) == [c] + ReplaceAll(u, p, r)
  {
    var s := [c] + u;
    assert s[1..] == u;
    if |s| < |p| {
      assert ReplaceAll(u, p, r) == u;
    }
  }

  // ----- DecodeTitle -----

  /** A title without any `&` is shown as it is. */
  lemma TitleWithoutAmpersand(title: string)
    requires '&' !in title
    ensures DecodeTitle(title) == title
  {
    ReplaceAllIdentity(title, "&amp;", "&");
    ReplaceAllIdentity(title, "&#39;", "'");
    ReplaceAllIdentity(title, "&quot;", "\"");
  }

  /** No `&#39;` and no `&quot;` is left in a decoded title. */
  lemma TitleLeavesNoQuoteEntity(title: string)
    ensures !Contains(DecodeTitle(title), "&#39;")
    ensures !Contains(DecodeTitle(title), "&quot;")
  {
    var t1 := ReplaceAll(title, "&amp;", "&");
    var t2 := ReplaceAll(t1, "&#39;", "'");
    ReplaceAllLeavesNone(t1, "&#39;", "'");
    ReplaceAllKeepsAbsent(t2, "&quot;", "\"", "&#39;");
    ReplaceAllLeavesNone(t2, "&quot;", "\"");
  }

  /**
   * Each of the three steps replaces every occurrence of its entity: pieces in
   * which the entity does not occur, joined by it, come out joined by its character.
   */
  lemma EntityStepsReplaceEvery(parts: seq<string>)
    ensures (forall i :: 0 <= i < |parts| ==> !Contains(parts[i], "&amp;")) ==>
      ReplaceAll(Join(parts, "&amp;"), "&amp;", "&") == Join(parts, "&")
    ensures (forall i :: 0 <= i < |parts| ==> !Contains(parts[i], "&#39;")) ==>
      ReplaceAll(Join(parts, "&#39;"), "&#39;", "'") == Join(parts, "'")
    ensures (forall i :: 0 <= i < |parts| ==> !Contains(parts[i], "&quot;")) ==>
      ReplaceAll(Join(parts, "&quot;"), "&quot;", "\"") == Join(parts, "\"")
  {
    if forall i :: 0 <= i < |parts| ==> !Contains(parts[i], "&amp;") {
      assert "&amp;"[1..] == "amp;" && "&amp;"[0] == '&';
      ReplaceAllJoin(parts, "&amp;", "&");
    }
    if forall i :: 0 <= i < |parts| ==> !Contains(parts[i], "&#39;") {
      assert "&#39;"[1..] == "#39;" && "&#39;"[0] == '&';
      ReplaceAllJoin(parts, "&#39;", "'");
    }
    if forall i :: 0 <= i < |parts| ==> !Contains(parts[i], "&quot;") {
      assert "&quot;"[1..] == "quot;" && "&quot;"[0] == '&';
      ReplaceAllJoin(parts, "&quot;", "\"");
    }
  }

  /** `&#39;` becomes an apostrophe. */
  lemma TitleApostrophe(t: string)
    ensures DecodeTitle("&#39;" + t) == "'" + DecodeTitle(t)
  {
    var t1 := ReplaceAll(t, "&amp;", "&");
    var t2 := ReplaceAll(t1, "&#39;", "'");
    assert "&#39;" + t == ['&'] + ("#39;" + t);
    ReplaceAllSkip('&', "#39;" + t, "&amp;", "&");
    ReplaceAllCopies("#39;", t, "&amp;", "&");
    assert ReplaceAll("&#39;" + t, "&amp;", "&") == "&#39;" + t1;
    ReplaceAllAtMatch("&#39;", "'", t1);
    ReplaceAllCopies("'", t2, "&quot;", "\"");
  }

  /** `&quot;` becomes a double quote. */
  lemma TitleQuote(t: string)
    ensures DecodeTitle("&quot;" + t) == "\"" + DecodeTitle(t)
  {
    var t1 := ReplaceAll(t, "&amp;", "&");
    assert "&quot;" + t == ['&'] + ("quot;" + t);
    assert ("&quot;" + t)[1] == 'q';
    ReplaceAllSkip('&', "quot;" + t, "&amp;", "&");
    ReplaceAllCopies("quot;", t, "&amp;", "&");
    assert ReplaceAll("&quot;" + t, "&amp;", "&") == "&quot;" + t1;
    TitleQuoteAfterAmp(t1);
  }

  /**
   * `&amp;` becomes `&`; when the text after it does not itself spell the
   * rest of another entity, nothing more happens to it.
   */
  lemma TitleAmpersand(a: string, t: string)
    requires a != [] && '&' !in a && a[0] != '#' && a[0] != 'q'
    ensures DecodeTitle("&amp;" + a + t) == "&" + a + DecodeTitle(t)
  {
    var t1 := ReplaceAll(t, "&amp;", "&");
    var t2 := ReplaceAll(t1, "&#39;", "'");
    assert ReplaceAll("&amp;" + a + t, "&amp;", "&") == "&" + a + t1 by {
      assert "&amp;" + a + t == "&amp;" + (a + t);
      ReplaceAllAtMatch("&amp;", "&", a + t);
      ReplaceAllCopies(a, t, "&amp;", "&");
    }
    assert ReplaceAll("&" + a + t1, "&#39;", "'") == "&" + a + t2 by {
      AmpersandSkipped(a, t1, "&#39;", "'");
    }
    AmpersandSkipped(a, t2, "&quot;", "\"");
  }

  /** A `&` whose next character differs from the pattern's second is copied together with the `&`-free text after it. */
  lemma AmpersandSkipped(a: string, u: string, p: string, r: string)
    requires |p| >= 2 && p[0] == '&' && a != [] && '&' !in a && a[0] != p[1]
    ensures ReplaceAll("&" + a + u, p, r) == "&" + a + ReplaceAll(u, p, r)
  {
    assert "&" + a + u == ['&'] + (a + u);
    assert ("&" + a + u)[1] == a[0];
    ReplaceAllSkip('&', a + u, p, r);
    ReplaceAllCopies(a, u, p, r);
    assert "&" + a + ReplaceAll(u, p, r) == ['&'] + (a + ReplaceAll(u, p, r));
  }

  /** A match at the front, then text free of the pattern's first character: both are done in one go. */
  lemma MatchThenCopy(p: string, r: string, a: string, t: string)
    requires p != [] && p[0] !in a
    ensures ReplaceAll(p + a + t, p, r) == r + a + ReplaceAll(t, p, r)
  {
    assert p + a + t == p + (a + t);
    ReplaceAllAtMatch(p, r, a + t);
    ReplaceAllCopies(a, t, p, r);
  }

  /** Because `&amp;` is decoded first, `&amp;quot;` is decoded twice and ends up as a double quote. */
  lemma TitleDecodesAmpQuoteTwice(t: string)
    ensures DecodeTitle("&amp;quot;" + t) == "\"" + DecodeTitle(t)
  {
    var t1 := ReplaceAll(t, "&amp;", "&");
    MatchThenCopy("&amp;", "&", "quot;", t);
    assert "&amp;" + "quot;" + t == "&amp;quot;" + t;
    assert "&" + "quot;" + t1 == "&quot;" + t1;
    TitleQuoteAfterAmp(t1);
  }

  /** Because `&amp;` is decoded first, `&amp;#39;` is decoded twice and ends up as an apostrophe. */
  lemma TitleDecodesAmpApostropheTwice(t: string)
    ensures DecodeTitle("&amp;#39;" + t) == "'" + DecodeTitle(t)
  {
    var t1 := ReplaceAll(t, "&amp;", "&");
    var t2 := ReplaceAll(t1, "&#39;", "'");
    MatchThenCopy("&amp;", "&", "#39;", t);
    assert "&amp;" + "#39;" + t == "&amp;#39;" + t;
    assert "&" + "#39;" + t1 == "&#39;" + t1;
    ReplaceAllAtMatch("&#39;", "'", t1);
    ReplaceAllCopies("'", t2, "&quot;", "\"");
  }

  /** The last two steps applied to `&quot;` followed by text already past the first step. */
  lemma TitleQuoteAfterAmp(t1: string)
    ensures ReplaceAll(ReplaceAll("&quot;" + t1, "&#39;", "'"), "&quot;", "\"")
         == "\"" + ReplaceAll(ReplaceAll(t1, "&#39;", "'"), "&quot;", "\"")
  {
    var t2 := ReplaceAll(t1, "&#39;", "'");
    assert "&quot;" + t1 == ['&'] + ("quot;" + t1);
    assert ("&quot;" + t1)[1] == 'q';
    ReplaceAllSkip('&', "quot;" + t1, "&#39;", "'");
    ReplaceAllCopies("quot;", t1, "&#39;", "'");
    assert ReplaceAll("&quot;" + t1, "&#39;", "'") == "&quot;" + t2;
    ReplaceAllAtMatch("&quot;", "\"", t2);
  }

  /** Each pass is a single scan: `&amp;amp;` loses only one `amp;`. */
  lemma TitleAmpersandDecodedOnce()
    ensures DecodeTitle("&amp;amp;") == "&amp;"
  {
    TitleAmpersand("amp;", "");
    TitleWithoutAmpersand("");
    assert "&amp;" + "amp;" + "" == "&amp;amp;";
  }
}
