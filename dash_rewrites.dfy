/**
 * What each dash pass of `normalize_for_tts` (chunk_tts.py:94-145) does to the
 * text it rewrites, stated both ways round, and the examples of its docstring
 * (lines 80-88) carried through all four passes.
 */
module DashRewrites {
  import opened Text
  import opened Normalize
  import opened NormalForm

  /** A non-empty run of ASCII letters, what `[A-Za-z]+` matches. */
  predicate LetterWord(w: string) {
    w != [] && forall k :: 0 <= k < |w| ==> IsLetter(w[k])
  }

  /** Words of ASCII letters separated by single spaces. */
  predicate Phrase(s: string) {
    && s != [] && Trimmed(s) && SingleSpaced(s)
    && forall k :: 0 <= k < |s| ==> IsLetter(s[k]) || s[k] == ' '
  }

  // ---------- pass 1: asides ----------

  lemma DashFreeTail(p: string)
    requires p != [] && DashFree(p)
    ensures !IsDash(p[0]) && DashFree(p[1..])
  {
    forall k | 0 <= k < |p[1..]|
      ensures !IsDash(p[1..][k])
    {
      assert p[1..][k] == p[k + 1];
    }
  }

  /** A dash-free prefix passes through pass 1 unchanged. */
  lemma {:induction false} AsidesDashFreePrefix(p: string, t: string)
    requires DashFree(p)
    ensures RewriteAsides(p + t) == p + RewriteAsides(t)
    decreases |p|
  {
    if p == [] {
      assert p + t == t;
    } else {
      var u := p[1..];
      DashFreeTail(p);
      ConsSplit(p, t);
      AsidesAfterNonDash(p[0], u + t);
      AsidesDashFreePrefix(u, t);
      ConsSplit(p, RewriteAsides(t));
    }
  }

  /** A non-empty sequence followed by t is its head followed by its tail and t. */
  lemma ConsSplit<T>(p: seq<T>, t: seq<T>)
    requires p != []
    ensures p + t == [p[0]] + (p[1..] + t)
  {
  }

  /** The first dash at or after k closes the aside when no newline comes before it. */
  lemma ClosingDashAt(s: string, k: nat, j: nat)
    requires k <= j < |s| && IsDash(s[j])
    requires forall m :: k <= m < j ==> !IsDash(s[m]) && s[m] != '\n'
    ensures ClosingDash(s, k) == Some(j)
  {
    assert '\n' !in s[k..j];
  }

  /** The aside `d1 inner d2` at the start of the text is closed by d2 and replaced as a whole. */
  lemma AsideStep(d1: char, inner: string, d2: char, rest: string)
    requires IsDash(d1) && IsDash(d2) && DashFree(inner) && '\n' !in inner
    ensures RewriteAsides([d1] + inner + [d2] + rest) == AsideReplacement(inner, [d1] + inner + [d2]) + RewriteAsides(rest)
  {
    var s := [d1] + inner + [d2] + rest;
    var j := |inner| + 1;
    assert s[j] == d2;
    forall m | 1 <= m < j
      ensures !IsDash(s[m]) && s[m] != '\n'
    {
      assert s[m] == inner[m - 1];
    }
    ClosingDashAt(s, 1, j);
    assert s[1..j] == inner;
    assert s[..j + 1] == [d1] + inner + [d2];
    assert s[j + 1..] == rest;
  }

  /**
   * An aside of several words between two dashes on one line becomes
   * ", aside, "; the closing dash is used up and opens no second aside.
   */
  lemma AsideToCommas(d1: char, inner: string, d2: char, rest: string)
    requires IsDash(d1) && IsDash(d2) && DashFree(inner) && '\n' !in inner
    requires ' ' in Strip(inner)
    ensures RewriteAsides([d1] + inner + [d2] + rest) == ", " + Strip(inner) + ", " + RewriteAsides(rest)
  {
    AsideStep(d1, inner, d2, rest);
  }

  /**
   * Two dashes around a single word are left as they are, and the closing one
   * still opens no aside of its own.
   */
  lemma OneWordAsideKept(d1: char, inner: string, d2: char, rest: string)
    requires IsDash(d1) && IsDash(d2) && DashFree(inner) && '\n' !in inner
    requires ' ' !in Strip(inner)
    ensures RewriteAsides([d1] + inner + [d2] + rest) == [d1] + inner + [d2] + RewriteAsides(rest)
  {
    AsideStep(d1, inner, d2, rest);
  }

  /** A dash with no dash after it opens no aside. */
  lemma LoneDashKept(d: char, t: string)
    requires IsDash(d) && DashFree(t)
    ensures RewriteAsides([d] + t) == [d] + t
  {
    var s := [d] + t;
    assert s[1..] == t;
    assert forall m :: 1 <= m < |s| ==> !IsDash(s[m]) by {
      forall m | 1 <= m < |s|
        ensures !IsDash(s[m])
      {
        assert s[m] == t[m - 1];
      }
    }
    AsidesDashFree(t);
  }

  // ---------- pass 2: Word-Marker ----------

  /** A `([A-Za-z]+)([-–—])([A-Za-z]+)\b` match at the start of s, with its dash at e and its end at b. */
  predicate WordDashShape(s: string, e: nat, b: nat) {
    && 0 < e && e + 1 < b <= |s| && IsDash(s[e])
    && (forall k :: 0 <= k < b && k != e ==> IsLetter(s[k]))
    && (b == |s| || !IsWordChar(s[b]))
  }

  /** A letter run from i to j that no letter follows is the one LetterRunEnd finds. */
  lemma LetterRunEndAt(s: string, i: nat, j: nat)
    requires i <= j <= |s|
    requires forall k :: i <= k < j ==> IsLetter(s[k])
    requires j == |s| || !IsLetter(s[j])
    ensures LetterRunEnd(s, i) == j
  {
  }

  /** WordDashAt finds the match (e, b) exactly when the text starts with one there. */
  lemma WordDashAtExactly(s: string, e: nat, b: nat)
    ensures WordDashAt(s) == Some(WordDash(e, b)) <==> WordDashShape(s, e, b)
  {
    if WordDashShape(s, e, b) {
      LetterRunEndAt(s, 0, e);
      assert IsLetter(s[e + 1]);
      LetterRunEndAt(s, e + 1, b);
    }
  }

  /** "left-right" followed by a non-word character is a match, with the dash at |left|. */
  lemma WordDashOf(left: string, d: char, right: string, rest: string)
    requires LetterWord(left) && LetterWord(right) && IsDash(d)
    requires rest == [] || !IsWordChar(rest[0])
    ensures var s := left + [d] + right + rest;
      && WordDashAt(s) == Some(WordDash(|left|, |left| + 1 + |right|))
      && s[..|left|] == left && s[|left| + 1..|left| + 1 + |right|] == right
      && s[..|left| + 1 + |right|] == left + [d] + right
      && s[|left| + 1 + |right|..] == rest
  {
    var s := left + [d] + right + rest;
    var e, b := |left|, |left| + 1 + |right|;
    forall k | 0 <= k < b && k != e
      ensures IsLetter(s[k])
    {
      if k < e {
        assert s[k] == left[k];
      } else {
        assert s[k] == right[k - e - 1];
      }
    }
    assert s[e] == d;
    if b < |s| {
      assert s[b] == rest[0];
    }
    WordDashAtExactly(s, e, b);
    assert s[..e] == left;
    assert s[e + 1..b] == right;
    assert s[..b] == left + [d] + right;
    assert s[b..] == rest;
  }

  /**
   * Pass 2 turns "Word-Marker" into "Word, Marker" when Marker, in any case,
   * is a discourse marker; the scan goes on after the marker.
   */
  lemma MarkerRewrite(left: string, d: char, right: string, rest: string)
    requires LetterWord(left) && LetterWord(right) && IsDash(d)
    requires rest == [] || !IsWordChar(rest[0])
    requires LowerStr(right) in Discourse
    ensures RewriteDiscourseFrom(left + [d] + right + rest, false) == left + ", " + right + RewriteDiscourseFrom(rest, true)
  {
    WordDashOf(left, d, right, rest);
  }

  /** Pass 2 leaves "Word-Other" alone when Other is no discourse marker. */
  lemma CompoundRewrite(left: string, d: char, right: string, rest: string)
    requires LetterWord(left) && LetterWord(right) && IsDash(d)
    requires rest == [] || !IsWordChar(rest[0])
    requires LowerStr(right) !in Discourse
    ensures RewriteDiscourseFrom(left + [d] + right + rest, false) == left + [d] + right + RewriteDiscourseFrom(rest, true)
  {
    WordDashOf(left, d, right, rest);
  }

  // ---------- pass 3: the remaining dashes ----------

  /** The character at i stands between two alphanumerics (the text's ends count as spaces). */
  predicate DashFlanked(text: string, i: nat)
    requires i < |text|
  {
    0 < i && i + 1 < |text| && IsAlnum(text[i - 1]) && IsAlnum(text[i + 1])
  }

  /** The text with every dash-like character replaced by '-'. */
  function Hyphenated(s: string): string {
    seq(|s|, k requires 0 <= k < |s| => if IsDash(s[k]) then '-' else s[k])
  }

  lemma {:induction false} ReclassifyPrefixFlanked(text: string, n: nat)
    requires n <= |text|
    requires forall k :: 0 <= k < |text| && IsDash(text[k]) ==> DashFlanked(text, k)
    ensures ReclassifyPrefix(text, n) == Hyphenated(text)[..n]
  {
    if n > 0 {
      ReclassifyPrefixFlanked(text, n - 1);
      var h := Hyphenated(text);
      assert h[..n] == h[..n - 1] + [h[n - 1]];
    }
  }

  /** When every dash stands between alphanumerics, pass 3 only turns en and em dashes into hyphens. */
  lemma ReclassifyFlanked(text: string)
    requires forall k :: 0 <= k < |text| && IsDash(text[k]) ==> DashFlanked(text, k)
    ensures Reclassified(text) == Hyphenated(text)
  {
    ReclassifyPrefixFlanked(text, |text|);
  }

  /** Text whose only dashes are hyphens between alphanumerics comes through pass 3 unchanged. */
  lemma ReclassifyCompounds(text: string)
    requires EnDash !in text && EmDash !in text && HyphensFlanked(text)
    ensures Reclassified(text) == text
  {
    forall k | 0 <= k < |text| && IsDash(text[k])
      ensures DashFlanked(text, k)
    {
      assert text[k] == '-';
    }
    ReclassifyFlanked(text);
  }

  /** r starts as c does, except that a space of c may have become a comma. */
  predicate Extends(c: string, r: string) {
    |c| <= |r| && forall k :: 0 <= k < |c| ==> r[k] == c[k] || (c[k] == ' ' && r[k] == ',')
  }

  lemma ExtendsAt(c: string, r: string, k: nat)
    requires Extends(c, r) && k < |c|
    ensures k < |r|
    ensures c[k] != ' ' ==> r[k] == c[k]
    ensures c[k] == ' ' ==> r[k] == ' ' || r[k] == ','
  {
  }

  /** A step of the loop only appends, or overwrites a trailing space with a comma. */
  lemma DashStepExtends(text: string, i: nat, c: string)
    requires i < |text|
    ensures Extends(c, DashStep(text, i, c))
  {
    var r := DashStep(text, i, c);
    if IsDash(text[i]) && |c| > 0 && c[|c| - 1] == ' ' {
      forall k | 0 <= k < |c|
        ensures r[k] == c[k] || (c[k] == ' ' && r[k] == ',')
      {
        if k < |c| - 1 {
          assert r[k] == c[|c| - 1 := ','][k];
        }
      }
    }
  }

  lemma {:induction false} ReclassifyExtends(text: string, n: nat, m: nat)
    requires n <= m <= |text|
    ensures Extends(ReclassifyPrefix(text, n), ReclassifyPrefix(text, m))
    decreases m
  {
    if n < m {
      ReclassifyExtends(text, n, m - 1);
      DashStepExtends(text, m - 1, ReclassifyPrefix(text, m - 1));
    }
  }

  /** Where the comma of a pause lands, given the characters written before the dash. */
  function PauseIndex(c: string): nat {
    if c != [] && (c[|c| - 1] == ' ' || c[|c| - 1] == ',') then |c| - 1 else |c|
  }

  /**
   * One step on a dash: a hyphen exactly when the dash is flanked by
   * alphanumerics; otherwise a comma at PauseIndex and at most a space after
   * it, or nothing new at all when a comma and then a space surround the dash.
   */
  lemma DashStepExactly(text: string, i: nat, c: string)
    requires i < |text| && IsDash(text[i])
    ensures DashFlanked(text, i) ==> DashStep(text, i, c) == c + ['-']
    ensures !DashFlanked(text, i) ==>
      var r := DashStep(text, i, c);
      && PauseIndex(c) < |r| && r[PauseIndex(c)] == ','
      && (|c| < |r| ==> r[|c|] == ',' || r[|c|] == ' ')
      && (|c| == |r| ==> i + 1 == |text| || text[i + 1] == ' ')
  {
  }

  /**
   * Pass 3 on a dash at i, read in the finished text: the character written
   * for it is '-' exactly when it stands between two alphanumerics, and a
   * pause leaves a ',' at PauseIndex of the characters written before it.
   */
  lemma ReclassifyDashAt(text: string, i: nat)
    requires i < |text| && IsDash(text[i])
    ensures var c, out := ReclassifyPrefix(text, i), Reclassified(text);
      && (DashFlanked(text, i) <==> |c| < |out| && out[|c|] == '-')
      && (!DashFlanked(text, i) ==> PauseIndex(c) < |out| && out[PauseIndex(c)] == ',')
  {
    var c := ReclassifyPrefix(text, i);
    var c1 := ReclassifyPrefix(text, i + 1);
    assert c1 == DashStep(text, i, c);
    ReclassifyExtends(text, i + 1, |text|);
    DashStepExactly(text, i, c);
    if |c1| == |c| {
      if i + 1 < |text| {
        MergedPauseNext(text, i, c1);
      } else {
        assert Reclassified(text) == c1;
      }
    }
    DashPlacement(text, i, c, Reclassified(text));
  }

  /** The characters written for the dash at i, read in any text that extends them. */
  lemma DashPlacement(text: string, i: nat, c: string, out: string)
    requires i < |text| && IsDash(text[i])
    requires Extends(DashStep(text, i, c), out)
    requires |DashStep(text, i, c)| == |c| && |c| < |out| ==> out[|c|] != '-'
    ensures DashFlanked(text, i) <==> |c| < |out| && out[|c|] == '-'
    ensures !DashFlanked(text, i) ==> PauseIndex(c) < |out| && out[PauseIndex(c)] == ','
  {
    var c1 := DashStep(text, i, c);
    DashStepExactly(text, i, c);
    if DashFlanked(text, i) {
      ExtendsAt(c1, out, |c|);
    } else {
      ExtendsAt(c1, out, PauseIndex(c));
      if |c| < |c1| {
        ExtendsAt(c1, out, |c|);
      }
    }
  }

  /** After a pause merged into a comma, the space that follows the dash is copied and never becomes a hyphen. */
  lemma MergedPauseNext(text: string, i: nat, c1: string)
    requires i + 1 < |text| && text[i + 1] == ' ' && c1 == ReclassifyPrefix(text, i + 1)
    ensures |c1| < |Reclassified(text)| && Reclassified(text)[|c1|] != '-'
  {
    var c2 := ReclassifyPrefix(text, i + 2);
    assert c2 == DashStep(text, i + 1, c1);
    assert c2 == c1 + [' '];
    ReclassifyExtends(text, i + 2, |text|);
    ExtendsAt(c2, Reclassified(text), |c1|);
  }

  /** Pass 3 copies a character that is no dash; only a space may later become a pause's comma. */
  lemma ReclassifyCharAt(text: string, i: nat)
    requires i < |text| && !IsDash(text[i])
    ensures var c, out := ReclassifyPrefix(text, i), Reclassified(text);
      |c| < |out| && (out[|c|] == text[i] || (text[i] == ' ' && out[|c|] == ','))
  {
    ReclassifyExtends(text, i + 1, |text|);
  }

  // ---------- pass 4 on text it leaves alone ----------

  /** Text that pass 4 leaves as it is: stripped, single-spaced, no whitespace before a comma and one space after each. */
  predicate Tidy(s: string) {
    && Trimmed(s) && SingleSpaced(s)
    && (forall k :: 0 <= k < |s| && s[k] == ',' ==> k + 1 < |s| && s[k + 1] == ' ')
    && (forall k :: 0 <= k < |s| && IsSpace(s[k]) ==> k + 1 < |s| && s[k + 1] != ',')
  }

  lemma {:induction false} DropKeeps(s: string)
    requires forall k :: 0 < k < |s| && s[k] == ',' ==> !IsSpace(s[k - 1])
    ensures DropSpaceBeforeComma(s) == s
    decreases |s|
  {
    if s != [] {
      var t := s[1..];
      assert forall k :: 0 <= k < |t| ==> t[k] == s[k + 1];
      DropKeeps(t);
      if IsSpace(s[0]) {
        var e := SpaceRunEnd(s, 0);
        assert 1 <= e && IsSpace(s[e - 1]);
        assert !RunEndsInComma(s);
      }
      assert s == [s[0]] + t;
    }
  }

  lemma {:induction false} SpaceAfterCommaKeeps(s: string, afterComma: bool)
    requires forall k :: 0 <= k < |s| && s[k] == ',' ==> k + 1 < |s| && s[k + 1] == ' ' && (k + 2 < |s| ==> !IsSpace(s[k + 2]))
    requires afterComma ==> s == [] || !IsSpace(s[0])
    ensures SpaceAfterComma(s, afterComma) == s
    decreases |s|
  {
    if s != [] {
      if s[0] == ',' {
        var u, t := s[1..], s[2..];
        assert forall k :: 0 <= k < |t| ==> t[k] == s[k + 2];
        SpaceAfterCommaKeeps(t, true);
        assert u[0] == ' ' && u[1..] == t;
        assert SpaceAfterComma(u, true) == SpaceAfterComma(t, true);
        assert SpaceAfterComma(s, afterComma) == ", " + SpaceAfterComma(u, true);
        assert s == ", " + t;
      } else {
        var t := s[1..];
        assert forall k :: 0 <= k < |t| ==> t[k] == s[k + 1];
        SpaceAfterCommaKeeps(t, false);
        assert s == [s[0]] + t;
      }
    }
  }

  lemma {:induction false} CollapseKeeps(s: string, inRun: bool)
    requires SingleSpaced(s)
    requires inRun ==> s == [] || !IsSpace(s[0])
    ensures CollapseRuns(s, inRun) == s
    decreases |s|
  {
    if s != [] {
      var t := s[1..];
      assert forall k :: 0 <= k < |t| ==> t[k] == s[k + 1];
      CollapseKeeps(t, IsSpace(s[0]));
      assert s == [s[0]] + t;
    }
  }

  /** Pass 4 changes nothing in tidy text. */
  lemma TidyFixed(s: string)
    requires Tidy(s)
    ensures TidySpaces(s) == s
  {
    forall k | 0 < k < |s| && s[k] == ','
      ensures !IsSpace(s[k - 1])
    {
      assert k - 1 + 1 == k;
    }
    DropKeeps(s);
    forall k | 0 <= k < |s| && s[k] == ',' && k + 2 < |s|
      ensures !IsSpace(s[k + 2])
    {
      assert IsSpace(s[k + 1]);
    }
    SpaceAfterCommaKeeps(s, false);
    CollapseKeeps(s, false);
    StripOfTrimmed(s);
  }

  /**
   * Pass 4 turns a whitespace run between two tidy texts into one space, as
   * long as no comma follows the run: neither comma rule touches it.
   */
  lemma TidyRun(a: string, ws: string, b: string)
    requires Tidy(a) && Tidy(b) && a != [] && b != [] && b[0] != ','
    requires ws != [] && AllSpace(ws)
    ensures TidySpaces(a + ws + b) == a + " " + b
  {
    var s := a + ws + b;
    TidyRunKept(a, ws, b);
    DropKeeps(s);
    SpaceAfterCommaKeeps(s, false);
    CollapseSpacesRun(a, ws, b);
    CollapseKeeps(a, false);
    CollapseKeeps(b, false);
    var r := a + " " + b;
    assert r[0] == a[0] && r[|r| - 1] == b[|b| - 1];
    StripOfTrimmed(r);
  }

  /** Where the commas of a + ws + b stand: inside a or inside b, never in the run. */
  lemma TidyRunCommaAt(a: string, ws: string, b: string, k: nat)
    requires AllSpace(ws) && k < |a + ws + b| && (a + ws + b)[k] == ','
    ensures k < |a| || |a| + |ws| <= k
  {
    var s := a + ws + b;
    assert forall m :: |a| <= m < |a| + |ws| ==> s[m] == ws[m - |a|];
  }

  /** On a + ws + b both comma rules of pass 4 already hold. */
  lemma TidyRunKept(a: string, ws: string, b: string)
    requires Tidy(a) && Tidy(b) && a != [] && b != [] && b[0] != ','
    requires ws != [] && AllSpace(ws)
    ensures var s := a + ws + b;
      forall k :: 0 < k < |s| && s[k] == ',' ==> !IsSpace(s[k - 1])
    ensures var s := a + ws + b;
      forall k :: 0 <= k < |s| && s[k] == ',' ==> k + 1 < |s| && s[k + 1] == ' ' && (k + 2 < |s| ==> !IsSpace(s[k + 2]))
  {
    var s := a + ws + b;
    var n := |a| + |ws|;
    forall k | 0 <= k < |s| && s[k] == ','
      ensures k > 0 ==> !IsSpace(s[k - 1])
      ensures k + 1 < |s| && s[k + 1] == ' ' && (k + 2 < |s| ==> !IsSpace(s[k + 2]))
    {
      TidyRunCommaAt(a, ws, b, k);
      if k < |a| {
        assert s[k] == a[k];
        assert k + 2 < |a| && a[k + 1] == ' ';
        assert !IsSpace(a[k + 2]);
        assert s[k + 1] == a[k + 1] && s[k + 2] == a[k + 2];
        assert k > 0 ==> s[k - 1] == a[k - 1];
      } else {
        var j := k - n;
        assert s[k] == b[j];
        assert j > 0;
        assert j + 2 < |b| && b[j + 1] == ' ';
        assert !IsSpace(b[j + 2]);
        assert s[k - 1] == b[j - 1] && s[k + 1] == b[j + 1];
        assert k + 2 < |s| ==> s[k + 2] == b[j + 2];
      }
    }
  }

  /** Two tidy texts joined by ", " are tidy. */
  lemma TidyJoin(a: string, b: string)
    requires Tidy(a) && Tidy(b) && a != [] && b != [] && b[0] != ','
    ensures Tidy(a + ", " + b)
  {
    var s := a + ", " + b;
    var n := |a|;
    assert s[n] == ',' && s[n + 1] == ' ';
    assert forall k :: 0 <= k < n ==> s[k] == a[k];
    assert forall k :: n + 2 <= k < |s| ==> s[k] == b[k - n - 2];
  }

  lemma LetterWordTidy(w: string)
    requires LetterWord(w)
    ensures Tidy(w)
  {
  }

  lemma PhraseTidy(s: string)
    requires Phrase(s)
    ensures Tidy(s)
  {
  }

  // ---------- all four passes ----------

  lemma LetterWordDashFree(w: string)
    requires LetterWord(w)
    ensures DashFree(w) && '\n' !in w
  {
  }

  lemma PhraseDashFree(s: string)
    requires Phrase(s)
    ensures DashFree(s) && '\n' !in s && Trimmed(s)
  {
  }

  /** Text that leaves pass 3 tidy is what normalize_for_tts returns. */
  lemma NormalizedFrom(s: string, t: string)
    requires Reclassified(RewriteDiscourse(RewriteAsides(s))) == t && Tidy(t)
    ensures Normalized(s) == t
  {
    TidyFixed(t);
  }

  /** Dash-free tidy text out of pass 2 is what normalize_for_tts returns. */
  lemma NormalizedAfterDiscourse(s: string, t: string)
    requires RewriteDiscourse(RewriteAsides(s)) == t && DashFree(t) && Tidy(t)
    ensures Normalized(s) == t
  {
    ReclassifyDashFree(t, |t|);
    assert t[..|t|] == t;
    NormalizedFrom(s, t);
  }

  /** Dash-free tidy text out of pass 1 is what normalize_for_tts returns. */
  lemma NormalizedAfterAsides(s: string, t: string)
    requires RewriteAsides(s) == t && DashFree(t) && Tidy(t)
    ensures Normalized(s) == t
  {
    DiscourseDashFree(t, false);
    NormalizedAfterDiscourse(s, t);
  }

  /** Pass 1 on "-aside words-right". */
  lemma AsideTail(d1: char, inner: string, d2: char, right: string)
    requires DashFree(right) && IsDash(d1) && IsDash(d2)
    requires DashFree(inner) && '\n' !in inner && Trimmed(inner) && ' ' in inner
    ensures RewriteAsides([d1] + inner + [d2] + right) == ", " + inner + ", " + right
  {
    StripOfTrimmed(inner);
    AsidesDashFree(right);
    AsideToCommas(d1, inner, d2, right);
  }

  /** Pass 1 after a dash-free prefix. */
  lemma AsideConcat(left: string, tail: string, out: string)
    requires DashFree(left) && RewriteAsides(tail) == out
    ensures RewriteAsides(left + tail) == left + out
  {
    AsidesDashFreePrefix(left, tail);
  }

  /** Pass 1 on "left-aside words-right". */
  lemma AsidesOfAside(left: string, d1: char, inner: string, d2: char, right: string)
    requires DashFree(left) && DashFree(right) && IsDash(d1) && IsDash(d2)
    requires DashFree(inner) && '\n' !in inner && Trimmed(inner) && ' ' in inner
    ensures RewriteAsides(left + [d1] + inner + [d2] + right) == left + ", " + inner + ", " + right
  {
    var tail := [d1] + inner + [d2] + right;
    var out := ", " + inner + ", " + right;
    AsideTail(d1, inner, d2, right);
    AsideConcat(left, tail, out);
    Regroup(left, [d1], inner, [d2], right);
    Regroup(left, ", ", inner, ", ", right);
  }

  /** Five pieces joined left to right are the first piece followed by the other four. */
  lemma Regroup<T>(a: seq<T>, b: seq<T>, c: seq<T>, d: seq<T>, e: seq<T>)
    ensures a + b + c + d + e == a + (b + c + d + e)
  {
  }

  /** "left, aside words, right" is dash-free and tidy. */
  lemma AsideResultTidy(left: string, inner: string, right: string)
    requires LetterWord(left) && LetterWord(right) && Phrase(inner)
    ensures DashFree(left + ", " + inner + ", " + right) && Tidy(left + ", " + inner + ", " + right)
  {
    LetterWordTidy(left);
    LetterWordTidy(right);
    PhraseTidy(inner);
    TidyJoin(left, inner);
    TidyJoin(left + ", " + inner, right);
    var t := left + ", " + inner + ", " + right;
    var n, m := |left|, |left| + 2 + |inner|;
    forall k | 0 <= k < |t|
      ensures !IsDash(t[k])
    {
      if k < n {
        assert t[k] == left[k];
      } else if n + 2 <= k < m {
        assert t[k] == inner[k - n - 2];
      } else if m + 2 <= k {
        assert t[k] == right[k - m - 2];
      }
    }
  }

  /** "left-aside words-right" normalises to "left, aside words, right". */
  lemma NormalizedAside(left: string, d1: char, inner: string, d2: char, right: string)
    requires LetterWord(left) && LetterWord(right) && IsDash(d1) && IsDash(d2)
    requires Phrase(inner) && ' ' in inner
    ensures Normalized(left + [d1] + inner + [d2] + right) == left + ", " + inner + ", " + right
  {
    LetterWordDashFree(left);
    LetterWordDashFree(right);
    PhraseDashFree(inner);
    AsidesOfAside(left, d1, inner, d2, right);
    AsideResultTidy(left, inner, right);
    NormalizedAfterAsides(left + [d1] + inner + [d2] + right, left + ", " + inner + ", " + right);
  }

  /** Pass 1 leaves "left-right" alone: its one dash opens no aside. */
  lemma AsidesOfWordDash(left: string, d: char, right: string)
    requires LetterWord(left) && LetterWord(right) && IsDash(d)
    ensures RewriteAsides(left + [d] + right) == left + [d] + right
  {
    LetterWordDashFree(left);
    LetterWordDashFree(right);
    assert left + [d] + right == left + ([d] + right);
    AsidesDashFreePrefix(left, [d] + right);
    LoneDashKept(d, right);
  }

  /** "left, right" is dash-free and tidy. */
  lemma MarkerResultTidy(left: string, right: string)
    requires LetterWord(left) && LetterWord(right)
    ensures DashFree(left + ", " + right) && Tidy(left + ", " + right)
  {
    LetterWordTidy(left);
    LetterWordTidy(right);
    TidyJoin(left, right);
    var t := left + ", " + right;
    var n := |left|;
    forall k | 0 <= k < |t|
      ensures !IsDash(t[k])
    {
      if k < n {
        assert t[k] == left[k];
      } else if n + 2 <= k {
        assert t[k] == right[k - n - 2];
      }
    }
  }

  /** "Word-Marker", with Marker a discourse marker, normalises to "Word, Marker". */
  lemma NormalizedMarker(left: string, d: char, right: string)
    requires LetterWord(left) && LetterWord(right) && IsDash(d)
    requires LowerStr(right) in Discourse
    ensures Normalized(left + [d] + right) == left + ", " + right
  {
    var s := left + [d] + right;
    AsidesOfWordDash(left, d, right);
    MarkerRewrite(left, d, right, []);
    assert s + [] == s;
    assert left + ", " + right + [] == left + ", " + right;
    MarkerResultTidy(left, right);
    NormalizedAfterDiscourse(s, left + ", " + right);
  }

  /** Pass 3 turns the one dash of "left-right" into a hyphen. */
  lemma ReclassifyOfWordDash(left: string, d: char, right: string)
    requires LetterWord(left) && LetterWord(right) && IsDash(d)
    ensures Reclassified(left + [d] + right) == left + "-" + right
  {
    var s := left + [d] + right;
    var n := |left|;
    forall k | 0 <= k < |s| && k != n
      ensures IsLetter(s[k])
    {
      if k < n {
        assert s[k] == left[k];
      } else {
        assert s[k] == right[k - n - 1];
      }
    }
    ReclassifyFlanked(s);
    var h := left + "-" + right;
    forall k | 0 <= k < |s|
      ensures Hyphenated(s)[k] == h[k]
    {
      if k < n {
        assert s[k] == left[k] && h[k] == left[k];
      } else if k > n {
        assert s[k] == right[k - n - 1] && h[k] == right[k - n - 1];
      }
    }
  }

  /** "left-right" with a plain hyphen is tidy. */
  lemma CompoundTidy(left: string, right: string)
    requires LetterWord(left) && LetterWord(right)
    ensures Tidy(left + "-" + right)
  {
    var h := left + "-" + right;
    var n := |left|;
    forall k | 0 <= k < |h|
      ensures !IsSpace(h[k]) && h[k] != ','
    {
      if k < n {
        assert h[k] == left[k];
      } else if k > n {
        assert h[k] == right[k - n - 1];
      }
    }
  }

  /** "Word-Other", with Other no discourse marker, normalises to the compound "Word-Other" with a plain hyphen. */
  lemma NormalizedCompound(left: string, d: char, right: string)
    requires LetterWord(left) && LetterWord(right) && IsDash(d)
    requires LowerStr(right) !in Discourse
    ensures Normalized(left + [d] + right) == left + "-" + right
  {
    var s := left + [d] + right;
    AsidesOfWordDash(left, d, right);
    CompoundRewrite(left, d, right, []);
    assert s + [] == s;
    ReclassifyOfWordDash(left, d, right);
    CompoundTidy(left, right);
    NormalizedFrom(s, left + "-" + right);
  }

  // ---------- the docstring's examples ----------

  /** A letter word after a phrase and a space extends the phrase. */
  lemma PhraseJoin(a: string, b: string)
    requires Phrase(a) && LetterWord(b)
    ensures Phrase(a + " " + b)
  {
    var s := a + " " + b;
    var n := |a|;
    forall k | 0 <= k < |s|
      ensures IsLetter(s[k]) || s[k] == ' '
      ensures IsSpace(s[k]) ==> s[k] == ' ' && (k + 1 < |s| ==> !IsSpace(s[k + 1]))
    {
      if k < n {
        assert s[k] == a[k];
        if k + 1 < n {
          assert s[k + 1] == a[k + 1];
        }
      } else if k > n {
        assert s[k] == b[k - n - 1];
        if k + 1 < |s| {
          assert s[k + 1] == b[k - n];
        }
      }
    }
  }

  lemma AsideDocWords()
    ensures "though" + " " + "possibly" + " " + "inaccurately" == "though possibly inaccurately"
  {
  }

  lemma WordPhrase(w: string)
    requires LetterWord(w)
    ensures Phrase(w)
  {
  }

  lemma AsideDocLetters()
    ensures LetterWord("though") && LetterWord("possibly") && LetterWord("inaccurately")
  {
  }

  lemma AsideDocPhrase()
    ensures Phrase("though possibly inaccurately") && ' ' in "though possibly inaccurately"
  {
    AsideDocLetters();
    WordPhrase("though");
    PhraseJoin("though", "possibly");
    PhraseJoin("though" + " " + "possibly", "inaccurately");
    AsideDocWords();
    AsideDocSpace();
  }

  lemma AsideDocSpace()
    ensures ' ' in "though possibly inaccurately"
  {
    assert "though possibly inaccurately"[6] == ' ';
  }

  lemma AsideDocEnds()
    ensures LetterWord("associated") && LetterWord("with")
  {
  }

  lemma AsideDocInput()
    ensures "associated" + ['-'] + "though possibly inaccurately" + ['-'] + "with" == "associated-though possibly inaccurately-with"
  {
  }

  lemma AsideDocOutput()
    ensures "associated" + ", " + "though possibly inaccurately" + ", " + "with" == "associated, though possibly inaccurately, with"
  {
  }

  /** "associated-though possibly inaccurately-with" becomes "associated, though possibly inaccurately, with". */
  lemma AsideDocExample()
    ensures Normalized("associated-though possibly inaccurately-with") == "associated, though possibly inaccurately, with"
  {
    AsideDocPhrase();
    AsideDocEnds();
    NormalizedAside("associated", '-', "though possibly inaccurately", '-', "with");
    AsideDocInput();
    AsideDocOutput();
  }

  lemma MarkerDocWords()
    ensures LetterWord("Asia") && LetterWord("particularly")
    ensures LowerStr("particularly") in Discourse
    ensures "Asia" + ['-'] + "particularly" == "Asia-particularly"
    ensures "Asia" + ", " + "particularly" == "Asia, particularly"
  {
    assert LowerStr("particularly") == "particularly";
  }

  /** "Asia-particularly" becomes "Asia, particularly". */
  lemma MarkerDocExample()
    ensures Normalized("Asia-particularly") == "Asia, particularly"
  {
    MarkerDocWords();
    NormalizedMarker("Asia", '-', "particularly");
  }

  /** Two lower-case words, the right one no marker. */
  predicate LowerPair(left: string, right: string) {
    && left != [] && right != [] && right !in Discourse
    && (forall k :: 0 <= k < |left| ==> 'a' <= left[k] <= 'z')
    && (forall k :: 0 <= k < |right| ==> 'a' <= right[k] <= 'z')
  }

  /** A hyphenated pair of lower-case words is kept when the right word is no marker. */
  lemma HyphenCompoundKept(left: string, right: string)
    requires LowerPair(left, right)
    ensures Normalized(left + "-" + right) == left + "-" + right
  {
    assert LowerStr(right) == right;
    NormalizedCompound(left, '-', right);
    assert left + ['-'] + right == left + "-" + right;
  }

  /** The two compounds of the docstring are lower-case pairs. */
  lemma CompoundDocWords()
    ensures LowerPair("sweet", "tart") && "sweet" + "-" + "tart" == "sweet-tart"
    ensures LowerPair("cross", "pollination") && "cross" + "-" + "pollination" == "cross-pollination"
  {
  }

  /** "sweet-tart" and "cross-pollination" are kept as compounds. */
  lemma CompoundDocExamples()
    ensures Normalized("sweet-tart") == "sweet-tart"
    ensures Normalized("cross-pollination") == "cross-pollination"
  {
    CompoundDocWords();
    HyphenCompoundKept("sweet", "tart");
    HyphenCompoundKept("cross", "pollination");
  }

  // ---------- a space can be left before a comma ----------

  /** Pass 3 on "x -- y": each dash is a pause, the second turns the space the first added into a comma. */
  lemma DoublePauseReclassified()
    ensures Reclassified("x -- y") == "x,,  y"
  {
    var t := "x -- y";
    assert ReclassifyPrefix(t, 1) == "x";
    assert ReclassifyPrefix(t, 2) == "x ";
    assert ReclassifyPrefix(t, 3) == "x, ";
    assert ReclassifyPrefix(t, 4) == "x,, ";
    assert ReclassifyPrefix(t, 5) == "x,,  ";
    assert ReclassifyPrefix(t, 6) == "x,,  y";
  }

  /** Pass 4 on "x,,  y": each comma gets one space after it, so a space ends up before the second comma. */
  lemma DoublePauseTidied()
    ensures TidySpaces("x,,  y") == "x, , y"
  {
    DoublePauseDropped();
    DoublePauseSpaced();
    DoublePauseCollapsed();
    StripOfTrimmed("x, , y");
  }

  lemma DoublePauseDropped()
    ensures DropSpaceBeforeComma("x,,  y") == "x,,  y"
  {
    var s := "x,,  y";
    assert s[1..] == ",,  y" && s[2..] == ",  y" && s[3..] == "  y" && s[4..] == " y" && s[5..] == "y";
    assert SpaceRunEnd(s[3..], 0) == 2 by {
      assert IsSpace(s[3..][0]) && IsSpace(s[3..][1]) && !IsSpace(s[3..][2]);
    }
    assert SpaceRunEnd(s[4..], 0) == 1 by {
      assert IsSpace(s[4..][0]) && !IsSpace(s[4..][1]);
    }
    assert DropSpaceBeforeComma("y") == "y";
  }

  lemma DoublePauseSpaced()
    ensures SpaceAfterComma("x,,  y", false) == "x, , y"
  {
    var s := "x,,  y";
    assert s[1..] == ",,  y" && s[2..] == ",  y" && s[3..] == "  y" && s[4..] == " y" && s[5..] == "y";
    assert SpaceAfterComma("y", true) == "y";
  }

  lemma DoublePauseCollapsed()
    ensures CollapseSpaces("x, , y") == "x, , y"
  {
    var c := "x, , y";
    assert c[1..] == ", , y" && c[2..] == " , y" && c[3..] == ", y" && c[4..] == " y" && c[5..] == "y";
    assert CollapseRuns("y", true) == "y";
  }

  /** Pass 1 leaves "x -- y" alone: the two dashes enclose no words. */
  lemma DoublePauseAsides()
    ensures RewriteAsides("x -- y") == "x -- y"
  {
    DoublePauseParts();
    AsidesDashFreePrefix("x ", "-- y");
    OneWordAsideKept('-', "", '-', " y");
    AsidesDashFree(" y");
  }

  lemma DoublePauseParts()
    ensures DashFree("x ") && DashFree(" y") && "x " + "-- y" == "x -- y"
    ensures "-- y" == ['-'] + "" + ['-'] + " y"
  {
  }

  /** Pass 2 leaves "x -- y" alone: no dash has a letter on both sides. */
  lemma DoublePauseDiscourse()
    ensures RewriteDiscourse("x -- y") == "x -- y"
  {
    var t := "x -- y";
    assert t[1..] == " -- y" && t[2..] == "-- y" && t[3..] == "- y" && t[4..] == " y" && t[5..] == "y";
    assert WordDashAt("y").None? by {
      assert LetterRunEnd("y", 0) == 1;
    }
    assert RewriteDiscourseFrom("y", false) == "y";
    assert RewriteDiscourseFrom(" y", false) == " y";
    assert WordDashAt("- y").None?;
    assert RewriteDiscourseFrom("- y", false) == "- y";
    assert WordDashAt("-- y").None?;
    assert RewriteDiscourseFrom("-- y", false) == "-- y";
    assert RewriteDiscourseFrom(" -- y", true) == " -- y";
    assert WordDashAt(t).None? by {
      assert LetterRunEnd(t, 0) == 1;
    }
  }

  /**
   * Pass 4 does not promise "no space before a comma": two dashes between
   * spaces leave one, "x -- y" becoming "x, , y".
   */
  lemma DoublePauseNormalized()
    ensures Normalized("x -- y") == "x, , y"
  {
    DoublePauseAsides();
    DoublePauseDiscourse();
    DoublePauseReclassified();
    DoublePauseTidied();
  }
}
