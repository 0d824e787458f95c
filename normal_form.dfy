/**
 * What `normalize_for_tts` (chunk_tts.py:76-151) guarantees of its output:
 * no en or em dash is left, every hyphen stands between two alphanumerics,
 * the text is stripped and single-spaced (so it holds no newline), and its
 * words come through unchanged and in order.  On text without dashes the
 * first three passes change nothing.
 */
module NormalForm {
  import opened Text
  import opened Normalize

  // ---------- hyphens between alphanumerics ----------

  /** Every '-' has an alphanumeric character on each side. */
  predicate HyphensFlanked(s: string) {
    forall k :: 0 <= k < |s| && s[k] == '-' ==> 0 < k < |s| - 1 && IsAlnum(s[k - 1]) && IsAlnum(s[k + 1])
  }

  /** HyphensFlanked read left to right; `prevAlnum` says that the character before s is alphanumeric. */
  predicate FlankedFrom(s: string, prevAlnum: bool)
    decreases |s|
  {
    s == [] ||
    ((s[0] == '-' ==> prevAlnum && |s| > 1 && IsAlnum(s[1])) && FlankedFrom(s[1..], IsAlnum(s[0])))
  }

  lemma {:induction false} FlankedFromSpec(s: string, p: bool)
    ensures FlankedFrom(s, p) <==>
      && (s != [] && s[0] == '-' ==> p)
      && forall k :: 0 <= k < |s| && s[k] == '-' ==> k + 1 < |s| && IsAlnum(s[k + 1]) && (k > 0 ==> IsAlnum(s[k - 1]))
  {
    if s != [] {
      FlankedFromSpec(s[1..], IsAlnum(s[0]));
      var t := s[1..];
      assert forall k :: 0 < k < |s| ==> s[k] == t[k - 1];
      if FlankedFrom(s, p) {
        forall k | 0 <= k < |s| && s[k] == '-'
          ensures k + 1 < |s| && IsAlnum(s[k + 1]) && (k > 0 ==> IsAlnum(s[k - 1]))
        {
          if k > 0 {
            assert t[k - 1] == '-';
          }
        }
      } else if (s[0] == '-' ==> p && |s| > 1 && IsAlnum(s[1])) {
        if t != [] && t[0] == '-' && !IsAlnum(s[0]) {
          assert s[1] == '-';
        } else {
          var k' :| 0 <= k' < |t| && t[k'] == '-' && !(k' + 1 < |t| && IsAlnum(t[k' + 1]) && (k' > 0 ==> IsAlnum(t[k' - 1])));
          var k := k' + 1;
          assert s[k] == '-';
          assert k + 1 < |s| ==> s[k + 1] == t[k' + 1];
          assert k' > 0 ==> s[k - 1] == t[k' - 1];
        }
      }
    }
  }

  lemma FlankedFromHyphens(s: string)
    ensures FlankedFrom(s, false) <==> HyphensFlanked(s)
  {
    FlankedFromSpec(s, false);
  }

  /** What follows a non-alphanumeric character is also fine after any character. */
  lemma FlankedFromAfterAny(s: string, p: bool)
    requires FlankedFrom(s, false)
    ensures FlankedFrom(s, p)
  {
  }

  lemma {:induction false} DropFlanked(s: string, p: bool)
    requires FlankedFrom(s, p)
    ensures FlankedFrom(DropSpaceBeforeComma(s), p)
    decreases |s|
  {
    if s != [] {
      DropFlanked(s[1..], IsAlnum(s[0]));
      var rest := DropSpaceBeforeComma(s[1..]);
      if IsSpace(s[0]) && RunEndsInComma(s) {
        FlankedFromAfterAny(rest, p);
      } else {
        var out := [s[0]] + rest;
        assert out[1..] == rest;
        if s[0] == '-' {
          assert rest == [s[1]] + DropSpaceBeforeComma(s[2..]);
        }
      }
    }
  }

  lemma {:induction false} SpaceAfterCommaFlanked(s: string, afterComma: bool, p: bool)
    requires afterComma ==> !p
    requires FlankedFrom(s, p)
    ensures FlankedFrom(SpaceAfterComma(s, afterComma), p)
    decreases |s|
  {
    if s != [] {
      if s[0] == ',' {
        SpaceAfterCommaFlanked(s[1..], true, false);
        var rest := SpaceAfterComma(s[1..], true);
        var out := ", " + rest;
        assert out[1..] == [' '] + rest && ([' '] + rest)[1..] == rest;
      } else if afterComma && IsSpace(s[0]) {
        SpaceAfterCommaFlanked(s[1..], true, false);
      } else {
        SpaceAfterCommaFlanked(s[1..], false, IsAlnum(s[0]));
        var rest := SpaceAfterComma(s[1..], false);
        var out := [s[0]] + rest;
        assert out[1..] == rest;
        if s[0] == '-' {
          assert rest == [s[1]] + SpaceAfterComma(s[2..], false);
        }
      }
    }
  }

  lemma {:induction false} CollapseFlanked(s: string, inRun: bool, p: bool)
    requires inRun ==> !p
    requires FlankedFrom(s, p)
    ensures FlankedFrom(CollapseRuns(s, inRun), p)
    decreases |s|
  {
    if s != [] {
      if IsSpace(s[0]) {
        CollapseFlanked(s[1..], true, false);
        var rest := CollapseRuns(s[1..], true);
        if !inRun {
          assert ([' '] + rest)[1..] == rest;
        } else {
          assert [] + rest == rest;
        }
      } else {
        CollapseFlanked(s[1..], false, IsAlnum(s[0]));
        var rest := CollapseRuns(s[1..], false);
        var out := [s[0]] + rest;
        assert out[1..] == rest;
        if s[0] == '-' {
          assert rest == [s[1]] + CollapseRuns(s[2..], false);
        }
      }
    }
  }

  lemma StripFlanked(s: string)
    requires HyphensFlanked(s)
    ensures HyphensFlanked(Strip(s))
  {
    var i, j := StripSlice(s);
    var r := Strip(s);
    forall k | 0 <= k < |r| && r[k] == '-'
      ensures 0 < k < |r| - 1 && IsAlnum(r[k - 1]) && IsAlnum(r[k + 1])
    {
      assert r[k] == s[i + k];
      assert r[k - 1] == s[i + k - 1] && r[k + 1] == s[i + k + 1];
    }
  }

  // ---------- pass 4 only touches whitespace ----------

  lemma {:induction false} DropNonSpace(s: string)
    ensures NonSpace(DropSpaceBeforeComma(s)) == NonSpace(s)
    decreases |s|
  {
    if s != [] {
      DropNonSpace(s[1..]);
      var rest := DropSpaceBeforeComma(s[1..]);
      if !(IsSpace(s[0]) && RunEndsInComma(s)) {
        assert ([s[0]] + rest)[0] == s[0] && ([s[0]] + rest)[1..] == rest;
      }
    }
  }

  lemma {:induction false} SpaceAfterCommaNonSpace(s: string, afterComma: bool)
    ensures NonSpace(SpaceAfterComma(s, afterComma)) == NonSpace(s)
    decreases |s|
  {
    if s != [] {
      if s[0] == ',' {
        SpaceAfterCommaNonSpace(s[1..], true);
        var rest := SpaceAfterComma(s[1..], true);
        assert (", " + rest)[0] == ',' && (", " + rest)[1..] == [' '] + rest && ([' '] + rest)[1..] == rest;
      } else if afterComma && IsSpace(s[0]) {
        SpaceAfterCommaNonSpace(s[1..], true);
      } else {
        SpaceAfterCommaNonSpace(s[1..], false);
        var rest := SpaceAfterComma(s[1..], false);
        assert ([s[0]] + rest)[0] == s[0] && ([s[0]] + rest)[1..] == rest;
      }
    }
  }

  /** Every comma is followed by a space. */
  predicate CommaSpaced(s: string) {
    forall k :: 0 <= k < |s| && s[k] == ',' ==> k + 1 < |s| && s[k + 1] == ' '
  }

  /** `re.sub(r",\s*", ", ", ...)` puts a space after every comma. */
  lemma {:induction false} SpaceAfterCommaSpaced(s: string, afterComma: bool)
    ensures CommaSpaced(SpaceAfterComma(s, afterComma))
    decreases |s|
  {
    if s != [] {
      if s[0] == ',' {
        SpaceAfterCommaSpaced(s[1..], true);
        var rest := SpaceAfterComma(s[1..], true);
        var out := ", " + rest;
        forall k | 0 <= k < |out| && out[k] == ','
          ensures k + 1 < |out| && out[k + 1] == ' '
        {
          if k >= 2 {
            assert out[k] == rest[k - 2];
            assert out[k + 1] == rest[k - 1];
          }
        }
      } else if afterComma && IsSpace(s[0]) {
        SpaceAfterCommaSpaced(s[1..], true);
      } else {
        SpaceAfterCommaSpaced(s[1..], false);
        var rest := SpaceAfterComma(s[1..], false);
        var out := [s[0]] + rest;
        forall k | 0 <= k < |out| && out[k] == ','
          ensures k + 1 < |out| && out[k + 1] == ' '
        {
          if k >= 1 {
            assert out[k] == rest[k - 1];
            assert out[k + 1] == rest[k];
          }
        }
      }
    }
  }

  /** Collapsing whitespace keeps a space after every comma. */
  lemma {:induction false} CollapseCommaSpaced(s: string, inRun: bool)
    requires CommaSpaced(s)
    ensures CommaSpaced(CollapseRuns(s, inRun))
    decreases |s|
  {
    if s != [] {
      var t := s[1..];
      assert forall k :: 0 <= k < |t| ==> t[k] == s[k + 1];
      CollapseCommaSpaced(t, IsSpace(s[0]));
      var rest := CollapseRuns(t, IsSpace(s[0]));
      var head: string := if IsSpace(s[0]) then (if inRun then [] else [' ']) else [s[0]];
      var out := head + rest;
      assert CollapseRuns(s, inRun) == out;
      if s[0] == ',' {
        assert t[0] == ' ';
        assert rest == [' '] + CollapseRuns(t[1..], true);
      }
      forall k | 0 <= k < |out| && out[k] == ','
        ensures k + 1 < |out| && out[k + 1] == ' '
      {
        if k >= |head| {
          assert out[k] == rest[k - |head|];
          assert k + 1 < |out| ==> out[k + 1] == rest[k + 1 - |head|];
        }
      }
    }
  }

  /** A slice of text with a space after every comma keeps that space wherever the slice goes on past the comma. */
  lemma StripCommaSpaced(s: string)
    requires CommaSpaced(s)
    ensures var r := Strip(s); forall k :: 0 <= k < |r| - 1 && r[k] == ',' ==> r[k + 1] == ' '
  {
    var i, j := StripSlice(s);
    var r := Strip(s);
    forall k | 0 <= k < |r| - 1 && r[k] == ','
      ensures r[k + 1] == ' '
    {
      assert r[k] == s[i + k] && r[k + 1] == s[i + k + 1];
    }
  }

  /**
   * Pass 4 leaves a stripped, single-spaced text with the same characters
   * apart from whitespace, in which a space follows every comma but a last
   * one, and keeps every hyphen between alphanumerics.
   */
  lemma TidySpacesShape(s: string)
    ensures Trimmed(TidySpaces(s))
    ensures SingleSpaced(TidySpaces(s))
    ensures NonSpace(TidySpaces(s)) == NonSpace(s)
    ensures HyphensFlanked(s) ==> HyphensFlanked(TidySpaces(s))
    ensures var r := TidySpaces(s); forall k :: 0 <= k < |r| - 1 && r[k] == ',' ==> r[k + 1] == ' '
  {
    var a := DropSpaceBeforeComma(s);
    var b := SpaceAfterComma(a, false);
    var c := CollapseSpaces(b);
    SpaceAfterCommaSpaced(a, false);
    CollapseCommaSpaced(b, false);
    StripCommaSpaced(c);
    DropNonSpace(s);
    SpaceAfterCommaNonSpace(a, false);
    CollapseSpacesShape(b);
    NonSpaceStrip(c);
    SingleSpacedStrip(c);
    if HyphensFlanked(s) {
      FlankedFromHyphens(s);
      DropFlanked(s, false);
      SpaceAfterCommaFlanked(a, false, false);
      CollapseFlanked(b, false, false);
      FlankedFromHyphens(c);
      StripFlanked(c);
    }
  }

  // ---------- pass 3 ----------

  /**
   * The `chars` list after n characters: no en or em dash, every '-' follows
   * an alphanumeric and precedes one (the last '-' precedes text[n], which is
   * alphanumeric), and a non-dash character was appended as it is.
   */
  predicate PassThreeInvariant(text: string, n: nat, c: string)
    requires n <= |text|
  {
    && (forall k :: 0 <= k < |c| ==> c[k] != EnDash && c[k] != EmDash)
    && (forall k :: 0 <= k < |c| && c[k] == '-' ==>
          0 < k && IsAlnum(c[k - 1])
          && (k + 1 < |c| ==> IsAlnum(c[k + 1]))
          && (k + 1 == |c| ==> n < |text| && IsAlnum(text[n])))
    && (n > 0 && !IsDash(text[n - 1]) ==> c != [] && c[|c| - 1] == text[n - 1])
  }

  /** One step of the loop keeps the invariant; `c0` stays abstract so the prefix is not unfolded. */
  lemma DashStepInvariant(text: string, i: nat, c0: string)
    requires i < |text| && PassThreeInvariant(text, i, c0)
    ensures PassThreeInvariant(text, i + 1, DashStep(text, i, c0))
  {
    var n := i + 1;
    var c := DashStep(text, i, c0);
    var ch := text[i];
    var nxt := if i + 1 < |text| then text[i + 1] else ' ';
    if !IsDash(ch) {
      assert c == c0 + [ch];
      forall k | 0 <= k < |c| && c[k] == '-'
        ensures 0 < k && IsAlnum(c[k - 1])
        ensures k + 1 < |c| ==> IsAlnum(c[k + 1])
        ensures k + 1 == |c| ==> n < |text| && IsAlnum(text[n])
      {
        assert k < |c0| && c0[k] == '-';
        assert 0 < k && c[k - 1] == c0[k - 1];
        if k + 1 < |c0| {
          assert c[k + 1] == c0[k + 1];
        }
      }
    } else if i > 0 && IsAlnum(text[i - 1]) && IsAlnum(nxt) {
      assert c == c0 + ['-'];
      assert c0 != [] && c0[|c0| - 1] == text[i - 1];
    } else if |c0| > 0 && c0[|c0| - 1] == ' ' {
      var m := |c0| - 1;
      assert c == c0[m := ','] + [' '];
      forall k | 0 <= k < |c| && c[k] == '-'
        ensures 0 < k && IsAlnum(c[k - 1])
        ensures k + 1 < |c| ==> IsAlnum(c[k + 1])
        ensures k + 1 == |c| ==> n < |text| && IsAlnum(text[n])
      {
        assert k < m && c0[k] == '-';
        assert 0 < k && c[k - 1] == c0[k - 1];
        assert c0[k + 1] != ' ';
        assert c[k + 1] == c0[k + 1];
      }
    } else if |c0| > 0 && c0[|c0| - 1] == ',' {
      assert c == (if nxt != ' ' then c0 + [' '] else c0);
    } else {
      assert c == c0 + [',', ' '];
    }
  }

  lemma {:induction false} ReclassifyInvariant(text: string, n: nat)
    requires n <= |text|
    ensures PassThreeInvariant(text, n, ReclassifyPrefix(text, n))
  {
    if n > 0 {
      ReclassifyInvariant(text, n - 1);
      DashStepInvariant(text, n - 1, ReclassifyPrefix(text, n - 1));
    }
  }

  /** One step of the loop adds the skeleton of the character it reads. */
  lemma DashStepSkeleton(text: string, i: nat, c0: string)
    requires i < |text|
    ensures Skeleton(DashStep(text, i, c0)) == Skeleton(c0) + Skeleton([text[i]])
  {
    var ch := text[i];
    if !IsDash(ch) {
      SkeletonAppend(c0, [ch]);
    } else {
      SkeletonAppend(c0, ['-']);
      SkeletonAppend(c0, [',', ' ']);
      SkeletonAppend(c0, [' ']);
      if |c0| > 0 && c0[|c0| - 1] == ' ' {
        var m := |c0| - 1;
        assert c0 == c0[..m] + [' '];
        assert c0[m := ','] + [' '] == c0[..m] + [',', ' '];
        SkeletonAppend(c0[..m], [' ']);
        SkeletonAppend(c0[..m], [',', ' ']);
      }
    }
  }

  /** Pass 3 keeps the skeleton: it rewrites dashes into '-', ',' or ' ' and only ever overwrites a space. */
  lemma {:induction false} ReclassifySkeleton(text: string, n: nat)
    requires n <= |text|
    ensures Skeleton(ReclassifyPrefix(text, n)) == Skeleton(text[..n])
  {
    if n > 0 {
      ReclassifySkeleton(text, n - 1);
      assert text[..n] == text[..n - 1] + [text[n - 1]];
      SkeletonAppend(text[..n - 1], [text[n - 1]]);
      DashStepSkeleton(text, n - 1, ReclassifyPrefix(text, n - 1));
    }
  }

  lemma {:induction false} ReclassifyDashFree(text: string, n: nat)
    requires n <= |text| && DashFree(text)
    ensures ReclassifyPrefix(text, n) == text[..n]
  {
    if n > 0 {
      ReclassifyDashFree(text, n - 1);
      assert text[..n] == text[..n - 1] + [text[n - 1]];
    }
  }

  // ---------- passes 1 and 2 ----------

  lemma SkeletonStrip(s: string)
    ensures Skeleton(Strip(s)) == Skeleton(s)
  {
    NonSpaceStrip(s);
    SkeletonOfSameNonSpace(Strip(s), s);
  }

  /** Wrapping text in ", " ... ", " leaves its skeleton alone. */
  lemma CommaWrapSkeleton(x: string)
    ensures Skeleton(", " + x + ", ") == Skeleton(x)
  {
    SkeletonAppend(", " + x, ", ");
    SkeletonAppend(", ", x);
  }

  /** Dashes around text add nothing to its skeleton. */
  lemma DashWrapSkeleton(inner: string, whole: string)
    requires |whole| == |inner| + 2 && IsDash(whole[0]) && IsDash(whole[|whole| - 1])
    requires whole[1..|whole| - 1] == inner
    ensures Skeleton(whole) == Skeleton(inner)
  {
    var d := whole[|whole| - 1];
    assert whole == [whole[0]] + (inner + [d]);
    assert ([whole[0]] + (inner + [d]))[1..] == inner + [d];
    SkeletonAppend(inner, [d]);
    assert Skeleton([d]) == [] by { assert [d][1..] == []; }
  }

  /** An aside and its replacement have the same skeleton: the dashes become commas and spaces. */
  lemma AsideReplacementSkeleton(inner: string, whole: string)
    requires |whole| == |inner| + 2 && IsDash(whole[0]) && IsDash(whole[|whole| - 1])
    requires whole[1..|whole| - 1] == inner
    ensures Skeleton(AsideReplacement(inner, whole)) == Skeleton(whole)
  {
    DashWrapSkeleton(inner, whole);
    if ' ' in Strip(inner) {
      SkeletonStrip(inner);
      CommaWrapSkeleton(Strip(inner));
    }
  }

  /** One aside, then the rest of the text. */
  lemma AsideThenRest(s: string, j: nat, rest: string)
    requires 1 <= j < |s| && IsDash(s[0]) && IsDash(s[j])
    requires Skeleton(rest) == Skeleton(s[j + 1..])
    ensures Skeleton(AsideReplacement(s[1..j], s[..j + 1]) + rest) == Skeleton(s)
  {
    assert s == s[..j + 1] + s[j + 1..];
    SkeletonAppend(s[..j + 1], s[j + 1..]);
    SkeletonAppend(AsideReplacement(s[1..j], s[..j + 1]), rest);
    AsideReplacementSkeleton(s[1..j], s[..j + 1]);
  }

  lemma {:induction false} AsidesSkeleton(s: string)
    ensures Skeleton(RewriteAsides(s)) == Skeleton(s)
    decreases |s|
  {
    if s != [] {
      if IsDash(s[0]) && ClosingDash(s, 1).Some? {
        var j := ClosingDash(s, 1).value;
        AsidesSkeleton(s[j + 1..]);
        AsideThenRest(s, j, RewriteAsides(s[j + 1..]));
      } else {
        AsidesSkeleton(s[1..]);
        assert ([s[0]] + RewriteAsides(s[1..]))[1..] == RewriteAsides(s[1..]);
      }
    }
  }

  lemma {:induction false} AsidesDashFree(s: string)
    requires DashFree(s)
    ensures RewriteAsides(s) == s
    decreases |s|
  {
    if s != [] {
      assert DashFree(s[1..]);
      AsidesDashFree(s[1..]);
      assert s == [s[0]] + s[1..];
    }
  }

  lemma {:induction false} DiscourseSkeleton(s: string, prevWord: bool)
    ensures Skeleton(RewriteDiscourseFrom(s, prevWord)) == Skeleton(s)
    decreases |s|
  {
    if s != [] {
      if !prevWord && WordDashAt(s).Some? {
        var m := WordDashAt(s).value;
        DiscourseSkeleton(s[m.end..], true);
        DiscourseStepSkeleton(s, m, RewriteDiscourseFrom(s[m.end..], true));
      } else {
        DiscourseSkeleton(s[1..], IsWordChar(s[0]));
        assert ([s[0]] + RewriteDiscourseFrom(s[1..], IsWordChar(s[0])))[1..] == RewriteDiscourseFrom(s[1..], IsWordChar(s[0]));
      }
    }
  }

  /** Replacing a dash by ", " keeps the skeleton. */
  lemma DashToCommaSkeleton(left: string, d: char, right: string)
    requires IsDash(d)
    ensures Skeleton(left + ", " + right) == Skeleton(left) + Skeleton(right)
    ensures Skeleton(left + [d] + right) == Skeleton(left) + Skeleton(right)
  {
    SkeletonAppend(left + ", ", right);
    SkeletonAppend(left, ", ");
    SkeletonAppend(left + [d], right);
    SkeletonAppend(left, [d]);
  }

  /** A rewritten "Word-Marker" has the skeleton of the matched text, since only its dash became ", ". */
  lemma DiscourseReplacementSkeleton(s: string, m: WordDash)
    requires m.dash < m.end <= |s| && IsDash(s[m.dash])
    ensures Skeleton(DiscourseReplacement(s, m)) == Skeleton(s[..m.end])
  {
    var left, right := s[..m.dash], s[m.dash + 1..m.end];
    assert s[..m.end] == left + [s[m.dash]] + right;
    DashToCommaSkeleton(left, s[m.dash], right);
  }

  /** One match of pass 2 and what follows it. */
  lemma DiscourseStepSkeleton(s: string, m: WordDash, rest: string)
    requires m.dash < m.end <= |s| && IsDash(s[m.dash])
    requires Skeleton(rest) == Skeleton(s[m.end..])
    ensures Skeleton(DiscourseReplacement(s, m) + rest) == Skeleton(s)
  {
    assert s == s[..m.end] + s[m.end..];
    SkeletonAppend(s[..m.end], s[m.end..]);
    SkeletonAppend(DiscourseReplacement(s, m), rest);
    DiscourseReplacementSkeleton(s, m);
  }

  lemma {:induction false} DiscourseDashFree(s: string, prevWord: bool)
    requires DashFree(s)
    ensures RewriteDiscourseFrom(s, prevWord) == s
    decreases |s|
  {
    if s != [] {
      assert DashFree(s[1..]);
      DiscourseDashFree(s[1..], IsWordChar(s[0]));
      assert s == [s[0]] + s[1..];
    }
  }

  // ---------- the whole normaliser ----------

  /**
   * The output of normalize_for_tts: no en or em dash, every hyphen between
   * two alphanumerics, no whitespace at either end, no two whitespace
   * characters in a row and no newline, and the words and the punctuation
   * other than dashes and commas of the input, in order.
   */
  lemma NormalizedShape(text: string)
    ensures var r := Normalized(text);
      && EnDash !in r && EmDash !in r
      && HyphensFlanked(r)
      && Trimmed(r) && SingleSpaced(r) && '\n' !in r
      && Skeleton(r) == Skeleton(text)
  {
    var t1 := RewriteAsides(text);
    var t2 := RewriteDiscourse(t1);
    var t3 := Reclassified(t2);
    var r := Normalized(text);
    ReclassifyInvariant(t2, |t2|);
    assert HyphensFlanked(t3);
    TidySpacesShape(t3);
    SingleSpacedNoNewline(r);
    NonSpaceMembers(r, EnDash);
    NonSpaceMembers(t3, EnDash);
    NonSpaceMembers(r, EmDash);
    NonSpaceMembers(t3, EmDash);
    SkeletonOfSameNonSpace(r, t3);
    ReclassifySkeleton(t2, |t2|);
    assert t2[..|t2|] == t2;
    DiscourseSkeleton(t1, false);
    AsidesSkeleton(text);
  }

  /** Without dashes, normalisation is only the whitespace and comma clean-up. */
  lemma NormalizedDashFree(text: string)
    requires DashFree(text)
    ensures Normalized(text) == TidySpaces(text)
  {
    AsidesDashFree(text);
    DiscourseDashFree(text, false);
    ReclassifyDashFree(text, |text|);
    assert text[..|text|] == text;
  }

  // ---------- the passes on small inputs ----------

  /** A character that is no dash opens no aside and passes through pass 1. */
  lemma AsidesAfterNonDash(c: char, t: string)
    requires !IsDash(c)
    ensures RewriteAsides([c] + t) == [c] + RewriteAsides(t)
  {
    assert ([c] + t)[1..] == t;
  }

  /**
   * Pass 1 pairs any two dashes on one line.  In "a-b c-d", the scan passes
   * "a" (AsidesAfterNonDash) and then reads "-b c-" as an aside, because its
   * inner part holds a space: neither hyphenated compound survives.
   */
  lemma AsidePairsCompounds(b: char, c: char, rest: string)
    requires IsLetter(b) && IsLetter(c)
    ensures RewriteAsides(['-', b, ' ', c, '-'] + rest) == [',', ' ', b, ' ', c, ',', ' '] + RewriteAsides(rest)
  {
    var t := ['-', b, ' ', c, '-'] + rest;
    assert ClosingDash(t, 1) == Some(4) by {
      assert !IsDash(t[1]) && t[1] != '\n';
      assert !IsDash(t[2]) && t[2] != '\n';
      assert !IsDash(t[3]) && t[3] != '\n';
      assert IsDash(t[4]);
    }
    assert AsideReplacement(t[1..4], t[..5]) == [',', ' ', b, ' ', c, ',', ' '] by {
      assert t[1..4] == [b, ' ', c];
      StripOfTrimmed([b, ' ', c]);
    }
    assert t[5..] == rest;
  }

  /** Pass 2: a dash between a word and a discourse marker becomes ", ". */
  lemma DiscourseMarkerExample()
    ensures RewriteDiscourse("Asia\U{2014}thus") == "Asia, thus"
  {
    var s := "Asia\U{2014}thus";
    assert LetterRunEnd(s, 0) == 4 by {
      assert IsLetter(s[0]) && IsLetter(s[1]) && IsLetter(s[2]) && IsLetter(s[3]) && !IsLetter(s[4]);
    }
    assert LetterRunEnd(s, 5) == 9 by {
      assert IsLetter(s[5]) && IsLetter(s[6]) && IsLetter(s[7]) && IsLetter(s[8]);
    }
    assert WordDashAt(s) == Some(WordDash(4, 9));
    assert s[5..9] == "thus";
    assert LowerStr("thus") == "thus";
    assert s[..4] == "Asia";
    assert s[9..] == [];
  }

  /** Pass 2 keeps a compound whose right-hand word is no discourse marker. */
  lemma CompoundKeptExample()
    ensures RewriteDiscourse("sweet-tart") == "sweet-tart"
  {
    var s := "sweet-tart";
    assert LetterRunEnd(s, 0) == 5 by {
      assert IsLetter(s[0]) && IsLetter(s[1]) && IsLetter(s[2]) && IsLetter(s[3]) && IsLetter(s[4]) && !IsLetter(s[5]);
    }
    assert LetterRunEnd(s, 6) == 10 by {
      assert IsLetter(s[6]) && IsLetter(s[7]) && IsLetter(s[8]) && IsLetter(s[9]);
    }
    assert WordDashAt(s) == Some(WordDash(5, 10));
    assert s[6..10] == "tart";
    assert LowerStr("tart") == "tart";
    assert "tart" !in Discourse;
    assert s[..10] == s;
    assert s[10..] == [];
  }

  /** Pass 3: a dash after a space overwrites that space with a comma and adds a space. */
  lemma PauseExample()
    ensures Reclassified("x - y") == "x,  y"
  {
    var t := "x - y";
    assert ReclassifyPrefix(t, 1) == "x";
    assert ReclassifyPrefix(t, 2) == "x ";
    assert IsDash(t[2]) && !IsAlnum(t[1]);
    assert ReclassifyPrefix(t, 3) == "x, ";
    assert ReclassifyPrefix(t, 4) == "x,  ";
    assert ReclassifyPrefix(t, 5) == "x,  y";
  }

  /** Pass 4: the whitespace after a comma becomes a single space. */
  lemma TidyExample()
    ensures TidySpaces("x,  y") == "x, y"
  {
    NoSpaceBeforeCommaExample();
    SpaceAfterCommaExample();
    CollapseExample();
    StripOfTrimmed("x, y");
  }

  lemma NoSpaceBeforeCommaExample()
    ensures DropSpaceBeforeComma("x,  y") == "x,  y"
  {
    var s := "x,  y";
    assert s[1..] == ",  y" && s[2..] == "  y" && s[3..] == " y" && s[4..] == "y";
    assert !IsSpace(s[0]) && !IsSpace(s[1]);
    assert SpaceRunEnd(s[2..], 0) == 2 by {
      assert IsSpace(s[2..][0]) && IsSpace(s[2..][1]) && !IsSpace(s[2..][2]);
    }
    assert SpaceRunEnd(s[3..], 0) == 1 by {
      assert IsSpace(s[3..][0]) && !IsSpace(s[3..][1]);
    }
    assert DropSpaceBeforeComma("y") == "y";
  }

  lemma SpaceAfterCommaExample()
    ensures SpaceAfterComma("x,  y", false) == "x, y"
  {
    var s := "x,  y";
    assert s[1..] == ",  y" && s[2..] == "  y" && s[3..] == " y" && s[4..] == "y";
    assert SpaceAfterComma("y", true) == "y";
  }

  lemma CollapseExample()
    ensures CollapseSpaces("x, y") == "x, y"
  {
    var c := "x, y";
    assert c[1..] == ", y" && c[2..] == " y" && c[3..] == "y";
    assert CollapseRuns("y", true) == "y";
  }
}
