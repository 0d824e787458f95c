/**
 * Character classes and whitespace handling shared by every stage of the chunker
 * (chunk_tts.py).  Python's `str.isspace`, `str.strip` and the `\s` class of `re`
 * all use one whitespace table, modelled exactly by IsSpace; letters, digits,
 * word characters and lower-casing are the ASCII ones.
 */
module Text {

  datatype Option<T> = None | Some(value: T)

  /** Python's str.isspace, which is also what `\s` matches in a str pattern. */
  predicate IsSpace(c: char) {
    ('\t' <= c <= '\r') || ('\U{1C}' <= c <= ' ') || c == '\U{85}' || c == '\U{A0}'
    || c == '\U{1680}' || ('\U{2000}' <= c <= '\U{200A}') || c == '\U{2028}' || c == '\U{2029}'
    || c == '\U{202F}' || c == '\U{205F}' || c == '\U{3000}'
  }

  predicate IsLetter(c: char) { 'A' <= c <= 'Z' || 'a' <= c <= 'z' }

  /** str.isalnum, restricted to ASCII letters and digits. */
  predicate IsAlnum(c: char) { IsLetter(c) || '0' <= c <= '9' }

  /** A character of `\w`, the class that `\b` looks at. */
  predicate IsWordChar(c: char) { IsAlnum(c) || c == '_' }

  const EnDash: char := '\U{2013}'
  const EmDash: char := '\U{2014}'

  /** The three dash-like characters of the class `[-–—]`. */
  predicate IsDash(c: char) { c == '-' || c == EnDash || c == EmDash }

  function Lower(c: char): char {
    if 'A' <= c <= 'Z' then (c as int + 32) as char else c
  }

  function LowerStr(s: string): string {
    seq(|s|, i requires 0 <= i < |s| => Lower(s[i]))
  }

  predicate AllSpace(s: string) {
    forall k :: 0 <= k < |s| ==> IsSpace(s[k])
  }

  /** No whitespace at either end: what str.strip leaves. */
  predicate Trimmed(s: string) {
    s == [] || (!IsSpace(s[0]) && !IsSpace(s[|s| - 1]))
  }

  /** The end of the whitespace run that starts at i. */
  function SpaceRunEnd(s: string, i: nat): (j: nat)
    requires i <= |s|
    ensures i <= j <= |s|
    ensures forall k :: i <= k < j ==> IsSpace(s[k])
    ensures j < |s| ==> !IsSpace(s[j])
    decreases |s| - i
  {
    if i < |s| && IsSpace(s[i]) then SpaceRunEnd(s, i + 1) else i
  }

  /** The start of the whitespace run that ends at j. */
  function SpaceRunStart(s: string, j: nat): (i: nat)
    requires j <= |s|
    ensures i <= j
    ensures forall k :: i <= k < j ==> IsSpace(s[k])
    ensures i > 0 ==> !IsSpace(s[i - 1])
  {
    if j > 0 && IsSpace(s[j - 1]) then SpaceRunStart(s, j - 1) else j
  }

  /** str.strip(): the slice between the leading and the trailing whitespace. */
  function Strip(s: string): (r: string)
    ensures Trimmed(r)
    ensures r == [] <==> AllSpace(s)
    ensures |r| <= |s|
  {
    var i := SpaceRunEnd(s, 0);
    if i == |s| then [] else s[i..SpaceRunStart(s, |s|)]
  }

  lemma StripSlice(s: string) returns (i: nat, j: nat)
    ensures i <= j <= |s| && Strip(s) == s[i..j]
    ensures AllSpace(s[..i]) && AllSpace(s[j..])
    ensures i > 0 ==> IsSpace(s[i - 1])
    ensures j < |s| ==> IsSpace(s[j])
  {
    i := SpaceRunEnd(s, 0);
    if i == |s| {
      j := |s|;
    } else {
      j := SpaceRunStart(s, |s|);
    }
  }

  lemma {:induction false} StripOfTrimmed(s: string)
    requires Trimmed(s)
    ensures Strip(s) == s
  {
    if s != [] {
      assert SpaceRunEnd(s, 0) == 0;
      assert SpaceRunStart(s, |s|) == |s|;
    }
  }

  /** The text with every whitespace character removed. */
  function NonSpace(s: string): string {
    if s == [] then []
    else if IsSpace(s[0]) then NonSpace(s[1..])
    else [s[0]] + NonSpace(s[1..])
  }

  lemma {:induction false} NonSpaceAppend(a: string, b: string)
    ensures NonSpace(a + b) == NonSpace(a) + NonSpace(b)
  {
    if a != [] {
      assert (a + b)[0] == a[0] && (a + b)[1..] == a[1..] + b;
      NonSpaceAppend(a[1..], b);
    } else {
      assert a + b == b;
    }
  }

  lemma {:induction false} NonSpaceAllSpace(s: string)
    requires AllSpace(s)
    ensures NonSpace(s) == []
  {
    if s != [] {
      NonSpaceAllSpace(s[1..]);
    }
  }

  lemma NonSpaceStrip(s: string)
    ensures NonSpace(Strip(s)) == NonSpace(s)
  {
    var i, j := StripSlice(s);
    NonSpaceSplit(s, i);
    NonSpaceSplit(s[i..], j - i);
    assert s[i..][..j - i] == s[i..j] && s[i..][j - i..] == s[j..];
    NonSpaceAllSpace(s[..i]);
    NonSpaceAllSpace(s[j..]);
  }

  lemma NonSpaceSplit(s: string, i: nat)
    requires i <= |s|
    ensures NonSpace(s) == NonSpace(s[..i]) + NonSpace(s[i..])
  {
    assert s == s[..i] + s[i..];
    NonSpaceAppend(s[..i], s[i..]);
  }

  lemma NonSpaceSlices(s: string, a: nat, b: nat, c: nat)
    requires a <= b <= c <= |s|
    ensures NonSpace(s[a..c]) == NonSpace(s[a..b]) + NonSpace(s[b..c])
  {
    assert s[a..c] == s[a..b] + s[b..c];
    NonSpaceAppend(s[a..b], s[b..c]);
  }

  /** Skipping whitespace loses no character that NonSpace keeps. */
  lemma NonSpaceSkip(s: string, a: nat, b: nat)
    requires a <= b <= |s|
    requires forall k :: a <= k < b ==> IsSpace(s[k])
    ensures NonSpace(s[a..]) == NonSpace(s[b..])
  {
    NonSpaceSlices(s, a, b, |s|);
    assert s[a..] == s[a..|s|] && s[b..] == s[b..|s|];
    NonSpaceAllSpace(s[a..b]);
  }

  lemma StripEnds(s: string)
    ensures s != [] && !IsSpace(s[0]) ==> Strip(s) != [] && Strip(s)[0] == s[0]
    ensures s != [] && !IsSpace(s[|s| - 1]) ==> Strip(s) != [] && Strip(s)[|Strip(s)| - 1] == s[|s| - 1]
  {
    var i, j := StripSlice(s);
    if s != [] && !IsSpace(s[0]) {
      assert !AllSpace(s);
    }
    if s != [] && !IsSpace(s[|s| - 1]) {
      assert !AllSpace(s);
    }
  }

  /** c survives NonSpace exactly when it is in s, for a character that is not whitespace. */
  lemma {:induction false} NonSpaceMembers(s: string, c: char)
    requires !IsSpace(c)
    ensures c in NonSpace(s) <==> c in s
  {
    if s != [] {
      NonSpaceMembers(s[1..], c);
      assert s == [s[0]] + s[1..];
    }
  }

  /** The text with every dash, comma and whitespace character removed: its words and other punctuation, in order. */
  function Skeleton(s: string): string {
    if s == [] then []
    else if IsDash(s[0]) || s[0] == ',' || IsSpace(s[0]) then Skeleton(s[1..])
    else [s[0]] + Skeleton(s[1..])
  }

  lemma {:induction false} SkeletonAppend(a: string, b: string)
    ensures Skeleton(a + b) == Skeleton(a) + Skeleton(b)
  {
    if a != [] {
      assert (a + b)[0] == a[0] && (a + b)[1..] == a[1..] + b;
      SkeletonAppend(a[1..], b);
    } else {
      assert a + b == b;
    }
  }

  /** Removing whitespace first does not change the skeleton. */
  lemma {:induction false} SkeletonOfNonSpace(s: string)
    ensures Skeleton(NonSpace(s)) == Skeleton(s)
  {
    if s != [] {
      SkeletonOfNonSpace(s[1..]);
      if !IsSpace(s[0]) {
        var t := [s[0]] + NonSpace(s[1..]);
        assert t[0] == s[0] && t[1..] == NonSpace(s[1..]);
      }
    }
  }

  /** Texts equal up to whitespace have the same skeleton. */
  lemma SkeletonOfSameNonSpace(a: string, b: string)
    requires NonSpace(a) == NonSpace(b)
    ensures Skeleton(a) == Skeleton(b)
  {
    SkeletonOfNonSpace(a);
    SkeletonOfNonSpace(b);
  }

  /** Appending a piece to what a loop has built, then the rest, is the built part followed by piece and rest. */
  lemma AppendAssoc<T>(a: seq<T>, b: seq<T>, c: seq<T>)
    ensures (a + b) + c == a + (b + c)
  {
  }

  /** "".join(ss) */
  function Concat(ss: seq<string>): string {
    if ss == [] then [] else ss[0] + Concat(ss[1..])
  }

  lemma {:induction false} ConcatAppend(a: seq<string>, b: seq<string>)
    ensures Concat(a + b) == Concat(a) + Concat(b)
  {
    if a != [] {
      assert (a + b)[0] == a[0] && (a + b)[1..] == a[1..] + b;
      ConcatAppend(a[1..], b);
    } else {
      assert a + b == b;
    }
  }

  /**
   * re.sub(r"\s+", " ", s): every maximal whitespace run becomes one space.
   * `inRun` says that the character before s was whitespace of the same run.
   */
  function CollapseRuns(s: string, inRun: bool): string {
    if s == [] then []
    else if IsSpace(s[0]) then (if inRun then [] else [' ']) + CollapseRuns(s[1..], true)
    else [s[0]] + CollapseRuns(s[1..], false)
  }

  function CollapseSpaces(s: string): string {
    CollapseRuns(s, false)
  }

  /** Every whitespace character is a plain space and no two of them are adjacent. */
  predicate SingleSpaced(s: string) {
    forall k :: 0 <= k < |s| && IsSpace(s[k]) ==> s[k] == ' ' && (k + 1 < |s| ==> !IsSpace(s[k + 1]))
  }

  /** Collapsing leaves single spaces, never starts a run it is already in, and keeps a leading visible character. */
  lemma {:induction false} CollapseRunsSpaced(s: string, inRun: bool)
    ensures SingleSpaced(CollapseRuns(s, inRun))
    ensures inRun && CollapseRuns(s, inRun) != [] ==> !IsSpace(CollapseRuns(s, inRun)[0])
    ensures s != [] && !IsSpace(s[0]) ==> CollapseRuns(s, inRun) != [] && CollapseRuns(s, inRun)[0] == s[0]
  {
    if s != [] {
      var rest := CollapseRuns(s[1..], IsSpace(s[0]));
      CollapseRunsSpaced(s[1..], IsSpace(s[0]));
      if IsSpace(s[0]) {
        if !inRun {
          assert ([' '] + rest)[1..] == rest;
        } else {
          assert [] + rest == rest;
        }
      } else {
        assert ([s[0]] + rest)[1..] == rest;
      }
    }
  }

  /** Collapsing keeps a trailing visible character, and (outside a run) emptiness. */
  lemma {:induction false} CollapseRunsEnds(s: string, inRun: bool)
    ensures !inRun ==> (CollapseRuns(s, inRun) == [] <==> s == [])
    ensures s != [] && !IsSpace(s[|s| - 1]) ==> CollapseRuns(s, inRun) != [] && CollapseRuns(s, inRun)[|CollapseRuns(s, inRun)| - 1] == s[|s| - 1]
  {
    if s != [] {
      var tail := s[1..];
      var rest := CollapseRuns(tail, IsSpace(s[0]));
      CollapseRunsEnds(tail, IsSpace(s[0]));
      if tail != [] {
        assert tail[|tail| - 1] == s[|s| - 1];
      }
      var head: string := if IsSpace(s[0]) then (if inRun then [] else [' ']) else [s[0]];
      assert CollapseRuns(s, inRun) == head + rest;
    }
  }

  /** Collapsing keeps every visible character, in order. */
  lemma {:induction false} CollapseRunsNonSpace(s: string, inRun: bool)
    ensures NonSpace(CollapseRuns(s, inRun)) == NonSpace(s)
  {
    if s != [] {
      var rest := CollapseRuns(s[1..], IsSpace(s[0]));
      CollapseRunsNonSpace(s[1..], IsSpace(s[0]));
      if IsSpace(s[0]) {
        if !inRun {
          assert ([' '] + rest)[1..] == rest;
        } else {
          assert [] + rest == rest;
        }
      } else {
        assert ([s[0]] + rest)[1..] == rest;
      }
    }
  }

  /** re.sub(r"\s+", " ", ...) leaves single spaces, keeps a trimmed text trimmed and keeps every other character. */
  lemma CollapseSpacesShape(s: string)
    ensures SingleSpaced(CollapseSpaces(s))
    ensures Trimmed(s) ==> Trimmed(CollapseSpaces(s))
    ensures (CollapseSpaces(s) == []) <==> (s == [])
    ensures NonSpace(CollapseSpaces(s)) == NonSpace(s)
  {
    CollapseRunsSpaced(s, false);
    CollapseRunsEnds(s, false);
    CollapseRunsNonSpace(s, false);
  }

  /** After a visible character, collapsing starts afresh. */
  lemma {:induction false} CollapseRunsAppend(a: string, t: string, inRun: bool)
    requires a != [] && !IsSpace(a[|a| - 1])
    ensures CollapseRuns(a + t, inRun) == CollapseRuns(a, inRun) + CollapseRuns(t, false)
    decreases |a|
  {
    var s, u := a + t, a[1..];
    assert s[0] == a[0] && s[1..] == u + t;
    var head: string := if IsSpace(a[0]) then (if inRun then [] else [' ']) else [a[0]];
    if u == [] {
      assert s[1..] == t;
      assert CollapseRuns(a, inRun) == head;
    } else {
      assert u[|u| - 1] == a[|a| - 1];
      CollapseRunsAppend(u, t, IsSpace(a[0]));
      var x, y := CollapseRuns(u, IsSpace(a[0])), CollapseRuns(t, false);
      assert head + (x + y) == (head + x) + y;
    }
  }

  /** Inside a run, more whitespace adds nothing. */
  lemma {:induction false} CollapseRunsSkip(ws: string, b: string)
    requires AllSpace(ws)
    ensures CollapseRuns(ws + b, true) == CollapseRuns(b, true)
    decreases |ws|
  {
    if ws == [] {
      assert ws + b == b;
    } else {
      assert (ws + b)[0] == ws[0] && (ws + b)[1..] == ws[1..] + b;
      CollapseRunsSkip(ws[1..], b);
    }
  }

  /** re.sub(r"\s+", " ", ...) turns a whitespace run between two visible characters into exactly one space. */
  lemma CollapseSpacesRun(a: string, ws: string, b: string)
    requires a != [] && b != [] && Trimmed(a) && Trimmed(b)
    requires ws != [] && AllSpace(ws)
    ensures CollapseSpaces(a + ws + b) == CollapseSpaces(a) + " " + CollapseSpaces(b)
  {
    assert a + ws + b == a + (ws + b);
    CollapseRunsAppend(a, ws + b, false);
    assert (ws + b)[0] == ws[0] && (ws + b)[1..] == ws[1..] + b;
    CollapseRunsSkip(ws[1..], b);
    assert CollapseRuns(b, true) == CollapseRuns(b, false);
  }

  /** A slice of single-spaced text is single-spaced, so str.strip keeps it so. */
  lemma SingleSpacedStrip(s: string)
    requires SingleSpaced(s)
    ensures SingleSpaced(Strip(s))
  {
    var i, j := StripSlice(s);
    var r := Strip(s);
    forall k | 0 <= k < |r| && IsSpace(r[k])
      ensures r[k] == ' ' && (k + 1 < |r| ==> !IsSpace(r[k + 1]))
    {
      assert r[k] == s[i + k];
      if k + 1 < |r| {
        assert r[k + 1] == s[i + k + 1];
      }
    }
  }

  /** Single-spaced text holds no newline: every whitespace character in it is a plain space. */
  lemma SingleSpacedNoNewline(s: string)
    requires SingleSpaced(s)
    ensures '\n' !in s
  {
    if '\n' in s {
      var k :| 0 <= k < |s| && s[k] == '\n';
      assert IsSpace(s[k]);
    }
  }
}
