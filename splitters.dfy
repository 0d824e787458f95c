/**
 * `split_into_paragraphs` and `split_into_sentences` (chunk_tts.py:154-180).
 * Both are a `re.split` followed by `[p.strip() for p in parts if p.strip()]`;
 * each `re.split` is modelled as a left-to-right scan for the separator.
 */
module Splitters {
  import opened Text

  /** `[p.strip() for p in parts if p.strip()]`. */
  function StripNonEmpty(parts: seq<string>): (r: seq<string>)
    ensures |r| <= |parts|
    ensures forall j :: 0 <= j < |r| ==> r[j] != [] && Trimmed(r[j])
  {
    if parts == [] then []
    else if Strip(parts[0]) != [] then [Strip(parts[0])] + StripNonEmpty(parts[1..])
    else StripNonEmpty(parts[1..])
  }

  /** Stripping and dropping blank parts loses no visible character and keeps their order. */
  lemma {:induction false} StripNonEmptyText(parts: seq<string>)
    ensures NonSpace(Concat(StripNonEmpty(parts))) == NonSpace(Concat(parts))
  {
    if parts != [] {
      StripNonEmptyText(parts[1..]);
      NonSpaceStrip(parts[0]);
      NonSpaceAppend(parts[0], Concat(parts[1..]));
      var rest := StripNonEmpty(parts[1..]);
      if Strip(parts[0]) != [] {
        assert ([Strip(parts[0])] + rest)[1..] == rest;
        NonSpaceAppend(Strip(parts[0]), Concat(rest));
      }
    }
  }

  /** Parts that are already stripped and non-empty come back unchanged. */
  lemma {:induction false} StripNonEmptyOfTrimmed(parts: seq<string>)
    requires forall j :: 0 <= j < |parts| ==> parts[j] != [] && Trimmed(parts[j])
    ensures StripNonEmpty(parts) == parts
  {
    if parts != [] {
      StripOfTrimmed(parts[0]);
      StripNonEmptyOfTrimmed(parts[1..]);
      assert [parts[0]] + parts[1..] == parts;
    }
  }

  // ---------- paragraphs ----------

  /** The last newline in s[lo..hi]. */
  function LastNewline(s: string, lo: nat, hi: nat): (r: Option<nat>)
    requires lo <= hi <= |s|
    ensures r.Some? ==> lo <= r.value < hi && s[r.value] == '\n'
    ensures r.Some? ==> forall k :: r.value < k < hi ==> s[k] != '\n'
    ensures r.None? ==> forall k :: lo <= k < hi ==> s[k] != '\n'
    decreases hi - lo
  {
    if hi == lo then None
    else if s[hi - 1] == '\n' then Some(hi - 1)
    else LastNewline(s, lo, hi - 1)
  }

  /**
   * A match of `\n\s*\n+` starting at i, and where it ends.  The greedy `\s*`
   * takes the whole whitespace run after the newline and backs off to its last
   * newline, which `\n+` then takes: there is a match exactly when that run
   * holds a second newline, and it ends just after the last one.
   */
  function BlankLineAt(t: string, i: nat): (r: Option<nat>)
    requires i < |t|
    ensures r.Some? ==> i + 2 <= r.value <= |t| && t[i] == '\n' && t[r.value - 1] == '\n'
    ensures r.Some? ==> AllSpace(t[i..r.value])
    ensures r.Some? ==> forall k :: r.value <= k < SpaceRunEnd(t, i + 1) ==> t[k] != '\n'
    ensures r.None? <==> t[i] != '\n' || forall k :: i < k < SpaceRunEnd(t, i + 1) ==> t[k] != '\n'
  {
    if t[i] != '\n' then None
    else
      var e := SpaceRunEnd(t, i + 1);
      match LastNewline(t, i + 1, e)
      case None => None
      case Some(n) =>
        assert forall k :: i <= k < n + 1 ==> IsSpace(t[k]);
        Some(n + 1)
  }

  /** `re.split(r"\n\s*\n+", t)`, scanning at i for a separator; the current part started at `start`. */
  function ParagraphParts(t: string, start: nat, i: nat): seq<string>
    requires start <= i <= |t|
    decreases |t| - i
  {
    if i == |t| then [t[start..]]
    else match BlankLineAt(t, i)
      case Some(e) => [t[start..i]] + ParagraphParts(t, e, e)
      case None => ParagraphParts(t, start, i + 1)
  }

  /** `split_into_paragraphs(text)`, lines 154-163. */
  function SplitIntoParagraphs(text: string): (r: seq<string>)
    ensures forall j :: 0 <= j < |r| ==> r[j] != [] && Trimmed(r[j])
  {
    var t := Strip(text);
    if t == [] then [] else StripNonEmpty(ParagraphParts(t, 0, 0))
  }

  /** One part and the whitespace separator after it. */
  lemma ParagraphSeparatorText(t: string, start: nat, i: nat, e: nat, rest: seq<string>)
    requires start <= i < e <= |t| && AllSpace(t[i..e])
    requires NonSpace(Concat(rest)) == NonSpace(t[e..])
    ensures NonSpace(Concat([t[start..i]] + rest)) == NonSpace(t[start..])
  {
    assert ([t[start..i]] + rest)[1..] == rest;
    NonSpaceAppend(t[start..i], Concat(rest));
    assert t[start..] == t[start..i] + t[i..e] + t[e..];
    NonSpaceAppend(t[start..i] + t[i..e], t[e..]);
    NonSpaceAppend(t[start..i], t[i..e]);
    NonSpaceAllSpace(t[i..e]);
  }

  /** The parts and the separators between them tile the text, and separators are whitespace. */
  lemma {:induction false} ParagraphPartsText(t: string, start: nat, i: nat)
    requires start <= i <= |t|
    ensures NonSpace(Concat(ParagraphParts(t, start, i))) == NonSpace(t[start..])
    decreases |t| - i
  {
    if i == |t| {
      assert [t[start..]][1..] == [];
      assert Concat([t[start..]]) == t[start..];
    } else {
      match BlankLineAt(t, i)
      case Some(e) =>
        ParagraphPartsText(t, e, e);
        ParagraphSeparatorText(t, start, i, e, ParagraphParts(t, e, e));
      case None =>
        ParagraphPartsText(t, start, i + 1);
    }
  }

  /** Without a newline there is no separator, so the text is one part. */
  lemma {:induction false} ParagraphPartsNoNewline(t: string, start: nat, i: nat)
    requires start <= i <= |t|
    requires '\n' !in t
    ensures ParagraphParts(t, start, i) == [t[start..]]
    decreases |t| - i
  {
    if i < |t| {
      assert t[i] != '\n';
      ParagraphPartsNoNewline(t, start, i + 1);
    }
  }

  lemma NonSpaceEmpty(s: string)
    requires NonSpace(s) == []
    ensures AllSpace(s)
  {
    forall k | 0 <= k < |s|
      ensures IsSpace(s[k])
    {
      if !IsSpace(s[k]) {
        NonSpaceMembers(s, s[k]);
      }
    }
  }

  /**
   * The paragraphs are non-empty, stripped, in order and hold every visible
   * character of the text; there are none exactly when the text is blank.
   */
  lemma ParagraphsText(text: string)
    ensures NonSpace(Concat(SplitIntoParagraphs(text))) == NonSpace(text)
    ensures SplitIntoParagraphs(text) == [] <==> AllSpace(text)
  {
    var t := Strip(text);
    NonSpaceStrip(text);
    if t != [] {
      ParagraphPartsText(t, 0, 0);
      StripNonEmptyText(ParagraphParts(t, 0, 0));
      if SplitIntoParagraphs(text) == [] {
        NonSpaceEmpty(text);
      }
    }
  }

  /** A text without a newline is at most one paragraph. */
  lemma ParagraphsWithoutNewline(text: string)
    requires '\n' !in text
    ensures |SplitIntoParagraphs(text)| <= 1
  {
    var t := Strip(text);
    var i, j := StripSlice(text);
    assert '\n' !in t by {
      forall k | 0 <= k < |t|
        ensures t[k] != '\n'
      {
        assert t[k] == text[i + k];
      }
    }
    if t != [] {
      ParagraphPartsNoNewline(t, 0, 0);
    }
  }

  /** No two newlines with only whitespace between them. */
  predicate NoBlankLine(p: string) {
    forall a, b :: 0 <= a < b < |p| && p[a] == '\n' && p[b] == '\n' ==> !AllSpace(p[a..b])
  }

  predicate EachNoBlankLine(parts: seq<string>) {
    forall j :: 0 <= j < |parts| ==> NoBlankLine(parts[j])
  }

  /** Where the scan finds no separator at a newline, the next newline is past visible text. */
  lemma NotBlankBetween(t: string, a: nat, b: nat)
    requires a < b < |t| && t[a] == '\n' && t[b] == '\n'
    requires BlankLineAt(t, a).None?
    ensures !AllSpace(t[a..b])
  {
    var e := SpaceRunEnd(t, a + 1);
    assert e <= b;
    assert !IsSpace(t[e]);
    assert t[a..b][e - a] == t[e];
  }

  /** A stretch the scan crossed without finding a separator holds no blank line. */
  lemma PartNoBlank(t: string, start: nat, i: nat)
    requires start <= i <= |t|
    requires forall k :: start <= k < i ==> BlankLineAt(t, k).None?
    ensures NoBlankLine(t[start..i])
  {
    var p := t[start..i];
    forall a, b | 0 <= a < b < |p| && p[a] == '\n' && p[b] == '\n'
      ensures !AllSpace(p[a..b])
    {
      NotBlankBetween(t, start + a, start + b);
      assert forall m :: 0 <= m < b - a ==> p[a..b][m] == t[start + a..start + b][m];
      assert p[a..b] == t[start + a..start + b];
    }
  }

  lemma {:induction false} ParagraphPartsNoBlank(t: string, start: nat, i: nat)
    requires start <= i <= |t|
    requires forall k :: start <= k < i ==> BlankLineAt(t, k).None?
    ensures EachNoBlankLine(ParagraphParts(t, start, i))
    decreases |t| - i
  {
    if i == |t| {
      PartNoBlank(t, start, i);
      assert t[start..] == t[start..i];
    } else {
      match BlankLineAt(t, i)
      case Some(e) =>
        PartNoBlank(t, start, i);
        ParagraphPartsNoBlank(t, e, e);
      case None =>
        ParagraphPartsNoBlank(t, start, i + 1);
        assert ParagraphParts(t, start, i) == ParagraphParts(t, start, i + 1);
    }
  }

  lemma ConsNoBlank(p: string, rest: seq<string>)
    requires NoBlankLine(p) && EachNoBlankLine(rest)
    ensures EachNoBlankLine([p] + rest)
  {
    forall j | 0 <= j < |[p] + rest|
      ensures NoBlankLine(([p] + rest)[j])
    {
      if j > 0 {
        assert ([p] + rest)[j] == rest[j - 1];
      }
    }
  }

  lemma NoBlankLineSlice(p: string, i: nat, j: nat)
    requires NoBlankLine(p) && i <= j <= |p|
    ensures NoBlankLine(p[i..j])
  {
    var q := p[i..j];
    forall a, b | 0 <= a < b < |q| && q[a] == '\n' && q[b] == '\n'
      ensures !AllSpace(q[a..b])
    {
      assert forall m :: 0 <= m < b - a ==> q[a..b][m] == p[i + a..i + b][m];
      assert q[a..b] == p[i + a..i + b];
    }
  }

  lemma {:induction false} StripNonEmptyNoBlank(parts: seq<string>)
    requires EachNoBlankLine(parts)
    ensures EachNoBlankLine(StripNonEmpty(parts))
  {
    if parts != [] {
      assert EachNoBlankLine(parts[1..]);
      StripNonEmptyNoBlank(parts[1..]);
      var a, b := StripSlice(parts[0]);
      NoBlankLineSlice(parts[0], a, b);
      var rest := StripNonEmpty(parts[1..]);
      if Strip(parts[0]) != [] {
        ConsNoBlank(Strip(parts[0]), rest);
        assert StripNonEmpty(parts) == [Strip(parts[0])] + rest;
      } else {
        assert StripNonEmpty(parts) == rest;
      }
    }
  }

  /** The text is cut at every blank line: no paragraph holds one. */
  lemma ParagraphsNoBlank(text: string)
    ensures EachNoBlankLine(SplitIntoParagraphs(text))
  {
    var t := Strip(text);
    if t != [] {
      ParagraphPartsNoBlank(t, 0, 0);
      StripNonEmptyNoBlank(ParagraphParts(t, 0, 0));
    }
  }

  /** In a text without a blank line the scan finds no separator. */
  lemma NoBlankLineScan(t: string, k: nat)
    requires NoBlankLine(t) && k < |t|
    ensures BlankLineAt(t, k).None?
  {
    if t[k] == '\n' {
      var e := SpaceRunEnd(t, k + 1);
      forall m | k < m < e
        ensures t[m] != '\n'
      {
        assert AllSpace(t[k..m]);
      }
    }
  }

  lemma {:induction false} ParagraphPartsNone(t: string, start: nat, i: nat)
    requires start <= i <= |t|
    requires forall k :: i <= k < |t| ==> BlankLineAt(t, k).None?
    ensures ParagraphParts(t, start, i) == [t[start..]]
    decreases |t| - i
  {
    if i < |t| {
      ParagraphPartsNone(t, start, i + 1);
    }
  }

  /** A text that is not blank is a single paragraph exactly when it holds no blank line. */
  lemma ParagraphsSingle(text: string)
    requires !AllSpace(text)
    ensures SplitIntoParagraphs(text) == [Strip(text)] <==> NoBlankLine(Strip(text))
  {
    var t := Strip(text);
    ParagraphsNoBlank(text);
    var r := SplitIntoParagraphs(text);
    assert r == [t] ==> NoBlankLine(r[0]);
    if NoBlankLine(t) {
      ParagraphsOfNoBlank(t);
      assert r == StripNonEmpty(ParagraphParts(t, 0, 0));
    }
  }

  /** A stripped text without a blank line is one part, which stripping keeps. */
  lemma ParagraphsOfNoBlank(t: string)
    requires t != [] && Trimmed(t) && NoBlankLine(t)
    ensures StripNonEmpty(ParagraphParts(t, 0, 0)) == [t]
  {
    forall k | 0 <= k < |t|
      ensures BlankLineAt(t, k).None?
    {
      NoBlankLineScan(t, k);
    }
    ParagraphPartsNone(t, 0, 0);
    assert t[0..] == t;
    StripOfTrimmed(t);
    assert StripNonEmpty([t]) == [t] + StripNonEmpty([]);
  }

  /** Whitespace holding a blank line: what a cut removes between two paragraphs. */
  predicate Separator(w: string) {
    AllSpace(w) && exists a, b :: 0 <= a < b < |w| && w[a] == '\n' && w[b] == '\n'
  }

  predicate AllSeparators(seps: seq<string>) {
    forall j :: 0 <= j < |seps| ==> Separator(seps[j])
  }

  /** The parts with a separator between each two of them. */
  function Interleave(ps: seq<string>, seps: seq<string>): string
    requires |ps| == |seps| + 1
    decreases |seps|
  {
    if seps == [] then ps[0] else ps[0] + seps[0] + Interleave(ps[1..], seps[1..])
  }

  lemma AllSeparatorsCons(w: string, seps: seq<string>)
    requires Separator(w) && AllSeparators(seps)
    ensures AllSeparators([w] + seps)
  {
    forall j | 0 <= j < |[w] + seps|
      ensures Separator(([w] + seps)[j])
    {
      if j > 0 {
        assert ([w] + seps)[j] == seps[j - 1];
      }
    }
  }

  /** Whitespace on either side of a separator leaves a separator. */
  lemma SeparatorWiden(x: string, w: string, y: string)
    requires AllSpace(x) && Separator(w) && AllSpace(y)
    ensures Separator(x + w + y)
  {
    var a, b :| 0 <= a < b < |w| && w[a] == '\n' && w[b] == '\n';
    var v := x + w + y;
    assert v[|x| + a] == w[a] && v[|x| + b] == w[b];
    assert forall k :: 0 <= k < |v| ==> IsSpace(v[k]) by {
      forall k | 0 <= k < |v|
        ensures IsSpace(v[k])
      {
        if k < |x| {
          assert v[k] == x[k];
        } else if k < |x| + |w| {
          assert v[k] == w[k - |x|];
        } else {
          assert v[k] == y[k - |x| - |w|];
        }
      }
    }
  }

  lemma AllSpaceJoin(x: string, y: string)
    requires AllSpace(x) && AllSpace(y)
    ensures AllSpace(x + y)
  {
    assert forall k :: 0 <= k < |x + y| ==> (x + y)[k] == if k < |x| then x[k] else y[k - |x|];
  }

  /** One more part and separator in front of a tiling. */
  lemma TilingCons(first: string, w: string, parts: seq<string>, seps: seq<string>)
    requires |parts| == |seps| + 1
    ensures Interleave([first] + parts, [w] + seps) == first + w + Interleave(parts, seps)
  {
    assert ([first] + parts)[1..] == parts;
    assert ([w] + seps)[1..] == seps;
  }

  /** The text a match of `\n\s*\n+` covers is a separator. */
  lemma MatchSeparator(t: string, i: nat, e: nat)
    requires i < |t| && BlankLineAt(t, i) == Some(e)
    ensures Separator(t[i..e])
  {
    var w := t[i..e];
    assert w[0] == '\n' && w[|w| - 1] == '\n';
  }

  lemma SliceThree(t: string, start: nat, i: nat, e: nat)
    requires start <= i <= e <= |t|
    ensures t[start..] == t[start..i] + t[i..e] + t[e..]
  {
  }

  /** The scan tiles t[start..] with its raw parts and the separators it matched. */
  lemma {:induction false} ParagraphPartsTiling(t: string, start: nat, i: nat) returns (seps: seq<string>)
    requires start <= i <= |t|
    ensures |ParagraphParts(t, start, i)| == |seps| + 1
    ensures AllSeparators(seps)
    ensures Interleave(ParagraphParts(t, start, i), seps) == t[start..]
    decreases |t| - i
  {
    if i == |t| {
      seps := [];
    } else {
      match BlankLineAt(t, i)
      case Some(e) =>
        var rest := ParagraphPartsTiling(t, e, e);
        MatchSeparator(t, i, e);
        AllSeparatorsCons(t[i..e], rest);
        seps := [t[i..e]] + rest;
        TilingCons(t[start..i], t[i..e], ParagraphParts(t, e, e), rest);
        SliceThree(t, start, i, e);
        assert ParagraphParts(t, start, i) == [t[start..i]] + ParagraphParts(t, e, e);
      case None =>
        seps := ParagraphPartsTiling(t, start, i + 1);
        assert ParagraphParts(t, start, i) == ParagraphParts(t, start, i + 1);
    }
  }

  /** Five pieces regrouped around a middle run. */
  lemma RegroupTiling(a: string, p: string, b: string, r: string, l: string, m: string, z: string)
    ensures (a + p + b) + r + (l + m + z) == a + (p + (b + r + l) + m) + z
  {
  }

  /** What StripTiling promises for the parts q with separators r between them. */
  predicate StrippedTiling(x: string, ps: seq<string>, lead: string, seps: seq<string>, trail: string) {
    && (ps == [] ==> AllSpace(x))
    && (ps != [] ==>
      && |ps| == |seps| + 1 && AllSeparators(seps) && AllSpace(lead) && AllSpace(trail)
      && x == lead + Interleave(ps, seps) + trail)
  }

  /** The step of StripTiling: one more part and separator in front. */
  lemma StripTilingStep(q0: string, r0: string, x: string, ps: seq<string>, lead: string, seps: seq<string>, trail: string)
    returns (lead0: string, seps0: seq<string>, trail0: string)
    requires Separator(r0) && StrippedTiling(x, ps, lead, seps, trail)
    ensures StrippedTiling(q0 + r0 + x, if Strip(q0) != [] then [Strip(q0)] + ps else ps, lead0, seps0, trail0)
  {
    var a, b := StripSlice(q0);
    if Strip(q0) != [] {
      if ps == [] {
        lead0, seps0, trail0 := KeptLast(q0, a, b, r0, x);
      } else {
        lead0, seps0, trail0 := KeptBefore(q0, a, b, r0, ps, lead, seps, trail);
      }
    } else if ps == [] {
      lead0, seps0, trail0 := lead, seps, trail;
      AllSpaceJoin(q0, r0);
      AllSpaceJoin(q0 + r0, x);
    } else {
      lead0, seps0, trail0 := DroppedBefore(q0, r0, ps, lead, seps, trail);
    }
  }

  /** A kept part with only whitespace after it. */
  lemma KeptLast(q0: string, a: nat, b: nat, r0: string, x: string) returns (lead0: string, seps0: seq<string>, trail0: string)
    requires a <= b <= |q0| && AllSpace(q0[..a]) && AllSpace(q0[b..])
    requires AllSpace(r0) && AllSpace(x)
    ensures seps0 == [] && AllSpace(lead0) && AllSpace(trail0)
    ensures q0 + r0 + x == lead0 + Interleave([q0[a..b]], seps0) + trail0
  {
    lead0, seps0, trail0 := q0[..a], [], q0[b..] + r0 + x;
    assert q0 == q0[..a] + q0[a..b] + q0[b..];
    AllSpaceJoin(q0[b..], r0);
    AllSpaceJoin(q0[b..] + r0, x);
  }

  /** A kept part followed by a separator and more kept parts. */
  lemma KeptBefore(q0: string, a: nat, b: nat, r0: string, ps: seq<string>, lead: string, seps: seq<string>, trail: string)
    returns (lead0: string, seps0: seq<string>, trail0: string)
    requires a <= b <= |q0| && Strip(q0) == q0[a..b] && AllSpace(q0[..a]) && AllSpace(q0[b..])
    requires Separator(r0) && AllSpace(lead) && |ps| == |seps| + 1 && AllSeparators(seps)
    ensures |seps0| == |seps| + 1 && AllSeparators(seps0) && AllSpace(lead0) && trail0 == trail
    ensures q0 + r0 + (lead + Interleave(ps, seps) + trail) == lead0 + Interleave([Strip(q0)] + ps, seps0) + trail0
  {
    var w := q0[b..] + r0 + lead;
    SeparatorWiden(q0[b..], r0, lead);
    AllSeparatorsCons(w, seps);
    lead0, seps0, trail0 := q0[..a], [w] + seps, trail;
    TilingCons(q0[a..b], w, ps, seps);
    assert q0 == q0[..a] + q0[a..b] + q0[b..];
    RegroupTiling(q0[..a], q0[a..b], q0[b..], r0, lead, Interleave(ps, seps), trail);
  }

  /** A blank part joins the whitespace in front of the kept parts after it. */
  lemma DroppedBefore(q0: string, r0: string, ps: seq<string>, lead: string, seps: seq<string>, trail: string)
    returns (lead0: string, seps0: seq<string>, trail0: string)
    requires AllSpace(q0) && AllSpace(r0) && AllSpace(lead) && |ps| == |seps| + 1
    ensures seps0 == seps && trail0 == trail && AllSpace(lead0)
    ensures q0 + r0 + (lead + Interleave(ps, seps) + trail) == lead0 + Interleave(ps, seps) + trail
  {
    AllSpaceJoin(q0, r0);
    AllSpaceJoin(q0 + r0, lead);
    lead0, seps0, trail0 := q0 + r0 + lead, seps, trail;
  }

  /**
   * Stripping the parts and dropping the blank ones keeps a tiling: between two
   * kept parts stands whitespace holding a blank line, and only whitespace is
   * left before the first and after the last.
   */
  lemma {:induction false} StripTiling(q: seq<string>, r: seq<string>) returns (lead: string, seps: seq<string>, trail: string)
    requires |q| == |r| + 1 && AllSeparators(r)
    ensures StrippedTiling(Interleave(q, r), StripNonEmpty(q), lead, seps, trail)
    decreases |r|
  {
    if r == [] {
      lead, seps, trail := StripTilingOne(q);
    } else {
      var lead', seps', trail' := StripTiling(q[1..], r[1..]);
      var x, ps := Interleave(q[1..], r[1..]), StripNonEmpty(q[1..]);
      lead, seps, trail := StripTilingStep(q[0], r[0], x, ps, lead', seps', trail');
      InterleaveCons(q, r);
      StripNonEmptyCons(q);
    }
  }

  /** The tiling of a single part. */
  lemma StripTilingOne(q: seq<string>) returns (lead: string, seps: seq<string>, trail: string)
    requires |q| == 1
    ensures StrippedTiling(Interleave(q, []), StripNonEmpty(q), lead, seps, trail)
  {
    var q0 := q[0];
    assert Interleave(q, []) == q0;
    assert q[1..] == [];
    StripNonEmptyCons(q);
    if Strip(q0) != [] {
      var a, b := StripSlice(q0);
      lead, seps, trail := KeptAlone(q0, a, b);
    } else {
      lead, seps, trail := [], [], [];
    }
  }

  lemma KeptAlone(q0: string, a: nat, b: nat) returns (lead: string, seps: seq<string>, trail: string)
    requires a <= b <= |q0| && AllSpace(q0[..a]) && AllSpace(q0[b..])
    ensures StrippedTiling(q0, [q0[a..b]], lead, seps, trail)
  {
    lead, seps, trail := q0[..a], [], q0[b..];
    assert Interleave([q0[a..b]], []) == q0[a..b];
    assert q0 == q0[..a] + q0[a..b] + q0[b..];
  }

  lemma InterleaveCons(q: seq<string>, r: seq<string>)
    requires |q| == |r| + 1 && r != []
    ensures Interleave(q, r) == q[0] + r[0] + Interleave(q[1..], r[1..])
  {
  }

  lemma StripNonEmptyCons(q: seq<string>)
    requires q != []
    ensures StripNonEmpty(q) == if Strip(q[0]) != [] then [Strip(q[0])] + StripNonEmpty(q[1..]) else StripNonEmpty(q[1..])
  {
  }

  /** Stripped text that is whitespace, then m, then whitespace, is m. */
  lemma TrimmedAround(lead: string, m: string, trail: string)
    requires Trimmed(lead + m + trail) && m != [] && AllSpace(lead) && AllSpace(trail)
    ensures lead == [] && trail == []
  {
    if lead != [] {
      assert false;
    }
    if trail != [] {
      assert false;
    }
  }

  /**
   * The paragraphs tile the stripped text: between each two consecutive
   * paragraphs stands whitespace holding a blank line, and nothing else.
   */
  lemma ParagraphsTiling(text: string) returns (seps: seq<string>)
    ensures SplitIntoParagraphs(text) != [] ==>
      && |SplitIntoParagraphs(text)| == |seps| + 1 && AllSeparators(seps)
      && Interleave(SplitIntoParagraphs(text), seps) == Strip(text)
  {
    seps := [];
    var t := Strip(text);
    if t != [] {
      var r := ParagraphPartsTiling(t, 0, 0);
      var q := ParagraphParts(t, 0, 0);
      assert t[0..] == t;
      var lead, s, trail := StripTiling(q, r);
      var ps := StripNonEmpty(q);
      assert StrippedTiling(t, ps, lead, s, trail);
      if ps != [] {
        seps := s;
        var m := Interleave(ps, s);
        assert t == lead + m + trail;
        assert ps[0] != [] && |m| >= |ps[0]|;
        TrimmedAround(lead, m, trail);
        assert t == m;
      }
    }
  }

  /** Two lines separated by a blank line are two paragraphs. */
  lemma ParagraphsExample()
    ensures SplitIntoParagraphs("a\n \nb") == ["a", "b"]
  {
    var t := "a\n \nb";
    StripOfTrimmed(t);
    assert BlankLineAt(t, 0) == None;
    assert SpaceRunEnd(t, 2) == 4;
    assert BlankLineAt(t, 1) == Some(4);
    assert ParagraphParts(t, 4, 4) == ["b"] by {
      assert BlankLineAt(t, 4) == None;
    }
    assert ParagraphParts(t, 0, 1) == [t[0..1]] + ParagraphParts(t, 4, 4);
    assert t[0..1] == "a";
    assert ParagraphParts(t, 0, 0) == ParagraphParts(t, 0, 1);
    StripOfTrimmed("a");
    StripOfTrimmed("b");
  }

  // ---------- sentences ----------

  predicate IsStop(c: char) { c == '.' || c == '!' || c == '?' }

  /** Where `(?<=[.!?])\s+` can match: whitespace right after '.', '!' or '?'. */
  predicate SentenceBreakAt(p: string, i: nat)
    requires i < |p|
  {
    0 < i && IsStop(p[i - 1]) && IsSpace(p[i])
  }

  /** No '.', '!' or '?' inside s is followed by whitespace: s holds no sentence break. */
  predicate NoBreakInside(s: string) {
    forall k :: 0 < k < |s| && IsStop(s[k - 1]) ==> !IsSpace(s[k])
  }

  /** `re.split(r"(?<=[.!?])\s+", p)`, scanning at i; the current part started at `start`. */
  function SentenceParts(p: string, start: nat, i: nat): (r: seq<string>)
    requires start <= i <= |p|
    ensures |r| >= 1
    decreases |p| - i
  {
    if i == |p| then [p[start..]]
    else if SentenceBreakAt(p, i) then
      var e := SpaceRunEnd(p, i);
      [p[start..i]] + SentenceParts(p, e, e)
    else SentenceParts(p, start, i + 1)
  }

  /** `re.sub(r"\s+", " ", paragraph.strip())`, the text the sentence splitter works on. */
  function SentenceSource(paragraph: string): string {
    CollapseSpaces(Strip(paragraph))
  }

  /** `split_into_sentences(paragraph)`, lines 166-180. */
  function SplitIntoSentences(paragraph: string): seq<string> {
    var p := SentenceSource(paragraph);
    if p == [] then []
    else
      var parts := SentenceParts(p, 0, 0);
      if |parts| == 1 then [p] else StripNonEmpty(parts)
  }

  /** `" ".join(ss)`. */
  function JoinSpaced(ss: seq<string>): string {
    if ss == [] then [] else if |ss| == 1 then ss[0] else ss[0] + " " + JoinSpaced(ss[1..])
  }

  lemma {:induction false} JoinSpacedText(ss: seq<string>)
    ensures NonSpace(JoinSpaced(ss)) == NonSpace(Concat(ss))
  {
    if |ss| == 1 {
      assert ss[1..] == [];
      assert Concat(ss) == ss[0];
    } else if |ss| > 1 {
      JoinSpacedText(ss[1..]);
      assert JoinSpaced(ss) == ss[0] + (" " + JoinSpaced(ss[1..]));
      assert NonSpace(" ") == [] by { assert " "[1..] == []; }
      NonSpaceAppend(ss[0], " " + JoinSpaced(ss[1..]));
      NonSpaceAppend(" ", JoinSpaced(ss[1..]));
      NonSpaceAppend(ss[0], Concat(ss[1..]));
    }
  }

  /** A sentence as the splitter returns it: non-empty, stripped and without a break inside. */
  predicate IsSentence(s: string) {
    s != [] && Trimmed(s) && NoBreakInside(s)
  }

  /** The sentences of SentenceParts: each one, and each but the last ends its sentence. */
  predicate SentenceList(r: seq<string>) {
    && (forall j :: 0 <= j < |r| ==> IsSentence(r[j]))
    && (forall j :: 0 <= j < |r| - 1 ==> IsStop(r[j][|r[j]| - 1]))
  }

  /** The text the splitter works on has single spaces and no whitespace at its ends. */
  predicate SentenceReady(p: string) {
    p != [] && Trimmed(p) && SingleSpaced(p)
  }

  /** The last part, p[start..], when the scan reaches the end without a break. */
  lemma LastSentence(p: string, start: nat)
    requires SentenceReady(p) && start < |p| && !IsSpace(p[start])
    requires forall k :: start <= k < |p| ==> !SentenceBreakAt(p, k)
    ensures IsSentence(p[start..])
  {
    var s := p[start..];
    forall k | 0 < k < |s| && IsStop(s[k - 1])
      ensures !IsSpace(s[k])
    {
      assert s[k - 1] == p[start + k - 1] && s[k] == p[start + k];
      assert !SentenceBreakAt(p, start + k);
    }
  }

  /** A part that ends at a break at i. */
  lemma BrokenSentence(p: string, start: nat, i: nat, rest: seq<string>)
    requires SentenceReady(p) && start <= i < |p| && !IsSpace(p[start])
    requires forall k :: start <= k < i ==> !SentenceBreakAt(p, k)
    requires SentenceBreakAt(p, i)
    requires rest != [] && SentenceList(rest) && JoinSpaced(rest) == p[i + 1..]
    ensures SpaceRunEnd(p, i) == i + 1 && i + 1 < |p| && !IsSpace(p[i + 1])
    ensures SentenceList([p[start..i]] + rest)
    ensures JoinSpaced([p[start..i]] + rest) == p[start..]
  {
    var s := p[start..i];
    forall k | 0 < k < |s| && IsStop(s[k - 1])
      ensures !IsSpace(s[k])
    {
      assert s[k - 1] == p[start + k - 1] && s[k] == p[start + k];
      assert !SentenceBreakAt(p, start + k);
    }
    var r := [s] + rest;
    assert r[0] == s && r[1..] == rest;
    forall j | 0 <= j < |r| - 1
      ensures IsStop(r[j][|r[j]| - 1])
    {
      if j > 0 {
        assert r[j] == rest[j - 1];
      }
    }
    assert p[start..] == s + " " + p[i + 1..];
  }

  /**
   * The scan from `start`: the parts are sentences, every one but the last
   * ends in '.', '!' or '?', and joined with single spaces they give back the
   * text from `start`.
   */
  lemma {:induction false} SentencePartsShape(p: string, start: nat, i: nat)
    requires SentenceReady(p) && start <= i <= |p| && start < |p| && !IsSpace(p[start])
    requires forall k :: start <= k < i ==> !SentenceBreakAt(p, k)
    ensures SentenceList(SentenceParts(p, start, i))
    ensures JoinSpaced(SentenceParts(p, start, i)) == p[start..]
    decreases |p| - i
  {
    if i == |p| {
      LastSentence(p, start);
    } else if SentenceBreakAt(p, i) {
      assert IsSpace(p[i]) && p[i] == ' ';
      assert i + 1 < |p|;
      SentencePartsShape(p, i + 1, i + 1);
      BrokenSentence(p, start, i, SentenceParts(p, i + 1, i + 1));
    } else {
      SentencePartsShape(p, start, i + 1);
    }
  }

  /**
   * Lines 166-180: a blank paragraph has no sentence; otherwise the sentences
   * are non-empty, stripped, hold no break, all but the last end in '.', '!'
   * or '?', and joined with single spaces they are the paragraph stripped and
   * with its whitespace collapsed.
   */
  lemma SentencesShape(paragraph: string)
    ensures SplitIntoSentences(paragraph) == [] <==> AllSpace(paragraph)
    ensures SentenceList(SplitIntoSentences(paragraph))
    ensures !AllSpace(paragraph) ==> JoinSpaced(SplitIntoSentences(paragraph)) == SentenceSource(paragraph)
  {
    var p := SentenceSource(paragraph);
    CollapseSpacesShape(Strip(paragraph));
    if p != [] {
      SentencePartsShape(p, 0, 0);
      var parts := SentenceParts(p, 0, 0);
      if |parts| != 1 {
        StripNonEmptyOfTrimmed(parts);
      }
    }
  }

  /** The sentences hold every visible character of the paragraph, in order. */
  lemma SentencesText(paragraph: string)
    ensures NonSpace(Concat(SplitIntoSentences(paragraph))) == NonSpace(paragraph)
  {
    SentencesShape(paragraph);
    var r := SplitIntoSentences(paragraph);
    NonSpaceStrip(paragraph);
    CollapseSpacesShape(Strip(paragraph));
    if AllSpace(paragraph) {
      NonSpaceAllSpace(paragraph);
    } else {
      JoinSpacedText(r);
    }
  }
}
