/**
 * The last tier of the long-sentence decomposer, `fallback_split_by_commas_and_conjs`
 * (chunk_tts.py:275-346): walk the text left to right and cut each window of
 * `max_len` characters at its first comma, else at its last " and " / " or "
 * beyond 30% of the window, else hard at the window's end.
 *
 * FallbackPieces is the specification, one window per recursive call;
 * FallbackSplit is the source's while loop, proved equal to it.
 */
module Fallback {
  import opened Text
  import opened Rules

  /** text.find(c, lo, hi): the first index of c in [lo, hi), or -1. */
  function FindChar(s: string, c: char, lo: nat, hi: nat): (r: int)
    requires lo <= hi <= |s|
    ensures r == -1 || (lo <= r < hi && s[r] == c)
    ensures forall k :: lo <= k < (if r == -1 then hi else r) ==> s[k] != c
    decreases hi - lo
  {
    if lo == hi then -1
    else if s[lo] == c then lo
    else FindChar(s, c, lo + 1, hi)
  }

  predicate OccursAt(s: string, k: int, pat: string) {
    0 <= k && k + |pat| <= |s| && s[k..k + |pat|] == pat
  }

  /** The last occurrence of pat that starts below `bound`, or -1. */
  function RFindBelow(s: string, pat: string, bound: int): (r: int)
    ensures r == -1 || (r < bound && OccursAt(s, r, pat))
    ensures forall k :: r < k < bound ==> !OccursAt(s, k, pat)
    decreases bound
  {
    if bound <= 0 then -1
    else if OccursAt(s, bound - 1, pat) then bound - 1
    else RFindBelow(s, pat, bound - 1)
  }

  /** s.rfind(pat): the last occurrence of pat in s, or -1. */
  function RFind(s: string, pat: string): (r: int)
    ensures r == -1 || OccursAt(s, r, pat)
    ensures forall k :: OccursAt(s, k, pat) ==> k <= r
  {
    RFindBelow(s, pat, |s| - |pat| + 1)
  }

  /** The order in which the source tries the conjunctions. */
  const Conjunctions: seq<string> := [" and ", " or "]

  /** `pos > len(window) * 0.3`, with the float product written as integer arithmetic. */
  predicate BeyondThreshold(pos: int, windowLen: int) {
    10 * pos > 3 * windowLen
  }

  /** No occurrence of pat lies beyond 30% of the window. */
  ghost predicate NoLateOccurrence(w: string, pat: string) {
    forall k :: OccursAt(w, k, pat) ==> !BeyondThreshold(k, |w|)
  }

  /** q is the last occurrence of pat in the window, and it lies beyond 30% of it. */
  ghost predicate LastLateOccurrence(w: string, pat: string, q: int) {
    OccursAt(w, q, pat) && BeyondThreshold(q, |w|) && forall k :: OccursAt(w, k, pat) ==> k <= q
  }

  /**
   * The `for conj in [" and ", " or "]` loop: the last occurrence of the first
   * conjunction whose last occurrence lies beyond 30% of the window, or -1.
   */
  function LateConjunction(w: string, conjs: seq<string>): (r: int)
    requires forall i :: 0 <= i < |conjs| ==> conjs[i] != []
    ensures r == -1 || 0 < r < |w|
  {
    if conjs == [] then -1
    else
      var pos := RFind(w, conjs[0]);
      if pos != -1 && BeyondThreshold(pos, |w|) then pos
      else LateConjunction(w, conjs[1..])
  }

  /** What the conjunction loop finds: the first conjunction, in list order, with an occurrence beyond 30% of the window, at its last occurrence. */
  lemma {:induction false} LateConjunctionSpec(w: string, conjs: seq<string>)
    requires forall i :: 0 <= i < |conjs| ==> conjs[i] != []
    ensures var r := LateConjunction(w, conjs);
      && (r == -1 <==> forall i :: 0 <= i < |conjs| ==> NoLateOccurrence(w, conjs[i]))
      && (r != -1 ==> exists i :: 0 <= i < |conjs| && LastLateOccurrence(w, conjs[i], r)
                                  && forall j :: 0 <= j < i ==> NoLateOccurrence(w, conjs[j]))
  {
    if conjs != [] {
      LateConjunctionSpec(w, conjs[1..]);
      assert forall i :: 1 <= i < |conjs| ==> conjs[i] == conjs[1..][i - 1];
    }
  }

  /** A last occurrence that is not beyond 30% of the window leaves no occurrence beyond it. */
  lemma RFindNotLate(w: string, pat: string)
    requires RFind(w, pat) == -1 || !BeyondThreshold(RFind(w, pat), |w|)
    ensures NoLateOccurrence(w, pat)
  {
  }

  /** The conjunction loop over " and ", " or ": the last " and " if it lies beyond 30% of the window, else the last " or " if that does, else -1. */
  lemma LateConjunctionPair(w: string)
    ensures var r := LateConjunction(w, Conjunctions);
      && (r == -1 <==> NoLateOccurrence(w, " and ") && NoLateOccurrence(w, " or "))
      && (r != -1 ==> LastLateOccurrence(w, " and ", r)
                      || (NoLateOccurrence(w, " and ") && LastLateOccurrence(w, " or ", r)))
  {
    assert Conjunctions[0] == " and " && Conjunctions[1..] == [" or "];
    assert [" or "][0] == " or " && [" or "][1..] == [];
    var a := RFind(w, " and ");
    var o := RFind(w, " or ");
    if !(a != -1 && BeyondThreshold(a, |w|)) {
      RFindNotLate(w, " and ");
      assert LateConjunction(w, Conjunctions) == LateConjunction(w, [" or "]);
      if !(o != -1 && BeyondThreshold(o, |w|)) {
        RFindNotLate(w, " or ");
        assert LateConjunction(w, [" or "]) == LateConjunction(w, []);
      }
    }
  }

  /** Where one window is cut, and which rule that cut gets. */
  datatype Cut = Cut(at: nat, suffix: Suffix)

  /**
   * Lines 310-336: the cut for the window [start, start + maxLen) of a text
   * whose remainder does not fit.  A comma in the window wins and the cut falls
   * just after the first one; otherwise the last " and " beyond 30% of the
   * window, then the last " or " beyond it; otherwise the window's end.
   */
  function ChooseCut(text: string, maxLen: nat, start: nat): (c: Cut)
    requires 1 <= maxLen && start + maxLen < |text|
    ensures start < c.at <= start + maxLen
    ensures c.suffix != Tail
    ensures c.suffix == CommaSplit ==> text[c.at - 1] == ','
  {
    var commaPos := FindChar(text, ',', start, start + maxLen);
    if commaPos != -1 then Cut(commaPos + 1, CommaSplit)
    else
      var pos := LateConjunction(text[start..start + maxLen], Conjunctions);
      if pos != -1 then Cut(start + pos, ConjSplit) else Cut(start + maxLen, LengthLimit)
  }

  /**
   * The priority of the cuts, lines 314-336: `+comma_split` exactly when the
   * window holds a comma, cut just after the first one; `+length_limit`
   * exactly when it holds neither a comma nor an " and " / " or " beyond 30%
   * of its length, cut at its end; otherwise `+conj_split` at the last
   * " and " if that lies beyond 30%, else at the last " or ".
   */
  lemma ChooseCutPriority(text: string, maxLen: nat, start: nat)
    requires 1 <= maxLen && start + maxLen < |text|
    ensures var c := ChooseCut(text, maxLen, start);
      var w := text[start..start + maxLen];
      && (c.suffix == CommaSplit <==> ',' in w)
      && (c.suffix == CommaSplit ==> ',' !in text[start..c.at - 1])
      && (c.suffix == LengthLimit <==> ',' !in w && NoLateOccurrence(w, " and ") && NoLateOccurrence(w, " or "))
      && (c.suffix == LengthLimit ==> c.at == start + maxLen)
      && (c.suffix == ConjSplit ==>
            (LastLateOccurrence(w, " and ", c.at - start)
             || (NoLateOccurrence(w, " and ") && LastLateOccurrence(w, " or ", c.at - start))))
  {
    var commaPos := FindChar(text, ',', start, start + maxLen);
    var w := text[start..start + maxLen];
    if commaPos != -1 {
      assert w[commaPos - start] == ',';
      assert ',' !in text[start..commaPos] by {
        forall k | 0 <= k < commaPos - start
          ensures text[start..commaPos][k] != ','
        {
          assert text[start..commaPos][k] == text[start + k];
        }
      }
    } else {
      assert ',' !in w by {
        forall k | 0 <= k < maxLen
          ensures w[k] != ','
        {
          assert w[k] == text[start + k];
        }
      }
      LateConjunctionPair(w);
    }
  }

  /**
   * The chunks the fallback loop emits from `start` on: skip whitespace; if the
   * rest fits, it is the `+tail` chunk; otherwise cut the window and go on
   * after the cut.
   */
  function FallbackPieces(text: string, maxLen: nat, base: Base, start: nat): seq<Piece>
    requires 1 <= maxLen && start <= |text|
    decreases |text| - start
  {
    var s := SpaceRunEnd(text, start);
    if s == |text| then []
    else if |text| - s <= maxLen then
      var segment := Strip(text[s..]);
      if segment != [] then [Piece(segment, Rule(base, Some(Tail)))] else []
    else
      var cut := ChooseCut(text, maxLen, s);
      var segment := Strip(text[s..cut.at]);
      (if segment != [] then [Piece(segment, Rule(base, Some(cut.suffix)))] else [])
      + FallbackPieces(text, maxLen, base, cut.at)
  }

  /** Only whitespace is left: no more chunks. */
  lemma FallbackPiecesDone(text: string, maxLen: nat, base: Base, top: nat)
    requires 1 <= maxLen && top <= |text| && SpaceRunEnd(text, top) == |text|
    ensures FallbackPieces(text, maxLen, base, top) == []
  {
  }

  /** The rest fits: it is the `+tail` chunk, if it is not blank. */
  lemma FallbackPiecesTail(text: string, maxLen: nat, base: Base, top: nat)
    requires 1 <= maxLen && top <= |text|
    requires var s := SpaceRunEnd(text, top); s < |text| && |text| - s <= maxLen
    ensures var s := SpaceRunEnd(text, top);
      FallbackPieces(text, maxLen, base, top)
      == (if Strip(text[s..|text|]) != [] then [Piece(Strip(text[s..|text|]), Rule(base, Some(Tail)))] else [])
  {
    assert text[SpaceRunEnd(text, top)..] == text[SpaceRunEnd(text, top)..|text|];
  }

  /** The rest does not fit: the window's chunk, then the chunks after the cut. */
  lemma FallbackPiecesWindow(text: string, maxLen: nat, base: Base, top: nat, cutAt: nat, suffix: Suffix)
    requires 1 <= maxLen && top <= |text| && SpaceRunEnd(text, top) + maxLen < |text|
    requires Cut(cutAt, suffix) == ChooseCut(text, maxLen, SpaceRunEnd(text, top))
    ensures var s := SpaceRunEnd(text, top);
      FallbackPieces(text, maxLen, base, top)
      == (if Strip(text[s..cutAt]) != [] then [Piece(Strip(text[s..cutAt]), Rule(base, Some(suffix)))] else [])
         + FallbackPieces(text, maxLen, base, cutAt)
  {
  }

  /**
   * Lines 275-346.  Every pass of the outer loop moves `start` strictly
   * forward (a comma cut lies after the comma, a conjunction cut beyond 30% of
   * a non-empty window, a hard cut at start + max_len), so the loop ends.
   */
  method FallbackSplit(text: string, maxLen: nat, base: Base) returns (chunks: seq<Piece>)
    requires maxLen >= 1
    ensures chunks == FallbackPieces(text, maxLen, base, 0)
  {
    ghost var all := FallbackPieces(text, maxLen, base, 0);
    chunks := [];
    var start := 0;
    var length := |text|;
    while start < length
      invariant start <= length
      invariant chunks + FallbackPieces(text, maxLen, base, start) == all
      decreases length - start
    {
      ghost var top := start;
      start := SkipSpaces(text, start);
      if start >= length {
        FallbackPiecesDone(text, maxLen, base, top);
        break;
      }
      // the rest fits: take it whole
      if length - start <= maxLen {
        FallbackPiecesTail(text, maxLen, base, top);
        var segment := Strip(text[start..length]);
        if segment != [] {
          chunks := chunks + [Piece(segment, Rule(base, Some(Tail)))];
        }
        assert chunks == all;
        break;
      }

      ghost var before := chunks;
      var cutAt, suffix := CutWindow(text, maxLen, start);
      FallbackPiecesWindow(text, maxLen, base, top, cutAt, suffix);
      var segment := Strip(text[start..cutAt]);
      ghost var here := if segment != [] then [Piece(segment, Rule(base, Some(suffix)))] else [];
      if segment != [] {
        chunks := chunks + [Piece(segment, Rule(base, Some(suffix)))];
      }
      assert chunks == before + here;
      AppendAssoc(before, here, FallbackPieces(text, maxLen, base, cutAt));
      start := cutAt;
    }
  }

  /** A chunk of the fallback splitter: stripped, non-empty, within max_len, base rule plus one cut; a comma cut ends in its comma. */
  predicate IsFallbackChunk(p: Piece, maxLen: nat, base: Base) {
    && Bounded(p.chunk, maxLen)
    && p.rule.base == base && p.rule.suffix.Some?
    && (p.rule.suffix == Some(CommaSplit) ==> p.chunk[|p.chunk| - 1] == ',')
  }

  /**
   * Every fallback chunk, the `+tail` one included, is non-empty, stripped and
   * at most max_len long; it carries the base rule plus exactly one cut; only
   * the last one can be `+tail`; a `+comma_split` chunk ends with its comma.
   */
  lemma {:induction false} FallbackPiecesShape(text: string, maxLen: nat, base: Base, start: nat)
    requires 1 <= maxLen && start <= |text|
    ensures FallbackChunks(FallbackPieces(text, maxLen, base, start), maxLen, base)
    decreases |text| - start
  {
    var s := SpaceRunEnd(text, start);
    if s == |text| {
      FallbackPiecesDone(text, maxLen, base, start);
    } else if |text| - s <= maxLen {
      FallbackPiecesTail(text, maxLen, base, start);
    } else {
      var cut := ChooseCut(text, maxLen, s);
      FallbackPiecesWindow(text, maxLen, base, start, cut.at, cut.suffix);
      FallbackPiecesShape(text, maxLen, base, cut.at);
      FallbackWindowShape(text, maxLen, base, s, FallbackPieces(text, maxLen, base, cut.at));
    }
  }

  /** Every piece is a fallback chunk, and only the last can be `+tail`. */
  predicate FallbackChunks(ps: seq<Piece>, maxLen: nat, base: Base) {
    && (forall i :: 0 <= i < |ps| ==> IsFallbackChunk(ps[i], maxLen, base))
    && (forall i :: 0 <= i < |ps| - 1 ==> ps[i].rule.suffix != Some(Tail))
  }

  /** One window of FallbackPiecesShape: the chunk cut from the window is a fallback chunk other than `+tail`. */
  lemma FallbackWindowShape(text: string, maxLen: nat, base: Base, s: nat, rest: seq<Piece>)
    requires 1 <= maxLen && s + maxLen < |text|
    requires FallbackChunks(rest, maxLen, base)
    ensures var cut := ChooseCut(text, maxLen, s);
      var seg := Strip(text[s..cut.at]);
      FallbackChunks((if seg != [] then [Piece(seg, Rule(base, Some(cut.suffix)))] else []) + rest, maxLen, base)
  {
    var cut := ChooseCut(text, maxLen, s);
    var seg := Strip(text[s..cut.at]);
    if seg != [] {
      StripEnds(text[s..cut.at]);
      var p := Piece(seg, Rule(base, Some(cut.suffix)));
      assert IsFallbackChunk(p, maxLen, base);
      var ps := [p] + rest;
      forall i | 0 <= i < |ps|
        ensures IsFallbackChunk(ps[i], maxLen, base)
        ensures i < |ps| - 1 ==> ps[i].rule.suffix != Some(Tail)
      {
        if i > 0 {
          assert ps[i] == rest[i - 1];
        }
      }
    } else {
      assert [] + rest == rest;
    }
  }

  /** The chunks, whitespace aside, are the text from `start` on, in order: nothing is lost, added or moved. */
  lemma {:induction false} FallbackPiecesText(text: string, maxLen: nat, base: Base, start: nat)
    requires 1 <= maxLen && start <= |text|
    ensures NonSpace(Joined(FallbackPieces(text, maxLen, base, start))) == NonSpace(text[start..])
    decreases |text| - start
  {
    var s := SpaceRunEnd(text, start);
    NonSpaceSkip(text, start, s);
    if s == |text| {
      FallbackPiecesDone(text, maxLen, base, start);
      assert text[s..] == [];
    } else if |text| - s <= maxLen {
      FallbackPiecesTail(text, maxLen, base, start);
      JoinedOptional(Strip(text[s..]), Rule(base, Some(Tail)));
      NonSpaceStrip(text[s..]);
    } else {
      var cut := ChooseCut(text, maxLen, s);
      FallbackPiecesWindow(text, maxLen, base, start, cut.at, cut.suffix);
      FallbackPiecesText(text, maxLen, base, cut.at);
      FallbackWindowText(text, maxLen, base, s, FallbackPieces(text, maxLen, base, cut.at));
    }
  }

  /** One window of FallbackPiecesText: the window's chunk followed by the chunks after the cut cover text[s..]. */
  lemma FallbackWindowText(text: string, maxLen: nat, base: Base, s: nat, rest: seq<Piece>)
    requires 1 <= maxLen && s + maxLen < |text|
    requires NonSpace(Joined(rest)) == NonSpace(text[ChooseCut(text, maxLen, s).at..])
    ensures var cut := ChooseCut(text, maxLen, s);
      var seg := Strip(text[s..cut.at]);
      NonSpace(Joined((if seg != [] then [Piece(seg, Rule(base, Some(cut.suffix)))] else []) + rest))
      == NonSpace(text[s..])
  {
    var cut := ChooseCut(text, maxLen, s);
    var seg := Strip(text[s..cut.at]);
    var emitted := if seg != [] then [Piece(seg, Rule(base, Some(cut.suffix)))] else [];
    JoinedOptional(seg, Rule(base, Some(cut.suffix)));
    JoinedAppendNonSpace(emitted, rest);
    NonSpaceStrip(text[s..cut.at]);
    NonSpaceSlices(text, s, cut.at, |text|);
    assert text[s..] == text[s..|text|] && text[cut.at..] == text[cut.at..|text|];
  }

  /** Lines 295-296: skip the whitespace at `start`. */
  method SkipSpaces(text: string, start0: nat) returns (start: nat)
    requires start0 <= |text|
    ensures start == SpaceRunEnd(text, start0)
  {
    start := start0;
    while start < |text| && IsSpace(text[start])
      invariant start0 <= start <= |text|
      invariant SpaceRunEnd(text, start) == SpaceRunEnd(text, start0)
    {
      start := start + 1;
    }
  }

  /**
   * Lines 310-336, the body of one pass once the rest is known not to fit:
   * the comma search, the conjunction loop and the hard cut, in that order.
   */
  method CutWindow(text: string, maxLen: nat, start: nat) returns (cut: nat, suffix: Suffix)
    requires 1 <= maxLen && start + maxLen < |text|
    ensures Cut(cut, suffix) == ChooseCut(text, maxLen, start)
  {
    var length := |text|;
    var windowEnd := if start + maxLen < length then start + maxLen else length;
    var cutAt: Option<nat> := None;
    suffix := LengthLimit;

    // 1. the first comma in the window
    var commaPos := FindChar(text, ',', start, windowEnd);
    if commaPos != -1 {
      cutAt := Some(commaPos + 1);
      suffix := CommaSplit;
    }

    // 2. the last " and " / " or " beyond 30% of the window
    if cutAt == None {
      var window := text[start..windowEnd];
      var matchPos: Option<nat> := None;
      for i := 0 to |Conjunctions|
        invariant matchPos == None
        invariant LateConjunction(window, Conjunctions[i..]) == LateConjunction(window, Conjunctions)
      {
        var pos := RFind(window, Conjunctions[i]);
        if pos != -1 && BeyondThreshold(pos, |window|) {
          matchPos := Some(start + pos);
          break;
        }
        assert LateConjunction(window, Conjunctions[i..]) == LateConjunction(window, Conjunctions[i + 1..]);
      }
      if matchPos != None {
        cutAt := matchPos;
        suffix := ConjSplit;
      }
    }

    // 3. a hard cut at the window's end
    if cutAt == None {
      cutAt := Some(windowEnd);
      suffix := LengthLimit;
    }

    cut := cutAt.value;
  }
}
