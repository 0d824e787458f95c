/**
 * `split_long_sentence` (chunk_tts.py:232-272): a sentence over budget is
 * first cut after every comma; a segment still over budget goes to the
 * subordinator splitter, and so does a sentence without a comma.
 */
module LongSentence {
  import opened Text
  import opened Rules
  import opened Fallback
  import opened Clauses
  import opened Splitters

  /** Line 244, `[i for i, ch in enumerate(sentence_text) if ch == ","]`, from index i on. */
  function CommasFrom(text: string, i: nat): seq<nat>
    requires i <= |text|
    decreases |text| - i
  {
    if i == |text| then []
    else if text[i] == ',' then [i] + CommasFrom(text, i + 1)
    else CommasFrom(text, i + 1)
  }

  function CommaPositions(text: string): seq<nat> {
    CommasFrom(text, 0)
  }

  /** The positions listed from i on are exactly the commas at or after i, in increasing order. */
  lemma {:induction false} CommasFromSpec(text: string, i: nat)
    requires i <= |text|
    ensures Increasing(CommasFrom(text, i))
    ensures forall p: nat :: p in CommasFrom(text, i) <==> i <= p < |text| && text[p] == ','
    decreases |text| - i
  {
    if i < |text| {
      CommasFromSpec(text, i + 1);
      if text[i] == ',' {
        PrependIncreasing(i, CommasFrom(text, i + 1));
      }
    }
  }

  /** `[i for i, ch in enumerate(sentence_text) if ch == ","]`: every comma of the text, in order. */
  lemma CommaPositionsSpec(text: string)
    ensures Increasing(CommaPositions(text))
    ensures forall p: nat :: p in CommaPositions(text) <==> p < |text| && text[p] == ','
  {
    CommasFromSpec(text, 0);
  }

  /** `if seg: segments.append(seg)`. */
  function Optional(s: string): seq<string> {
    if s != [] then [s] else []
  }

  /** The first comma at or after i, or the end of the text. */
  function NextComma(text: string, i: nat): (r: nat)
    requires i <= |text|
    ensures i <= r <= |text|
    ensures r < |text| ==> text[r] == ','
    decreases |text| - i
  {
    if i == |text| || text[i] == ',' then i else NextComma(text, i + 1)
  }

  /** No comma lies between i and the one NextComma finds. */
  lemma {:induction false} NextCommaFirst(text: string, i: nat)
    requires i <= |text|
    ensures forall k :: i <= k < NextComma(text, i) ==> text[k] != ','
    decreases |text| - i
  {
    if i < |text| && text[i] != ',' {
      NextCommaFirst(text, i + 1);
    }
  }

  /**
   * Lines 248-258 before the strip, from `prev` on: the text up to and
   * including the next comma, and so on; after the last comma, the tail.
   */
  function CommaParts(text: string, prev: nat): (r: seq<string>)
    requires prev <= |text|
    ensures |r| >= 1
    decreases |text| - prev
  {
    var c := NextComma(text, prev);
    if c == |text| then [text[prev..]]
    else [text[prev..c + 1]] + CommaParts(text, c + 1)
  }

  /** The chunks of one segment, as the loop body at lines 260-267 makes them. */
  function SegmentPieces(seg: string, maxLen: nat): seq<Piece>
    requires 1 <= maxLen
  {
    if |seg| <= maxLen then [Piece(seg, Rule(CommaFirst, None))] else SubordinatorPieces(seg, maxLen)
  }

  /** Lines 260-268: a segment within budget is a `comma_first` chunk, a longer one is split by subordinators. */
  function CommaFirstPieces(segments: seq<string>, maxLen: nat): seq<Piece>
    requires 1 <= maxLen
  {
    if segments == [] then []
    else SegmentPieces(segments[0], maxLen) + CommaFirstPieces(segments[1..], maxLen)
  }

  /** Lines 244-258: the comma segments of a sentence, each part stripped and the blank ones dropped. */
  function Segments(text: string): seq<string> {
    StripNonEmpty(CommaParts(text, 0))
  }

  /** `split_long_sentence(sentence_text, max_len)`. */
  function LongSentencePieces(text: string, maxLen: nat): seq<Piece>
    requires 1 <= maxLen
  {
    if CommaPositions(text) != [] then CommaFirstPieces(Segments(text), maxLen)
    else SubordinatorPieces(text, maxLen)
  }

  /** Lines 232-272. */
  method SplitLongSentence(text: string, maxLen: nat) returns (chunks: seq<Piece>)
    requires maxLen >= 1
    ensures chunks == LongSentencePieces(text, maxLen)
  {
    var commaPositions := CommaPositions(text);
    if commaPositions != [] {
      var segments := CutAtCommas(text, commaPositions);
      chunks := SplitSegments(segments, maxLen);
      return;
    }
    chunks := SplitBySubordinators(text, maxLen);
  }

  lemma CommaPartsStep(text: string, prev: nat, end: nat)
    requires prev <= |text| && NextComma(text, prev) < |text| && end == NextComma(text, prev) + 1
    ensures CommaParts(text, prev) == [text[prev..end]] + CommaParts(text, end)
  {
  }

  /** Stripping a list of parts: the first part, if it is not blank, then the rest. */
  lemma StripNonEmptyCons(x: string, rest: seq<string>)
    ensures StripNonEmpty([x] + rest) == Optional(Strip(x)) + StripNonEmpty(rest)
  {
    assert ([x] + rest)[0] == x && ([x] + rest)[1..] == rest;
  }

  /** One turn of the loop in CutAtCommas keeps `segments + StripNonEmpty(CommaParts(text, prev))` fixed. */
  lemma CutStep(text: string, prev: nat, end: nat, before: seq<string>, all: seq<string>)
    requires prev < end <= |text| && NextComma(text, prev) == end - 1
    requires before + StripNonEmpty(CommaParts(text, prev)) == all
    ensures (before + Optional(Strip(text[prev..end]))) + StripNonEmpty(CommaParts(text, end)) == all
  {
    CommaPartsStep(text, prev, end);
    ConsStep(before, text[prev..end], CommaParts(text, end), CommaParts(text, prev), all);
  }

  /** Moving the first of the remaining parts, stripped, onto the segments found so far. */
  lemma ConsStep(before: seq<string>, x: string, rest: seq<string>, parts: seq<string>, all: seq<string>)
    requires parts == [x] + rest && before + StripNonEmpty(parts) == all
    ensures (before + Optional(Strip(x))) + StripNonEmpty(rest) == all
  {
    StripNonEmptyCons(x, rest);
    AppendAssoc(before, Optional(Strip(x)), StripNonEmpty(rest));
  }

  /** After the last comma, the tail completes the segments. */
  lemma TailStep(text: string, prev: nat, before: seq<string>, all: seq<string>)
    requires prev <= |text| && NextComma(text, prev) == |text|
    requires before + StripNonEmpty(CommaParts(text, prev)) == all
    ensures before + Optional(Strip(text[prev..])) == all
  {
    var t := text[prev..];
    assert CommaParts(text, prev) == [t];
    assert [t][0] == t && [t][1..] == [];
  }

  /** The commas from i on are the one the scan from i finds, then the commas after it. */
  lemma {:induction false} CommasFromNext(text: string, i: nat, c: nat)
    requires i <= |text| && c == NextComma(text, i)
    ensures CommasFrom(text, i) == if c == |text| then [] else [c] + CommasFrom(text, c + 1)
    decreases |text| - i
  {
    if i < |text| && text[i] != ',' {
      CommasFromNext(text, i + 1, c);
    }
  }

  /** While commas remain to be listed, the next one is where the scan from `prev` stops. */
  lemma NextListedComma(text: string, commas: seq<nat>, idx: nat, prev: nat)
    requires prev <= |text| && idx < |commas| && commas[idx..] == CommasFrom(text, prev)
    ensures prev <= commas[idx] < |text| && NextComma(text, prev) == commas[idx]
    ensures commas[idx + 1..] == CommasFrom(text, commas[idx] + 1)
  {
    CommasFromNext(text, prev, NextComma(text, prev));
    assert commas[idx..][0] == commas[idx];
    assert commas[idx..][1..] == commas[idx + 1..];
  }

  /** Once every comma is listed, the scan from `prev` reaches the end of the text. */
  lemma LastListedComma(text: string, prev: nat)
    requires prev <= |text| && CommasFrom(text, prev) == []
    ensures NextComma(text, prev) == |text|
  {
    CommasFromNext(text, prev, NextComma(text, prev));
  }

  /** Cuts the sentence after each listed comma, keeping the stripped pieces that are not blank. */
  method CutAtCommas(text: string, commaPositions: seq<nat>) returns (segments: seq<string>)
    requires commaPositions == CommaPositions(text)
    ensures segments == Segments(text)
  {
    ghost var all := Segments(text);
    segments := [];
    var prev := 0;
    for idx := 0 to |commaPositions|
      invariant prev <= |text|
      invariant commaPositions[idx..] == CommasFrom(text, prev)
      invariant segments + StripNonEmpty(CommaParts(text, prev)) == all
    {
      NextListedComma(text, commaPositions, idx, prev);
      var end := commaPositions[idx] + 1;
      ghost var before := segments;
      segments := AppendStripped(segments, text[prev..end]);
      CutStep(text, prev, end, before, all);
      prev := end;
    }
    LastListedComma(text, prev);
    TailStep(text, prev, segments, all);
    segments := AppendStripped(segments, text[prev..]);
  }

  /** `seg = part.strip()` followed by `if seg: segments.append(seg)`. */
  method AppendStripped(segments: seq<string>, part: string) returns (r: seq<string>)
    ensures r == segments + Optional(Strip(part))
  {
    var seg := Strip(part);
    r := segments;
    if seg != [] {
      r := r + [seg];
    }
  }

  /** Lines 260-270, the loop over the segments. */
  method SplitSegments(segments: seq<string>, maxLen: nat) returns (chunks: seq<Piece>)
    requires maxLen >= 1
    ensures chunks == CommaFirstPieces(segments, maxLen)
  {
    chunks := [];
    for idx := 0 to |segments|
      invariant chunks + CommaFirstPieces(segments[idx..], maxLen) == CommaFirstPieces(segments, maxLen)
    {
      var seg := segments[idx];
      ghost var before := chunks;
      ghost var here := SegmentPieces(seg, maxLen);
      if |seg| <= maxLen {
        chunks := chunks + [Piece(seg, Rule(CommaFirst, None))];
      } else {
        var subChunks := SplitBySubordinators(seg, maxLen);
        chunks := chunks + subChunks;
      }
      assert segments[idx..][1..] == segments[idx + 1..];
      assert CommaFirstPieces(segments[idx..], maxLen) == here + CommaFirstPieces(segments[idx + 1..], maxLen);
      AppendAssoc(before, here, CommaFirstPieces(segments[idx + 1..], maxLen));
    }
    assert segments[|segments|..] == [];
  }

  // ---------- segments ----------

  /** No comma but possibly the last character. */
  predicate NoInnerComma(s: string) {
    forall m :: 0 <= m < |s| - 1 ==> s[m] != ','
  }

  /** A comma segment: non-empty, stripped, and no comma but possibly its last character. */
  predicate IsCommaSegment(s: string) {
    s != [] && Trimmed(s) && NoInnerComma(s)
  }

  /** The segments: each a comma segment, and each but the last ending with its comma. */
  predicate SegmentList(segs: seq<string>) {
    && (forall j :: 0 <= j < |segs| ==> IsCommaSegment(segs[j]))
    && (forall j :: 0 <= j < |segs| - 1 ==> segs[j][|segs[j]| - 1] == ',')
  }

  /** The raw parts: none holds a comma before its last character, and each but the last ends with its comma. */
  predicate PartList(parts: seq<string>) {
    && (forall j :: 0 <= j < |parts| ==> NoInnerComma(parts[j]))
    && (forall j :: 0 <= j < |parts| - 1 ==> parts[j] != [] && parts[j][|parts[j]| - 1] == ',')
  }

  /** Cutting after each comma: the parts hold no other comma and each but the tail ends with its comma. */
  lemma {:induction false} CommaPartsShape(text: string, prev: nat)
    requires prev <= |text|
    ensures PartList(CommaParts(text, prev))
    decreases |text| - prev
  {
    var c := NextComma(text, prev);
    NextCommaFirst(text, prev);
    if c == |text| {
      assert NoInnerComma(text[prev..]) by {
        forall m | 0 <= m < |text[prev..]| - 1
          ensures text[prev..][m] != ','
        {
          assert text[prev..][m] == text[prev + m];
        }
      }
      assert CommaParts(text, prev) == [text[prev..]];
    } else {
      var part := text[prev..c + 1];
      assert NoInnerComma(part) by {
        forall m | 0 <= m < |part| - 1
          ensures part[m] != ','
        {
          assert part[m] == text[prev + m];
        }
      }
      assert part[|part| - 1] == text[c];
      CommaPartsStep(text, prev, c + 1);
      CommaPartsShape(text, c + 1);
      PartListCons(part, CommaParts(text, c + 1));
    }
  }

  lemma PartListCons(part: string, rest: seq<string>)
    requires NoInnerComma(part) && part != [] && part[|part| - 1] == ',' && PartList(rest)
    ensures PartList([part] + rest)
  {
    var r := [part] + rest;
    forall j | 0 < j < |r|
      ensures r[j] == rest[j - 1]
    {
    }
  }

  /** A part keeps its shape when stripped: no inner comma, and its closing comma stays last. */
  lemma StripPart(x: string)
    requires NoInnerComma(x)
    ensures Strip(x) != [] ==> IsCommaSegment(Strip(x))
    ensures x != [] && x[|x| - 1] == ',' ==> Strip(x) != [] && Strip(x)[|Strip(x)| - 1] == ','
  {
    var i, j := StripSlice(x);
    var r := Strip(x);
    forall m | 0 <= m < |r| - 1
      ensures r[m] != ','
    {
      assert r[m] == x[i + m];
    }
    if x != [] && x[|x| - 1] == ',' {
      assert !IsSpace(x[|x| - 1]);
      assert j == |x|;
    }
  }

  lemma SegmentListCons(seg: string, rest: seq<string>)
    requires seg != [] ==> IsCommaSegment(seg) && (rest != [] ==> seg[|seg| - 1] == ',')
    requires SegmentList(rest)
    ensures SegmentList(Optional(seg) + rest)
  {
    if seg != [] {
      var r := [seg] + rest;
      assert Optional(seg) == [seg];
      forall j | 0 <= j < |r|
        ensures IsCommaSegment(r[j])
        ensures j < |r| - 1 ==> r[j][|r[j]| - 1] == ','
      {
        if j > 0 {
          assert r[j] == rest[j - 1];
        }
      }
    } else {
      assert Optional(seg) + rest == rest;
    }
  }

  /** Stripping the parts and dropping the blank ones leaves comma segments, each but the last ending with its comma. */
  lemma {:induction false} StripPartsShape(parts: seq<string>)
    requires PartList(parts)
    ensures SegmentList(StripNonEmpty(parts))
  {
    if parts != [] {
      var x := parts[0];
      var rest := parts[1..];
      assert parts == [x] + rest;
      assert PartList(rest) by {
        forall j | 0 <= j < |rest|
          ensures rest[j] == parts[j + 1]
        {
        }
      }
      StripPartsShape(rest);
      StripPart(x);
      StripNonEmptyCons(x, rest);
      SegmentListCons(Strip(x), StripNonEmpty(rest));
    }
  }

  /**
   * Lines 244-258: the segments are non-empty and stripped, each but the last
   * ends with its comma, and none holds another comma.
   */
  lemma SegmentsShape(text: string)
    ensures SegmentList(Segments(text))
  {
    CommaPartsShape(text, 0);
    StripPartsShape(CommaParts(text, 0));
  }

  /** Lines 248-258: the parts cut after each comma, laid end to end, are the text from `prev` on. */
  lemma {:induction false} CommaPartsConcat(text: string, prev: nat)
    requires prev <= |text|
    ensures Concat(CommaParts(text, prev)) == text[prev..]
    decreases |text| - prev
  {
    var c := NextComma(text, prev);
    if c == |text| {
      var t := text[prev..];
      assert CommaParts(text, prev) == [t];
      assert [t][1..] == [];
      assert t + [] == t;
    } else {
      CommaPartsStep(text, prev, c + 1);
      CommaPartsConcat(text, c + 1);
      var part := text[prev..c + 1];
      assert ([part] + CommaParts(text, c + 1))[1..] == CommaParts(text, c + 1);
      assert text[prev..] == part + text[c + 1..];
    }
  }

  /** The segments hold every visible character of the sentence, in order. */
  lemma SegmentsText(text: string)
    ensures NonSpace(Concat(Segments(text))) == NonSpace(text)
  {
    StripNonEmptyText(CommaParts(text, 0));
    CommaPartsConcat(text, 0);
    assert text[0..] == text;
  }

  // ---------- chunks ----------

  /** A chunk of split_long_sentence: within budget, stripped, non-empty, validly tagged, never `sentence`. */
  predicate IsLongChunk(p: Piece, maxLen: nat) {
    Bounded(p.chunk, maxLen) && ValidRule(p.rule) && p.rule.base != Sentence
  }

  predicate LongChunkList(ps: seq<Piece>, maxLen: nat) {
    forall i :: 0 <= i < |ps| ==> IsLongChunk(ps[i], maxLen)
  }

  lemma LongChunkListAppend(a: seq<Piece>, b: seq<Piece>, maxLen: nat)
    requires LongChunkList(a, maxLen) && LongChunkList(b, maxLen)
    ensures LongChunkList(a + b, maxLen)
  {
    forall i | 0 <= i < |a + b|
      ensures IsLongChunk((a + b)[i], maxLen)
    {
      if i >= |a| {
        assert (a + b)[i] == b[i - |a|];
      }
    }
  }

  lemma SubordinatorLongChunks(text: string, maxLen: nat)
    requires 1 <= maxLen
    ensures LongChunkList(SubordinatorPieces(text, maxLen), maxLen)
  {
    SubordinatorPiecesShape(text, maxLen);
  }

  lemma {:induction false} CommaFirstPiecesShape(segments: seq<string>, maxLen: nat)
    requires 1 <= maxLen
    requires forall j :: 0 <= j < |segments| ==> segments[j] != [] && Trimmed(segments[j])
    ensures LongChunkList(CommaFirstPieces(segments, maxLen), maxLen)
  {
    if segments != [] {
      var seg := segments[0];
      if |seg| > maxLen {
        SubordinatorLongChunks(seg, maxLen);
      }
      CommaFirstPiecesShape(segments[1..], maxLen);
      var here := SegmentPieces(seg, maxLen);
      LongChunkListAppend(here, CommaFirstPieces(segments[1..], maxLen), maxLen);
    }
  }

  /**
   * Lines 232-272: every chunk is non-empty, stripped, within max_len and
   * validly tagged (`comma_first` or one of the subordinator splitter's tags),
   * never `sentence`.
   */
  lemma LongSentenceShape(text: string, maxLen: nat)
    requires 1 <= maxLen
    ensures LongChunkList(LongSentencePieces(text, maxLen), maxLen)
  {
    if CommaPositions(text) != [] {
      SegmentsShape(text);
      CommaFirstPiecesShape(Segments(text), maxLen);
    } else {
      SubordinatorLongChunks(text, maxLen);
    }
  }

  lemma {:induction false} CommaFirstPiecesText(segments: seq<string>, maxLen: nat)
    requires 1 <= maxLen
    ensures NonSpace(Joined(CommaFirstPieces(segments, maxLen))) == NonSpace(Concat(segments))
  {
    if segments != [] {
      var seg := segments[0];
      var here := SegmentPieces(seg, maxLen);
      if |seg| <= maxLen {
        JoinedOptional(seg, Rule(CommaFirst, None));
      } else {
        SubordinatorPiecesText(seg, maxLen);
      }
      CommaFirstPiecesText(segments[1..], maxLen);
      JoinedAppendNonSpace(here, CommaFirstPieces(segments[1..], maxLen));
      NonSpaceAppend(seg, Concat(segments[1..]));
    }
  }

  /** A sentence with a comma is cut at its commas first; one without goes straight to the subordinator split. */
  lemma LongSentenceRoute(text: string, maxLen: nat)
    requires 1 <= maxLen
    ensures ',' in text ==> LongSentencePieces(text, maxLen) == CommaFirstPieces(Segments(text), maxLen)
    ensures ',' !in text ==> LongSentencePieces(text, maxLen) == SubordinatorPieces(text, maxLen)
  {
    if ',' in text {
      CommaPositionsSpec(text);
      var p: nat :| p < |text| && text[p] == ',';
      assert p in CommaPositions(text);
    } else {
      CommasFromNext(text, 0, NextComma(text, 0));
    }
  }

  /** A `comma_first` chunk is exactly a segment that fits: emitted unchanged, and no other chunk carries that tag. */
  lemma {:induction false} CommaFirstExactly(segments: seq<string>, maxLen: nat, s: string)
    requires 1 <= maxLen
    ensures Piece(s, Rule(CommaFirst, None)) in CommaFirstPieces(segments, maxLen)
      <==> s in segments && |s| <= maxLen
  {
    if segments != [] {
      var seg := segments[0];
      var here := SegmentPieces(seg, maxLen);
      var rest := CommaFirstPieces(segments[1..], maxLen);
      CommaFirstExactly(segments[1..], maxLen, s);
      SegmentPiecesCommaFirst(seg, maxLen, s);
      assert CommaFirstPieces(segments, maxLen) == here + rest;
      InConcat(Piece(s, Rule(CommaFirst, None)), here, rest);
      assert s in segments <==> s == seg || s in segments[1..] by {
        assert segments == [seg] + segments[1..];
      }
    }
  }

  lemma SegmentPiecesCommaFirst(seg: string, maxLen: nat, s: string)
    requires 1 <= maxLen
    ensures Piece(s, Rule(CommaFirst, None)) in SegmentPieces(seg, maxLen) <==> s == seg && |seg| <= maxLen
  {
    if |seg| > maxLen {
      SubordinatorPiecesShape(seg, maxLen);
    }
  }

  lemma InConcat<T>(x: T, a: seq<T>, b: seq<T>)
    ensures x in a + b <==> x in a || x in b
  {
  }

  /** The chunks hold every visible character of the sentence, in order. */
  lemma LongSentenceText(text: string, maxLen: nat)
    requires 1 <= maxLen
    ensures NonSpace(Joined(LongSentencePieces(text, maxLen))) == NonSpace(text)
  {
    if CommaPositions(text) != [] {
      CommaFirstPiecesText(Segments(text), maxLen);
      SegmentsText(text);
    } else {
      SubordinatorPiecesText(text, maxLen);
    }
  }
}
