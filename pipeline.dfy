/**
 * The assembler: `process_paragraph` (chunk_tts.py:351-381) turns the
 * sentences of a paragraph into pieces, and `chunk_text`
 * (chunk_tts.py:386-417) normalises the text, splits it into paragraphs,
 * processes each one, and strips the chunks and stamps their lengths.
 */
module Pipeline {
  import opened Text
  import opened Rules
  import opened Normalize
  import opened NormalForm
  import opened Splitters
  import opened LongSentence

  /** MAX_LEN_DEFAULT, chunk_tts.py:33, the budget when the caller gives none. */
  const MaxLenDefault: nat := 200

  // ---------- process_paragraph ----------

  /** Lines 366-379 for one sentence: stripped, skipped when blank, kept whole when within budget. */
  function SentencePieces(sentence: string, maxLen: nat): seq<Piece>
    requires 1 <= maxLen
  {
    var s := Strip(sentence);
    if s == [] then []
    else if |s| <= maxLen then [Piece(s, Rule(Sentence, None))]
    else LongSentencePieces(s, maxLen)
  }

  function SentencesPieces(sentences: seq<string>, maxLen: nat): seq<Piece>
    requires 1 <= maxLen
  {
    if sentences == [] then []
    else SentencePieces(sentences[0], maxLen) + SentencesPieces(sentences[1..], maxLen)
  }

  /** `process_paragraph(paragraph, max_len)`. */
  function ParagraphPieces(paragraph: string, maxLen: nat): seq<Piece>
    requires 1 <= maxLen
  {
    SentencesPieces(SplitIntoSentences(paragraph), maxLen)
  }

  /** Lines 351-381. */
  method ProcessParagraph(paragraph: string, maxLen: nat) returns (chunks: seq<Piece>)
    requires maxLen >= 1
    ensures chunks == ParagraphPieces(paragraph, maxLen)
  {
    var sentences := SplitIntoSentences(paragraph);
    chunks := [];
    for idx := 0 to |sentences|
      invariant chunks + SentencesPieces(sentences[idx..], maxLen) == SentencesPieces(sentences, maxLen)
    {
      var sentText := Strip(sentences[idx]);
      ghost var before := chunks;
      if sentText == [] {
      } else if |sentText| <= maxLen {
        chunks := chunks + [Piece(sentText, Rule(Sentence, None))];
      } else {
        var clauseChunks := SplitLongSentence(sentText, maxLen);
        chunks := chunks + clauseChunks;
      }
      assert sentences[idx..][1..] == sentences[idx + 1..];
      AppendAssoc(before, SentencePieces(sentences[idx], maxLen), SentencesPieces(sentences[idx + 1..], maxLen));
    }
    assert sentences[|sentences|..] == [];
  }

  // ---------- chunk_text ----------

  /** Lines 400-402: the pieces of every paragraph, in order. */
  function ParagraphsPieces(paragraphs: seq<string>, maxLen: nat): seq<Piece>
    requires 1 <= maxLen
  {
    if paragraphs == [] then []
    else ParagraphPieces(paragraphs[0], maxLen) + ParagraphsPieces(paragraphs[1..], maxLen)
  }

  /** Lines 406-415 for one chunk: stripped, dropped when blank, stamped with its length. */
  function Formatted(p: Piece): seq<Record> {
    var s := Strip(p.chunk);
    if s == [] then [] else [Record(s, p.rule, |s|)]
  }

  /** The final formatting, lines 404-415. */
  function Finalized(ps: seq<Piece>): seq<Record> {
    if ps == [] then [] else Formatted(ps[0]) + Finalized(ps[1..])
  }

  /** `chunk_text(text, max_len)`. */
  function Chunks(text: string, maxLen: nat): seq<Record>
    requires 1 <= maxLen
  {
    Finalized(ParagraphsPieces(SplitIntoParagraphs(Normalized(text)), maxLen))
  }

  /** Lines 386-417. */
  method ChunkText(text: string, maxLen: nat) returns (finalChunks: seq<Record>)
    requires maxLen >= 1
    ensures finalChunks == Chunks(text, maxLen)
  {
    var normalized := NormalizeForTts(text);
    var paragraphs := SplitIntoParagraphs(normalized);
    var allChunks := ProcessParagraphs(paragraphs, maxLen);
    finalChunks := FinalFormatting(allChunks);
  }

  /** Lines 398-402, the loop over the paragraphs. */
  method ProcessParagraphs(paragraphs: seq<string>, maxLen: nat) returns (allChunks: seq<Piece>)
    requires maxLen >= 1
    ensures allChunks == ParagraphsPieces(paragraphs, maxLen)
  {
    allChunks := [];
    for idx := 0 to |paragraphs|
      invariant allChunks + ParagraphsPieces(paragraphs[idx..], maxLen) == ParagraphsPieces(paragraphs, maxLen)
    {
      ghost var before := allChunks;
      var paraChunks := ProcessParagraph(paragraphs[idx], maxLen);
      allChunks := allChunks + paraChunks;
      assert paragraphs[idx..][1..] == paragraphs[idx + 1..];
      AppendAssoc(before, paraChunks, ParagraphsPieces(paragraphs[idx + 1..], maxLen));
    }
    assert paragraphs[|paragraphs|..] == [];
  }

  /** Lines 404-415, the loop over the collected chunks. */
  method FinalFormatting(allChunks: seq<Piece>) returns (finalChunks: seq<Record>)
    ensures finalChunks == Finalized(allChunks)
  {
    finalChunks := [];
    for idx := 0 to |allChunks|
      invariant finalChunks + Finalized(allChunks[idx..]) == Finalized(allChunks)
    {
      var ch := allChunks[idx];
      var chunkTextStr := Strip(ch.chunk);
      ghost var before := finalChunks;
      if chunkTextStr != [] {
        finalChunks := finalChunks + [Record(chunkTextStr, ch.rule, |chunkTextStr|)];
      }
      assert finalChunks == before + Formatted(ch);
      assert allChunks[idx..][1..] == allChunks[idx + 1..];
      AppendAssoc(before, Formatted(ch), Finalized(allChunks[idx + 1..]));
    }
    assert allChunks[|allChunks|..] == [];
  }

  // ---------- shape of the pieces and records ----------

  /** A piece the assembler can emit: within budget, stripped, non-empty, validly tagged. */
  predicate IsChunk(p: Piece, maxLen: nat) {
    Bounded(p.chunk, maxLen) && ValidRule(p.rule)
  }

  predicate ChunkList(ps: seq<Piece>, maxLen: nat) {
    forall i :: 0 <= i < |ps| ==> IsChunk(ps[i], maxLen)
  }

  lemma ChunkListAppend(a: seq<Piece>, b: seq<Piece>, maxLen: nat)
    requires ChunkList(a, maxLen) && ChunkList(b, maxLen)
    ensures ChunkList(a + b, maxLen)
  {
    forall i | 0 <= i < |a + b|
      ensures IsChunk((a + b)[i], maxLen)
    {
      if i >= |a| {
        assert (a + b)[i] == b[i - |a|];
      }
    }
  }

  /** Lines 366-379: a sentence's pieces are chunks of the budget. */
  lemma SentencePiecesShape(sentence: string, maxLen: nat)
    requires 1 <= maxLen
    ensures ChunkList(SentencePieces(sentence, maxLen), maxLen)
  {
    var s := Strip(sentence);
    if s != [] && |s| > maxLen {
      LongSentenceShape(s, maxLen);
    }
  }

  lemma {:induction false} SentencesPiecesShape(sentences: seq<string>, maxLen: nat)
    requires 1 <= maxLen
    ensures ChunkList(SentencesPieces(sentences, maxLen), maxLen)
  {
    if sentences != [] {
      SentencePiecesShape(sentences[0], maxLen);
      SentencesPiecesShape(sentences[1..], maxLen);
      ChunkListAppend(SentencePieces(sentences[0], maxLen), SentencesPieces(sentences[1..], maxLen), maxLen);
    }
  }

  /** Lines 351-381: every chunk of a paragraph is non-empty, stripped, within max_len and validly tagged. */
  lemma ParagraphPiecesShape(paragraph: string, maxLen: nat)
    requires 1 <= maxLen
    ensures ChunkList(ParagraphPieces(paragraph, maxLen), maxLen)
  {
    SentencesPiecesShape(SplitIntoSentences(paragraph), maxLen);
  }

  lemma {:induction false} ParagraphsPiecesShape(paragraphs: seq<string>, maxLen: nat)
    requires 1 <= maxLen
    ensures ChunkList(ParagraphsPieces(paragraphs, maxLen), maxLen)
  {
    if paragraphs != [] {
      ParagraphPiecesShape(paragraphs[0], maxLen);
      ParagraphsPiecesShape(paragraphs[1..], maxLen);
      ChunkListAppend(ParagraphPieces(paragraphs[0], maxLen), ParagraphsPieces(paragraphs[1..], maxLen), maxLen);
    }
  }

  /** The record chunk_text makes of a piece that is already stripped. */
  function Stamped(p: Piece): Record {
    Record(p.chunk, p.rule, |p.chunk|)
  }

  /**
   * Lines 405-415 on pieces that are already non-empty and stripped: the
   * final strip changes nothing and drops nothing, so each piece becomes one
   * record with the same chunk and rule and the chunk's length.
   */
  lemma {:induction false} FinalizedOfChunks(ps: seq<Piece>, maxLen: nat)
    requires ChunkList(ps, maxLen)
    ensures |Finalized(ps)| == |ps|
    ensures forall i :: 0 <= i < |ps| ==> Finalized(ps)[i] == Stamped(ps[i])
  {
    if ps != [] {
      StripOfTrimmed(ps[0].chunk);
      assert ChunkList(ps[1..], maxLen) by {
        forall i | 0 <= i < |ps[1..]|
          ensures IsChunk(ps[1..][i], maxLen)
        {
          assert ps[1..][i] == ps[i + 1];
        }
      }
      FinalizedOfChunks(ps[1..], maxLen);
      forall i | 0 <= i < |ps|
        ensures Finalized(ps)[i] == Stamped(ps[i])
      {
        if i > 0 {
          assert Finalized(ps)[i] == Finalized(ps[1..])[i - 1];
        }
      }
    }
  }

  /** A record chunk_text can return. */
  predicate IsRecord(r: Record, maxLen: nat) {
    r.chunk != [] && Trimmed(r.chunk) && r.length == |r.chunk| && 1 <= r.length <= maxLen && ValidRule(r.rule)
  }

  /**
   * Lines 386-417: every record has a non-empty, stripped chunk with
   * `length == len(chunk)` and 1 <= length <= max_len, and a valid rule; the
   * records are the pieces of the paragraphs, one for one, in order.
   */
  lemma ChunksShape(text: string, maxLen: nat)
    requires 1 <= maxLen
    ensures var ps := ParagraphsPieces(SplitIntoParagraphs(Normalized(text)), maxLen);
      |Chunks(text, maxLen)| == |ps| && forall i :: 0 <= i < |ps| ==> Chunks(text, maxLen)[i] == Stamped(ps[i])
    ensures forall i :: 0 <= i < |Chunks(text, maxLen)| ==> IsRecord(Chunks(text, maxLen)[i], maxLen)
  {
    var ps := ParagraphsPieces(SplitIntoParagraphs(Normalized(text)), maxLen);
    ParagraphsPiecesShape(SplitIntoParagraphs(Normalized(text)), maxLen);
    FinalizedOfChunks(ps, maxLen);
  }

  // ---------- no visible character is lost ----------

  function RecordsJoined(rs: seq<Record>): string {
    if rs == [] then [] else rs[0].chunk + RecordsJoined(rs[1..])
  }

  lemma {:induction false} SentencesPiecesText(sentences: seq<string>, maxLen: nat)
    requires 1 <= maxLen
    ensures NonSpace(Joined(SentencesPieces(sentences, maxLen))) == NonSpace(Concat(sentences))
  {
    if sentences != [] {
      var s := Strip(sentences[0]);
      NonSpaceStrip(sentences[0]);
      if s == [] {
        assert SentencePieces(sentences[0], maxLen) == [];
      } else if |s| <= maxLen {
        JoinedOptional(s, Rule(Sentence, None));
      } else {
        LongSentenceText(s, maxLen);
      }
      SentencesPiecesText(sentences[1..], maxLen);
      JoinedAppendNonSpace(SentencePieces(sentences[0], maxLen), SentencesPieces(sentences[1..], maxLen));
      NonSpaceAppend(sentences[0], Concat(sentences[1..]));
    }
  }

  /** The chunks of a paragraph hold its visible characters, in order. */
  lemma ParagraphPiecesText(paragraph: string, maxLen: nat)
    requires 1 <= maxLen
    ensures NonSpace(Joined(ParagraphPieces(paragraph, maxLen))) == NonSpace(paragraph)
  {
    SentencesPiecesText(SplitIntoSentences(paragraph), maxLen);
    SentencesText(paragraph);
  }

  lemma {:induction false} ParagraphsPiecesText(paragraphs: seq<string>, maxLen: nat)
    requires 1 <= maxLen
    ensures NonSpace(Joined(ParagraphsPieces(paragraphs, maxLen))) == NonSpace(Concat(paragraphs))
  {
    if paragraphs != [] {
      ParagraphPiecesText(paragraphs[0], maxLen);
      ParagraphsPiecesText(paragraphs[1..], maxLen);
      JoinedAppendNonSpace(ParagraphPieces(paragraphs[0], maxLen), ParagraphsPieces(paragraphs[1..], maxLen));
      NonSpaceAppend(paragraphs[0], Concat(paragraphs[1..]));
    }
  }

  /** The final formatting loses no visible character. */
  lemma {:induction false} FinalizedText(ps: seq<Piece>)
    ensures NonSpace(RecordsJoined(Finalized(ps))) == NonSpace(Joined(ps))
  {
    if ps != [] {
      var s := Strip(ps[0].chunk);
      var here := Formatted(ps[0]);
      var rest := Finalized(ps[1..]);
      FinalizedText(ps[1..]);
      NonSpaceStrip(ps[0].chunk);
      if s != [] {
        assert (here + rest)[0] == here[0] && (here + rest)[1..] == rest;
        NonSpaceAppend(s, RecordsJoined(rest));
      } else {
        assert here + rest == rest;
      }
      NonSpaceAppend(ps[0].chunk, Joined(ps[1..]));
    }
  }

  /**
   * Lines 386-417: the chunks, laid end to end, hold exactly the visible
   * characters of the normalised text in order, and hence every letter,
   * digit and punctuation mark of the input other than dashes and commas.
   */
  lemma ChunksText(text: string, maxLen: nat)
    requires 1 <= maxLen
    ensures NonSpace(RecordsJoined(Chunks(text, maxLen))) == NonSpace(Normalized(text))
    ensures Skeleton(RecordsJoined(Chunks(text, maxLen))) == Skeleton(text)
  {
    var n := Normalized(text);
    var paragraphs := SplitIntoParagraphs(n);
    FinalizedText(ParagraphsPieces(paragraphs, maxLen));
    ParagraphsPiecesText(paragraphs, maxLen);
    ParagraphsText(n);
    SkeletonOfSameNonSpace(RecordsJoined(Chunks(text, maxLen)), n);
    NormalizedShape(text);
  }

  // ---------- paragraphs are erased ----------

  /**
   * Lines 148-151 and 154-163: normalisation leaves no newline, so the
   * normalised text is one paragraph, or none when it is empty.
   */
  lemma ParagraphsErased(text: string)
    ensures var n := Normalized(text);
      SplitIntoParagraphs(n) == if n == [] then [] else [n]
  {
    var n := Normalized(text);
    NormalizedShape(text);
    StripOfTrimmed(n);
    if n != [] {
      ParagraphPartsNoNewline(n, 0, 0);
      assert n[0..] == n;
    }
  }

  // ---------- sentences within budget ----------

  /**
   * Lines 366-375 for a list of stripped sentences: the piece
   * (s, "sentence") is emitted exactly when s is one of the sentences and
   * fits the budget; the long-sentence splitter never uses that rule.
   */
  lemma {:induction false} SentenceRuleExactly(sentences: seq<string>, maxLen: nat, s: string)
    requires 1 <= maxLen
    requires forall j :: 0 <= j < |sentences| ==> Trimmed(sentences[j])
    ensures Piece(s, Rule(Sentence, None)) in SentencesPieces(sentences, maxLen)
      <==> s in sentences && s != [] && |s| <= maxLen
  {
    if sentences != [] {
      var t := sentences[0];
      StripOfTrimmed(t);
      var here := SentencePieces(t, maxLen);
      var rest := SentencesPieces(sentences[1..], maxLen);
      assert forall j :: 0 <= j < |sentences[1..]| ==> Trimmed(sentences[1..][j]) by {
        forall j | 0 <= j < |sentences[1..]|
          ensures Trimmed(sentences[1..][j])
        {
          assert sentences[1..][j] == sentences[j + 1];
        }
      }
      SentenceRuleExactly(sentences[1..], maxLen, s);
      var p := Piece(s, Rule(Sentence, None));
      if t != [] && |t| > maxLen {
        LongSentenceShape(t, maxLen);
        assert p !in here;
      }
      assert p in here + rest <==> p in here || p in rest;
      assert s in sentences <==> s == t || s in sentences[1..] by {
        assert sentences == [t] + sentences[1..];
      }
    }
  }

  /** The final formatting keeps a stripped piece exactly when it is among the pieces. */
  lemma FinalizedMember(ps: seq<Piece>, maxLen: nat, p: Piece)
    requires ChunkList(ps, maxLen)
    ensures Stamped(p) in Finalized(ps) <==> p in ps
  {
    FinalizedOfChunks(ps, maxLen);
    if Stamped(p) in Finalized(ps) {
      var i :| 0 <= i < |ps| && Finalized(ps)[i] == Stamped(p);
      assert ps[i] == p;
    }
    if p in ps {
      var i :| 0 <= i < |ps| && ps[i] == p;
      assert Finalized(ps)[i] == Stamped(p);
    }
  }

  /** A text that is a single paragraph, or none when empty, has the pieces of its sentences. */
  lemma SingleParagraphPieces(n: string, maxLen: nat)
    requires 1 <= maxLen
    requires SplitIntoParagraphs(n) == if n == [] then [] else [n]
    ensures ParagraphsPieces(SplitIntoParagraphs(n), maxLen) == SentencesPieces(SplitIntoSentences(n), maxLen)
  {
    if n == [] {
      SentencesShape(n);
    } else {
      var single := [n];
      assert single[1..] == [];
      assert ParagraphsPieces(single, maxLen) == ParagraphPieces(n, maxLen) + ParagraphsPieces([], maxLen);
    }
  }

  /** After normalisation, chunk_text's pieces are those of the sentences of the normalised text. */
  lemma PiecesOfNormalized(text: string, maxLen: nat)
    requires 1 <= maxLen
    ensures var n := Normalized(text);
      ParagraphsPieces(SplitIntoParagraphs(n), maxLen) == SentencesPieces(SplitIntoSentences(n), maxLen)
  {
    ParagraphsErased(text);
    SingleParagraphPieces(Normalized(text), maxLen);
  }

  /**
   * Lines 366-375 and 405-415, end to end: chunk_text returns the record
   * (s, "sentence", len(s)) exactly when s is a sentence of the normalised
   * text within max_len; such a sentence is emitted unchanged.
   */
  lemma SentenceRecords(text: string, maxLen: nat, s: string)
    requires 1 <= maxLen
    ensures Record(s, Rule(Sentence, None), |s|) in Chunks(text, maxLen)
      <==> s in SplitIntoSentences(Normalized(text)) && |s| <= maxLen
  {
    var n := Normalized(text);
    var sentences := SplitIntoSentences(n);
    var ps := ParagraphsPieces(SplitIntoParagraphs(n), maxLen);
    PiecesOfNormalized(text, maxLen);
    SentencesShape(n);
    SentenceRuleExactly(sentences, maxLen, s);
    ParagraphsPiecesShape(SplitIntoParagraphs(n), maxLen);
    FinalizedMember(ps, maxLen, Piece(s, Rule(Sentence, None)));
  }
}
