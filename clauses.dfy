/**
 * `find_subordinator_positions` and `split_by_subordinators`
 * (chunk_tts.py:185-229): a sentence is cut in front of every whole-word,
 * case-insensitive occurrence of a subordinating marker; a clause still too
 * long goes to the fallback splitter.
 */
module Clauses {
  import opened Text
  import opened Rules
  import opened Fallback

  /** SUBORDINATORS, chunk_tts.py:36-50. */
  const Subordinators: set<string> := {
    "when", "while", "where", "with", "before", "until", "because",
    "although", "though", "since", "after", "as", "if"
  }

  /** `\b<w>\b` with re.IGNORECASE matches at i (w is lower-case letters). */
  predicate WholeWordAt(text: string, i: nat, w: string) {
    && i + |w| <= |text|
    && LowerStr(text[i..i + |w|]) == w
    && (i == 0 || !IsWordChar(text[i - 1]))
    && (i + |w| == |text| || !IsWordChar(text[i + |w|]))
  }

  /** Some subordinator matches as a whole word at i. */
  predicate SubordinatorAt(text: string, i: nat) {
    exists w :: w in Subordinators && WholeWordAt(text, i, w)
  }

  predicate Increasing(r: seq<nat>) {
    forall a, b :: 0 <= a < b < |r| ==> r[a] < r[b]
  }

  lemma PrependIncreasing(i: nat, rest: seq<nat>)
    requires Increasing(rest)
    requires forall p: nat :: p in rest ==> i < p
    ensures Increasing([i] + rest)
    ensures forall p: nat :: p in [i] + rest <==> p == i || p in rest
  {
    var r := [i] + rest;
    forall a, b | 0 <= a < b < |r|
      ensures r[a] < r[b]
    {
      assert r[b] == rest[b - 1] && rest[b - 1] in rest;
      if a > 0 {
        assert r[a] == rest[a - 1];
      }
    }
  }

  /** The match positions at or after i, in increasing order. */
  function SubordinatorsFrom(text: string, i: nat): (r: seq<nat>)
    requires i <= |text|
    ensures Increasing(r)
    ensures forall p: nat :: p in r <==> i <= p < |text| && SubordinatorAt(text, p)
    decreases |text| - i
  {
    if i == |text| then []
    else
      var rest := SubordinatorsFrom(text, i + 1);
      if SubordinatorAt(text, i) then
        PrependIncreasing(i, rest);
        [i] + rest
      else rest
  }

  /**
   * `find_subordinator_positions(text)`: `sorted(set(starts))` over every
   * subordinator's matches is the strictly increasing list of the positions
   * where some subordinator matches.
   */
  function FindSubordinatorPositions(text: string): (r: seq<nat>)
    ensures Increasing(r)
    ensures forall p: nat :: p in r <==> p < |text| && SubordinatorAt(text, p)
  {
    SubordinatorsFrom(text, 0)
  }

  /** Line 211, `starts.insert(0, 0)` unless the first match is at 0. */
  function Bounds(starts: seq<nat>): (r: seq<nat>)
    requires starts != [] && Increasing(starts)
    ensures r != [] && r[0] == 0 && Increasing(r)
    ensures forall p: nat :: p in r <==> p == 0 || p in starts
  {
    if starts[0] != 0 then [0] + starts else starts
  }

  /** The spans the match positions cut a text into lie within it. */
  lemma BoundsWithin(text: string)
    requires FindSubordinatorPositions(text) != []
    ensures ValidBounds(text, Bounds(FindSubordinatorPositions(text)))
  {
    var b := Bounds(FindSubordinatorPositions(text));
    forall j | 0 <= j < |b|
      ensures b[j] <= |text|
    {
      assert b[j] in b;
    }
  }

  /** Lines 219-227: a clause within budget is one chunk, a longer one goes to the fallback splitter. */
  function ClauseChunks(clause: string, maxLen: nat): seq<Piece>
    requires 1 <= maxLen
  {
    if clause == [] then []
    else if |clause| <= maxLen then [Piece(clause, Rule(ClauseSubordinator, None))]
    else FallbackPieces(clause, maxLen, ClauseSubordinator, 0)
  }

  /** The bounds are increasing and lie within the text. */
  predicate ValidBounds(text: string, bounds: seq<nat>) {
    Increasing(bounds) && forall j :: 0 <= j < |bounds| ==> bounds[j] <= |text|
  }

  /** The end of span k: the next bound, or the end of the text for the last span. */
  function SpanEnd(text: string, bounds: seq<nat>, k: nat): (e: nat)
    requires ValidBounds(text, bounds) && k < |bounds|
    ensures bounds[k] <= e <= |text|
  {
    if k + 1 < |bounds| then bounds[k + 1] else |text|
  }

  /** Lines 213-227 from span k on. */
  function ClausePieces(text: string, maxLen: nat, bounds: seq<nat>, k: nat): seq<Piece>
    requires 1 <= maxLen && k <= |bounds| && ValidBounds(text, bounds)
    decreases |bounds| - k
  {
    if k == |bounds| then []
    else
      ClauseChunks(Strip(text[bounds[k]..SpanEnd(text, bounds, k)]), maxLen)
      + ClausePieces(text, maxLen, bounds, k + 1)
  }

  /** `split_by_subordinators(text, max_len)`. */
  function SubordinatorPieces(text: string, maxLen: nat): seq<Piece>
    requires 1 <= maxLen
  {
    var starts := FindSubordinatorPositions(text);
    if starts == [] then FallbackPieces(text, maxLen, LengthFallback, 0)
    else
      BoundsWithin(text);
      ClausePieces(text, maxLen, Bounds(starts), 0)
  }

  /** Lines 196-211: no match sends the whole text to the fallback; otherwise the spans start at 0 and at every match. */
  method SplitBySubordinators(text: string, maxLen: nat) returns (chunks: seq<Piece>)
    requires maxLen >= 1
    ensures chunks == SubordinatorPieces(text, maxLen)
  {
    var starts := FindSubordinatorPositions(text);
    if starts == [] {
      chunks := FallbackSplit(text, maxLen, LengthFallback);
      return;
    }
    ghost var found := starts;
    if starts[0] != 0 {
      starts := [0] + starts;
    }
    assert starts == Bounds(found);
    BoundsWithin(text);
    chunks := SplitSpans(text, maxLen, starts);
  }

  /** Lines 213-229, the loop over the spans between consecutive starts. */
  method SplitSpans(text: string, maxLen: nat, starts: seq<nat>) returns (chunks: seq<Piece>)
    requires maxLen >= 1 && ValidBounds(text, starts)
    ensures chunks == ClausePieces(text, maxLen, starts, 0)
  {
    ghost var all := ClausePieces(text, maxLen, starts, 0);
    chunks := [];
    var i := 0;
    while i < |starts|
      invariant i <= |starts|
      invariant chunks + ClausePieces(text, maxLen, starts, i) == all
    {
      var start := starts[i];
      var end := if i + 1 < |starts| then starts[i + 1] else |text|;
      assert end == SpanEnd(text, starts, i);
      var clause := Strip(text[start..end]);
      ghost var before := chunks;
      var more := SplitClause(clause, maxLen);
      chunks := chunks + more;
      SpanStep(text, maxLen, starts, i, end, before, all);
      i := i + 1;
    }
  }

  /** Lines 219-227, the chunks of one stripped clause. */
  method SplitClause(clause: string, maxLen: nat) returns (more: seq<Piece>)
    requires maxLen >= 1
    ensures more == ClauseChunks(clause, maxLen)
  {
    more := [];
    if clause != [] {
      if |clause| <= maxLen {
        more := [Piece(clause, Rule(ClauseSubordinator, None))];
      } else {
        more := FallbackSplit(clause, maxLen, ClauseSubordinator);
      }
    }
  }

  /** One turn of the loop in SplitSpans keeps `chunks + ClausePieces(text, maxLen, starts, i)` fixed. */
  lemma SpanStep(text: string, maxLen: nat, starts: seq<nat>, i: nat, end: nat, before: seq<Piece>, all: seq<Piece>)
    requires 1 <= maxLen && i < |starts| && ValidBounds(text, starts) && end == SpanEnd(text, starts, i)
    requires before + ClausePieces(text, maxLen, starts, i) == all
    ensures (before + ClauseChunks(Strip(text[starts[i]..end]), maxLen)) + ClausePieces(text, maxLen, starts, i + 1) == all
  {
    AppendAssoc(before, ClauseChunks(Strip(text[starts[i]..end]), maxLen), ClausePieces(text, maxLen, starts, i + 1));
  }

  /**
   * The span boundaries: 0 first, then every match position and nothing
   * else, in increasing order; so each span but the first starts with a
   * subordinator and none holds a match after its first character.
   */
  lemma ClauseBoundsShape(text: string)
    requires FindSubordinatorPositions(text) != []
    ensures var b := Bounds(FindSubordinatorPositions(text));
      && b[0] == 0 && Increasing(b)
      && (forall j :: 0 < j < |b| ==> SubordinatorAt(text, b[j]))
      && (forall p :: 0 < p < |text| && SubordinatorAt(text, p) ==> p in b)
  {
    var b := Bounds(FindSubordinatorPositions(text));
    forall j | 0 < j < |b|
      ensures SubordinatorAt(text, b[j])
    {
      assert b[j] in b && b[j] != 0;
    }
  }

  // ---------- chunk shape ----------

  /** A piece of the subordinator splitter with the given base rule. */
  predicate IsClauseChunk(p: Piece, maxLen: nat, base: Base) {
    Bounded(p.chunk, maxLen) && ValidRule(p.rule) && p.rule.base == base
  }

  predicate ClauseChunkList(ps: seq<Piece>, maxLen: nat, base: Base) {
    forall i :: 0 <= i < |ps| ==> IsClauseChunk(ps[i], maxLen, base)
  }

  lemma ClauseChunkListAppend(a: seq<Piece>, b: seq<Piece>, maxLen: nat, base: Base)
    requires ClauseChunkList(a, maxLen, base) && ClauseChunkList(b, maxLen, base)
    ensures ClauseChunkList(a + b, maxLen, base)
  {
    forall i | 0 <= i < |a + b|
      ensures IsClauseChunk((a + b)[i], maxLen, base)
    {
      if i >= |a| {
        assert (a + b)[i] == b[i - |a|];
      }
    }
  }

  /** Fallback chunks with a base the source passes as base_rule are clause chunks. */
  lemma FallbackClauseChunks(text: string, maxLen: nat, base: Base)
    requires 1 <= maxLen && (base == ClauseSubordinator || base == LengthFallback)
    ensures ClauseChunkList(FallbackPieces(text, maxLen, base, 0), maxLen, base)
  {
    FallbackPiecesShape(text, maxLen, base, 0);
  }

  lemma ClauseChunksShape(clause: string, maxLen: nat)
    requires 1 <= maxLen && Trimmed(clause)
    ensures ClauseChunkList(ClauseChunks(clause, maxLen), maxLen, ClauseSubordinator)
  {
    if |clause| > maxLen {
      FallbackClauseChunks(clause, maxLen, ClauseSubordinator);
    }
  }

  /**
   * A plain `clause_subordinator` chunk of a clause is the whole clause, when it
   * fits in max_len; the fallback's chunks all carry a suffix.
   */
  lemma ClauseTagExactly(clause: string, maxLen: nat, s: string)
    requires 1 <= maxLen
    ensures Piece(s, Rule(ClauseSubordinator, None)) in ClauseChunks(clause, maxLen)
      <==> s == clause && clause != [] && |clause| <= maxLen
  {
    if |clause| > maxLen {
      FallbackPiecesShape(clause, maxLen, ClauseSubordinator, 0);
    }
  }

  lemma {:induction false} ClausePiecesShape(text: string, maxLen: nat, bounds: seq<nat>, k: nat)
    requires 1 <= maxLen && k <= |bounds| && ValidBounds(text, bounds)
    ensures ClauseChunkList(ClausePieces(text, maxLen, bounds, k), maxLen, ClauseSubordinator)
    decreases |bounds| - k
  {
    if k < |bounds| {
      var clause := Strip(text[bounds[k]..SpanEnd(text, bounds, k)]);
      ClauseChunksShape(clause, maxLen);
      ClausePiecesShape(text, maxLen, bounds, k + 1);
      ClauseChunkListAppend(ClauseChunks(clause, maxLen), ClausePieces(text, maxLen, bounds, k + 1), maxLen, ClauseSubordinator);
    }
  }

  /**
   * Lines 196-229: every chunk is non-empty, stripped, within max_len and
   * validly tagged; all are `clause_subordinator` or `clause_subordinator+...`
   * when some subordinator matched, and all `length_fallback+...` otherwise.
   */
  lemma SubordinatorPiecesShape(text: string, maxLen: nat)
    requires 1 <= maxLen
    ensures ClauseChunkList(SubordinatorPieces(text, maxLen), maxLen,
      if FindSubordinatorPositions(text) == [] then LengthFallback else ClauseSubordinator)
  {
    var starts := FindSubordinatorPositions(text);
    if starts == [] {
      FallbackClauseChunks(text, maxLen, LengthFallback);
    } else {
      BoundsWithin(text);
      ClausePiecesShape(text, maxLen, Bounds(starts), 0);
    }
  }

  // ---------- text preservation ----------

  lemma ClauseChunksText(clause: string, maxLen: nat)
    requires 1 <= maxLen
    ensures NonSpace(Joined(ClauseChunks(clause, maxLen))) == NonSpace(clause)
  {
    if clause != [] {
      if |clause| <= maxLen {
        JoinedOptional(clause, Rule(ClauseSubordinator, None));
      } else {
        FallbackPiecesText(clause, maxLen, ClauseSubordinator, 0);
        assert clause[0..] == clause;
      }
    }
  }

  /** A span's chunks followed by the chunks of the spans after it cover the text from the span's start. */
  lemma SpanText(text: string, a: nat, e: nat, here: seq<Piece>, rest: seq<Piece>)
    requires a <= e <= |text|
    requires NonSpace(Joined(here)) == NonSpace(text[a..e])
    requires NonSpace(Joined(rest)) == NonSpace(text[e..])
    ensures NonSpace(Joined(here + rest)) == NonSpace(text[a..])
  {
    JoinedAppendNonSpace(here, rest);
    NonSpaceSlices(text, a, e, |text|);
    assert text[a..] == text[a..|text|] && text[e..] == text[e..|text|];
  }

  lemma {:induction false} ClausePiecesText(text: string, maxLen: nat, bounds: seq<nat>, k: nat)
    requires 1 <= maxLen && k < |bounds| && ValidBounds(text, bounds)
    ensures NonSpace(Joined(ClausePieces(text, maxLen, bounds, k))) == NonSpace(text[bounds[k]..])
    decreases |bounds| - k
  {
    var e := SpanEnd(text, bounds, k);
    var span := text[bounds[k]..e];
    var here := ClauseChunks(Strip(span), maxLen);
    var rest := ClausePieces(text, maxLen, bounds, k + 1);
    ClauseChunksText(Strip(span), maxLen);
    NonSpaceStrip(span);
    if k + 1 < |bounds| {
      ClausePiecesText(text, maxLen, bounds, k + 1);
    } else {
      assert text[e..] == [];
    }
    SpanText(text, bounds[k], e, here, rest);
  }

  /** The chunks hold every visible character of the sentence, in order. */
  lemma SubordinatorPiecesText(text: string, maxLen: nat)
    requires 1 <= maxLen
    ensures NonSpace(Joined(SubordinatorPieces(text, maxLen))) == NonSpace(text)
  {
    var starts := FindSubordinatorPositions(text);
    if starts == [] {
      FallbackPiecesText(text, maxLen, LengthFallback, 0);
    } else {
      BoundsWithin(text);
      ClausePiecesText(text, maxLen, Bounds(starts), 0);
    }
    assert text[0..] == text;
  }
}
