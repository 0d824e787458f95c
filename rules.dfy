/**
 * Rule tags and the records of chunk_tts.py.  A splitter returns a list of
 * {"chunk", "rule"} dictionaries (Piece); chunk_text adds "length" (Record).
 * The source builds a tag as a string, `f"{base_rule}+tail"` and so on; here
 * it is a base rule plus the optional cut the fallback splitter used, and
 * RuleName spells it the way the source does.
 */
module Rules {
  import opened Text

  datatype Base = Sentence | CommaFirst | ClauseSubordinator | LengthFallback

  /** The cut that `fallback_split_by_commas_and_conjs` used for a chunk. */
  datatype Suffix = Tail | CommaSplit | ConjSplit | LengthLimit

  datatype Rule = Rule(base: Base, suffix: Option<Suffix>)

  datatype Piece = Piece(chunk: string, rule: Rule)

  datatype Record = Record(chunk: string, rule: Rule, length: int)

  function BaseName(b: Base): string {
    match b
    case Sentence => "sentence"
    case CommaFirst => "comma_first"
    case ClauseSubordinator => "clause_subordinator"
    case LengthFallback => "length_fallback"
  }

  function SuffixName(s: Suffix): string {
    match s
    case Tail => "tail"
    case CommaSplit => "comma_split"
    case ConjSplit => "conj_split"
    case LengthLimit => "length_limit"
  }

  /** The tag as the source writes it into the "rule" field. */
  function RuleName(r: Rule): string {
    match r.suffix
    case None => BaseName(r.base)
    case Some(s) => BaseName(r.base) + "+" + SuffixName(s)
  }

  lemma BaseNameShape(b: Base)
    ensures '+' !in BaseName(b)
    ensures b == Sentence <==> |BaseName(b)| == 8
    ensures b == CommaFirst <==> |BaseName(b)| == 11
    ensures b == ClauseSubordinator <==> |BaseName(b)| == 19
    ensures b == LengthFallback <==> |BaseName(b)| == 15
  {
  }

  lemma SuffixNameShape(s: Suffix)
    ensures s == Tail <==> |SuffixName(s)| == 4
    ensures s == CommaSplit <==> |SuffixName(s)| == 11
    ensures s == ConjSplit <==> |SuffixName(s)| == 10
    ensures s == LengthLimit <==> |SuffixName(s)| == 12
  {
  }

  /** Distinct rules are written as distinct strings, so the "rule" field names its provenance unambiguously. */
  lemma RuleNameInjective(r1: Rule, r2: Rule)
    requires RuleName(r1) == RuleName(r2)
    ensures r1 == r2
  {
    var n := RuleName(r1);
    var b1, b2 := BaseName(r1.base), BaseName(r2.base);
    BaseNameShape(r1.base);
    BaseNameShape(r2.base);
    if r1.suffix.Some? {
      assert n[|b1|] == '+';
    }
    if r2.suffix.Some? {
      assert n[|b2|] == '+';
    }
    if r1.suffix.Some? && r2.suffix.Some? {
      SuffixNameShape(r1.suffix.value);
      SuffixNameShape(r2.suffix.value);
    }
  }

  /** Every tag the chunker can produce: a whole-span rule, or a fallback cut whose base is one the source passes as base_rule. */
  predicate ValidRule(r: Rule) {
    match r.suffix
    case None => r.base != LengthFallback
    case Some(_) => r.base == ClauseSubordinator || r.base == LengthFallback
  }

  /** A chunk the source can emit: non-empty, stripped and within the budget. */
  predicate Bounded(s: string, maxLen: int) {
    s != [] && Trimmed(s) && |s| <= maxLen
  }

  predicate AllBounded(ps: seq<Piece>, maxLen: int) {
    forall i :: 0 <= i < |ps| ==> Bounded(ps[i].chunk, maxLen) && ValidRule(ps[i].rule)
  }

  /** The chunk texts laid end to end. */
  function Joined(ps: seq<Piece>): string {
    if ps == [] then [] else ps[0].chunk + Joined(ps[1..])
  }

  lemma {:induction false} JoinedAppend(a: seq<Piece>, b: seq<Piece>)
    ensures Joined(a + b) == Joined(a) + Joined(b)
  {
    if a != [] {
      assert (a + b)[0] == a[0] && (a + b)[1..] == a[1..] + b;
      JoinedAppend(a[1..], b);
    } else {
      assert a + b == b;
    }
  }

  /** A splitter appends a stripped segment as one piece unless it is empty; either way the text laid out is the segment. */
  lemma JoinedOptional(segment: string, rule: Rule)
    ensures Joined(if segment != [] then [Piece(segment, rule)] else []) == segment
  {
    if segment != [] {
      assert [Piece(segment, rule)][1..] == [];
      assert segment + [] == segment;
    }
  }

  /** NonSpace of a concatenation of pieces splits piece by piece. */
  lemma JoinedAppendNonSpace(a: seq<Piece>, b: seq<Piece>)
    ensures NonSpace(Joined(a + b)) == NonSpace(Joined(a)) + NonSpace(Joined(b))
  {
    JoinedAppend(a, b);
    NonSpaceAppend(Joined(a), Joined(b));
  }
}
