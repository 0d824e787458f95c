/**
 * `normalize_for_tts` (chunk_tts.py:76-151): four passes over the text.
 *   1. an aside between two dashes on one line becomes ", aside, "
 *   2. "Word-Marker", with Marker a discourse marker, becomes "Word, Marker"
 *   3. every other dash becomes a hyphen between alphanumerics, else a comma
 *   4. whitespace and commas are tidied and the text is stripped
 * Passes 1, 2 and 4 are regular-expression substitutions, modelled as
 * left-to-right scanners; pass 3 is a loop over a list of characters.
 */
module Normalize {
  import opened Text

  /** DISCOURSE, chunk_tts.py:53-71. */
  const Discourse: set<string> := {
    "however", "therefore", "moreover", "instead", "nevertheless", "nonetheless",
    "furthermore", "meanwhile", "particularly", "especially", "otherwise",
    "similarly", "consequently", "thus", "indeed", "additionally", "though"
  }

  predicate DashFree(s: string) {
    forall k :: 0 <= k < |s| ==> !IsDash(s[k])
  }

  // ---------- pass 1: bracketed asides ----------

  /**
   * The dash that closes an aside opened just before `k`: the first dash at or
   * after k, provided no newline comes before it.  This is what the lazy
   * `([^–—\n]*?)` followed by `[-–—]` finds: the inner part stops at the
   * first dash of any kind, and it may not cross a line.
   */
  function ClosingDash(s: string, k: nat): (r: Option<nat>)
    requires k <= |s|
    ensures r.Some? ==> k <= r.value < |s| && IsDash(s[r.value])
    ensures r.Some? ==> forall m :: k <= m < r.value ==> !IsDash(s[m]) && s[m] != '\n'
    ensures r.None? ==> forall m :: k <= m < |s| && IsDash(s[m]) ==> '\n' in s[k..m]
    decreases |s| - k
  {
    if k == |s| || s[k] == '\n' then None
    else if IsDash(s[k]) then Some(k)
    else ClosingDash(s, k + 1)
  }

  /** What `replace_aside` returns for the match dash + inner + dash. */
  function AsideReplacement(inner: string, whole: string): string {
    if ' ' in Strip(inner) then ", " + Strip(inner) + ", " else whole
  }

  /** Pass 1, `re.sub(r"[-–—]([^–—\n]*?)[-–—]", replace_aside, text)`. */
  function RewriteAsides(s: string): string
    decreases |s|
  {
    if s == [] then []
    else if IsDash(s[0]) && ClosingDash(s, 1).Some? then
      var j := ClosingDash(s, 1).value;
      AsideReplacement(s[1..j], s[..j + 1]) + RewriteAsides(s[j + 1..])
    else [s[0]] + RewriteAsides(s[1..])
  }

  // ---------- pass 2: Word-DiscourseMarker ----------

  /** The end of the run of ASCII letters that starts at i. */
  function LetterRunEnd(s: string, i: nat): (j: nat)
    requires i <= |s|
    ensures i <= j <= |s|
    ensures forall k :: i <= k < j ==> IsLetter(s[k])
    ensures j < |s| ==> !IsLetter(s[j])
    decreases |s| - i
  {
    if i < |s| && IsLetter(s[i]) then LetterRunEnd(s, i + 1) else i
  }

  /** A match of `([A-Za-z]+)([-–—])([A-Za-z]+)\b` at the start of s: the dash's index and the match's end. */
  datatype WordDash = WordDash(dash: nat, end: nat)

  /**
   * The match at the start of s, given that a word boundary precedes it.
   * Both letter runs are maximal: a shorter left run is followed by a letter,
   * not a dash, and a shorter right run by a letter, which is no boundary.
   */
  function WordDashAt(s: string): (r: Option<WordDash>)
    ensures r.Some? ==> 0 < r.value.dash < r.value.dash + 1 < r.value.end <= |s|
    ensures r.Some? ==> IsDash(s[r.value.dash])
    ensures r.Some? ==> forall k :: 0 <= k < r.value.end && k != r.value.dash ==> IsLetter(s[k])
    ensures r.Some? ==> r.value.end == |s| || !IsWordChar(s[r.value.end])
  {
    var e := LetterRunEnd(s, 0);
    if 0 < e && e + 1 < |s| && IsDash(s[e]) && IsLetter(s[e + 1]) then
      var b := LetterRunEnd(s, e + 1);
      if b == |s| || !IsWordChar(s[b]) then Some(WordDash(e, b)) else None
    else None
  }

  /** What `replace_word_dash_discourse` returns for the match m at the start of s. */
  function DiscourseReplacement(s: string, m: WordDash): string
    requires m.dash < m.end <= |s|
  {
    var right := s[m.dash + 1..m.end];
    if LowerStr(right) in Discourse then s[..m.dash] + ", " + right else s[..m.end]
  }

  /**
   * Pass 2, `re.sub(r"\b([A-Za-z]+)([-–—])([A-Za-z]+)\b", ...)`.  `prevWord`
   * says that the character before s is a word character, in which case no
   * `\b` stands before s[0] and no match can start there.
   */
  function RewriteDiscourseFrom(s: string, prevWord: bool): string
    decreases |s|
  {
    if s == [] then []
    else if !prevWord && WordDashAt(s).Some? then
      var m := WordDashAt(s).value;
      DiscourseReplacement(s, m) + RewriteDiscourseFrom(s[m.end..], true)
    else [s[0]] + RewriteDiscourseFrom(s[1..], IsWordChar(s[0]))
  }

  function RewriteDiscourse(s: string): string {
    RewriteDiscourseFrom(s, false)
  }

  // ---------- pass 3: the remaining dashes ----------

  /**
   * What the loop body does with text[i], given the characters `chars` built
   * from text[..i].  A dash between alphanumerics becomes '-'; any other dash
   * becomes a pause: a trailing space is overwritten by a comma and a space
   * follows it, a trailing comma gets a space unless a plain space comes next,
   * otherwise ", " is appended.
   */
  function DashStep(text: string, i: nat, chars: string): string
    requires i < |text|
  {
    var ch := text[i];
    if !IsDash(ch) then chars + [ch]
    else
      var prev := if i > 0 then text[i - 1] else ' ';
      var nxt := if i + 1 < |text| then text[i + 1] else ' ';
      if IsAlnum(prev) && IsAlnum(nxt) then chars + ['-']
      else if |chars| > 0 && chars[|chars| - 1] == ' ' then chars[|chars| - 1 := ','] + [' ']
      else if |chars| > 0 && chars[|chars| - 1] == ',' then (if nxt != ' ' then chars + [' '] else chars)
      else chars + [',', ' ']
  }

  /** The `chars` list after the first n characters of text. */
  function ReclassifyPrefix(text: string, n: nat): string
    requires n <= |text|
  {
    if n == 0 then [] else DashStep(text, n - 1, ReclassifyPrefix(text, n - 1))
  }

  /** Pass 3, `"".join(chars)` once every character has been seen. */
  function Reclassified(text: string): string {
    ReclassifyPrefix(text, |text|)
  }

  /** Lines 121-145: the loop over the characters, with `chars[-1] = ","` as an in-place update. */
  method ReclassifyDashes(text: string) returns (r: string)
    ensures r == Reclassified(text)
  {
    var chars: seq<char> := [];
    var n := |text|;
    for i := 0 to n
      invariant chars == ReclassifyPrefix(text, i)
    {
      var ch := text[i];
      if IsDash(ch) {
        var prev := if i > 0 then text[i - 1] else ' ';
        var nxt := if i + 1 < n then text[i + 1] else ' ';
        if IsAlnum(prev) && IsAlnum(nxt) {
          chars := chars + ['-'];
        } else if |chars| > 0 && chars[|chars| - 1] == ' ' {
          chars := chars[|chars| - 1 := ','];
          chars := chars + [' '];
        } else if |chars| > 0 && chars[|chars| - 1] == ',' {
          if nxt != ' ' {
            chars := chars + [' '];
          }
        } else {
          chars := chars + [',', ' '];
        }
      } else {
        chars := chars + [ch];
      }
    }
    r := chars;
  }

  // ---------- pass 4: whitespace and commas ----------

  /** The whitespace run at the start of s ends in a comma. */
  predicate RunEndsInComma(s: string) {
    var e := SpaceRunEnd(s, 0);
    e < |s| && s[e] == ','
  }

  /** `re.sub(r"\s+,", ",", text)`: whitespace directly before a comma goes. */
  function DropSpaceBeforeComma(s: string): string
    decreases |s|
  {
    if s == [] then []
    else if IsSpace(s[0]) && RunEndsInComma(s) then DropSpaceBeforeComma(s[1..])
    else [s[0]] + DropSpaceBeforeComma(s[1..])
  }

  /**
   * `re.sub(r",\s*", ", ", text)`: each comma and the whitespace after it
   * become ", ".  `afterComma` says that s follows such a comma, so its
   * leading whitespace is part of that match.
   */
  function SpaceAfterComma(s: string, afterComma: bool): string
    decreases |s|
  {
    if s == [] then []
    else if s[0] == ',' then ", " + SpaceAfterComma(s[1..], true)
    else if afterComma && IsSpace(s[0]) then SpaceAfterComma(s[1..], true)
    else [s[0]] + SpaceAfterComma(s[1..], false)
  }

  /** Pass 4, lines 148-151. */
  function TidySpaces(s: string): string {
    Strip(CollapseSpaces(SpaceAfterComma(DropSpaceBeforeComma(s), false)))
  }

  /** `normalize_for_tts(text)`. */
  function Normalized(text: string): string {
    TidySpaces(Reclassified(RewriteDiscourse(RewriteAsides(text))))
  }

  /** Lines 76-151. */
  method NormalizeForTts(text: string) returns (r: string)
    ensures r == Normalized(text)
  {
    var t := RewriteAsides(text);
    t := RewriteDiscourse(t);
    t := ReclassifyDashes(t);
    r := TidySpaces(t);
  }
}
