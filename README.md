# chunk_tts in Dafny

A model of the text chunker in `chunk_tts.py`, which prepares text for
text-to-speech. `chunk_text(text, max_len)` returns an ordered list of
records `{chunk, rule, length}` in four stages:

1. **Normaliser** (`normalize_for_tts`) makes four passes:
   - an aside between two dashes on one line whose stripped text holds a space (two or more words) becomes `, aside, `; any other aside keeps its dashes;
   - `Word-Marker` becomes `Word, Marker` when `Marker` is a discourse marker;
   - every other dash becomes a hyphen if it stands between two alphanumerics, and a comma pause otherwise;
   - whitespace and commas are tidied and the text is stripped.
2. **Splitters**: the paragraph splitter cuts at blank lines, and the sentence splitter cuts after `.`, `!` or `?` followed by whitespace.
3. **Long-sentence decomposer**: a sentence longer than `max_len` is cut at its commas first. A piece that is still too long is split at subordinators (`when`, `while`, …), and anything still too long goes to a fallback loop. That loop cuts at a comma, else at a late ` and `/` or `, else hard at `max_len`.
4. **Assembler** (`process_paragraph`, `chunk_text`): strips each chunk, drops empty ones and stamps the length.

Each rule tag is a datatype, `Rule(base, suffix)`:
- the base is one of `sentence`, `comma_first`, `clause_subordinator` or `length_fallback`;
- the optional suffix is one of `tail`, `comma_split`, `conj_split` or `length_limit`.

`Rules.RuleName` spells a rule as the source's tag string, and
`Rules.RuleNameInjective` shows that the spelling loses nothing.

The source's loops are `method`s. Each is proved equal to a recursive
specification function, and the properties are lemmas about those
functions. The loops are:
- pass 3 of the normaliser;
- the fallback loop;
- the comma cut and the segment loop of `split_long_sentence`;
- the span loop of `split_by_subordinators`;
- the sentence loop of `process_paragraph`;
- the paragraph and formatting loops of `chunk_text`.

The regular-expression substitutions and splits become left-to-right
scanners, each a recursive function. The source's pure functions
(`split_into_paragraphs`, `split_into_sentences`,
`find_subordinator_positions`) become functions.

"Keeps every visible character in order" is stated in two ways:
- `NonSpace(x)`: `x` with all whitespace removed;
- `Skeleton(x)`: `x` with whitespace, commas and dashes removed. The normaliser only adds or removes those three kinds of character, so it keeps the Skeleton.

Modules: `Text` (character classes, `str.strip`, NonSpace/Skeleton), `Rules`,
`Normalize`, `NormalForm` (what the normaliser guarantees), `DashRewrites`
(what each dash pass does to the text it rewrites, and the docstring's
examples), `Splitters`, `Fallback`, `Clauses`, `LongSentence` and `Pipeline`.

The specification functions and the source they follow:
- `Normalize.RewriteAsides`: pass 1, lines 94-101;
- `Normalize.RewriteDiscourseFrom`: pass 2, lines 104-118;
- `Normalize.Reclassified`: pass 3, lines 121-145;
- `Normalize.TidySpaces`: pass 4, lines 148-151;
- `Splitters.SplitIntoParagraphs`: lines 154-163;
- `Splitters.SplitIntoSentences`: lines 166-180;
- `Fallback.FallbackPieces`: the loop of `fallback_split_by_commas_and_conjs`, lines 289-346;
- `LongSentence.Segments`: the comma cut of `split_long_sentence`, lines 244-256.

The rows below name the lemmas and methods whose contracts state what these functions do.

Constants:
- `SUBORDINATORS` (lines 36-50) is `Clauses.Subordinators`;
- `DISCOURSE` (lines 53-71) is `Normalize.Discourse`;
- `MAX_LEN_DEFAULT` (line 33) is `Pipeline.MaxLenDefault`.

Things the proofs make explicit about the code as written:
- **Paragraphs are erased.** Pass 4 collapses every whitespace run, newlines included, to one space. So `split_into_paragraphs` of normalised text gives at most one paragraph (`Pipeline.ParagraphsErased`). The "paragraphs are hard boundaries" promise is vacuous end to end.
- **Pass 1 pairs any two dashes on one line.** Two compounds with a space between them read as an aside, so neither compound survives (`NormalForm.AsidePairsCompounds`).
- **No `comma_first` prefix on split segments.** An over-long comma segment goes to `split_by_subordinators` without a `comma_first` prefix. Its chunks come back tagged `clause_subordinator…` or `length_fallback…` (`LongSentence.CommaFirstExactly`).

## Model

| member | source | states |
|---|---|---|
| Text.Strip | chunk_tts.py:151 | `str.strip` gives a trimmed string, no longer than its input, that is empty exactly when the input is all whitespace |
| Text.StripSlice | chunk_tts.py:151 | the stripped string is the slice between a leading and a trailing run of whitespace |
| Text.CollapseSpacesShape | chunk_tts.py:150 | `re.sub(r"\s+", " ", …)` leaves only single plain spaces, keeps a trimmed text trimmed, gives empty only for empty input and keeps every other character in order |
| Text.CollapseSpacesRun | chunk_tts.py:150 | a whitespace run between two visible characters becomes exactly one space, and the text on either side is collapsed on its own |
| Rules.RuleNameInjective | chunk_tts.py:306-336 | two rules with the same tag string (`base` or `base+suffix`) are the same rule |
| Normalize.ClosingDash | chunk_tts.py:101 | the lazy `([^–—\n]*?)[-–—]` closes an aside at the first dash after the opening one, with no newline before it; when it finds none, every later dash has a newline before it |
| Normalize.LetterRunEnd | chunk_tts.py:115 | `[A-Za-z]+` matches the longest run of ASCII letters |
| Normalize.WordDashAt | chunk_tts.py:114-115 | a match of `([A-Za-z]+)([-–—])([A-Za-z]+)\b` is letters, one dash, letters, then the end of the text or a non-word character |
| DashRewrites.WordDashAtExactly | chunk_tts.py:114-115 | the scan reports the match with its dash at e and its end at b exactly when the text starts with letters up to e, a dash at e, letters up to b, and then the end of the text or a non-word character |
| Normalize.ReclassifyDashes | chunk_tts.py:121-145 | the character loop, with its in-place `chars[-1] = ","`, builds exactly the pass-3 text |
| Normalize.NormalizeForTts | chunk_tts.py:76-151 | the four passes in order give `Normalized(text)` |
| NormalForm.NormalizedShape | chunk_tts.py:76-151 | the normalised text holds no en or em dash, every `-` has an alphanumeric on each side, it is stripped and single-spaced with no newline, and its Skeleton equals the input's |
| NormalForm.NormalizedDashFree | chunk_tts.py:76-151 | on text without dashes, passes 1-3 change nothing and only the whitespace pass acts |
| NormalForm.AsidesSkeleton | chunk_tts.py:94-101 | pass 1 keeps the Skeleton: it only adds or removes dashes, commas and spaces |
| NormalForm.AsidesDashFree | chunk_tts.py:101 | pass 1 leaves text without dashes unchanged |
| NormalForm.AsidesAfterNonDash | chunk_tts.py:101 | a character that is not a dash opens no aside and passes through pass 1 |
| NormalForm.AsidePairsCompounds | chunk_tts.py:94-101 | `-b c-` followed by anything becomes `, b c, `, so in `a-b c-d` neither compound survives |
| DashRewrites.AsideToCommas | chunk_tts.py:94-101 | an aside whose stripped text holds a space, between two dashes with no newline and no other dash between them, becomes `, ` + the stripped aside + `, `, and the scan resumes after the closing dash |
| DashRewrites.OneWordAsideKept | chunk_tts.py:94-101 | when the stripped aside holds no space, both dashes and the aside are kept as they are, and the closing dash opens no new aside |
| DashRewrites.LoneDashKept | chunk_tts.py:101 | a dash with no later dash opens no aside and is kept |
| DashRewrites.AsidesDashFreePrefix | chunk_tts.py:101 | a prefix without dashes passes through pass 1 unchanged, and the rest of the text is rewritten on its own |
| NormalForm.DiscourseSkeleton | chunk_tts.py:104-118 | pass 2 keeps the Skeleton |
| NormalForm.DiscourseDashFree | chunk_tts.py:114-118 | pass 2 leaves text without dashes unchanged |
| DashRewrites.MarkerRewrite | chunk_tts.py:104-118 | `Word-Marker` followed by the end or a non-word character, with `Marker` a discourse marker in any case, becomes `Word, Marker`, and the scan resumes after the marker |
| DashRewrites.CompoundRewrite | chunk_tts.py:104-118 | `Word-Other` with `Other` no discourse marker is kept with its original dash, and the scan resumes after `Other` |
| NormalForm.DiscourseMarkerExample | chunk_tts.py:104-118 | `Asia—thus` becomes `Asia, thus` |
| NormalForm.CompoundKeptExample | chunk_tts.py:104-118 | `sweet-tart` is kept, because `tart` is no discourse marker |
| NormalForm.DashStepInvariant | chunk_tts.py:123-143 | one loop step keeps the pass-3 invariant: no en or em dash in `chars`, and every `-` has an alphanumeric before it and after it (or next in the text) |
| NormalForm.ReclassifyInvariant | chunk_tts.py:121-145 | the pass-3 invariant holds after every prefix of the text |
| NormalForm.ReclassifySkeleton | chunk_tts.py:121-145 | pass 3 keeps the Skeleton of every prefix |
| NormalForm.ReclassifyDashFree | chunk_tts.py:121-145 | pass 3 copies text without dashes unchanged |
| DashRewrites.DashStepExactly | chunk_tts.py:124-143 | one step on a dash appends `-` when the dash stands between two alphanumerics. Otherwise it leaves a comma where the trailing space or comma was (or appends one), and adds at most one space |
| DashRewrites.ReclassifyDashAt | chunk_tts.py:121-145 | in the finished pass-3 text, the character written for a dash is `-` exactly when the dash stands between two alphanumerics; for any other dash a comma stands at its pause position |
| DashRewrites.ReclassifyCharAt | chunk_tts.py:121-145 | a character that is no dash is copied, and the only later change to it is a space becoming the comma of a pause |
| DashRewrites.ReclassifyFlanked | chunk_tts.py:121-145 | when every dash stands between two alphanumerics, pass 3 only turns each dash into `-` |
| DashRewrites.ReclassifyCompounds | chunk_tts.py:121-145 | text with no en or em dash, whose hyphens all stand between alphanumerics, comes through pass 3 unchanged |
| NormalForm.PauseExample | chunk_tts.py:133-135 | in `x - y` the space before the dash becomes a comma and a space follows it: `x,  y` |
| NormalForm.TidySpacesShape | chunk_tts.py:148-151 | pass 4 gives stripped, single-spaced text in which every comma but a final one is followed by a space; it keeps every visible character in order and keeps hyphens between alphanumerics |
| NormalForm.TidyExample | chunk_tts.py:148-151 | `x,  y` becomes `x, y` |
| DashRewrites.TidyRun | chunk_tts.py:148-151 | a whitespace run between two tidy non-empty texts, with no comma right after it, becomes exactly one space: words are never glued together |
| DashRewrites.TidyFixed | chunk_tts.py:148-151 | pass 4 leaves unchanged a stripped, single-spaced text with no whitespace before a comma and one space after each comma |
| DashRewrites.DoublePauseNormalized | chunk_tts.py:121-151 | `x -- y` normalises to `x, , y`: the second dash overwrites the space the first one added, and pass 4 leaves a space before the second comma |
| DashRewrites.NormalizedAside | chunk_tts.py:76-151 | `left-aside words-right`, with letter words on either side and an aside of several letter words, normalises to `left, aside words, right` |
| DashRewrites.NormalizedMarker | chunk_tts.py:76-151 | `Word-Marker`, with `Marker` a discourse marker, normalises to `Word, Marker` |
| DashRewrites.NormalizedCompound | chunk_tts.py:76-151 | `Word-Other`, with `Other` no discourse marker, normalises to `Word-Other` with a plain hyphen, whichever dash it had |
| DashRewrites.AsideDocExample | chunk_tts.py:80-82 | `associated-though possibly inaccurately-with` normalises to `associated, though possibly inaccurately, with` |
| DashRewrites.MarkerDocExample | chunk_tts.py:83-85 | `Asia-particularly` normalises to `Asia, particularly` |
| DashRewrites.CompoundDocExamples | chunk_tts.py:86-89 | `sweet-tart` and `cross-pollination` normalise to themselves |
| Splitters.StripNonEmpty | chunk_tts.py:163 | `[p.strip() for p in parts if p.strip()]` keeps at most as many parts, each non-empty and stripped |
| Splitters.StripNonEmptyText | chunk_tts.py:163 | stripping and dropping blank parts keeps every visible character in order |
| Splitters.BlankLineAt | chunk_tts.py:162 | `\n\s*\n+` matches at i exactly when a newline at i is followed, within the whitespace run, by another newline; the match ends just after the last newline of that run |
| Splitters.SplitIntoParagraphs | chunk_tts.py:154-163 | every paragraph is non-empty and stripped |
| Splitters.ParagraphsText | chunk_tts.py:154-163 | the paragraphs hold every visible character in order, and there are none exactly when the text is blank |
| Splitters.ParagraphsWithoutNewline | chunk_tts.py:159-163 | text without a newline gives at most one paragraph |
| Splitters.ParagraphsNoBlank | chunk_tts.py:154-163 | the text is cut at every blank line: no paragraph holds two newlines with only whitespace between them |
| Splitters.ParagraphsSingle | chunk_tts.py:154-163 | a text that is not blank is one paragraph, its stripped self, exactly when the stripped text holds no blank line |
| Splitters.ParagraphsTiling | chunk_tts.py:154-163 | the paragraphs, joined in order by whitespace runs that each hold at least two newlines, make up exactly the stripped text: the text is cut only at blank lines |
| Splitters.ParagraphsExample | chunk_tts.py:162-163 | `a\n \nb` gives the paragraphs `a` and `b` |
| Splitters.SentencesShape | chunk_tts.py:166-180 | a blank paragraph gives no sentences. Otherwise each sentence is non-empty, stripped and free of sentence breaks, every sentence but the last ends in `.`, `!` or `?`, and the sentences joined by single spaces give the stripped, whitespace-collapsed paragraph |
| Splitters.SentencesText | chunk_tts.py:166-180 | the sentences hold every visible character of the paragraph in order |
| Clauses.FindSubordinatorPositions | chunk_tts.py:185-193 | the positions are strictly increasing (so without duplicates); p is listed exactly when a subordinator matches there as a whole word, ignoring case |
| Clauses.ClauseBoundsShape | chunk_tts.py:205-211 | the span starts begin at 0, increase, and are exactly 0 and the subordinator matches |
| Clauses.SpanEnd | chunk_tts.py:214 | a span ends at the next start, or at the end of the text for the last span |
| Clauses.SplitBySubordinators | chunk_tts.py:196-229 | the method gives `SubordinatorPieces(text, max_len)` |
| Clauses.SplitSpans | chunk_tts.py:213-227 | the loop over the span starts gives the chunks of every span in order |
| Clauses.SplitClause | chunk_tts.py:215-227 | a blank clause gives nothing, one within `max_len` is one `clause_subordinator` chunk, and a longer one goes to the fallback with base `clause_subordinator` |
| Clauses.ClauseChunksShape | chunk_tts.py:215-227 | every chunk of a stripped clause is non-empty, stripped, at most `max_len` long and tagged with base `clause_subordinator` |
| Clauses.ClauseTagExactly | chunk_tts.py:216-227 | a plain `clause_subordinator` chunk appears exactly when the clause is non-empty and fits in `max_len`, and it is the clause unchanged; fallback chunks always carry a suffix |
| Clauses.SubordinatorPiecesShape | chunk_tts.py:196-229 | every chunk is non-empty, stripped, at most `max_len` long and has a valid rule. The base is `length_fallback` when there is no subordinator and `clause_subordinator` otherwise |
| Clauses.SubordinatorPiecesText | chunk_tts.py:196-229 | the chunks hold every visible character of the text in order |
| Fallback.FindChar | chunk_tts.py:315 | `str.find` gives -1 or an index in `[lo, hi)` holding c, with no c before it in the range |
| Fallback.RFind | chunk_tts.py:325 | `str.rfind` gives -1 or the last occurrence of the pattern |
| Fallback.LateConjunctionPair | chunk_tts.py:321-328 | the conjunction cut is the last ` and ` if that lies beyond 30% of the window; failing that, the last ` or ` if it does; otherwise there is none |
| Fallback.ChooseCut | chunk_tts.py:310-336 | the cut lies strictly after `start` and at most `max_len` past it (the loop advances), it is never `+tail`, and a comma cut follows a comma |
| Fallback.ChooseCutPriority | chunk_tts.py:314-336 | `+comma_split` exactly when the window holds a comma, cutting after the first one. `+length_limit` exactly when there is neither a comma nor a late conjunction, cutting at `start + max_len`. `+conj_split` cuts at the late conjunction |
| Fallback.SkipSpaces | chunk_tts.py:295-296 | the loop skips exactly the whitespace run at `start` |
| Fallback.CutWindow | chunk_tts.py:310-336 | the statements choosing `cut_at` and `rule` give `ChooseCut` |
| Fallback.FallbackSplit | chunk_tts.py:289-346 | the while loop gives `FallbackPieces(text, max_len, base, 0)` |
| Fallback.FallbackPiecesShape | chunk_tts.py:293-344 | every fallback chunk, `+tail` included, is non-empty, stripped and at most `max_len` long, carries the base and one suffix, ends with `,` when it is `+comma_split`, and only the last can be `+tail` |
| Fallback.FallbackPiecesText | chunk_tts.py:293-344 | the fallback chunks hold every visible character of the text in order |
| LongSentence.CommaPositionsSpec | chunk_tts.py:244 | the comma positions are increasing and are exactly the indices holding a comma |
| LongSentence.NextListedComma | chunk_tts.py:248-253 | at each turn the next listed comma is the first comma at or after `prev` |
| LongSentence.CutAtCommas | chunk_tts.py:246-256 | the loop and the tail give `Segments(text)` |
| LongSentence.SegmentsShape | chunk_tts.py:246-256 | every segment is non-empty and stripped, has no comma except possibly its last character, and every segment but the last ends with `,` |
| LongSentence.SegmentsText | chunk_tts.py:246-256 | the segments hold every visible character in order |
| LongSentence.SplitSegments | chunk_tts.py:258-267 | the loop over the segments gives `CommaFirstPieces(segments, max_len)` |
| LongSentence.SplitLongSentence | chunk_tts.py:232-272 | the method gives `LongSentencePieces(text, max_len)` |
| LongSentence.LongSentenceRoute | chunk_tts.py:244-272 | a sentence with a comma is cut at its commas first; one without goes straight to `split_by_subordinators` |
| LongSentence.CommaFirstExactly | chunk_tts.py:258-267 | a `comma_first` chunk appears exactly when a segment fits in `max_len`, and it is that segment unchanged |
| LongSentence.LongSentenceShape | chunk_tts.py:232-272 | every chunk is non-empty, stripped, at most `max_len` long and has a valid rule other than `sentence` |
| LongSentence.LongSentenceText | chunk_tts.py:232-272 | the chunks hold every visible character of the sentence in order |
| Pipeline.ProcessParagraph | chunk_tts.py:351-381 | the sentence loop gives `ParagraphPieces(paragraph, max_len)` |
| Pipeline.ProcessParagraphs | chunk_tts.py:399-403 | the paragraph loop concatenates each paragraph's chunks in order |
| Pipeline.FinalFormatting | chunk_tts.py:405-415 | the formatting loop gives `Finalized(all_chunks)` |
| Pipeline.ChunkText | chunk_tts.py:386-417 | the method gives `Chunks(text, max_len)` |
| Pipeline.ParagraphPiecesShape | chunk_tts.py:351-381 | every chunk of a paragraph is non-empty, stripped, at most `max_len` long and has a valid rule |
| Pipeline.FinalizedOfChunks | chunk_tts.py:405-415 | on such chunks the final formatting drops nothing: record i has chunk i's text and rule, with its length |
| Pipeline.ChunksShape | chunk_tts.py:386-417 | the records are the paragraphs' chunks one for one, in order. Every record has a non-empty stripped chunk, `length == len(chunk)`, `1 <= length <= max_len` and a valid rule |
| Pipeline.ChunksText | chunk_tts.py:386-417 | the records hold every visible character of the normalised text in order, and their Skeleton equals the input's |
| Pipeline.ParagraphsErased | chunk_tts.py:396-397 | the normalised text splits into no paragraph when it is empty and into itself otherwise |
| Pipeline.SentenceRuleExactly | chunk_tts.py:366-375 | a `sentence` chunk appears exactly when a non-empty sentence fits in `max_len`, and it is that sentence unchanged |
| Pipeline.SentenceRecords | chunk_tts.py:371-375 | a record `{s, "sentence", len(s)}` appears exactly when s is a sentence of the normalised text with `len(s) <= max_len` |

## Left out

- `main()` (argument parsing, reading the file, writing JSON, the exit code) is I/O and is not modelled.
- The character classes are ASCII. `isalnum`, `[A-Za-z]`, `\w`, `\b`, `.lower()` and `re.IGNORECASE` use ASCII letters and digits (plus `_` for `\w`). `isspace` and `\s` use Python's whitespace set. Unicode letters and case folding beyond ASCII are not modelled.
- The conjunction threshold `pos > len(window_slice) * 0.3` is the integer test `10 * pos > 3 * len`. Floating-point rounding is not modelled.
- `max_len >= 1` is a precondition of every operation that can reach the fallback loop. With `max_len <= 0` that loop never advances, so that behaviour is not modelled.
- NormalForm.TidySpacesShape: does not promise "no space before a comma", the aim of line 148. Lines 149-150 run after it and can put a space back in front of a comma: pass 3 turns `x -- y` into `x,,  y`, and pass 4 gives `x, , y` (`DashRewrites.DoublePauseNormalized`). That pass 4 turns a whitespace run between words into exactly one space is `DashRewrites.TidyRun`.
- The regular-expression engine is not modelled. Each `re.sub`, `re.split` and `re.finditer` is an explicit scanner for its one pattern.
- The iteration order of the `SUBORDINATORS` set is not modelled. The result is sorted and deduplicated, so the order does not matter.
- Each record is `Record(chunk, rule, length)`, not a Python dictionary. The rule is the `Rule` datatype rather than its string; `Rules.RuleName` gives the string.
- `Pipeline.ChunkText` takes `max_len` explicitly; the default value is the constant `Pipeline.MaxLenDefault`.
- Parts of some source loops are separate methods, so that each proof stays small:
  - the body of the span loop (`Clauses.SplitClause`);
  - the window choice and the space skip of the fallback loop (`Fallback.CutWindow`, `Fallback.SkipSpaces`);
  - the conditional append in the comma cut (`LongSentence.AppendStripped`);
  - the segment loop (`LongSentence.SplitSegments`);
  - the paragraph and formatting loops (`Pipeline.ProcessParagraphs`, `Pipeline.FinalFormatting`).

  The order of operations is unchanged.
- Lists are values. The lists that the source appends to (`chars`, `chunks`, `segments`) are `seq` variables that the methods reassign, so aliasing is not modelled; no list in the source is shared.
