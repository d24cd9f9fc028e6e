# Demo text summarizer, modelled in Dafny

The book and article summarizer's page has a "Summarize" button. Its
handler, `summarizeText`, reads the pasted text and trims it. If nothing is
left, it shows the warning "⚠️ Please paste some text first!". Otherwise it
cuts the text at every `.`, `?` and `!` and drops the pieces that are only
whitespace. It joins the first three remaining pieces, untrimmed, with
". " and appends a final ".". That string is shown, or "⚠️ Could not
generate summary." if it were empty, which cannot happen.

The model is pure. The handler's input is a parameter and what it would
write into the result element is the return value, a `Display`:
`Warning(message)` or `Summary(text)`.

- `JsString` (js_string.dfy) models `String.prototype.trim` and
  `String.prototype.split` with a one-character regular-expression class as
  the separator. Trim is characterised as the unique whitespace-free-ended
  infix surrounded by whitespace. Split comes with a round trip in both
  directions: putting the separators back between the pieces gives the
  string, and splitting separator-free pieces that were joined with
  separators gives the pieces.
- `JsArray` (js_array.dfy) models `Array.prototype.filter`, `slice(0, n)` and
  `join(sep)`. Filter is described exactly by the increasing list of
  accepted positions, and join by the offset of every element and of every
  separator between them.
- `Sequences` (sequences.dfy) holds two facts about slices of a
  concatenation that the offset lemmas use.
- `Summarizer` (summarizer.dfy) models the handler itself, with the
  properties it promises. A warning appears exactly for blank input. A
  summary always ends with "." and is never empty. The kept sentences are
  the non-blank pieces, in source order, copied verbatim from the text. At
  most the first three are used. Cutting the summary at its sentence ends
  gives the chosen sentences back, each after the first behind the space
  the joiner adds.

`trim` removes exactly ECMAScript's WhiteSpace and LineTerminator code
points: TAB, VT, FF, ZWNBSP, the Unicode category Zs, LF, CR, LS and PS.
The Zs set is the current one, which no longer includes U+180E.

`script.js` is a demo. It keeps the first three non-blank pieces as they
are: it does not score sentences, extract keywords or call a remote model.
It drops the terminators and closes every kept piece except the last with
". " and the last with ".". A `?` or `!` in the input therefore becomes a
`.` in the summary. A space after a sentence end stays in front of the next
sentence, beside the space the joiner adds, so by these definitions
"Hi. Yo!" becomes "Hi.  Yo.".

## Model

| member | source | states |
|---|---|---|
| JsString.IsWhitespace | script.js:3 | the code points `trim` removes: ECMAScript's WhiteSpace and LineTerminator, listed one by one (the set Trim and its lemmas are stated over) |
| JsString.LeadingWhitespace | script.js:3 | the number of leading characters `trim` removes: all of them whitespace, and the next one (if any) is not |
| JsString.TrailingWhitespace | script.js:3 | the number of trailing characters `trim` removes: all of them whitespace, and the one before (if any) is not |
| JsString.Trim | script.js:3 | `input.trim()` is the infix after the leading whitespace with only whitespace behind it; it is empty exactly when the input is all whitespace, and otherwise neither starts nor ends with whitespace |
| JsString.TrimUnique | script.js:3 | any split of a string into whitespace, a middle part that does not start or end with whitespace, and whitespace makes Trim return that middle part (reference definition of trim) |
| JsString.TrimIdempotent | script.js:3 | trimming an already trimmed string changes nothing |
| JsString.Separators | script.js:12 | the sentence-end characters of the text: no more of them than the text has characters, and each one a sentence end (Summarizer.SeparatorsAreFiltered shows they are all of them, in order) |
| Summarizer.SeparatorsAreFiltered | script.js:12 | the separators are exactly what filtering the text's characters by the separator test keeps: every sentence end, once, in its original order |
| JsString.Split | script.js:12 | `split(/[.?!]/)` yields one piece more than the text has sentence ends, and no piece contains a sentence end |
| JsString.SplitThenInterleave | script.js:12 | putting each separator back between its two pieces rebuilds the text, so split loses nothing and keeps order |
| JsString.InterleaveThenSplit | script.js:12 | splitting separator-free pieces joined with separators gives back the pieces (the converse round trip) |
| JsString.SplitPieceAt | script.js:12 | each piece is the text found at its start offset in the split string |
| JsString.SplitSeparatorAfter | script.js:12 | every piece but the last is followed in the text by a sentence end |
| JsArray.KeptIndices | script.js:12 | the positions the filter callback accepts, strictly increasing and in range |
| JsArray.KeptIndicesComplete | script.js:12 | every position the filter callback accepts is among KeptIndices |
| JsArray.Filter | script.js:12 | `filter(cb)` returns exactly the elements at the accepted positions, unchanged and in order |
| JsArray.FilterRejectingAll | script.js:12 | when the callback accepts no element, filter returns an empty array |
| JsArray.Take | script.js:13 | `slice(0, n)` has min(n, length) elements and is a prefix of the array |
| JsArray.Join | script.js:13 | `join(sep)` of no elements is "", and otherwise starts with the first element and has the elements' total length plus one separator between each two neighbours (JoinAt, JoinSeparatorAt and JoinEnd place every element) |
| JsArray.JoinAt | script.js:13 | every element of `join(sep)` appears unchanged at its JoinStart offset |
| JsArray.JoinSeparatorAt | script.js:13 | exactly `sep` lies between each element and the next, and the next starts right after it |
| JsArray.JoinEnd | script.js:13 | the last element ends the joined string, so nothing trails it |
| Summarizer.HasText | script.js:12 | the filter callback `s => s.trim().length > 0` accepts a piece exactly when it is not whitespace only |
| Summarizer.Pieces | script.js:12 | `input.split(/[.?!]/)` on the trimmed text (its properties are those of Split) |
| Summarizer.Sentences | script.js:12 | the filtered pieces: each of them has text once trimmed |
| Summarizer.Chosen | script.js:13 | `sentences.slice(0, 3)`: the first three sentences, or all of them when there are fewer |
| Summarizer.Close | script.js:13 | `join(". ") + "."` is never empty, ends in ".", and is "." alone for no sentences |
| Summarizer.SummaryOf | script.js:12-13 | the summary string is the bare "." exactly when no sentence was chosen |
| Summarizer.PasteTextFirst | script.js:7 | the warning for blank input, "⚠️ Please paste some text first!" (SummarizeText shows it exactly for blank input) |
| Summarizer.CouldNotGenerate | script.js:15 | the fallback "⚠️ Could not generate summary." (SummarizeText proves it is never shown) |
| Summarizer.SummarizeText | script.js:2-16 | a warning exactly when the input is all whitespace, and then "⚠️ Please paste some text first!"; otherwise a non-empty summary ending in ".", so the "⚠️ Could not generate summary." fallback is never shown |
| Summarizer.SentencesAreNonBlankPieces | script.js:12 | the sentences are exactly the pieces that are not whitespace only, untrimmed and in their original order |
| Summarizer.SentenceInText | script.js:12-13 | every surviving sentence is copied verbatim from the trimmed text at its start offset |
| Summarizer.SentencesInSourceOrder | script.js:12-13 | an earlier sentence ends before a later one starts, and the character just after it is a sentence end, so the summary never reorders the input |
| Summarizer.SentenceFollowedByEnd | script.js:12 | a sentence with a later one behind it is followed in the text by a sentence end |
| Summarizer.ChosenAreSentenceEndFree | script.js:12-13 | no sentence put into the summary contains `.`, `?` or `!` |
| Summarizer.SplitJoined | script.js:13 | cutting sentence-end-free strings joined with ". " and closed with "." at the sentence ends gives back the strings (each after the first with a leading space) and an empty last piece |
| Summarizer.CloseRoundTrip | script.js:13 | `join(". ") + "."` of k >= 1 sentence-end-free strings, cut at its sentence ends, gives the strings back in order and an empty final piece, and it contains exactly k sentence ends |
| Summarizer.CloseAt | script.js:13 | in `join(". ") + "."` every chosen sentence appears unchanged, followed by ". " when another comes next and by the closing "." when it is the last |
| Summarizer.CloseEmpty | script.js:13 | `join(". ") + "."` of no strings is "." with a single sentence end |
| Summarizer.SummaryRoundTrip | script.js:12-13 | the summary cut at its sentence ends gives the first chosen sentence, then each later chosen sentence with the joiner's space in front, then an empty final piece |
| Summarizer.SummarySentenceEnds | script.js:13 | a summary of k >= 1 sentences contains exactly k sentence ends |
| Summarizer.EmptySummary | script.js:13 | when no sentence survives, the summary is exactly "." |
| Summarizer.SummaryLength | script.js:13 | a summary of k >= 1 sentences has length (sum of their lengths) + 2(k-1) + 1 |
| Summarizer.SentenceEndsGiveEmptyPieces | script.js:12 | text made only of sentence ends splits into one more empty piece than it has characters |
| Summarizer.OnlySentenceEnds | script.js:3-15 | input made only of sentence ends, such as "...", is summarised as "." |
| Summarizer.SingleSentence | script.js:3-15 | non-blank input without a sentence end is summarised as its trimmed text followed by "." |

## Left out

- The DOM is left out: reading `inputText`, looking up `result` and assigning `innerHTML`. The input is a parameter and the displayed string is the result. How the browser parses that string as HTML is not modelled.
- The dark-mode toggle handler is left out. It is page styling with no part in the summary.
- Strings are sequences of Unicode scalar values, not JavaScript's UTF-16 code units. A lone surrogate cannot be represented. The handler only tests length for zero, so code-unit counts never matter.
- Split models only the form the handler uses: a regular expression that matches exactly one character from a class, with no limit and no capturing groups.
- Take models only `slice(0, n)` with a non-negative `n`. Negative and omitted bounds are not modelled.
