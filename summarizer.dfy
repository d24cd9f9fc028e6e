/**
 The demo summarizer behind the "Summarize" button: the pasted text, once
 trimmed, is cut at every `.`, `?` and `!`, whitespace-only pieces are
 dropped, and the first three remaining pieces are joined with ". " and
 closed with a final ".". What it would write into the result element is
 the value of SummarizeText.
 */
module Summarizer {
  import opened JsString
  import opened JsArray
  import opened Sequences

  /** Shown when the trimmed input is empty. */
  const PasteTextFirst: string := "\U{26A0}\U{FE0F} Please paste some text first!"
  /** Shown if the summary came out empty (it never does: SummarizeText). */
  const CouldNotGenerate: string := "\U{26A0}\U{FE0F} Could not generate summary."
  /** How many sentences the summary keeps. */
  const MaxSentences: nat := 3
  /** What the kept sentences are joined with. */
  const Joiner: string := ". "

  /** The regular expression class `[.?!]` that ends a sentence. */
  predicate IsSentenceEnd(c: char) {
    c == '.' || c == '?' || c == '!'
  }

  /** The filter callback: the piece still has characters once trimmed. */
  function HasText(piece: string): (b: bool)
    ensures b <==> !AllWhitespace(piece)
  {
    |Trim(piece)| > 0
  }

  /** Position `pos` of `text` holds a sentence end. */
  predicate SentenceEndAt(text: string, pos: int) {
    0 <= pos < |text| && IsSentenceEnd(text[pos])
  }

  /** The separators are what `filter(isSep)` keeps of the characters of `s`:
      every separator of `s` appears, once, in its original order. */
  lemma {:induction false} SeparatorsAreFiltered(s: string, isSep: char -> bool)
    ensures Separators(s, isSep) == Filter(s, isSep)
  {
    if s != [] {
      SeparatorsAreFiltered(s[1..], isSep);
    }
  }

  /** What the result element shows. */
  datatype Display = Warning(message: string) | Summary(text: string)

  /** The trimmed text cut at every sentence end. */
  function Pieces(text: string): seq<string> {
    Split(text, IsSentenceEnd)
  }

  /** The pieces that are not whitespace only, untrimmed. */
  function Sentences(text: string): (r: seq<string>)
    ensures forall k :: 0 <= k < |r| ==> HasText(r[k])
  {
    Filter(Pieces(text), HasText)
  }

  /** The sentences that make it into the summary: the first three, or all
      of them when there are fewer. */
  function Chosen(text: string): (r: seq<string>)
    ensures |r| == if |Sentences(text)| < MaxSentences then |Sentences(text)| else MaxSentences
    ensures r == Sentences(text)[..|r|]
  {
    Take(Sentences(text), MaxSentences)
  }

  /** The chosen sentences joined with ". " and closed with ".": never
      empty, always ending in ".", and just "." for no sentences. */
  function Close(chosen: seq<string>): (r: string)
    ensures |r| > 0 && r[|r| - 1] == '.'
    ensures chosen == [] ==> r == "."
  {
    Join(chosen, Joiner) + "."
  }

  /** The summary string built from the chosen sentences; it is the bare
      "." exactly when no sentence was chosen. */
  function SummaryOf(text: string): (r: string)
    ensures r == "." <==> Chosen(text) == []
  {
    var chosen := Chosen(text);
    assert chosen != [] ==> chosen[0] == Sentences(text)[0] && |chosen[0]| > 0;
    Close(chosen)
  }

  /** summarizeText: a warning when there is nothing but whitespace, and
      otherwise a summary that is never empty and always ends with ".", so
      the "could not generate" fallback is never shown. */
  function SummarizeText(input: string): (d: Display)
    ensures d.Warning? <==> AllWhitespace(input)
    ensures d.Warning? ==> d.message == PasteTextFirst
    ensures d.Summary? ==> |d.text| > 0 && d.text[|d.text| - 1] == '.'
  {
    var text := Trim(input);
    if |text| == 0 then Warning(PasteTextFirst)
    else
      var summary := SummaryOf(text);
      if |summary| > 0 then Summary(summary) else Warning(CouldNotGenerate)
  }

  /** The summary of a non-blank input is the one built from its trimmed text. */
  lemma {:induction false} SummaryOfTrimmed(input: string)
    requires !AllWhitespace(input)
    ensures SummarizeText(input) == Summary(SummaryOf(Trim(input)))
  {
  }

  /** The sentences are exactly the pieces that are not whitespace only, kept
      with their surrounding whitespace and in their original order. */
  lemma {:induction false} SentencesAreNonBlankPieces(text: string)
    ensures |Sentences(text)| == |KeptIndices(Pieces(text), HasText)|
    ensures forall k :: 0 <= k < |Sentences(text)| ==>
      Sentences(text)[k] == Pieces(text)[KeptIndices(Pieces(text), HasText)[k]]
      && !AllWhitespace(Sentences(text)[k])
    ensures forall i :: 0 <= i < |Pieces(text)| ==>
      (i in KeptIndices(Pieces(text), HasText) <==> !AllWhitespace(Pieces(text)[i]))
  {
    var pieces := Pieces(text);
    forall i | 0 <= i < |pieces| && !AllWhitespace(pieces[i])
      ensures i in KeptIndices(pieces, HasText)
    {
      KeptIndicesComplete(pieces, HasText, i);
    }
  }

  /** Where the k-th sentence starts in the trimmed text. */
  function SentenceStart(text: string, k: nat): nat
    requires k < |Sentences(text)|
  {
    PieceStart(Pieces(text), KeptIndices(Pieces(text), HasText)[k])
  }

  /** Where sentence `k` of the trimmed text ends. */
  function SentenceEnd(text: string, k: nat): nat
    requires k < |Sentences(text)|
  {
    SentenceStart(text, k) + |Sentences(text)[k]|
  }

  /** Every sentence, and so every chosen one, is copied verbatim from the
      trimmed text: it is the text found at its SentenceStart. */
  lemma {:induction false} SentenceInText(text: string, k: nat)
    requires k < |Sentences(text)|
    ensures SentenceStart(text, k) + |Sentences(text)[k]| <= |text|
    ensures text[SentenceStart(text, k)..SentenceStart(text, k) + |Sentences(text)[k]|] == Sentences(text)[k]
  {
    var pieces := Pieces(text);
    var i := KeptIndices(pieces, HasText)[k];
    assert Sentences(text)[k] == pieces[i];
    SplitPieceAt(text, IsSentenceEnd, i);
  }

  /** Sentences are never reordered: an earlier sentence ends, and a sentence
      end follows it, before a later one starts. */
  lemma {:induction false} SentencesInSourceOrder(text: string, k: nat, l: nat)
    requires k < l < |Sentences(text)|
    ensures SentenceEnd(text, k) < SentenceStart(text, l)
    ensures SentenceEndAt(text, SentenceEnd(text, k))
  {
    var pieces := Pieces(text);
    var idx := KeptIndices(pieces, HasText);
    assert Sentences(text)[k] == pieces[idx[k]];
    PieceStartMonotone(pieces, idx[k], idx[l]);
    SentenceFollowedByEnd(text, k, l);
  }

  /** A sentence with a later one behind it is followed by a sentence end. */
  lemma {:induction false} SentenceFollowedByEnd(text: string, k: nat, l: nat)
    requires k < l < |Sentences(text)|
    ensures SentenceEndAt(text, SentenceEnd(text, k))
  {
    SentenceIsPiece(text, k);
    SentenceNotInLastPiece(text, k, l);
    var i := KeptIndices(Pieces(text), HasText)[k];
    PieceFollowedBySentenceEnd(text, i, SentenceEnd(text, k));
  }

  /** Sentence `k` is the piece at the k-th kept position. */
  lemma {:induction false} SentenceIsPiece(text: string, k: nat)
    requires k < |Sentences(text)|
    ensures KeptIndices(Pieces(text), HasText)[k] < |Pieces(text)|
    ensures Sentences(text)[k] == Pieces(text)[KeptIndices(Pieces(text), HasText)[k]]
    ensures SentenceStart(text, k) == PieceStart(Pieces(text), KeptIndices(Pieces(text), HasText)[k])
  {
  }

  /** A sentence with a later one behind it does not come from the last piece. */
  lemma {:induction false} SentenceNotInLastPiece(text: string, k: nat, l: nat)
    requires k < l < |Sentences(text)|
    ensures KeptIndices(Pieces(text), HasText)[k] + 1 < |Pieces(text)|
  {
    var idx := KeptIndices(Pieces(text), HasText);
    assert idx[k] < idx[l] < |Pieces(text)|;
  }

  /** Every piece but the last is followed in the text by a sentence end. */
  lemma {:induction false} PieceFollowedBySentenceEnd(text: string, i: nat, pos: nat)
    requires i + 1 < |Pieces(text)|
    requires pos == PieceStart(Pieces(text), i) + |Pieces(text)[i]|
    ensures SentenceEndAt(text, pos)
  {
    SplitSeparatorAfter(text, IsSentenceEnd, i);
  }

  /** Each string prefixed with a space. */
  function Spaced(xs: seq<string>): (r: seq<string>)
    ensures |r| == |xs|
    ensures forall i :: 0 <= i < |r| ==> r[i] == " " + xs[i]
  {
    seq(|xs|, i requires 0 <= i < |xs| => " " + xs[i])
  }

  /** Cutting a joined-and-closed list of sentence-end-free strings at its
      sentence ends gives the strings back, every one after the first with
      the space of the joiner in front, and an empty last piece. */
  lemma {:induction false} SplitJoined(pre: string, xs: seq<string>)
    requires xs != []
    requires NoSeparator(pre, IsSentenceEnd)
    requires forall k :: 0 <= k < |xs| ==> NoSeparator(xs[k], IsSentenceEnd)
    ensures Split(pre + Join(xs, Joiner) + ".", IsSentenceEnd) == [pre + xs[0]] + Spaced(xs[1..]) + [[]]
    decreases |xs|
  {
    var head := pre + xs[0];
    NoSeparatorConcat(pre, xs[0], IsSentenceEnd);
    if |xs| == 1 {
      assert pre + Join(xs, Joiner) + "." == head + ['.'] + [];
      SplitAtSeparator(head, '.', [], IsSentenceEnd);
      assert Split([], IsSentenceEnd) == [[]];
    } else {
      var rest := " " + Join(xs[1..], Joiner) + ".";
      assert pre + Join(xs, Joiner) + "." == head + ['.'] + rest;
      SplitAtSeparator(head, '.', rest, IsSentenceEnd);
      SplitJoined(" ", xs[1..]);
      assert xs[1..][1..] == xs[2..];
      assert Spaced(xs[1..]) == [" " + xs[1]] + Spaced(xs[2..]);
    }
  }

  /** A closed list of sentence-end-free strings can be read back: cut at
      its sentence ends it gives the strings in order (after the first, each
      behind the space of the ". " joiner) and an empty last piece, so it
      holds one sentence end per string. */
  lemma {:induction false} CloseRoundTrip(xs: seq<string>)
    requires xs != []
    requires forall k :: 0 <= k < |xs| ==> NoSeparator(xs[k], IsSentenceEnd)
    ensures Split(Close(xs), IsSentenceEnd) == [xs[0]] + Spaced(xs[1..]) + [[]]
    ensures |Separators(Close(xs), IsSentenceEnd)| == |xs|
  {
    var joined := Join(xs, Joiner);
    SplitJoined([], xs);
    assert [] + joined + "." == Close(xs);
    assert [] + xs[0] == xs[0];
  }

  /** Closing no strings gives "." alone, a single sentence end. */
  /** In `join(". ") + "."`, every string sits at its JoinStart and is
      followed by ". " when another string comes next, or by the closing "."
      when it is the last. */
  lemma {:induction false} CloseAt(chosen: seq<string>, k: nat)
    requires k < |chosen|
    ensures JoinStart(chosen, Joiner, k) + |chosen[k]| < |Close(chosen)|
    ensures Close(chosen)[JoinStart(chosen, Joiner, k)..JoinStart(chosen, Joiner, k) + |chosen[k]|] == chosen[k]
    ensures k + 1 < |chosen| ==> JoinStart(chosen, Joiner, k + 1) == JoinStart(chosen, Joiner, k) + |chosen[k]| + |Joiner|
    ensures k + 1 < |chosen| ==> JoinStart(chosen, Joiner, k + 1) < |Close(chosen)|
    ensures k + 1 < |chosen| ==> Close(chosen)[JoinStart(chosen, Joiner, k) + |chosen[k]|..JoinStart(chosen, Joiner, k + 1)] == Joiner
    ensures k + 1 == |chosen| ==> Close(chosen)[JoinStart(chosen, Joiner, k) + |chosen[k]|..] == "."
  {
    var joined := Join(chosen, Joiner);
    var start := JoinStart(chosen, Joiner, k);
    JoinAt(chosen, Joiner, k);
    SliceLeft(joined, ".", start, start + |chosen[k]|);
    if k + 1 < |chosen| {
      JoinSeparatorAt(chosen, Joiner, k);
      var next := JoinStart(chosen, Joiner, k + 1);
      SliceLeft(joined, ".", start + |chosen[k]|, next);
    } else {
      JoinEnd(chosen, Joiner);
      SliceRight(joined, ".", 0, 1);
    }
  }

  lemma {:induction false} CloseEmpty()
    ensures Close([]) == "."
    ensures |Separators(Close([]), IsSentenceEnd)| == 1
  {
    assert Split(".", IsSentenceEnd) == [[], []] by {
      assert "."[1..] == [];
    }
  }

  /** The summary can be read back: cut at its sentence ends it gives the
      chosen sentences in order and an empty final piece. */
  lemma {:induction false} SummaryRoundTrip(text: string)
    requires Chosen(text) != []
    ensures Split(SummaryOf(text), IsSentenceEnd) == [Chosen(text)[0]] + Spaced(Chosen(text)[1..]) + [[]]
  {
    ChosenAreSentenceEndFree(text);
    CloseRoundTrip(Chosen(text));
  }

  /** The summary holds one sentence end per chosen sentence. */
  lemma {:induction false} SummarySentenceEnds(text: string)
    requires Chosen(text) != []
    ensures |Separators(SummaryOf(text), IsSentenceEnd)| == |Chosen(text)|
  {
    ChosenAreSentenceEndFree(text);
    CloseRoundTrip(Chosen(text));
  }

  /** When no sentence survives, the summary is the closing "." alone, and
      that is its only sentence end. */
  lemma {:induction false} EmptySummary(text: string)
    requires Chosen(text) == []
    ensures SummaryOf(text) == "."
    ensures |Separators(SummaryOf(text), IsSentenceEnd)| == 1
  {
    CloseEmpty();
  }

  /** No chosen sentence holds a sentence end. */
  lemma {:induction false} ChosenAreSentenceEndFree(text: string)
    ensures forall k :: 0 <= k < |Chosen(text)| ==> NoSeparator(Chosen(text)[k], IsSentenceEnd)
  {
    var pieces := Pieces(text);
    var idx := KeptIndices(pieces, HasText);
    var chosen := Chosen(text);
    forall k | 0 <= k < |chosen| ensures NoSeparator(chosen[k], IsSentenceEnd) {
      assert chosen[k] == Sentences(text)[k] == pieces[idx[k]];
    }
  }

  /** The length of a summary of k >= 1 sentences: their lengths, two
      characters of joiner between each two, and the closing ".". */
  lemma {:induction false} SummaryLength(text: string)
    requires Chosen(text) != []
    ensures |SummaryOf(text)| == TotalLength(Chosen(text)) + 2 * (|Chosen(text)| - 1) + 1
  {
  }

  /** A text made only of sentence ends is cut into empty pieces, one more
      than it has characters. */
  lemma {:induction false} SentenceEndsGiveEmptyPieces(text: string)
    requires forall i :: 0 <= i < |text| ==> IsSentenceEnd(text[i])
    ensures Pieces(text) == seq(|text| + 1, _ => [])
  {
    if text != [] {
      SentenceEndsGiveEmptyPieces(text[1..]);
    }
  }

  /** ... so no sentence survives the filter. */
  lemma {:induction false} SentenceEndsGiveNoSentences(text: string)
    requires forall i :: 0 <= i < |text| ==> IsSentenceEnd(text[i])
    ensures Sentences(text) == []
  {
    SentenceEndsGiveEmptyPieces(text);
    assert !HasText([]);
    FilterRejectingAll(Pieces(text), HasText);
  }

  /** Sentence ends are not whitespace, so trim leaves such a text alone. */
  lemma {:induction false} SentenceEndsAreTrimmed(text: string)
    requires text != []
    requires forall i :: 0 <= i < |text| ==> IsSentenceEnd(text[i])
    ensures Trim(text) == text
  {
    TrimUnique(text, [], text, []) by {
      assert [] + text + [] == text;
    }
  }

  /** Input made only of sentence ends, such as "...": the summary is the
      closing "." alone. */
  lemma {:induction false} OnlySentenceEnds(input: string)
    requires input != []
    requires forall i :: 0 <= i < |input| ==> IsSentenceEnd(input[i])
    ensures SummarizeText(input) == Summary(".")
  {
    SentenceEndsAreTrimmed(input);
    SentenceEndsGiveNoSentences(input);
    EmptySummary(input);
    SummaryOfTrimmed(input);
  }

  /** Input without any sentence end is one sentence: the summary is the
      trimmed input followed by ".". */
  lemma {:induction false} SingleSentence(input: string)
    requires !AllWhitespace(input)
    requires forall i :: 0 <= i < |input| ==> !IsSentenceEnd(input[i])
    ensures SummarizeText(input) == Summary(Trim(input) + ".")
  {
    var text := Trim(input);
    assert NoSeparator(text, IsSentenceEnd) by {
      forall j | 0 <= j < |text| ensures !IsSentenceEnd(text[j]) {
        assert text[j] == input[LeadingWhitespace(input) + j];
      }
    }
    SplitPlainPrefix(text, [], IsSentenceEnd);
    assert text + [] == text;
    assert Split([], IsSentenceEnd) == [[]];
    assert Pieces(text) == [text];
    TrimIdempotent(input);
    assert HasText(text);
    assert Sentences(text) == [text];
  }
}
