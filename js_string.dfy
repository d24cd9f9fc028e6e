/**
 The two String.prototype operations the summarizer calls: `trim` and
 `split` with a one-character regular-expression class as separator.
 Strings are sequences of Unicode scalar values.
 */
module JsString {
  import opened Sequences

  /** The code points `trim` removes: ECMAScript's WhiteSpace (TAB, VT, FF,
      ZWNBSP and the Unicode category Zs) and LineTerminator (LF, CR, LS, PS). */
  predicate IsWhitespace(c: char) {
    || c == '\t' || c == '\n' || c == '\U{000B}' || c == '\U{000C}' || c == '\r'
    || c == ' ' || c == '\U{00A0}' || c == '\U{1680}'
    || ('\U{2000}' <= c <= '\U{200A}')
    || c == '\U{2028}' || c == '\U{2029}' || c == '\U{202F}' || c == '\U{205F}'
    || c == '\U{3000}' || c == '\U{FEFF}'
  }

  predicate AllWhitespace(s: string) {
    forall i :: 0 <= i < |s| ==> IsWhitespace(s[i])
  }

  /** Length of the longest prefix of `s` made of whitespace only. */
  function LeadingWhitespace(s: string): (n: nat)
    ensures n <= |s|
    ensures AllWhitespace(s[..n])
    ensures n < |s| ==> !IsWhitespace(s[n])
  {
    if s == [] || !IsWhitespace(s[0]) then 0 else 1 + LeadingWhitespace(s[1..])
  }

  /** Length of the longest suffix of `s` made of whitespace only. */
  function TrailingWhitespace(s: string): (n: nat)
    ensures n <= |s|
    ensures AllWhitespace(s[|s| - n..])
    ensures n < |s| ==> !IsWhitespace(s[|s| - 1 - n])
  {
    if s == [] || !IsWhitespace(s[|s| - 1]) then 0 else 1 + TrailingWhitespace(s[..|s| - 1])
  }

  /** `s.trim()`: `s` without its leading and trailing whitespace. The result
      is the infix of `s` that starts after the leading whitespace, and only
      whitespace follows it. */
  function Trim(s: string): (r: string)
    ensures LeadingWhitespace(s) + |r| <= |s|
    ensures r == s[LeadingWhitespace(s)..LeadingWhitespace(s) + |r|]
    ensures AllWhitespace(s[LeadingWhitespace(s) + |r|..])
    ensures r == [] <==> AllWhitespace(s)
    ensures r != [] ==> !IsWhitespace(r[0]) && !IsWhitespace(r[|r| - 1])
  {
    var lead := LeadingWhitespace(s);
    var rest := s[lead..];
    rest[..|rest| - TrailingWhitespace(rest)]
  }

  /** A whitespace prefix followed by another character is exactly what
      LeadingWhitespace measures. */
  lemma {:induction false} LeadingWhitespaceIs(s: string, n: nat)
    requires n < |s| && AllWhitespace(s[..n]) && !IsWhitespace(s[n])
    ensures LeadingWhitespace(s) == n
  {
    if n > 0 {
      assert s[..n][0] == s[0];
      assert s[1..][..n - 1] == s[..n][1..];
      LeadingWhitespaceIs(s[1..], n - 1);
    }
  }

  /** The mirror image of LeadingWhitespaceIs for the end of the string. */
  lemma {:induction false} TrailingWhitespaceIs(s: string, n: nat)
    requires n < |s| && AllWhitespace(s[|s| - n..]) && !IsWhitespace(s[|s| - 1 - n])
    ensures TrailingWhitespace(s) == n
  {
    if n > 0 {
      assert s[|s| - n..][n - 1] == s[|s| - 1];
      var init := s[..|s| - 1];
      var tail := init[|init| - (n - 1)..];
      forall j | 0 <= j < |tail| ensures IsWhitespace(tail[j]) {
        assert tail[j] == s[|s| - n..][j];
      }
      assert init[|init| - 1 - (n - 1)] == s[|s| - 1 - n];
      TrailingWhitespaceIs(init, n - 1);
    }
  }

  /** Trim is determined by its specification: whenever `s` is a middle part
      that neither starts nor ends with whitespace, surrounded by whitespace
      only, Trim returns that middle part. */
  lemma {:induction false} TrimUnique(s: string, pre: string, mid: string, post: string)
    requires s == pre + mid + post
    requires AllWhitespace(pre) && AllWhitespace(post)
    requires mid == [] || (!IsWhitespace(mid[0]) && !IsWhitespace(mid[|mid| - 1]))
    ensures Trim(s) == mid
  {
    if mid == [] {
      forall i | 0 <= i < |s| ensures IsWhitespace(s[i]) {
        if i < |pre| {
          assert s[i] == pre[i];
        } else {
          assert s[i] == post[i - |pre|];
        }
      }
    } else {
      assert s[..|pre|] == pre && s[|pre|] == mid[0];
      LeadingWhitespaceIs(s, |pre|);
      var rest := s[|pre|..];
      assert rest == mid + post;
      assert rest[|rest| - |post|..] == post && rest[|rest| - 1 - |post|] == mid[|mid| - 1];
      TrailingWhitespaceIs(rest, |post|);
    }
  }

  /** Trimming twice is the same as trimming once. */
  lemma {:induction false} TrimIdempotent(s: string)
    ensures Trim(Trim(s)) == Trim(s)
  {
    TrimUnique(Trim(s), [], Trim(s), []);
  }

  predicate NoSeparator(s: string, isSep: char -> bool) {
    forall i :: 0 <= i < |s| ==> !isSep(s[i])
  }

  /** Two strings without separators make one without separators. */
  lemma {:induction false} NoSeparatorConcat(a: string, b: string, isSep: char -> bool)
    requires NoSeparator(a, isSep) && NoSeparator(b, isSep)
    ensures NoSeparator(a + b, isSep)
  {
    forall i | 0 <= i < |a + b| ensures !isSep((a + b)[i]) {
      if i >= |a| {
        assert (a + b)[i] == b[i - |a|];
      }
    }
  }

  /** The separator characters of `s`, in order. */
  function Separators(s: string, isSep: char -> bool): (seps: string)
    ensures |seps| <= |s|
    ensures forall i :: 0 <= i < |seps| ==> isSep(seps[i])
  {
    if s == [] then []
    else (if isSep(s[0]) then [s[0]] else []) + Separators(s[1..], isSep)
  }

  /** `s.split(re)` for a regular expression `re` that matches exactly one
      character satisfying `isSep` (such as `/[.?!]/`), without a limit:
      one piece more than there are separators, and no piece holds one. */
  function Split(s: string, isSep: char -> bool): (pieces: seq<string>)
    ensures |pieces| == |Separators(s, isSep)| + 1
    ensures forall k :: 0 <= k < |pieces| ==> NoSeparator(pieces[k], isSep)
  {
    if s == [] then [[]]
    else
      var rest := Split(s[1..], isSep);
      if isSep(s[0]) then [[]] + rest
      else [[s[0]] + rest[0]] + rest[1..]
  }

  /** Puts `seps[k]` back between `pieces[k]` and `pieces[k + 1]`. */
  function Interleave(pieces: seq<string>, seps: string): string
    requires |pieces| == |seps| + 1
  {
    if seps == [] then pieces[0]
    else pieces[0] + [seps[0]] + Interleave(pieces[1..], seps[1..])
  }

  /** Splitting loses nothing: the pieces and the separators between them
      give back the original string. */
  lemma {:induction false} SplitThenInterleave(s: string, isSep: char -> bool)
    ensures Interleave(Split(s, isSep), Separators(s, isSep)) == s
  {
    if s != [] {
      var rest := Split(s[1..], isSep);
      var seps := Separators(s[1..], isSep);
      SplitThenInterleave(s[1..], isSep);
      if isSep(s[0]) {
        assert Split(s, isSep) == [[]] + rest && Separators(s, isSep) == [s[0]] + seps;
        assert ([[]] + rest)[1..] == rest;
        assert Interleave([[]] + rest, [s[0]] + seps) == [] + [s[0]] + s[1..];
      } else {
        assert Split(s, isSep) == [[s[0]] + rest[0]] + rest[1..] && Separators(s, isSep) == seps;
        InterleaveGrowFirst(s[0], rest, seps);
      }
      assert [s[0]] + s[1..] == s;
    }
  }

  /** Growing the first piece at its front grows the interleaved string the
      same way. */
  lemma {:induction false} InterleaveGrowFirst(c: char, pieces: seq<string>, seps: string)
    requires |pieces| == |seps| + 1
    ensures Interleave([[c] + pieces[0]] + pieces[1..], seps) == [c] + Interleave(pieces, seps)
  {
    var grown := [[c] + pieces[0]] + pieces[1..];
    if seps != [] {
      var tail := Interleave(pieces[1..], seps[1..]);
      assert grown[1..] == pieces[1..];
      assert Interleave(grown, seps) == ([c] + pieces[0]) + [seps[0]] + tail;
      assert Interleave(pieces, seps) == pieces[0] + [seps[0]] + tail;
      assert ([c] + pieces[0]) + [seps[0]] + tail == [c] + (pieces[0] + [seps[0]] + tail);
    }
  }

  /** A prefix without separators is glued to the first piece of what follows. */
  lemma {:induction false} SplitPlainPrefix(a: string, t: string, isSep: char -> bool)
    requires NoSeparator(a, isSep)
    ensures Split(a + t, isSep) == [a + Split(t, isSep)[0]] + Split(t, isSep)[1..]
  {
    if a != [] {
      assert (a + t)[1..] == a[1..] + t;
      SplitPlainPrefix(a[1..], t, isSep);
      assert [a[0]] + (a[1..] + Split(t, isSep)[0]) == a + Split(t, isSep)[0];
    } else {
      assert a + t == t;
      assert [] + Split(t, isSep)[0] == Split(t, isSep)[0];
      assert Split(t, isSep) == [Split(t, isSep)[0]] + Split(t, isSep)[1..];
    }
  }

  /** A separator-free prefix ended by a separator is the first piece. */
  lemma {:induction false} SplitAtSeparator(a: string, c: char, t: string, isSep: char -> bool)
    requires NoSeparator(a, isSep) && isSep(c)
    ensures Split(a + [c] + t, isSep) == [a] + Split(t, isSep)
  {
    assert a + [c] + t == a + ([c] + t);
    SplitPlainPrefix(a, [c] + t, isSep);
    assert ([c] + t)[1..] == t;
    assert Split([c] + t, isSep) == [[]] + Split(t, isSep);
    assert a + [] == a;
  }

  /** The converse round trip: joining separator-free pieces with separators
      and splitting again gives back the pieces. */
  lemma {:induction false} InterleaveThenSplit(pieces: seq<string>, seps: string, isSep: char -> bool)
    requires |pieces| == |seps| + 1
    requires forall k :: 0 <= k < |pieces| ==> NoSeparator(pieces[k], isSep)
    requires forall i :: 0 <= i < |seps| ==> isSep(seps[i])
    ensures Split(Interleave(pieces, seps), isSep) == pieces
  {
    if seps == [] {
      SplitPlainPrefix(pieces[0], [], isSep);
      assert pieces[0] + [] == pieces[0];
      assert Split([], isSep) == [[]];
      assert pieces == [pieces[0]];
    } else {
      InterleaveThenSplit(pieces[1..], seps[1..], isSep);
      SplitAtSeparator(pieces[0], seps[0], Interleave(pieces[1..], seps[1..]), isSep);
      assert pieces == [pieces[0]] + pieces[1..];
    }
  }

  /** Where `pieces[k]` starts once the pieces are put back together with one
      separator character between neighbours. */
  function PieceStart(pieces: seq<string>, k: nat): nat
    requires k <= |pieces|
  {
    if k == 0 then 0 else |pieces[0]| + 1 + PieceStart(pieces[1..], k - 1)
  }

  /** Pieces put back together start one after the other. */
  lemma {:induction false} PieceStartStep(pieces: seq<string>, k: nat)
    requires k < |pieces|
    ensures PieceStart(pieces, k + 1) == PieceStart(pieces, k) + |pieces[k]| + 1
  {
    if k > 0 {
      PieceStartStep(pieces[1..], k - 1);
    }
  }

  /** A later piece starts after an earlier one has ended and a separator
      has followed it. */
  lemma {:induction false} PieceStartMonotone(pieces: seq<string>, i: nat, j: nat)
    requires i < j < |pieces|
    ensures PieceStart(pieces, i) + |pieces[i]| < PieceStart(pieces, j)
  {
    PieceStartStep(pieces, j - 1);
    if i < j - 1 {
      PieceStartMonotone(pieces, i, j - 1);
    }
  }

  /** Each piece sits at its PieceStart in the interleaved string. */
  lemma {:induction false} InterleaveAt(pieces: seq<string>, seps: string, k: nat)
    requires |pieces| == |seps| + 1 && k < |pieces|
    ensures PieceStart(pieces, k) + |pieces[k]| <= |Interleave(pieces, seps)|
    ensures Interleave(pieces, seps)[PieceStart(pieces, k)..PieceStart(pieces, k) + |pieces[k]|] == pieces[k]
  {
    if seps != [] {
      var head := pieces[0] + [seps[0]];
      var tail := Interleave(pieces[1..], seps[1..]);
      assert Interleave(pieces, seps) == head + tail;
      if k == 0 {
        SliceLeft(head, tail, 0, |pieces[0]|);
      } else {
        InterleaveAt(pieces[1..], seps[1..], k - 1);
        var start := PieceStart(pieces[1..], k - 1);
        SliceRight(head, tail, start, start + |pieces[k]|);
      }
    }
  }

  /** Right after each piece but the last comes its separator. */
  lemma {:induction false} InterleaveSeparatorAt(pieces: seq<string>, seps: string, k: nat)
    requires |pieces| == |seps| + 1 && k < |seps|
    ensures PieceStart(pieces, k) + |pieces[k]| < |Interleave(pieces, seps)|
    ensures Interleave(pieces, seps)[PieceStart(pieces, k) + |pieces[k]|] == seps[k]
  {
    var head := pieces[0] + [seps[0]];
    var tail := Interleave(pieces[1..], seps[1..]);
    assert Interleave(pieces, seps) == head + tail;
    if k > 0 {
      InterleaveSeparatorAt(pieces[1..], seps[1..], k - 1);
      var end := PieceStart(pieces[1..], k - 1) + |pieces[k]|;
      assert PieceStart(pieces, k) + |pieces[k]| == |head| + end;
      assert (head + tail)[|head| + end] == tail[end];
    }
  }

  /** Each piece of `s.split(re)` is the text of `s` found at its PieceStart. */
  lemma {:induction false} SplitPieceAt(s: string, isSep: char -> bool, k: nat)
    requires k < |Split(s, isSep)|
    ensures PieceStart(Split(s, isSep), k) + |Split(s, isSep)[k]| <= |s|
    ensures s[PieceStart(Split(s, isSep), k)..PieceStart(Split(s, isSep), k) + |Split(s, isSep)[k]|] == Split(s, isSep)[k]
  {
    SplitThenInterleave(s, isSep);
    InterleaveAt(Split(s, isSep), Separators(s, isSep), k);
  }

  /** Every piece of `s.split(re)` but the last is followed in `s` by a
      separator. */
  lemma {:induction false} SplitSeparatorAfter(s: string, isSep: char -> bool, k: nat)
    requires k + 1 < |Split(s, isSep)|
    ensures PieceStart(Split(s, isSep), k) + |Split(s, isSep)[k]| < |s|
    ensures isSep(s[PieceStart(Split(s, isSep), k) + |Split(s, isSep)[k]|])
  {
    var pieces := Split(s, isSep);
    var seps := Separators(s, isSep);
    SplitThenInterleave(s, isSep);
    InterleaveSeparatorAt(pieces, seps, k);
    assert s[PieceStart(pieces, k) + |pieces[k]|] == seps[k];
  }
}
