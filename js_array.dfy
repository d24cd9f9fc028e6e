/**
 The three Array.prototype operations the summarizer chains after `split`:
 `filter` with a callback, `slice(0, n)` and `join(separator)`.
 */
module JsArray {
  import opened Sequences

  /** Every position moved one place to the right. */
  function Shift(idx: seq<nat>): (r: seq<nat>)
    ensures |r| == |idx|
    ensures forall k :: 0 <= k < |r| ==> r[k] == idx[k] + 1
  {
    seq(|idx|, k requires 0 <= k < |idx| => idx[k] + 1)
  }

  /** The positions of `xs` whose element `keep` accepts, in increasing order. */
  function KeptIndices<T>(xs: seq<T>, keep: T -> bool): (idx: seq<nat>)
    ensures forall k :: 0 <= k < |idx| ==> idx[k] < |xs| && keep(xs[idx[k]])
    ensures forall k, l :: 0 <= k < l < |idx| ==> idx[k] < idx[l]
  {
    if xs == [] then []
    else
      var later := Shift(KeptIndices(xs[1..], keep));
      if keep(xs[0]) then [0] + later else later
  }

  /** No accepted position is missed. */
  lemma {:induction false} KeptIndicesComplete<T>(xs: seq<T>, keep: T -> bool, i: nat)
    requires i < |xs| && keep(xs[i])
    ensures i in KeptIndices(xs, keep)
  {
    if i > 0 {
      assert xs[1..][i - 1] == xs[i];
      KeptIndicesComplete(xs[1..], keep, i - 1);
      var inner := KeptIndices(xs[1..], keep);
      var k :| 0 <= k < |inner| && inner[k] == i - 1;
      assert Shift(inner)[k] == i;
    }
  }

  /** `xs.filter(keep)`: exactly the elements at KeptIndices, in their
      original order, untouched. */
  function Filter<T>(xs: seq<T>, keep: T -> bool): (r: seq<T>)
    ensures |r| == |KeptIndices(xs, keep)|
    ensures forall k :: 0 <= k < |r| ==> r[k] == xs[KeptIndices(xs, keep)[k]]
  {
    if xs == [] then []
    else (if keep(xs[0]) then [xs[0]] else []) + Filter(xs[1..], keep)
  }

  /** A callback that accepts nothing leaves nothing. */
  lemma {:induction false} FilterRejectingAll<T>(xs: seq<T>, keep: T -> bool)
    requires forall i :: 0 <= i < |xs| ==> !keep(xs[i])
    ensures Filter(xs, keep) == []
  {
    if xs != [] {
      FilterRejectingAll(xs[1..], keep);
    }
  }

  /** `xs.slice(0, n)`: the first `n` elements, or all of them when there are
      fewer. */
  function Take<T>(xs: seq<T>, n: nat): (r: seq<T>)
    ensures |r| == if |xs| < n then |xs| else n
    ensures r == xs[..|r|]
  {
    if |xs| <= n then xs else xs[..n]
  }

  /** Sum of the lengths of the strings in `xs`. */
  function TotalLength(xs: seq<string>): nat {
    if xs == [] then 0 else |xs[0]| + TotalLength(xs[1..])
  }

  /** `xs.join(sep)`: the empty string for no elements, otherwise the elements
      with one `sep` between each two neighbours. */
  function Join(xs: seq<string>, sep: string): (r: string)
    ensures xs == [] ==> r == []
    ensures xs != [] ==> |r| == TotalLength(xs) + |sep| * (|xs| - 1)
    ensures xs != [] ==> r[..|xs[0]|] == xs[0]
  {
    if xs == [] then []
    else if |xs| == 1 then xs[0]
    else xs[0] + sep + Join(xs[1..], sep)
  }

  /** Where `xs[k]` starts in `Join(xs, sep)`. */
  function JoinStart(xs: seq<string>, sep: string, k: nat): nat
    requires k < |xs|
  {
    if k == 0 then 0 else |xs[0]| + |sep| + JoinStart(xs[1..], sep, k - 1)
  }

  /** Each element of a join sits at its JoinStart. */
  lemma {:induction false} JoinAt(xs: seq<string>, sep: string, k: nat)
    requires k < |xs|
    ensures JoinStart(xs, sep, k) + |xs[k]| <= |Join(xs, sep)|
    ensures Join(xs, sep)[JoinStart(xs, sep, k)..JoinStart(xs, sep, k) + |xs[k]|] == xs[k]
  {
    if |xs| > 1 {
      var head := xs[0] + sep;
      var tail := Join(xs[1..], sep);
      assert Join(xs, sep) == head + tail;
      if k == 0 {
        SliceLeft(head, tail, 0, |xs[0]|);
      } else {
        JoinAt(xs[1..], sep, k - 1);
        var start := JoinStart(xs[1..], sep, k - 1);
        assert JoinStart(xs, sep, k) == |head| + start;
        assert xs[1..][k - 1] == xs[k];
        SliceRight(head, tail, start, start + |xs[k]|);
      }
    }
  }

  /** The last element of a join ends the string. */
  lemma {:induction false} JoinEnd(xs: seq<string>, sep: string)
    requires xs != []
    ensures JoinStart(xs, sep, |xs| - 1) + |xs[|xs| - 1]| == |Join(xs, sep)|
  {
    if |xs| > 1 {
      JoinEnd(xs[1..], sep);
      assert |Join(xs, sep)| == |xs[0]| + |sep| + |Join(xs[1..], sep)|;
      assert JoinStart(xs, sep, |xs| - 1) == |xs[0]| + |sep| + JoinStart(xs[1..], sep, |xs| - 2);
    }
  }

  /** Between each element of a join and the next sits exactly `sep`. */
  lemma {:induction false} JoinSeparatorAt(xs: seq<string>, sep: string, k: nat)
    requires k + 1 < |xs|
    ensures JoinStart(xs, sep, k + 1) == JoinStart(xs, sep, k) + |xs[k]| + |sep|
    ensures JoinStart(xs, sep, k + 1) <= |Join(xs, sep)|
    ensures Join(xs, sep)[JoinStart(xs, sep, k) + |xs[k]|..JoinStart(xs, sep, k + 1)] == sep
  {
    var head := xs[0] + sep;
    var tail := Join(xs[1..], sep);
    assert Join(xs, sep) == head + tail;
    if k == 0 {
      SliceLeft(head, tail, |xs[0]|, |head|);
    } else {
      JoinSeparatorAt(xs[1..], sep, k - 1);
      var start := JoinStart(xs[1..], sep, k - 1);
      var next := JoinStart(xs[1..], sep, k);
      assert xs[1..][k - 1] == xs[k];
      SliceRight(head, tail, start + |xs[k]|, next);
    }
  }
}
