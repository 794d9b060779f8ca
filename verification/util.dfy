/** `drain_while` (`src/util.rs`): takes elements from an iterator while
    they satisfy a predicate. The iterator is modelled by the sequence of
    the elements it still holds. The first element that fails the
    predicate has already been taken from the iterator when the loop
    stops, so it is neither returned nor left behind. */
module Util {
  import opened Wrappers

  /** What `drain_while` on `xs` returns (`result`) and leaves in the
      iterator (`rest`): the longest prefix whose elements satisfy `p`;
      after it, the first failing element is gone. */
  ghost predicate Drained<T>(xs: seq<T>, p: T -> bool, result: seq<T>, rest: seq<T>) {
    |result| <= |xs| && result == xs[..|result|]
    && (forall i | 0 <= i < |result| :: p(result[i]))
    && (|result| < |xs| ==> !p(xs[|result|]) && rest == xs[|result| + 1..])
    && (|result| == |xs| ==> rest == [])
  }

  /** The loop of `drain_while`, pulling one element at a time. */
  method DrainWhile<T>(xs: seq<T>, p: T -> bool) returns (result: seq<T>, rest: seq<T>)
    ensures |result| <= |xs| && result == xs[..|result|]
    ensures forall i | 0 <= i < |result| :: p(result[i])
    ensures |result| < |xs| ==> !p(xs[|result|]) && rest == xs[|result| + 1..]
    ensures |result| == |xs| ==> rest == []
  {
    result := [];
    var it := xs;
    var cur: Option<T> := None;
    if |it| > 0 {
      cur := Some(it[0]);
      it := it[1..];
    }
    while cur.Some? && p(cur.value)
      invariant |result| <= |xs| && result == xs[..|result|]
      invariant forall i | 0 <= i < |result| :: p(result[i])
      invariant cur.Some? ==> |result| < |xs| && cur.value == xs[|result|] && it == xs[|result| + 1..]
      invariant cur.None? ==> |result| == |xs| && it == []
      decreases |it| + (if cur.Some? then 1 else 0)
    {
      result := result + [cur.value];
      if |it| > 0 {
        cur := Some(it[0]);
        it := it[1..];
      } else {
        cur := None;
      }
    }
    rest := it;
  }

  /** The outcome of `drain_while` is determined by its input. */
  lemma DrainedUnique<T>(xs: seq<T>, p: T -> bool, r1: seq<T>, s1: seq<T>, r2: seq<T>, s2: seq<T>)
    requires Drained(xs, p, r1, s1) && Drained(xs, p, r2, s2)
    ensures r1 == r2 && s1 == s2
  {
    // each result's elements are the input's, so neither can stop before the other
    assert forall i | 0 <= i < |r1| :: p(xs[i]) by {
      forall i | 0 <= i < |r1| ensures p(xs[i]) { assert r1[i] == xs[i]; }
    }
    assert forall i | 0 <= i < |r2| :: p(xs[i]) by {
      forall i | 0 <= i < |r2| ensures p(xs[i]) { assert r2[i] == xs[i]; }
    }
  }

  /** The first failing element, if any, is lost: the result and what is
      left together are the input without it. */
  lemma DrainedLosesOne<T>(xs: seq<T>, p: T -> bool, result: seq<T>, rest: seq<T>)
    requires Drained(xs, p, result, rest)
    ensures |result| < |xs| ==> result + [xs[|result|]] + rest == xs && |result| + |rest| == |xs| - 1
    ensures |result| == |xs| ==> result == xs && rest == []
  {
    if |result| < |xs| {
      assert xs == xs[..|result|] + [xs[|result|]] + xs[|result| + 1..];
    }
  }

  predicate LessThan3(x: int) {
    x < 3
  }

  /** `[1, 2, 3, 4, 5]` drained while below 3 gives `[1, 2]`; `3` is
      consumed, and `[4, 5]` is left. */
  lemma DrainWhileExample(result: seq<int>, rest: seq<int>)
    requires Drained([1, 2, 3, 4, 5], LessThan3, result, rest)
    ensures result == [1, 2] && rest == [4, 5]
  {
    var xs := [1, 2, 3, 4, 5];
    assert Drained(xs, LessThan3, [1, 2], [4, 5]) by {
      assert xs[..2] == [1, 2];
      assert xs[3..] == [4, 5];
    }
    DrainedUnique(xs, LessThan3, result, rest, [1, 2], [4, 5]);
  }
}
