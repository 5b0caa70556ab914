/** Order-preserving selection from a sequence, as `Iterator::filter(..).collect()` does. */
module Seqs {

  /** The elements of `s` that `keep` accepts, in their original order. */
  function Filter<T(==,!new)>(s: seq<T>, keep: T -> bool): (r: seq<T>)
    ensures |r| <= |s|
    ensures forall i :: 0 <= i < |r| ==> keep(r[i])
    ensures forall x :: x in r <==> x in s && keep(x)
  {
    if |s| == 0 then []
    else if keep(s[0]) then [s[0]] + Filter(s[1..], keep)
    else Filter(s[1..], keep)
  }

  /**
   Filtering distributes over concatenation, so together with the
   singleton case it fixes the result: each element is kept or dropped on
   its own, in place.
   */
  lemma {:induction false} FilterAppend<T(!new)>(a: seq<T>, b: seq<T>, keep: T -> bool)
    ensures Filter(a + b, keep) == Filter(a, keep) + Filter(b, keep)
  {
    if |a| > 0 {
      assert (a + b)[1..] == a[1..] + b;
      FilterAppend(a[1..], b, keep);
    } else {
      assert a + b == b;
    }
  }

  /** A single element is kept exactly when it is accepted. */
  lemma FilterSingle<T(!new)>(x: T, keep: T -> bool)
    ensures Filter([x], keep) == if keep(x) then [x] else []
  {
  }

  /** Nothing is dropped when everything is accepted. */
  lemma {:induction false} FilterKeepsAll<T(!new)>(s: seq<T>, keep: T -> bool)
    requires forall i :: 0 <= i < |s| ==> keep(s[i])
    ensures Filter(s, keep) == s
  {
    if |s| > 0 {
      FilterKeepsAll(s[1..], keep);
    }
  }

  /** Moving the first of `xs` to the end of `h` keeps the concatenation. */
  lemma MoveFirst<T>(h: seq<T>, xs: seq<T>)
    requires |xs| > 0
    ensures h + [xs[0]] + xs[1..] == h + xs
  {
  }

  /** A slice of the tail is the slice one further along. */
  lemma TailSlice<T>(s: seq<T>, i: nat, j: nat)
    requires i <= j < |s|
    ensures s[1..][i..j] == s[i + 1..j + 1]
    ensures i == 0 ==> [s[0]] + s[1..][0..j] == s[0..j + 1]
  {
  }

  /** The elements of the tail are the elements after the first. */
  lemma TailIndex<T>(s: seq<T>)
    requires |s| > 0
    ensures forall k :: 0 <= k < |s| - 1 ==> s[1..][k] == s[k + 1]
  {
  }
}
