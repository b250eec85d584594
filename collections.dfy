/** Small sequence utilities shared by the list page, the search and the front-matter parser:
    JavaScript's `Array.prototype.filter` and the notion of "a subsequence in original order". */
module Collections {

  /** `null`/`undefined` versus a present value. */
  datatype Option<+T> = None | Some(value: T)

  /** `xs.filter(keep)`: the elements of `xs` for which `keep` holds, in their original order. */
  function Filter<T(!new)>(xs: seq<T>, keep: T -> bool): (r: seq<T>)
    ensures |r| <= |xs|
    ensures forall x :: x in r <==> x in xs && keep(x)
    ensures forall x :: multiset(r)[x] == if keep(x) then multiset(xs)[x] else 0
  {
    if xs == [] then []
    else
      assert xs == [xs[0]] + xs[1..];
      if keep(xs[0]) then [xs[0]] + Filter(xs[1..], keep)
      else Filter(xs[1..], keep)
  }

  /** `sub` is obtained from `xs` by deleting elements, without reordering the rest. */
  ghost predicate IsSubsequence<T>(sub: seq<T>, xs: seq<T>)
    decreases |xs|
  {
    sub == [] ||
    (xs != [] &&
     ((sub[0] == xs[0] && IsSubsequence(sub[1..], xs[1..])) || IsSubsequence(sub, xs[1..])))
  }

  /** A filter keeps the survivors in their original order. */
  lemma {:induction false} FilterIsSubsequence<T(!new)>(xs: seq<T>, keep: T -> bool)
    ensures IsSubsequence(Filter(xs, keep), xs)
  {
    if xs != [] {
      FilterIsSubsequence(xs[1..], keep);
      if keep(xs[0]) {
        assert Filter(xs, keep)[1..] == Filter(xs[1..], keep);
      }
    }
  }

  /** Filtering twice is filtering once by the conjunction; so two filters commute. */
  lemma {:induction false} FilterFilter<T(!new)>(xs: seq<T>, first: T -> bool, second: T -> bool, both: T -> bool)
    requires forall x :: both(x) == (first(x) && second(x))
    ensures Filter(Filter(xs, first), second) == Filter(xs, both)
  {
    if xs != [] {
      FilterFilter(xs[1..], first, second, both);
      if first(xs[0]) {
        assert Filter(xs, first) == [xs[0]] + Filter(xs[1..], first);
        assert Filter(xs, first)[1..] == Filter(xs[1..], first);
      }
    }
  }

  /** Filtering with a predicate that keeps everything returns the input. */
  lemma {:induction false} FilterAll<T(!new)>(xs: seq<T>, keep: T -> bool)
    requires forall x :: x in xs ==> keep(x)
    ensures Filter(xs, keep) == xs
  {
    if xs != [] {
      FilterAll(xs[1..], keep);
    }
  }
}
