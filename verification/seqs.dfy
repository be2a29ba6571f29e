/** Generic sequence combinators: the list comprehensions the scripts build their lists with. */
module Seqs {

  /** The elements of `xs` that satisfy `f`, in their original order. */
  function Filter<T>(f: T -> bool, xs: seq<T>): (r: seq<T>)
    ensures |r| <= |xs|
    ensures forall i :: 0 <= i < |r| ==> r[i] in xs && f(r[i])
    ensures forall i :: 0 <= i < |xs| && f(xs[i]) ==> xs[i] in r
  {
    if xs == [] then []
    else (if f(xs[0]) then [xs[0]] else []) + Filter(f, xs[1..])
  }

  lemma {:induction false} LemmaFilterAppend<T>(f: T -> bool, xs: seq<T>, ys: seq<T>)
    ensures Filter(f, xs + ys) == Filter(f, xs) + Filter(f, ys)
    decreases |xs|
  {
    if xs != [] {
      assert (xs + ys)[1..] == xs[1..] + ys;
      LemmaFilterAppend(f, xs[1..], ys);
    } else {
      assert xs + ys == ys;
    }
  }

  /** `f` applied to every element of `xs`. */
  function Map<T, U>(f: T -> U, xs: seq<T>): (r: seq<U>)
    ensures |r| == |xs|
    ensures forall i :: 0 <= i < |xs| ==> r[i] == f(xs[i])
  {
    seq(|xs|, i requires 0 <= i < |xs| => f(xs[i]))
  }

  lemma LemmaMapAppend<T, U>(f: T -> U, xs: seq<T>, ys: seq<T>)
    ensures Map(f, xs + ys) == Map(f, xs) + Map(f, ys)
  {
  }
}
