/** Reading a trace entry by entry. */
module Traces {
  /** The readings of every entry, in order. */
  function FlatMap<E, T>(f: E -> seq<T>, xs: seq<E>): seq<T> {
    if xs == [] then [] else FlatMap(f, xs[..|xs| - 1]) + f(xs[|xs| - 1])
  }

  lemma FlatMapAppend<E, T>(f: E -> seq<T>, xs: seq<E>, x: E)
    ensures FlatMap(f, xs + [x]) == FlatMap(f, xs) + f(x)
  {
    assert (xs + [x])[..|xs|] == xs;
  }

  lemma FlatMapSingle<E, T>(f: E -> seq<T>, x: E)
    ensures FlatMap(f, [x]) == f(x)
  {
    FlatMapAppend(f, [], x);
    assert [] + [x] == [x] && FlatMap(f, []) + f(x) == f(x);
  }

  lemma {:induction false} FlatMapConcat<E, T>(f: E -> seq<T>, xs: seq<E>, ys: seq<E>)
    ensures FlatMap(f, xs + ys) == FlatMap(f, xs) + FlatMap(f, ys)
  {
    if ys == [] {
      assert xs + ys == xs;
    } else {
      hide FlatMap;
      var front, y := ys[..|ys| - 1], ys[|ys| - 1];
      FlatMapConcat(f, xs, front);
      FlatMapConcatStep(f, xs, front, y);
      assert ys == front + [y];
    }
  }

  lemma FlatMapConcatStep<E, T>(f: E -> seq<T>, xs: seq<E>, ys: seq<E>, y: E)
    requires FlatMap(f, xs + ys) == FlatMap(f, xs) + FlatMap(f, ys)
    ensures FlatMap(f, xs + (ys + [y])) == FlatMap(f, xs) + FlatMap(f, ys + [y])
  {
    hide FlatMap;
    FlatMapAppend(f, ys, y);
    FlatMapAppend(f, xs + ys, y);
    assert xs + (ys + [y]) == (xs + ys) + [y];
  }

  lemma {:induction false} FlatMapNothing<E, T>(f: E -> seq<T>, xs: seq<E>)
    requires forall x | x in xs :: f(x) == []
    ensures FlatMap(f, xs) == []
  {
    if xs != [] {
      FlatMapNothing(f, xs[..|xs| - 1]);
    }
  }
}
