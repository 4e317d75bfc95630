/** Concatenation, and a function that gives several results for each element. */
module Sequences {
  lemma Associates<T>(a: seq<T>, b: seq<T>, c: seq<T>)
    ensures (a + b) + c == a + (b + c)
  {
  }

  function FlatMap<A, B>(f: A -> seq<B>, xs: seq<A>): seq<B> {
    if xs == [] then [] else FlatMap(f, xs[..|xs| - 1]) + f(xs[|xs| - 1])
  }

  lemma FlatMapSnoc<A, B>(f: A -> seq<B>, xs: seq<A>, x: A)
    ensures FlatMap(f, xs + [x]) == FlatMap(f, xs) + f(x)
  {
    assert (xs + [x])[..|xs|] == xs;
  }

  lemma {:induction false} FlatMapAppend<A, B>(f: A -> seq<B>, a: seq<A>, b: seq<A>)
    ensures FlatMap(f, a + b) == FlatMap(f, a) + FlatMap(f, b)
  {
    if b == [] {
      assert a + b == a;
    } else {
      var k := |b| - 1;
      FlatMapAppend(f, a, b[..k]);
      assert (a + b)[..|a + b| - 1] == a + b[..k];
      Associates(FlatMap(f, a), FlatMap(f, b[..k]), f(b[k]));
    }
  }

  lemma FlatMapPrefix<A, B>(f: A -> seq<B>, xs: seq<A>, n: nat)
    requires n <= |xs|
    ensures FlatMap(f, xs[..n]) <= FlatMap(f, xs)
  {
    FlatMapAppend(f, xs[..n], xs[n..]);
    assert xs == xs[..n] + xs[n..];
  }
}
