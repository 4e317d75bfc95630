/** Sorting a finite set of numbers, as the JavaScript idiom `Array.from(new Set(xs)).sort((a, b) => a - b)` does. */
module Sorting {

  ghost predicate StrictlySorted(xs: seq<int>) {
    forall i, j :: 0 <= i < j < |xs| ==> xs[i] < xs[j]
  }

  /** The elements of a sequence. */
  function Elements<T>(xs: seq<T>): set<T> {
    set x | x in xs
  }

  ghost predicate IsMin(m: int, s: set<int>) {
    m in s && forall x | x in s :: m <= x
  }

  lemma {:induction false} MinExists(s: set<int>)
    requires s != {}
    ensures exists m :: IsMin(m, s)
  {
    assert (forall x :: x !in s) ==> s == {};
    var x :| x in s;
    var rest := s - {x};
    if rest == {} {
      assert s == {x};
      assert IsMin(x, s);
    } else {
      MinExists(rest);
      var m :| IsMin(m, rest);
      assert forall y | y in s :: y == x || y in rest;
      assert IsMin(if m < x then m else x, s);
    }
  }

  function Min(s: set<int>): (m: int)
    requires s != {}
    ensures IsMin(m, s)
  {
    MinExists(s);
    var m :| m in s && forall x | x in s :: m <= x;
    m
  }

  function SortedSeq(s: set<int>): (xs: seq<int>)
    ensures StrictlySorted(xs)
    ensures Elements(xs) == s
    ensures |xs| == |s|
    decreases s
  {
    if s == {} then [] else
      var m := Min(s);
      var rest := SortedSeq(s - {m});
      PrependMin(m, rest, s);
      [m] + rest
  }

  lemma PrependMin(m: int, rest: seq<int>, s: set<int>)
    requires IsMin(m, s)
    requires StrictlySorted(rest) && Elements(rest) == s - {m}
    ensures StrictlySorted([m] + rest)
    ensures Elements([m] + rest) == s
  {
    var xs := [m] + rest;
    forall i, j | 0 <= i < j < |xs| ensures xs[i] < xs[j] {
      assert xs[j] == rest[j - 1] && rest[j - 1] in Elements(rest);
      assert i > 0 ==> xs[i] == rest[i - 1];
    }
    forall x ensures x in xs <==> x in s {
      assert x in xs <==> x == m || x in rest;
      assert x in rest <==> x in Elements(rest);
    }
  }

  /** A strictly sorted sequence is determined by its elements. */
  lemma {:induction false} SortedIsUnique(xs: seq<int>, ys: seq<int>)
    requires StrictlySorted(xs) && StrictlySorted(ys)
    requires Elements(xs) == Elements(ys)
    ensures xs == ys
    decreases |xs|
  {
    assert xs == [] <==> Elements(xs) == {} by { EmptyElements(xs); }
    assert ys == [] <==> Elements(ys) == {} by { EmptyElements(ys); }
    if xs != [] && ys != [] {
      assert xs[0] in Elements(ys) && ys[0] in Elements(xs);
      assert xs[0] == ys[0];
      assert Elements(xs[1..]) == Elements(xs) - {xs[0]} by { TailElements(xs); }
      assert Elements(ys[1..]) == Elements(ys) - {ys[0]} by { TailElements(ys); }
      SortedIsUnique(xs[1..], ys[1..]);
      assert xs == [xs[0]] + xs[1..] && ys == [ys[0]] + ys[1..];
    }
  }

  lemma EmptyElements(xs: seq<int>)
    ensures xs == [] <==> Elements(xs) == {}
  {
    assert xs != [] ==> xs[0] in Elements(xs);
  }

  lemma TailElements(xs: seq<int>)
    requires StrictlySorted(xs) && xs != []
    ensures Elements(xs[1..]) == Elements(xs) - {xs[0]}
  {
    forall x ensures x in xs[1..] <==> x in xs && x != xs[0] {
      if x in xs && x != xs[0] {
        var i :| 0 <= i < |xs| && xs[i] == x;
        assert xs[1..][i - 1] == x;
      }
    }
  }
}
