/** Finite sets as the loops go over them. */
module Sets {
  /** An element of a set. */
  method Any<T(==)>(s: set<T>) returns (x: T)
    requires s != {}
    ensures x in s
  {
    assert (forall y :: y !in s) ==> s == {};
    x :| x in s;
  }

  /** Taking one element out of what is left adds it to what is done. */
  lemma OneTaken<T>(all: set<T>, rest: set<T>, x: T)
    requires x in rest && rest <= all
    ensures all - (rest - {x}) == (all - rest) + {x}
  {
  }

  /** The elements of a set, each once. */
  method Elements<T(==)>(s: set<T>) returns (r: seq<T>)
    ensures forall x :: x in r <==> x in s
    ensures forall i, j :: 0 <= i < j < |r| ==> r[i] != r[j]
  {
    r := [];
    var rest := s;
    while rest != {}
      invariant rest <= s
      invariant forall x :: x in r <==> x in s - rest
      invariant forall i, j :: 0 <= i < j < |r| ==> r[i] != r[j]
    {
      var x := Any(rest);
      assert x !in r;
      r, rest := r + [x], rest - {x};
    }
  }

  /** Distinct elements keep their number under a map that tells them apart. */
  lemma {:induction false} ImageSize<X, Y>(s: set<X>, image: set<Y>, f: X -> Y)
    requires image == set x | x in s :: f(x)
    requires forall x, y :: x in s && y in s && f(x) == f(y) ==> x == y
    ensures |image| == |s|
  {
    if s != {} {
      assert (forall x :: x !in s) ==> s == {};
      var x :| x in s;
      var rest := s - {x};
      var smaller := set y | y in rest :: f(y);
      ImageSize(rest, smaller, f);
      assert image == smaller + {f(x)};
      assert f(x) !in smaller;
    }
  }
}
