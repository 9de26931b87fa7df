/** Where the elements that satisfy a condition are in a sequence. */
module Positions {
  function Filter<T>(s: seq<T>, p: T -> bool): seq<T> {
    if s == [] then [] else (if p(s[0]) then [s[0]] else []) + Filter(s[1..], p)
  }

  /** These are the positions of all the elements that satisfy `p`, in order. */
  ghost predicate ArePositions<T(!new)>(s: seq<T>, p: T -> bool, ps: seq<nat>) {
    && (forall a :: 0 <= a < |ps| ==> ps[a] < |s| && p(s[ps[a]]))
    && (forall a, b :: 0 <= a < b < |ps| ==> ps[a] < ps[b])
    && (forall i :: 0 <= i < |s| && p(s[i]) ==> i in ps)
  }

  /** The elements of `r` are those of `s` at these positions. */
  ghost predicate Picks<T(!new)>(r: seq<T>, s: seq<T>, ps: seq<nat>) {
    |r| == |ps| && forall a :: 0 <= a < |ps| ==> ps[a] < |s| && r[a] == s[ps[a]]
  }

  /** The positions from `i` on. */
  function Where<T>(s: seq<T>, p: T -> bool, i: nat): seq<nat>
    requires i <= |s|
    decreases |s| - i
  {
    if i == |s| then [] else (if p(s[i]) then [i] else []) + Where(s, p, i + 1)
  }

  lemma {:induction false} WhereMeans<T>(s: seq<T>, p: T -> bool, i: nat, a: nat)
    requires i <= |s| && a < |Where(s, p, i)|
    ensures var ps := Where(s, p, i); i <= ps[a] < |s| && p(s[ps[a]]) && (a > 0 ==> ps[a - 1] < ps[a])
    decreases |s| - i
  {
    if !p(s[i]) {
      WhereMeans(s, p, i + 1, a);
    } else if a > 0 {
      WhereMeans(s, p, i + 1, a - 1);
    }
  }

  lemma {:induction false} WhereHas<T>(s: seq<T>, p: T -> bool, i: nat, k: nat) returns (a: nat)
    requires i <= k < |s| && p(s[k])
    ensures a < |Where(s, p, i)| && Where(s, p, i)[a] == k
    decreases k - i
  {
    if i == k {
      a := 0;
    } else {
      a := WhereHas(s, p, i + 1, k);
      var rest := Where(s, p, i + 1);
      if p(s[i]) {
        assert Where(s, p, i) == [i] + rest;
        a := a + 1;
      } else {
        assert Where(s, p, i) == [] + rest == rest;
      }
    }
  }

  lemma {:induction false} WherePicks<T>(s: seq<T>, p: T -> bool, i: nat, a: nat)
    requires i <= |s|
    ensures |Filter(s[i..], p)| == |Where(s, p, i)|
    ensures a < |Where(s, p, i)| ==> Where(s, p, i)[a] < |s| && Filter(s[i..], p)[a] == s[Where(s, p, i)[a]]
    decreases |s| - i
  {
    if a < |Where(s, p, i)| {
      WhereMeans(s, p, i, a);
    }
    if i < |s| {
      assert s[i..][1..] == s[i + 1..];
      WherePicks(s, p, i + 1, if p(s[i]) && a > 0 then a - 1 else a);
    }
  }

  /** Each before the next is each before all later ones. */
  lemma {:induction false} Ascends(ps: seq<nat>, a: nat, b: nat)
    requires a < b < |ps| && forall i :: 0 < i < |ps| ==> ps[i - 1] < ps[i]
    ensures ps[a] < ps[b]
    decreases b
  {
    if a < b - 1 {
      Ascends(ps, a, b - 1);
    }
  }

  /** A filter keeps, in their order, exactly the elements that satisfy the condition. */
  lemma FilterPicks<T(!new)>(s: seq<T>, p: T -> bool) returns (ps: seq<nat>)
    ensures ArePositions(s, p, ps) && Picks(Filter(s, p), s, ps)
  {
    ps := Where(s, p, 0);
    assert s[0..] == s;
    WherePicks(s, p, 0, 0);
    forall a | 0 <= a < |ps|
      ensures ps[a] < |s| && p(s[ps[a]]) && Filter(s, p)[a] == s[ps[a]]
    {
      WhereMeans(s, p, 0, a);
      WherePicks(s, p, 0, a);
    }
    forall a, b | 0 <= a < b < |ps|
      ensures ps[a] < ps[b]
    {
      forall k | 0 < k < |ps|
        ensures ps[k - 1] < ps[k]
      {
        WhereMeans(s, p, 0, k);
      }
      Ascends(ps, a, b);
    }
    forall k | 0 <= k < |s| && p(s[k])
      ensures k in ps
    {
      var a := WhereHas(s, p, 0, k);
    }
  }

  /** There is one way only to list the positions in order. */
  lemma PositionsAreUnique<T(!new)>(s: seq<T>, p: T -> bool, ps: seq<nat>, qs: seq<nat>)
    requires ArePositions(s, p, ps) && ArePositions(s, p, qs)
    ensures ps == qs
  {
    forall i
      ensures i in ps <==> i in qs
    {
      if i in ps {
        var a :| 0 <= a < |ps| && ps[a] == i;
      }
      if i in qs {
        var a :| 0 <= a < |qs| && qs[a] == i;
      }
    }
    SameInOrder(ps, qs);
  }

  lemma {:induction false} SameInOrder(a: seq<nat>, b: seq<nat>)
    requires forall i, j :: 0 <= i < j < |a| ==> a[i] < a[j]
    requires forall i, j :: 0 <= i < j < |b| ==> b[i] < b[j]
    requires forall p :: p in a <==> p in b
    ensures a == b
  {
    if a != [] {
      assert a[0] in b;
    }
    if b != [] {
      assert b[0] in a;
    }
    if a != [] && b != [] {
      assert a == [a[0]] + a[1..] && b == [b[0]] + b[1..];
      forall p
        ensures p in a[1..] <==> p in b[1..]
      {
        assert p in a[1..] <==> p in a && p != a[0];
        assert p in b[1..] <==> p in b && p != b[0];
      }
      SameInOrder(a[1..], b[1..]);
    }
  }
}
