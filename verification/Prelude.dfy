/** Types and set facts shared by the other modules. */
module Prelude {
  datatype Option<+T> = None | Some(value: T)

  lemma SubsetCardinality<T>(a: set<T>, b: set<T>)
    requires a < b
    ensures |a| < |b|
  {
    assert b == a + (b - a);
    assert |b| == |a| + |b - a|;
  }

  lemma SubsetSize<T>(a: set<T>, b: set<T>)
    requires a <= b
    ensures |a| <= |b|
  {
    if a != b { SubsetCardinality(a, b); }
  }

  lemma SizeWithOrWithout<T>(s: set<T>, x: T)
    ensures |s + {x}| == (if x in s then |s| else |s| + 1) && |s - {x}| == if x in s then |s| - 1 else |s|
  {
    if x in s { assert s + {x} == s; } else { assert s - {x} == s; }
  }

  lemma SubsetEquality<T>(a: set<T>, b: set<T>)
    requires a <= b && |a| >= |b|
    ensures a == b
  {
    if a != b { SubsetCardinality(a, b); }
  }

  /** Pigeonhole: a sequence longer than the set it draws from repeats an element. */
  lemma {:induction false} Pigeonhole<T>(s: seq<T>, universe: set<T>) returns (i: nat, j: nat)
    requires |s| > |universe| && forall x | x in s :: x in universe
    ensures i < j < |s| && s[i] == s[j]
  {
    var last := |s| - 1;
    assert s[last] in universe;
    if k :| 0 <= k < last && s[k] == s[last] {
      i, j := k, last;
    } else {
      var rest := s[..last];
      assert |universe - {s[last]}| == |universe| - 1;
      i, j := Pigeonhole(rest, universe - {s[last]});
    }
  }

  lemma Associative<T>(a: seq<T>, b: seq<T>, c: seq<T>)
    ensures a + (b + c) == (a + b) + c
  {
  }

  /** The sequences `f` gives for the elements, one after the other. */
  function FlatMap<A, B>(f: A -> seq<B>, xs: seq<A>): seq<B> {
    if xs == [] then [] else f(xs[0]) + FlatMap(f, xs[1..])
  }

  lemma {:induction false} FlatMapAppend<A, B>(f: A -> seq<B>, xs: seq<A>, ys: seq<A>)
    ensures FlatMap(f, xs + ys) == FlatMap(f, xs) + FlatMap(f, ys)
  {
    if xs == [] {
      assert xs + ys == ys;
    } else {
      FlatMapAppend(f, xs[1..], ys);
      assert (xs + ys)[0] == xs[0] && (xs + ys)[1..] == xs[1..] + ys;
      Associative(f(xs[0]), FlatMap(f, xs[1..]), FlatMap(f, ys));
    }
  }

  lemma FlatMapNext<A, B>(f: A -> seq<B>, xs: seq<A>, y: A)
    ensures FlatMap(f, xs + [y]) == FlatMap(f, xs) + f(y)
  {
    FlatMapAppend(f, xs, [y]);
    assert FlatMap(f, [y]) == f(y) + FlatMap(f, []);
  }

  ghost predicate NoRepeats<T>(s: seq<T>) {
    forall i, j | 0 <= i < j < |s| :: s[i] != s[j]
  }

  /** The sequence without the occurrences of an element. */
  function Without<T(==, !new)>(s: seq<T>, x: T): (r: seq<T>)
    ensures |r| <= |s| && forall y :: y in r <==> y in s && y != x
  {
    if s == [] then [] else (if s[0] == x then [] else [s[0]]) + Without(s[1..], x)
  }

  lemma {:induction false} WithoutKeepsNoRepeats<T(!new)>(s: seq<T>, x: T)
    requires NoRepeats(s)
    ensures NoRepeats(Without(s, x))
  {
    if s != [] {
      WithoutKeepsNoRepeats(s[1..], x);
      var rest := Without(s[1..], x);
      if s[0] == x {
        assert Without(s, x) == rest;
      } else {
        assert s[0] !in s[1..];
        assert forall j | 0 <= j < |rest| :: rest[j] in rest;
        assert Without(s, x) == [s[0]] + rest;
      }
    }
  }

  lemma {:induction false} WithoutAbsent<T(!new)>(s: seq<T>, x: T)
    requires x !in s
    ensures Without(s, x) == s
  {
    if s != [] { WithoutAbsent(s[1..], x); }
  }

  ghost predicate Increasing<T>(s: seq<T>, rank: T -> int) {
    forall i, j | 0 <= i < j < |s| :: rank(s[i]) < rank(s[j])
  }

  lemma {:induction false} WithoutKeepsIncreasing<T(!new)>(s: seq<T>, x: T, rank: T -> int)
    requires Increasing(s, rank)
    ensures Increasing(Without(s, x), rank)
  {
    if s != [] {
      WithoutKeepsIncreasing(s[1..], x, rank);
      var rest := Without(s[1..], x);
      forall j | 0 <= j < |rest| ensures rank(s[0]) < rank(rest[j]) {
        assert rest[j] in s[1..];
        var i :| 0 < i < |s| && s[i] == rest[j];
      }
      assert Without(s, x) == if s[0] == x then rest else [s[0]] + rest;
    }
  }
}
