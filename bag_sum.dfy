/** Sums of multisets over a multiset: the generator's "for each element,
    add all its variants" written as one value. A Java `HashSet` of query
    objects is keyed by identity, so equal variants made from different
    objects are all kept; a multiset keeps them too. The order in which the
    elements are visited does not change the sum (SumRemove). */
module Bags {

  ghost function Sum<T, U>(m: multiset<T>, f: T -> multiset<U>): (r: multiset<U>)
    decreases |m|
  {
    if m == multiset{} then multiset{}
    else
      var x :| x in m;
      f(x) + Sum(m - multiset{x}, f)
  }

  /** Any element may be taken out first. */
  lemma {:induction false} SumRemove<T, U>(m: multiset<T>, f: T -> multiset<U>, x: T)
    requires x in m
    ensures Sum(m, f) == f(x) + Sum(m - multiset{x}, f)
    decreases |m|
  {
    var y :| y in m && Sum(m, f) == f(y) + Sum(m - multiset{y}, f);
    if y != x {
      var rest := m - multiset{x} - multiset{y};
      assert m - multiset{y} - multiset{x} == rest;
      SumRemove(m - multiset{y}, f, x);
      SumRemove(m - multiset{x}, f, y);
    }
  }

  lemma SumSingleton<T, U>(x: T, f: T -> multiset<U>)
    ensures Sum(multiset{x}, f) == f(x)
  {
    SumRemove(multiset{x}, f, x);
  }

  /** When every element has `c` variants, the sum has `c` per element. */
  lemma {:induction false} SumCount<T, U>(m: multiset<T>, f: T -> multiset<U>, c: nat)
    requires forall x :: x in m ==> |f(x)| == c
    ensures |Sum(m, f)| == c * |m|
    decreases |m|
  {
    if m != multiset{} {
      var x :| x in m;
      SumRemove(m, f, x);
      var rest := m - multiset{x};
      SumCount(rest, f, c);
      assert |rest| + 1 == |m|;
      assert |Sum(m, f)| == c + c * |rest|;
      assert c * (|rest| + 1) == c * |rest| + c;
    }
  }

  /** The variants of every element are all in the sum. */
  lemma SumIncludes<T, U>(m: multiset<T>, f: T -> multiset<U>, x: T)
    requires x in m
    ensures f(x) <= Sum(m, f)
  {
    SumRemove(m, f, x);
  }

  /** Everything in the sum is a variant of some element. */
  lemma {:induction false} SumOrigin<T, U>(m: multiset<T>, f: T -> multiset<U>, v: U)
    requires v in Sum(m, f)
    ensures exists x :: x in m && v in f(x)
    decreases |m|
  {
    var x :| x in m;
    SumRemove(m, f, x);
    if v !in f(x) {
      SumOrigin(m - multiset{x}, f, v);
    }
  }

  /** Elements without variants contribute nothing. */
  lemma {:induction false} SumNone<T, U>(m: multiset<T>, f: T -> multiset<U>)
    requires forall x :: x in m ==> f(x) == multiset{}
    ensures Sum(m, f) == multiset{}
    decreases |m|
  {
    if m != multiset{} {
      var x :| x in m;
      SumRemove(m, f, x);
      SumNone(m - multiset{x}, f);
    }
  }

  /** Elements that are their own only variant pass through unchanged. */
  lemma {:induction false} SumSelf<T>(m: multiset<T>, f: T -> multiset<T>)
    requires forall x :: x in m ==> f(x) == multiset{x}
    ensures Sum(m, f) == m
    decreases |m|
  {
    if m != multiset{} {
      var x :| x in m;
      SumRemove(m, f, x);
      SumSelf(m - multiset{x}, f);
      assert multiset{x} + (m - multiset{x}) == m;
    }
  }
}
