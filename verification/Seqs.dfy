/** List comprehensions and multisets of sequences. */
module Seqs {
  // `[f(x) for x in xs]`
  function Map<A, B>(f: A -> B, xs: seq<A>): (r: seq<B>)
    ensures |r| == |xs|
    ensures forall i :: 0 <= i < |xs| ==> r[i] == f(xs[i])
  {
    if xs == [] then [] else [f(xs[0])] + Map(f, xs[1..])
  }

  lemma {:induction false} Associative<T>(a: seq<T>, b: seq<T>, c: seq<T>)
    ensures a + (b + c) == (a + b) + c
  {
  }

  lemma {:induction false} AssociativeFour<T>(a: seq<T>, b: seq<T>, c: seq<T>, d: seq<T>)
    ensures a + (b + (c + d)) == (a + b + c) + d == (a + b) + (c + d)
  {
  }

  lemma {:induction false} AssociativeFive<T>(a: seq<T>, b: seq<T>, c: seq<T>, d: seq<T>, e: seq<T>)
    ensures a + (b + (c + (d + e))) == (a + b + c + d) + e
  {
  }

  lemma MultisetMiddle<T>(a: seq<T>, x: T, b: seq<T>)
    ensures multiset(a + [x] + b) == multiset(a + b) + multiset{x}
  {
  }

  lemma MultisetCancel<T>(m: multiset<T>, x: T, y: T)
    ensures m + multiset{x} == m + multiset{y} <==> x == y
  {
    if m + multiset{x} == m + multiset{y} {
      assert (m + multiset{x})[x] == (m + multiset{y})[x];
    }
  }

  lemma MapConcat<A, B>(f: A -> B, a: seq<A>, b: seq<A>)
    ensures Map(f, a + b) == Map(f, a) + Map(f, b)
  {
  }

  lemma {:induction false} MapSplits<A, B>(f: A -> B, xs: seq<A>, at: nat)
    requires at < |xs|
    ensures multiset(Map(f, xs)) == multiset(Map(f, xs[..at] + xs[at + 1..])) + multiset{f(xs[at])}
  {
    var a, b := xs[..at], xs[at + 1..];
    assert Map(f, xs) == Map(f, a) + [f(xs[at])] + Map(f, b);
    MapConcat(f, a, b);
    MultisetMiddle(Map(f, a), f(xs[at]), Map(f, b));
  }
}
