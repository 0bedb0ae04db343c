/**
 * Python's `sorted`: a stable sort. It is modelled by insertion; `StableSortUnique` shows that
 * nothing depends on that choice, because a list has only one stable sorted arrangement.
 */
module Sorting {

  // `leq` is a total preorder on the elements of `xs`.
  ghost predicate PreorderOn<T(!new)>(xs: set<T>, leq: (T, T) -> bool) {
    && (forall x, y :: x in xs && y in xs ==> leq(x, y) || leq(y, x))
    && (forall x, y, z :: x in xs && y in xs && z in xs && leq(x, y) && leq(y, z) ==> leq(x, z))
  }

  ghost predicate Ordered<T>(xs: seq<T>, leq: (T, T) -> bool) {
    forall i, j :: 0 <= i < j < |xs| ==> leq(xs[i], xs[j])
  }

  function Elements<T>(xs: seq<T>): set<T> {
    set x | x in xs
  }

  // `[x]` when `x` ties with `g`.
  function Tie<T>(g: T, x: T, leq: (T, T) -> bool): seq<T> {
    if leq(g, x) && leq(x, g) then [x] else []
  }

  // The elements of `xs` that tie with `g`, in order.
  function Ties<T>(g: T, xs: seq<T>, leq: (T, T) -> bool): seq<T> {
    if xs == [] then [] else Tie(g, xs[0], leq) + Ties(g, xs[1..], leq)
  }

  // Elements that tie keep their order, and none is gained or lost.
  ghost predicate Stable<T>(xs: seq<T>, ys: seq<T>, leq: (T, T) -> bool) {
    && multiset(xs) == multiset(ys)
    && forall g :: g in xs ==> Ties(g, ys, leq) == Ties(g, xs, leq)
  }

  function Insert<T>(x: T, ys: seq<T>, leq: (T, T) -> bool): seq<T> {
    if ys == [] || leq(x, ys[0]) then [x] + ys else [ys[0]] + Insert(x, ys[1..], leq)
  }

  function Sorted<T>(xs: seq<T>, leq: (T, T) -> bool): seq<T> {
    if xs == [] then [] else Insert(xs[0], Sorted(xs[1..], leq), leq)
  }

  lemma {:induction false} InsertPermutes<T>(x: T, ys: seq<T>, leq: (T, T) -> bool)
    ensures multiset(Insert(x, ys, leq)) == multiset(ys) + multiset{x}
  {
    if !(ys == [] || leq(x, ys[0])) {
      InsertPermutes(x, ys[1..], leq);
      assert ys == [ys[0]] + ys[1..];
    }
  }

  lemma {:induction false} SortedPermutes<T>(xs: seq<T>, leq: (T, T) -> bool)
    ensures multiset(Sorted(xs, leq)) == multiset(xs)
  {
    if xs != [] {
      SortedPermutes(xs[1..], leq);
      InsertPermutes(xs[0], Sorted(xs[1..], leq), leq);
      assert xs == [xs[0]] + xs[1..];
    }
  }

  lemma SameElements<T>(xs: seq<T>, ys: seq<T>)
    requires multiset(xs) == multiset(ys)
    ensures Elements(xs) == Elements(ys) && |xs| == |ys|
  {
    forall x ensures x in xs <==> x in ys {
      assert x in multiset(xs) <==> x in xs;
      assert x in multiset(ys) <==> x in ys;
    }
    assert |multiset(xs)| == |xs| && |multiset(ys)| == |ys|;
  }

  lemma {:induction false} NoElements<T>(xs: seq<T>)
    ensures Elements(xs) == {} <==> xs == []
  {
    if xs != [] { assert xs[0] in Elements(xs); }
  }

  lemma OrderedTail<T>(xs: seq<T>, leq: (T, T) -> bool)
    requires xs != [] && Ordered(xs, leq)
    ensures Ordered(xs[1..], leq)
    ensures forall x :: x in xs[1..] ==> leq(xs[0], x)
  {
  }

  lemma OrderedCons<T>(x: T, ys: seq<T>, leq: (T, T) -> bool)
    requires Ordered(ys, leq) && forall y :: y in ys ==> leq(x, y)
    ensures Ordered([x] + ys, leq)
  {
  }

  lemma {:induction false} InsertOrdered<T(!new)>(x: T, ys: seq<T>, leq: (T, T) -> bool)
    requires PreorderOn(Elements([x] + ys), leq) && Ordered(ys, leq)
    ensures Ordered(Insert(x, ys, leq), leq)
  {
    var all := Elements([x] + ys);
    assert x in all && forall y :: y in ys ==> y in [x] + ys && y in all;
    if ys == [] {
    } else if leq(x, ys[0]) {
      OrderedTail(ys, leq);
      forall y | y in ys ensures leq(x, y) {
        assert y == ys[0] || y in ys[1..];
      }
      OrderedCons(x, ys, leq);
    } else {
      OrderedTail(ys, leq);
      InsertOrdered(x, ys[1..], leq);
      InsertPermutes(x, ys[1..], leq);
      forall y | y in Insert(x, ys[1..], leq) ensures leq(ys[0], y) {
        assert y in multiset(Insert(x, ys[1..], leq));
        assert y == x || y in ys[1..];
      }
      OrderedCons(ys[0], Insert(x, ys[1..], leq), leq);
    }
  }

  lemma {:induction false} SortedOrdered<T(!new)>(xs: seq<T>, leq: (T, T) -> bool)
    requires PreorderOn(Elements(xs), leq)
    ensures Ordered(Sorted(xs, leq), leq)
  {
    if xs != [] {
      assert Elements(xs[1..]) <= Elements(xs);
      SortedOrdered(xs[1..], leq);
      SortedPermutes(xs[1..], leq);
      SameElements(Sorted(xs[1..], leq), xs[1..]);
      var ys := Sorted(xs[1..], leq);
      assert Elements([xs[0]] + ys) <= Elements(xs) by {
        forall y | y in [xs[0]] + ys ensures y in xs {
          if y in ys { assert y in Elements(ys); }
        }
      }
      InsertOrdered(xs[0], ys, leq);
    }
  }

  lemma {:induction false} TiesCons<T>(g: T, x: T, xs: seq<T>, leq: (T, T) -> bool)
    ensures Ties(g, [x] + xs, leq) == Tie(g, x, leq) + Ties(g, xs, leq)
  {
    assert ([x] + xs)[1..] == xs;
  }

  lemma {:induction false} InsertTies<T(!new)>(g: T, x: T, ys: seq<T>, leq: (T, T) -> bool)
    requires PreorderOn(Elements([g, x] + ys), leq)
    ensures Ties(g, Insert(x, ys, leq), leq) == Ties(g, [x] + ys, leq)
  {
    if !(ys == [] || leq(x, ys[0])) {
      var y, rest := ys[0], ys[1..];
      assert ys == [y] + rest;
      assert Elements([g, x] + rest) <= Elements([g, x] + ys);
      InsertTies(g, x, rest, leq);
      TiesCons(g, x, ys, leq);
      TiesCons(g, x, rest, leq);
      TiesCons(g, y, Insert(x, rest, leq), leq);
      OneOfTwoTies(g, x, y, leq);
      SwapEmpty(Tie(g, x, leq), Tie(g, y, leq), Ties(g, rest, leq));
    }
  }

  // Elements that do not tie with each other do not both tie with `g`.
  lemma {:induction false} OneOfTwoTies<T(!new)>(g: T, x: T, y: T, leq: (T, T) -> bool)
    requires leq(g, x) && leq(x, g) && leq(g, y) ==> leq(x, y)
    requires !leq(x, y)
    ensures Tie(g, x, leq) == [] || Tie(g, y, leq) == []
  {
  }

  lemma {:induction false} SwapEmpty<T>(a: seq<T>, b: seq<T>, rest: seq<T>)
    requires a == [] || b == []
    ensures a + (b + rest) == b + (a + rest)
  {
  }

  lemma {:induction false} SortedTies<T(!new)>(g: T, xs: seq<T>, leq: (T, T) -> bool)
    requires PreorderOn(Elements([g] + xs), leq)
    ensures Ties(g, Sorted(xs, leq), leq) == Ties(g, xs, leq)
  {
    if xs != [] {
      var ys := Sorted(xs[1..], leq);
      assert Elements([g] + xs[1..]) <= Elements([g] + xs);
      SortedTies(g, xs[1..], leq);
      SortedPermutes(xs[1..], leq);
      SameElements(ys, xs[1..]);
      forall y | y in [g, xs[0]] + ys ensures y in [g] + xs {
        if y in ys { assert y in Elements(ys); }
      }
      InsertTies(g, xs[0], ys, leq);
      assert ([xs[0]] + ys)[1..] == ys;
    }
  }

  // Sorting by a total preorder arranges the elements in order and keeps ties as they were.
  lemma SortedIsStable<T(!new)>(xs: seq<T>, leq: (T, T) -> bool)
    requires PreorderOn(Elements(xs), leq)
    ensures Ordered(Sorted(xs, leq), leq)
    ensures Stable(xs, Sorted(xs, leq), leq)
  {
    SortedOrdered(xs, leq);
    SortedPermutes(xs, leq);
    forall g | g in xs ensures Ties(g, Sorted(xs, leq), leq) == Ties(g, xs, leq) {
      assert Elements([g] + xs) == Elements(xs);
      SortedTies(g, xs, leq);
    }
  }

  lemma TiesOfTail<T(!new)>(xs: seq<T>, ys: seq<T>, leq: (T, T) -> bool)
    requires xs != [] && ys != [] && xs[0] == ys[0]
    requires Stable(xs, ys, leq)
    ensures Stable(xs[1..], ys[1..], leq)
  {
    assert xs == [xs[0]] + xs[1..] && ys == [ys[0]] + ys[1..];
    assert multiset(xs[1..]) == multiset(xs) - multiset{xs[0]};
    assert multiset(ys[1..]) == multiset(ys) - multiset{ys[0]};
    forall g | g in xs[1..] ensures Ties(g, ys[1..], leq) == Ties(g, xs[1..], leq) {
      assert g in xs;
      assert Ties(g, xs, leq) == Ties(g, ys, leq);
      if leq(g, xs[0]) && leq(xs[0], g) {
        assert Ties(g, xs, leq)[1..] == Ties(g, xs[1..], leq);
        assert Ties(g, ys, leq)[1..] == Ties(g, ys[1..], leq);
      } else {
        assert Ties(g, xs, leq) == Ties(g, xs[1..], leq);
        assert Ties(g, ys, leq) == Ties(g, ys[1..], leq);
      }
    }
  }

  // Two ordered arrangements that keep the same ties are the same list, so every stable sort
  // gives the result of `Sorted`.
  lemma {:induction false} StableSortUnique<T(!new)>(xs: seq<T>, ys: seq<T>, leq: (T, T) -> bool)
    requires PreorderOn(Elements(xs), leq)
    requires Ordered(xs, leq) && Ordered(ys, leq) && Stable(xs, ys, leq)
    ensures xs == ys
  {
    SameElements(xs, ys);
    if xs != [] {
      var x, y := xs[0], ys[0];
      assert x in Elements(xs) && y in Elements(ys);
      assert leq(x, x) && leq(y, y);
      assert y in Elements(xs) && x in Elements(ys);
      assert leq(x, y) && leq(y, x);
      assert Ties(x, xs, leq)[0] == x && Ties(x, ys, leq)[0] == y;
      TiesOfTail(xs, ys, leq);
      OrderedTail(xs, leq);
      OrderedTail(ys, leq);
      assert Elements(xs[1..]) <= Elements(xs);
      StableSortUnique(xs[1..], ys[1..], leq);
      assert xs == [x] + xs[1..] && ys == [y] + ys[1..];
    }
  }

  lemma StableTransfer<T(!new)>(xs: seq<T>, ys: seq<T>, leq: (T, T) -> bool)
    requires PreorderOn(Elements(xs), leq) && Ordered(ys, leq) && Stable(xs, ys, leq)
    ensures ys == Sorted(xs, leq)
  {
    SortedIsStable(xs, leq);
    var zs := Sorted(xs, leq);
    SameElements(xs, ys);
    assert Stable(ys, zs, leq) by {
      forall g | g in ys ensures Ties(g, zs, leq) == Ties(g, ys, leq) {
        assert g in Elements(ys);
      }
    }
    StableSortUnique(ys, zs, leq);
  }
}
