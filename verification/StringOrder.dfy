/** Sorting strings, as `sorted` does with the keys of a dict or the members of a set. */
module StringOrder {
  import opened Sorting
  import opened Strings

  ghost predicate Ascending(keys: seq<string>) {
    forall i, j :: 0 <= i < j < |keys| ==> Less(keys[i], keys[j])
  }

  lemma {:induction false} AtMostPreorder(xs: set<string>)
    ensures PreorderOn(xs, AtMost)
  {
    forall x, y | x in xs && y in xs ensures AtMost(x, y) || AtMost(y, x) {
      LessTrichotomy(x, y);
    }
    forall x, y, z | x in xs && y in xs && z in xs && AtMost(x, y) && AtMost(y, z) ensures AtMost(x, z) {
      if Less(x, y) && Less(y, z) { LessTransitive(x, y, z); }
    }
  }

  method SortedKeys(keys: set<string>) returns (order: seq<string>)
    ensures Ascending(order) && Elements(order) == keys
  {
    var listed: seq<string> := [];
    var rest := keys;
    while rest != {}
      invariant Elements(listed) == keys - rest && rest <= keys
      invariant forall i, j :: 0 <= i < j < |listed| ==> listed[i] != listed[j]
    {
      var key :| key in rest;
      assert key !in Elements(listed);
      assert Elements(listed + [key]) == Elements(listed) + {key};
      listed := listed + [key];
      rest := rest - {key};
    }
    order := Sorted(listed, AtMost);
    AtMostPreorder(Elements(listed));
    SortedOrdered(listed, AtMost);
    SortedPermutes(listed, AtMost);
    SameElements(order, listed);
    DistinctStays(listed, order);
  }

  lemma {:induction false} DistinctStays<T>(a: seq<T>, b: seq<T>)
    requires multiset(a) == multiset(b)
    requires forall i, j :: 0 <= i < j < |a| ==> a[i] != a[j]
    ensures forall i, j :: 0 <= i < j < |b| ==> b[i] != b[j]
  {
    DistinctCounts(a);
    forall i, j | 0 <= i < j < |b| ensures b[i] != b[j] {
      TwiceCounts(b, i, j);
    }
  }

  lemma {:induction false} TwiceCounts<T>(b: seq<T>, i: nat, j: nat)
    requires i < j < |b|
    ensures b[i] == b[j] ==> multiset(b)[b[i]] >= 2
  {
    assert b == b[..i] + [b[i]] + b[i + 1..j] + [b[j]] + b[j + 1..];
  }

  lemma {:induction false} DistinctCounts<T>(a: seq<T>)
    requires forall i, j :: 0 <= i < j < |a| ==> a[i] != a[j]
    ensures forall x :: multiset(a)[x] <= 1
  {
    if a != [] {
      DistinctCounts(a[1..]);
      assert a == [a[0]] + a[1..];
      assert a[0] !in a[1..];
    }
  }

  // A set of strings has one ascending listing.
  lemma {:induction false} AscendingUnique(a: seq<string>, b: seq<string>)
    requires Ascending(a) && Ascending(b) && Elements(a) == Elements(b)
    ensures a == b
  {
    NoElements(a);
    NoElements(b);
    if a != [] {
      var x, y := a[0], b[0];
      assert x in Elements(a) && y in Elements(b);
      var i :| 0 <= i < |b| && b[i] == x;
      var j :| 0 <= j < |a| && a[j] == y;
      LessTrichotomy(x, y);
      assert x == y;
      TailElements(a);
      TailElements(b);
      AscendingUnique(a[1..], b[1..]);
      assert a == [x] + a[1..] && b == [y] + b[1..];
    }
  }

  lemma {:induction false} TailElements(a: seq<string>)
    requires a != [] && Ascending(a)
    ensures Ascending(a[1..]) && Elements(a[1..]) == Elements(a) - {a[0]}
  {
    LessTrichotomy(a[0], a[0]);
    forall s ensures s in Elements(a[1..]) <==> s in Elements(a) - {a[0]} {
      if s in a[1..] {
        var i :| 0 <= i < |a[1..]| && a[1..][i] == s;
        assert Less(a[0], a[i + 1]);
      }
      if s in a && s != a[0] {
        var i :| 0 <= i < |a| && a[i] == s;
        assert a[1..][i - 1] == s;
      }
    }
  }
}
