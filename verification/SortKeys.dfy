/**
 * The multi-key comparator that orders a bibliography (citeproc/model.py:487-534).
 *
 * A key is None when the item lacks it. A present key is its text; an integer key stands as
 * its decimal text, which is what the comparator itself turns it into.
 */
module SortKeys {
  import opened Sorting
  import opened Strings
  import opened Wrappers

  type Key = Option<string>
  type Row = seq<Key>

  function CompareInts(a: int, b: int): int {
    if a < b then -1 else if a > b then 1 else 0
  }

  function CompareStrings(a: string, b: string): int {
    if Less(a, b) then -1 else if Less(b, a) then 1 else 0
  }

  // Two present keys: as integers when both read as integers, otherwise as lower-case text.
  function ComparePresent(l: string, r: string): int {
    var a, b := Lower(l), Lower(r);
    if ParseInt(a).Some? && ParseInt(b).Some? then CompareInts(ParseInt(a).value, ParseInt(b).value)
    else CompareStrings(a, b)
  }

  // One column. A missing key comes last in either direction.
  function CompareKeys(l: Key, r: Key, descending: bool): int {
    if l.Some? && r.Some? then
      var c := ComparePresent(l.value, r.value);
      if descending then -c else c
    else if l.Some? then -1
    else if r.Some? then 1
    else 0
  }

  // The first column that separates the rows decides.
  function Compare(l: Row, r: Row, descending: seq<bool>): int
    requires |l| == |r| == |descending|
  {
    if l == [] then 0
    else
      var c := CompareKeys(l[0], r[0], descending[0]);
      if c != 0 then c else Compare(l[1..], r[1..], descending[1..])
  }

  method MyCmp(left: Row, right: Row, descending: seq<bool>) returns (c: int)
    requires |left| == |right| == |descending|
    ensures c == Compare(left, right, descending)
  {
    for i := 0 to |descending|
      invariant Compare(left, right, descending) == Compare(left[i..], right[i..], descending[i..])
    {
      var l, r := left[i], right[i];
      if l.Some? && r.Some? {
        var a, b := Lower(l.value), Lower(r.value);
        var m, n := ParseInt(a), ParseInt(b);
        var result := if m.Some? && n.Some? then CompareInts(m.value, n.value) else CompareStrings(a, b);
        if result != 0 {
          return if descending[i] then -1 * result else result;
        }
      } else if l.Some? {
        return -1;
      } else if r.Some? {
        return 1;
      }
    }
    c := 0;
  }

  // ----- When one column is consistent

  // Two integers in numeric order, and a text that string order puts between them the wrong
  // way round.
  predicate Straddles(low: string, high: string, between: string) {
    var a, b, t := Lower(low), Lower(high), Lower(between);
    && ParseInt(a).Some? && ParseInt(b).Some? && ParseInt(t) == None
    && ParseInt(a).value <= ParseInt(b).value
    && Less(b, t) && Less(t, a)
  }

  predicate NoStraddle(keys: set<string>) {
    forall a, b, t :: a in keys && b in keys && t in keys ==> !Straddles(a, b, t)
  }

  predicate TransitiveOn(keys: set<string>) {
    forall x, y, z :: x in keys && y in keys && z in keys ==>
      (ComparePresent(x, y) <= 0 && ComparePresent(y, z) <= 0 ==> ComparePresent(x, z) <= 0)
  }

  lemma CompareStringsLaws(a: string, b: string)
    ensures CompareStrings(a, b) == -CompareStrings(b, a)
    ensures CompareStrings(a, b) == 0 <==> a == b
    ensures CompareStrings(a, b) <= 0 <==> !Less(b, a)
  {
    LessTrichotomy(a, b);
  }

  lemma ComparePresentAntisymmetric(l: string, r: string)
    ensures ComparePresent(l, r) == -ComparePresent(r, l)
  {
    CompareStringsLaws(Lower(l), Lower(r));
  }

  lemma AtMostTransitive(a: string, b: string, c: string)
    requires !Less(b, a) && !Less(c, b)
    ensures !Less(c, a)
  {
    LessTrichotomy(a, b);
    LessTrichotomy(b, c);
    LessTrichotomy(a, c);
    if Less(a, b) && Less(b, c) { LessTransitive(a, b, c); }
  }

  lemma NoStraddleTriple(x: string, y: string, z: string)
    requires NoStraddle({x, y, z})
    requires ComparePresent(x, y) <= 0 && ComparePresent(y, z) <= 0
    ensures ComparePresent(x, z) <= 0
  {
    var a, b, c := Lower(x), Lower(y), Lower(z);
    CompareStringsLaws(a, b);
    CompareStringsLaws(b, c);
    CompareStringsLaws(a, c);
    LessTrichotomy(a, b);
    LessTrichotomy(b, c);
    LessTrichotomy(a, c);
    if !Less(b, a) && !Less(c, b) { AtMostTransitive(a, b, c); }
    assert !Straddles(x, y, z) && !Straddles(z, x, y) && !Straddles(y, z, x);
    if ParseInt(a).Some? && ParseInt(b) == None && ParseInt(c).Some? && Less(a, b) && Less(b, c) {
      assert !Straddles(z, x, y);
    }
  }

  // A straddling text closes a cycle.
  lemma StraddleCycles(a: string, b: string, t: string)
    requires Straddles(a, b, t)
    ensures ComparePresent(a, b) <= 0 && ComparePresent(b, t) < 0 && ComparePresent(t, a) < 0
    ensures ComparePresent(a, t) > 0
  {
    CompareStringsLaws(Lower(b), Lower(t));
    ComparePresentAntisymmetric(t, a);
  }

  // The comparator is consistent on a column exactly when no text straddles two of its integers.
  lemma ColumnTransitivity(keys: set<string>)
    ensures TransitiveOn(keys) <==> NoStraddle(keys)
  {
    if NoStraddle(keys) {
      forall x, y, z | x in keys && y in keys && z in keys
                       && ComparePresent(x, y) <= 0 && ComparePresent(y, z) <= 0
        ensures ComparePresent(x, z) <= 0
      {
        assert {x, y, z} <= keys;
        NoStraddleTriple(x, y, z);
      }
    }
    if TransitiveOn(keys) {
      forall a, b, t | a in keys && b in keys && t in keys ensures !Straddles(a, b, t) {
        if Straddles(a, b, t) {
          StraddleCycles(a, b, t);
          assert false;
        }
      }
    }
  }

  // All integers, or no integer at all: the usual ways for a column to be consistent.
  lemma HomogeneousColumn(keys: set<string>)
    requires (forall k :: k in keys ==> ParseInt(Lower(k)).Some?)
          || (forall k :: k in keys ==> ParseInt(Lower(k)) == None)
    ensures NoStraddle(keys)
  {
  }

  // A column that mixes them need not be: 9 < 10 < "1x" < 9.
  lemma MixedColumnCycles()
    ensures ComparePresent("9", "10") < 0
    ensures ComparePresent("10", "1x") < 0
    ensures ComparePresent("1x", "9") < 0
    ensures Straddles("9", "10", "1x")
  {
    assert Lower("9") == "9" && Lower("10") == "10" && Lower("1x") == "1x";
    ParseDigits("9");
    ParseDigits("10");
    assert "10"[..1] == "1" && "9"[..0] == "" && "1"[..0] == "";
    assert DigitsValue("1") == 1;
    assert DigitsValue("10") == 10 && DigitsValue("9") == 9;
    assert Strip("1x") == "1x";
    assert "1x"[1..] == "x";
    assert Underscored("x") == None;
    assert "10"[1..] == "0" && Less("0", "x");
  }

  // ----- Many columns

  function Column(rows: set<Row>, c: nat): set<string>
    requires forall row :: row in rows ==> c < |row|
  {
    set row: Row | row in rows && row[c].Some? :: row[c].value
  }

  predicate Consistent(rows: set<Row>, descending: seq<bool>) {
    && (forall row :: row in rows ==> |row| == |descending|)
    && forall c :: 0 <= c < |descending| ==> NoStraddle(Column(rows, c))
  }

  lemma CompareKeysAntisymmetric(l: Key, r: Key, descending: bool)
    ensures CompareKeys(l, r, descending) == -CompareKeys(r, l, descending)
  {
    if l.Some? && r.Some? { ComparePresentAntisymmetric(l.value, r.value); }
  }

  function Present(keys: set<Key>): set<string> {
    set k: Key | k in keys && k.Some? :: k.value
  }

  lemma CompareKeysTransitive(x: Key, y: Key, z: Key, descending: bool)
    requires NoStraddle(Present({x, y, z}))
    requires CompareKeys(x, y, descending) <= 0 && CompareKeys(y, z, descending) <= 0
    ensures CompareKeys(x, z, descending) <= 0
    ensures CompareKeys(x, z, descending) == 0 ==>
              CompareKeys(x, y, descending) == 0 && CompareKeys(y, z, descending) == 0
  {
    if x.Some? && y.Some? && z.Some? {
      var a, b, c := x.value, y.value, z.value;
      assert x in {x, y, z} && y in {x, y, z} && z in {x, y, z};
      assert {a, b, c} <= Present({x, y, z});
      ComparePresentAntisymmetric(a, b);
      ComparePresentAntisymmetric(b, c);
      ComparePresentAntisymmetric(a, c);
      assert {a, b, c} == {c, b, a} == {b, c, a} == {c, a, b} == {a, c, b} == {b, a, c};
      if descending {
        NoStraddleTriple(c, b, a);
        if ComparePresent(a, c) == 0 {
          NoStraddleTriple(a, c, b);
          NoStraddleTriple(b, a, c);
        }
      } else {
        NoStraddleTriple(a, b, c);
        if ComparePresent(a, c) == 0 {
          NoStraddleTriple(c, a, b);
          NoStraddleTriple(b, c, a);
        }
      }
    }
  }

  lemma {:induction false} CompareAntisymmetric(l: Row, r: Row, descending: seq<bool>)
    requires |l| == |r| == |descending|
    ensures Compare(l, r, descending) == -Compare(r, l, descending)
  {
    if l != [] {
      CompareKeysAntisymmetric(l[0], r[0], descending[0]);
      CompareAntisymmetric(l[1..], r[1..], descending[1..]);
    }
  }

  lemma {:induction false} CompareTransitive(x: Row, y: Row, z: Row, descending: seq<bool>)
    requires |x| == |y| == |z| == |descending|
    requires forall c :: 0 <= c < |descending| ==> NoStraddle(Present({x[c], y[c], z[c]}))
    requires Compare(x, y, descending) <= 0 && Compare(y, z, descending) <= 0
    ensures Compare(x, z, descending) <= 0
  {
    if x != [] {
      CompareKeysTransitive(x[0], y[0], z[0], descending[0]);
      if CompareKeys(x[0], z[0], descending[0]) == 0 {
        forall c | 0 <= c < |descending[1..]|
          ensures NoStraddle(Present({x[1..][c], y[1..][c], z[1..][c]}))
        {
          assert NoStraddle(Present({x[c + 1], y[c + 1], z[c + 1]}));
        }
        CompareTransitive(x[1..], y[1..], z[1..], descending[1..]);
      }
    }
  }

  // Over any number of columns, in any directions, consistent columns make a total preorder.
  lemma ComparatorIsPreorder(rows: set<Row>, descending: seq<bool>, x: Row, y: Row, z: Row)
    requires Consistent(rows, descending) && x in rows && y in rows && z in rows
    ensures Compare(x, y, descending) == -Compare(y, x, descending)
    ensures Compare(x, y, descending) <= 0 && Compare(y, z, descending) <= 0 ==> Compare(x, z, descending) <= 0
  {
    CompareAntisymmetric(x, y, descending);
    forall c | 0 <= c < |descending| ensures NoStraddle(Present({x[c], y[c], z[c]})) {
      forall k | k in Present({x[c], y[c], z[c]}) ensures k in Column(rows, c) {
        assert Some(k) in {x[c], y[c], z[c]};
      }
      assert Present({x[c], y[c], z[c]}) <= Column(rows, c);
      assert NoStraddle(Column(rows, c));
    }
    if Compare(x, y, descending) <= 0 && Compare(y, z, descending) <= 0 {
      CompareTransitive(x, y, z, descending);
    }
  }

  // ----- When many columns are consistent

  // In the first column that tells the three rows apart, a text straddles two integers; when these
  // are equal, the later columns do not put them the other way round.
  predicate RowsCycle(low: Row, high: Row, between: Row, descending: seq<bool>)
    requires |low| == |high| == |between| == |descending|
  {
    low != [] &&
    (|| (&& low[0].Some? && high[0].Some? && between[0].Some?
         && Straddles(low[0].value, high[0].value, between[0].value)
         && (if descending[0] then Compare(high, low, descending) <= 0 else Compare(low, high, descending) <= 0))
     || (&& CompareKeys(low[0], high[0], descending[0]) == 0
         && CompareKeys(high[0], between[0], descending[0]) == 0
         && CompareKeys(low[0], between[0], descending[0]) == 0
         && RowsCycle(low[1..], high[1..], between[1..], descending[1..])))
  }

  predicate SomeCycle(x: Row, y: Row, z: Row, descending: seq<bool>)
    requires |x| == |y| == |z| == |descending|
  {
    || RowsCycle(x, y, z, descending) || RowsCycle(y, z, x, descending) || RowsCycle(z, x, y, descending)
    || RowsCycle(x, z, y, descending) || RowsCycle(z, y, x, descending) || RowsCycle(y, x, z, descending)
  }

  predicate Breaks(x: Row, y: Row, z: Row, descending: seq<bool>)
    requires |x| == |y| == |z| == |descending|
  {
    Compare(x, y, descending) <= 0 && Compare(y, z, descending) <= 0 && Compare(x, z, descending) > 0
  }

  lemma {:induction false} CycleBreaks(low: Row, high: Row, between: Row, descending: seq<bool>)
    requires |low| == |high| == |between| == |descending| && RowsCycle(low, high, between, descending)
    ensures Breaks(low, high, between, descending) || Breaks(between, high, low, descending)
  {
    if low[0].Some? && high[0].Some? && between[0].Some? && Straddles(low[0].value, high[0].value, between[0].value) {
      StraddleCycles(low[0].value, high[0].value, between[0].value);
      ComparePresentAntisymmetric(high[0].value, between[0].value);
      ComparePresentAntisymmetric(low[0].value, between[0].value);
      assert CompareKeys(low[0], between[0], descending[0]) != 0;
    } else {
      CycleBreaks(low[1..], high[1..], between[1..], descending[1..]);
      CompareKeysAntisymmetric(low[0], high[0], descending[0]);
      CompareKeysAntisymmetric(low[0], between[0], descending[0]);
      CompareKeysAntisymmetric(high[0], between[0], descending[0]);
    }
  }

  lemma {:induction false} BreakHasCycle(x: Row, y: Row, z: Row, descending: seq<bool>)
    requires |x| == |y| == |z| == |descending| && Breaks(x, y, z, descending)
    ensures SomeCycle(x, y, z, descending)
  {
    if NoStraddle(Present({x[0], y[0], z[0]})) {
      TiedBreak(x, y, z, descending);
      BreakHasCycle(x[1..], y[1..], z[1..], descending[1..]);
    } else {
      var a, b, t := StraddledKeys(x[0], y[0], z[0]);
      StraddleInBreak(x, y, z, descending, a, b, t);
    }
  }

  lemma {:induction false} TiedBreak(x: Row, y: Row, z: Row, descending: seq<bool>)
    requires |x| == |y| == |z| == |descending| > 0 && Breaks(x, y, z, descending)
    requires NoStraddle(Present({x[0], y[0], z[0]}))
    ensures Breaks(x[1..], y[1..], z[1..], descending[1..])
    ensures forall p, q :: p in {x, y, z} && q in {x, y, z} ==> CompareKeys(p[0], q[0], descending[0]) == 0
  {
    CompareKeysTransitive(x[0], y[0], z[0], descending[0]);
    forall p, q | p in {x, y, z} && q in {x, y, z} ensures CompareKeys(p[0], q[0], descending[0]) == 0 {
      CompareKeysAntisymmetric(p[0], q[0], descending[0]);
    }
  }

  lemma {:induction false} StraddledKeys(x: Key, y: Key, z: Key) returns (a: string, b: string, t: string)
    requires !NoStraddle(Present({x, y, z}))
    ensures Straddles(a, b, t) && {Some(a), Some(b), Some(t)} == {x, y, z}
  {
    a, b, t := SomeStraddle(Present({x, y, z}));
    StraddleDistinct(a, b, t);
    assert Some(a) in {x, y, z} && Some(b) in {x, y, z} && Some(t) in {x, y, z};
    ThreeOfThree(Some(a), Some(b), Some(t), x, y, z);
  }

  lemma {:induction false} SomeStraddle(keys: set<string>) returns (a: string, b: string, t: string)
    requires !NoStraddle(keys)
    ensures a in keys && b in keys && t in keys && Straddles(a, b, t)
  {
    a, b, t :| a in keys && b in keys && t in keys && Straddles(a, b, t);
  }

  lemma {:induction false} StraddleDistinct(a: string, b: string, t: string)
    requires Straddles(a, b, t)
    ensures a != b && a != t && b != t
  {
    LessTransitive(Lower(b), Lower(t), Lower(a));
    LessTrichotomy(Lower(a), Lower(b));
    LessTrichotomy(Lower(a), Lower(t));
    LessTrichotomy(Lower(b), Lower(t));
  }

  lemma {:induction false} ThreeOfThree(a: Key, b: Key, t: Key, x: Key, y: Key, z: Key)
    requires a != b && a != t && b != t && a in {x, y, z} && b in {x, y, z} && t in {x, y, z}
    ensures {a, b, t} == {x, y, z}
  {
  }

  lemma {:induction false} StraddleInBreak(x: Row, y: Row, z: Row, descending: seq<bool>, a: string, b: string, t: string)
    requires |x| == |y| == |z| == |descending| > 0 && Breaks(x, y, z, descending)
    requires Straddles(a, b, t) && {Some(a), Some(b), Some(t)} == {x[0], y[0], z[0]}
    ensures SomeCycle(x, y, z, descending)
  {
    CompareAntisymmetric(x, y, descending);
    CompareAntisymmetric(y, z, descending);
    CompareAntisymmetric(x, z, descending);
    StraddleCycles(a, b, t);
  }

  ghost predicate TransitiveRows(rows: set<Row>, descending: seq<bool>)
    requires forall row :: row in rows ==> |row| == |descending|
  {
    forall x, y, z :: x in rows && y in rows && z in rows ==> !Breaks(x, y, z, descending)
  }

  ghost predicate Acyclic(rows: set<Row>, descending: seq<bool>) {
    && (forall row :: row in rows ==> |row| == |descending|)
    && forall x, y, z :: x in rows && y in rows && z in rows ==> !RowsCycle(x, y, z, descending)
  }

  // The comparator is consistent on a set of rows exactly when no three of them form such a cycle.
  lemma {:induction false} RowTransitivity(rows: set<Row>, descending: seq<bool>)
    requires forall row :: row in rows ==> |row| == |descending|
    ensures TransitiveRows(rows, descending) <==> Acyclic(rows, descending)
  {
    forall x, y, z | x in rows && y in rows && z in rows ensures Breaks(x, y, z, descending) ==> SomeCycle(x, y, z, descending) {
      if Breaks(x, y, z, descending) { BreakHasCycle(x, y, z, descending); }
    }
    forall x, y, z | x in rows && y in rows && z in rows
      ensures RowsCycle(x, y, z, descending) ==> Breaks(x, y, z, descending) || Breaks(z, y, x, descending)
    {
      if RowsCycle(x, y, z, descending) { CycleBreaks(x, y, z, descending); }
    }
  }

  lemma {:induction false} ConsistentIsAcyclic(rows: set<Row>, descending: seq<bool>)
    requires Consistent(rows, descending)
    ensures Acyclic(rows, descending)
  {
    forall x, y, z | x in rows && y in rows && z in rows ensures !Breaks(x, y, z, descending) {
      ComparatorIsPreorder(rows, descending, x, y, z);
    }
    RowTransitivity(rows, descending);
  }

  // ----- Sorting the items

  function RowAtMost<T>(descending: seq<bool>): ((T, Row), (T, Row)) -> bool {
    (l: (T, Row), r: (T, Row)) =>
      |l.1| == |r.1| == |descending| && Compare(l.1, r.1, descending) <= 0
  }

  ghost function Rows<T>(items: seq<(T, Row)>): set<Row> {
    set item | item in items :: item.1
  }

  // `multi_key_sort`: each item travels with its keys.
  function MultiKeySort<T>(items: seq<(T, Row)>, descending: seq<bool>): seq<(T, Row)> {
    Sorted(items, RowAtMost(descending))
  }

  lemma ItemsPreorder<T(!new)>(items: seq<(T, Row)>, descending: seq<bool>)
    requires Acyclic(Rows(items), descending)
    ensures PreorderOn(Elements(items), RowAtMost(descending))
  {
    var leq := RowAtMost<T>(descending);
    var xs := Elements(items);
    forall x | x in xs ensures x.1 in Rows(items) { assert x in items; }
    forall x, y | x in xs && y in xs ensures leq(x, y) || leq(y, x) {
      CompareAntisymmetric(x.1, y.1, descending);
    }
    forall x, y, z | x in xs && y in xs && z in xs && leq(x, y) && leq(y, z) ensures leq(x, z) {
      RowTransitivity(Rows(items), descending);
      assert !Breaks(x.1, y.1, z.1, descending);
    }
  }

  // Do the rows tie on every column before `c`?
  predicate TiedBefore(l: Row, r: Row, descending: seq<bool>, c: nat)
    requires |l| == |r| == |descending| && c <= |l|
  {
    forall k :: 0 <= k < c ==> CompareKeys(l[k], r[k], descending[k]) == 0
  }

  lemma {:induction false} MissingComesLast(l: Row, r: Row, descending: seq<bool>, c: nat)
    requires |l| == |r| == |descending| && c < |l|
    requires TiedBefore(l, r, descending, c) && l[c] == None && r[c].Some?
    ensures Compare(l, r, descending) > 0
  {
    if c > 0 {
      assert CompareKeys(l[0], r[0], descending[0]) == 0;
      forall k | 0 <= k < c - 1
        ensures CompareKeys(l[1..][k], r[1..][k], descending[1..][k]) == 0
      {
        assert CompareKeys(l[k + 1], r[k + 1], descending[k + 1]) == 0;
      }
      MissingComesLast(l[1..], r[1..], descending[1..], c - 1);
    }
  }

  // Without such a cycle the bibliography comes out in order, ties keep their order, nothing is
  // gained or lost, and among items that tie on the columns before it no missing key precedes a
  // present one, whatever the directions.
  lemma BibliographySort<T(!new)>(items: seq<(T, Row)>, descending: seq<bool>)
    requires Acyclic(Rows(items), descending)
    ensures var r := MultiKeySort(items, descending);
      && Ordered(r, RowAtMost(descending))
      && Stable(items, r, RowAtMost(descending))
      && forall i, j, c :: (0 <= i < j < |r| && 0 <= c < |descending|
                            && |r[i].1| == |r[j].1| == |descending| && TiedBefore(r[i].1, r[j].1, descending, c)
                            && r[i].1[c] == None) ==> r[j].1[c] == None
  {
    ItemsPreorder(items, descending);
    SortedIsStable(items, RowAtMost(descending));
    var r := MultiKeySort(items, descending);
    forall i, j, c | 0 <= i < j < |r| && 0 <= c < |descending|
                     && |r[i].1| == |r[j].1| == |descending| && TiedBefore(r[i].1, r[j].1, descending, c)
                     && r[i].1[c] == None
      ensures r[j].1[c] == None
    {
      if r[j].1[c].Some? {
        MissingComesLast(r[i].1, r[j].1, descending, c);
      }
    }
  }

  // Keys that stand for the same: both missing, the same text whatever the case, or the same integer.
  predicate Alike(l: Key, r: Key) {
    match (l, r)
    case (None, None) => true
    case (Some(a), Some(b)) =>
      Lower(a) == Lower(b) || (ParseInt(Lower(a)).Some? && ParseInt(Lower(a)) == ParseInt(Lower(b)))
    case _ => false
  }

  // `l` may stand before `r`: integers by value, other texts by their lower case, backwards when
  // descending; but a missing key never before a present one.
  predicate MayPrecede(l: Key, r: Key, descending: bool) {
    match (l, r)
    case (None, Some(_)) => false
    case (Some(a), Some(b)) =>
      (match (ParseInt(Lower(a)), ParseInt(Lower(b)))
       case (Some(m), Some(n)) => if descending then m >= n else m <= n
       case _ => if descending then !Less(Lower(a), Lower(b)) else !Less(Lower(b), Lower(a)))
    case _ => true
  }

  lemma {:induction false} KeysMean(l: Key, r: Key, descending: bool)
    ensures CompareKeys(l, r, descending) == 0 <==> Alike(l, r)
    ensures CompareKeys(l, r, descending) <= 0 <==> MayPrecede(l, r, descending)
  {
    if l.Some? && r.Some? {
      CompareStringsLaws(Lower(l.value), Lower(r.value));
      LessTrichotomy(Lower(l.value), Lower(r.value));
    }
  }

  lemma {:induction false} FirstDifferenceDecides(l: Row, r: Row, descending: seq<bool>, c: nat)
    requires |l| == |r| == |descending| && c < |l| && Compare(l, r, descending) <= 0
    requires forall k :: 0 <= k < c ==> Alike(l[k], r[k])
    ensures MayPrecede(l[c], r[c], descending[c])
  {
    KeysMean(l[0], r[0], descending[0]);
    if c > 0 {
      forall k | 0 <= k < c - 1 ensures Alike(l[1..][k], r[1..][k]) {
        assert Alike(l[k + 1], r[k + 1]);
      }
      FirstDifferenceDecides(l[1..], r[1..], descending[1..], c - 1);
    }
  }

  // In plain terms: of two items in the bibliography that are alike in all columns before `c`, the
  // earlier one's key in that column may stand before the later one's.
  lemma {:induction false} BibliographyReads<T(!new)>(items: seq<(T, Row)>, descending: seq<bool>, i: nat, j: nat, c: nat)
    requires Acyclic(Rows(items), descending)
    requires i < j < |MultiKeySort(items, descending)| && c < |descending|
    ensures var r := MultiKeySort(items, descending);
      && multiset(r) == multiset(items) && |r[i].1| == |r[j].1| == |descending|
      && ((forall k :: 0 <= k < c ==> Alike(r[i].1[k], r[j].1[k])) ==> MayPrecede(r[i].1[c], r[j].1[c], descending[c]))
  {
    var r := MultiKeySort(items, descending);
    BibliographySort(items, descending);
    assert RowAtMost<T>(descending)(r[i], r[j]);
    if forall k :: 0 <= k < c ==> Alike(r[i].1[k], r[j].1[k]) {
      FirstDifferenceDecides(r[i].1, r[j].1, descending, c);
    }
  }

  // Any other stable sort by the same comparator gives the same bibliography.
  lemma BibliographySortUnique<T(!new)>(items: seq<(T, Row)>, other: seq<(T, Row)>, descending: seq<bool>)
    requires Acyclic(Rows(items), descending)
    requires Ordered(other, RowAtMost(descending)) && Stable(items, other, RowAtMost(descending))
    ensures other == MultiKeySort(items, descending)
  {
    ItemsPreorder(items, descending);
    StableTransfer(items, other, RowAtMost(descending));
  }
}
