/**
 * Planning the renames that resolve every case-insensitive username collision
 * (newprofile/username_collisions.py).
 */
module Collisions {
  import opened Sorting
  import opened StringOrder
  import opened Strings

  datatype Row = Row(id: int, username: string)

  datatype Rename = Rename(id: int, old_: string, new_: string)

  // ----- Groups

  function KeyOf(row: Row): string {
    Lower(row.username)
  }

  // The rows with this lower-cased username, in order.
  function Members(rows: seq<Row>, key: string): seq<Row> {
    if rows == [] then []
    else Members(rows[..|rows| - 1], key) + (if KeyOf(rows[|rows| - 1]) == key then [rows[|rows| - 1]] else [])
  }

  predicate ById(a: Row, b: Row) {
    a.id <= b.id
  }

  function Group(rows: seq<Row>, key: string): seq<Row> {
    Sorted(Members(rows, key), ById)
  }

  function TakenLower(rows: seq<Row>): set<string> {
    set row | row in rows :: KeyOf(row)
  }

  function CollidingKeys(rows: seq<Row>): set<string> {
    set key | key in TakenLower(rows) && |Members(rows, key)| > 1
  }

  lemma {:induction false} MembersAreRows(rows: seq<Row>, key: string)
    ensures forall row :: row in Members(rows, key) <==> row in rows && KeyOf(row) == key
    decreases |rows|
  {
    if rows != [] {
      MembersAreRows(rows[..|rows| - 1], key);
      assert rows == rows[..|rows| - 1] + [rows[|rows| - 1]];
    }
  }

  lemma {:induction false} MembersStep(rows: seq<Row>, i: nat, key: string)
    requires i < |rows|
    ensures Members(rows[..i + 1], key) == Members(rows[..i], key) + (if KeyOf(rows[i]) == key then [rows[i]] else [])
  {
    assert rows[..i + 1][..i] == rows[..i];
  }

  lemma {:induction false} TakenStep(rows: seq<Row>, i: nat)
    requires i < |rows|
    ensures TakenLower(rows[..i + 1]) == TakenLower(rows[..i]) + {KeyOf(rows[i])}
  {
    assert rows[..i + 1] == rows[..i] + [rows[i]];
  }

  // The groups of the first `i` rows, colliding or not.
  ghost predicate Collected(rows: seq<Row>, i: nat, byLower: map<string, seq<Row>>)
    requires i <= |rows|
  {
    && byLower.Keys == TakenLower(rows[..i])
    && (forall key :: key in byLower ==> byLower[key] == Members(rows[..i], key))
    && (forall key :: key !in byLower ==> Members(rows[..i], key) == [])
  }

  lemma {:induction false} CollectedStep(rows: seq<Row>, i: nat, byLower: map<string, seq<Row>>)
    requires i < |rows| && Collected(rows, i, byLower)
    ensures var key := KeyOf(rows[i]);
      Collected(rows, i + 1, byLower[key := (if key in byLower then byLower[key] else []) + [rows[i]]])
  {
    var key := KeyOf(rows[i]);
    TakenStep(rows, i);
    forall k ensures Members(rows[..i + 1], k) == Members(rows[..i], k) + (if k == key then [rows[i]] else []) {
      MembersStep(rows, i, k);
    }
  }

  method FindCollisionGroups(rows: seq<Row>) returns (groups: map<string, seq<Row>>)
    ensures groups.Keys == CollidingKeys(rows)
    ensures forall key :: key in groups ==> groups[key] == Group(rows, key)
  {
    var byLower: map<string, seq<Row>> := map[];
    for i := 0 to |rows|
      invariant Collected(rows, i, byLower)
    {
      var key := Lower(rows[i].username);
      CollectedStep(rows, i, byLower);
      byLower := byLower[key := (if key in byLower then byLower[key] else []) + [rows[i]]];
    }
    assert rows[..|rows|] == rows;
    groups := map key | key in byLower && |byLower[key]| > 1 :: Sorted(byLower[key], ById);
  }

  // ----- Fresh names

  function Suffixed(original: string, n: nat): string {
    original + "_" + Decimal(n)
  }

  lemma {:induction false} SuffixedInjective(original: string, m: nat, n: nat)
    requires Lower(Suffixed(original, m)) == Lower(Suffixed(original, n))
    ensures m == n
  {
    LowerConcat(original + "_", Decimal(m));
    LowerConcat(original + "_", Decimal(n));
    LowerDigits(Decimal(m));
    LowerDigits(Decimal(n));
    var p := Lower(original + "_");
    assert (p + Decimal(m))[|p|..] == Decimal(m) && (p + Decimal(n))[|p|..] == Decimal(n);
    DecimalInjective(m, n);
  }

  lemma {:induction false} LowerDigits(s: string)
    requires AllDigits(s)
    ensures Lower(s) == s
  {
  }

  predicate TriedUpTo(original: string, taken: set<string>, n: nat) {
    forall m :: 1 <= m < n ==> Lower(Suffixed(original, m)) in taken
  }

  // The name with the smallest suffix, from 1 on, that is not taken; it is found within
  // |taken| + 1 tries.
  ghost predicate SmallestFree(original: string, taken: set<string>, name: string) {
    exists n: nat :: 1 <= n <= |taken| + 1 && IsFree(original, taken, name, n)
  }

  predicate IsFree(original: string, taken: set<string>, name: string, n: nat) {
    name == Suffixed(original, n) && Lower(name) !in taken && TriedUpTo(original, taken, n)
  }

  lemma {:induction false} SmallestFreeUnique(original: string, taken: set<string>, a: string, b: string)
    requires SmallestFree(original, taken, a) && SmallestFree(original, taken, b)
    ensures a == b
  {
    var m: nat :| 1 <= m <= |taken| + 1 && IsFree(original, taken, a, m);
    var n: nat :| 1 <= n <= |taken| + 1 && IsFree(original, taken, b, n);
    assert m < n ==> Lower(Suffixed(original, m)) in taken;
    assert n < m ==> Lower(Suffixed(original, n)) in taken;
  }

  // Distinct suffixes give distinct names, so `n - 1` failed tries use up `n - 1` taken names.
  lemma {:induction false} Pigeonhole(original: string, taken: set<string>, n: nat)
    requires n >= 1 && TriedUpTo(original, taken, n)
    ensures n - 1 <= |taken|
    decreases n
  {
    if n > 1 {
      var last := Lower(Suffixed(original, n - 1));
      forall m | 1 <= m < n - 1 ensures Lower(Suffixed(original, m)) in taken - {last} {
        if Lower(Suffixed(original, m)) == last { SuffixedInjective(original, m, n - 1); }
      }
      Pigeonhole(original, taken - {last}, n - 1);
    }
  }

  // A positive numeral without leading zero.
  predicate PositiveNumeral(s: string) {
    s != "" && AllDigits(s) && s[0] != '0'
  }

  // The old name as it was written, an underscore and a numeral; with any smaller numeral the name is taken.
  ghost predicate NamedAfter(original: string, taken: set<string>, name: string) {
    && |original| + 1 < |name| && name[..|original|] == original && name[|original|] == '_'
    && Lower(name) !in taken
    && PositiveNumeral(name[|original| + 1..])
    && forall t :: PositiveNumeral(t) && DigitsValue(t) < DigitsValue(name[|original| + 1..]) ==>
         Lower(original + "_" + t) in taken
  }

  lemma {:induction false} DecimalIsNumeral(n: nat)
    requires n >= 1
    ensures PositiveNumeral(Decimal(n))
  {
    if n >= 10 { DecimalIsNumeral(n / 10); }
  }

  lemma {:induction false} NumeralIsDecimal(t: string)
    requires PositiveNumeral(t)
    ensures DigitsValue(t) >= 1 && Decimal(DigitsValue(t)) == t
    decreases |t|
  {
    var n := |t| - 1;
    if n > 0 {
      NumeralIsDecimal(t[..n]);
      DecimalSnoc(DigitsValue(t[..n]), t[n]);
      assert t == t[..n] + [t[n]];
    } else {
      assert t[..0] == "";
    }
  }

  lemma {:induction false} DecimalSnoc(n: nat, c: char)
    requires n >= 1 && IsDigit(c)
    ensures Decimal(n * 10 + (c as int - '0' as int)) == Decimal(n) + [c]
  {
    var m := n * 10 + (c as int - '0' as int);
    assert m / 10 == n && m % 10 == c as int - '0' as int;
  }

  lemma {:induction false} SmallestFreeIsNamedAfter(original: string, taken: set<string>, name: string)
    requires SmallestFree(original, taken, name)
    ensures NamedAfter(original, taken, name)
  {
    var n: nat :| 1 <= n <= |taken| + 1 && IsFree(original, taken, name, n);
    DecimalIsNumeral(n);
    DecimalValue(n);
    assert name[|original| + 1..] == Decimal(n) && name[..|original|] == original;
    forall t | PositiveNumeral(t) && DigitsValue(t) < n ensures Lower(original + "_" + t) in taken {
      NumeralIsDecimal(t);
      assert Lower(Suffixed(original, DigitsValue(t))) in taken;
    }
  }

  method NextFreeSuffixedName(original: string, takenLower: set<string>) returns (name: string)
    ensures SmallestFree(original, takenLower, name) && NamedAfter(original, takenLower, name)
  {
    var suffix := 1;
    while true
      invariant suffix >= 1 && TriedUpTo(original, takenLower, suffix)
      decreases |takenLower| + 1 - suffix
    {
      var candidate := original + "_" + Decimal(suffix);
      if Lower(candidate) !in takenLower {
        Pigeonhole(original, takenLower, suffix);
        assert IsFree(original, takenLower, candidate, suffix);
        SmallestFreeIsNamedAfter(original, takenLower, candidate);
        return candidate;
      }
      Pigeonhole(original, takenLower, suffix + 1);
      suffix := suffix + 1;
    }
  }

  // ----- The plan

  // Everyone of a group but the first.
  function Younger(rows: seq<Row>, key: string): seq<Row> {
    var group := Group(rows, key);
    if group == [] then [] else group[1..]
  }

  // Everyone but the first of each group, group by group.
  function Victims(rows: seq<Row>, keys: seq<string>): seq<Row> {
    if keys == [] then [] else Victims(rows, keys[..|keys| - 1]) + Younger(rows, keys[|keys| - 1])
  }

  function Renamed(plan: seq<Rename>): seq<Row> {
    if plan == [] then []
    else Renamed(plan[..|plan| - 1]) + [Row(plan[|plan| - 1].id, plan[|plan| - 1].old_)]
  }

  function News(plan: seq<Rename>): set<string> {
    if plan == [] then {} else News(plan[..|plan| - 1]) + {Lower(plan[|plan| - 1].new_)}
  }

  ghost predicate FreshNames(base: set<string>, plan: seq<Rename>) {
    plan == [] ||
    var earlier, last := plan[..|plan| - 1], plan[|plan| - 1];
    FreshNames(base, earlier) && SmallestFree(last.old_, base + News(earlier), last.new_)
  }

  // The plan renames the victims of the colliding keys in order, each to the first name free so far.
  ghost predicate IsPlan(rows: seq<Row>, keys: seq<string>, plan: seq<Rename>) {
    && Ascending(keys) && Elements(keys) == CollidingKeys(rows)
    && Renamed(plan) == Victims(rows, keys)
    && FreshNames(TakenLower(rows), plan)
  }

  // The names taken after part of the plan, when those in `base` were taken before it.
  ghost predicate Progress(base: set<string>, plan: seq<Rename>, takenLower: set<string>) {
    takenLower == base + News(plan) && FreshNames(base, plan)
  }

  method PlanRenames(rows: seq<Row>) returns (plan: seq<Rename>)
    ensures exists keys :: IsPlan(rows, keys, plan)
  {
    var groups := FindCollisionGroups(rows);
    var takenLower := TakenLower(rows);
    plan := [];
    var order := SortedKeys(groups.Keys);
    for i := 0 to |order|
      invariant Progress(TakenLower(rows), plan, takenLower)
      invariant Renamed(plan) == Victims(rows, order[..i])
    {
      var key := order[i];
      assert key in Elements(order);
      GroupSize(rows, key);
      VictimsStep(rows, order, i);
      plan, takenLower := RenameMembers(TakenLower(rows), groups[key], plan, takenLower);
    }
    assert order[..|order|] == order;
    assert IsPlan(rows, order, plan);
  }

  lemma {:induction false} VictimsStep(rows: seq<Row>, keys: seq<string>, i: nat)
    requires i < |keys| && |Members(rows, keys[i])| > 0
    ensures |Group(rows, keys[i])| > 0
    ensures Victims(rows, keys[..i + 1]) == Victims(rows, keys[..i]) + Group(rows, keys[i])[1..]
  {
    GroupSize(rows, keys[i]);
    assert keys[..i + 1][..i] == keys[..i];
  }

  // The inner loop of `plan_renames`.
  method RenameMembers(ghost base: set<string>, members: seq<Row>, before: seq<Rename>, taken: set<string>)
    returns (plan: seq<Rename>, takenLower: set<string>)
    requires members != [] && Progress(base, before, taken)
    ensures Progress(base, plan, takenLower)
    ensures Renamed(plan) == Renamed(before) + members[1..]
  {
    plan, takenLower := before, taken;
    for j := 1 to |members|
      invariant Progress(base, plan, takenLower)
      invariant Renamed(plan) == Renamed(before) + members[1..j]
    {
      var row := members[j];
      var name := NextFreeSuffixedName(row.username, takenLower);
      var rename := Rename(row.id, row.username, name);
      ExtendPlan(base, plan, takenLower, rename);
      OneMore(Renamed(before), members, j);
      takenLower := takenLower + {Lower(name)};
      plan := plan + [rename];
    }
    OneMore(Renamed(before), members, |members|);
  }

  lemma {:induction false} OneMore(a: seq<Row>, members: seq<Row>, j: nat)
    requires 1 <= j <= |members|
    ensures j < |members| ==> a + members[1..j + 1] == (a + members[1..j]) + [members[j]]
    ensures members[1..|members|] == members[1..]
  {
  }

  lemma {:induction false} ExtendPlan(base: set<string>, plan: seq<Rename>, taken: set<string>, rename: Rename)
    requires Progress(base, plan, taken) && SmallestFree(rename.old_, taken, rename.new_)
    ensures Progress(base, plan + [rename], taken + {Lower(rename.new_)})
    ensures Renamed(plan + [rename]) == Renamed(plan) + [Row(rename.id, rename.old_)]
  {
    ExtendFresh(base, plan, rename);
    ExtendNews(plan, rename);
    ExtendRenamed(plan, rename);
  }

  lemma {:induction false} GroupSize(rows: seq<Row>, key: string)
    ensures |Group(rows, key)| == |Members(rows, key)|
    ensures Elements(Group(rows, key)) == Elements(Members(rows, key))
  {
    SortedPermutes(Members(rows, key), ById);
    SameElements(Group(rows, key), Members(rows, key));
  }

  lemma {:induction false} ExtendFresh(base: set<string>, plan: seq<Rename>, rename: Rename)
    requires FreshNames(base, plan)
    requires SmallestFree(rename.old_, base + News(plan), rename.new_)
    ensures FreshNames(base, plan + [rename])
  {
    assert (plan + [rename])[..|plan|] == plan;
  }

  lemma {:induction false} ExtendNews(plan: seq<Rename>, rename: Rename)
    ensures News(plan + [rename]) == News(plan) + {Lower(rename.new_)}
  {
    assert (plan + [rename])[..|plan|] == plan;
  }

  lemma {:induction false} ExtendRenamed(plan: seq<Rename>, rename: Rename)
    ensures Renamed(plan + [rename]) == Renamed(plan) + [Row(rename.id, rename.old_)]
  {
    assert (plan + [rename])[..|plan|] == plan;
  }

  // ----- What a plan achieves

  predicate DistinctIds(rows: seq<Row>) {
    forall i, j :: 0 <= i < j < |rows| ==> rows[i].id != rows[j].id
  }

  // The oldest profile with its lower-cased username.
  predicate Keeper(rows: seq<Row>, row: Row) {
    forall other :: other in rows && KeyOf(other) == KeyOf(row) ==> row.id <= other.id
  }

  predicate NoCollisions(rows: seq<Row>) {
    forall i, j :: 0 <= i < j < |rows| ==> KeyOf(rows[i]) != KeyOf(rows[j])
  }

  lemma {:induction false} SameIdSameRow(rows: seq<Row>, a: Row, b: Row)
    requires DistinctIds(rows) && a in rows && b in rows
    ensures a.id == b.id ==> a == b
  {
    var i :| 0 <= i < |rows| && rows[i] == a;
    var j :| 0 <= j < |rows| && rows[j] == b;
    assert i != j ==> rows[i].id != rows[j].id;
  }

  lemma {:induction false} MembersDistinct(rows: seq<Row>, key: string)
    requires DistinctIds(rows)
    ensures DistinctIds(Members(rows, key))
    decreases |rows|
  {
    if rows != [] {
      var front, last := rows[..|rows| - 1], rows[|rows| - 1];
      MembersDistinct(front, key);
      MembersAreRows(front, key);
      var ms := Members(front, key);
      forall i | 0 <= i < |ms| ensures ms[i].id != last.id {
        assert ms[i] in front;
      }
    }
  }

  lemma {:induction false} GroupOrdered(rows: seq<Row>, key: string)
    requires DistinctIds(rows)
    ensures forall i, j :: 0 <= i < j < |Group(rows, key)| ==> Group(rows, key)[i].id < Group(rows, key)[j].id
    ensures forall row :: row in Group(rows, key) <==> row in rows && KeyOf(row) == key
  {
    var ms, group := Members(rows, key), Group(rows, key);
    MembersAreRows(rows, key);
    GroupSize(rows, key);
    SortedOrdered(ms, ById);
    SortedPermutes(ms, ById);
    MembersDistinct(rows, key);
    DistinctStays(ms, group);
    forall row ensures row in group <==> row in ms {
      assert row in Elements(group) <==> row in Elements(ms);
    }
    forall i, j | 0 <= i < j < |group| ensures group[i].id < group[j].id {
      assert group[i] != group[j] && ById(group[i], group[j]);
      assert group[i] in rows && group[j] in rows;
      SameIdSameRow(rows, group[i], group[j]);
    }
  }

  lemma {:induction false} GroupVictims(rows: seq<Row>, key: string, row: Row)
    requires DistinctIds(rows) && Group(rows, key) != []
    ensures row in Group(rows, key)[1..] <==> row in rows && KeyOf(row) == key && !Keeper(rows, row)
  {
    var group := Group(rows, key);
    GroupOrdered(rows, key);
    if row in group[1..] {
      assert group[0] in rows && KeyOf(group[0]) == key && group[0].id < row.id;
    }
    if row in rows && KeyOf(row) == key && !Keeper(rows, row) {
      var other :| other in rows && KeyOf(other) == key && other.id < row.id;
      assert other in group && row in group;
      assert row != group[0];
    }
  }

  lemma {:induction false} VictimsOfKeys(rows: seq<Row>, keys: seq<string>, row: Row)
    requires DistinctIds(rows)
    ensures row in Victims(rows, keys) <==> row in rows && KeyOf(row) in keys && !Keeper(rows, row)
    decreases |keys|
  {
    if keys != [] {
      var front, last := keys[..|keys| - 1], keys[|keys| - 1];
      VictimsOfKeys(rows, front, row);
      VictimsOfLast(rows, last, row);
      assert keys == front + [last];
    }
  }

  lemma {:induction false} VictimsOfLast(rows: seq<Row>, key: string, row: Row)
    requires DistinctIds(rows)
    ensures row in Younger(rows, key) <==> row in rows && KeyOf(row) == key && !Keeper(rows, row)
  {
    if Group(rows, key) != [] {
      GroupVictims(rows, key, row);
    } else {
      GroupOrdered(rows, key);
      assert row !in Group(rows, key);
    }
  }

  lemma {:induction false} NonKeeperCollides(rows: seq<Row>, row: Row)
    requires row in rows && !Keeper(rows, row)
    ensures KeyOf(row) in CollidingKeys(rows)
  {
    var key := KeyOf(row);
    var other :| other in rows && KeyOf(other) == key && other.id < row.id;
    MembersAreRows(rows, key);
    assert row in Members(rows, key) && other in Members(rows, key) && row != other;
    assert |Members(rows, key)| > 1;
  }

  // Exactly the rows that are not the oldest of their name are renamed.
  lemma {:induction false} VictimsExactly(rows: seq<Row>, keys: seq<string>, row: Row)
    requires DistinctIds(rows) && Elements(keys) == CollidingKeys(rows)
    ensures row in Victims(rows, keys) <==> row in rows && !Keeper(rows, row)
  {
    VictimsOfKeys(rows, keys, row);
    if row in rows && !Keeper(rows, row) {
      NonKeeperCollides(rows, row);
      assert KeyOf(row) in Elements(keys);
    }
  }

  // The first entry of the plan for this profile; |plan| when there is none.
  function EntryFor(plan: seq<Rename>, id: int): (k: nat)
    ensures k <= |plan|
    ensures k < |plan| ==> plan[k].id == id
    ensures k == |plan| ==> forall i :: 0 <= i < |plan| ==> plan[i].id != id
  {
    if plan == [] then 0 else if plan[0].id == id then 0 else 1 + EntryFor(plan[1..], id)
  }

  function ApplyTo(plan: seq<Rename>, row: Row): Row {
    var k := EntryFor(plan, row.id);
    if k < |plan| then Row(row.id, plan[k].new_) else row
  }

  function Apply(plan: seq<Rename>, rows: seq<Row>): seq<Row> {
    seq(|rows|, i requires 0 <= i < |rows| => ApplyTo(plan, rows[i]))
  }

  lemma {:induction false} RenamedEntries(plan: seq<Rename>)
    ensures |Renamed(plan)| == |plan|
    ensures forall k :: 0 <= k < |plan| ==> Renamed(plan)[k] == Row(plan[k].id, plan[k].old_)
    decreases |plan|
  {
    if plan != [] { RenamedEntries(plan[..|plan| - 1]); }
  }

  // A row has an entry exactly when it is not a keeper, and the entry is about that row.
  lemma {:induction false} EntryOf(rows: seq<Row>, keys: seq<string>, plan: seq<Rename>, row: Row)
    requires DistinctIds(rows) && IsPlan(rows, keys, plan) && row in rows
    ensures var k := EntryFor(plan, row.id);
            (k < |plan| <==> !Keeper(rows, row)) && (k < |plan| ==> plan[k].old_ == row.username)
  {
    var k := EntryFor(plan, row.id);
    RenamedEntries(plan);
    VictimsExactly(rows, keys, row);
    if k < |plan| {
      var hit := Renamed(plan)[k];
      VictimsExactly(rows, keys, hit);
      SameIdSameRow(rows, hit, row);
    } else {
      assert row !in Renamed(plan);
    }
  }

  lemma {:induction false} NewsHave(plan: seq<Rename>, k: nat)
    requires k < |plan|
    ensures Lower(plan[k].new_) in News(plan)
    decreases |plan|
  {
    if k < |plan| - 1 { NewsHave(plan[..|plan| - 1], k); }
  }

  // A new name clashes neither with a name taken before nor with one given earlier in the plan.
  lemma {:induction false} FreshEntry(base: set<string>, plan: seq<Rename>, k: nat)
    requires FreshNames(base, plan) && k < |plan|
    ensures Lower(plan[k].new_) !in base
    ensures forall i :: 0 <= i < k ==> Lower(plan[i].new_) != Lower(plan[k].new_)
    ensures |plan[k].new_| > |plan[k].old_|
    decreases |plan|
  {
    var front := plan[..|plan| - 1];
    if k < |front| {
      FreshEntry(base, front, k);
    } else {
      forall i | 0 <= i < k ensures Lower(plan[i].new_) in News(front) {
        NewsHave(front, i);
      }
    }
  }

  // Every entry of a plan keeps the old name as it was written in front of its numeral, and takes the
  // first numeral that was free when its turn came.
  lemma {:induction false} EntryNamedAfter(base: set<string>, plan: seq<Rename>, k: nat)
    requires FreshNames(base, plan) && k < |plan|
    ensures NamedAfter(plan[k].old_, base + News(plan[..k]), plan[k].new_)
    decreases |plan|
  {
    var n := |plan| - 1;
    if k < n {
      EntryNamedAfter(base, plan[..n], k);
      assert plan[..n][..k] == plan[..k];
    } else {
      SmallestFreeIsNamedAfter(plan[k].old_, base + News(plan[..k]), plan[k].new_);
    }
  }

  // The names taken by a part of a plan, one by one.
  lemma {:induction false} NewsAre(plan: seq<Rename>)
    ensures News(plan) == set k | 0 <= k < |plan| :: Lower(plan[k].new_)
    decreases |plan|
  {
    if plan != [] {
      var n := |plan| - 1;
      NewsAre(plan[..n]);
      assert forall k :: 0 <= k < n ==> plan[..n][k] == plan[k];
    }
  }

  // Applying the plan leaves no two usernames equal up to case.
  lemma {:induction false} PlanResolves(rows: seq<Row>, keys: seq<string>, plan: seq<Rename>)
    requires DistinctIds(rows) && IsPlan(rows, keys, plan)
    ensures NoCollisions(Apply(plan, rows))
  {
    var after := Apply(plan, rows);
    forall i, j | 0 <= i < j < |rows| ensures KeyOf(after[i]) != KeyOf(after[j]) {
      RowsApart(rows, keys, plan, i, j);
    }
  }

  lemma {:induction false} NewApart(base: set<string>, plan: seq<Rename>, k: nat, m: nat)
    requires FreshNames(base, plan)
    ensures k < |plan| ==> Lower(plan[k].new_) !in base
    ensures k < |plan| && m < |plan| && k != m ==> Lower(plan[k].new_) != Lower(plan[m].new_)
  {
    if k < |plan| { FreshEntry(base, plan, k); }
    if m < |plan| { FreshEntry(base, plan, m); }
  }

  lemma {:induction false} RowsApart(rows: seq<Row>, keys: seq<string>, plan: seq<Rename>, i: nat, j: nat)
    requires DistinctIds(rows) && IsPlan(rows, keys, plan) && i < j < |rows|
    ensures KeyOf(ApplyTo(plan, rows[i])) != KeyOf(ApplyTo(plan, rows[j]))
  {
    var a, b := rows[i], rows[j];
    var k, m := EntryFor(plan, a.id), EntryFor(plan, b.id);
    EntryOf(rows, keys, plan, a);
    EntryOf(rows, keys, plan, b);
    assert a in rows && b in rows && a.id != b.id;
    assert KeyOf(a) in TakenLower(rows) && KeyOf(b) in TakenLower(rows);
    NewApart(TakenLower(rows), plan, k, m);
    NewApart(TakenLower(rows), plan, m, k);
  }

  // It leaves unchanged exactly the oldest profile of each name, which every profile without a
  // clash is, and it changes no id.
  lemma {:induction false} KeepersKept(rows: seq<Row>, keys: seq<string>, plan: seq<Rename>, i: nat)
    requires DistinctIds(rows) && IsPlan(rows, keys, plan) && i < |rows|
    ensures Apply(plan, rows)[i] == rows[i] <==> Keeper(rows, rows[i])
    ensures Apply(plan, rows)[i].id == rows[i].id
    ensures (forall j :: 0 <= j < |rows| && j != i ==> KeyOf(rows[j]) != KeyOf(rows[i])) ==> Keeper(rows, rows[i])
  {
    EntryOf(rows, keys, plan, rows[i]);
    var k := EntryFor(plan, rows[i].id);
    if k < |plan| { FreshEntry(TakenLower(rows), plan, k); }
  }

  lemma {:induction false} NoCollisionsNoKeys(rows: seq<Row>, key: string)
    requires NoCollisions(rows)
    ensures |Members(rows, key)| <= 1
    decreases |rows|
  {
    if rows != [] {
      var front, last := rows[..|rows| - 1], rows[|rows| - 1];
      NoCollisionsNoKeys(front, key);
      MembersAreRows(front, key);
      if Members(front, key) != [] {
        assert Members(front, key)[0] in Members(front, key);
        assert KeyOf(last) != key;
      }
    }
  }

  lemma {:induction false} NoCollidingKeys(rows: seq<Row>)
    requires NoCollisions(rows)
    ensures CollidingKeys(rows) == {}
  {
    forall key ensures |Members(rows, key)| <= 1 {
      NoCollisionsNoKeys(rows, key);
    }
  }

  // Planning again on the result gives an empty plan.
  lemma {:induction false} ReplanIsEmpty(rows: seq<Row>, keys: seq<string>, plan: seq<Rename>,
                                         keys': seq<string>, plan': seq<Rename>)
    requires DistinctIds(rows) && IsPlan(rows, keys, plan) && IsPlan(Apply(plan, rows), keys', plan')
    ensures plan' == []
  {
    var after := Apply(plan, rows);
    PlanResolves(rows, keys, plan);
    NoCollidingKeys(after);
    NoElements(keys');
    RenamedEntries(plan');
  }

  // No profile is renamed twice.
  lemma {:induction false} OneEntryEach(rows: seq<Row>, keys: seq<string>, plan: seq<Rename>)
    requires DistinctIds(rows) && IsPlan(rows, keys, plan)
    ensures forall i, j :: 0 <= i < j < |plan| ==> plan[i].id != plan[j].id
  {
    RenamedEntries(plan);
    VictimsDistinct(rows, keys);
    var vs := Victims(rows, keys);
    forall i, j | 0 <= i < j < |plan| ensures plan[i].id != plan[j].id {
      assert vs[i].id != vs[j].id;
    }
  }

  lemma {:induction false} VictimsDistinct(rows: seq<Row>, keys: seq<string>)
    requires DistinctIds(rows) && Ascending(keys)
    ensures DistinctIds(Victims(rows, keys))
    decreases |keys|
  {
    if keys != [] {
      var front, last := keys[..|keys| - 1], keys[|keys| - 1];
      VictimsDistinct(rows, front);
      GroupOrdered(rows, last);
      var vs, group := Victims(rows, front), Group(rows, last);
      forall i | 0 <= i < |vs| ensures vs[i] in rows && KeyOf(vs[i]) in front {
        assert vs[i] in vs;
        VictimsOfKeys(rows, front, vs[i]);
      }
      LessTrichotomy(last, last);
      forall i, j | 0 <= i < |vs| && 0 <= j < |group| ensures vs[i].id != group[j].id {
        assert group[j] in group;
        var k :| 0 <= k < |front| && front[k] == KeyOf(vs[i]);
        LessTrichotomy(keys[k], last);
        SameIdSameRow(rows, vs[i], group[j]);
      }
    }
  }

  // The source's promises leave no freedom: there is only one plan.
  lemma {:induction false} PlanUnique(rows: seq<Row>, keys: seq<string>, plan: seq<Rename>,
                                      keys': seq<string>, plan': seq<Rename>)
    requires IsPlan(rows, keys, plan) && IsPlan(rows, keys', plan')
    ensures plan == plan'
  {
    AscendingUnique(keys, keys');
    SameRenames(TakenLower(rows), plan, plan');
  }

  lemma {:induction false} RenamedLength(plan: seq<Rename>)
    ensures |Renamed(plan)| == |plan|
  {
    RenamedEntries(plan);
  }

  lemma {:induction false} RenamedFront(plan: seq<Rename>)
    requires plan != []
    ensures Renamed(plan)[..|Renamed(plan)| - 1] == Renamed(plan[..|plan| - 1])
  {
  }

  // Plans that agree up to the last entry agree there too.
  lemma {:induction false} SameLast(base: set<string>, front: seq<Rename>, a: Rename, b: Rename)
    requires FreshNames(base, front + [a]) && FreshNames(base, front + [b])
    requires Renamed(front + [a]) == Renamed(front + [b])
    ensures a == b
  {
    assert (front + [a])[..|front|] == front && (front + [b])[..|front|] == front;
    ExtendRenamed(front, a);
    ExtendRenamed(front, b);
    assert Renamed(front + [a])[|Renamed(front)|] == Renamed(front + [b])[|Renamed(front)|];
    SmallestFreeUnique(a.old_, base + News(front), a.new_, b.new_);
  }

  lemma {:induction false} SameRenames(base: set<string>, plan: seq<Rename>, plan': seq<Rename>)
    requires Renamed(plan) == Renamed(plan') && FreshNames(base, plan) && FreshNames(base, plan')
    ensures plan == plan'
    decreases |plan|
  {
    RenamedLength(plan);
    RenamedLength(plan');
    if plan != [] {
      var n := |plan| - 1;
      RenamedFront(plan);
      RenamedFront(plan');
      SameRenames(base, plan[..n], plan'[..n]);
      assert plan == plan[..n] + [plan[n]] && plan' == plan[..n] + [plan'[n]];
      SameLast(base, plan[..n], plan[n], plan'[n]);
    }
  }
}
