/**
 * Grouping a user's works by type (newprofile/works.py:316-343, 447-503, 612-637, with
 * newprofile/utils.py:175-196).
 */
module Works {
  import opened Seqs
  import opened Sorting
  import opened StringOrder
  import opened Strings
  import opened Wrappers

  // A record, as far as grouping looks at it. `date` is empty when there is none.
  datatype Work = Work(id: string, typeTitle: string, date: string)

  // A work entry: `issued` holds the parts of each segment of the date.
  datatype Entry = Entry(id: string, originalType: string, issued: seq<seq<nat>>)

  // What the profile says is shown; everything is shown unless hidden works are to be hidden.
  datatype Visibility = Visibility(hideHidden: bool, headings: map<string, bool>, works: map<string, bool>)

  // Sections in order, or the TypeError of comparing a year with "n.d.".
  datatype Grouped = Sections(sections: seq<(string, seq<Entry>)>) | TypeError

  // ----- Entries

  function Split(s: string, separator: char): (pieces: seq<string>)
    ensures pieces != []
  {
    if s == "" then [""]
    else
      var rest := Split(s[1..], separator);
      if s[0] == separator then [""] + rest else [[s[0]] + rest[0]] + rest[1..]
  }

  function Numbers(tokens: seq<string>): seq<nat> {
    if tokens == [] then []
    else
      var head := tokens[0];
      (if head != "" && AllDigits(head) then [DigitsValue(head)] else []) + Numbers(tokens[1..])
  }

  function NumberedSegments(segments: seq<string>): (r: seq<seq<nat>>)
    ensures forall i :: 0 <= i < |r| ==> r[i] != []
  {
    if segments == [] then []
    else
      var parts := Numbers(Split(segments[0], '-'));
      (if parts != [] then [parts] else []) + NumberedSegments(segments[1..])
  }

  // `format_date_parts`; no segments for a date without numbers.
  function FormatDateParts(date: string): (r: seq<seq<nat>>)
    ensures forall i :: 0 <= i < |r| ==> r[i] != []
  {
    if date == "" then [] else NumberedSegments(Split(date, '/'))
  }

  function TypeOf(w: Work): string {
    if w.typeTitle != "" then w.typeTitle else "Other"
  }

  function EntryOf(w: Work): Entry {
    Entry(w.id, TypeOf(w), FormatDateParts(w.date))
  }

  // The key a section is sorted by; None for "n.d.".
  function YearOf(e: Entry): Option<nat> {
    if e.issued == [] || e.issued[0] == [] then None else Some(e.issued[0][0])
  }

  predicate IsHidden(w: Work, v: Visibility) {
    var heading, work := "show_works_" + TypeOf(w), "show_works_work_" + w.id;
    v.hideHidden && ((heading in v.headings && !v.headings[heading]) || (work in v.works && !v.works[work]))
  }

  // The entries of the first `n` works, without the hidden ones.
  function ShownUpTo(works: seq<Work>, v: Visibility, n: nat): seq<Entry>
    requires n <= |works|
  {
    if n == 0 then []
    else if IsHidden(works[n - 1], v) then ShownUpTo(works, v, n - 1)
    else ShownUpTo(works, v, n - 1) + [EntryOf(works[n - 1])]
  }

  function Shown(works: seq<Work>, v: Visibility): seq<Entry> {
    ShownUpTo(works, v, |works|)
  }

  function OfTypes(entries: seq<Entry>, types: set<string>): seq<Entry> {
    if entries == [] then []
    else
      var front, last := entries[..|entries| - 1], entries[|entries| - 1];
      if last.originalType in types then OfTypes(front, types) + [last] else OfTypes(front, types)
  }

  // The section of type `t`, before it is sorted.
  function SectionOf(entries: seq<Entry>, t: string): seq<Entry> {
    OfTypes(entries, {t})
  }

  // A section that holds both dated and undated entries cannot be sorted.
  predicate IsMixed(entries: seq<Entry>) {
    (exists i :: 0 <= i < |entries| && YearOf(entries[i]) == None)
    && (exists j :: 0 <= j < |entries| && YearOf(entries[j]).Some?)
  }

  // Later years first; undated entries tie.
  predicate NotEarlier(a: Entry, b: Entry) {
    YearOf(a) == None || YearOf(b) == None || YearOf(a).value >= YearOf(b).value
  }

  // ----- Order of the sections

  // The last piece of `t.split("order-")`, the pieces before `t` having ended with `piece`.
  function LastPiece(t: string, piece: string): string
    decreases |t|
  {
    if t == "" then piece
    else if "order-" <= t then LastPiece(t[6..], "")
    else LastPiece(t[1..], piece + [t[0]])
  }

  function WorkTypes(works: seq<Work>): set<string> {
    set w | w in works && w.typeTitle != "" :: w.typeTitle
  }

  // The types of the saved order that some work has.
  function SavedTypes(saved: seq<string>, types: set<string>): seq<string> {
    if saved == [] then []
    else
      var last := LastPiece(saved[|saved| - 1], "");
      SavedTypes(saved[..|saved| - 1], types) + (if last in types then [last] else [])
  }

  // Each member once, where it first occurs: the keys of a dict built in this order.
  function Unique(xs: seq<string>): seq<string> {
    if xs == [] then []
    else
      var front, last := Unique(xs[..|xs| - 1]), xs[|xs| - 1];
      if last in front then front else front + [last]
  }

  // The saved types first, then the others alphabetically.
  ghost predicate IsTypeOrder(works: seq<Work>, saved: seq<string>, order: seq<string>) {
    var mine := SavedTypes(saved, WorkTypes(works));
    exists others :: Ascending(others) && Elements(others) == WorkTypes(works) - Elements(mine)
                     && order == Unique(mine) + others
  }

  lemma {:induction false} SavedAreTypes(saved: seq<string>, types: set<string>)
    ensures Elements(SavedTypes(saved, types)) <= types
    decreases |saved|
  {
    if saved != [] { SavedAreTypes(saved[..|saved| - 1], types); }
  }

  ghost predicate Distinct(xs: seq<string>) {
    forall i, j :: 0 <= i < j < |xs| ==> xs[i] != xs[j]
  }

  lemma {:induction false} UniqueIsDistinct(xs: seq<string>)
    ensures Distinct(Unique(xs)) && Elements(Unique(xs)) == Elements(xs)
    decreases |xs|
  {
    if xs != [] {
      var front, last := xs[..|xs| - 1], xs[|xs| - 1];
      UniqueIsDistinct(front);
      ElementsSnoc(front, last);
      ElementsSnoc(Unique(front), last);
      assert xs == front + [last];
      assert last in Unique(front) <==> last in Elements(Unique(front));
    }
  }

  lemma {:induction false} ElementsSnoc(xs: seq<string>, x: string)
    ensures Elements(xs + [x]) == Elements(xs) + {x}
  {
  }

  // The sections are exactly the types of the works, each once.
  lemma {:induction false} TypeOrderIsComplete(works: seq<Work>, saved: seq<string>, order: seq<string>)
    requires IsTypeOrder(works, saved, order)
    ensures Distinct(order) && Elements(order) == WorkTypes(works)
  {
    var mine := SavedTypes(saved, WorkTypes(works));
    var others :| Ascending(others) && Elements(others) == WorkTypes(works) - Elements(mine)
                  && order == Unique(mine) + others;
    UniqueIsDistinct(mine);
    SavedAreTypes(saved, WorkTypes(works));
    ConcatDistinct(Unique(mine), others);
  }

  lemma {:induction false} ConcatDistinct(a: seq<string>, b: seq<string>)
    requires Distinct(a) && Ascending(b) && Elements(a) !! Elements(b)
    ensures Distinct(a + b) && Elements(a + b) == Elements(a) + Elements(b)
  {
    forall i, j | 0 <= i < j < |a + b| ensures (a + b)[i] != (a + b)[j] {
      if j < |a| {
        assert (a + b)[i] == a[i] && (a + b)[j] == a[j];
      } else if i < |a| {
        assert a[i] in Elements(a) && b[j - |a|] in Elements(b);
        assert a[i] !in Elements(b);
        assert (a + b)[i] == a[i] && (a + b)[j] == b[j - |a|];
      } else {
        LessTrichotomy(b[i - |a|], b[j - |a|]);
        assert Less(b[i - |a|], b[j - |a|]) && b[i - |a|] != b[j - |a|];
        assert (a + b)[i] == b[i - |a|] && (a + b)[j] == b[j - |a|];
      }
    }
  }

  // ----- Grouping

  // Each section, sorted, in the given order.
  ghost predicate IsGrouping(shown: seq<Entry>, order: seq<string>, sections: seq<(string, seq<Entry>)>) {
    |sections| == |order| &&
    forall i :: 0 <= i < |order| ==> sections[i] == (order[i], Sorted(SectionOf(shown, order[i]), NotEarlier))
  }

  // Some section, shown or not, holds both dated and undated entries.
  ghost predicate SomeMixed(shown: seq<Entry>) {
    exists t :: IsMixed(SectionOf(shown, t))
  }

  // The sections hold the shown entries so far.
  ghost predicate Collected(shown: seq<Entry>, worksByType: map<string, seq<Entry>>) {
    && (forall t :: t in worksByType ==> worksByType[t] == SectionOf(shown, t))
    && (forall t :: t !in worksByType ==> SectionOf(shown, t) == [])
  }

  method SortAndGroupWorksByType(works: seq<Work>, saved: seq<string>, v: Visibility) returns (r: Grouped)
    ensures r.TypeError? <==> SomeMixed(Shown(works, v))
    ensures r.Sections? ==>
              exists order :: IsTypeOrder(works, saved, order) && IsGrouping(Shown(works, v), order, r.sections)
  {
    var orderedTypes := OrderTypes(works, saved);
    var worksByType := CollectSections(works, v);
    var sorted := SortSections(worksByType);
    CollectedMixed(Shown(works, v), worksByType);
    if sorted == None { return TypeError; }
    var sections := ArrangeSections(Shown(works, v), orderedTypes, worksByType, sorted.value);
    r := Sections(sections);
  }

  lemma {:induction false} CollectedMixed(shown: seq<Entry>, worksByType: map<string, seq<Entry>>)
    requires Collected(shown, worksByType)
    ensures SomeMixed(shown) <==> exists t :: t in worksByType && IsMixed(worksByType[t])
  {
    if t :| t in worksByType && IsMixed(worksByType[t]) {
      assert IsMixed(SectionOf(shown, t));
    }
    if t :| IsMixed(SectionOf(shown, t)) {
      assert t in worksByType && IsMixed(worksByType[t]);
    }
  }

  // The loop over the works.
  method CollectSections(works: seq<Work>, v: Visibility) returns (worksByType: map<string, seq<Entry>>)
    ensures Collected(Shown(works, v), worksByType)
  {
    worksByType := map[];
    for n := 0 to |works|
      invariant Collected(ShownUpTo(works, v, n), worksByType)
    {
      if IsHidden(works[n], v) { continue; }
      var entry := EntryOf(works[n]);
      var workType := entry.originalType;
      CollectedStep(ShownUpTo(works, v, n), worksByType, entry);
      var section := if workType in worksByType then worksByType[workType] else [];
      worksByType := worksByType[workType := section + [entry]];
    }
  }

  lemma {:induction false} CollectedStep(shown: seq<Entry>, before: map<string, seq<Entry>>, e: Entry)
    requires Collected(shown, before)
    ensures var t := e.originalType; var old_ := if t in before then before[t] else [];
      Collected(shown + [e], before[t := old_ + [e]])
  {
    forall t ensures SectionOf(shown + [e], t) == SectionOf(shown, t) + (if e.originalType == t then [e] else []) {
      OfTypesSnoc(shown, e, {t});
    }
  }

  lemma {:induction false} OfTypesSnoc(entries: seq<Entry>, e: Entry, types: set<string>)
    ensures OfTypes(entries + [e], types) == OfTypes(entries, types) + (if e.originalType in types then [e] else [])
  {
    assert (entries + [e])[..|entries|] == entries;
  }

  // The sections of the ordered types, empty ones included.
  method ArrangeSections(ghost shown: seq<Entry>, order: seq<string>,
                         ghost worksByType: map<string, seq<Entry>>, sorted: map<string, seq<Entry>>)
    returns (sections: seq<(string, seq<Entry>)>)
    requires Collected(shown, worksByType) && sorted.Keys == worksByType.Keys
    requires forall t :: t in worksByType ==> sorted[t] == Sorted(worksByType[t], NotEarlier)
    ensures IsGrouping(shown, order, sections)
  {
    sections := [];
    for i := 0 to |order|
      invariant |sections| == i
      invariant forall k :: 0 <= k < i ==> sections[k] == (order[k], Sorted(SectionOf(shown, order[k]), NotEarlier))
    {
      var t := order[i];
      var section := if t in sorted then sorted[t] else [];
      assert section == Sorted(SectionOf(shown, t), NotEarlier);
      sections := sections + [(t, section)];
    }
  }

  // Sorting each section in place, `reverse=True`, as long as none is mixed.
  method SortSections(worksByType: map<string, seq<Entry>>) returns (r: Option<map<string, seq<Entry>>>)
    ensures r == None <==> exists t :: t in worksByType && IsMixed(worksByType[t])
    ensures r.Some? ==> r.value.Keys == worksByType.Keys
    ensures r.Some? ==> forall t :: t in worksByType ==> r.value[t] == Sorted(worksByType[t], NotEarlier)
  {
    var sorted := worksByType;
    var rest := worksByType.Keys;
    while rest != {}
      invariant rest <= worksByType.Keys && sorted.Keys == worksByType.Keys
      invariant forall t :: t in rest ==> sorted[t] == worksByType[t]
      invariant forall t :: t in worksByType.Keys - rest ==>
        !IsMixed(worksByType[t]) && sorted[t] == Sorted(worksByType[t], NotEarlier)
    {
      var t :| t in rest;
      if IsMixed(sorted[t]) { return None; }
      sorted := sorted[t := Sorted(sorted[t], NotEarlier)];
      rest := rest - {t};
    }
    r := Some(sorted);
  }

  method OrderTypes(works: seq<Work>, saved: seq<string>) returns (order: seq<string>)
    ensures IsTypeOrder(works, saved, order)
  {
    var workTypes := WorkTypes(works);
    var mine := SavedTypes(saved, workTypes);
    var others := SortedKeys(workTypes - Elements(mine));
    order := Unique(mine) + others;
  }

  // A book of 2020 and a book without a date cannot be grouped.
  lemma {:induction false} OneDatedOneNot(v: Visibility)
    requires !v.hideHidden
    ensures SomeMixed(Shown([Work("1", "Book", "2020"), Work("2", "Book", "")], v))
  {
    var works := [Work("1", "Book", "2020"), Work("2", "Book", "")];
    var dated, undated := EntryOf(works[0]), EntryOf(works[1]);
    DatedIn2020();
    assert ShownUpTo(works, v, 0) == [] && ShownUpTo(works, v, 1) == [dated];
    assert Shown(works, v) == [dated, undated];
    TwoOfOneType(dated, undated);
  }

  lemma {:induction false} TwoOfOneType(dated: Entry, undated: Entry)
    requires dated.originalType == undated.originalType && YearOf(dated).Some? && YearOf(undated) == None
    ensures SomeMixed([dated, undated])
  {
    var t := dated.originalType;
    OfTypesSnoc([], dated, {t});
    OfTypesSnoc([dated], undated, {t});
    assert [] + [dated] == [dated] && [dated] + [undated] == [dated, undated];
    var section := SectionOf([dated, undated], t);
    assert section == [dated, undated];
    assert YearOf(section[0]).Some? && YearOf(section[1]) == None;
  }

  lemma {:induction false} DatedIn2020()
    ensures FormatDateParts("2020") == [[DigitsValue("2020")]]
  {
    NoSeparator("2020", '/');
    NoSeparator("2020", '-');
    OneNumber("2020");
    OneSegment("2020");
  }

  lemma {:induction false} OneNumber(token: string)
    requires token != "" && AllDigits(token)
    ensures Numbers([token]) == [DigitsValue(token)]
  {
    assert [token][1..] == [] && Numbers([]) == [];
  }

  lemma {:induction false} OneSegment(segment: string)
    requires Numbers(Split(segment, '-')) != []
    ensures NumberedSegments([segment]) == [Numbers(Split(segment, '-'))]
  {
    assert [segment][1..] == [] && NumberedSegments([]) == [];
  }

  lemma {:induction false} NoSeparator(s: string, separator: char)
    requires separator !in s
    ensures Split(s, separator) == [s]
  {
    if s != "" {
      assert s == [s[0]] + s[1..];
      NoSeparator(s[1..], separator);
    }
  }

  // ----- What the grouping is

  lemma {:induction false} YearsPreorder(entries: seq<Entry>)
    requires !IsMixed(entries)
    ensures PreorderOn(Elements(entries), NotEarlier)
  {
    if e :| e in entries && YearOf(e) == None {
      var i :| 0 <= i < |entries| && entries[i] == e;
      forall x | x in entries ensures YearOf(x) == None {
      }
    }
  }

  // The entries of one year, or the undated ones, in order.
  function OfYear(entries: seq<Entry>, year: Option<nat>): seq<Entry> {
    if entries == [] then []
    else (if YearOf(entries[0]) == year then [entries[0]] else []) + OfYear(entries[1..], year)
  }

  lemma {:induction false} TiesAreOfYear(entries: seq<Entry>, g: Entry)
    requires forall e :: e in entries ==> YearOf(e).Some? == YearOf(g).Some?
    ensures Ties(g, entries, NotEarlier) == OfYear(entries, YearOf(g))
  {
    if entries != [] {
      assert entries[0] in entries && forall e :: e in entries[1..] ==> e in entries;
      TiesAreOfYear(entries[1..], g);
    }
  }

  // The entries of `sorted` are those of `section`, later years first, those of one year in the order
  // they had.
  ghost predicate ByYear(section: seq<Entry>, sorted: seq<Entry>) {
    && multiset(sorted) == multiset(section)
    && (forall i, j :: 0 <= i < j < |sorted| && YearOf(sorted[i]).Some? && YearOf(sorted[j]).Some? ==>
          YearOf(sorted[i]).value >= YearOf(sorted[j]).value)
    && (forall g :: g in section ==> OfYear(sorted, YearOf(g)) == OfYear(section, YearOf(g)))
  }

  lemma {:induction false} SectionsByYear(section: seq<Entry>)
    requires !IsMixed(section)
    ensures ByYear(section, Sorted(section, NotEarlier))
  {
    var sorted := Sorted(section, NotEarlier);
    YearsPreorder(section);
    SortedIsStable(section, NotEarlier);
    SameElements(sorted, section);
    forall g | g in section ensures OfYear(sorted, YearOf(g)) == OfYear(section, YearOf(g)) {
      assert forall e :: e in sorted ==> e in Elements(sorted);
      AllAlike(section, g);
      TiesAreOfYear(section, g);
      TiesAreOfYear(sorted, g);
    }
  }

  lemma {:induction false} AllAlike(section: seq<Entry>, g: Entry)
    requires !IsMixed(section) && g in section
    ensures forall e :: e in section ==> YearOf(e).Some? == YearOf(g).Some?
  {
  }

  // So the sections of a grouping come out by year.
  lemma {:induction false} GroupedByYear(shown: seq<Entry>, order: seq<string>, sections: seq<(string, seq<Entry>)>,
                                         i: nat)
    requires IsGrouping(shown, order, sections) && !SomeMixed(shown) && i < |sections|
    ensures sections[i].0 == order[i] && ByYear(SectionOf(shown, order[i]), sections[i].1)
  {
    SectionsByYear(SectionOf(shown, order[i]));
  }

  // A section holds the shown entries of its type, in the order of the works.
  lemma {:induction false} SectionConcat(a: seq<Entry>, b: seq<Entry>, t: string)
    ensures SectionOf(a + b, t) == SectionOf(a, t) + SectionOf(b, t)
    ensures |a| == 1 ==> SectionOf(a, t) == if a[0].originalType == t then a else []
    decreases |b|
  {
    if |a| == 1 {
      assert a[..0] == [] && a == [a[0]];
    }
    if b == [] {
      assert a + b == a;
    } else {
      var front, last := b[..|b| - 1], b[|b| - 1];
      SectionConcat(a, front, t);
      OfTypesSnoc(a + front, last, {t});
      OfTypesSnoc(front, last, {t});
      assert a + b == (a + front) + [last] && b == front + [last];
    }
  }

  // ----- Dates

  lemma {:induction false} SplitConcat(a: string, b: string, separator: char)
    ensures Split(a + [separator] + b, separator) == Split(a, separator) + Split(b, separator)
  {
    var s := a + [separator] + b;
    if a == "" {
      assert s[0] == separator && s[1..] == b;
    } else {
      SplitConcat(a[1..], b, separator);
      assert s[0] == a[0] && s[1..] == a[1..] + [separator] + b;
      LongerFirst(a[0], Split(a[1..], separator), Split(b, separator));
      Associative([""], Split(a[1..], separator), Split(b, separator));
    }
  }

  lemma {:induction false} LongerFirst(c: char, a: seq<string>, b: seq<string>)
    requires a != []
    ensures [[c] + (a + b)[0]] + (a + b)[1..] == ([[c] + a[0]] + a[1..]) + b
  {
    assert (a + b)[0] == a[0] && (a + b)[1..] == a[1..] + b;
  }

  lemma {:induction false} NumbersConcat(a: seq<string>, b: seq<string>)
    ensures Numbers(a + b) == Numbers(a) + Numbers(b)
  {
    if a == [] {
      assert a + b == b;
    } else {
      NumbersConcat(a[1..], b);
      assert (a + b)[1..] == a[1..] + b && (a + b)[0] == a[0];
    }
  }

  lemma {:induction false} SegmentsConcat(a: seq<string>, b: seq<string>)
    ensures NumberedSegments(a + b) == NumberedSegments(a) + NumberedSegments(b)
  {
    if a == [] {
      assert a + b == b;
    } else {
      SegmentsConcat(a[1..], b);
      assert (a + b)[1..] == a[1..] + b && (a + b)[0] == a[0];
    }
  }

  // The parts of a segment: the numbers between hyphens; what is no number is skipped.
  function PartsOf(segment: string): seq<nat> {
    Numbers(Split(segment, '-'))
  }

  lemma {:induction false} PartsMean(a: string, b: string)
    ensures PartsOf(a + "-" + b) == PartsOf(a) + PartsOf(b)
    ensures '-' !in a ==> PartsOf(a) == if a != "" && AllDigits(a) then [DigitsValue(a)] else []
  {
    SplitConcat(a, b, '-');
    NumbersConcat(Split(a, '-'), Split(b, '-'));
    if '-' !in a {
      NoSeparator(a, '-');
      assert [a][1..] == [] && Numbers([]) == [];
    }
  }

  // The segments of a date: what stands between slashes, without those that have no number.
  lemma {:induction false} DatePartsMean(a: string, b: string)
    ensures FormatDateParts(a + "/" + b) == FormatDateParts(a) + FormatDateParts(b)
    ensures '/' !in a ==> FormatDateParts(a) == if PartsOf(a) != [] then [PartsOf(a)] else []
  {
    SplitConcat(a, b, '/');
    SegmentsConcat(Split(a, '/'), Split(b, '/'));
    EmptyDate();
    if '/' !in a {
      NoSeparator(a, '/');
      OneSegmentParts(a);
    }
  }

  lemma {:induction false} OneSegmentParts(a: string)
    ensures NumberedSegments([a]) == if PartsOf(a) != [] then [PartsOf(a)] else []
  {
    assert [a][1..] == [] && NumberedSegments([]) == [];
  }

  lemma {:induction false} EmptyDate()
    ensures PartsOf("") == [] && NumberedSegments(Split("", '/')) == []
  {
    NoSeparator("", '-');
    assert [""][1..] == [] && Numbers([]) == [];
    OneSegmentParts("");
  }

  // A date that begins with digits, up to a hyphen, a slash or its end, has that number as its year.
  lemma {:induction false} YearOfDate(w: Work, year: string, rest: string)
    requires w.date == year + rest && year != "" && AllDigits(year)
    requires rest == "" || rest[0] == '-' || rest[0] == '/'
    ensures YearOf(EntryOf(w)) == Some(DigitsValue(year))
  {
    FirstSegment(rest);
    var n := SlashAt(rest);
    var segment := year + rest[..n];
    YearOfSegment(year, rest[..n]);
    NoSlash(year, rest[..n]);
    if n == |rest| {
      assert segment == w.date;
    } else {
      AtSlash(year, rest, n);
    }
    DatePartsMean(segment, if n == |rest| then "" else rest[n + 1..]);
  }

  lemma {:induction false} NoSlash(year: string, more: string)
    requires AllDigits(year) && '/' !in more
    ensures '/' !in year + more
  {
  }

  lemma {:induction false} AtSlash(year: string, rest: string, n: nat)
    requires n < |rest| && rest[n] == '/'
    ensures year + rest == (year + rest[..n]) + "/" + rest[n + 1..]
  {
  }

  // Where the first slash is; |s| when there is none.
  function SlashAt(s: string): (n: nat)
    ensures n <= |s| && '/' !in s[..n] && (n < |s| ==> s[n] == '/')
  {
    if s == "" || s[0] == '/' then 0
    else
      var n := SlashAt(s[1..]);
      assert s[..n + 1] == [s[0]] + s[1..][..n];
      n + 1
  }

  lemma {:induction false} FirstSegment(rest: string)
    requires rest == "" || rest[0] == '-' || rest[0] == '/'
    ensures var n := SlashAt(rest); rest[..n] == "" || rest[..n][0] == '-'
  {
  }

  lemma {:induction false} YearOfSegment(year: string, more: string)
    requires year != "" && AllDigits(year) && (more == "" || more[0] == '-')
    ensures PartsOf(year + more) != [] && PartsOf(year + more)[0] == DigitsValue(year)
  {
    assert forall c :: c in year ==> IsDigit(c);
    if more == "" {
      assert year + more == year;
      PartsMean(year, "");
    } else {
      assert year + more == year + "-" + more[1..];
      PartsMean(year, more[1..]);
    }
  }

  // A date without a digit has no year.
  lemma {:induction false} NoYearWithoutDigits(w: Work)
    requires forall c :: c in w.date ==> !IsDigit(c)
    ensures YearOf(EntryOf(w)) == None
  {
    if w.date != "" {
      NoDigitsInPieces(w.date, '/');
      NoDigitsNoSegments(Split(w.date, '/'));
    }
  }

  lemma {:induction false} NoDigitsInPieces(s: string, separator: char)
    requires forall c :: c in s ==> !IsDigit(c)
    ensures forall i, c :: 0 <= i < |Split(s, separator)| && c in Split(s, separator)[i] ==> !IsDigit(c)
  {
    if s != "" {
      assert s[0] in s && forall c :: c in s[1..] ==> c in s;
      NoDigitsInPieces(s[1..], separator);
    }
  }

  lemma {:induction false} NoDigitsNoNumbers(tokens: seq<string>)
    requires forall i, c :: 0 <= i < |tokens| && c in tokens[i] ==> !IsDigit(c)
    ensures Numbers(tokens) == []
  {
    if tokens != [] {
      assert tokens[0] != "" ==> tokens[0][0] in tokens[0];
      NoDigitsNoNumbers(tokens[1..]);
    }
  }

  lemma {:induction false} NoDigitsNoSegments(segments: seq<string>)
    requires forall i, c :: 0 <= i < |segments| && c in segments[i] ==> !IsDigit(c)
    ensures NumberedSegments(segments) == []
  {
    if segments != [] {
      NoDigitsInPieces(segments[0], '-');
      NoDigitsNoNumbers(Split(segments[0], '-'));
      NoDigitsNoSegments(segments[1..]);
    }
  }

  // ----- What is shown

  // The entry of a work is shown unless hidden works are to be hidden and the profile says no to the
  // works of its type or to this work.
  lemma {:induction false} ShownExactly(works: seq<Work>, v: Visibility, e: Entry)
    ensures e in Shown(works, v) <==>
            exists i :: 0 <= i < |works| && EntryOf(works[i]) == e && MayBeShown(works[i], v)
  {
    if e in Shown(works, v) {
      ShownOnly(works, v, |works|, e);
    }
    if i :| 0 <= i < |works| && EntryOf(works[i]) == e && MayBeShown(works[i], v) {
      ShownHas(works, v, |works|, i);
    }
  }

  // An entry keeps the id, the type, or "Other", and the parts of the date.
  lemma {:induction false} EntryKeeps(w: Work)
    ensures EntryOf(w).id == w.id && EntryOf(w).issued == FormatDateParts(w.date)
    ensures EntryOf(w).originalType == if w.typeTitle == "" then "Other" else w.typeTitle
  {
  }

  predicate MayBeShown(w: Work, v: Visibility) {
    var kind := "show_works_" + (if w.typeTitle == "" then "Other" else w.typeTitle);
    !v.hideHidden || (Allowed(v.headings, kind) && Allowed(v.works, "show_works_work_" + w.id))
  }

  // `dict.get(key, True)`
  predicate Allowed(settings: map<string, bool>, key: string) {
    key in settings ==> settings[key]
  }

  function AllEntries(sections: seq<(string, seq<Entry>)>, n: nat): multiset<Entry>
    requires n <= |sections|
  {
    if n == 0 then multiset{} else AllEntries(sections, n - 1) + multiset(sections[n - 1].1)
  }

  lemma {:induction false} OneMoreType(entries: seq<Entry>, types: set<string>, t: string)
    requires t !in types
    ensures multiset(OfTypes(entries, types + {t})) == multiset(OfTypes(entries, types)) + multiset(SectionOf(entries, t))
    decreases |entries|
  {
    if entries != [] { OneMoreType(entries[..|entries| - 1], types, t); }
  }

  lemma {:induction false} OfNoType(entries: seq<Entry>)
    ensures OfTypes(entries, {}) == []
    decreases |entries|
  {
    if entries != [] { OfNoType(entries[..|entries| - 1]); }
  }

  lemma {:induction false} SectionsHoldListed(shown: seq<Entry>, order: seq<string>,
                                              sections: seq<(string, seq<Entry>)>, n: nat)
    requires Distinct(order) && IsGrouping(shown, order, sections) && n <= |order|
    ensures AllEntries(sections, n) == multiset(OfTypes(shown, Elements(order[..n])))
  {
    if n == 0 {
      assert Elements(order[..0]) == {};
      OfNoType(shown);
    } else {
      var types, t := Elements(order[..n - 1]), order[n - 1];
      SectionsHoldListed(shown, order, sections, n - 1);
      assert order[..n] == order[..n - 1] + [t];
      ElementsSnoc(order[..n - 1], t);
      assert t !in types;
      OneMoreType(shown, types, t);
      SortedPermutes(SectionOf(shown, t), NotEarlier);
    }
  }

  lemma {:induction false} OfTypesMember(entries: seq<Entry>, types: set<string>, e: Entry)
    ensures e in OfTypes(entries, types) <==> e in entries && e.originalType in types
    decreases |entries|
  {
    if entries != [] {
      var front, last := entries[..|entries| - 1], entries[|entries| - 1];
      OfTypesMember(front, types, e);
      assert entries == front + [last];
    }
  }

  // The sections hold every shown entry that has a section, each exactly as often as it is shown,
  // and each section only entries of its own type.
  lemma {:induction false} GroupingConserves(works: seq<Work>, saved: seq<string>, shown: seq<Entry>,
                                             order: seq<string>, sections: seq<(string, seq<Entry>)>)
    requires IsTypeOrder(works, saved, order) && IsGrouping(shown, order, sections)
    ensures AllEntries(sections, |sections|) == multiset(OfTypes(shown, WorkTypes(works)))
    ensures forall i, e :: 0 <= i < |sections| && e in sections[i].1 ==> e.originalType == sections[i].0
  {
    TypeOrderIsComplete(works, saved, order);
    SectionsHoldListed(shown, order, sections, |order|);
    assert order[..|order|] == order;
    forall i, e | 0 <= i < |sections| && e in sections[i].1 ensures e.originalType == sections[i].0 {
      var section := SectionOf(shown, order[i]);
      SortedPermutes(section, NotEarlier);
      SameElements(Sorted(section, NotEarlier), section);
      assert e in Elements(Sorted(section, NotEarlier));
      OfTypesMember(shown, {order[i]}, e);
    }
  }

  // A shown work has a section exactly when it has a type, or when some other work has the type
  // "Other", under which a work without a type is filed.
  lemma {:induction false} WhoHasASection(works: seq<Work>, v: Visibility, i: nat)
    requires i < |works| && !IsHidden(works[i], v)
    ensures EntryOf(works[i]) in OfTypes(Shown(works, v), WorkTypes(works))
       <==> works[i].typeTitle != "" || exists k :: 0 <= k < |works| && works[k].typeTitle == "Other"
  {
    WorkTypesAre(works, "Other");
    WorkTypesAre(works, works[i].typeTitle);
    ShownHas(works, v, |works|, i);
    OfTypesMember(Shown(works, v), WorkTypes(works), EntryOf(works[i]));
    assert works[i] in works;
  }

  lemma {:induction false} ShownHas(works: seq<Work>, v: Visibility, n: nat, i: nat)
    requires i < n <= |works| && !IsHidden(works[i], v)
    ensures EntryOf(works[i]) in ShownUpTo(works, v, n)
  {
    if i < n - 1 { ShownHas(works, v, n - 1, i); }
  }

  lemma {:induction false} WorkTypesAre(works: seq<Work>, t: string)
    ensures t in WorkTypes(works) <==> t != "" && exists k :: 0 <= k < |works| && works[k].typeTitle == t
  {
  }

  // A type has a heading exactly when some work, shown or not, has that title.
  lemma {:induction false} HeadingsAre(works: seq<Work>, saved: seq<string>, order: seq<string>, t: string)
    requires IsTypeOrder(works, saved, order)
    ensures t in order <==> t != "" && exists k :: 0 <= k < |works| && works[k].typeTitle == t
  {
    TypeOrderIsComplete(works, saved, order);
    WorkTypesAre(works, t);
    assert t in order <==> t in Elements(order);
  }

  // Nothing is shown but the works that are not hidden.
  lemma {:induction false} ShownOnly(works: seq<Work>, v: Visibility, n: nat, e: Entry)
    requires n <= |works| && e in ShownUpTo(works, v, n)
    ensures exists i :: 0 <= i < n && !IsHidden(works[i], v) && EntryOf(works[i]) == e
  {
    if IsHidden(works[n - 1], v) || e != EntryOf(works[n - 1]) { ShownOnly(works, v, n - 1, e); }
  }

  // The user's order is respected: a saved type comes before every unsaved one, and saved types
  // come in the order in which they were first saved.
  lemma {:induction false} SavedOrderRespected(works: seq<Work>, saved: seq<string>, order: seq<string>, i: nat, j: nat)
    requires IsTypeOrder(works, saved, order) && i < j < |order|
    ensures var mine := SavedTypes(saved, WorkTypes(works));
      if order[j] in mine then order[i] in mine && FirstAt(mine, order[i]) < FirstAt(mine, order[j])
      else order[i] in mine || Less(order[i], order[j])
  {
    var mine := SavedTypes(saved, WorkTypes(works));
    var others :| Ascending(others) && Elements(others) == WorkTypes(works) - Elements(mine)
                  && order == Unique(mine) + others;
    UniqueIsDistinct(mine);
    var n := |Unique(mine)|;
    if j < n {
      UniqueInOrder(mine, i, j);
      assert order[i] in Elements(Unique(mine)) && order[j] in Elements(Unique(mine));
    } else {
      assert order[j] in Elements(others);
      if i < n {
        assert order[i] in Elements(Unique(mine));
      } else {
        assert order[i] == others[i - n] && order[j] == others[j - n];
      }
    }
  }

  // What is left of a saved name behind the last "order-" in it.
  lemma {:induction false} SavedName(prefix: string, name: string)
    requires forall i :: 0 <= i <= |name| ==> !("order-" <= name[i..])
    ensures LastPiece(prefix + "order-" + name, "") == name && LastPiece(name, "") == name
  {
    NoOrderLeft(name, "");
    PastPrefix(prefix, name, "");
    assert "" + name == name;
  }

  lemma {:induction false} NoOrderLeft(t: string, piece: string)
    requires forall i :: 0 <= i <= |t| ==> !("order-" <= t[i..])
    ensures LastPiece(t, piece) == piece + t
    decreases |t|
  {
    if t == "" {
      assert piece + t == piece;
    } else {
      assert t[0..] == t && forall i :: 0 <= i <= |t[1..]| ==> t[1..][i..] == t[i + 1..];
      NoOrderLeft(t[1..], piece + [t[0]]);
      assert piece + [t[0]] + t[1..] == piece + t;
    }
  }

  lemma {:induction false} PastPrefix(prefix: string, name: string, piece: string)
    requires forall i :: 0 <= i <= |name| ==> !("order-" <= name[i..])
    ensures LastPiece(prefix + "order-" + name, piece) == name
    decreases |prefix|
  {
    var t := prefix + "order-" + name;
    if prefix == "" {
      assert t[..6] == "order-" && t[6..] == name;
      NoOrderLeft(name, "");
      assert "" + name == name;
    } else if "order-" <= t {
      OrderAtFront(prefix, name);
      PastPrefix(prefix[6..], name, "");
      assert t[6..] == prefix[6..] + "order-" + name;
    } else {
      PastPrefix(prefix[1..], name, piece + [t[0]]);
      assert t[1..] == prefix[1..] + "order-" + name;
    }
  }

  // Two occurrences of "order-" do not overlap.
  lemma {:induction false} OrderAtFront(prefix: string, name: string)
    requires prefix != ""
    ensures "order-" <= prefix + "order-" + name ==> |prefix| >= 6
  {
    var t, tag := prefix + "order-" + name, "order-";
    assert t[|prefix|] == tag[0] == 'o';
    assert forall i :: 1 <= i < 6 ==> tag[i] != 'o';
  }

  // Where a type was first saved; |saved| when it was not.
  function FirstSaved(saved: seq<string>, t: string): (k: nat)
    ensures k <= |saved|
    ensures k < |saved| ==> LastPiece(saved[k], "") == t
    ensures forall i :: 0 <= i < k ==> LastPiece(saved[i], "") != t
  {
    if saved == [] || LastPiece(saved[0], "") == t then 0 else 1 + FirstSaved(saved[1..], t)
  }

  lemma {:induction false} SavedTypesAre(saved: seq<string>, types: set<string>, t: string)
    ensures t in SavedTypes(saved, types) <==> FirstSaved(saved, t) < |saved| && t in types
    decreases |saved|
  {
    if saved != [] {
      var front, last := saved[..|saved| - 1], LastPiece(saved[|saved| - 1], "");
      SavedTypesAre(front, types, t);
      FirstSavedLast(saved, t);
    }
  }

  lemma {:induction false} FirstSavedLast(saved: seq<string>, t: string)
    requires saved != []
    ensures var front := saved[..|saved| - 1];
      FirstSaved(saved, t) ==
      if FirstSaved(front, t) < |front| then FirstSaved(front, t)
      else if LastPiece(saved[|saved| - 1], "") == t then |front| else |saved|
  {
    var front := saved[..|saved| - 1];
    var k, m := FirstSaved(saved, t), FirstSaved(front, t);
    assert forall i :: 0 <= i < |front| ==> front[i] == saved[i];
    if m < |front| { assert LastPiece(saved[m], "") == t; }
    if k < |front| { assert LastPiece(front[k], "") == t; }
  }

  lemma {:induction false} SavedInOrder(saved: seq<string>, types: set<string>, a: string, b: string)
    requires a in types && b in types && a != b
    requires FirstAt(SavedTypes(saved, types), a) < FirstAt(SavedTypes(saved, types), b)
    requires b in SavedTypes(saved, types)
    ensures FirstSaved(saved, a) < FirstSaved(saved, b)
    decreases |saved|
  {
    var front, last := saved[..|saved| - 1], LastPiece(saved[|saved| - 1], "");
    var before := SavedTypes(front, types);
    FirstSavedLast(saved, a);
    FirstSavedLast(saved, b);
    FirstAtSnoc(before, last, a);
    FirstAtSnoc(before, last, b);
    FirstAtSnoc(SavedTypes(saved, types), last, a);
    FirstAtSnoc(SavedTypes(saved, types), last, b);
    SavedTypesAre(front, types, a);
    SavedTypesAre(front, types, b);
    assert SavedTypes(saved, types) == if last in types then before + [last] else before;
    if b in before { SavedInOrder(front, types, a, b); }
  }

  // The order of the headings in terms of what was saved: saved types first, in the order they were
  // saved, then the others alphabetically.
  lemma {:induction false} HeadingsAsSaved(works: seq<Work>, saved: seq<string>, order: seq<string>, i: nat, j: nat)
    requires IsTypeOrder(works, saved, order) && i < j < |order|
    ensures var a, b := FirstSaved(saved, order[i]), FirstSaved(saved, order[j]);
      if b < |saved| then a < b else a < |saved| || Less(order[i], order[j])
  {
    var types := WorkTypes(works);
    TypeOrderIsComplete(works, saved, order);
    assert order[i] in Elements(order) && order[j] in Elements(order) && order[i] != order[j];
    SavedOrderRespected(works, saved, order, i, j);
    SavedTypesAre(saved, types, order[i]);
    SavedTypesAre(saved, types, order[j]);
    if order[j] in SavedTypes(saved, types) { SavedInOrder(saved, types, order[i], order[j]); }
  }

  function FirstAt(xs: seq<string>, x: string): nat {
    if xs == [] || xs[0] == x then 0 else 1 + FirstAt(xs[1..], x)
  }

  lemma {:induction false} FirstAtSnoc(xs: seq<string>, last: string, x: string)
    ensures FirstAt(xs, x) <= |xs| && (x in xs <==> FirstAt(xs, x) < |xs|)
    ensures x in xs ==> FirstAt(xs + [last], x) == FirstAt(xs, x)
    ensures x !in xs && x == last ==> FirstAt(xs + [last], x) == |xs|
  {
    if xs == [] {
      assert xs + [last] == [last];
    } else {
      FirstAtSnoc(xs[1..], last, x);
      assert (xs + [last])[1..] == xs[1..] + [last];
      assert xs == [xs[0]] + xs[1..];
    }
  }

  lemma {:induction false} UniqueInOrder(xs: seq<string>, i: nat, j: nat)
    requires i < j < |Unique(xs)|
    ensures FirstAt(xs, Unique(xs)[i]) < FirstAt(xs, Unique(xs)[j])
    decreases |xs|
  {
    var front, last := xs[..|xs| - 1], xs[|xs| - 1];
    var before := Unique(front);
    assert xs == front + [last];
    UniqueIsDistinct(front);
    var a, b := Unique(xs)[i], Unique(xs)[j];
    assert a in Elements(before);
    FirstAtSnoc(front, last, a);
    FirstAtSnoc(front, last, b);
    if j < |before| {
      UniqueInOrder(front, i, j);
      assert b in Elements(before);
    } else {
      assert b == last && last !in Elements(before);
    }
  }
}
