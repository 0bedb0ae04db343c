/**
 * What each element of a style shows, kind by kind and in terms of the item's own data, and how
 * the pieces go together (citeproc/model.py:623-707, 795-857, 1082-1106, 1516-1722).
 */
module RenderingSteps {
  import opened LayoutProcess
  import opened Rendering
  import opened Seqs
  import opened Strings
  import opened Wrappers

  // ----- Conditions

  // How many of the tests hold.
  function Holding(tests: seq<Test>, item: Item): nat {
    if tests == [] then 0 else (if TestHolds(tests[0], item) then 1 else 0) + Holding(tests[1..], item)
  }

  // The branch is to be rendered: all of its tests hold, or at least one, or none, as `match` says.
  predicate Met(b: Branch, item: Item) {
    match b.match_
    case MatchAll => Holding(b.tests, item) == |b.tests|
    case MatchAny => Holding(b.tests, item) >= 1
    case MatchNone => Holding(b.tests, item) == 0
  }

  lemma {:induction false} HoldingCounts(tests: seq<Test>, item: Item)
    ensures Holding(tests, item) <= |tests|
    ensures Holding(tests, item) == |tests| <==> forall i :: 0 <= i < |tests| ==> TestHolds(tests[i], item)
    ensures Holding(tests, item) == 0 <==> forall i :: 0 <= i < |tests| ==> !TestHolds(tests[i], item)
  {
    if tests != [] {
      HoldingCounts(tests[1..], item);
      assert tests == [tests[0]] + tests[1..];
    }
  }

  lemma {:induction false} MetIsTaken(b: Branch, item: Item)
    ensures Taken(b, item) <==> Met(b, item)
  {
    HoldingCounts(b.tests, item);
  }

  // The first branch that is met, and no other, is rendered; |branches| stands for none.
  function FirstMet(branches: seq<Branch>, item: Item): (k: nat)
    ensures k <= |branches|
    ensures forall j :: 0 <= j < k ==> !Met(branches[j], item)
    ensures k < |branches| ==> Met(branches[k], item)
  {
    if branches == [] || Met(branches[0], item) then 0 else 1 + FirstMet(branches[1..], item)
  }

  lemma {:induction false} ChooseRendersFirstMet(branches: seq<Branch>, item: Item, rep: Repressed)
    ensures var k := FirstMet(branches, item);
      Render(Choose(branches), item, rep) ==
      if k == |branches| then Step(Rendered(None), rep, [])
      else
        var r := RenderEach(branches[k].children, item, rep);
        Step(Rendered(Joined(r.outcomes)), r.repressed, r.log)
  {
    if branches != [] {
      MetIsTaken(branches[0], item);
      ChooseRendersFirstMet(branches[1..], item, rep);
    }
  }

  // When each kind of test holds.
  lemma {:induction false} TestsMean(item: Item, name: string)
    ensures TestHolds(TypeIs(name), item) <==> item.kind == Lower(name)
    ensures name != "locator" ==>
              (TestHolds(HasVariable(name), item) <==> name in item.fields.Keys + item.names.Keys + item.dates.Keys)
    ensures TestHolds(HasVariable("locator"), item) <==> item.locator.Some?
    ensures TestHolds(IsNumeric(name), item) <==> name in item.fields && LooksNumeric(item.fields[name])
    ensures TestHolds(IsUncertainDate(name), item) <==> name in item.dates && item.dates[name]
    ensures item.locator == None ==> !TestHolds(LocatorIs(name), item)
    ensures !TestHolds(Position, item)
  {
  }

  lemma {:induction false} LocatorTestMeans(item: Item, before: string, after: string)
    requires item.locator.Some? && '-' !in before && '-' !in after
    ensures TestHolds(LocatorIs(before), item) <==> item.locator.value.unit == before
    ensures TestHolds(LocatorIs(before + "-" + after), item) <==> item.locator.value.unit == before + " " + after
  {
    assert Replaced(before, '-', ' ') == before;
    assert Replaced(before + "-" + after, '-', ' ') == before + " " + after;
  }

  // A text looks numeric exactly when it is digits with letters before and after, and perhaps a final
  // line feed.
  lemma {:induction false} NumericMeans(text: string)
    ensures LooksNumeric(text) <==>
            exists a, d, b, e :: IsNumeral(a, d, b) && (e == "" || e == "\n") && text == a + d + b + e
  {
    if LettersDigitsLetters(text) {
      NumeralParts(text);
    }
    if text != "" && text[|text| - 1] == '\n' && LettersDigitsLetters(text[..|text| - 1]) {
      NumeralParts(text[..|text| - 1]);
      var a, d, b :| IsNumeral(a, d, b) && text[..|text| - 1] == a + d + b;
      assert text == a + d + b + "\n";
    }
    forall a, d, b | IsNumeral(a, d, b) ensures LettersDigitsLetters(a + d + b) {
      NumeralWhole(a, d, b);
    }
    forall a, d, b, e | IsNumeral(a, d, b) && (e == "" || e == "\n") && text == a + d + b + e
      ensures LooksNumeric(text)
    {
      assert e == "" ==> text == a + d + b;
      assert e == "\n" ==> text[..|text| - 1] == a + d + b;
    }
  }

  predicate IsNumeral(a: string, d: string, b: string) {
    AllLetters(a) && AllDigits(d) && d != "" && AllLetters(b)
  }

  lemma {:induction false} NumeralParts(s: string)
    requires LettersDigitsLetters(s)
    ensures exists a, d, b :: IsNumeral(a, d, b) && s == a + d + b && s == a + d + b + ""
  {
    var i, j :| 0 <= i < j <= |s| && AllLetters(s[..i]) && AllDigits(s[i..j]) && AllLetters(s[j..]);
    assert IsNumeral(s[..i], s[i..j], s[j..]);
    assert s == s[..i] + s[i..j] + s[j..] && s == s[..i] + s[i..j] + s[j..] + "";
  }

  lemma {:induction false} NumeralWhole(a: string, d: string, b: string)
    requires IsNumeral(a, d, b)
    ensures LettersDigitsLetters(a + d + b)
  {
    var s, i, j := a + d + b, |a|, |a| + |d|;
    assert s[..i] == a && s[i..j] == d && s[j..] == b;
  }

  // ----- Leaves

  // A text with the prefix and suffix of its element, unless it is empty.
  function Wrapped(affix: Affix, text: string): Outcome {
    Rendered(if text == "" then None else Some(affix.prefix + text + affix.suffix))
  }

  // Variables with a meaning of their own.
  predicate Special(name: string) {
    "page" <= name || name == "citation-number" || name == "locator"
  }

  // What a `cs:text` shows of a variable that is not suppressed.
  lemma {:induction false} VariableShows(item: Item, name: string, format: (string, string) -> string, affix: Affix,
                                         rep: Repressed)
    requires !IsRepressed(rep, name)
    ensures var outcome := Render(Variable(name, false, format, affix), item, rep).outcome;
      && (!Special(name) ==>
            outcome == if name in item.fields then Wrapped(affix, item.fields[name]) else VariableError)
      && ("page" <= name ==>
            outcome == if "page" in item.fields then Wrapped(affix, format(item.fields["page"], name)) else VariableError)
      && (name == "citation-number" ==> outcome == Wrapped(affix, Decimal(item.number)))
      && (name == "locator" && item.locator == None ==> outcome == VariableError)
      && (name == "locator" && item.locator.Some? && '-' !in item.locator.value.identifier ==>
            outcome == Wrapped(affix, item.locator.value.identifier))
  {
    assert "page"[0] != "citation-number"[0] && "page"[0] != "locator"[0];
    if name == "locator" && item.locator.Some? && '-' !in item.locator.value.identifier {
      var identifier := item.locator.value.identifier;
      assert Replaced(identifier, '-', '\U{2013}') == identifier;
    }
  }

  // The short form is the variable of that name, when the item has it.
  lemma {:induction false} ShortFormShows(item: Item, name: string, format: (string, string) -> string, affix: Affix,
                                          rep: Repressed)
    requires !IsRepressed(rep, name) && !IsRepressed(rep, name + "-short")
    ensures Render(Variable(name, true, format, affix), item, rep).outcome ==
            Render(Variable(if name + "-short" in item.fields then name + "-short" else name, false, format, affix),
                   item, rep).outcome
  {
  }

  // A range in a locator is written with an en dash.
  lemma {:induction false} LocatorRange(item: Item, from: string, to: string, format: (string, string) -> string,
                                        affix: Affix, rep: Repressed)
    requires item.locator.Some? && item.locator.value.identifier == from + "-" + to && '-' !in from && '-' !in to
    requires !IsRepressed(rep, "locator")
    ensures Render(Variable("locator", false, format, affix), item, rep).outcome
         == Wrapped(affix, from + "\U{2013}" + to)
  {
    assert "page"[0] != "locator"[0];
    assert Replaced(from + "-" + to, '-', '\U{2013}') == from + "\U{2013}" + to;
  }

  lemma {:induction false} NumberShows(item: Item, name: string, format: (string, string) -> string, affix: Affix,
                                       rep: Repressed)
    ensures var outcome := Render(Number(name, format, affix), item, rep).outcome;
      && (name != "locator" && '-' !in name ==>
            outcome == if name in item.fields then Wrapped(affix, format(item.fields[name], name)) else VariableError)
      && (name == "page-first" ==>
            outcome == if "page" in item.fields then Wrapped(affix, format(item.fields["page"], name)) else VariableError)
      && (name == "locator" ==>
            outcome == match item.locator
                       case Some(at) => Wrapped(affix, format(at.identifier, at.unit))
                       case None => VariableError)
      && ('-' in name && name != "page-first" ==> outcome == VariableError)
  {
    assert "page-first"[4] == '-' && '-' !in "locator";
  }

  // A label is plural always, never, or when its variable holds a number, something else, and a number.
  lemma {:induction false} LabelShows(item: Item, name: string, plural: Plural, term: (string, bool) -> string,
                                      affix: Affix, rep: Repressed)
    requires name != "locator" && !("number-of" <= name)
    ensures Render(Label(name, plural, term, affix), item, rep).outcome ==
            Wrapped(affix, term(name, plural == Always
                                      || (plural == Contextual && name in item.fields && SeveralNumbers(item.fields[name]))))
  {
    if name in item.fields { SeveralIsTwo(item.fields[name]); }
  }

  lemma {:induction false} LocatorLabelShows(item: Item, plural: Plural, term: (string, bool) -> string, affix: Affix,
                                             rep: Repressed)
    ensures Render(Label("locator", plural, term, affix), item, rep).outcome ==
            match item.locator
            case Some(at) =>
              Wrapped(affix, term(at.unit, plural == Always || (plural == Contextual && SeveralNumbers(at.identifier))))
            case None => VariableError
  {
    if item.locator.Some? { SeveralIsTwo(item.locator.value.identifier); }
  }

  // A present `number-of-` variable has no label.
  lemma {:induction false} NumberOfHasNoLabel(item: Item, name: string, plural: Plural, term: (string, bool) -> string,
                                              affix: Affix, rep: Repressed)
    requires "number-of" <= name && name != "locator"
    ensures Render(Label(name, plural, term, affix), item, rep).outcome ==
            if name in item.fields then VariableError else Wrapped(affix, term(name, plural == Always))
  {
  }

  // Some text between digits holds a character that is none.
  ghost predicate SeveralNumbers(text: string) {
    exists a, m, gap, n, b :: SeveralAt(text, a, m, gap, n, b)
  }

  predicate SeveralAt(text: string, a: string, m: char, gap: string, n: char, b: string) {
    text == a + [m] + gap + [n] + b && IsDigit(m) && IsDigit(n) && !AllDigits(gap)
  }

  lemma {:induction false} SeveralIsTwo(text: string)
    ensures SeveralNumbers(text) <==> HasTwoNumbers(text)
  {
    if SeveralNumbers(text) {
      var a, m, gap, n, b :| SeveralAt(text, a, m, gap, n, b);
      SeveralHasTwo(text, a, m, gap, n, b);
    }
    if HasTwoNumbers(text) {
      var i, k, j :| 0 <= i < k < j < |text| && IsDigit(text[i]) && !IsDigit(text[k]) && IsDigit(text[j]);
      TwoAreSeveral(text, i, k, j);
    }
  }

  lemma {:induction false} SeveralHasTwo(text: string, a: string, m: char, gap: string, n: char, b: string)
    requires SeveralAt(text, a, m, gap, n, b)
    ensures HasTwoNumbers(text)
  {
    var g :| 0 <= g < |gap| && !IsDigit(gap[g]);
    assert text[|a|] == m && text[|a| + 1 + g] == gap[g] && text[|a| + 1 + |gap|] == n;
  }

  lemma {:induction false} TwoAreSeveral(text: string, i: nat, k: nat, j: nat)
    requires i < k < j < |text| && IsDigit(text[i]) && !IsDigit(text[k]) && IsDigit(text[j])
    ensures SeveralNumbers(text)
  {
    var gap := text[i + 1..j];
    assert gap[k - i - 1] == text[k];
    assert text == text[..i] + [text[i]] + gap + [text[j]] + text[j + 1..];
    assert SeveralAt(text, text[..i], text[i], gap, text[j], text[j + 1..]);
  }

  // ----- Children together

  lemma {:induction false} EachOfOne(n: Node, item: Item, rep: Repressed)
    ensures var r, one := RenderEach([n], item, rep), Render(n, item, rep);
      r.outcomes == [one.outcome] && r.repressed == one.repressed
  {
    assert [n][1..] == [];
  }

  // Children are rendered from left to right, each with the list the ones before it left.
  lemma {:induction false} EachConcat(a: seq<Node>, b: seq<Node>, item: Item, rep: Repressed)
    ensures var r, all := RenderEach(a, item, rep), RenderEach(a + b, item, rep);
      var s := RenderEach(b, item, r.repressed);
      all.outcomes == r.outcomes + s.outcomes && all.repressed == s.repressed
    decreases |a|
  {
    if a == [] {
      assert a + b == b;
    } else {
      var rep' := Render(a[0], item, rep).repressed;
      EachConcat(a[1..], b, item, rep');
      assert (a + b)[1..] == a[1..] + b && (a + b)[0] == a[0];
      Associative([Render(a[0], item, rep).outcome], RenderEach(a[1..], item, rep').outcomes,
                  RenderEach(b, item, RenderEach(a, item, rep).repressed).outcomes);
    }
  }

  lemma {:induction false} JoinLast(texts: seq<string>, last: string, delimiter: string)
    ensures Join([last], delimiter) == last
    ensures texts != [] ==> Join(texts + [last], delimiter) == Join(texts, delimiter) + delimiter + last
    decreases |texts|
  {
    if texts != [] {
      JoinLast(texts[1..], last, delimiter);
      assert (texts + [last])[1..] == texts[1..] + [last];
      if |texts| > 1 {
        Associative(texts[0] + delimiter, Join(texts[1..], delimiter), delimiter + last);
        Associative(Join(texts[1..], delimiter), delimiter, last);
        Associative(texts[0] + delimiter + Join(texts[1..], delimiter), delimiter, last);
      } else {
        assert texts[1..] == [] && [last][0] == last && texts[1..] + [last] == [last];
      }
    }
  }

  // Which elements call a variable.
  lemma {:induction false} WhatCallsVariables(name: string, nodes: seq<Node>, branches: seq<Branch>, affix: Affix,
                                              format: (string, string) -> string, term: (string, bool) -> string,
                                              people: NameFormat, roles: seq<string>, plural: Plural, named: bool,
                                              text: string)
    ensures CallsVariable(Variable(name, false, format, affix)) <==> name !in {"year-suffix", "citation-number"}
    ensures CallsVariable(Variable(name, true, format, affix)) <==> name !in {"year-suffix", "citation-number"}
    ensures CallsVariable(Label(name, plural, term, affix)) <==> name == "locator"
    ensures CallsVariable(Number(name, format, affix)) && CallsVariable(Names(roles, named, people, nodes, text, affix))
    ensures CallsVariable(Group(nodes, text, affix)) && !CallsVariable(Value(text, affix))
    ensures CallsVariable(Macro(nodes, affix)) <==> SomeCalls(nodes, |nodes|)
    ensures CallsVariable(Choose(branches)) <==>
            exists b :: 0 <= b < |branches| && SomeCalls(branches[b].children, |branches[b].children|)
  {
    if b :| 0 <= b < |branches| && SomeCalls(branches[b].children, |branches[b].children|) {
      var n :| 0 <= n < |branches[b].children| && CallsVariable(branches[b].children[n]);
      assert CallsVariable(Choose(branches));
    }
    if CallsVariable(Choose(branches)) {
      var b :| 0 <= b < |branches| && exists n :: 0 <= n < |branches[b].children| && CallsVariable(branches[b].children[n]);
      assert SomeCalls(branches[b].children, |branches[b].children|);
    }
  }

  predicate HasText(outcome: Outcome) {
    outcome.Rendered? && outcome.text.Some?
  }

  lemma {:induction false} NoTextsMeans(outcomes: seq<Outcome>)
    ensures Texts(outcomes) == [] <==> forall i :: 0 <= i < |outcomes| ==> !HasText(outcomes[i])
  {
    if outcomes != [] {
      NoTextsMeans(outcomes[1..]);
      assert outcomes == [outcomes[0]] + outcomes[1..];
    }
  }

  // A group fails when no child has a text, or when some child calls a variable and none that does has a
  // text; otherwise it joins the texts.
  lemma {:induction false} GroupShowsWhen(children: seq<Node>, delimiter: string, affix: Affix, item: Item, rep: Repressed)
    ensures var r, g := RenderEach(children, item, rep), Render(Group(children, delimiter, affix), item, rep);
      var called := exists i :: 0 <= i < |children| && CallsVariable(children[i]);
      var shown := exists i :: 0 <= i < |children| && HasText(r.outcomes[i]) && (called ==> CallsVariable(children[i]));
      && g.outcome == (if shown then Wrapped(affix, Join(Texts(r.outcomes), delimiter)) else VariableError)
      && g.repressed == r.repressed
  {
    GroupShowsMeans(children, RenderEach(children, item, rep).outcomes);
  }

  lemma {:induction false} GroupShowsMeans(children: seq<Node>, outcomes: seq<Outcome>)
    requires |children| == |outcomes|
    ensures var called := exists i :: 0 <= i < |children| && CallsVariable(children[i]);
      GroupShows(children, outcomes) <==>
      exists i :: 0 <= i < |children| && HasText(outcomes[i]) && (called ==> CallsVariable(children[i]))
  {
    NoTextsMeans(outcomes);
  }

  // A macro shows what its body shows, run together.
  lemma {:induction false} MacroShows(body: seq<Node>, affix: Affix, item: Item, rep: Repressed)
    ensures var r := RenderEach(body, item, rep);
      Render(Macro(body, affix), item, rep) ==
      Step(Wrapped(affix, Join(Texts(r.outcomes), "")), r.repressed, r.log)
  {
  }

  // ----- Names

  lemma {:induction false} RolesConcat(a: seq<string>, b: seq<string>, item: Item, people: NameFormat)
    ensures RoleTexts(a + b, item, people) == RoleTexts(a, item, people) + RoleTexts(b, item, people)
  {
    if a == [] {
      assert a + b == b;
    } else {
      RolesConcat(a[1..], b, item, people);
      assert (a + b)[1..] == a[1..] + b && (a + b)[0] == a[0];
      var first := if a[0] in item.names then [people(a[0], item.names[a[0]])] else [];
      Associative(first, RoleTexts(a[1..], item, people), RoleTexts(b, item, people));
    }
  }

  // Names without names pass over a substitute that shows nothing.
  lemma {:induction false} SubstitutePassesOver(roles: seq<string>, named: bool, people: NameFormat, child: Node,
                                                others: seq<Node>, delimiter: string, affix: Affix, item: Item, rep: Repressed)
    requires NoNames(roles, item) && !Shows(RenderChild(child, people, item, rep).outcome)
    ensures Render(Names(roles, named, people, [child] + others, delimiter, affix), item, rep).outcome ==
            Render(Names(roles, named, people, others, delimiter, affix), item,
                   RenderChild(child, people, item, rep).repressed).outcome
  {
    var children, first := [child] + others, RenderChild(child, people, item, rep);
    var last := if first.outcome.Rendered? then first.outcome.text else None;
    assert children[0] == child && children[1..] == others;
    assert RenderSubstitute(children, people, item, rep, None).outcome
        == RenderSubstitute(others, people, item, first.repressed, last).outcome;
    SubstituteShows(Names(roles, named, people, children, delimiter, affix), item, rep);
    SubstituteShows(Names(roles, named, people, others, delimiter, affix), item, first.repressed);
    LastDoesNotMatter(others, people, item, first.repressed, affix, last);
  }

  lemma {:induction false} SubstituteShows(n: Node, item: Item, rep: Repressed)
    requires n.Names? && NoNames(n.roles, item)
    ensures var r := RenderSubstitute(n.substitute, n.people, item, rep, None);
      Render(n, item, rep) == Step(Rendered(Markup(n.affix, r.outcome.text)), r.repressed, r.log)
  {
    NoNamesNoTexts(n.roles, item, n.people);
  }

  lemma {:induction false} LastDoesNotMatter(children: seq<Node>, people: NameFormat, item: Item, rep: Repressed,
                                             affix: Affix, last: Option<string>)
    requires last.Some? ==> last.value == ""
    ensures Markup(affix, RenderSubstitute(children, people, item, rep, last).outcome.text)
         == Markup(affix, RenderSubstitute(children, people, item, rep, None).outcome.text)
    decreases |children|
  {
    if children != [] {
      var first := RenderChild(children[0], people, item, rep);
      if !Shows(first.outcome) && !first.outcome.Rendered? {
        LastDoesNotMatter(children[1..], people, item, first.repressed, affix, last);
      }
    }
  }

  lemma {:induction false} NothingToSubstitute(roles: seq<string>, named: bool, people: NameFormat, delimiter: string,
                                               affix: Affix, item: Item, rep: Repressed)
    requires NoNames(roles, item)
    ensures Render(Names(roles, named, people, [], delimiter, affix), item, rep) == Step(Rendered(None), rep, [])
  {
    SubstituteShows(Names(roles, named, people, [], delimiter, affix), item, rep);
  }

  // ----- Entries

  // An item that shows nothing leaves no entry, wherever it stands.
  lemma {:induction false} SilentItemLeavesNothing(children: seq<Node>, affix: Affix, before: seq<Item>, silent: Item,
                                                   after: seq<Item>)
    requires ItemTexts(children, silent) == []
    ensures Entries(children, affix, before + [silent] + after) == Entries(children, affix, before + after)
    decreases |after|
  {
    if after == [] {
      EntriesLast(children, affix, before, silent);
      assert Entry(children, affix, silent) == None;
      assert Entries(children, affix, before) + [] == Entries(children, affix, before);
      assert before + [silent] + after == before + [silent] && before + after == before;
    } else {
      var front, last := after[..|after| - 1], after[|after| - 1];
      SilentItemLeavesNothing(children, affix, before, silent, front);
      EntriesLast(children, affix, before + [silent] + front, last);
      EntriesLast(children, affix, before + front, last);
      LastApart(before + [silent], after);
      LastApart(before, after);
    }
  }

  lemma {:induction false} LastApart(before: seq<Item>, after: seq<Item>)
    requires after != []
    ensures before + after == (before + after[..|after| - 1]) + [after[|after| - 1]]
  {
  }

  lemma {:induction false} EntriesLast(children: seq<Node>, affix: Affix, items: seq<Item>, last: Item)
    ensures Entries(children, affix, items + [last]) ==
            Entries(children, affix, items) + Shown(Entry(children, affix, last))
  {
    assert (items + [last])[..|items|] == items;
  }

  // What an item shows, if anything.
  function ItemTexts(children: seq<Node>, item: Item): seq<string> {
    Texts(RenderEach(children, item, map[]).outcomes)
  }

  lemma {:induction false} EntryShown(children: seq<Node>, affix: Affix, item: Item)
    requires ItemTexts(children, item) != []
    ensures Shown(Entry(children, affix, item)) == [affix.prefix + Join(ItemTexts(children, item), "") + affix.suffix]
  {
  }

  // Otherwise there is one entry for each item, in order, each what its item gives from an empty list.
  lemma {:induction false} EntryOfEachItem(children: seq<Node>, affix: Affix, items: seq<Item>)
    requires forall k :: 0 <= k < |items| ==> ItemTexts(children, items[k]) != []
    ensures |Entries(children, affix, items)| == |items|
    ensures forall k :: 0 <= k < |items| ==>
              Entries(children, affix, items)[k] ==
              affix.prefix + Join(ItemTexts(children, items[k]), "") + affix.suffix
    decreases |items|
  {
    if items != [] {
      var front, last := items[..|items| - 1], items[|items| - 1];
      EntryOfEachItem(children, affix, front);
      EntriesLast(children, affix, front, last);
      EntryShown(children, affix, last);
      assert items == front + [last];
    }
  }
}
