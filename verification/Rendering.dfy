/**
 * Rendering one bibliography entry: the element tree of a CSL style, with the list of
 * variables a `cs:substitute` has used up threaded through it (citeproc/model.py:623-707,
 * 795-857, 1082-1106, 1132-1237, 1516-1722).
 *
 * A macro call holds the macro's body, so a style is a finite tree; a `cs:names` without
 * `cs:substitute` has an empty list of substitutes. A reference supplies the text of each
 * variable and the people in each name role. How an element formats page ranges, numbers and
 * people, and the terms of a label, are functions the element carries; nothing is assumed about
 * them.
 *
 * `Render` also returns a log of what was output and substituted, which the program does not keep.
 */
module Rendering {
  import opened Strings
  import opened Wrappers

  datatype Affix = Affix(prefix: string, suffix: string)

  // One word of a condition attribute. In a bibliography no position test holds.
  datatype Test =
    | TypeIs(kind: string)
    | HasVariable(name: string)
    | IsNumeric(name: string)
    | IsUncertainDate(name: string)
    | LocatorIs(unit: string)
    | Position

  datatype Match = MatchAll | MatchAny | MatchNone

  datatype Branch = Branch(match_: Match, tests: seq<Test>, children: seq<Node>)

  datatype Plural = Contextual | Always | Never

  // What a `cs:names` makes of a role and the people in it, with its `cs:name` and `cs:label`.
  type NameFormat = (string, seq<string>) -> string

  // `format` gets a value and the name of its variable, `term` a variable and whether it is plural.
  // A `cs:names` is `named` when it has a `cs:name`; otherwise its own format uses a default one.
  datatype Node =
    | Variable(name: string, short: bool, format: (string, string) -> string, affix: Affix)
    | Macro(body: seq<Node>, affix: Affix)
    | Value(text: string, affix: Affix)
    | Number(name: string, format: (string, string) -> string, affix: Affix)
    | Label(name: string, plural: Plural, term: (string, bool) -> string, affix: Affix)
    | Names(roles: seq<string>, named: bool, people: NameFormat, substitute: seq<Node>, delimiter: string, affix: Affix)
    | Group(children: seq<Node>, delimiter: string, affix: Affix)
    | Choose(branches: seq<Branch>)

  datatype Locator = Locator(unit: string, identifier: string)

  // A cited reference: its number in the bibliography, the texts of its variables, the
  // people in its name roles, and for each of its dates whether it is uncertain.
  datatype Item = Item(
    kind: string,
    number: nat,
    fields: map<string, string>,
    names: map<string, seq<string>>,
    dates: map<string, bool>,
    locator: Option<Locator>)

  datatype Tag = TextTag | NumberTag | LabelTag | NamesTag | GroupTag | ChooseTag

  // For each element name, the `variable` attributes of the substitutes that were used.
  type Repressed = map<Tag, seq<Option<string>>>

  datatype Outcome = Rendered(text: Option<string>) | VariableError

  datatype Event = Output(name: string) | Substituted(tag: Tag, attribute: Option<string>)

  datatype Step = Step(outcome: Outcome, repressed: Repressed, log: seq<Event>)

  datatype Steps = Steps(outcomes: seq<Outcome>, repressed: Repressed, log: seq<Event>)

  // ----- Pieces

  function TagOf(n: Node): Tag {
    match n
    case Variable(_, _, _, _) => TextTag
    case Macro(_, _) => TextTag
    case Value(_, _) => TextTag
    case Number(_, _, _) => NumberTag
    case Label(_, _, _, _) => LabelTag
    case Names(_, _, _, _, _, _) => NamesTag
    case Group(_, _, _) => GroupTag
    case Choose(_) => ChooseTag
  }

  function Join(texts: seq<string>, delimiter: string): string {
    if texts == [] then ""
    else if |texts| == 1 then texts[0]
    else texts[0] + delimiter + Join(texts[1..], delimiter)
  }

  function AttributeOf(n: Node): Option<string> {
    match n
    case Variable(name, _, _, _) => Some(name)
    case Number(name, _, _) => Some(name)
    case Label(name, _, _, _) => Some(name)
    case Names(roles, _, _, _, _, _) => Some(Join(roles, " "))
    case _ => None
  }

  function Listed(rep: Repressed, tag: Tag): seq<Option<string>> {
    if tag in rep then rep[tag] else []
  }

  function AddRepressed(rep: Repressed, child: Node): Repressed {
    rep[TagOf(child) := Listed(rep, TagOf(child)) + [AttributeOf(child)]]
  }

  predicate IsRepressed(rep: Repressed, name: string) {
    Some(name) in Listed(rep, TextTag)
  }

  function Markup(affix: Affix, text: Option<string>): Option<string> {
    if text.Some? && text.value != "" then Some(affix.prefix + text.value + affix.suffix) else None
  }

  function Replaced(s: string, old_: char, new_: char): string {
    seq(|s|, i requires 0 <= i < |s| => if s[i] == old_ then new_ else s[i])
  }

  function IfPresent(item: Item, name: string): Option<string> {
    if name in item.fields then Some(item.fields[name]) else None
  }

  // `Text._variable`, past the suppression list; None for its VariableError.
  function VariableText(item: Item, name: string, short: bool, format: (string, string) -> string): Option<string> {
    var used := if short && name + "-short" in item.fields then name + "-short" else name;
    if "page" <= used then
      if "page" in item.fields then Some(format(item.fields["page"], used)) else None
    else if used == "citation-number" then Some(Decimal(item.number))
    else if used == "locator" then
      if item.locator.Some? then Some(Replaced(item.locator.value.identifier, '-', '\U{2013}')) else None
    else IfPresent(item, used)
  }

  // `Number.process`. It looks a variable up under its name as written, and no stored name has a
  // hyphen; None for its VariableError.
  function NumberText(item: Item, name: string, format: (string, string) -> string): Option<string> {
    if name == "locator" then
      if item.locator.Some? then Some(format(item.locator.value.identifier, item.locator.value.unit)) else None
    else if name == "page-first" then
      if "page" in item.fields then Some(format(item.fields["page"], name)) else None
    else if name in item.fields && '-' !in name then Some(format(item.fields[name], name))
    else None
  }

  // `\d+[^\d]+\d+` is found in `s`.
  predicate HasTwoNumbers(s: string) {
    exists i, k, j :: 0 <= i < k < j < |s| && IsDigit(s[i]) && !IsDigit(s[k]) && IsDigit(s[j])
  }

  // `Label._is_plural`. A present `number-of-` variable is then looked up in the wrong object:
  // None for that VariableError, and for the one of a missing locator.
  function IsPlural(item: Item, name: string): Option<bool> {
    if name == "locator" then
      if item.locator.Some? then Some(HasTwoNumbers(item.locator.value.identifier)) else None
    else if name !in item.fields then Some(false)
    else if "number-of" <= name then None
    else Some(HasTwoNumbers(item.fields[name]))
  }

  function LabelText(item: Item, name: string, plural: Plural, term: (string, bool) -> string): Option<string> {
    match IsPlural(item, name)
    case None => None
    case Some(several) =>
      var subject := if name == "locator" && item.locator.Some? then item.locator.value.unit else name;
      Some(term(subject, plural == Always || (plural == Contextual && several)))
  }

  predicate IsLetter(c: char) {
    'A' <= c <= 'Z' || 'a' <= c <= 'z'
  }

  predicate AllLetters(s: string) {
    forall i :: 0 <= i < |s| ==> IsLetter(s[i])
  }

  // Digits with letters before and after.
  predicate LettersDigitsLetters(s: string) {
    exists i, j :: 0 <= i < j <= |s| && AllLetters(s[..i]) && AllDigits(s[i..j]) && AllLetters(s[j..])
  }

  // `^([A-Z]*\d+[A-Z]*)$` matches; `$` also matches before a final line feed.
  predicate LooksNumeric(s: string) {
    LettersDigitsLetters(s) || (s != "" && s[|s| - 1] == '\n' && LettersDigitsLetters(s[..|s| - 1]))
  }

  function OutcomeOf(affix: Affix, found: Option<string>): Outcome {
    if found == None then VariableError else Rendered(Markup(affix, found))
  }

  predicate TestHolds(t: Test, item: Item) {
    match t
    case TypeIs(kind) => Lower(kind) == item.kind
    case HasVariable(name) =>
      if name == "locator" then item.locator.Some?
      else name in item.fields || name in item.names || name in item.dates
    case IsNumeric(name) => name in item.fields && LooksNumeric(item.fields[name])
    case IsUncertainDate(name) => name in item.dates && item.dates[name]
    case LocatorIs(unit) => item.locator.Some? && item.locator.value.unit == Replaced(unit, '-', ' ')
    case Position => false
  }

  predicate Taken(b: Branch, item: Item) {
    match b.match_
    case MatchAll => forall i :: 0 <= i < |b.tests| ==> TestHolds(b.tests[i], item)
    case MatchAny => exists i :: 0 <= i < |b.tests| && TestHolds(b.tests[i], item)
    case MatchNone => forall i :: 0 <= i < |b.tests| ==> !TestHolds(b.tests[i], item)
  }

  predicate CallsVariable(n: Node) {
    match n
    case Variable(name, _, _, _) => name != "year-suffix" && name != "citation-number"
    case Label(name, _, _, _) => name == "locator"
    case Macro(body, _) => exists i :: 0 <= i < |body| && CallsVariable(body[i])
    case Value(_, _) => false
    case Choose(branches) =>
      exists i :: 0 <= i < |branches| &&
        exists j :: 0 <= j < |branches[i].children| && CallsVariable(branches[i].children[j])
    case _ => true
  }

  // `if text`
  predicate Shows(outcome: Outcome) {
    outcome.Rendered? && outcome.text.Some? && outcome.text.value != ""
  }

  // `[text]` for an outcome that shows a text.
  function TextOf(outcome: Outcome): seq<string> {
    if outcome.Rendered? && outcome.text.Some? then [outcome.text.value] else []
  }

  function Texts(outcomes: seq<Outcome>): seq<string> {
    if outcomes == [] then [] else TextOf(outcomes[0]) + Texts(outcomes[1..])
  }

  // `Parent.render_children`, from what the children gave.
  function Joined(outcomes: seq<Outcome>): Option<string> {
    if Texts(outcomes) == [] then None else Some(Join(Texts(outcomes), ""))
  }

  function RoleTexts(roles: seq<string>, item: Item, people: NameFormat): seq<string> {
    if roles == [] then []
    else
      (if roles[0] in item.names then [people(roles[0], item.names[roles[0]])] else [])
      + RoleTexts(roles[1..], item, people)
  }

  // The item has nobody in these roles.
  predicate NoNames(roles: seq<string>, item: Item) {
    forall i :: 0 <= i < |roles| ==> roles[i] !in item.names
  }

  lemma {:induction false} NoNamesNoTexts(roles: seq<string>, item: Item, people: NameFormat)
    ensures RoleTexts(roles, item, people) == [] <==> NoNames(roles, item)
  {
    if roles != [] {
      NoNamesNoTexts(roles[1..], item, people);
      assert roles == [roles[0]] + roles[1..];
    }
  }

  // A group shows nothing when it calls variables and none of the children that do shows anything.
  predicate GroupShows(children: seq<Node>, outcomes: seq<Outcome>)
    requires |children| == |outcomes|
  {
    && Texts(outcomes) != []
    && ((forall i :: 0 <= i < |children| ==> !CallsVariable(children[i]))
        || exists i :: 0 <= i < |children| && CallsVariable(children[i])
                       && outcomes[i].Rendered? && outcomes[i].text.Some?)
  }

  // ----- The renderer

  function Render(n: Node, item: Item, rep: Repressed): Step
    decreases n, 2
  {
    match n
    case Variable(name, short, format, affix) =>
      if IsRepressed(rep, name) then Step(Rendered(None), rep, [])
      else
        var found := VariableText(item, name, short, format);
        Step(OutcomeOf(affix, found), rep, if Markup(affix, found).Some? then [Output(name)] else [])
    case Macro(body, affix) =>
      var r := RenderEach(body, item, rep);
      Step(Rendered(Markup(affix, Joined(r.outcomes))), r.repressed, r.log)
    case Value(text, affix) => Step(Rendered(Markup(affix, Some(text))), rep, [])
    case Number(name, format, affix) => Step(OutcomeOf(affix, NumberText(item, name, format)), rep, [])
    case Label(name, plural, term, affix) => Step(OutcomeOf(affix, LabelText(item, name, plural, term)), rep, [])
    case Names(_, _, people, _, _, _) => RenderNames(n, people, item, rep)
    case Group(children, delimiter, affix) =>
      var r := RenderEach(children, item, rep);
      var shown := GroupShows(children, r.outcomes);
      Step(if shown then Rendered(Markup(affix, Some(Join(Texts(r.outcomes), delimiter)))) else VariableError,
           r.repressed, r.log)
    case Choose(branches) => RenderBranches(branches, item, rep)
  }

  // A `cs:names`, with its own way of writing people or one handed to it.
  function RenderNames(n: Node, people: NameFormat, item: Item, rep: Repressed): Step
    requires n.Names?
    decreases n, 1
  {
    var texts := RoleTexts(n.roles, item, people);
    if texts != [] then Step(Rendered(Markup(n.affix, Some(Join(texts, n.delimiter)))), rep, [])
    else
      var r := RenderSubstitute(n.substitute, n.people, item, rep, None);
      Step(Rendered(Markup(n.affix, r.outcome.text)), r.repressed, r.log)
  }

  // A child of a `cs:substitute`: names without a `cs:name` are written the parent's way.
  function RenderChild(child: Node, people: NameFormat, item: Item, rep: Repressed): Step
    decreases child, 3
  {
    if child.Names? && !child.named then RenderNames(child, people, item, rep) else Render(child, item, rep)
  }

  function RenderEach(children: seq<Node>, item: Item, rep: Repressed): (r: Steps)
    ensures |r.outcomes| == |children|
    decreases children, 0
  {
    if children == [] then Steps([], rep, [])
    else
      var first := Render(children[0], item, rep);
      var rest := RenderEach(children[1..], item, first.repressed);
      Steps([first.outcome] + rest.outcomes, rest.repressed, first.log + rest.log)
  }

  function RenderBranches(branches: seq<Branch>, item: Item, rep: Repressed): Step
    decreases branches, 0
  {
    if branches == [] then Step(Rendered(None), rep, [])
    else if Taken(branches[0], item) then
      var r := RenderEach(branches[0].children, item, rep);
      Step(Rendered(Joined(r.outcomes)), r.repressed, r.log)
    else RenderBranches(branches[1..], item, rep)
  }

  // The first child that shows something is the substitute, and goes on the list. Without one the
  // result is whatever the last child that did not fail gave.
  function RenderSubstitute(children: seq<Node>, people: NameFormat, item: Item, rep: Repressed, last: Option<string>)
    : (r: Step)
    ensures r.outcome.Rendered?
    decreases children, 0
  {
    if children == [] then Step(Rendered(last), rep, [])
    else
      var first := RenderChild(children[0], people, item, rep);
      if Shows(first.outcome) then
        Step(first.outcome, AddRepressed(first.repressed, children[0]),
             first.log + [Substituted(TagOf(children[0]), AttributeOf(children[0]))])
      else
        var next := if first.outcome.Rendered? then first.outcome.text else last;
        var rest := RenderSubstitute(children[1..], people, item, first.repressed, next);
        Step(rest.outcome, rest.repressed, first.log + rest.log)
  }

  // ----- Suppression

  function SuppressedSet(rep: Repressed): set<string> {
    set v: Option<string> | v in Listed(rep, TextTag) && v.Some? :: v.value
  }

  function Suppressing(e: Event): set<string> {
    if e.Substituted? && e.tag == TextTag && e.attribute.Some? then {e.attribute.value} else {}
  }

  function SuppressedBy(log: seq<Event>): set<string> {
    if log == [] then {} else Suppressing(log[0]) + SuppressedBy(log[1..])
  }

  // Nothing in the log shows a variable of `hidden`, or one suppressed earlier in the log.
  predicate Respects(hidden: set<string>, log: seq<Event>)
    decreases log
  {
    log == [] ||
    (!(log[0].Output? && log[0].name in hidden) && Respects(hidden + Suppressing(log[0]), log[1..]))
  }

  lemma {:induction false} RespectsConcat(hidden: set<string>, a: seq<Event>, b: seq<Event>)
    ensures SuppressedBy(a + b) == SuppressedBy(a) + SuppressedBy(b)
    ensures Respects(hidden, a + b) <==> Respects(hidden, a) && Respects(hidden + SuppressedBy(a), b)
    decreases a
  {
    if a == [] {
      assert a + b == b;
      assert hidden + {} == hidden;
    } else {
      RespectsConcat(hidden + Suppressing(a[0]), a[1..], b);
      assert (a + b)[1..] == a[1..] + b;
      assert hidden + Suppressing(a[0]) + SuppressedBy(a[1..]) == hidden + SuppressedBy(a);
    }
  }

  predicate GrowsTo(before: Repressed, after: Repressed) {
    forall tag: Tag :: Listed(before, tag) <= Listed(after, tag)
  }

  predicate Follows(before: Repressed, after: Repressed, log: seq<Event>) {
    && GrowsTo(before, after)
    && SuppressedSet(after) == SuppressedSet(before) + SuppressedBy(log)
    && Respects(SuppressedSet(before), log)
  }

  lemma FollowsCompose(a: Repressed, b: Repressed, c: Repressed, first: seq<Event>, second: seq<Event>)
    requires Follows(a, b, first) && Follows(b, c, second)
    ensures Follows(a, c, first + second)
  {
    RespectsConcat(SuppressedSet(a), first, second);
  }

  lemma AddRepressedFollows(rep: Repressed, child: Node)
    ensures Follows(rep, AddRepressed(rep, child), [Substituted(TagOf(child), AttributeOf(child))])
  {
    var after, e := AddRepressed(rep, child), Substituted(TagOf(child), AttributeOf(child));
    var v := AttributeOf(child);
    assert SuppressedBy([e]) == Suppressing(e) by { assert [e][1..] == []; }
    assert Respects(SuppressedSet(rep), [e]) by { assert [e][1..] == []; }
    if TagOf(child) == TextTag {
      assert Listed(after, TextTag) == Listed(rep, TextTag) + [v];
      assert forall w :: w in Listed(after, TextTag) <==> w in Listed(rep, TextTag) || w == v;
      forall w ensures w in SuppressedSet(after) <==> w in SuppressedSet(rep) + Suppressing(e) {
        assert w in SuppressedSet(after) <==> Some(w) in Listed(after, TextTag);
        assert w in SuppressedSet(rep) <==> Some(w) in Listed(rep, TextTag);
      }
      assert SuppressedSet(after) == SuppressedSet(rep) + Suppressing(e);
    } else {
      assert Listed(after, TextTag) == Listed(rep, TextTag);
    }
  }

  // The list only grows, by exactly what the log says was substituted, and no variable on it is shown.
  lemma {:induction false} RenderFollows(n: Node, item: Item, rep: Repressed)
    ensures Follows(rep, Render(n, item, rep).repressed, Render(n, item, rep).log)
    decreases n, 2
  {
    assert SuppressedSet(rep) + {} == SuppressedSet(rep);
    match n {
      case Variable(name, _, _, _) =>
        assert IsRepressed(rep, name) <==> name in SuppressedSet(rep);
        assert [Output(name)][1..] == [];
      case Macro(body, _) => RenderEachFollows(body, item, rep);
      case Names(_, _, people, _, _, _) => NamesFollow(n, people, item, rep);
      case Group(children, _, _) => RenderEachFollows(children, item, rep);
      case Choose(branches) => BranchesFollow(branches, item, rep);
      case _ =>
    }
  }

  lemma {:induction false} NamesFollow(n: Node, people: NameFormat, item: Item, rep: Repressed)
    requires n.Names?
    ensures var r := RenderNames(n, people, item, rep); Follows(rep, r.repressed, r.log)
    decreases n, 1
  {
    assert SuppressedSet(rep) + {} == SuppressedSet(rep);
    SubstituteFollows(n.substitute, n.people, item, rep, None);
  }

  lemma {:induction false} ChildFollows(child: Node, people: NameFormat, item: Item, rep: Repressed)
    ensures var r := RenderChild(child, people, item, rep); Follows(rep, r.repressed, r.log)
    decreases child, 3
  {
    if child.Names? && !child.named { NamesFollow(child, people, item, rep); } else { RenderFollows(child, item, rep); }
  }

  lemma {:induction false} RenderEachFollows(children: seq<Node>, item: Item, rep: Repressed)
    ensures Follows(rep, RenderEach(children, item, rep).repressed, RenderEach(children, item, rep).log)
    decreases children, 0
  {
    assert SuppressedSet(rep) + {} == SuppressedSet(rep);
    if children != [] {
      var first := Render(children[0], item, rep);
      RenderFollows(children[0], item, rep);
      RenderEachFollows(children[1..], item, first.repressed);
      var rest := RenderEach(children[1..], item, first.repressed);
      FollowsCompose(rep, first.repressed, rest.repressed, first.log, rest.log);
    }
  }

  lemma {:induction false} BranchesFollow(branches: seq<Branch>, item: Item, rep: Repressed)
    ensures Follows(rep, RenderBranches(branches, item, rep).repressed, RenderBranches(branches, item, rep).log)
    decreases branches, 0
  {
    assert SuppressedSet(rep) + {} == SuppressedSet(rep);
    if branches != [] {
      if Taken(branches[0], item) {
        RenderEachFollows(branches[0].children, item, rep);
      } else {
        BranchesFollow(branches[1..], item, rep);
      }
    }
  }

  lemma {:induction false} SubstituteFollows(children: seq<Node>, people: NameFormat, item: Item, rep: Repressed,
                                             last: Option<string>)
    ensures var r := RenderSubstitute(children, people, item, rep, last); Follows(rep, r.repressed, r.log)
    decreases children, 0
  {
    assert SuppressedSet(rep) + {} == SuppressedSet(rep);
    if children != [] {
      var first := RenderChild(children[0], people, item, rep);
      ChildFollows(children[0], people, item, rep);
      if Shows(first.outcome) {
        AddRepressedFollows(first.repressed, children[0]);
        FollowsCompose(rep, first.repressed, AddRepressed(first.repressed, children[0]), first.log,
                       [Substituted(TagOf(children[0]), AttributeOf(children[0]))]);
      } else {
        var next := if first.outcome.Rendered? then first.outcome.text else last;
        SubstituteFollows(children[1..], people, item, first.repressed, next);
        var rest := RenderSubstitute(children[1..], people, item, first.repressed, next);
        FollowsCompose(rep, first.repressed, rest.repressed, first.log, rest.log);
      }
    }
  }

  lemma {:induction false} RespectsPairs(hidden: set<string>, log: seq<Event>, i: nat, j: nat, v: string)
    requires Respects(hidden, log) && i < j < |log|
    requires log[i] == Substituted(TextTag, Some(v))
    ensures log[j] != Output(v)
    decreases log
  {
    if i == 0 {
      HiddenStays(hidden + Suppressing(log[0]), log[1..], j - 1, v);
    } else {
      RespectsPairs(hidden + Suppressing(log[0]), log[1..], i - 1, j - 1, v);
    }
  }

  lemma {:induction false} HiddenStays(hidden: set<string>, log: seq<Event>, j: nat, v: string)
    requires Respects(hidden, log) && j < |log| && v in hidden
    ensures log[j] != Output(v)
    decreases log
  {
    if j > 0 { HiddenStays(hidden + Suppressing(log[0]), log[1..], j - 1, v); }
  }

  // In one entry, once a `cs:text` of variable `v` has served as a substitute, no `cs:text` of
  // that variable shows anything any more, anywhere in the tree.
  lemma SubstitutedOnce(layout: seq<Node>, item: Item, i: nat, j: nat, v: string)
    requires var log := RenderEach(layout, item, map[]).log;
             i < j < |log| && log[i] == Substituted(TextTag, Some(v))
    ensures RenderEach(layout, item, map[]).log[j] != Output(v)
  {
    RenderEachFollows(layout, item, map[]);
    RespectsPairs(SuppressedSet(map[]), RenderEach(layout, item, map[]).log, i, j, v);
  }

  // ----- Suppression hides the value

  predicate TestReads(t: Test, v: string) {
    t == IsNumeric(v)
  }

  // Does the tree use the text of `v` in a way that suppression does not reach: as the short form of
  // another variable, as the pages behind `page-first`, as a number, to choose between the
  // singular and plural of a label, or in a condition?
  predicate Reads(n: Node, v: string)
    decreases n, 1
  {
    match n
    case Variable(name, short, _, _) =>
      name != v && ((short && name + "-short" == v) || ("page" <= name && v == "page"))
    case Number(name, _, _) => v == if name == "page-first" then "page" else name
    case Label(name, plural, _, _) => plural == Contextual && name == v
    case Macro(body, _) => EachReads(body, v)
    case Names(_, _, _, substitute, _, _) => EachReads(substitute, v)
    case Group(children, _, _) => EachReads(children, v)
    case Choose(branches) => exists i :: 0 <= i < |branches| && BranchReads(branches[i], v)
    case Value(_, _) => false
  }

  predicate BranchReads(b: Branch, v: string)
    decreases b, 0
  {
    (exists k :: 0 <= k < |b.tests| && TestReads(b.tests[k], v)) || EachReads(b.children, v)
  }

  predicate EachReads(children: seq<Node>, v: string)
    decreases children, 0
  {
    exists i :: 0 <= i < |children| && Reads(children[i], v)
  }

  // The same item, with another text for `v`.
  predicate SameBut(a: Item, b: Item, v: string) {
    && b == a.(fields := b.fields) && a.fields.Keys == b.fields.Keys
    && forall w :: w in a.fields && w != v ==> a.fields[w] == b.fields[w]
  }

  lemma {:induction false} HiddenValue(n: Node, a: Item, b: Item, rep: Repressed, v: string)
    requires SameBut(a, b, v) && v in SuppressedSet(rep) && !Reads(n, v)
    ensures Render(n, a, rep) == Render(n, b, rep)
    decreases n, 2
  {
    match n {
      case Variable(name, short, format, _) =>
        assert IsRepressed(rep, name) <==> name in SuppressedSet(rep);
        if name != v { SameVariableText(a, b, name, short, format, v); }
      case Macro(body, _) => HiddenValueEach(body, a, b, rep, v);
      case Names(_, _, people, _, _, _) => HiddenValueNames(n, people, a, b, rep, v);
      case Group(children, _, _) => HiddenValueEach(children, a, b, rep, v);
      case Choose(branches) => HiddenValueBranches(branches, a, b, rep, v);
      case _ =>
    }
  }

  lemma {:induction false} HiddenValueNames(n: Node, people: NameFormat, a: Item, b: Item, rep: Repressed, v: string)
    requires n.Names? && SameBut(a, b, v) && v in SuppressedSet(rep) && !EachReads(n.substitute, v)
    ensures RenderNames(n, people, a, rep) == RenderNames(n, people, b, rep)
    decreases n, 1
  {
    SameRoleTexts(n.roles, a, b, people);
    HiddenValueSubstitute(n.substitute, n.people, a, b, rep, None, v);
  }

  lemma {:induction false} HiddenValueChild(child: Node, people: NameFormat, a: Item, b: Item, rep: Repressed, v: string)
    requires SameBut(a, b, v) && v in SuppressedSet(rep) && !Reads(child, v)
    ensures RenderChild(child, people, a, rep) == RenderChild(child, people, b, rep)
    decreases child, 3
  {
    if child.Names? && !child.named {
      HiddenValueNames(child, people, a, b, rep, v);
    } else {
      HiddenValue(child, a, b, rep, v);
    }
  }

  lemma SameRoleTexts(roles: seq<string>, a: Item, b: Item, people: NameFormat)
    requires a.names == b.names
    ensures RoleTexts(roles, a, people) == RoleTexts(roles, b, people)
  {
  }

  lemma {:induction false} SameVariableText(a: Item, b: Item, name: string, short: bool,
                                            format: (string, string) -> string, v: string)
    requires SameBut(a, b, v) && name != v && !(short && name + "-short" == v) && !("page" <= name && v == "page")
    ensures VariableText(a, name, short, format) == VariableText(b, name, short, format)
  {
    assert (name + "-short")[|name|] == '-';
    assert "page" <= name + "-short" ==> "page" <= name;
  }

  lemma {:induction false} SameTest(t: Test, a: Item, b: Item, v: string)
    requires SameBut(a, b, v) && !TestReads(t, v)
    ensures TestHolds(t, a) == TestHolds(t, b)
  {
  }

  lemma {:induction false} SameTaken(branch: Branch, a: Item, b: Item, v: string)
    requires SameBut(a, b, v) && !BranchReads(branch, v)
    ensures Taken(branch, a) == Taken(branch, b)
  {
    forall i | 0 <= i < |branch.tests| ensures TestHolds(branch.tests[i], a) == TestHolds(branch.tests[i], b) {
      SameTest(branch.tests[i], a, b, v);
    }
  }

  lemma {:induction false} HiddenValueEach(children: seq<Node>, a: Item, b: Item, rep: Repressed, v: string)
    requires SameBut(a, b, v) && v in SuppressedSet(rep) && !EachReads(children, v)
    ensures RenderEach(children, a, rep) == RenderEach(children, b, rep)
    decreases children, 0
  {
    if children != [] {
      assert !Reads(children[0], v);
      forall i | 0 <= i < |children[1..]| ensures !Reads(children[1..][i], v) {
        assert children[1..][i] == children[i + 1];
      }
      HiddenValue(children[0], a, b, rep, v);
      RenderFollows(children[0], a, rep);
      HiddenValueEach(children[1..], a, b, Render(children[0], a, rep).repressed, v);
    }
  }

  lemma {:induction false} HiddenValueBranches(branches: seq<Branch>, a: Item, b: Item, rep: Repressed, v: string)
    requires SameBut(a, b, v) && v in SuppressedSet(rep)
    requires forall i :: 0 <= i < |branches| ==> !BranchReads(branches[i], v)
    ensures RenderBranches(branches, a, rep) == RenderBranches(branches, b, rep)
    decreases branches, 0
  {
    if branches != [] {
      SameTaken(branches[0], a, b, v);
      HiddenValueEach(branches[0].children, a, b, rep, v);
      HiddenValueBranches(branches[1..], a, b, rep, v);
    }
  }

  lemma {:induction false} HiddenValueSubstitute(children: seq<Node>, people: NameFormat, a: Item, b: Item,
                                                 rep: Repressed, last: Option<string>, v: string)
    requires SameBut(a, b, v) && v in SuppressedSet(rep) && !EachReads(children, v)
    ensures RenderSubstitute(children, people, a, rep, last) == RenderSubstitute(children, people, b, rep, last)
    decreases children, 0
  {
    if children != [] {
      assert !Reads(children[0], v);
      forall i | 0 <= i < |children[1..]| ensures !Reads(children[1..][i], v) {
        assert children[1..][i] == children[i + 1];
      }
      HiddenValueChild(children[0], people, a, b, rep, v);
      ChildFollows(children[0], people, a, rep);
      var first := RenderChild(children[0], people, a, rep);
      HiddenValueSubstitute(children[1..], people, a, b, first.repressed,
                            if first.outcome.Rendered? then first.outcome.text else last, v);
    }
  }

  // Once `v` is suppressed, the rest of the layout comes out the same whatever the text of `v` is.
  lemma SuppressedValueIsHidden(first: seq<Node>, rest: seq<Node>, a: Item, b: Item, v: string)
    requires SameBut(a, b, v) && !EachReads(rest, v)
    requires Substituted(TextTag, Some(v)) in RenderEach(first, a, map[]).log
    ensures var rep := RenderEach(first, a, map[]).repressed; RenderEach(rest, a, rep) == RenderEach(rest, b, rep)
  {
    var r := RenderEach(first, a, map[]);
    RenderEachFollows(first, a, map[]);
    SuppressedByMember(r.log, v);
    HiddenValueEach(rest, a, b, r.repressed, v);
  }

  lemma {:induction false} SuppressedByMember(log: seq<Event>, v: string)
    ensures v in SuppressedBy(log) <==> Substituted(TextTag, Some(v)) in log
  {
    if log != [] {
      SuppressedByMember(log[1..], v);
      assert log == [log[0]] + log[1..];
    }
  }

  // ----- Groups and suppression

  lemma {:induction false} SilentChildKeepsList(n: Node, item: Item, rep: Repressed)
    requires !CallsVariable(n)
    ensures Render(n, item, rep).repressed == rep
    decreases n, 1
  {
    match n {
      case Macro(body, _) => SilentChildrenKeepList(body, item, rep);
      case Choose(branches) => SilentBranchesKeepList(branches, item, rep);
      case _ =>
    }
  }

  lemma {:induction false} SilentChildrenKeepList(children: seq<Node>, item: Item, rep: Repressed)
    requires forall i :: 0 <= i < |children| ==> !CallsVariable(children[i])
    ensures RenderEach(children, item, rep).repressed == rep
    decreases children, 0
  {
    if children != [] {
      SilentChildKeepsList(children[0], item, rep);
      SilentChildrenKeepList(children[1..], item, rep);
    }
  }

  lemma {:induction false} SilentBranchesKeepList(branches: seq<Branch>, item: Item, rep: Repressed)
    requires forall i, j :: 0 <= i < |branches| && 0 <= j < |branches[i].children| ==>
               !CallsVariable(branches[i].children[j])
    ensures RenderBranches(branches, item, rep).repressed == rep
    decreases branches, 0
  {
    if branches != [] {
      SilentChildrenKeepList(branches[0].children, item, rep);
      SilentBranchesKeepList(branches[1..], item, rep);
    }
  }

  // The element shows nothing: its variables are suppressed, directly or further down.
  predicate Hushed(n: Node, item: Item, rep: Repressed)
    decreases n, 1
  {
    match n
    case Variable(name, _, _, _) => IsRepressed(rep, name)
    case Macro(body, _) => forall i :: 0 <= i < |body| ==> Hushed(body[i], item, rep)
    case Names(roles, _, _, substitute, _, _) =>
      NoNames(roles, item) && forall i :: 0 <= i < |substitute| ==> Hushed(substitute[i], item, rep)
    case Group(children, _, _) => HushedGroup(children, item, rep)
    case Choose(branches) =>
      forall i :: 0 <= i < |branches| && Taken(branches[i], item) ==>
        forall j :: 0 <= j < |branches[i].children| ==> Hushed(branches[i].children[j], item, rep)
    case _ => false
  }

  // Some child calls a variable, and every child that does is hushed; fixed texts do not count.
  predicate HushedGroup(children: seq<Node>, item: Item, rep: Repressed)
    decreases children, 0
  {
    && (exists k :: 0 <= k < |children| && CallsVariable(children[k]))
    && forall i :: 0 <= i < |children| && CallsVariable(children[i]) ==> Hushed(children[i], item, rep)
  }

  lemma {:induction false} HushedShowsNothing(n: Node, item: Item, rep: Repressed)
    requires Hushed(n, item, rep)
    ensures Render(n, item, rep).repressed == rep && TextOf(Render(n, item, rep).outcome) == []
    decreases n, 1
  {
    match n {
      case Macro(body, _) =>
        HushedChildren(body, item, rep);
        NoTexts(RenderEach(body, item, rep).outcomes);
      case Names(roles, _, people, substitute, _, _) =>
        NoNamesNoTexts(roles, item, people);
        HushedSubstitute(substitute, people, item, rep);
      case Group(children, _, _) => HushedChildren(children, item, rep);
      case Choose(branches) => HushedBranches(branches, item, rep);
      case _ =>
    }
  }

  lemma {:induction false} NoTexts(outcomes: seq<Outcome>)
    requires forall i :: 0 <= i < |outcomes| ==> TextOf(outcomes[i]) == []
    ensures Texts(outcomes) == []
  {
    if outcomes != [] { NoTexts(outcomes[1..]); }
  }

  lemma {:induction false} HushedChildren(children: seq<Node>, item: Item, rep: Repressed)
    requires forall i :: 0 <= i < |children| ==> !CallsVariable(children[i]) || Hushed(children[i], item, rep)
    ensures RenderEach(children, item, rep).repressed == rep
    ensures forall i :: 0 <= i < |children| && Hushed(children[i], item, rep) ==>
              TextOf(RenderEach(children, item, rep).outcomes[i]) == []
    decreases children, 0
  {
    if children != [] {
      if !CallsVariable(children[0]) { SilentChildKeepsList(children[0], item, rep); }
      if Hushed(children[0], item, rep) { HushedShowsNothing(children[0], item, rep); }
      HushedChildren(children[1..], item, rep);
      var r, rest := RenderEach(children, item, rep), RenderEach(children[1..], item, rep);
      forall i | 1 <= i < |children| && Hushed(children[i], item, rep) ensures TextOf(r.outcomes[i]) == [] {
        assert children[i] == children[1..][i - 1];
        assert r.outcomes[i] == rest.outcomes[i - 1];
      }
    }
  }

  // Names that nobody is in are rendered alike however people are written.
  lemma {:induction false} NobodyToWrite(child: Node, people: NameFormat, item: Item, rep: Repressed)
    requires child.Names? ==> NoNames(child.roles, item)
    ensures RenderChild(child, people, item, rep) == Render(child, item, rep)
  {
    if child.Names? {
      NoNamesNoTexts(child.roles, item, people);
      NoNamesNoTexts(child.roles, item, child.people);
    }
  }

  lemma {:induction false} HushedSubstitute(children: seq<Node>, people: NameFormat, item: Item, rep: Repressed)
    requires forall i :: 0 <= i < |children| ==> Hushed(children[i], item, rep)
    ensures RenderSubstitute(children, people, item, rep, None).repressed == rep
    ensures RenderSubstitute(children, people, item, rep, None).outcome == Rendered(None)
    decreases children, 0
  {
    if children != [] {
      NobodyToWrite(children[0], people, item, rep);
      HushedShowsNothing(children[0], item, rep);
      HushedSubstitute(children[1..], people, item, rep);
    }
  }

  lemma {:induction false} HushedBranches(branches: seq<Branch>, item: Item, rep: Repressed)
    requires forall i :: 0 <= i < |branches| && Taken(branches[i], item) ==>
               forall j :: 0 <= j < |branches[i].children| ==> Hushed(branches[i].children[j], item, rep)
    ensures RenderBranches(branches, item, rep).repressed == rep
    ensures RenderBranches(branches, item, rep).outcome == Rendered(None)
    decreases branches, 0
  {
    if branches != [] {
      if Taken(branches[0], item) {
        HushedChildren(branches[0].children, item, rep);
        NoTexts(RenderEach(branches[0].children, item, rep).outcomes);
      } else {
        HushedBranches(branches[1..], item, rep);
      }
    }
  }

  // A group all of whose variables have been suppressed, however deep, disappears with its fixed texts.
  lemma {:induction false} SuppressedGroupVanishes(children: seq<Node>, delimiter: string, affix: Affix,
                                                   item: Item, rep: Repressed)
    requires HushedGroup(children, item, rep)
    ensures var r := Render(Group(children, delimiter, affix), item, rep);
      r.outcome == VariableError && r.repressed == rep
  {
    HushedChildren(children, item, rep);
  }

  // ----- What is suppressed, exactly

  predicate IsTextOf(n: Node, v: string) {
    n.Variable? && n.name == v
  }

  // Does rendering the element use a `cs:text` of `v` as a substitute?
  predicate Uses(n: Node, item: Item, rep: Repressed, v: string)
    decreases n, 1
  {
    match n
    case Macro(body, _) => UsesEach(body, item, rep, v)
    case Names(roles, _, people, substitute, _, _) =>
      NoNames(roles, item) && UsesSubstitute(substitute, people, item, rep, v)
    case Group(children, _, _) => UsesEach(children, item, rep, v)
    case Choose(branches) => UsesBranches(branches, item, rep, v)
    case _ => false
  }

  predicate UsesEach(children: seq<Node>, item: Item, rep: Repressed, v: string)
    decreases children, 0
  {
    children != [] &&
    (Uses(children[0], item, rep, v) || UsesEach(children[1..], item, Render(children[0], item, rep).repressed, v))
  }

  predicate UsesBranches(branches: seq<Branch>, item: Item, rep: Repressed, v: string)
    decreases branches, 0
  {
    branches != [] &&
    if Taken(branches[0], item) then UsesEach(branches[0].children, item, rep, v)
    else UsesBranches(branches[1..], item, rep, v)
  }

  // The first child that shows something is the substitute; those before it have been rendered too.
  predicate UsesSubstitute(children: seq<Node>, people: NameFormat, item: Item, rep: Repressed, v: string)
    decreases children, 0
  {
    children != [] &&
    (|| Uses(children[0], item, rep, v)
     || var first := RenderChild(children[0], people, item, rep);
        if Shows(first.outcome) then IsTextOf(children[0], v)
        else UsesSubstitute(children[1..], people, item, first.repressed, v))
  }

  lemma {:induction false} UsesIsLogged(n: Node, item: Item, rep: Repressed, v: string)
    ensures Uses(n, item, rep, v) <==> Substituted(TextTag, Some(v)) in Render(n, item, rep).log
    decreases n, 1
  {
    match n {
      case Macro(body, _) => UsesEachIsLogged(body, item, rep, v);
      case Names(roles, _, people, substitute, _, _) =>
        NoNamesNoTexts(roles, item, people);
        UsesSubstituteIsLogged(substitute, people, item, rep, None, v);
      case Group(children, _, _) => UsesEachIsLogged(children, item, rep, v);
      case Choose(branches) => UsesBranchesIsLogged(branches, item, rep, v);
      case _ =>
    }
  }

  lemma {:induction false} UsesEachIsLogged(children: seq<Node>, item: Item, rep: Repressed, v: string)
    ensures UsesEach(children, item, rep, v) <==> Substituted(TextTag, Some(v)) in RenderEach(children, item, rep).log
    decreases children, 0
  {
    if children != [] {
      UsesIsLogged(children[0], item, rep, v);
      UsesEachIsLogged(children[1..], item, Render(children[0], item, rep).repressed, v);
    }
  }

  lemma {:induction false} UsesBranchesIsLogged(branches: seq<Branch>, item: Item, rep: Repressed, v: string)
    ensures UsesBranches(branches, item, rep, v) <==>
            Substituted(TextTag, Some(v)) in RenderBranches(branches, item, rep).log
    decreases branches, 0
  {
    if branches != [] {
      UsesEachIsLogged(branches[0].children, item, rep, v);
      UsesBranchesIsLogged(branches[1..], item, rep, v);
    }
  }

  lemma {:induction false} UsesChildIsLogged(child: Node, people: NameFormat, item: Item, rep: Repressed, v: string)
    ensures Uses(child, item, rep, v) <==> Substituted(TextTag, Some(v)) in RenderChild(child, people, item, rep).log
    decreases child, 3
  {
    UsesIsLogged(child, item, rep, v);
    if child.Names? && NoNames(child.roles, item) {
      NobodyToWrite(child, people, item, rep);
    } else if child.Names? {
      NoNamesNoTexts(child.roles, item, people);
    }
  }

  lemma {:induction false} UsesSubstituteIsLogged(children: seq<Node>, people: NameFormat, item: Item, rep: Repressed,
                                                  last: Option<string>, v: string)
    ensures UsesSubstitute(children, people, item, rep, v) <==>
            Substituted(TextTag, Some(v)) in RenderSubstitute(children, people, item, rep, last).log
    decreases children, 0
  {
    if children != [] {
      var first := RenderChild(children[0], people, item, rep);
      UsesChildIsLogged(children[0], people, item, rep, v);
      if !Shows(first.outcome) {
        var next := if first.outcome.Rendered? then first.outcome.text else last;
        UsesSubstituteIsLogged(children[1..], people, item, first.repressed, next, v);
      }
    }
  }

  // After any part of an entry, a `cs:text` of `v` that has something to show shows it exactly
  // when no `cs:text` of `v` was used as a substitute in that part.
  lemma {:induction false} ShownUnlessUsed(first: seq<Node>, item: Item, v: string, short: bool,
                                           format: (string, string) -> string, affix: Affix)
    ensures var rep := RenderEach(first, item, map[]).repressed;
            Shows(Render(Variable(v, short, format, affix), item, rep).outcome) <==>
            Markup(affix, VariableText(item, v, short, format)).Some? && !UsesEach(first, item, map[], v)
  {
    var r := RenderEach(first, item, map[]);
    RenderEachFollows(first, item, map[]);
    SuppressedByMember(r.log, v);
    UsesEachIsLogged(first, item, map[], v);
    assert IsRepressed(r.repressed, v) <==> v in SuppressedSet(r.repressed);
  }

  // ----- What is not suppressed

  const PLAIN := Affix("", "")

  // CSL suppresses a substituted variable in the rest of the entry, but the list is only consulted
  // for `cs:text variable`: names used as a substitute are shown again by the same `cs:names` later,
  // whatever is on the list. They come out as they did exactly when they have a `cs:name` or it
  // makes no difference whose way they are written.
  lemma {:induction false} SubstitutedNamesReappear(names: Node, parent: Node, others: seq<Node>, item: Item,
                                                    rep: Repressed, later: Repressed)
    requires names.Names? && !NoNames(names.roles, item)
    requires parent.Names? && NoNames(parent.roles, item) && parent.substitute == [names] + others
    requires Shows(RenderChild(names, parent.people, item, rep).outcome)
    ensures var theirs, own := Join(RoleTexts(names.roles, item, parent.people), names.delimiter),
                               Join(RoleTexts(names.roles, item, names.people), names.delimiter);
      && Render(parent, item, rep).outcome
           == Rendered(Markup(parent.affix, Markup(names.affix, Some(if names.named then own else theirs))))
      && Render(names, item, later).outcome == Rendered(Markup(names.affix, Some(own)))
    ensures Render(names, item, later).outcome == RenderChild(names, parent.people, item, rep).outcome
       <==> names.named || Join(RoleTexts(names.roles, item, names.people), names.delimiter)
                           == Join(RoleTexts(names.roles, item, parent.people), names.delimiter)
  {
    NamesShown(names, parent.people, item, rep);
    NamesShown(names, names.people, item, rep);
    NamesShown(names, names.people, item, later);
    FirstSubstitute(parent, names, others, item, rep);
    MarkupApart(names.affix, Join(RoleTexts(names.roles, item, parent.people), names.delimiter),
                Join(RoleTexts(names.roles, item, names.people), names.delimiter));
  }

  lemma {:induction false} NamesShown(names: Node, people: NameFormat, item: Item, rep: Repressed)
    requires names.Names? && !NoNames(names.roles, item)
    ensures RenderNames(names, people, item, rep).outcome ==
            Rendered(Markup(names.affix, Some(Join(RoleTexts(names.roles, item, people), names.delimiter))))
  {
    NoNamesNoTexts(names.roles, item, people);
  }

  // Names without names show what their first substitute shows, if it shows anything.
  lemma {:induction false} FirstSubstitute(parent: Node, child: Node, others: seq<Node>, item: Item, rep: Repressed)
    requires parent.Names? && NoNames(parent.roles, item) && parent.substitute == [child] + others
    requires Shows(RenderChild(child, parent.people, item, rep).outcome)
    ensures Render(parent, item, rep).outcome ==
            Rendered(Markup(parent.affix, RenderChild(child, parent.people, item, rep).outcome.text))
  {
    NoNamesNoTexts(parent.roles, item, parent.people);
    var children := parent.substitute;
    assert children[0] == child;
    assert RenderSubstitute(children, parent.people, item, rep, None).outcome
        == RenderChild(children[0], parent.people, item, rep).outcome;
    assert Render(parent, item, rep) == RenderNames(parent, parent.people, item, rep);
  }

  lemma {:induction false} MarkupApart(affix: Affix, s: string, t: string)
    ensures s != "" ==> (Markup(affix, Some(t)) == Markup(affix, Some(s)) <==> s == t)
  {
    if s != "" && t != "" && affix.prefix + s + affix.suffix == affix.prefix + t + affix.suffix {
      var n, whole := |affix.prefix|, affix.prefix + s + affix.suffix;
      assert |s| == |t| && s == whole[n..n + |s|] == t;
    }
  }

  // For one role: exactly when the two ways agree on its people.
  lemma {:induction false} OneRoleReappears(names: Node, parent: Node, others: seq<Node>, role: string, item: Item,
                                            rep: Repressed, later: Repressed)
    requires names.Names? && names.roles == [role] && role in item.names
    requires parent.Names? && NoNames(parent.roles, item) && parent.substitute == [names] + others
    requires Shows(RenderChild(names, parent.people, item, rep).outcome)
    ensures Render(names, item, later).outcome == RenderChild(names, parent.people, item, rep).outcome
       <==> names.named || names.people(role, item.names[role]) == parent.people(role, item.names[role])
  {
    assert names.roles[0] == role;
    SubstitutedNamesReappear(names, parent, others, item, rep, later);
    OneRole(role, item, names.people);
    OneRole(role, item, parent.people);
  }

  lemma {:induction false} OneRole(role: string, item: Item, people: NameFormat)
    requires role in item.names
    ensures RoleTexts([role], item, people) == [people(role, item.names[role])]
  {
    assert [role][1..] == [];
  }

  // A missing author whose names are written by family name only, the editor standing in by a nameless
  // `cs:names`: the editor comes out again, and at full length.
  lemma {:induction false} EditorComesOutLonger()
    ensures var item := Item("book", 1, map[], map["editor" := ["Ada Byron"]], map[], None);
      var editors := Names(["editor"], false, WholeNames, [], "", PLAIN);
      var authors := Names(["author"], true, FamilyNames, [editors], "", PLAIN);
      var first := Render(authors, item, map[]);
      first.outcome == Rendered(Some("Byron")) && Render(editors, item, first.repressed).outcome == Rendered(Some("Ada Byron"))
  {
    var item := Item("book", 1, map[], map["editor" := ["Ada Byron"]], map[], None);
    var editors := Names(["editor"], false, WholeNames, [], "", PLAIN);
    var authors := Names(["author"], true, FamilyNames, [editors], "", PLAIN);
    AdaByron();
    TwoWays(authors, editors, "editor", item, "Byron", "Ada Byron");
  }

  lemma {:induction false} TwoWays(parent: Node, names: Node, role: string, item: Item, short: string, long: string)
    requires names.Names? && names.roles == [role] && !names.named && names.delimiter == "" && names.affix == PLAIN
    requires parent.Names? && parent.substitute == [names] && parent.affix == PLAIN && NoNames(parent.roles, item)
    requires role in item.names && short != "" && long != ""
    requires parent.people(role, item.names[role]) == short && names.people(role, item.names[role]) == long
    ensures var first := Render(parent, item, map[]);
      first.outcome == Rendered(Some(short)) && Render(names, item, first.repressed).outcome == Rendered(Some(long))
  {
    WholeText(short);
    WholeText(long);
    OneRole(role, item, names.people);
    OneRole(role, item, parent.people);
    assert names.roles[0] == role && [names] + [] == [names];
    NamesShown(names, parent.people, item, map[]);
    SubstitutedNamesReappear(names, parent, [], item, map[], Render(parent, item, map[]).repressed);
  }

  function WholeNames(role: string, people: seq<string>): string {
    Join(people, ", ")
  }

  lemma {:induction false} AdaByron()
    ensures WholeNames("editor", ["Ada Byron"]) == "Ada Byron" && FamilyNames("editor", ["Ada Byron"]) == "Byron"
  {
    LastWord("Ada Byron", 4);
    assert "Ada Byron"[4..] == "Byron";
  }

  // What follows the last space.
  function Family(name: string): string {
    if name == "" then ""
    else if ' ' in name[1..] || name[0] == ' ' then Family(name[1..])
    else name
  }

  function FamilyNames(role: string, people: seq<string>): string {
    if people == [] then "" else Family(people[0])
  }

  lemma {:induction false} LastWord(name: string, k: nat)
    requires 0 < k < |name| && name[k - 1] == ' ' && ' ' !in name[k..]
    ensures Family(name) == name[k..]
  {
    if k > 1 {
      assert name[1..][k - 2] == ' ' && name[1..][k - 1..] == name[k..];
      LastWord(name[1..], k - 1);
    } else if |name[1..]| > 0 {
      assert name[1..][0] in name[1..] && forall c :: c in name[1..][1..] ==> c in name[1..];
    }
  }

  // A variable shown by a macro that was used as a substitute is shown again by a later `cs:text`,
  // unless a `cs:text` of it was used as a substitute within the macro.
  lemma {:induction false} MacroSubstituteReappears(body: seq<Node>, inner: Affix, parent: Node, others: seq<Node>,
                                                    item: Item, v: string, short: bool,
                                                    format: (string, string) -> string, affix: Affix)
    requires parent.Names? && NoNames(parent.roles, item) && parent.substitute == [Macro(body, inner)] + others
    requires Shows(Render(Macro(body, inner), item, map[]).outcome)
    ensures Shows(Render(Variable(v, short, format, affix), item, Render(parent, item, map[]).repressed).outcome) <==>
            Markup(affix, VariableText(item, v, short, format)).Some? && !UsesEach(body, item, map[], v)
  {
    ShownUnlessUsed([parent], item, v, short, format, affix);
    assert [parent][1..] == [];
    assert Uses(parent, item, map[], v) <==> UsesEach(body, item, map[], v) by {
      assert parent.substitute[0] == Macro(body, inner) && !IsTextOf(parent.substitute[0], v);
      assert Uses(parent.substitute[0], item, map[], v) <==> UsesEach(body, item, map[], v);
    }
    assert !UsesEach([], item, Render(parent, item, map[]).repressed, v);
    assert UsesEach([parent], item, map[], v) <==> Uses(parent, item, map[], v);
    assert RenderEach([parent], item, map[]).repressed == Render(parent, item, map[]).repressed;
  }

  // The smallest case: a title that stands in for a missing author by way of a macro comes out again.
  lemma {:induction false} TitleComesOutTwice(title: string, format: (string, string) -> string, people: NameFormat)
    requires title != ""
    ensures var item := Item("book", 1, map["title" := title], map[], map[], None);
      var text := Variable("title", false, format, PLAIN);
      var authors := Names(["author"], true, people, [Macro([text], PLAIN)], ", ", PLAIN);
      var first := Render(authors, item, map[]);
      first.outcome == Rendered(Some(title)) && Render(text, item, first.repressed).outcome == Rendered(Some(title))
  {
    var item := Item("book", 1, map["title" := title], map[], map[], None);
    var text := Variable("title", false, format, PLAIN);
    var authors := Names(["author"], true, people, [Macro([text], PLAIN)], ", ", PLAIN);
    assert NoNames(["author"], item);
    NoNamesNoTexts(["author"], item, people);
    WholeText(title);
    assert "page"[0] != "title"[0] && "title" != "citation-number" && "title" != "locator";
    assert !IsRepressed(map[], "title");
    assert Render(text, item, map[]) == Step(Rendered(Some(title)), map[], [Output("title")]);
    OneText(text, item, map[], title);
    MacroSubstituteReappears([text], PLAIN, authors, [], item, "title", false, format, PLAIN);
    assert [Macro([text], PLAIN)] + [] == [Macro([text], PLAIN)];
    FirstSubstitute(authors, Macro([text], PLAIN), [], item, map[]);
    assert [text][1..] == [] && !UsesEach([], item, map[], "title");
  }

  // A number shows a variable although it is suppressed.
  lemma {:induction false} NumbersReadSuppressed(a: Item, b: Item, rep: Repressed, v: string,
                                                 format: (string, string) -> string, affix: Affix)
    requires SameBut(a, b, v) && v in a.fields && '-' !in v && v != "locator"
    ensures Render(Number(v, format, affix), a, rep) == Render(Number(v, format, affix), b, rep)
       <==> Markup(affix, Some(format(a.fields[v], v))) == Markup(affix, Some(format(b.fields[v], v)))
  {
    assert "page-first"[4] == '-';
  }

  // A label counts it.
  lemma {:induction false} LabelsReadSuppressed(a: Item, b: Item, rep: Repressed, v: string,
                                                term: (string, bool) -> string, affix: Affix)
    requires SameBut(a, b, v) && v in a.fields && v != "locator" && !("number-of" <= v)
    ensures Render(Label(v, Contextual, term, affix), a, rep) == Render(Label(v, Contextual, term, affix), b, rep)
       <==> HasTwoNumbers(a.fields[v]) == HasTwoNumbers(b.fields[v])
            || Markup(affix, Some(term(v, true))) == Markup(affix, Some(term(v, false)))
  {
  }

  // A condition looks at it.
  lemma {:induction false} ConditionsReadSuppressed(text: string, a: Item, b: Item, rep: Repressed, v: string)
    requires SameBut(a, b, v) && v in a.fields && text != ""
    ensures var test := Choose([Branch(MatchAll, [IsNumeric(v)], [Value(text, PLAIN)])]);
      Render(test, a, rep) == Render(test, b, rep) <==> LooksNumeric(a.fields[v]) == LooksNumeric(b.fields[v])
  {
    NumericBranch(text, a, rep, v);
    NumericBranch(text, b, rep, v);
  }

  lemma {:induction false} NumericBranch(text: string, item: Item, rep: Repressed, v: string)
    requires v in item.fields && text != ""
    ensures Render(Choose([Branch(MatchAll, [IsNumeric(v)], [Value(text, PLAIN)])]), item, rep) ==
            Step(Rendered(if LooksNumeric(item.fields[v]) then Some(text) else None), rep, [])
  {
    var value := Value(text, PLAIN);
    var branch := Branch(MatchAll, [IsNumeric(v)], [value]);
    OneTest(branch, item);
    OneBranch(branch, item, rep);
    WholeText(text);
    OneText(value, item, rep, text);
  }

  lemma {:induction false} WholeText(text: string)
    requires text != ""
    ensures Markup(PLAIN, Some(text)) == Some(text)
  {
    assert "" + text + "" == text;
  }

  lemma {:induction false} OneTest(b: Branch, item: Item)
    requires b.match_ == MatchAll && |b.tests| == 1
    ensures Taken(b, item) <==> TestHolds(b.tests[0], item)
  {
  }

  lemma {:induction false} OneBranch(b: Branch, item: Item, rep: Repressed)
    ensures var r := RenderEach(b.children, item, rep);
      Render(Choose([b]), item, rep) ==
      if Taken(b, item) then Step(Rendered(Joined(r.outcomes)), r.repressed, r.log) else Step(Rendered(None), rep, [])
  {
    var bs := [b];
    assert bs[0] == b && bs[1..] == [];
    assert RenderBranches(bs[1..], item, rep) == Step(Rendered(None), rep, []);
    assert Render(Choose(bs), item, rep) == RenderBranches(bs, item, rep);
  }

  lemma {:induction false} OneText(n: Node, item: Item, rep: Repressed, text: string)
    requires Render(n, item, rep).outcome == Rendered(Some(text))
    ensures var r, one := RenderEach([n], item, rep), Render(n, item, rep);
      Joined(r.outcomes) == Some(text) && r.repressed == one.repressed && r.log == one.log
  {
    assert [n][1..] == [];
    assert RenderEach([n], item, rep).outcomes == [Rendered(Some(text))];
    assert [Rendered(Some(text))][1..] == [];
    assert Texts([Rendered(Some(text))]) == [text];
  }

}
