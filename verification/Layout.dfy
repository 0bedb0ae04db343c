/**
 * The layout object that renders a bibliography, updating its suppression list as the program
 * does (citeproc/model.py:623-707, 836-857, 1132-1237, 1516-1541, 1599-1675). Each method is tied
 * to the renderer of `Rendering`.
 */
module LayoutProcess {
  import opened Rendering
  import opened Seqs
  import opened Wrappers

  // One entry: a layout wraps what its children give, even an empty text.
  function Entry(children: seq<Node>, affix: Affix, item: Item): Option<string> {
    match Joined(RenderEach(children, item, map[]).outcomes)
    case Some(text) => Some(affix.prefix + text + affix.suffix)
    case None => None
  }

  function Shown(entry: Option<string>): seq<string> {
    if entry.Some? then [entry.value] else []
  }

  // The entries of a list of items: each depends on its own item only, and an item that renders
  // nothing leaves no entry.
  function Entries(children: seq<Node>, affix: Affix, items: seq<Item>): seq<string> {
    if items == [] then []
    else
      Entries(children, affix, items[..|items| - 1]) + Shown(Entry(children, affix, items[|items| - 1]))
  }

  lemma {:induction false} TextsConcat(a: seq<Outcome>, b: seq<Outcome>)
    ensures Texts(a + b) == Texts(a) + Texts(b)
  {
    if a == [] {
      assert a + b == b;
    } else {
      TextsConcat(a[1..], b);
      assert (a + b)[1..] == a[1..] + b;
      Associative(TextOf(a[0]), Texts(a[1..]), Texts(b));
    }
  }

  // The outcomes of the first `i` children and the list they leave, as a loop meets them.
  predicate Reached(children: seq<Node>, item: Item, rep: Repressed, i: nat, now: Repressed)
    requires i <= |children|
  {
    var all, rest := RenderEach(children, item, rep), RenderEach(children[i..], item, now);
    all.outcomes[i..] == rest.outcomes && all.repressed == rest.repressed
  }

  lemma ReachedStep(children: seq<Node>, item: Item, rep: Repressed, i: nat, now: Repressed)
    requires i < |children| && Reached(children, item, rep, i, now)
    ensures RenderEach(children, item, rep).outcomes[i] == Render(children[i], item, now).outcome
    ensures Reached(children, item, rep, i + 1, Render(children[i], item, now).repressed)
  {
    var all, rest := RenderEach(children, item, rep), RenderEach(children[i..], item, now);
    assert children[i..][1..] == children[i + 1..];
    assert all.outcomes[i] == all.outcomes[i..][0] == rest.outcomes[0];
    assert all.outcomes[i + 1..] == all.outcomes[i..][1..];
  }

  lemma TextsStep(outcomes: seq<Outcome>, i: nat)
    requires i < |outcomes|
    ensures Texts(outcomes[..i + 1]) ==
            Texts(outcomes[..i]) + TextOf(outcomes[i])
  {
    assert outcomes[..i + 1] == outcomes[..i] + [outcomes[i]];
    TextsConcat(outcomes[..i], [outcomes[i]]);
    assert [outcomes[i]][1..] == [];
  }

  // Has one of the first `i` children called a variable, or shown one?
  predicate SomeCalls(children: seq<Node>, i: nat)
    requires i <= |children|
  {
    exists k :: 0 <= k < i && CallsVariable(children[k])
  }

  predicate SomeShown(children: seq<Node>, outcomes: seq<Outcome>, i: nat)
    requires i <= |children| == |outcomes|
  {
    exists k :: 0 <= k < i && CallsVariable(children[k]) && outcomes[k].Rendered? && outcomes[k].text.Some?
  }

  lemma {:induction false} SomeStep(children: seq<Node>, outcomes: seq<Outcome>, i: nat)
    requires i < |children| == |outcomes|
    ensures SomeCalls(children, i + 1) <==> SomeCalls(children, i) || CallsVariable(children[i])
    ensures SomeShown(children, outcomes, i + 1) <==>
            SomeShown(children, outcomes, i)
            || (CallsVariable(children[i]) && outcomes[i].Rendered? && outcomes[i].text.Some?)
  {
  }

  class Layout {
    const children: seq<Node>
    const affix: Affix
    var repressed: Repressed

    constructor (children: seq<Node>, affix: Affix)
      ensures this.children == children && this.affix == affix && repressed == map[]
    {
      this.children, this.affix, repressed := children, affix, map[];
    }

    method RenderNode(n: Node, item: Item) returns (outcome: Outcome)
      modifies this
      ensures outcome == Render(n, item, old(repressed)).outcome
      ensures repressed == Render(n, item, old(repressed)).repressed
      decreases n, 2
    {
      match n {
        case Variable(name, short, format, affix) =>
          if IsRepressed(repressed, name) { return Rendered(None); }
          outcome := OutcomeOf(affix, VariableText(item, name, short, format));
        case Macro(body, affix) =>
          var text := RenderChildren(body, item);
          outcome := Rendered(Markup(affix, text));
        case Value(text, affix) =>
          outcome := Rendered(Markup(affix, Some(text)));
        case Number(name, format, affix) =>
          outcome := OutcomeOf(affix, NumberText(item, name, format));
        case Label(name, plural, term, affix) =>
          outcome := OutcomeOf(affix, LabelText(item, name, plural, term));
        case Names(_, _, people, _, _, _) =>
          outcome := RenderNames(n, people, item);
        case Group(children, delimiter, affix) =>
          var text := ProcessGroup(children, delimiter, item);
          outcome := if text == None then VariableError else Rendered(Markup(affix, text));
        case Choose(branches) =>
          var text := RenderChoose(branches, item);
          outcome := Rendered(text);
      }
    }

    // `Names.process`, given how to write people.
    method RenderNames(n: Node, people: NameFormat, item: Item) returns (outcome: Outcome)
      requires n.Names?
      modifies this
      ensures outcome == Rendering.RenderNames(n, people, item, old(repressed)).outcome
      ensures repressed == Rendering.RenderNames(n, people, item, old(repressed)).repressed
      decreases n, 1
    {
      var texts := RoleTexts(n.roles, item, people);
      if texts != [] { return Rendered(Markup(n.affix, Some(Join(texts, n.delimiter)))); }
      var text := SubstituteNames(n.substitute, n.people, item);
      outcome := Rendered(Markup(n.affix, text));
    }

    method RenderChildren(children: seq<Node>, item: Item) returns (text: Option<string>)
      modifies this
      ensures text == Joined(RenderEach(children, item, old(repressed)).outcomes)
      ensures repressed == RenderEach(children, item, old(repressed)).repressed
      decreases children, 0
    {
      ghost var all := RenderEach(children, item, repressed).outcomes;
      var output: seq<string> := [];
      for i := 0 to |children|
        invariant Reached(children, item, old(repressed), i, repressed)
        invariant output == Texts(all[..i])
      {
        ReachedStep(children, item, old(repressed), i, repressed);
        TextsStep(all, i);
        var outcome := RenderNode(children[i], item);
        assert Reached(children, item, old(repressed), i + 1, repressed) && outcome == all[i];
        if outcome.Rendered? && outcome.text.Some? { output := output + [outcome.text.value]; }
      }
      assert all[..|children|] == all;
      text := if output == [] then None else Some(Join(output, ""));
    }

    // `Group.process`; None stands for the VariableError it raises.
    method ProcessGroup(children: seq<Node>, delimiter: string, item: Item) returns (text: Option<string>)
      modifies this
      ensures var r := RenderEach(children, item, old(repressed));
              text == if GroupShows(children, r.outcomes) then Some(Join(Texts(r.outcomes), delimiter)) else None
      ensures repressed == RenderEach(children, item, old(repressed)).repressed
      decreases children, 0
    {
      ghost var all := RenderEach(children, item, repressed).outcomes;
      var output: seq<string> := [];
      var variableCalled, variableRendered := false, false;
      for i := 0 to |children|
        invariant Reached(children, item, old(repressed), i, repressed)
        invariant output == Texts(all[..i])
        invariant variableCalled <==> SomeCalls(children, i)
        invariant variableRendered <==> SomeShown(children, all, i)
      {
        ReachedStep(children, item, old(repressed), i, repressed);
        TextsStep(all, i);
        SomeStep(children, all, i);
        variableCalled := variableCalled || CallsVariable(children[i]);
        var outcome := RenderNode(children[i], item);
        if outcome.Rendered? && outcome.text.Some? {
          output := output + [outcome.text.value];
          variableRendered := variableRendered || CallsVariable(children[i]);
        }
      }
      assert all[..|children|] == all;
      var success := !variableCalled || (variableCalled && variableRendered);
      text := if output != [] && success then Some(Join(output, delimiter)) else None;
    }

    method RenderChoose(branches: seq<Branch>, item: Item) returns (text: Option<string>)
      modifies this
      ensures Rendered(text) == RenderBranches(branches, item, old(repressed)).outcome
      ensures repressed == RenderBranches(branches, item, old(repressed)).repressed
      decreases branches, 0
    {
      for i := 0 to |branches|
        invariant repressed == old(repressed)
        invariant RenderBranches(branches, item, old(repressed)) == RenderBranches(branches[i..], item, old(repressed))
      {
        assert branches[i..][1..] == branches[i + 1..];
        if Taken(branches[i], item) {
          text := RenderChildren(branches[i].children, item);
          return;
        }
      }
      text := None;
    }

    // `Substitute.render`, in a `cs:names` that writes people this way.
    method SubstituteNames(children: seq<Node>, people: NameFormat, item: Item) returns (text: Option<string>)
      modifies this
      ensures Rendered(text) == RenderSubstitute(children, people, item, old(repressed), None).outcome
      ensures repressed == RenderSubstitute(children, people, item, old(repressed), None).repressed
      decreases children, 0
    {
      text := None;
      for i := 0 to |children|
        invariant RenderSubstitute(children, people, item, old(repressed), None).outcome ==
                  RenderSubstitute(children[i..], people, item, repressed, text).outcome
        invariant RenderSubstitute(children, people, item, old(repressed), None).repressed ==
                  RenderSubstitute(children[i..], people, item, repressed, text).repressed
      {
        assert children[i..][1..] == children[i + 1..];
        var child, outcome := children[i], VariableError;
        if child.Names? && !child.named {
          outcome := RenderNames(child, people, item);
        } else {
          outcome := RenderNode(child, item);
        }
        if outcome == VariableError { continue; }
        text := outcome.text;
        if text.Some? && text.value != "" {
          AddToRepressedList(child);
          break;
        }
      }
    }

    method AddToRepressedList(child: Node)
      modifies this
      ensures repressed == AddRepressed(old(repressed), child)
    {
      var tagList := Listed(repressed, TagOf(child));
      tagList := tagList + [AttributeOf(child)];
      repressed := repressed[TagOf(child) := tagList];
    }

    // Every entry starts from an empty list, so no entry depends on the ones before it.
    method RenderBibliography(items: seq<Item>) returns (output: seq<string>)
      modifies this
      ensures output == Entries(children, affix, items)
    {
      output := [];
      for i := 0 to |items|
        invariant output == Entries(children, affix, items[..i])
      {
        repressed := map[];
        var text := RenderChildren(children, items[i]);
        if text.Some? { output := output + [affix.prefix + text.value + affix.suffix]; }
        assert items[..i + 1][..i] == items[..i];
      }
      assert items[..|items|] == items;
    }
  }
}
