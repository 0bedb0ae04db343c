/**
 * The conditions of the load-balancer listener rule, and what the monitor does to them:
 * normalising a condition, dropping the HTTP-method restriction and putting it back
 * (cron/monitor_website.py:282-376, 529-567, 715-728).
 *
 * A condition is a JSON object, kept as its members in order because the code looks for
 * the first key that ends in "Config".
 */
module AlbRule {
  import opened Seqs
  import opened Wrappers

  datatype Json =
    | Null
    | Text(text: string)
    | List(items: seq<Json>)
    | Object(members: seq<(string, Json)>)

  type Condition = seq<(string, Json)>

  const METHOD_FIELD := "http-request-method"
  const METHOD_CONFIG := "HttpRequestMethodConfig"
  const DEFAULT_METHODS := List([Text("GET"), Text("POST")])

  // `dict.get(key)`
  function Get(members: seq<(string, Json)>, key: string): Option<Json> {
    if members == [] then None
    else if members[0].0 == key then Some(members[0].1)
    else Get(members[1..], key)
  }

  function MembersOf(value: Json): seq<(string, Json)> {
    if value.Object? then value.members else []
  }

  predicate EndsWith(s: string, suffix: string) {
    |suffix| <= |s| && s[|s| - |suffix|..] == suffix
  }

  // The first member whose key ends in "Config".
  function FirstConfig(c: Condition): Option<(string, Json)> {
    if c == [] then None
    else if EndsWith(c[0].0, "Config") then Some(c[0])
    else FirstConfig(c[1..])
  }

  // The old-format fields that have a new-format name.
  function ConfigName(field: string): Option<string> {
    match field
    case "path-pattern" => Some("PathPatternConfig")
    case "host-header" => Some("HostHeaderConfig")
    case "http-request-method" => Some("HttpRequestMethodConfig")
    case "source-ip" => Some("SourceIpConfig")
    case "query-string" => Some("QueryStringConfig")
    case _ => None
  }

  function KnownConfigName(c: Condition): Option<string> {
    match Get(c, "Field")
    case Some(Text(field)) => ConfigName(field)
    case _ => None
  }

  function ValuesConfig(values: Json): Json {
    Object([("Values", values)])
  }

  function NormalizeCondition(c: Condition): Condition {
    var field := Get(c, "Field").GetOr(Null);
    match FirstConfig(c)
    case Some(config) => [("Field", field), config]
    case None =>
      match KnownConfigName(c)
      case Some(name) => [("Field", field), (name, ValuesConfig(Get(c, "Values").GetOr(List([]))))]
      case None => c
  }

  function NormalizeAll(cs: seq<Condition>): seq<Condition> {
    Map(NormalizeCondition, cs)
  }

  predicate RestrictsMethods(c: Condition) {
    Get(c, "Field") == Some(Text(METHOD_FIELD))
  }

  predicate HasRestriction(cs: seq<Condition>) {
    exists i :: 0 <= i < |cs| && RestrictsMethods(cs[i])
  }

  function OtherOf(c: Condition): seq<Condition> {
    if RestrictsMethods(c) then [] else [c]
  }

  function Others(cs: seq<Condition>): seq<Condition> {
    if cs == [] then [] else OtherOf(cs[0]) + Others(cs[1..])
  }

  function MethodCondition(methods: Json): Condition {
    [("Field", Text(METHOD_FIELD)), (METHOD_CONFIG, ValuesConfig(methods))]
  }

  // What one method condition says its methods are, as `handle_site_down` reads it.
  function MethodsOf(c: Condition): Json {
    var config := MembersOf(Get(c, METHOD_CONFIG).GetOr(Object([])));
    Get(config, "Values").GetOr(Get(c, "Values").GetOr(DEFAULT_METHODS))
  }

  // The methods of the first method condition, or the default when there is none.
  function ReadMethods(cs: seq<Condition>): Json {
    if cs == [] then DEFAULT_METHODS
    else if RestrictsMethods(cs[0]) then MethodsOf(cs[0])
    else ReadMethods(cs[1..])
  }

  // The conditions sent when the restriction is removed.
  function Removed(cs: seq<Condition>): seq<Condition> {
    NormalizeAll(Others(cs))
  }

  // The conditions of the rule after a successful restoration.
  function Restored(cs: seq<Condition>, methods: Json): seq<Condition> {
    if HasRestriction(cs) then cs else NormalizeAll(cs) + [MethodCondition(methods)]
  }

  // ----- Normalisation

  lemma {:induction false} NormalizeKeepsField(c: Condition)
    ensures Get(NormalizeCondition(c), "Field") == Get(c, "Field")
         || (Get(c, "Field") == None && Get(NormalizeCondition(c), "Field") == Some(Null))
    ensures RestrictsMethods(NormalizeCondition(c)) <==> RestrictsMethods(c)
  {
  }

  lemma FirstConfigEndsWithConfig(c: Condition)
    ensures FirstConfig(c).Some? ==> EndsWith(FirstConfig(c).value.0, "Config")
  {
  }

  lemma FirstConfigOfPair(field: Json, key: string, config: Json)
    requires EndsWith(key, "Config")
    ensures FirstConfig([("Field", field), (key, config)]) == Some((key, config))
    ensures Get([("Field", field), (key, config)], "Field") == Some(field)
  {
    var c := [("Field", field), (key, config)];
    assert "Field"[|"Field"| - 1] == 'd';
    assert !EndsWith("Field", "Config");
    assert c[1..] == [(key, config)];
    assert FirstConfig(c) == FirstConfig(c[1..]);
  }

  // What a condition says about its field: the config object when it has one, otherwise the
  // old-format values under the field's config name. Nothing is said about an unknown field.
  function Denotes(c: Condition): Option<(string, Json)> {
    match FirstConfig(c)
    case Some(config) => Some(config)
    case None =>
      match KnownConfigName(c)
      case Some(name) => Some((name, ValuesConfig(Get(c, "Values").GetOr(List([])))))
      case None => None
  }

  lemma {:induction false} ConfigNameEndsWithConfig(field: string)
    ensures ConfigName(field).Some? ==> EndsWith(ConfigName(field).value, "Config")
  {
    assert "PathPatternConfig"[11..] == "Config";
    assert "HostHeaderConfig"[10..] == "Config";
    assert "HttpRequestMethodConfig"[17..] == "Config";
    assert "SourceIpConfig"[8..] == "Config";
    assert "QueryStringConfig"[11..] == "Config";
  }

  lemma NormalizeIdempotent(c: Condition)
    ensures NormalizeCondition(NormalizeCondition(c)) == NormalizeCondition(c)
    ensures Denotes(NormalizeCondition(c)) == Denotes(c)
  {
    match Denotes(c) {
      case Some((key, config)) =>
        FirstConfigEndsWithConfig(c);
        match Get(c, "Field") {
          case Some(Text(field)) => ConfigNameEndsWithConfig(field);
          case _ =>
        }
        FirstConfigOfPair(Get(c, "Field").GetOr(Null), key, config);
      case None =>
    }
  }

  lemma {:induction false} NormalizeAllIdempotent(cs: seq<Condition>)
    ensures NormalizeAll(NormalizeAll(cs)) == NormalizeAll(cs)
  {
    forall i | 0 <= i < |cs|
      ensures NormalizeAll(NormalizeAll(cs))[i] == NormalizeAll(cs)[i]
    {
      NormalizeIdempotent(cs[i]);
    }
  }

  // `dict.get`: the value at the first, and in an object only, place of the key.
  lemma {:induction false} GetFinds(c: Condition, key: string, i: nat)
    requires i <= |c| && forall k :: 0 <= k < i ==> c[k].0 != key
    requires i < |c| ==> c[i].0 == key
    ensures Get(c, key) == if i < |c| then Some(c[i].1) else None
  {
    if i > 0 { GetFinds(c[1..], key, i - 1); }
  }

  lemma {:induction false} FirstConfigFinds(c: Condition, i: nat)
    requires i <= |c| && forall k :: 0 <= k < i ==> !EndsWith(c[k].0, "Config")
    requires i < |c| ==> EndsWith(c[i].0, "Config")
    ensures FirstConfig(c) == if i < |c| then Some(c[i]) else None
  {
    if i > 0 {
      assert forall k :: 0 <= k < i - 1 ==> c[1..][k] == c[k + 1];
      FirstConfigFinds(c[1..], i - 1);
    }
  }

  // A condition in the new format keeps its field and the first member whose key ends in "Config".
  lemma {:induction false} NewFormatKept(c: Condition, i: nat, key: string)
    requires i < |c| && c[i].0 == key + "Config"
    requires forall k :: 0 <= k < i ==> !EndsWith(c[k].0, "Config")
    ensures NormalizeCondition(c) == [("Field", Get(c, "Field").GetOr(Null)), c[i]]
  {
    assert (key + "Config")[|key|..] == "Config";
    FirstConfigFinds(c, i);
  }

  // The old fields and the members they become.
  predicate IsConfigMember(field: string, name: string) {
    || (field == "path-pattern" && name == "PathPatternConfig")
    || (field == "host-header" && name == "HostHeaderConfig")
    || (field == "http-request-method" && name == "HttpRequestMethodConfig")
    || (field == "source-ip" && name == "SourceIpConfig")
    || (field == "query-string" && name == "QueryStringConfig")
  }

  // A condition in the old format gets its values under the name that goes with its field.
  lemma {:induction false} OldFormatConverted(field: string, name: string, values: Json)
    requires IsConfigMember(field, name)
    ensures NormalizeCondition([("Field", Text(field)), ("Values", values)]) ==
            [("Field", Text(field)), (name, Object([("Values", values)]))]
  {
    OldFormatParts(Text(field), values);
  }

  lemma {:induction false} OldFormatParts(field: Json, values: Json)
    ensures var c := [("Field", field), ("Values", values)];
      FirstConfig(c) == None && Get(c, "Field") == Some(field) && Get(c, "Values") == Some(values)
  {
    var c := [("Field", field), ("Values", values)];
    assert "Field"[|"Field"| - 1] == 'd' && "Values"[|"Values"| - 1] == 's';
    assert !EndsWith("Field", "Config") && !EndsWith("Values", "Config");
    FirstConfigFinds(c, 2);
    GetFinds(c, "Field", 0);
    GetFinds(c, "Values", 1);
  }

  // Any other condition is left alone.
  lemma {:induction false} OtherFormatKept(c: Condition)
    requires forall k :: 0 <= k < |c| ==> !EndsWith(c[k].0, "Config")
    requires forall field, name :: IsConfigMember(field, name) ==> Get(c, "Field") != Some(Text(field))
    ensures NormalizeCondition(c) == c
  {
    FirstConfigFinds(c, |c|);
    assert forall field :: ConfigName(field).Some? ==> IsConfigMember(field, ConfigName(field).value);
  }

  function OldMethods(values: Json): Condition {
    [("Field", Text("http-request-method")), ("Values", values)]
  }

  function NewMethods(values: Json): Condition {
    [("Field", Text("http-request-method")), ("HttpRequestMethodConfig", Object([("Values", values)]))]
  }

  // The methods of the first method condition, in either format, or the default ones.
  lemma {:induction false} MethodsRead(cs: seq<Condition>, i: nat, values: Json)
    requires i <= |cs| && forall k :: 0 <= k < i ==> Get(cs[k], "Field") != Some(Text("http-request-method"))
    requires i < |cs| ==> cs[i] == OldMethods(values) || cs[i] == NewMethods(values)
    ensures ReadMethods(cs) == if i < |cs| then values else List([Text("GET"), Text("POST")])
  {
    if i > 0 {
      MethodsRead(cs[1..], i - 1, values);
    } else if cs != [] {
      MethodFormats(values);
    }
  }

  lemma {:induction false} MethodFormats(values: Json)
    ensures MethodsOf(OldMethods(values)) == MethodsOf(NewMethods(values)) == values
    ensures RestrictsMethods(OldMethods(values)) && RestrictsMethods(NewMethods(values))
  {
    OldFormatParts(Text("http-request-method"), values);
    GetFinds(NewMethods(values), "Field", 0);
    GetFinds(OldMethods(values), "HttpRequestMethodConfig", 2);
    GetFinds(NewMethods(values), "HttpRequestMethodConfig", 1);
    GetFinds([("Values", values)], "Values", 0);
    GetFinds([], "Values", 0);
  }

  // ----- Removing and restoring

  // The part of the rule the monitor must never change, up to normalisation.
  function Kept(cs: seq<Condition>): seq<Condition> {
    NormalizeAll(Others(cs))
  }

  lemma {:induction false} OthersAreUnrestricted(cs: seq<Condition>)
    ensures !HasRestriction(Others(cs))
    ensures !HasRestriction(cs) ==> Others(cs) == cs
    ensures HasRestriction(cs) ==> |Others(cs)| < |cs|
  {
    if cs != [] {
      OthersAreUnrestricted(cs[1..]);
      assert HasRestriction(cs) ==> RestrictsMethods(cs[0]) || HasRestriction(cs[1..]);
      assert cs == [cs[0]] + cs[1..];
      assert forall i :: 1 <= i < |cs| ==> cs[i] == cs[1..][i - 1];
      if !HasRestriction(cs) {
        assert !HasRestriction(cs[1..]);
      }
      if HasRestriction(cs[1..]) {
        var i :| 0 <= i < |cs[1..]| && RestrictsMethods(cs[1..][i]);
        assert RestrictsMethods(cs[i + 1]);
      }
      forall i | 0 <= i < |Others(cs)|
        ensures !RestrictsMethods(Others(cs)[i])
      {
        if !RestrictsMethods(cs[0]) && i > 0 {
          assert Others(cs)[i] == Others(cs[1..])[i - 1];
        }
      }
    }
  }

  lemma NormalizeAllRestriction(cs: seq<Condition>)
    ensures HasRestriction(NormalizeAll(cs)) <==> HasRestriction(cs)
  {
    forall i | 0 <= i < |cs|
      ensures RestrictsMethods(NormalizeAll(cs)[i]) <==> RestrictsMethods(cs[i])
    {
      NormalizeKeepsField(cs[i]);
    }
    if HasRestriction(cs) {
      var i :| 0 <= i < |cs| && RestrictsMethods(cs[i]);
      assert RestrictsMethods(NormalizeAll(cs)[i]);
    }
  }

  lemma {:induction false} OthersConcat(a: seq<Condition>, b: seq<Condition>)
    ensures Others(a + b) == Others(a) + Others(b)
  {
    if a == [] {
      assert a + b == b;
    } else {
      OthersConcat(a[1..], b);
      assert (a + b)[1..] == a[1..] + b && (a + b)[0] == a[0];
      Associative(OtherOf(a[0]), Others(a[1..]), Others(b));
    }
  }

  // Removal takes the restriction off and touches nothing else, up to normalisation.
  lemma RemovedKeepsOthers(cs: seq<Condition>)
    ensures !HasRestriction(Removed(cs))
    ensures Kept(Removed(cs)) == Kept(cs)
  {
    OthersAreUnrestricted(cs);
    NormalizeAllRestriction(Others(cs));
    OthersAreUnrestricted(Removed(cs));
    NormalizeAllIdempotent(Others(cs));
  }

  lemma MethodConditionIsNormal(methods: Json)
    ensures RestrictsMethods(MethodCondition(methods))
    ensures NormalizeCondition(MethodCondition(methods)) == MethodCondition(methods)
  {
    assert METHOD_CONFIG[|METHOD_CONFIG| - 6..] == "Config";
    FirstConfigOfPair(Text(METHOD_FIELD), METHOD_CONFIG, ValuesConfig(methods));
  }

  // Restoration always leaves the restriction on and touches nothing else; doing it again,
  // with any methods, changes nothing.
  lemma RestoredKeepsOthers(cs: seq<Condition>, methods: Json, again: Json)
    ensures HasRestriction(Restored(cs, methods))
    ensures Kept(Restored(cs, methods)) == Kept(cs)
    ensures Restored(Restored(cs, methods), again) == Restored(cs, methods)
  {
    if !HasRestriction(cs) {
      var added := [MethodCondition(methods)];
      MethodConditionIsNormal(methods);
      assert RestrictsMethods(Restored(cs, methods)[|cs|]);
      OthersConcat(NormalizeAll(cs), added);
      assert Others(added) == [];
      NormalizeAllRestriction(cs);
      OthersAreUnrestricted(NormalizeAll(cs));
      OthersAreUnrestricted(cs);
      NormalizeAllIdempotent(cs);
      assert NormalizeAll(cs) + [] == NormalizeAll(cs);
    }
  }

  predicate OneRestriction(cs: seq<Condition>, at: nat) {
    at < |cs| && RestrictsMethods(cs[at]) &&
    forall i :: 0 <= i < |cs| && RestrictsMethods(cs[i]) ==> i == at
  }

  lemma {:induction false} OneRestrictionSplits(cs: seq<Condition>, at: nat)
    requires OneRestriction(cs, at)
    ensures Others(cs) == cs[..at] + cs[at + 1..]
    ensures ReadMethods(cs) == MethodsOf(cs[at])
  {
    if at == 0 {
      assert forall i :: 0 <= i < |cs[1..]| ==> cs[1..][i] == cs[i + 1];
      assert !HasRestriction(cs[1..]);
      OthersAreUnrestricted(cs[1..]);
    } else {
      assert forall i :: 0 <= i < |cs[1..]| ==> cs[1..][i] == cs[i + 1];
      OneRestrictionSplits(cs[1..], at - 1);
      assert !RestrictsMethods(cs[0]);
      assert cs[..at] + cs[at + 1..] == [cs[0]] + (cs[1..][..at - 1] + cs[1..][at..]);
    }
  }

  lemma {:induction false} RestoredRemoved(cs: seq<Condition>, methods: Json)
    ensures Restored(Removed(cs), methods) == Kept(cs) + [MethodCondition(methods)]
    ensures multiset(Restored(Removed(cs), methods)) == multiset(Kept(cs)) + multiset{MethodCondition(methods)}
  {
    RemovedKeepsOthers(cs);
    NormalizeAllIdempotent(Others(cs));
  }

  // Removing and then restoring with `methods` gives back the normalised original list, up to
  // order, exactly when the new condition is the normal form of the one that was removed.
  lemma RoundTripWith(cs: seq<Condition>, at: nat, methods: Json)
    requires OneRestriction(cs, at)
    ensures multiset(Restored(Removed(cs), methods)) == multiset(NormalizeAll(cs))
       <==> NormalizeCondition(cs[at]) == MethodCondition(methods)
  {
    OneRestrictionSplits(cs, at);
    MapSplits(NormalizeCondition, cs, at);
    RestoredRemoved(cs, methods);
    MultisetCancel(multiset(Kept(cs)), MethodCondition(methods), NormalizeCondition(cs[at]));
  }

  // The condition states its methods in one of the two formats the code can read back.
  predicate MethodsReadable(c: Condition) {
    match FirstConfig(c)
    case None => Get(c, "Values").Some?
    case Some((key, config)) =>
      key == METHOD_CONFIG && config.Object? && |config.members| == 1 && config.members[0].0 == "Values"
  }

  lemma FirstConfigIsGet(c: Condition)
    ensures FirstConfig(c).Some? ==> Get(c, FirstConfig(c).value.0) == Some(FirstConfig(c).value.1)
    ensures FirstConfig(c) == None ==> Get(c, METHOD_CONFIG) == None
  {
    if c != [] {
      assert METHOD_CONFIG[|METHOD_CONFIG| - 6..] == "Config";
      FirstConfigIsGet(c[1..]);
      FirstConfigEndsWithConfig(c[1..]);
    }
  }

  lemma MethodsReadableNormal(c: Condition)
    requires RestrictsMethods(c)
    ensures MethodsReadable(c) <==> NormalizeCondition(c) == MethodCondition(MethodsOf(c))
  {
    FirstConfigIsGet(c);
    match FirstConfig(c) {
      case Some((key, config)) =>
        assert NormalizeCondition(c) == [("Field", Text(METHOD_FIELD)), (key, config)];
        if MethodsReadable(c) {
          assert config.members == [("Values", config.members[0].1)];
          assert MethodsOf(c) == config.members[0].1;
        } else {
          assert NormalizeCondition(c)[1] != MethodCondition(MethodsOf(c))[1];
        }
      case None =>
        var values := Get(c, "Values").GetOr(List([]));
        assert NormalizeCondition(c) == [("Field", Text(METHOD_FIELD)), (METHOD_CONFIG, ValuesConfig(values))];
        if !MethodsReadable(c) {
          assert ValuesConfig(values).members[0] != ValuesConfig(MethodsOf(c)).members[0];
          assert NormalizeCondition(c)[1] != MethodCondition(MethodsOf(c))[1];
        }
    }
  }

  // With the methods the monitor itself read, the round trip succeeds exactly when they were readable.
  lemma RoundTrip(cs: seq<Condition>, at: nat)
    requires OneRestriction(cs, at)
    ensures multiset(Restored(Removed(cs), ReadMethods(cs))) == multiset(NormalizeAll(cs))
       <==> MethodsReadable(cs[at])
  {
    OneRestrictionSplits(cs, at);
    RoundTripWith(cs, at, MethodsOf(cs[at]));
    MethodsReadableNormal(cs[at]);
  }

  // When the methods could not be read the monitor restores the default ones: the round trip then
  // succeeds exactly for a rule that restricted to GET and POST in the first place.
  lemma RoundTripWithDefault(cs: seq<Condition>, at: nat)
    requires OneRestriction(cs, at)
    ensures multiset(Restored(Removed(cs), DEFAULT_METHODS)) == multiset(NormalizeAll(cs))
       <==> Denotes(cs[at]) == Some((METHOD_CONFIG, ValuesConfig(DEFAULT_METHODS)))
  {
    RoundTripWith(cs, at, DEFAULT_METHODS);
    NormalMethodCondition(cs[at]);
    SecondMember(("Field", Text(METHOD_FIELD)), Denotes(cs[at]).value, (METHOD_CONFIG, ValuesConfig(DEFAULT_METHODS)));
  }

  lemma {:induction false} NormalMethodCondition(c: Condition)
    requires RestrictsMethods(c)
    ensures Denotes(c).Some? && NormalizeCondition(c) == [("Field", Text(METHOD_FIELD)), Denotes(c).value]
  {
  }

  lemma {:induction false} SecondMember<T>(a: T, x: T, y: T)
    ensures [a, x] == [a, y] <==> x == y
  {
    assert [a, x][1] == x && [a, y][1] == y;
  }
}
