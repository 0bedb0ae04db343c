/**
 * What every run of the monitor keeps, whatever the order of loop passes and restarts and
 * whatever the load balancer answers. S3 puts and gets are assumed to work (`Reliable`)
 * except where a lemma says otherwise; S3 deletes and all load-balancer calls may fail.
 */
module MonitorRuns {
  import opened AlbRule
  import opened Monitor
  import opened Seqs
  import opened Wrappers

  predicate Reliable(ev: Event) {
    ev.env.putOk && ev.env.getOk
  }

  predicate AllReliable(evs: seq<Event>) {
    forall i :: 0 <= i < |evs| ==> Reliable(evs[i])
  }

  // The world a monitor may be started in: a missing restriction is on record, and a record
  // that outlived its restriction is old.
  predicate Recoverable(w: World) {
    var own := OwnRecord(w);
    && (!HasRestriction(w.rule) ==> own.Some?)
    && (own.Some? ==> own.value.activatedAt <= w.clock)
    && (own.Some? && HasRestriction(w.rule) ==> w.clock - own.value.activatedAt >= ACTIVATION_DURATION)
  }

  // The process remembers exactly the activation that is on record.
  predicate Remembers(p: Process, r: Record) {
    p.activatedAt == Some(r.activatedAt) && p.methods == Some(r.methods.GetOr(DEFAULT_METHODS))
  }

  predicate Safe(s: System) {
    && Recoverable(s.w)
    && (s.p.phase == Activated ==> OwnRecord(s.w).Some? && Remembers(s.p, OwnRecord(s.w).value))
    && (s.p.phase != Activated ==> HasRestriction(s.w.rule))
    && (s.p.phase == GracePeriod ==> s.p.graceStart.Some? && s.p.graceStart.value <= s.w.clock)
  }

  lemma {:induction false} RestartIsSafe(s: System, e: Env)
    requires Recoverable(s.w) && e.getOk
    ensures Safe(Next(s, Restart(e)))
  {
    var methods := if OwnRecord(s.w).Some? then OwnRecord(s.w).value.methods.GetOr(DEFAULT_METHODS) else Null;
    RestoredKeepsOthers(s.w.rule, methods, Null);
  }

  lemma {:induction false} TickIsSafe(s: System, e: Env)
    requires Safe(s) && e.putOk
    ensures Safe(Next(s, Tick(e)))
  {
    match s.p.phase {
      case Monitoring => RemovedKeepsOthers(s.w.rule);
      case Activated => RestoredKeepsOthers(s.w.rule, s.p.methods.GetOr(Null), Null);
      case GracePeriod =>
    }
  }

  predicate Started(s: System, evs: seq<Event>) {
    Recoverable(s.w) && evs != [] && evs[0].Restart? && AllReliable(evs)
  }

  // Safety over whole runs: from any recoverable world, every run that begins by starting a
  // process is safe throughout. In particular the restriction is only ever missing while the
  // process is activated and the S3 record agrees with it.
  lemma {:induction false} EveryRunIsSafe(s: System, evs: seq<Event>)
    requires Started(s, evs)
    ensures Safe(Run(s, evs))
    decreases |evs|
  {
    var last := evs[|evs| - 1];
    if |evs| == 1 {
      assert Run(s, evs[..0]) == s;
      RestartIsSafe(s, last.env);
    } else {
      EveryRunIsSafe(s, evs[..|evs| - 1]);
      var before := Run(s, evs[..|evs| - 1]);
      match last {
        case Tick(e) => TickIsSafe(before, e);
        case Restart(e) => RestartIsSafe(before, e);
      }
    }
  }

  // ----- How long the restriction can stay off

  // Does this step come at least ACTIVATION_DURATION after the recorded activation, with the
  // load balancer answering?
  predicate Due(s: System, ev: Event) {
    && OwnRecord(s.w).Some?
    && s.w.clock + ev.env.before - OwnRecord(s.w).value.activatedAt >= ACTIVATION_DURATION
    && RestoreSucceeds(s.w, ev.env)
  }

  // While the restriction is off, a step puts it back exactly when it is due; any other step
  // leaves rule, record and activation as they were.
  lemma {:induction false} OutageStep(s: System, ev: Event)
    requires Safe(s) || (ev.Restart? && Recoverable(s.w))
    requires Reliable(ev) && !HasRestriction(s.w.rule)
    ensures HasRestriction(Next(s, ev).w.rule) <==> Due(s, ev)
    ensures Due(s, ev) ==>
              && Next(s, ev).w.rule == Restored(s.w.rule, OwnRecord(s.w).value.methods.GetOr(DEFAULT_METHODS))
              && Next(s, ev).p.phase == GracePeriod
    ensures !Due(s, ev) ==>
              && Next(s, ev).w.rule == s.w.rule
              && Next(s, ev).w.record == s.w.record
              && Next(s, ev).p.phase == Activated
  {
    RestoredKeepsOthers(s.w.rule, OwnRecord(s.w).value.methods.GetOr(DEFAULT_METHODS), Null);
  }

  lemma {:induction false} OutageKeepsRecord(s: System, evs: seq<Event>)
    requires Safe(s) && AllReliable(evs)
    requires forall j :: 0 <= j <= |evs| ==> !HasRestriction(Run(s, evs[..j]).w.rule)
    ensures Safe(Run(s, evs))
    ensures Run(s, evs).w.record == s.w.record && Run(s, evs).w.rule == s.w.rule
    decreases |evs|
  {
    assert evs[..|evs|] == evs;
    if evs != [] {
      var front, last := evs[..|evs| - 1], evs[|evs| - 1];
      forall j | 0 <= j <= |front| ensures !HasRestriction(Run(s, front[..j]).w.rule) {
        assert front[..j] == evs[..j];
      }
      OutageKeepsRecord(s, front);
      OutageStep(Run(s, front), last);
      match last {
        case Tick(e) => TickIsSafe(Run(s, front), e);
        case Restart(e) => RestartIsSafe(Run(s, front), e);
      }
    }
  }

  // Every outage ends: once a loop pass or a restart falls ACTIVATION_DURATION after the recorded
  // activation and its load-balancer calls succeed, the restriction is back (or was back before).
  lemma {:induction false} OutageEnds(s: System, evs: seq<Event>)
    requires Safe(s) && AllReliable(evs) && evs != [] && !HasRestriction(s.w.rule)
    requires var last := evs[|evs| - 1].env;
      && last.describeOk && last.modifyOk
      && Run(s, evs[..|evs| - 1]).w.clock + last.before - OwnRecord(s.w).value.activatedAt >= ACTIVATION_DURATION
    ensures exists j :: 0 < j <= |evs| && HasRestriction(Run(s, evs[..j]).w.rule)
  {
    var front := evs[..|evs| - 1];
    if forall j :: 0 < j <= |front| ==> !HasRestriction(Run(s, evs[..j]).w.rule) {
      forall j | 0 <= j <= |front| ensures !HasRestriction(Run(s, front[..j]).w.rule) {
        assert front[..j] == evs[..j];
        assert front[..0] == [];
      }
      OutageKeepsRecord(s, front);
      assert front[..|front|] == front;
      OutageStep(Run(s, front), evs[|evs| - 1]);
      assert evs[..|evs|] == evs;
      assert HasRestriction(Run(s, evs[..|evs|]).w.rule);
    }
  }

  // A record left behind by a failed delete does no harm: a restart leaves the rule as it is. When it
  // can read the rule it waits out the grace period; otherwise it resumes the recorded activation,
  // and the next loop pass that can read the rule ends that.
  lemma {:induction false} StaleRecordIsHarmless(s: System, e: Env, e': Env)
    requires Safe(s) && HasRestriction(s.w.rule) && OwnRecord(s.w).Some? && e.getOk
    ensures var t := Next(s, Restart(e));
      && t.w.rule == s.w.rule
      && (t.p.phase == GracePeriod <==> e.describeOk) && (t.p.phase == Activated <==> !e.describeOk)
      && (OwnRecord(t.w) == None <==> e.describeOk && e.deleteOk)
    ensures !e.describeOk ==> var t := Next(Next(s, Restart(e)), Tick(e'));
      t.w.rule == s.w.rule && (t.p.phase == GracePeriod <==> e'.describeOk)
  {
  }

  // ----- Activations

  predicate FailedCheck(s: System, ev: Event) {
    ev.Tick? && s.p.phase == Monitoring && SiteCheckFails(s.p, ev.env)
  }

  predicate ActivatesAt(s: System, ev: Event) {
    FailedCheck(s, ev) && Activates(s, ev.env)
  }

  // The system just before event `i`, and when an activation in that event happens.
  function Before(s: System, evs: seq<Event>, i: nat): System
    requires i <= |evs|
  {
    Run(s, evs[..i])
  }

  function TimeOf(s: System, evs: seq<Event>, i: nat): real
    requires i < |evs|
  {
    Before(s, evs, i).w.clock + evs[i].env.before
  }

  predicate ActivationIn(s: System, evs: seq<Event>, i: nat)
    requires i < |evs|
  {
    ActivatesAt(Before(s, evs, i), evs[i])
  }

  // An activation is exactly what takes the restriction off.
  lemma {:induction false} OnlyActivationsRemove(s: System, ev: Event)
    ensures HasRestriction(s.w.rule) && !HasRestriction(Next(s, ev).w.rule) <==> ActivatesAt(s, ev)
  {
    RemovedKeepsOthers(s.w.rule);
  }

  lemma {:induction false} BeforeStep(s: System, evs: seq<Event>, i: nat)
    requires i < |evs|
    ensures Before(s, evs, i + 1) == Next(Before(s, evs, i), evs[i])
  {
    assert evs[..i + 1][..i] == evs[..i];
  }

  lemma {:induction false} SafeBefore(s: System, evs: seq<Event>, i: nat)
    requires Started(s, evs) && 0 < i <= |evs|
    ensures Safe(Before(s, evs, i))
  {
    EveryRunIsSafe(s, evs[..i]);
  }

  // After an activation at time `t` (and until the next one): the record, if still there, is of
  // that activation, and outside the activated phase the activation has run its full hour.
  predicate SinceActivation(s: System, t: real) {
    && t <= s.w.clock
    && (OwnRecord(s.w).Some? ==> OwnRecord(s.w).value.activatedAt == t)
    && (s.p.phase != Activated ==> s.w.clock - t >= ACTIVATION_DURATION)
  }

  // The same, while no restart has happened since.
  predicate SinceActivationUninterrupted(s: System, t: real) {
    && SinceActivation(s, t)
    && (s.p.phase == GracePeriod ==> s.p.graceStart.Some? && s.p.graceStart.value - t >= ACTIVATION_DURATION)
    && (s.p.phase == Monitoring ==> s.w.clock - t >= ACTIVATION_DURATION + GRACE_PERIOD_DURATION)
  }

  lemma {:induction false} ActivationStarts(s: System, ev: Event)
    requires Safe(s) && Reliable(ev) && ActivatesAt(s, ev)
    ensures SinceActivationUninterrupted(Next(s, ev), s.w.clock + ev.env.before)
  {
  }

  lemma {:induction false} SinceActivationKept(s: System, ev: Event, t: real)
    requires Safe(s) && Reliable(ev) && SinceActivation(s, t) && !ActivatesAt(s, ev)
    requires s.p.phase == GracePeriod ==> s.p.graceStart.Some?
    ensures SinceActivation(Next(s, ev), t)
    ensures ev.Tick? && SinceActivationUninterrupted(s, t) ==> SinceActivationUninterrupted(Next(s, ev), t)
  {
  }

  // The time of the last activation after one more event.
  function LastTime(s: System, ev: Event, t: real): real {
    if ActivatesAt(s, ev) then s.w.clock + ev.env.before else t
  }

  lemma {:induction false} LastTimeStep(s: System, ev: Event, t: real)
    requires Safe(s) && Reliable(ev) && SinceActivation(s, t)
    ensures LastTime(s, ev, t) >= t && SinceActivation(Next(s, ev), LastTime(s, ev, t))
    ensures ev.Tick? && SinceActivationUninterrupted(s, t) ==>
              SinceActivationUninterrupted(Next(s, ev), LastTime(s, ev, t))
  {
    if ActivatesAt(s, ev) {
      ActivationStarts(s, ev);
    } else {
      SinceActivationKept(s, ev, t);
    }
  }

  // The time of the last activation among the first `j` events, not before `i`.
  lemma {:induction false} LastActivation(s: System, evs: seq<Event>, i: nat, j: nat) returns (t: real)
    requires Started(s, evs) && i < j <= |evs| && ActivationIn(s, evs, i)
    ensures t >= TimeOf(s, evs, i) && SinceActivation(Before(s, evs, j), t)
    ensures (forall k :: i < k < j ==> evs[k].Tick?) ==> SinceActivationUninterrupted(Before(s, evs, j), t)
    decreases j
  {
    BeforeStep(s, evs, j - 1);
    SafeBefore(s, evs, j - 1);
    if j - 1 == i {
      ActivationStarts(Before(s, evs, i), evs[i]);
      t := TimeOf(s, evs, i);
    } else {
      var earlier := LastActivation(s, evs, i, j - 1);
      LastTimeStep(Before(s, evs, j - 1), evs[j - 1], earlier);
      t := LastTime(Before(s, evs, j - 1), evs[j - 1], earlier);
    }
  }

  // Two activations are at least an hour apart in every run, whatever restarts fall between them,
  // and an hour plus the grace period apart when none does.
  lemma {:induction false} ActivationsAreSpaced(s: System, evs: seq<Event>, i: nat, j: nat)
    requires Started(s, evs) && i < j < |evs|
    requires ActivationIn(s, evs, i) && ActivationIn(s, evs, j)
    ensures TimeOf(s, evs, j) - TimeOf(s, evs, i) >= ACTIVATION_DURATION
    ensures (forall k :: i < k < j ==> evs[k].Tick?) ==>
              TimeOf(s, evs, j) - TimeOf(s, evs, i) >= ACTIVATION_DURATION + GRACE_PERIOD_DURATION
  {
    var t := LastActivation(s, evs, i, j);
  }

  // The number of failed checks a run ends with, each made in the monitoring phase and none
  // separated from the next by anything else: an independent reading of `consecutive_failures`.
  function Streak(s: System, evs: seq<Event>): nat {
    if evs == [] then 0
    else
      var front := evs[..|evs| - 1];
      if FailedCheck(Run(s, front), evs[|evs| - 1]) then Streak(s, front) + 1 else 0
  }

  lemma {:induction false} FailuresAreTheStreak(s: System, evs: seq<Event>)
    requires evs != [] && evs[0].Restart?
    ensures Run(s, evs).p.phase == Monitoring ==> Run(s, evs).p.failures == Streak(s, evs)
    decreases |evs|
  {
    if |evs| > 1 {
      FailuresAreTheStreak(s, evs[..|evs| - 1]);
    }
  }

  // An event of a run takes the restriction off exactly when it completes a streak of
  // SITE_DOWN_THRESHOLD failed checks and the load balancer lets it.
  lemma {:induction false} ActivationNeedsStreak(s: System, evs: seq<Event>, i: nat)
    requires 0 < i < |evs| && evs[0].Restart?
    ensures ActivationIn(s, evs, i) <==>
            Streak(s, evs[..i + 1]) >= SITE_DOWN_THRESHOLD && RemoveSucceeds(Before(s, evs, i).w, evs[i].env)
  {
    FailuresAreTheStreak(s, evs[..i]);
    assert evs[..i + 1][..i] == evs[..i];
  }

  // What a streak is made of.
  lemma {:induction false} StreakIsFailedChecks(s: System, evs: seq<Event>, k: nat)
    requires k < Streak(s, evs)
    ensures |evs| - 1 - k >= 0
    ensures FailedCheck(Before(s, evs, |evs| - 1 - k), evs[|evs| - 1 - k])
    decreases |evs|
  {
    if k > 0 {
      var front := evs[..|evs| - 1];
      StreakIsFailedChecks(s, front, k - 1);
      assert front[..|front| - k] == evs[..|front| - k];
    }
  }

  // ----- What happens to the rule

  // What one step can do to the rule.
  lemma {:induction false} RuleAfterStep(s: System, ev: Event) returns (methods: Json)
    ensures var rule := Next(s, ev).w.rule;
      rule == s.w.rule || rule == Removed(s.w.rule) || rule == Restored(s.w.rule, methods)
  {
    methods := match ev
      case Tick(_) => s.p.methods.GetOr(Null)
      case Restart(_) => if OwnRecord(s.w) == None then Null else OwnRecord(s.w).value.methods.GetOr(DEFAULT_METHODS);
  }

  // The conditions other than the restriction never change, in any run, up to normalisation.
  lemma {:induction false} OtherConditionsKept(s: System, evs: seq<Event>)
    ensures Kept(Run(s, evs).w.rule) == Kept(s.w.rule)
    decreases |evs|
  {
    if evs != [] {
      var front := evs[..|evs| - 1];
      OtherConditionsKept(s, front);
      var methods := RuleAfterStep(Run(s, front), evs[|evs| - 1]);
      RemovedKeepsOthers(Run(s, front).w.rule);
      RestoredKeepsOthers(Run(s, front).w.rule, methods, Null);
    }
  }

  // The rule is the original one up to order and normalisation, or the record can rebuild it.
  ghost predicate Faithful(w: World, original: multiset<Condition>, methods: Json) {
    && (HasRestriction(w.rule) ==>
          && multiset(NormalizeAll(w.rule)) == original
          && exists at: nat :: OneRestriction(w.rule, at) && MethodsReadable(w.rule[at])
                          && NormalizeCondition(w.rule[at]) == MethodCondition(methods))
    && (!HasRestriction(w.rule) ==>
          && multiset(Kept(w.rule)) + multiset{MethodCondition(methods)} == original
          && OwnRecord(w).Some? && OwnRecord(w).value.methods == Some(methods))
  }

  lemma {:induction false} MethodConditionReadable(methods: Json)
    ensures MethodsReadable(MethodCondition(methods)) && MethodsOf(MethodCondition(methods)) == methods
  {
    assert METHOD_CONFIG[|METHOD_CONFIG| - 6..] == "Config";
    FirstConfigOfPair(Text(METHOD_FIELD), METHOD_CONFIG, ValuesConfig(methods));
    var c := MethodCondition(methods);
    assert c[1..] == [(METHOD_CONFIG, ValuesConfig(methods))];
    assert Get(c, METHOD_CONFIG) == Get(c[1..], METHOD_CONFIG);
  }

  lemma {:induction false} RemovalIsFaithful(cs: seq<Condition>, at: nat, methods: Json)
    requires OneRestriction(cs, at) && MethodsReadable(cs[at])
    requires NormalizeCondition(cs[at]) == MethodCondition(methods)
    ensures ReadMethods(cs) == methods
    ensures multiset(Kept(Removed(cs))) + multiset{MethodCondition(methods)} == multiset(NormalizeAll(cs))
  {
    OneRestrictionSplits(cs, at);
    MethodsReadableNormal(cs[at]);
    assert MethodCondition(methods)[1] == MethodCondition(MethodsOf(cs[at]))[1];
    assert ValuesConfig(methods).members[0] == ValuesConfig(MethodsOf(cs[at])).members[0];
    RemovedKeepsOthers(cs);
    MapSplits(NormalizeCondition, cs, at);
  }

  lemma {:induction false} RestorationIsFaithful(cs: seq<Condition>, methods: Json)
    requires !HasRestriction(cs)
    ensures var r := Restored(cs, methods);
      && multiset(NormalizeAll(r)) == multiset(Kept(cs)) + multiset{MethodCondition(methods)}
      && OneRestriction(r, |cs|) && MethodsReadable(r[|cs|])
      && NormalizeCondition(r[|cs|]) == MethodCondition(methods)
  {
    var r := Restored(cs, methods);
    NormalizeAllRestriction(cs);
    MethodConditionIsNormal(methods);
    MethodConditionReadable(methods);
    MapSplits(NormalizeCondition, r, |cs|);
    assert r[..|cs|] + r[|cs| + 1..] == NormalizeAll(cs);
    NormalizeAllIdempotent(cs);
    OthersAreUnrestricted(cs);
    forall i | 0 <= i < |cs| ensures !RestrictsMethods(r[i]) {
      assert r[i] == NormalizeAll(cs)[i];
    }
  }

  lemma {:induction false} ActivationIsFaithful(s: System, ev: Event, original: multiset<Condition>, methods: Json)
    requires Reliable(ev) && ev.env.readOk && Faithful(s.w, original, methods) && ActivatesAt(s, ev)
    ensures Faithful(Next(s, ev).w, original, methods)
  {
    var at: nat :| OneRestriction(s.w.rule, at) && MethodsReadable(s.w.rule[at])
                   && NormalizeCondition(s.w.rule[at]) == MethodCondition(methods);
    RemovalIsFaithful(s.w.rule, at, methods);
    RemovedKeepsOthers(s.w.rule);
  }

  lemma {:induction false} PresentRuleStep(s: System, ev: Event)
    requires HasRestriction(s.w.rule) && !ActivatesAt(s, ev)
    ensures Next(s, ev).w.rule == s.w.rule
  {
  }

  lemma {:induction false} StepIsFaithful(s: System, ev: Event, original: multiset<Condition>, methods: Json)
    requires Reliable(ev) && ev.env.readOk && Faithful(s.w, original, methods)
    requires Safe(s) || (ev.Restart? && Recoverable(s.w))
    ensures Faithful(Next(s, ev).w, original, methods)
  {
    if ActivatesAt(s, ev) {
      ActivationIsFaithful(s, ev, original, methods);
    } else if HasRestriction(s.w.rule) {
      PresentRuleStep(s, ev);
    } else {
      OutageStep(s, ev);
      RestorationIsFaithful(s.w.rule, methods);
    }
  }

  // When the original methods can be read at every activation, the restriction that a run puts
  // back is the original one: whenever it is present, the rule is the original rule up to order
  // and normalisation.
  lemma {:induction false} EveryRunIsFaithful(s: System, evs: seq<Event>, original: multiset<Condition>, methods: Json)
    requires Started(s, evs) && Faithful(s.w, original, methods)
    requires forall i :: 0 <= i < |evs| ==> evs[i].env.readOk
    ensures Faithful(Run(s, evs).w, original, methods)
    decreases |evs|
  {
    var front := evs[..|evs| - 1];
    if |evs| > 1 {
      EveryRunIsFaithful(s, front, original, methods);
      EveryRunIsSafe(s, front);
    } else {
      assert Run(s, front) == s;
    }
    StepIsFaithful(Run(s, front), evs[|evs| - 1], original, methods);
  }

  // ----- How reliable S3 has to be

  // The S3 call a step depends on works: the put of an activation, and the get of a restart while
  // the restriction is off.
  predicate BucketServes(s: System, ev: Event) {
    match ev
    case Tick(e) => e.putOk || !ActivatesAt(s, ev)
    case Restart(e) => e.getOk || HasRestriction(s.w.rule)
  }

  lemma {:induction false} UnsavedTickIsUnsafe(s: System, e: Env)
    requires Safe(s) && ActivatesAt(s, Tick(e)) && !e.putOk
    ensures !Safe(Next(s, Tick(e)))
  {
    RemovedKeepsOthers(s.w.rule);
  }

  lemma {:induction false} SafeTickWithoutPut(s: System, e: Env)
    requires Safe(s) && !ActivatesAt(s, Tick(e))
    ensures Safe(Next(s, Tick(e)))
  {
    SamePutSameStep(s, e);
    TickIsSafe(s, e.(putOk := true));
  }

  lemma {:induction false} SamePutSameStep(s: System, e: Env)
    requires !ActivatesAt(s, Tick(e))
    ensures Next(s, Tick(e)) == Next(s, Tick(e.(putOk := true)))
  {
  }

  // A restart that cannot read the record starts afresh, which is safe unless the restriction is off.
  lemma {:induction false} UnreadRestart(s: System, e: Env)
    requires Recoverable(s.w) && !e.getOk
    ensures Safe(Next(s, Restart(e))) <==> HasRestriction(s.w.rule)
  {
  }

  lemma {:induction false} StepIsSafeExactly(s: System, ev: Event)
    requires Safe(s) || (ev.Restart? && Recoverable(s.w))
    ensures Safe(Next(s, ev)) <==> BucketServes(s, ev)
  {
    match ev {
      case Tick(e) =>
        if !ActivatesAt(s, ev) { SafeTickWithoutPut(s, e); }
        else if e.putOk { TickIsSafe(s, e); }
        else { UnsavedTickIsUnsafe(s, e); }
      case Restart(e) =>
        if e.getOk { RestartIsSafe(s, e); } else { UnreadRestart(s, e); }
    }
  }

  // After each event of the run.
  ghost predicate SafeThroughout(s: System, evs: seq<Event>) {
    evs == [] || (SafeThroughout(s, evs[..|evs| - 1]) && Safe(Run(s, evs)))
  }

  // At each event of the run.
  ghost predicate BucketServesThroughout(s: System, evs: seq<Event>) {
    evs == [] ||
    var front := evs[..|evs| - 1];
    BucketServesThroughout(s, front) && BucketServes(Run(s, front), evs[|evs| - 1])
  }

  // A run from a recoverable world is safe after each of its events exactly when the bucket serves
  // each activation and each restart during an outage; no other S3 call matters.
  lemma {:induction false} SafeExactlyWhenServed(s: System, evs: seq<Event>)
    requires Recoverable(s.w) && evs != [] && evs[0].Restart?
    ensures SafeThroughout(s, evs) <==> BucketServesThroughout(s, evs)
    decreases |evs|
  {
    var front := evs[..|evs| - 1];
    if front != [] { SafeExactlyWhenServed(s, front); }
    if SafeThroughout(s, front) { StepIsSafeExactly(Run(s, front), evs[|evs| - 1]); }
  }

  // The process watches the site as if the restriction were there.
  predicate Forgotten(s: System) {
    !HasRestriction(s.w.rule) && s.p.phase == Monitoring
  }

  // The step reads a record of this rule.
  predicate ReadsRecord(s: System, ev: Event) {
    ev.Restart? && ev.env.getOk && OwnRecord(s.w).Some?
  }

  // What a restart during an outage leads to when its get fails.
  lemma {:induction false} UnreadOutageIsForgotten(s: System, e: Env)
    requires !HasRestriction(s.w.rule) && !e.getOk
    ensures Forgotten(Next(s, Restart(e))) && Next(s, Restart(e)).w.record == s.w.record
  {
  }

  lemma {:induction false} ForgottenStep(s: System, ev: Event)
    requires Forgotten(s)
    ensures Forgotten(Next(s, ev)) <==> !ReadsRecord(s, ev)
    ensures !ReadsRecord(s, ev) ==> Next(s, ev).w.rule == s.w.rule && Next(s, ev).w.record == s.w.record
  {
  }

  ghost predicate ForgottenThroughout(s: System, evs: seq<Event>) {
    Forgotten(Run(s, evs)) && (evs == [] || ForgottenThroughout(s, evs[..|evs| - 1]))
  }

  // That lasts, however long and whatever the load balancer answers, exactly until a restart reads a
  // record: for ever when there is none.
  lemma {:induction false} ForgottenUntilRead(s: System, evs: seq<Event>)
    requires Forgotten(s)
    ensures ForgottenThroughout(s, evs) <==> forall i :: 0 <= i < |evs| ==> !ReadsRecord(s, evs[i])
    ensures ForgottenThroughout(s, evs) ==> Run(s, evs).w.rule == s.w.rule && Run(s, evs).w.record == s.w.record
    decreases |evs|
  {
    if evs != [] {
      var n := |evs| - 1;
      var front := evs[..n];
      ForgottenUntilRead(s, front);
      assert forall i :: 0 <= i < n ==> front[i] == evs[i];
      if ForgottenThroughout(s, front) {
        ForgottenStep(Run(s, front), evs[n]);
      } else {
        var i :| 0 <= i < |front| && ReadsRecord(s, front[i]);
        assert ReadsRecord(s, evs[i]);
      }
    }
  }

  // Nothing remembers that the restriction is off.
  predicate Orphaned(s: System) {
    !HasRestriction(s.w.rule) && OwnRecord(s.w) == None && s.p.phase != Activated
  }

  // No run ever recovers from that, whatever the load balancer and S3 answer.
  lemma {:induction false} OrphanedForever(s: System, evs: seq<Event>)
    requires Orphaned(s)
    ensures Orphaned(Run(s, evs)) && Run(s, evs).w.rule == s.w.rule
    decreases |evs|
  {
    if evs != [] {
      OrphanedForever(s, evs[..|evs| - 1]);
    }
  }

  // An activation whose S3 put fails, followed by a restart, orphans the rule exactly when no
  // older record of this rule happened to be left in S3.
  lemma {:induction false} UnsavedActivation(s: System, e: Env, e': Env)
    requires Safe(s) && ActivatesAt(s, Tick(e)) && !e.putOk
    ensures Orphaned(Next(Next(s, Tick(e)), Restart(e'))) <==> OwnRecord(s.w) == None
  {
    RemovedKeepsOthers(s.w.rule);
    var methods := if OwnRecord(s.w).Some? then OwnRecord(s.w).value.methods.GetOr(DEFAULT_METHODS) else Null;
    RestoredKeepsOthers(Removed(s.w.rule), methods, Null);
  }
}
