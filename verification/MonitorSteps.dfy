/**
 * What each step of the monitor does, in full and in plain terms, and what it promises over time:
 * that a grace period ends, and that the site is watched again after an activation
 * (cron/monitor_website.py:50-51, 602-776).
 */
module MonitorSteps {
  import opened AlbRule
  import opened Monitor
  import opened Wrappers

  // A loop pass that watches the site. Two failed checks in a row take the restriction off.
  lemma {:induction false} WatchStep(s: System, e: Env)
    requires s.p.phase == Monitoring
    ensures var n := Next(s, Tick(e));
      var down := s.p.testMode || !e.siteUp;
      var acts := down && s.p.failures + 1 >= 2 && e.describeOk && HasRestriction(s.w.rule) && e.modifyOk;
      var methods := if e.readOk then ReadMethods(s.w.rule) else List([Text("GET"), Text("POST")]);
      && (n.p.phase == Activated <==> acts)
      && (!down ==> n.p == s.p.(failures := 0))
      && (down && !acts ==> n.p == s.p.(failures := s.p.failures + 1))
      && (!acts ==> n.w == s.w.(clock := s.w.clock + e.before + e.after))
      && (acts ==>
            && n.p == s.p.(failures := s.p.failures + 1, phase := Activated,
                           activatedAt := Some(s.w.clock + e.before), methods := Some(methods))
            && n.w.rule == Removed(s.w.rule)
            && n.w.record == (if e.putOk then Some(Record(s.w.clock + e.before, Some(methods), LISTENER_RULE_ARN))
                              else s.w.record)
            && n.w.clock == s.w.clock + e.before + e.after)
  {
  }

  // A loop pass during an activation. After an hour the restriction is put back.
  lemma {:induction false} ActivatedStep(s: System, e: Env, since: real)
    requires s.p.phase == Activated && s.p.activatedAt == Some(since)
    ensures var n := Next(s, Tick(e));
      var due := s.w.clock + e.before - since >= 3600.0 && e.describeOk && (HasRestriction(s.w.rule) || e.modifyOk);
      && (n.p.phase == GracePeriod <==> due)
      && (due ==>
            && n.p.failures == 0 && n.p.activatedAt == None && n.p.methods == None
            && n.p.graceStart == Some(n.w.clock) && n.p.testMode == s.p.testMode
            && n.w.rule == Restored(s.w.rule, s.p.methods.GetOr(Null))
            && n.w.record == (if e.deleteOk then None else s.w.record))
      && (!due ==> n.p == s.p && n.w.rule == s.w.rule && n.w.record == s.w.record)
      && n.w.clock == s.w.clock + e.before + e.after
  {
  }

  // A loop pass during the grace period. After five minutes the site is watched again.
  lemma {:induction false} GraceStep(s: System, e: Env, since: real)
    requires s.p.phase == GracePeriod && s.p.graceStart == Some(since)
    ensures var n := Next(s, Tick(e));
      var over := s.w.clock + e.before - since >= 300.0;
      && (n.p.phase == Monitoring <==> over)
      && (over ==> n.p == s.p.(phase := Monitoring, graceStart := None, failures := 0))
      && (!over ==> n.p == s.p)
      && n.w == s.w.(clock := s.w.clock + e.before + e.after)
  {
  }

  // A restart. Without a record of this rule it starts afresh; an expired activation is ended, any
  // other is resumed.
  lemma {:induction false} RestartStep(s: System, e: Env)
    ensures var n := Next(s, Restart(e));
      var r := if e.getOk && s.w.record.Some? && s.w.record.value.ruleArn == LISTENER_RULE_ARN then s.w.record else None;
      && n.w.clock == s.w.clock + e.before + e.after && n.p.testMode == s.p.testMode && n.p.failures == 0
      && (r == None ==> n.p.phase == Monitoring && n.w.rule == s.w.rule && n.w.record == s.w.record)
      && (r.Some? ==>
            var methods := r.value.methods.GetOr(List([Text("GET"), Text("POST")]));
            var over := s.w.clock + e.before - r.value.activatedAt >= 3600.0
                        && e.describeOk && (HasRestriction(s.w.rule) || e.modifyOk);
            && (over ==>
                  && n.p.phase == GracePeriod && n.p.graceStart == Some(n.w.clock)
                  && n.w.rule == Restored(s.w.rule, methods)
                  && n.w.record == (if e.deleteOk then None else s.w.record))
            && (!over ==>
                  && n.p.phase == Activated && n.p.activatedAt == Some(r.value.activatedAt)
                  && n.p.methods == Some(methods)
                  && n.w.rule == s.w.rule && n.w.record == s.w.record))
  {
  }

  // ----- What happens in the end

  predicate AllTicks(evs: seq<Event>) {
    forall i :: 0 <= i < |evs| ==> evs[i].Tick?
  }

  // Some prefix of the run ends in this phase.
  ghost predicate Reaches(s: System, evs: seq<Event>, phase: Phase) {
    exists j :: 0 <= j <= |evs| && Run(s, evs[..j]).p.phase == phase
  }

  lemma {:induction false} ReachesLonger(s: System, evs: seq<Event>, n: nat, phase: Phase)
    requires n <= |evs| && Reaches(s, evs[..n], phase)
    ensures Reaches(s, evs, phase)
  {
    var j :| 0 <= j <= n && Run(s, evs[..n][..j]).p.phase == phase;
    assert evs[..n][..j] == evs[..j];
  }

  lemma {:induction false} ReachesHere(s: System, evs: seq<Event>)
    ensures Reaches(s, evs, Run(s, evs).p.phase)
  {
    assert evs[..|evs|] == evs;
  }

  lemma {:induction false} ReachesSooner(s: System, evs: seq<Event>, phase: Phase)
    requires evs != [] && Reaches(s, evs[..|evs| - 1], phase)
    ensures Reaches(s, evs, phase)
  {
    ReachesLonger(s, evs, |evs| - 1, phase);
  }

  // Until then the process waits, with its fields as they were.
  lemma {:induction false} GraceWaits(s: System, evs: seq<Event>, since: real)
    requires s.p.phase == GracePeriod && s.p.graceStart == Some(since) && AllTicks(evs)
    ensures Reaches(s, evs, Monitoring) || Run(s, evs).p == s.p
    decreases |evs|
  {
    if evs != [] {
      var front, last := evs[..|evs| - 1], evs[|evs| - 1];
      GraceWaits(s, front, since);
      if Reaches(s, front, Monitoring) {
        ReachesSooner(s, evs, Monitoring);
      } else {
        GraceStep(Run(s, front), last.env, since);
        ReachesHere(s, evs);
      }
    }
  }

  // Every grace period ends: once a loop pass falls five minutes after its start, with no restart
  // between, the site is watched again.
  lemma {:induction false} GraceEnds(s: System, evs: seq<Event>, since: real)
    requires s.p.phase == GracePeriod && s.p.graceStart == Some(since) && AllTicks(evs) && evs != []
    requires Run(s, evs[..|evs| - 1]).w.clock + evs[|evs| - 1].env.before - since >= 300.0
    ensures Reaches(s, evs, Monitoring)
  {
    var front, last := evs[..|evs| - 1], evs[|evs| - 1];
    GraceWaits(s, front, since);
    if Reaches(s, front, Monitoring) {
      ReachesSooner(s, evs, Monitoring);
    } else {
      GraceStep(Run(s, front), last.env, since);
      ReachesHere(s, evs);
    }
  }

  lemma {:induction false} ActivationWaits(s: System, evs: seq<Event>, since: real)
    requires s.p.phase == Activated && s.p.activatedAt == Some(since) && AllTicks(evs)
    ensures Reaches(s, evs, GracePeriod) || Run(s, evs).p == s.p
    decreases |evs|
  {
    if evs != [] {
      var front, last := evs[..|evs| - 1], evs[|evs| - 1];
      ActivationWaits(s, front, since);
      if Reaches(s, front, GracePeriod) {
        ReachesSooner(s, evs, GracePeriod);
      } else {
        ActivatedStep(Run(s, front), last.env, since);
        ReachesHere(s, evs);
      }
    }
  }

  // Every activation ends, whatever became of the rule: once a loop pass falls an hour after it and its
  // load-balancer calls work, the grace period has begun.
  lemma {:induction false} ActivationEnds(s: System, evs: seq<Event>, since: real)
    requires s.p.phase == Activated && s.p.activatedAt == Some(since) && AllTicks(evs) && evs != []
    requires evs[|evs| - 1].env.describeOk && evs[|evs| - 1].env.modifyOk
    requires Run(s, evs[..|evs| - 1]).w.clock + evs[|evs| - 1].env.before - since >= 3600.0
    ensures Reaches(s, evs, GracePeriod)
  {
    var front, last := evs[..|evs| - 1], evs[|evs| - 1];
    ActivationWaits(s, front, since);
    if Reaches(s, front, GracePeriod) {
      ReachesSooner(s, evs, GracePeriod);
    } else {
      ActivatedStep(Run(s, front), last.env, since);
      ReachesHere(s, evs);
    }
  }

  // The time a run takes.
  function Duration(evs: seq<Event>): real {
    if evs == [] then 0.0
    else Duration(evs[..|evs| - 1]) + evs[|evs| - 1].env.before + evs[|evs| - 1].env.after
  }

  lemma {:induction false} TimePasses(s: System, evs: seq<Event>)
    ensures Run(s, evs).w.clock == s.w.clock + Duration(evs)
    decreases |evs|
  {
    if evs != [] { TimePasses(s, evs[..|evs| - 1]); }
  }
}
