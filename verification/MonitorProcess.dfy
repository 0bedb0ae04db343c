/**
 * The monitor as the program runs it: an object whose fields the handlers update in place,
 * acting on a world it does not own. Each method is tied to the state machine of `Monitor`;
 * `MonitorLoop` then inherits the theorems about runs.
 */
module MonitorProcess {
  import opened AlbRule
  import opened Monitor
  import opened MonitorRuns
  import opened Wrappers

  /** The load balancer, the S3 bucket and the clock. Calls take the answer they will get. */
  class Outside {
    var rule: seq<Condition>
    var record: Option<Record>
    var clock: real

    constructor (w: World)
      ensures View() == w
    {
      rule, record, clock := w.rule, w.record, w.clock;
    }

    ghost function View(): World
      reads this
    {
      World(rule, record, clock)
    }

    method DescribeRule(ok: bool) returns (r: Option<seq<Condition>>)
      ensures r == if ok then Some(rule) else None
    {
      r := if ok then Some(rule) else None;
    }

    method ModifyRule(conditions: seq<Condition>, ok: bool)
      modifies `rule
      ensures rule == if ok then conditions else old(rule)
    {
      if ok { rule := conditions; }
    }

    method PutRecord(r: Record, ok: bool)
      modifies `record
      ensures record == if ok then Some(r) else old(record)
    {
      if ok { record := Some(r); }
    }

    method GetRecord(ok: bool) returns (r: Option<Record>)
      ensures r == if ok then record else None
    {
      r := if ok then record else None;
    }

    method DeleteRecord(ok: bool)
      modifies `record
      ensures record == if ok then None else old(record)
    {
      if ok { record := None; }
    }

    method Elapse(d: Duration)
      modifies `clock
      ensures clock == old(clock) + d
    {
      clock := clock + d;
    }
  }

  class Process {
    var consecutiveFailures: nat
    var phase: Phase
    var activatedAt: Option<real>
    var originalHttpMethods: Option<Json>
    var gracePeriodStart: Option<real>
    const testMode: bool
    const outside: Outside

    constructor (outside: Outside, testMode: bool)
      ensures this.outside == outside && this.testMode == testMode
      ensures View() == System(Fresh(testMode), outside.View())
    {
      consecutiveFailures, phase := 0, Monitoring;
      activatedAt, originalHttpMethods, gracePeriodStart := None, None, None;
      this.testMode, this.outside := testMode, outside;
    }

    ghost function View(): System
      reads this, outside
    {
      System(
        Monitor.Process(consecutiveFailures, phase, activatedAt, originalHttpMethods, gracePeriodStart, testMode),
        outside.View())
    }

    method RemoveHttpMethodRestriction(e: Env) returns (done: bool)
      modifies outside
      ensures done == RemoveSucceeds(old(outside.View()), e)
      ensures outside.View() ==
              if done then old(outside.View()).(rule := Removed(old(outside.rule))) else old(outside.View())
    {
      var current := outside.DescribeRule(e.describeOk);
      if current == None { return false; }
      var kept := Others(current.value);
      OthersAreUnrestricted(current.value);
      if |kept| == |current.value| { return false; }
      outside.ModifyRule(NormalizeAll(kept), e.modifyOk);
      done := e.modifyOk;
    }

    method RestoreHttpMethodRestriction(methods: Json, e: Env) returns (done: bool)
      modifies outside
      ensures done == RestoreSucceeds(old(outside.View()), e)
      ensures outside.View() ==
              if done then old(outside.View()).(rule := Restored(old(outside.rule), methods)) else old(outside.View())
    {
      var current := outside.DescribeRule(e.describeOk);
      if current == None { return false; }
      for i := 0 to |current.value|
        invariant forall k :: 0 <= k < i ==> !RestrictsMethods(current.value[k])
        invariant outside.View() == old(outside.View())
      {
        if RestrictsMethods(current.value[i]) { return true; }
      }
      outside.ModifyRule(NormalizeAll(current.value) + [MethodCondition(methods)], e.modifyOk);
      done := e.modifyOk;
    }

    method CheckActivationTimeout(e: Env)
      modifies this, outside
      ensures View() == ActivationTimeout(old(View()), e)
    {
      if phase != Activated || activatedAt == None { return; }
      var now := outside.clock + e.before;
      if now - activatedAt.value < ACTIVATION_DURATION { return; }
      var done := RestoreHttpMethodRestriction(originalHttpMethods.GetOr(Null), e);
      if done {
        outside.DeleteRecord(e.deleteOk);
        phase := GracePeriod;
        gracePeriodStart := Some(now + e.after);
        activatedAt := None;
        originalHttpMethods := None;
        consecutiveFailures := 0;
      }
    }

    method CheckGracePeriod(e: Env)
      modifies this
      ensures View() == GraceCheck(old(View()), e)
    {
      if phase != GracePeriod || gracePeriodStart == None { return; }
      var elapsed := outside.clock + e.before - gracePeriodStart.value;
      if elapsed >= GRACE_PERIOD_DURATION {
        phase := Monitoring;
        gracePeriodStart := None;
        consecutiveFailures := 0;
      }
    }

    method InitializeStateFromS3(e: Env)
      requires View().p == Fresh(testMode)
      modifies this, outside
      ensures View() == Initialize(old(View()), e)
    {
      var saved := outside.GetRecord(e.getOk);
      if saved == None { return; }
      if saved.value.ruleArn != LISTENER_RULE_ARN { return; }
      var savedAt := saved.value.activatedAt;
      var methods := saved.value.methods.GetOr(DEFAULT_METHODS);
      var now := outside.clock + e.before;
      if now - savedAt >= ACTIVATION_DURATION {
        var done := RestoreHttpMethodRestriction(methods, e);
        if done {
          outside.DeleteRecord(e.deleteOk);
          phase := GracePeriod;
          gracePeriodStart := Some(now + e.after);
        } else {
          phase := Activated;
          activatedAt := Some(savedAt);
          originalHttpMethods := Some(methods);
        }
      } else {
        phase := Activated;
        activatedAt := Some(savedAt);
        originalHttpMethods := Some(methods);
      }
    }

    method HandleSiteUp()
      modifies this
      ensures View() == SiteUp(old(View()))
    {
      consecutiveFailures := 0;
    }

    // The methods to put back later: those of the first method condition, or the default ones.
    method ReadOriginalMethods(e: Env) returns (methods: Json)
      ensures methods == OriginalMethods(outside.View(), e)
    {
      var current := outside.DescribeRule(e.readOk);
      methods := DEFAULT_METHODS;
      if current.Some? {
        for i := 0 to |current.value|
          invariant methods == DEFAULT_METHODS
          invariant ReadMethods(current.value) == ReadMethods(current.value[i..])
        {
          if RestrictsMethods(current.value[i]) {
            return MethodsOf(current.value[i]);
          }
        }
      }
    }

    method HandleSiteDown(e: Env)
      modifies this, outside
      ensures View() == SiteDown(old(View()), e)
    {
      consecutiveFailures := consecutiveFailures + 1;
      if consecutiveFailures >= SITE_DOWN_THRESHOLD && phase == Monitoring {
        var methods := ReadOriginalMethods(e);
        var now := outside.clock + e.before;
        var done := RemoveHttpMethodRestriction(e);
        if done {
          phase := Activated;
          activatedAt := Some(now);
          originalHttpMethods := Some(methods);
          outside.PutRecord(Record(now, Some(methods), LISTENER_RULE_ARN), e.putOk);
        }
      }
    }

    // The events of a process that starts and then loops once for each further environment.
    static ghost function EventsOf(envs: seq<Env>): seq<Event>
      requires envs != []
    {
      if |envs| == 1 then [Restart(envs[0])]
      else EventsOf(envs[..|envs| - 1]) + [Tick(envs[|envs| - 1])]
    }

    static lemma {:induction false} EventsOfStarts(envs: seq<Env>)
      requires envs != []
      ensures |EventsOf(envs)| == |envs| && EventsOf(envs)[0].Restart?
      ensures forall i :: 0 <= i < |envs| ==> EventsOf(envs)[i].env == envs[i]
    {
      if |envs| > 1 { EventsOfStarts(envs[..|envs| - 1]); }
    }

    static lemma RunOfStep(s: System, envs: seq<Env>, n: nat)
      requires 0 < n < |envs|
      ensures Run(s, EventsOf(envs[..n + 1])) == Next(Run(s, EventsOf(envs[..n])), Tick(envs[n]))
    {
      assert envs[..n + 1][..n] == envs[..n];
      var evs := EventsOf(envs[..n + 1]);
      assert evs[..|evs| - 1] == EventsOf(envs[..n]);
    }

    static ghost predicate ReliableBucket(envs: seq<Env>) {
      forall i :: 0 <= i < |envs| ==> envs[i].putOk && envs[i].getOk
    }

    method LoopPass(e: Env)
      modifies this, outside
      ensures View() == Next(old(View()), Tick(e))
    {
      match phase {
        case Monitoring =>
          if testMode || !e.siteUp { HandleSiteDown(e); } else { HandleSiteUp(); }
        case Activated => CheckActivationTimeout(e);
        case GracePeriod => CheckGracePeriod(e);
      }
      outside.Elapse(e.before + e.after);
    }

    // The life of one process, until it is interrupted. Whatever world it is started in, it follows
    // the state machine; started in a recoverable world with a reliable bucket, it is safe.
    method MonitorLoop(envs: seq<Env>)
      requires envs != [] && View().p == Fresh(testMode)
      modifies this, outside
      ensures View() == Run(old(View()), EventsOf(envs))
      ensures Recoverable(old(outside.View())) && ReliableBucket(envs) ==> Safe(View())
    {
      ghost var start := View();
      InitializeStateFromS3(envs[0]);
      outside.Elapse(envs[0].before + envs[0].after);
      assert envs[..1] == [envs[0]];
      assert View() == Next(start, Restart(envs[0])) == Run(start, [Restart(envs[0])]);
      for n := 1 to |envs|
        invariant View() == Run(start, EventsOf(envs[..n]))
      {
        LoopPass(envs[n]);
        RunOfStep(start, envs, n);
      }
      assert envs[..|envs|] == envs;
      if Recoverable(start.w) && ReliableBucket(envs) {
        EventsOfStarts(envs);
        EveryRunIsSafe(start, EventsOf(envs));
      }
    }
  }
}
