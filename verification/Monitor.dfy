/**
 * The website monitor as a state machine (cron/monitor_website.py:44-51, 178-199, 529-780).
 *
 * The process state is `Process`; the outside world is the listener rule, the S3 object and
 * the clock. An `Env` says how the outside answers during one step: the site check, every
 * AWS call, and how much time passes before and after the AWS calls.
 */
module Monitor {
  import opened AlbRule
  import opened Wrappers

  const SITE_DOWN_THRESHOLD: nat := 2
  const ACTIVATION_DURATION: real := 3600.0
  const GRACE_PERIOD_DURATION: real := 300.0
  const LISTENER_RULE_ARN :=
    "arn:aws:elasticloadbalancing:us-east-1:755997884632:listener-rule/app/hcommons-prod-alb/cd92f60f938442a3/7bf51009f05e0d44/a33ced76e84ab9c3"

  type Duration = d: real | d >= 0.0

  datatype Phase = Monitoring | Activated | GracePeriod

  datatype Process = Process(
    failures: nat,
    phase: Phase,
    activatedAt: Option<real>,
    methods: Option<Json>,
    graceStart: Option<real>,
    testMode: bool)

  datatype Record = Record(activatedAt: real, methods: Option<Json>, ruleArn: string)

  datatype World = World(rule: seq<Condition>, record: Option<Record>, clock: real)

  datatype System = System(p: Process, w: World)

  datatype Env = Env(
    siteUp: bool,
    readOk: bool,      // the describe-rules call that reads the original methods
    describeOk: bool,  // the describe-rules call inside removal or restoration
    modifyOk: bool,    // modify-rule
    putOk: bool,       // S3 put
    getOk: bool,       // S3 get
    deleteOk: bool,    // S3 delete
    before: Duration,  // time until the step first reads the clock
    after: Duration)   // time until it reads the clock again

  datatype Event = Tick(env: Env) | Restart(env: Env)

  function Fresh(testMode: bool): Process {
    Process(0, Monitoring, None, None, None, testMode)
  }

  // The S3 object, when it belongs to this listener rule.
  function OwnRecord(w: World): Option<Record> {
    if w.record.Some? && w.record.value.ruleArn == LISTENER_RULE_ARN then w.record else None
  }

  // Does `remove_http_method_restriction` return true?
  predicate RemoveSucceeds(w: World, e: Env) {
    e.describeOk && HasRestriction(w.rule) && e.modifyOk
  }

  // Does `restore_http_method_restriction` return true?
  predicate RestoreSucceeds(w: World, e: Env) {
    e.describeOk && (HasRestriction(w.rule) || e.modifyOk)
  }

  function Elapse(w: World, e: Env): World {
    w.(clock := w.clock + e.before + e.after)
  }

  function SiteUp(s: System): System {
    s.(p := s.p.(failures := 0))
  }

  function OriginalMethods(w: World, e: Env): Json {
    if e.readOk then ReadMethods(w.rule) else DEFAULT_METHODS
  }

  // `handle_site_down` gets past its threshold and takes the restriction off.
  predicate Activates(s: System, e: Env) {
    s.p.failures + 1 >= SITE_DOWN_THRESHOLD && s.p.phase == Monitoring && RemoveSucceeds(s.w, e)
  }

  function SiteDown(s: System, e: Env): System {
    if Activates(s, e) then
      var now := s.w.clock + e.before;
      var methods := OriginalMethods(s.w, e);
      var record := if e.putOk then Some(Record(now, Some(methods), LISTENER_RULE_ARN)) else s.w.record;
      System(
        s.p.(failures := s.p.failures + 1, phase := Activated, activatedAt := Some(now), methods := Some(methods)),
        s.w.(rule := Removed(s.w.rule), record := record))
    else
      s.(p := s.p.(failures := s.p.failures + 1))
  }

  // A successful restoration followed by the attempt to delete the S3 object.
  function RestoreRule(w: World, methods: Json, e: Env): World {
    w.(rule := Restored(w.rule, methods), record := if e.deleteOk then None else w.record)
  }

  function ActivationTimeout(s: System, e: Env): System {
    var now := s.w.clock + e.before;
    if s.p.phase != Activated || s.p.activatedAt == None then s
    else if now - s.p.activatedAt.value < ACTIVATION_DURATION then s
    else if RestoreSucceeds(s.w, e) then
      System(
        Process(0, GracePeriod, None, None, Some(now + e.after), s.p.testMode),
        RestoreRule(s.w, s.p.methods.GetOr(Null), e))
    else s
  }

  function GraceCheck(s: System, e: Env): System {
    if s.p.phase != GracePeriod || s.p.graceStart == None then s
    else if s.w.clock + e.before - s.p.graceStart.value >= GRACE_PERIOD_DURATION then
      s.(p := s.p.(phase := Monitoring, graceStart := None, failures := 0))
    else s
  }

  // `initialize_state_from_s3`, run by a process that has just started.
  function Initialize(s: System, e: Env): System {
    if !e.getOk || OwnRecord(s.w) == None then s
    else
      var saved := OwnRecord(s.w).value;
      var methods := saved.methods.GetOr(DEFAULT_METHODS);
      var now := s.w.clock + e.before;
      if now - saved.activatedAt >= ACTIVATION_DURATION && RestoreSucceeds(s.w, e) then
        System(s.p.(phase := GracePeriod, graceStart := Some(now + e.after)), RestoreRule(s.w, methods, e))
      else
        s.(p := s.p.(phase := Activated, activatedAt := Some(saved.activatedAt), methods := Some(methods)))
  }

  predicate SiteCheckFails(p: Process, e: Env) {
    p.testMode || !e.siteUp
  }

  // One pass of the loop body of `monitor_loop`, before time is counted.
  function LoopBody(s: System, e: Env): System {
    match s.p.phase
    case Monitoring => if SiteCheckFails(s.p, e) then SiteDown(s, e) else SiteUp(s)
    case Activated => ActivationTimeout(s, e)
    case GracePeriod => GraceCheck(s, e)
  }

  function Next(s: System, ev: Event): System {
    var done := match ev
      case Tick(e) => LoopBody(s, e)
      case Restart(e) => Initialize(System(Fresh(s.p.testMode), s.w), e);
    done.(w := Elapse(done.w, ev.env))
  }

  function Run(s: System, evs: seq<Event>): System {
    if evs == [] then s else Next(Run(s, evs[..|evs| - 1]), evs[|evs| - 1])
  }
}
