/**
 * The lock around token refresh (cilogon/middleware.py:164-219): `cache.add` with a timeout to
 * enter, an unconditional `cache.delete` to leave. Any number of requests are interleaved;
 * `cache.add` and `cache.delete` are atomic.
 */
module RefreshLock {

  const TIMEOUT: real := 10.0

  type Duration = d: real | d >= 0.0

  type Request = nat

  // A cache entry, and the request that put it there (which the cache value does not tell).
  datatype Lock = Lock(expires: real, owner: Request)

  datatype Stay = Stay(user: int, entered: real)

  // The locks of the cache by user id, the requests inside the locked section, and the time.
  datatype State = State(locks: map<int, Lock>, inside: map<Request, Stay>, clock: real)

  datatype Event =
    | Acquire(wait: Duration, request: Request, user: int)
    | Release(wait: Duration, request: Request)

  const START := State(map[], map[], 0.0)

  predicate Free(locks: map<int, Lock>, user: int, now: real) {
    user in locks ==> now >= locks[user].expires
  }

  // A request enters at most once at a time, and releases only what it has entered.
  function Next(s: State, ev: Event): State {
    var now := s.clock + ev.wait;
    match ev
    case Acquire(_, r, user) =>
      if r !in s.inside && Free(s.locks, user, now) then
        State(s.locks[user := Lock(now + TIMEOUT, r)], s.inside[r := Stay(user, now)], now)
      else s.(clock := now)
    case Release(_, r) =>
      if r in s.inside then State(s.locks - {s.inside[r].user}, s.inside - {r}, now)
      else s.(clock := now)
  }

  function Run(evs: seq<Event>): State {
    if evs == [] then START else Next(Run(evs[..|evs| - 1]), evs[|evs| - 1])
  }

  /** The cache as the middleware uses it. */
  class LockCache {
    var locks: map<int, Lock>

    constructor ()
      ensures locks == map[]
    {
      locks := map[];
    }

    // `acquire_refresh_lock`, by `cache.add`.
    method AcquireRefreshLock(user: int, owner: Request, now: real) returns (acquired: bool)
      modifies this
      ensures acquired == Free(old(locks), user, now)
      ensures locks == if acquired then old(locks)[user := Lock(now + TIMEOUT, owner)] else old(locks)
    {
      if user in locks && now < locks[user].expires { return false; }
      locks := locks[user := Lock(now + TIMEOUT, owner)];
      acquired := true;
    }

    // `release_refresh_lock`, by `cache.delete`.
    method ReleaseRefreshLock(user: int)
      modifies this
      ensures locks == old(locks) - {user}
    {
      locks := locks - {user};
    }
  }

  // What entering and leaving do to the cache and to the requests inside: as the middleware's two calls.
  lemma {:induction false} EnterStep(s: State, wait: Duration, r: Request, user: int)
    ensures var n, now := Next(s, Acquire(wait, r, user)), s.clock + wait;
      var enters := r !in s.inside && (user !in s.locks || now >= s.locks[user].expires);
      && n.clock == now
      && n.inside == (if enters then s.inside[r := Stay(user, now)] else s.inside)
      && n.locks == (if enters then s.locks[user := Lock(now + 10.0, r)] else s.locks)
  {
  }

  lemma {:induction false} LeaveStep(s: State, wait: Duration, r: Request)
    ensures var n := Next(s, Release(wait, r));
      && n.clock == s.clock + wait && r !in n.inside
      && (forall q :: q != r ==> (q in n.inside <==> q in s.inside))
      && (forall u :: u in n.locks <==> u in s.locks && !(r in s.inside && s.inside[r].user == u))
  {
  }

  // ----- Mutual exclusion

  // No two requests of one user are inside together.
  predicate Exclusive(s: State) {
    forall r, q :: r in s.inside && q in s.inside && s.inside[r].user == s.inside[q].user ==> r == q
  }

  // Nobody has stayed inside for `limit` when the next event happens.
  predicate NoneOverstays(s: State, ev: Event, limit: real) {
    forall r :: r in s.inside ==> s.clock + ev.wait < s.inside[r].entered + limit
  }

  ghost predicate StaysBelow(evs: seq<Event>, limit: real) {
    forall i :: 0 <= i < |evs| ==> NoneOverstays(Run(evs[..i]), evs[i], limit)
  }

  // Every request inside holds the lock of its user.
  predicate HoldersHold(s: State) {
    forall r :: r in s.inside ==>
      s.inside[r].user in s.locks && s.locks[s.inside[r].user] == Lock(s.inside[r].entered + TIMEOUT, r)
  }

  lemma {:induction false} StepKeepsLocks(s: State, ev: Event)
    requires HoldersHold(s) && NoneOverstays(s, ev, TIMEOUT)
    ensures HoldersHold(Next(s, ev))
  {
  }

  lemma {:induction false} RunKeepsLocks(evs: seq<Event>, limit: real)
    requires limit <= TIMEOUT && StaysBelow(evs, limit)
    ensures HoldersHold(Run(evs))
    decreases |evs|
  {
    if evs != [] {
      var n := |evs| - 1;
      forall i | 0 <= i < n ensures NoneOverstays(Run(evs[..n][..i]), evs[..n][i], limit) {
        assert evs[..n][..i] == evs[..i];
      }
      RunKeepsLocks(evs[..n], limit);
      StepKeepsLocks(Run(evs[..n]), evs[n]);
    }
  }

  // When every holder leaves before the timeout, a release deletes the releasing request's own lock.
  lemma {:induction false} ReleasesOwnLock(evs: seq<Event>, r: Request)
    requires StaysBelow(evs, TIMEOUT) && r in Run(evs).inside
    ensures var user := Run(evs).inside[r].user; user in Run(evs).locks && Run(evs).locks[user].owner == r
  {
    RunKeepsLocks(evs, TIMEOUT);
  }

  ghost predicate AlwaysExclusive(limit: real) {
    forall evs: seq<Event> :: StaysBelow(evs, limit) ==> Exclusive(Run(evs))
  }

  // A bound on how long a request may stay inside guarantees mutual exclusion in every run exactly
  // when it does not exceed the lock's timeout.
  lemma {:induction false} ExclusiveIffStaysWithinTimeout(limit: real)
    ensures AlwaysExclusive(limit) <==> limit <= 10.0
  {
    if limit <= TIMEOUT {
      forall evs: seq<Event> | StaysBelow(evs, limit) ensures Exclusive(Run(evs)) {
        RunKeepsLocks(evs, limit);
      }
    } else {
      var a, b := Acquire(0.0, 1, 7), Acquire(TIMEOUT, 2, 7);
      TwoEnter(7);
      TwoStay(limit);
      var inside := Run([a, b]).inside;
      assert 1 in inside && 2 in inside && inside[1].user == inside[2].user;
    }
  }

  lemma {:induction false} TwoEnter(user: int)
    ensures Run([Acquire(0.0, 1, user)]) == State(map[user := Lock(TIMEOUT, 1)], map[1 := Stay(user, 0.0)], 0.0)
    ensures Run([Acquire(0.0, 1, user), Acquire(TIMEOUT, 2, user)]) ==
            State(map[user := Lock(TIMEOUT + TIMEOUT, 2)], map[1 := Stay(user, 0.0), 2 := Stay(user, TIMEOUT)], TIMEOUT)
  {
    var a, b := Acquire(0.0, 1, user), Acquire(TIMEOUT, 2, user);
    assert [a][..0] == [] && [a, b][..1] == [a];
  }

  // Every request inside holds a lock it put there itself, so that its release deletes no other's.
  predicate OwnersInside(s: State) {
    forall r :: r in s.inside ==> s.inside[r].user in s.locks && s.locks[s.inside[r].user].owner == r
  }

  ghost predicate AlwaysOwners(limit: real) {
    forall evs: seq<Event> :: StaysBelow(evs, limit) ==> OwnersInside(Run(evs))
  }

  // The same bound decides whether a release can ever delete another request's lock.
  lemma {:induction false} OwnersIffStayWithinTimeout(limit: real)
    ensures AlwaysOwners(limit) <==> limit <= 10.0
  {
    if limit <= TIMEOUT {
      forall evs: seq<Event> | StaysBelow(evs, limit) ensures OwnersInside(Run(evs)) {
        RunKeepsLocks(evs, limit);
      }
    } else {
      var a, b := Acquire(0.0, 1, 7), Acquire(TIMEOUT, 2, 7);
      TwoEnter(7);
      TwoStay(limit);
      assert StaysBelow([a, b], limit) && 1 in Run([a, b]).inside;
    }
  }

  // No two requests of one user are inside together that have both kept to the timeout.
  ghost predicate TimelyExclusive(s: State) {
    forall r, q :: Timely(s, r) && Timely(s, q) && s.inside[r].user == s.inside[q].user ==> r == q
  }

  predicate Timely(s: State, r: Request) {
    r in s.inside && s.clock < s.inside[r].entered + TIMEOUT
  }

  ghost predicate AlwaysTimelyExclusive(limit: real) {
    forall evs: seq<Event> :: StaysBelow(evs, limit) ==> TimelyExclusive(Run(evs))
  }

  // It even decides whether requests that keep to the timeout are safe from each other: one that
  // overstays, by however little, deletes its successor's lock and lets a third one in.
  lemma {:induction false} TimelyIffStayWithinTimeout(limit: real)
    ensures AlwaysTimelyExclusive(limit) <==> limit <= 10.0
  {
    if limit <= TIMEOUT {
      forall evs: seq<Event> | StaysBelow(evs, limit) ensures TimelyExclusive(Run(evs)) {
        RunKeepsLocks(evs, limit);
      }
    } else {
      var evs := [Acquire(0.0, 1, 7), Acquire(TIMEOUT, 2, 7), Release(0.0, 1), Acquire(0.0, 3, 7)];
      FourStay(limit);
      OverstayerFreesAnotherLock(7);
      var s := Run(evs);
      assert StaysBelow(evs, limit) && 2 in s.inside && 3 in s.inside;
    }
  }

  lemma {:induction false} TwoStay(limit: real)
    requires limit > TIMEOUT
    ensures StaysBelow([Acquire(0.0, 1, 7), Acquire(TIMEOUT, 2, 7)], limit)
  {
    var a, b := Acquire(0.0, 1, 7), Acquire(TIMEOUT, 2, 7);
    TwoEnter(7);
    forall i | 0 <= i < 2 ensures NoneOverstays(Run([a, b][..i]), [a, b][i], limit) {
      assert [a, b][..0] == [] && [a, b][..1] == [a];
    }
  }

  lemma {:induction false} FourStay(limit: real)
    requires limit > TIMEOUT
    ensures StaysBelow([Acquire(0.0, 1, 7), Acquire(TIMEOUT, 2, 7), Release(0.0, 1), Acquire(0.0, 3, 7)], limit)
  {
    var a, b, c, d := Acquire(0.0, 1, 7), Acquire(TIMEOUT, 2, 7), Release(0.0, 1), Acquire(0.0, 3, 7);
    var evs := [a, b, c, d];
    TwoEnter(7);
    ThirdEnters(7);
    forall i | 0 <= i < 4 ensures NoneOverstays(Run(evs[..i]), evs[i], limit) {
      assert evs[..0] == [] && evs[..1] == [a] && evs[..2] == [a, b] && evs[..3] == [a, b, c];
    }
  }

  lemma {:induction false} ThirdEnters(user: int)
    ensures Run([Acquire(0.0, 1, user), Acquire(TIMEOUT, 2, user), Release(0.0, 1)]) ==
            State(map[], map[2 := Stay(user, TIMEOUT)], TIMEOUT)
  {
    TwoEnter(user);
    var a, b, c := Acquire(0.0, 1, user), Acquire(TIMEOUT, 2, user), Release(0.0, 1);
    assert [a, b, c][..2] == [a, b];
    var s := Run([a, b]);
    assert s.locks - {user} == map[] && s.inside - {1} == map[2 := Stay(user, TIMEOUT)];
  }

  lemma {:induction false} OverstayerFreesAnotherLock(user: int)
    ensures var s := Run([Acquire(0.0, 1, user), Acquire(TIMEOUT, 2, user), Release(0.0, 1), Acquire(0.0, 3, user)]);
      && 2 in s.inside && 3 in s.inside && s.inside[2].user == s.inside[3].user == user
      && s.clock < s.inside[2].entered + TIMEOUT && s.clock < s.inside[3].entered + TIMEOUT
  {
    ThirdEnters(user);
    var a, b, c, d := Acquire(0.0, 1, user), Acquire(TIMEOUT, 2, user), Release(0.0, 1), Acquire(0.0, 3, user);
    assert [a, b, c, d][..3] == [a, b, c];
    assert Run([a, b, c, d]) == Next(Run([a, b, c]), d);
  }
}
