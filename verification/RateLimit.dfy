/**
 * The rate limiter of the membership services (cilogon/sync_apis/sync_class.py:12-34): one
 * counter in the shared cache per function name, whose timeout starts afresh with every
 * accepted call. Calls are handled one at a time, in order of time.
 */
module RateLimit {
  // A cache value and the time from which the cache no longer returns it.
  datatype Entry = Entry(count: nat, expires: real)

  type Cache = map<string, Entry>

  // A call of the wrapped function `func` of some service.
  datatype Call = Call(service: string, func: string, at: real)

  function KeyOf(func: string): string {
    "api_rate_limit_" + func
  }

  // `cache.get(key, 0)`
  function CachedCount(cache: Cache, key: string, now: real): nat {
    if key in cache && now < cache[key].expires then cache[key].count else 0
  }

  /** The cache backend. */
  class SharedCache {
    var entries: Cache

    constructor ()
      ensures entries == map[]
    {
      entries := map[];
    }

    method Get(key: string, now: real) returns (count: nat)
      ensures count == CachedCount(entries, key, now)
    {
      count := if key in entries && now < entries[key].expires then entries[key].count else 0;
    }

    method Set(key: string, count: nat, now: real, timeout: real)
      modifies this
      ensures entries == old(entries)[key := Entry(count, now + timeout)]
    {
      entries := entries[key := Entry(count, now + timeout)];
    }
  }

  // ----- The limiter

  predicate Accepts(cache: Cache, c: Call, maxCalls: nat) {
    CachedCount(cache, KeyOf(c.func), c.at) < maxCalls
  }

  function After(cache: Cache, c: Call, maxCalls: nat, period: real): Cache {
    var key := KeyOf(c.func);
    if Accepts(cache, c, maxCalls) then cache[key := Entry(CachedCount(cache, key, c.at) + 1, c.at + period)] else cache
  }

  function CacheAfter(calls: seq<Call>, maxCalls: nat, period: real): Cache {
    if calls == [] then map[]
    else After(CacheAfter(calls[..|calls| - 1], maxCalls, period), calls[|calls| - 1], maxCalls, period)
  }

  // Is the last of these calls accepted?
  predicate LastAccepted(calls: seq<Call>, maxCalls: nat, period: real)
    requires calls != []
  {
    Accepts(CacheAfter(calls[..|calls| - 1], maxCalls, period), calls[|calls| - 1], maxCalls)
  }

  // The times of the accepted calls of one function, whatever the service.
  function AcceptedTimes(calls: seq<Call>, func: string, maxCalls: nat, period: real): seq<real> {
    if calls == [] then []
    else
      AcceptedTimes(calls[..|calls| - 1], func, maxCalls, period)
      + (if calls[|calls| - 1].func == func && LastAccepted(calls, maxCalls, period) then [calls[|calls| - 1].at] else [])
  }

  // The wrapper around the limited function: true when the call goes through, false for its APIError.
  method Limited(cache: SharedCache, c: Call, maxCalls: nat, period: real) returns (accepted: bool)
    modifies cache
    ensures accepted == Accepts(old(cache.entries), c, maxCalls)
    ensures cache.entries == After(old(cache.entries), c, maxCalls, period)
  {
    var key := "api_rate_limit_" + c.func;
    var current := cache.Get(key, c.at);
    if current >= maxCalls { return false; }
    cache.Set(key, current + 1, c.at, period);
    accepted := true;
  }

  // ----- What the counter means

  ghost predicate InOrder(calls: seq<Call>) {
    forall i, j :: 0 <= i < j < |calls| ==> calls[i].at <= calls[j].at
  }

  ghost predicate Rising(times: seq<real>) {
    forall i, j :: 0 <= i < j < |times| ==> times[i] <= times[j]
  }

  // How many accepted calls end the list with less than `period` between each two of them.
  function Chain(times: seq<real>, period: real): nat {
    if times == [] then 0
    else
      var n := |times| - 1;
      1 + (if n > 0 && times[n] - times[n - 1] < period then Chain(times[..n], period) else 0)
  }

  // The chain that a call at `now` would continue.
  function ChainAt(times: seq<real>, now: real, period: real): nat {
    if times != [] && now - times[|times| - 1] < period then Chain(times, period) else 0
  }

  // The cache holds the chain of the accepted calls, until `period` after the last of them.
  predicate Counts(cache: Cache, func: string, times: seq<real>, period: real) {
    if times == [] then KeyOf(func) !in cache
    else KeyOf(func) in cache && cache[KeyOf(func)] == Entry(Chain(times, period), times[|times| - 1] + period)
  }

  lemma {:induction false} KeysApart(f: string, g: string)
    ensures KeyOf(f) == KeyOf(g) ==> f == g
  {
    var n := |"api_rate_limit_"|;
    assert KeyOf(f)[n..] == f && KeyOf(g)[n..] == g;
  }

  lemma {:induction false} AcceptedAreCalls(calls: seq<Call>, func: string, maxCalls: nat, period: real)
    requires InOrder(calls)
    ensures var times := AcceptedTimes(calls, func, maxCalls, period);
      && Rising(times)
      && (times != [] ==> calls != [] && times[|times| - 1] <= calls[|calls| - 1].at)
    decreases |calls|
  {
    if calls != [] {
      AcceptedAreCalls(calls[..|calls| - 1], func, maxCalls, period);
    }
  }

  lemma {:induction false} ChainGrows(times: seq<real>, now: real, period: real)
    ensures Chain(times + [now], period) == ChainAt(times, now, period) + 1
  {
    assert (times + [now])[..|times|] == times;
  }

  // The cached counter is the length of the current chain, for every function.
  lemma {:induction false} CounterIsChain(calls: seq<Call>, func: string, maxCalls: nat, period: real)
    requires period > 0.0
    ensures Counts(CacheAfter(calls, maxCalls, period), func, AcceptedTimes(calls, func, maxCalls, period), period)
    decreases |calls|
  {
    if calls != [] {
      var front, c := calls[..|calls| - 1], calls[|calls| - 1];
      var times := AcceptedTimes(front, func, maxCalls, period);
      CounterIsChain(front, func, maxCalls, period);
      if c.func == func {
        var cache := CacheAfter(front, maxCalls, period);
        ChainGrows(times, c.at, period);
        assert CachedCount(cache, KeyOf(func), c.at) == ChainAt(times, c.at, period);
        assert AcceptedTimes(calls, func, maxCalls, period) ==
               if Accepts(cache, c, maxCalls) then times + [c.at] else times;
      } else {
        KeysApart(c.func, func);
        assert AcceptedTimes(calls, func, maxCalls, period) == times;
      }
    }
  }

  // A call goes through exactly when the accepted calls of its function, each less than `period`
  // after the one before and the last less than `period` ago, are fewer than `maxCalls`.
  lemma {:induction false} AcceptedIffChainShort(calls: seq<Call>, maxCalls: nat, period: real)
    requires period > 0.0 && calls != []
    ensures var c := calls[|calls| - 1];
      LastAccepted(calls, maxCalls, period) <==>
      ChainAt(AcceptedTimes(calls[..|calls| - 1], c.func, maxCalls, period), c.at, period) < maxCalls
  {
    CounterIsChain(calls[..|calls| - 1], calls[|calls| - 1].func, maxCalls, period);
  }

  // A pause of `period` after the last accepted call always suffices.
  lemma {:induction false} PauseSuffices(calls: seq<Call>, maxCalls: nat, period: real)
    requires period > 0.0 && calls != [] && maxCalls >= 1
    requires var c := calls[|calls| - 1];
      var times := AcceptedTimes(calls[..|calls| - 1], c.func, maxCalls, period);
      times == [] || c.at - times[|times| - 1] >= period
    ensures LastAccepted(calls, maxCalls, period)
  {
    AcceptedIffChainShort(calls, maxCalls, period);
  }

  // ----- The sliding window

  function CountIn(times: seq<real>, from: real, period: real): nat {
    if times == [] then 0
    else
      var t := times[|times| - 1];
      CountIn(times[..|times| - 1], from, period) + (if from <= t < from + period then 1 else 0)
  }

  lemma {:induction false} NoneBefore(times: seq<real>, from: real, period: real)
    requires forall i :: 0 <= i < |times| ==> times[i] < from
    ensures CountIn(times, from, period) == 0
    decreases |times|
  {
    if times != [] { NoneBefore(times[..|times| - 1], from, period); }
  }

  // Calls inside one window are less than `period` apart, so they belong to one chain.
  lemma {:induction false} WindowWithinChain(times: seq<real>, from: real, period: real)
    requires Rising(times) && times != [] && from <= times[|times| - 1] < from + period
    ensures CountIn(times, from, period) <= Chain(times, period)
    decreases |times|
  {
    var n := |times| - 1;
    if n > 0 {
      if times[n - 1] >= from {
        WindowWithinChain(times[..n], from, period);
      } else {
        NoneBefore(times[..n], from, period);
      }
    }
  }

  // No window of length `period` holds more than `maxCalls` accepted calls of one function name,
  // all services together.
  lemma {:induction false} WindowBound(calls: seq<Call>, func: string, maxCalls: nat, period: real, from: real)
    requires InOrder(calls) && period > 0.0
    ensures CountIn(AcceptedTimes(calls, func, maxCalls, period), from, period) <= maxCalls
    decreases |calls|
  {
    if calls != [] {
      var front, c := calls[..|calls| - 1], calls[|calls| - 1];
      var before, times := AcceptedTimes(front, func, maxCalls, period), AcceptedTimes(calls, func, maxCalls, period);
      WindowBound(front, func, maxCalls, period, from);
      if c.func == func && LastAccepted(calls, maxCalls, period) {
        assert times == before + [c.at] && times[..|times| - 1] == before;
        AcceptedIffChainShort(calls, maxCalls, period);
        ChainGrows(before, c.at, period);
        AcceptedAreCalls(calls, func, maxCalls, period);
        if from <= c.at < from + period {
          WindowWithinChain(times, from, period);
        } else {
          assert CountIn(times, from, period) == CountIn(before, from, period);
        }
      } else {
        assert times == before;
      }
    }
  }

  // ----- Stricter than a window

  function Ticks(gap: real, k: nat): real {
    if k == 0 then 0.0 else Ticks(gap, k - 1) + gap
  }

  // `n` calls, one every `gap`.
  function Steady(func: string, gap: real, n: nat): seq<Call> {
    if n == 0 then [] else Steady(func, gap, n - 1) + [Call("any", func, Ticks(gap, n - 1))]
  }

  lemma {:induction false} SteadyAccepted(func: string, gap: real, n: nat, maxCalls: nat, period: real)
    requires 0.0 < gap < period && n <= maxCalls
    ensures var times := AcceptedTimes(Steady(func, gap, n), func, maxCalls, period);
      && |times| == n && Chain(times, period) == n
      && (n > 0 ==> times[n - 1] == Ticks(gap, n - 1))
  {
    if n > 0 {
      var calls := Steady(func, gap, n);
      var times := AcceptedTimes(Steady(func, gap, n - 1), func, maxCalls, period);
      SteadyAccepted(func, gap, n - 1, maxCalls, period);
      assert calls[..|calls| - 1] == Steady(func, gap, n - 1) && calls[|calls| - 1].at == Ticks(gap, n - 1);
      AcceptedIffChainShort(calls, maxCalls, period);
      ChainGrows(times, Ticks(gap, n - 1), period);
      SteadyTimes(func, gap, n, maxCalls, period);
    }
  }

  lemma {:induction false} SteadyTimes(func: string, gap: real, n: nat, maxCalls: nat, period: real)
    requires n > 0 && LastAccepted(Steady(func, gap, n), maxCalls, period)
    ensures AcceptedTimes(Steady(func, gap, n), func, maxCalls, period) ==
            AcceptedTimes(Steady(func, gap, n - 1), func, maxCalls, period) + [Ticks(gap, n - 1)]
  {
    var calls := Steady(func, gap, n);
    assert calls[..|calls| - 1] == Steady(func, gap, n - 1);
  }

  // A caller that never pauses for a whole `period` is refused after `maxCalls` calls, however low
  // its rate: the timeout was pushed back by each of them.
  lemma {:induction false} SteadyCallerIsRefused(func: string, gap: real, maxCalls: nat, period: real)
    requires 0.0 < gap < period && maxCalls >= 1
    ensures !LastAccepted(Steady(func, gap, maxCalls + 1), maxCalls, period)
  {
    var calls := Steady(func, gap, maxCalls + 1);
    assert calls[..|calls| - 1] == Steady(func, gap, maxCalls);
    SteadyAccepted(func, gap, maxCalls, maxCalls, period);
    AcceptedIffChainShort(calls, maxCalls, period);
  }
}
