/** `sensitiveRateLimit`: a per-key sliding-window limiter. Each key (the
    client address) maps to the timestamps, in milliseconds, of its admitted
    requests; a request is refused with 429 when the key already holds `max`
    timestamps younger than `windowMs`. */
module RateLimit {
  import opened Seqs

  /** `windowMs = 15 * 60 * 1000`. */
  const DefaultWindowMs: int := 15 * 60 * 1000
  /** `max = 5`. */
  const DefaultMax: int := 5

  datatype Limiter = Limiter(windowMs: int, max: int, attempts: map<string, seq<int>>)

  /** `sensitiveRateLimit(windowMs, max)`: a limiter with no history. */
  function NewLimiter(windowMs: int, max: int): Limiter
  {
    Limiter(windowMs, max, map[])
  }

  /** `sensitiveRateLimit()` with its defaults. */
  function DefaultLimiter(): (l: Limiter)
    ensures l.windowMs == 900000 && l.max == 5 && l.attempts == map[]
  {
    NewLimiter(DefaultWindowMs, DefaultMax)
  }

  /** The stored history of `key`; a key never seen has none. */
  function History(l: Limiter, key: string): seq<int>
  {
    if key in l.attempts then l.attempts[key] else []
  }

  /** `t` falls inside the window ending at `now`. */
  predicate InWindow(t: int, now: int, windowMs: int)
  {
    now - t < windowMs
  }

  /** `userAttempts.filter(time => now - time < windowMs)`. */
  function Recent(hist: seq<int>, now: int, windowMs: int): seq<int>
  {
    Filter(hist, (t: int) => InWindow(t, now, windowMs))
  }

  datatype Decision = Decision(limiter: Limiter, allowed: bool)

  /** One request from `key` at time `now`. */
  function Check(l: Limiter, key: string, now: int): (d: Decision)
    ensures d.limiter.windowMs == l.windowMs && d.limiter.max == l.max
    ensures key in d.limiter.attempts
    ensures forall k :: k != key ==> (k in d.limiter.attempts <==> k in l.attempts)
    ensures forall k :: k != key && k in l.attempts ==> d.limiter.attempts[k] == l.attempts[k]
  {
    var recent := Recent(History(l, key), now, l.windowMs);
    if |recent| >= l.max then
      Decision(l.(attempts := l.attempts[key := History(l, key)]), false)
    else
      Decision(l.(attempts := l.attempts[key := recent + [now]]), true)
  }

  /** Refused iff the key already holds `max` or more in-window timestamps. */
  lemma CheckRefusesIffFull(l: Limiter, key: string, now: int)
    ensures !Check(l, key, now).allowed <==>
      CountWhere(History(l, key), (t: int) => InWindow(t, now, l.windowMs)) >= l.max
  {
    FilterLength(History(l, key), (t: int) => InWindow(t, now, l.windowMs));
  }

  /** A refused request leaves the key's stored history as it was. */
  lemma RefusalKeepsHistory(l: Limiter, key: string, now: int)
    requires !Check(l, key, now).allowed
    ensures History(Check(l, key, now).limiter, key) == History(l, key)
  {
  }

  /** An admitted request stores exactly the in-window entries followed by `now`. */
  lemma AdmissionStoresWindow(l: Limiter, key: string, now: int)
    requires Check(l, key, now).allowed
    ensures var h := History(Check(l, key, now).limiter, key);
      && |h| >= 1 && h[|h| - 1] == now
      && (forall i :: 0 <= i < |h| - 1 ==> InWindow(h[i], now, l.windowMs) && h[i] in History(l, key))
      && (forall i :: 0 <= i < |History(l, key)| && InWindow(History(l, key)[i], now, l.windowMs) ==>
            History(l, key)[i] in h)
      && |h| <= l.max
  {
  }

  /** Every stored history holds at most `max` timestamps. */
  ghost predicate Bounded(l: Limiter)
  {
    forall k :: k in l.attempts ==> |l.attempts[k]| <= l.max
  }

  /** The bound holds from the start and every request keeps it. */
  lemma CheckKeepsBounded(l: Limiter, key: string, now: int)
    requires l.max >= 0 && Bounded(l)
    ensures Bounded(Check(l, key, now).limiter)
  {
  }

  /** A key with no history is admitted whenever `max` is at least one. */
  lemma FreshKeyAdmitted(l: Limiter, key: string, now: int)
    requires key !in l.attempts && l.max >= 1
    ensures Check(l, key, now).allowed
    ensures Check(l, key, now).limiter.attempts[key] == [now]
  {
  }

  /** Requests from one key never change another key's decision. */
  lemma KeysIndependent(l: Limiter, key: string, other: string, now: int, later: int)
    requires key != other
    ensures Check(Check(l, key, now).limiter, other, later).allowed == Check(l, other, later).allowed
  {
    assert History(Check(l, key, now).limiter, other) == History(l, other);
  }

  /** With the defaults, the sixth request within fifteen minutes is refused. */
  lemma DefaultRefusesSixth(key: string)
    ensures var l0 := DefaultLimiter();
      var l5 := Limiter(l0.windowMs, l0.max, map[key := [0, 1, 2, 3, 4]]);
      !Check(l5, key, 5).allowed && Check(l5, key, 900000).allowed
  {
    var l0 := DefaultLimiter();
    var l5 := Limiter(l0.windowMs, l0.max, map[key := [0, 1, 2, 3, 4]]);
    CheckRefusesIffFull(l5, key, 5);
    CheckRefusesIffFull(l5, key, 900000);
  }
}
