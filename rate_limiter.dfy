/** The framework's counter store behind `RateLimiter::tooManyAttempts`,
    `RateLimiter::hit` and `RateLimiter::clear`, used both by the login
    throttle and by the API middleware. A key holds a hit count and the
    length in seconds of the window its first hit opened. The cache's TTL
    is not modelled as a clock: a window running out is the same state
    change as `Clear`, performed by the store itself. */
module RateLimiter {

  datatype Counters = Counters(hits: map<string, nat>, windows: map<string, nat>)

  const Empty: Counters := Counters(map[], map[])

  /** RateLimiter::attempts: the hits recorded for the key, 0 if none. */
  function Attempts(c: Counters, key: string): nat {
    if key in c.hits then c.hits[key] else 0
  }

  /** RateLimiter::tooManyAttempts while the key's window is open. */
  predicate Exceeded(c: Counters, key: string, maxAttempts: nat) {
    Attempts(c, key) >= maxAttempts
  }

  /** RateLimiter::hit: one more hit on the key. The window length is written
      only when the key has none yet (the cache's `add`), so the window of a
      key is fixed by its first hit. */
  function AfterHit(c: Counters, key: string, decaySeconds: nat): (r: Counters)
    ensures Attempts(r, key) == Attempts(c, key) + 1
    ensures forall k :: k != key ==> Attempts(r, k) == Attempts(c, k)
    ensures key in r.windows
    ensures key in c.windows ==> r.windows == c.windows
    ensures key !in c.windows ==> r.windows[key] == decaySeconds
    ensures forall k :: k != key ==> (k in r.windows <==> k in c.windows)
    ensures forall k :: k != key && k in c.windows ==> r.windows[k] == c.windows[k]
  {
    Counters(c.hits[key := Attempts(c, key) + 1],
             if key in c.windows then c.windows else c.windows[key := decaySeconds])
  }

  /** RateLimiter::clear (and the expiry of a window): the key starts from zero
      with no window, every other key is untouched. */
  function AfterClear(c: Counters, key: string): (r: Counters)
    ensures Attempts(r, key) == 0 && key !in r.windows
    ensures forall k :: k != key ==> Attempts(r, k) == Attempts(c, k)
    ensures forall k :: k != key ==> (k in r.windows <==> k in c.windows)
    ensures forall k :: k != key && k in c.windows ==> r.windows[k] == c.windows[k]
  {
    Counters(c.hits - {key}, c.windows - {key})
  }

  /** The shared cache store, updated in place. */
  class CounterStore {
    var hits: map<string, nat>
    var windows: map<string, nat>

    function State(): Counters
      reads this
    {
      Counters(hits, windows)
    }

    constructor ()
      ensures State() == Empty
    {
      hits := map[];
      windows := map[];
    }

    method TooManyAttempts(key: string, maxAttempts: nat) returns (tooMany: bool)
      ensures tooMany <==> Exceeded(State(), key, maxAttempts)
    {
      var attempts := if key in hits then hits[key] else 0;
      tooMany := attempts >= maxAttempts;
    }

    method Hit(key: string, decaySeconds: nat) returns (count: nat)
      modifies this
      ensures State() == AfterHit(old(State()), key, decaySeconds)
      ensures count == Attempts(State(), key)
    {
      if key !in windows {
        windows := windows[key := decaySeconds];
      }
      count := (if key in hits then hits[key] else 0) + 1;
      hits := hits[key := count];
    }

    method Clear(key: string)
      modifies this
      ensures State() == AfterClear(old(State()), key)
    {
      hits := hits - {key};
      windows := windows - {key};
    }
  }
}
