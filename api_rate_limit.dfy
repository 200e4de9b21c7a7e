/** The `ApiRateLimit` middleware: check the caller's counter, refuse with 429
    once it has reached the limit, otherwise count the request and pass it on. */
module ApiRateLimit {
  import opened Common
  import opened Strings
  import opened RateLimiter

  /** The middleware's default parameters: 100 requests per 1-minute window. */
  const DEFAULT_MAX_ATTEMPTS: nat := 100
  const DEFAULT_DECAY_MINUTES: nat := 1

  /** What the middleware looks at: the authenticated user, if any, and the client IP. */
  datatype ApiRequest = ApiRequest(user: Option<UserId>, ip: string)

  /** 429 "Too many requests", or the request handed to the next handler. */
  datatype Response = TooManyRequests | Forwarded

  datatype Handled = Handled(response: Response, counters: Counters)

  /** resolveRequestSignature: the text the source passes to sha1(), namely the
      user's identifier when authenticated and the client IP otherwise. */
  function Signature(req: ApiRequest): (key: string)
    ensures req.user.None? ==> key == req.ip
    ensures req.user.Some? ==> AllDigits(key) && DigitsValue(key) == req.user.value
  {
    match req.user
    case Some(id) =>
      NatToStringRoundTrip(id);
      NatToString(id)
    case None => req.ip
  }

  /** Two authenticated users never share a counter, wherever they connect from. */
  lemma DistinctUsersDistinctKeys(a: ApiRequest, b: ApiRequest)
    requires a.user.Some? && b.user.Some? && a.user != b.user
    ensures Signature(a) != Signature(b)
  {
  }

  /** handle(): refused with the counter untouched once it has reached
      `maxAttempts`; otherwise counted once and forwarded, every other key
      untouched, and a new window lasts `decayMinutes` minutes. */
  function Throttle(c: Counters, req: ApiRequest, maxAttempts: nat, decayMinutes: nat): (r: Handled)
    ensures Exceeded(c, Signature(req), maxAttempts) ==> r == Handled(TooManyRequests, c)
    ensures !Exceeded(c, Signature(req), maxAttempts) ==>
      && r.response == Forwarded
      && Attempts(r.counters, Signature(req)) == Attempts(c, Signature(req)) + 1
      && (forall k :: k != Signature(req) ==> Attempts(r.counters, k) == Attempts(c, k))
      && (Signature(req) !in c.windows ==>
            Signature(req) in r.counters.windows && r.counters.windows[Signature(req)] == decayMinutes * 60)
  {
    var key := Signature(req);
    if Exceeded(c, key, maxAttempts) then Handled(TooManyRequests, c)
    else Handled(Forwarded, AfterHit(c, key, decayMinutes * 60))
  }

  datatype Served = Served(responses: seq<Response>, counters: Counters)

  /** A run of requests through the middleware within one window. */
  function Serve(c: Counters, reqs: seq<ApiRequest>, maxAttempts: nat, decayMinutes: nat): (r: Served)
    ensures |r.responses| == |reqs|
    decreases |reqs|
  {
    if reqs == [] then Served([], c)
    else
      var h := Throttle(c, reqs[0], maxAttempts, decayMinutes);
      var rest := Serve(h.counters, reqs[1..], maxAttempts, decayMinutes);
      Served([h.response] + rest.responses, rest.counters)
  }

  /** How many of the requests with signature `key` were forwarded. */
  function ForwardedFor(reqs: seq<ApiRequest>, responses: seq<Response>, key: string): nat
    requires |reqs| == |responses|
    decreases |reqs|
  {
    if reqs == [] then 0
    else (if Signature(reqs[0]) == key && responses[0] == Forwarded then 1 else 0)
         + ForwardedFor(reqs[1..], responses[1..], key)
  }

  /** Every forwarded request of a key is one hit on it, and the count of a key
      that starts at or below the limit never passes it. */
  lemma {:induction false} ServeCounts(c: Counters, reqs: seq<ApiRequest>, maxAttempts: nat, decayMinutes: nat, key: string)
    ensures var r := Serve(c, reqs, maxAttempts, decayMinutes);
      && Attempts(r.counters, key) == Attempts(c, key) + ForwardedFor(reqs, r.responses, key)
      && (Attempts(c, key) <= maxAttempts ==> Attempts(r.counters, key) <= maxAttempts)
    decreases |reqs|
  {
    if reqs != [] {
      var h := Throttle(c, reqs[0], maxAttempts, decayMinutes);
      var r := Serve(c, reqs, maxAttempts, decayMinutes);
      var rest := Serve(h.counters, reqs[1..], maxAttempts, decayMinutes);
      ServeCounts(h.counters, reqs[1..], maxAttempts, decayMinutes, key);
      assert r.responses[1..] == rest.responses;
    }
  }

  /** Within one window a client gets at most `maxAttempts` requests through,
      whatever else is interleaved with them. */
  lemma AtMostMaxForwarded(c: Counters, reqs: seq<ApiRequest>, maxAttempts: nat, decayMinutes: nat, key: string)
    requires Attempts(c, key) == 0
    ensures ForwardedFor(reqs, Serve(c, reqs, maxAttempts, decayMinutes).responses, key) <= maxAttempts
  {
    ServeCounts(c, reqs, maxAttempts, decayMinutes, key);
  }

  /** The same request repeated `n` times: exactly as many are forwarded as the
      remaining budget allows, the rest are refused. */
  lemma {:induction false} RepeatedRequest(c: Counters, req: ApiRequest, n: nat, maxAttempts: nat, decayMinutes: nat)
    ensures var reqs := seq(n, _ => req);
      var key := Signature(req);
      ForwardedFor(reqs, Serve(c, reqs, maxAttempts, decayMinutes).responses, key)
        == if Attempts(c, key) >= maxAttempts then 0
           else if n <= maxAttempts - Attempts(c, key) then n
           else maxAttempts - Attempts(c, key)
    decreases n
  {
    var reqs := seq(n, _ => req);
    if n > 0 {
      var h := Throttle(c, req, maxAttempts, decayMinutes);
      var r := Serve(c, reqs, maxAttempts, decayMinutes);
      var rest := Serve(h.counters, reqs[1..], maxAttempts, decayMinutes);
      assert reqs[0] == req;
      assert reqs[1..] == seq(n - 1, _ => req);
      assert r.responses[1..] == rest.responses;
      RepeatedRequest(h.counters, req, n - 1, maxAttempts, decayMinutes);
    }
  }

  /** With the default parameters a fresh client gets 100 requests through and
      the 101st is refused. */
  lemma DefaultLimit(req: ApiRequest)
    ensures var reqs := seq(DEFAULT_MAX_ATTEMPTS + 1, _ => req);
      var r := Serve(Empty, reqs, DEFAULT_MAX_ATTEMPTS, DEFAULT_DECAY_MINUTES);
      ForwardedFor(reqs, r.responses, Signature(req)) == DEFAULT_MAX_ATTEMPTS
  {
    RepeatedRequest(Empty, req, DEFAULT_MAX_ATTEMPTS + 1, DEFAULT_MAX_ATTEMPTS, DEFAULT_DECAY_MINUTES);
  }

  /** The middleware itself, on the shared store. */
  method Handle(store: CounterStore, req: ApiRequest, maxAttempts: nat, decayMinutes: nat) returns (response: Response)
    modifies store
    ensures Handled(response, store.State()) == Throttle(old(store.State()), req, maxAttempts, decayMinutes)
  {
    var key := Signature(req);
    var tooMany := store.TooManyAttempts(key, maxAttempts);
    if tooMany {
      response := TooManyRequests;
      return;
    }
    var count := store.Hit(key, decayMinutes * 60);
    response := Forwarded;
  }
}
