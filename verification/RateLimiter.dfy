/**
 * Per-key fixed-window rate limiting with a lazy sweep. Times are seconds of a
 * monotonic clock; a key stands for its digest, which is taken to be injective.
 */
module RateLimiter {

  datatype Window = Window(start: real, count: nat)

  type Buckets = map<string, Window>

  datatype Answer = PassedThrough | Admitted | Rejected(retryAfter: int)

  const WINDOW := 60.0
  const EXEMPT_PATHS: set<string> := {"/health", "/ready", "/docs", "/openapi.json", "/metrics"}

  /** The window a request of `key` is judged in: the stored one, or a fresh one when absent or expired. */
  function WindowFor(buckets: Buckets, key: string, now: real): Window {
    var w := if key in buckets then buckets[key] else Window(now, 0);
    if now - w.start > WINDOW then Window(now, 0) else w
  }

  /** int() truncates toward zero. */
  function Truncate(x: real): int {
    if x >= 0.0 then x.Floor else -((-x).Floor)
  }

  function RetryAfter(elapsed: real): int {
    var seconds := Truncate(WINDOW - elapsed);
    if seconds > 1 then seconds else 1
  }

  function Judge(buckets: Buckets, limit: nat, key: string, now: real): Answer {
    var w := WindowFor(buckets, key, now);
    if w.count >= limit then Rejected(RetryAfter(now - w.start)) else Admitted
  }

  /** What an admitted request stores. */
  function Count(buckets: Buckets, key: string, now: real): Buckets {
    var w := WindowFor(buckets, key, now);
    buckets[key := Window(w.start, w.count + 1)]
  }

  function Swept(buckets: Buckets, now: real): Buckets {
    map k | k in buckets && now - buckets[k].start <= WINDOW :: buckets[k]
  }

  datatype Limiter = Limiter(buckets: Buckets, lastSweep: real)

  /** The state after one limited request. */
  function Handle(l: Limiter, limit: nat, key: string, now: real): Limiter {
    if Judge(l.buckets, limit, key, now) != Admitted then l
    else
      var counted := Count(l.buckets, key, now);
      if now - l.lastSweep > WINDOW then Limiter(Swept(counted, now), now) else Limiter(counted, l.lastSweep)
  }

  class Middleware {
    var buckets: map<string, Window>
    var lastSweep: real
    const limit: int

    constructor (limit: int)
      ensures this.limit == limit && State() == Limiter(map[], 0.0)
    {
      this.limit := limit;
      buckets, lastSweep := map[], 0.0;
    }

    function State(): Limiter
      reads this
    {
      Limiter(buckets, lastSweep)
    }

    method Dispatch(path: string, apiKey: string, now: real) returns (answer: Answer)
      modifies this
      ensures path in EXEMPT_PATHS || limit <= 0 || apiKey == "" ==> answer == PassedThrough && State() == old(State())
      ensures !(path in EXEMPT_PATHS || limit <= 0 || apiKey == "") ==>
        answer == Judge(old(buckets), limit, apiKey, now) && State() == Handle(old(State()), limit, apiKey, now)
    {
      if path in EXEMPT_PATHS || limit <= 0 { return PassedThrough; }
      if apiKey == "" { return PassedThrough; }
      var w := if apiKey in buckets then buckets[apiKey] else Window(now, 0);
      if now - w.start > WINDOW {
        w := Window(now, 0);
      }
      if w.count >= limit {
        return Rejected(RetryAfter(now - w.start));
      }
      buckets := buckets[apiKey := Window(w.start, w.count + 1)];
      if now - lastSweep > WINDOW {
        lastSweep := now;
        Sweep(now);
      }
      answer := Admitted;
    }

    /** The sweep at the end of an admitted request. */
    method Sweep(now: real)
      modifies this`buckets
      ensures buckets == Swept(old(buckets), now)
    {
      ghost var counted := buckets;
      var stale := set k | k in buckets && now - buckets[k].start > WINDOW;
      while stale != {}
        invariant stale <= buckets.Keys
        invariant forall k | k in buckets :: k in counted && buckets[k] == counted[k]
        invariant forall k | k in counted :: if k in buckets then k in stale <==> now - counted[k].start > WINDOW else now - counted[k].start > WINDOW
        decreases stale
      {
        var k :| k in stale;
        buckets := buckets - {k};
        stale := stale - {k};
      }
    }
  }
}
