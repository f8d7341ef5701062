/** What the limiter does over whole runs of requests on a clock that never goes back. */
module RateLimiterRuns {
  import opened Arithmetic
  import opened RateLimiter

  datatype Event = Event(key: string, now: real)

  ghost predicate Clocked(events: seq<Event>) {
    && (forall i | 0 <= i < |events| :: events[i].now >= 0.0)
    && (forall i, j | 0 <= i < j < |events| :: events[i].now <= events[j].now)
  }

  /** The middleware's state after a run. */
  ghost function After(events: seq<Event>, limit: nat): Limiter
    decreases |events|
  {
    if events == [] then Limiter(map[], 0.0)
    else Handle(After(events[..|events| - 1], limit), limit, events[|events| - 1].key, events[|events| - 1].now)
  }

  /** The reference: the buckets of a limiter that never deletes one. */
  ghost function Kept(events: seq<Event>, limit: nat): Buckets
    decreases |events|
  {
    if events == [] then map[]
    else
      var e, before := events[|events| - 1], Kept(events[..|events| - 1], limit);
      if Judge(before, limit, e.key, e.now) == Admitted then Count(before, e.key, e.now) else before
  }

  /** The middleware's answer to the last request of a run. */
  ghost function AnswerTo(events: seq<Event>, limit: nat): Answer
    requires events != []
  {
    Judge(After(events[..|events| - 1], limit).buckets, limit, events[|events| - 1].key, events[|events| - 1].now)
  }

  /** How many requests of `key` timed in [from, to] the middleware admitted. */
  ghost function AdmittedIn(events: seq<Event>, limit: nat, key: string, from: real, to: real): nat
    decreases |events|
  {
    if events == [] then 0
    else
      var e := events[|events| - 1];
      AdmittedIn(events[..|events| - 1], limit, key, from, to)
      + (if e.key == key && from <= e.now <= to && AnswerTo(events, limit) == Admitted then 1 else 0)
  }

  // ----- sweeping is invisible -----

  /** The swept buckets are the kept ones, minus some that have expired by `now`. */
  ghost predicate SweptFrom(swept: Buckets, kept: Buckets, now: real) {
    && (forall k | k in swept :: k in kept && swept[k] == kept[k])
    && (forall k | k in kept :: k !in swept ==> now - kept[k].start > WINDOW)
  }

  lemma {:induction false} SweptStaysClose(events: seq<Event>, limit: nat, now: real)
    requires Clocked(events) && (events != [] ==> events[|events| - 1].now <= now)
    ensures SweptFrom(After(events, limit).buckets, Kept(events, limit), now)
    decreases |events|
  {
    if events != [] {
      var front, e := events[..|events| - 1], events[|events| - 1];
      SweptStaysClose(front, limit, e.now);
    }
  }

  /** The sweeping middleware answers every request of every run as one that never deletes a bucket would. */
  lemma SweepIsInvisible(events: seq<Event>, limit: nat)
    requires Clocked(events) && events != []
    ensures AnswerTo(events, limit)
         == Judge(Kept(events[..|events| - 1], limit), limit, events[|events| - 1].key, events[|events| - 1].now)
  {
    var front, e := events[..|events| - 1], events[|events| - 1];
    SweptStaysClose(front, limit, e.now);
  }

  // ----- memory is bounded in time -----

  lemma {:induction false} StartsFollowSweep(events: seq<Event>, limit: nat)
    requires Clocked(events)
    ensures var l := After(events, limit);
      && 0.0 <= l.lastSweep && (events != [] ==> l.lastSweep <= events[|events| - 1].now)
      && forall k | k in l.buckets :: l.buckets[k].start >= l.lastSweep - WINDOW
    decreases |events|
  {
    if events != [] {
      StartsFollowSweep(events[..|events| - 1], limit);
    }
  }

  /** After each admitted request, every stored window began within the last two window lengths. */
  lemma StoredWindowsAreRecent(events: seq<Event>, limit: nat)
    requires Clocked(events) && events != [] && AnswerTo(events, limit) == Admitted
    ensures forall k | k in After(events, limit).buckets ::
      After(events, limit).buckets[k].start >= events[|events| - 1].now - 2.0 * WINDOW
  {
    StartsFollowSweep(events, limit);
    StartsFollowSweep(events[..|events| - 1], limit);
  }

  // ----- the sliding bound -----

  /** The kept window of a key is never ahead of the clock nor over the limit. */
  lemma {:induction false} KeptWindows(events: seq<Event>, limit: nat)
    requires Clocked(events)
    ensures forall k | k in Kept(events, limit) ::
      1 <= Kept(events, limit)[k].count <= limit && Kept(events, limit)[k].start <= events[|events| - 1].now
    ensures events == [] ==> Kept(events, limit) == map[]
    decreases |events|
  {
    if events != [] {
      KeptWindows(events[..|events| - 1], limit);
    }
  }

  /**
   * `counted` admissions since `from` fit into the current window w and m full ones before it.
   * If the first of these windows opened at or after `from`, windows can only start later;
   * if it opened before, its opening request is not counted.
   */
  ghost predicate Fits(counted: nat, m: nat, w: Window, limit: nat, from: real) {
    || (counted <= m * limit + w.count && w.start >= from + WINDOW * m as real && (m >= 1 ==> w.start > from + WINDOW * m as real))
    || (counted + 1 <= m * limit + w.count && w.start >= from + WINDOW * (m - 1) as real && (m >= 1 ==> w.start > from + WINDOW * (m - 1) as real))
  }

  lemma {:induction false} WindowsChain(events: seq<Event>, limit: nat, key: string, from: real, to: real) returns (m: nat)
    requires Clocked(events) && limit >= 1
    requires events != [] ==> events[|events| - 1].now <= to
    requires AdmittedIn(events, limit, key, from, to) > 0
    ensures key in Kept(events, limit)
    ensures Fits(AdmittedIn(events, limit, key, from, to), m, Kept(events, limit)[key], limit, from)
    decreases |events|
  {
    var front, e := events[..|events| - 1], events[|events| - 1];
    SweepIsInvisible(events, limit);
    KeptWindows(front, limit);
    var before := Kept(front, limit);
    var counted := AdmittedIn(front, limit, key, from, to);
    var admitted := e.key == key && AnswerTo(events, limit) == Admitted;
    assert Clocked(front);
    hide After, AnswerTo, Fits, Clocked;
    m := 0;
    if counted > 0 {
      m := WindowsChain(front, limit, key, from, to);
      if admitted {
        if e.now - before[key].start > WINDOW {
          NextWindow(counted, m, before[key], limit, from, e.now);
          m := m + 1;
        } else {
          SameWindow(counted, m, before[key], limit, from);
        }
      }
    } else {
      FirstFit(WindowFor(before, key, e.now), limit, from, e.now);
    }
  }

  lemma SameWindow(counted: nat, m: nat, w: Window, limit: nat, from: real)
    requires Fits(counted, m, w, limit, from)
    ensures Fits(counted, m, Window(w.start, w.count + 1), limit, from)
    ensures Fits(counted + 1, m, Window(w.start, w.count + 1), limit, from)
  {
  }

  lemma FirstFit(w: Window, limit: nat, from: real, now: real)
    requires from <= now && now - w.start <= WINDOW && (w.count == 0 ==> w.start == now)
    ensures Fits(1, 0, Window(w.start, w.count + 1), limit, from)
  {
  }

  lemma NextWindow(counted: nat, m: nat, w: Window, limit: nat, from: real, now: real)
    requires Fits(counted, m, w, limit, from) && w.count <= limit && now - w.start > WINDOW
    ensures Fits(counted + 1, m + 1, Window(now, 1), limit, from)
  {
    assert (m + 1) * limit == m * limit + limit;
    assert WINDOW * (m + 1) as real == WINDOW * m as real + WINDOW;
    assert WINDOW * (m - 1) as real + WINDOW == WINDOW * m as real;
  }

  /** The number of 60-second windows an interval of this length spans, rounded up. */
  function WindowsIn(length: real): int {
    -((-(length / WINDOW)).Floor)
  }

  function SlidingBound(length: real, limit: nat): int {
    if length <= 0.0 then limit else (WindowsIn(length) + 1) * limit - 1
  }

  lemma FitsWithin(counted: nat, m: nat, w: Window, limit: nat, from: real, length: real)
    requires Fits(counted, m, w, limit, from) && limit >= 1 && 1 <= w.count <= limit && counted >= 1
    requires w.start <= from + length && length >= 0.0
    ensures counted <= SlidingBound(length, limit)
  {
    var c := WindowsIn(length);
    var x := length / WINDOW;
    assert x * WINDOW == length;
    assert -x - 1.0 < (-x).Floor as real <= -x;
    assert x <= c as real < x + 1.0;
    if counted <= m * limit + w.count && w.start >= from + WINDOW * m as real && (m >= 1 ==> w.start > from + WINDOW * m as real) {
      if m >= 1 {
        assert WINDOW * m as real < length;
        assert m as real < x;
        assert m + 1 <= c;
        Monotone(m + 1, c, limit);
      } else if length > 0.0 {
        assert x > 0.0;
        Monotone(1, c, limit);
      }
      assert (m + 1) * limit == m * limit + limit;
      assert (c + 1) * limit == c * limit + limit;
    } else {
      if m >= 1 {
        assert WINDOW * (m - 1) as real < length;
        assert (m - 1) as real < x;
        assert m <= c;
      } else if length > 0.0 {
        assert x > 0.0;
      }
      assert length <= 0.0 ==> m == 0;
      if length > 0.0 { Monotone(m + 1, c + 1, limit); }
      assert (m + 1) * limit == m * limit + limit;
    }
  }

  /**
   * In every run and for every key, a closed interval of length L > 0 admits at most
   * (ceil(L/60) + 1) * limit - 1 requests, and a single instant at most `limit`.
   */
  lemma {:induction false} SlidingBoundHolds(events: seq<Event>, limit: nat, key: string, from: real, length: real)
    requires Clocked(events) && limit >= 1 && length >= 0.0
    ensures AdmittedIn(events, limit, key, from, from + length) <= SlidingBound(length, limit)
    decreases |events|
  {
    var to := from + length;
    if AdmittedIn(events, limit, key, from, to) > 0 {
      if events[|events| - 1].now > to {
        SlidingBoundHolds(events[..|events| - 1], limit, key, from, length);
      } else {
        var m := WindowsChain(events, limit, key, from, to);
        KeptWindows(events, limit);
        FitsWithin(AdmittedIn(events, limit, key, from, to), m, Kept(events, limit)[key], limit, from, length);
      }
    } else {
      BoundIsNonnegative(length, limit);
    }
  }

  lemma BoundIsNonnegative(length: real, limit: nat)
    requires limit >= 1 && length >= 0.0
    ensures SlidingBound(length, limit) >= 0
  {
    if length > 0.0 {
      assert length / WINDOW > 0.0;
      assert WindowsIn(length) >= 1;
      Monotone(2, WindowsIn(length) + 1, limit);
    }
  }

  /** In particular any minute admits at most 2 * limit - 1 requests of a key. */
  lemma AnyMinute(events: seq<Event>, limit: nat, key: string, from: real)
    requires Clocked(events) && limit >= 1
    ensures AdmittedIn(events, limit, key, from, from + 60.0) <= 2 * limit - 1
  {
    SlidingBoundHolds(events, limit, key, from, 60.0);
    assert 60.0 / WINDOW == 1.0;
    assert WindowsIn(60.0) == 1;
  }

  // ----- and the bound is attained -----

  function Burst(key: string, now: real, n: nat): seq<Event> {
    if n == 0 then [] else Burst(key, now, n - 1) + [Event(key, now)]
  }

  lemma {:induction false} BurstShape(key: string, now: real, n: nat)
    ensures |Burst(key, now, n)| == n && forall i | 0 <= i < n :: Burst(key, now, n)[i] == Event(key, now)
  {
    if n > 0 { BurstShape(key, now, n - 1); }
  }

  /** One more request, judged against the kept buckets. */
  lemma OneMoreRequest(events: seq<Event>, limit: nat, e: Event, from: real, to: real)
    requires Clocked(events + [e])
    ensures var admitted := Judge(Kept(events, limit), limit, e.key, e.now) == Admitted;
      && (AnswerTo(events + [e], limit) == Admitted <==> admitted)
      && Kept(events + [e], limit) == (if admitted then Count(Kept(events, limit), e.key, e.now) else Kept(events, limit))
      && AdmittedIn(events + [e], limit, e.key, from, to)
         == AdmittedIn(events, limit, e.key, from, to) + (if from <= e.now <= to && admitted then 1 else 0)
  {
    assert (events + [e])[..|events|] == events;
    SweepIsInvisible(events + [e], limit);
  }

  lemma BurstSnoc(events: seq<Event>, key: string, now: real, n: nat)
    requires n > 0
    ensures events + Burst(key, now, n) == events + Burst(key, now, n - 1) + [Event(key, now)]
  {
  }

  /** `n` requests at once are all admitted while the window has room for them. */
  lemma {:induction false} BurstIsAdmitted(events: seq<Event>, limit: nat, key: string, now: real, n: nat, from: real, to: real)
    requires Clocked(events + Burst(key, now, n))
    requires WindowFor(Kept(events, limit), key, now).count + n <= limit
    ensures AdmittedIn(events + Burst(key, now, n), limit, key, from, to)
         == AdmittedIn(events, limit, key, from, to) + (if from <= now <= to then n else 0)
    ensures n > 0 ==> key in Kept(events + Burst(key, now, n), limit)
    ensures n > 0 ==> var w := WindowFor(Kept(events, limit), key, now);
      Kept(events + Burst(key, now, n), limit)[key] == Window(w.start, w.count + n)
  {
    hide After, AdmittedIn, AnswerTo, Kept, Clocked;
    if n == 0 {
      assert events + [] == events;
    } else {
      BurstSnoc(events, key, now, n);
      var most := events + Burst(key, now, n - 1);
      ClockedPrefix(most, [Event(key, now)]);
      BurstIsAdmitted(events, limit, key, now, n - 1, from, to);
      if n == 1 { assert most == events; }
      OneMoreRequest(most, limit, Event(key, now), from, to);
    }
  }

  lemma ClockedAppend(events: seq<Event>, key: string, now: real, n: nat)
    requires Clocked(events) && now >= 0.0 && forall i | 0 <= i < |events| :: events[i].now <= now
    ensures Clocked(events + Burst(key, now, n))
    ensures forall i | 0 <= i < |events + Burst(key, now, n)| :: (events + Burst(key, now, n))[i].now <= now
  {
    BurstShape(key, now, n);
  }

  /** When the j-th further window opens, `d` apart. */
  function Opening(d: real, j: nat): real {
    if j == 0 then 0.0 else Opening(d, j - 1) + d
  }

  lemma {:induction false} OpeningIs(d: real, j: nat)
    ensures Opening(d, j) == j as real * d
  {
    if j > 0 {
      OpeningIs(d, j - 1);
      assert (j as real - 1.0) * d == j as real * d - d;
    }
  }

  lemma {:induction false} OpeningsGrow(d: real, j: nat)
    requires d > WINDOW && j >= 1
    ensures Opening(d, j) > 60.0
  {
    if j > 1 { OpeningsGrow(d, j - 1); }
  }

  /** The key's window is full, and so many requests since 60 s were admitted. */
  ghost predicate Full(events: seq<Event>, limit: nat, key: string, start: real, to: real, admitted: int) {
    && Clocked(events)
    && key in Kept(events, limit) && Kept(events, limit)[key] == Window(start, limit)
    && AdmittedIn(events, limit, key, 60.0, to) == admitted
  }

  ghost predicate NoLater(events: seq<Event>, now: real) {
    forall i | 0 <= i < |events| :: events[i].now <= now
  }

  lemma NoEvents(events: seq<Event>, limit: nat, key: string, to: real)
    requires events == []
    ensures Clocked(events) && Kept(events, limit) == map[] && AdmittedIn(events, limit, key, 60.0, to) == 0
  {
  }

  lemma ClockedBurst(events: seq<Event>, key: string, before: real, now: real, n: nat)
    requires Clocked(events) && NoLater(events, before) && before <= now && now >= 0.0
    ensures Clocked(events + Burst(key, now, n)) && NoLater(events + Burst(key, now, n), now)
  {
    hide Clocked;
    ClockedAppend(events, key, now, n);
  }

  lemma FreshWindow(buckets: Buckets, key: string, now: real)
    ensures key !in buckets ==> WindowFor(buckets, key, now) == Window(now, 0)
    ensures key in buckets && now - buckets[key].start > WINDOW ==> WindowFor(buckets, key, now) == Window(now, 0)
    ensures key in buckets && now - buckets[key].start <= WINDOW ==> WindowFor(buckets, key, now) == buckets[key]
  {
  }

  /** One request at 0 s opens a window that the others fill at 60 s. */
  lemma FirstWindow(limit: nat, key: string, to: real) returns (events: seq<Event>)
    requires limit >= 1 && to >= 60.0
    ensures Full(events, limit, key, 0.0, to, limit - 1) && NoLater(events, 60.0)
  {
    var none: seq<Event> := [];
    NoEvents(none, limit, key, to);
    var first := none + Burst(key, 0.0, 1);
    hide Kept, AdmittedIn, Clocked, Burst, WindowFor;
    FreshWindow(map[], key, 0.0);
    ClockedBurst(none, key, 0.0, 0.0, 1);
    BurstIsAdmitted(none, limit, key, 0.0, 1, 60.0, to);
    events := first + Burst(key, 60.0, limit - 1);
    FreshWindow(Kept(first, limit), key, 60.0);
    ClockedBurst(first, key, 0.0, 60.0, limit - 1);
    BurstIsAdmitted(first, limit, key, 60.0, limit - 1, 60.0, to);
    if limit == 1 { EmptyBurst(first, key); }
  }

  lemma EmptyBurst(events: seq<Event>, key: string)
    ensures events + Burst(key, 60.0, 0) == events
  {
  }

  /** A burst that opens a new window fills it. */
  lemma NextFull(events: seq<Event>, limit: nat, key: string, start: real, before: real, now: real, to: real, admitted: int)
    requires limit >= 1 && Full(events, limit, key, start, to, admitted) && NoLater(events, before)
    requires before <= now && 60.0 <= now <= to && now - start > WINDOW
    ensures Full(events + Burst(key, now, limit), limit, key, now, to, admitted + limit)
    ensures NoLater(events + Burst(key, now, limit), now)
  {
    hide Kept, AdmittedIn, Clocked, Burst, WindowFor;
    FreshWindow(Kept(events, limit), key, now);
    ClockedBurst(events, key, before, now, limit);
    BurstIsAdmitted(events, limit, key, now, limit, 60.0, to);
  }

  lemma {:induction false} ManyWindows(limit: nat, key: string, d: real, j: nat, to: real) returns (events: seq<Event>)
    requires limit >= 1 && d > WINDOW && to >= 60.0 && Opening(d, j) <= to
    ensures Full(events, limit, key, Opening(d, j), to, limit - 1 + j * limit)
    ensures NoLater(events, if j == 0 then 60.0 else Opening(d, j))
  {
    if j == 0 {
      events := FirstWindow(limit, key, to);
    } else {
      var now := Opening(d, j);
      assert now == Opening(d, j - 1) + d;
      OpeningsGrow(d, j);
      assert (j - 1) * limit + limit == j * limit;
      hide Full, Opening, NoLater;
      events := ManyWindows(limit, key, d, j - 1, to);
      NextFull(events, limit, key, Opening(d, j - 1), if j == 1 then 60.0 else Opening(d, j - 1), now, to, limit - 1 + (j - 1) * limit);
      events := events + Burst(key, now, limit);
    }
  }

  /** The windows an interval of this length spans open just over 60 s apart, the last one at its end. */
  lemma Spread(length: real) returns (c: nat, d: real)
    requires length > 0.0
    ensures c == WindowsIn(length) && c >= 1 && d > WINDOW && Opening(d, c) == 60.0 + length
  {
    var x := QuotientOf(length, WINDOW);
    assert x > 0.0;
    assert -x - 1.0 < (-x).Floor as real <= -x;
    c := WindowsIn(length);
    assert c as real < x + 1.0;
    d := QuotientOf(60.0 + length, c as real);
    LargerQuotient(d, c as real, 60.0 + length, x);
    OpeningIs(d, c);
  }

  lemma LargerQuotient(d: real, c: real, total: real, x: real)
    requires d * c == total && 0.0 < c < x + 1.0 && total == 60.0 * (x + 1.0)
    ensures d > 60.0
  {
    ScaleOrder(60.0, d, c);
  }

  /** For every limit and length some run attains the sliding bound: it is the least one. */
  lemma SlidingBoundIsAttained(limit: nat, key: string, length: real) returns (events: seq<Event>, from: real)
    requires limit >= 1 && length >= 0.0
    ensures Clocked(events) && AdmittedIn(events, limit, key, from, from + length) == SlidingBound(length, limit)
  {
    from := 60.0;
    if length > 0.0 {
      var c, d := Spread(length);
      assert SlidingBound(length, limit) == limit - 1 + c * limit by { assert (c + 1) * limit == c * limit + limit; }
      hide WindowsIn, SlidingBound, Opening, Kept, AdmittedIn, Clocked;
      events := ManyWindows(limit, key, d, c, 60.0 + length);
    } else {
      var none: seq<Event> := [];
      NoEvents(none, limit, key, 60.0);
      events := none + Burst(key, 60.0, limit);
      hide Kept, AdmittedIn, Clocked, Burst, WindowFor;
      FreshWindow(map[], key, 60.0);
      ClockedBurst(none, key, 0.0, 60.0, limit);
      BurstIsAdmitted(none, limit, key, 60.0, limit, 60.0, 60.0);
    }
  }

  /** In particular, 2 * limit - 1 requests of one key within a minute. */
  lemma MinuteBoundIsAttained(limit: nat, key: string) returns (events: seq<Event>, from: real)
    requires limit >= 1
    ensures Clocked(events) && AdmittedIn(events, limit, key, from, from + 60.0) == 2 * limit - 1
  {
    assert 60.0 / WINDOW == 1.0 && WindowsIn(60.0) == 1;
    hide Clocked, AdmittedIn;
    events, from := SlidingBoundIsAttained(limit, key, 60.0);
  }

  // ----- Retry-After -----

  /** Requests of other keys leave a key's window alone. */
  lemma {:induction false} OthersLeaveWindowAlone(events: seq<Event>, others: seq<Event>, limit: nat, key: string)
    requires forall e | e in others :: e.key != key
    ensures key in Kept(events + others, limit) <==> key in Kept(events, limit)
    ensures key in Kept(events, limit) ==> Kept(events + others, limit)[key] == Kept(events, limit)[key]
    decreases |others|
  {
    if others == [] {
      assert events + others == events;
    } else {
      var all := events + others;
      assert all[..|all| - 1] == events + others[..|others| - 1];
      assert others[|others| - 1] in others;
      OthersLeaveWindowAlone(events, others[..|others| - 1], limit, key);
    }
  }

  lemma ClockedPrefix(events: seq<Event>, rest: seq<Event>)
    requires Clocked(events + rest)
    ensures Clocked(events)
  {
    forall i | 0 <= i < |events| ensures events[i] == (events + rest)[i] {
    }
  }

  /** What a rejection says about the window it was judged in. */
  lemma RejectionFacts(events: seq<Event>, key: string, limit: nat, now: real)
    requires limit >= 1 && Clocked(events + [Event(key, now)])
    requires AnswerTo(events + [Event(key, now)], limit).Rejected?
    ensures key in Kept(events, limit) && Kept(events, limit)[key].count == limit
    ensures 0.0 <= now - Kept(events, limit)[key].start <= WINDOW
    ensures AnswerTo(events + [Event(key, now)], limit) == Rejected(RetryAfter(now - Kept(events, limit)[key].start))
    ensures Kept(events + [Event(key, now)], limit) == Kept(events, limit)
  {
    hide After, AdmittedIn, Swept;
    var rejected := events + [Event(key, now)];
    assert rejected[..|events|] == events;
    ClockedPrefix(events, [Event(key, now)]);
    SweepIsInvisible(rejected, limit);
    KeptWindows(events, limit);
    if events != [] { assert rejected[|events| - 1] == events[|events| - 1]; }
  }

  /**
   * A key was rejected and then stayed quiet, whatever other keys did: its next request is
   * admitted exactly when more than 60 s have passed since its window began.
   */
  lemma QuietKeyReturns(events: seq<Event>, others: seq<Event>, key: string, limit: nat, now: real, later: real)
    requires limit >= 1 && Clocked(events + [Event(key, now)] + others + [Event(key, later)])
    requires AnswerTo(events + [Event(key, now)], limit).Rejected?
    requires forall e | e in others :: e.key != key
    ensures key in Kept(events, limit)
    ensures var start := Kept(events, limit)[key].start;
      && 0.0 <= now - start <= WINDOW
      && AnswerTo(events + [Event(key, now)], limit) == Rejected(RetryAfter(now - start))
      && (AnswerTo(events + [Event(key, now)] + others + [Event(key, later)], limit) == Admitted <==> later - start > WINDOW)
  {
    var rejected := events + [Event(key, now)];
    ClockedPrefix(rejected + others, [Event(key, later)]);
    ClockedPrefix(rejected, others);
    RejectionFacts(events, key, limit, now);
    OthersLeaveWindowAlone(rejected, others, limit, key);
    OneMoreRequest(rejected + others, limit, Event(key, later), 0.0, 0.0);
  }

  /**
   * A rejection names the whole seconds left in the key's window, or one when less than a
   * second is left: between 1 and 60, and never more than is left unless it is 1.
   */
  lemma RetryAfterIsTimeLeft(events: seq<Event>, key: string, limit: nat, now: real)
    requires limit >= 1 && Clocked(events + [Event(key, now)])
    requires AnswerTo(events + [Event(key, now)], limit).Rejected?
    ensures key in Kept(events, limit)
    ensures var left := WINDOW - (now - Kept(events, limit)[key].start);
      var seconds := AnswerTo(events + [Event(key, now)], limit).retryAfter;
      && 0.0 <= left <= 60.0 && 1 <= seconds <= 60
      && (left >= 1.0 ==> seconds as real <= left < seconds as real + 1.0)
      && (left < 1.0 ==> seconds == 1)
  {
    RejectionFacts(events, key, limit, now);
  }

  /** Waiting one second longer than Retry-After says always suffices. */
  lemma RetryAfterPlusOneSuffices(events: seq<Event>, others: seq<Event>, key: string, limit: nat, now: real, later: real)
    requires limit >= 1 && Clocked(events + [Event(key, now)] + others + [Event(key, later)])
    requires AnswerTo(events + [Event(key, now)], limit).Rejected?
    requires forall e | e in others :: e.key != key
    requires later >= now + AnswerTo(events + [Event(key, now)], limit).retryAfter as real + 1.0
    ensures AnswerTo(events + [Event(key, now)] + others + [Event(key, later)], limit) == Admitted
  {
    QuietKeyReturns(events, others, key, limit, now, later);
  }

  /**
   * Waiting exactly Retry-After seconds does not always suffice: it does if and only if
   * less than a second of the window was left when the request was rejected.
   */
  lemma RetryAfterIsExactlyEnoughWhen(events: seq<Event>, others: seq<Event>, key: string, limit: nat, now: real, later: real)
    requires limit >= 1 && Clocked(events + [Event(key, now)] + others + [Event(key, later)])
    requires AnswerTo(events + [Event(key, now)], limit).Rejected?
    requires forall e | e in others :: e.key != key
    requires later == now + AnswerTo(events + [Event(key, now)], limit).retryAfter as real
    ensures key in Kept(events, limit)
    ensures AnswerTo(events + [Event(key, now)] + others + [Event(key, later)], limit) == Admitted
            <==> now - Kept(events, limit)[key].start > WINDOW - 1.0
  {
    QuietKeyReturns(events, others, key, limit, now, later);
  }
}
