/** internal/middleware/ratelimit.go: one token bucket per client, refilled by elapsed
    time, and garbage collection of idle buckets. Time and tokens are reals, in seconds. */
module RateLimit {
  import opened Sets

  /** The effective parameters, after the defaults of NewRateLimiter. */
  datatype Params = Params(rate: real, burst: nat, entryTTL: real) {
    predicate Valid() { rate > 0.0 && burst > 0 && entryTTL > 0.0 }
    function Cap(): real { burst as real }
  }

  datatype Bucket = Bucket(tokens: real, lastRefill: real)

  datatype Reply = Allowed | RetryAfter(seconds: int)

  type Buckets = map<string, Bucket>

  function Min(a: real, b: real): real { if a <= b then a else b }

  /** The least integer not below x. */
  function Ceil(x: real): (c: int)
    ensures (c - 1) as real < x <= c as real
  {
    -((-x).Floor)
  }

  /** Tokens that a stretch of time yields. */
  function Gain(p: Params, dt: real): real { dt * p.rate }

  lemma GainAdds(p: Params, x: real, y: real)
    ensures Gain(p, x) + Gain(p, y) == Gain(p, x + y)
  {
  }

  lemma GainIsRate(p: Params, dt: real)
    ensures Gain(p, dt) == p.rate * dt
  {
  }

  lemma GainGrows(p: Params, x: real, y: real)
    requires p.rate > 0.0 && x <= y
    ensures Gain(p, x) <= Gain(p, y) && Gain(p, 0.0) == 0.0
  {
  }

  /** What is in a bucket at an instant, before anything is taken. */
  function Refilled(p: Params, b: Bucket, now: real): real {
    Min(p.Cap(), b.tokens + Gain(p, now - b.lastRefill))
  }

  /** One request for n tokens. */
  function TakeN(p: Params, b: Bucket, n: real, now: real): (Bucket, Reply)
    requires p.rate > 0.0
  {
    var tokens := Refilled(p, b, now);
    if tokens >= n then (Bucket(tokens - n, now), Allowed)
    else
      var wait := Ceil((n - tokens) / p.rate);
      (Bucket(tokens, now), RetryAfter(if wait < 1 then 1 else wait))
  }

  /** The limiter asks for one. */
  function Take(p: Params, b: Bucket, now: real): (Bucket, Reply)
    requires p.rate > 0.0
  {
    TakeN(p, b, 1.0, now)
  }

  function BucketOf(p: Params, s: Buckets, ip: string, now: real): Bucket {
    if ip in s then s[ip] else Bucket(p.Cap(), now)
  }

  function Cleaned(p: Params, s: Buckets, now: real): Buckets {
    map ip | ip in s && now - s[ip].lastRefill <= p.entryTTL :: s[ip]
  }

  // ---- runs ----------------------------------------------------------------

  datatype Event = Request(ip: string, now: real) | Cleanup(now: real)

  function After(p: Params, s: Buckets, e: Event): Buckets
    requires p.rate > 0.0
  {
    match e
    case Request(ip, now) => s[ip := Take(p, BucketOf(p, s, ip, now), now).0]
    case Cleanup(now) => Cleaned(p, s, now)
  }

  function ReplyTo(p: Params, s: Buckets, e: Event): seq<Reply>
    requires p.rate > 0.0
  {
    match e
    case Request(ip, now) => [Take(p, BucketOf(p, s, ip, now), now).1]
    case Cleanup(_) => []
  }

  /** The answers to the requests of a run, in order. */
  function Replies(p: Params, s: Buckets, events: seq<Event>): seq<Reply>
    requires p.rate > 0.0
    decreases |events|
  {
    if events == [] then []
    else ReplyTo(p, s, events[0]) + Replies(p, After(p, s, events[0]), events[1..])
  }

  function AfterAll(p: Params, s: Buckets, events: seq<Event>): Buckets
    requires p.rate > 0.0
    decreases |events|
  {
    if events == [] then s else AfterAll(p, After(p, s, events[0]), events[1..])
  }

  function Requests(events: seq<Event>): seq<Event> {
    if events == [] then []
    else (if events[0].Request? then [events[0]] else []) + Requests(events[1..])
  }

  /** Requests come in time order, and no request is earlier than a cleanup before it.
      A cleanup may use a reading older than the last request, as a queued tick does. */
  predicate InOrder(events: seq<Event>, from: real) {
    events != [] ==>
      match events[0]
      case Request(_, now) => from <= now && InOrder(events[1..], now)
      case Cleanup(now) => InOrder(events[1..], if now > from then now else from)
  }

  predicate Until(events: seq<Event>, end: real) {
    forall e :: e in events ==> e.now <= end
  }

  /** Every bucket holds between nothing and the burst, and was touched by `at`. */
  ghost predicate Sane(p: Params, s: Buckets, at: real) {
    forall ip :: ip in s ==> 0.0 <= s[ip].tokens <= p.Cap() && s[ip].lastRefill <= at
  }

  /** A bucket only fills up while time passes, never faster than the rate, and
      refilling in two steps is refilling in one. */
  lemma RefillBounds(p: Params, b: Bucket, now: real, later: real)
    requires p.Valid() && 0.0 <= b.tokens <= p.Cap() && b.lastRefill <= now <= later
    ensures 0.0 <= Refilled(p, b, now) <= Refilled(p, b, later) <= p.Cap()
    ensures Refilled(p, b, later) <= Refilled(p, b, now) + Gain(p, later - now)
    ensures Refilled(p, Bucket(Refilled(p, b, now), now), later) == Refilled(p, b, later)
  {
    GainAdds(p, now - b.lastRefill, later - now);
    GainGrows(p, 0.0, now - b.lastRefill);
    GainGrows(p, 0.0, later - now);
  }

  /** The instant a run has reached after an event. */
  function Reached(e: Event, from: real): real {
    if e.Request? || e.now > from then e.now else from
  }

  lemma SaneStep(p: Params, s: Buckets, e: Event, from: real)
    requires p.Valid() && Sane(p, s, from) && (e.Request? ==> from <= e.now)
    ensures Sane(p, After(p, s, e), Reached(e, from))
  {
    if e.Request? {
      RefillBounds(p, BucketOf(p, s, e.ip, e.now), e.now, e.now);
    }
  }

  // ---- garbage collection is unobservable ----------------------------------

  /** The collected state against the uncollected one: what is missing is full. */
  ghost predicate Collected(p: Params, s: Buckets, t: Buckets, from: real) {
    && s.Keys <= t.Keys
    && (forall ip :: ip in s ==> s[ip] == t[ip])
    && (forall ip :: ip in t && ip !in s ==> Refilled(p, t[ip], from) == p.Cap())
  }

  lemma CollectedStep(p: Params, s: Buckets, t: Buckets, e: Event, from: real)
    requires p.Valid() && p.rate * p.entryTTL >= p.Cap()
    requires Sane(p, t, from) && Collected(p, s, t, from) && (e.Request? ==> from <= e.now)
    ensures var t' := if e.Request? then After(p, t, e) else t;
            Collected(p, After(p, s, e), t', Reached(e, from))
    ensures e.Request? ==> ReplyTo(p, s, e) == ReplyTo(p, t, e)
  {
    var at := Reached(e, from);
    forall ip | ip in t && ip !in s ensures Refilled(p, t[ip], at) == p.Cap() {
      RefillBounds(p, t[ip], from, at);
    }
    if e.Cleanup? {
      forall ip | ip in s && e.now - s[ip].lastRefill > p.entryTTL ensures Refilled(p, t[ip], at) == p.Cap() {
        IdleIsFull(p, t[ip], at);
      }
    }
  }

  lemma IdleIsFull(p: Params, b: Bucket, at: real)
    requires p.Valid() && p.rate * p.entryTTL >= p.Cap()
    requires 0.0 <= b.tokens && at - b.lastRefill > p.entryTTL
    ensures Refilled(p, b, at) == p.Cap()
  {
    GainGrows(p, p.entryTTL, at - b.lastRefill);
  }

  lemma {:induction false} CollectedRuns(p: Params, s: Buckets, t: Buckets, events: seq<Event>, from: real)
    requires p.Valid() && p.rate * p.entryTTL >= p.Cap()
    requires Sane(p, t, from) && Collected(p, s, t, from) && InOrder(events, from)
    ensures Replies(p, s, events) == Replies(p, t, Requests(events))
    decreases |events|
  {
    if events != [] {
      var e, rest := events[0], events[1..];
      var at := Reached(e, from);
      CollectedStep(p, s, t, e, from);
      if e.Request? {
        SaneStep(p, t, e, from);
        CollectedRuns(p, After(p, s, e), After(p, t, e), rest, at);
        assert Requests(events)[0] == e && Requests(events)[1..] == Requests(rest);
      } else {
        CollectedRuns(p, After(p, s, e), t, rest, at);
        assert Requests(events) == Requests(rest);
        assert Replies(p, s, events) == Replies(p, After(p, s, e), rest);
      }
    }
  }

  /** Deleting idle buckets changes no answer of any run, when a bucket refills
      completely within the idle time. */
  lemma CleanupUnobservable(p: Params, events: seq<Event>, from: real)
    requires p.Valid() && p.rate * p.entryTTL >= p.Cap() && InOrder(events, from)
    ensures Replies(p, map[], events) == Replies(p, map[], Requests(events))
  {
    CollectedRuns(p, map[], map[], events, from);
  }

  // ---- the window bound ----------------------------------------------------

  function Granted(p: Params, s: Buckets, e: Event, ip: string): nat
    requires p.rate > 0.0
  {
    if e.Request? && e.ip == ip && ReplyTo(p, s, e) == [Allowed] then 1 else 0
  }

  function AllowedCount(p: Params, s: Buckets, events: seq<Event>, ip: string): nat
    requires p.rate > 0.0
    decreases |events|
  {
    if events == [] then 0
    else Granted(p, s, events[0], ip) + AllowedCount(p, After(p, s, events[0]), events[1..], ip)
  }

  function Level(p: Params, s: Buckets, ip: string, at: real): real {
    if ip in s then Refilled(p, s[ip], at) else p.Cap()
  }

  lemma LevelGrows(p: Params, s: Buckets, ip: string, from: real, at: real)
    requires p.Valid() && Sane(p, s, from) && from <= at
    ensures 0.0 <= Level(p, s, ip, from) <= Level(p, s, ip, at) <= p.Cap()
    ensures Level(p, s, ip, at) <= Level(p, s, ip, from) + Gain(p, at - from)
  {
    GainGrows(p, 0.0, at - from);
    if ip in s { RefillBounds(p, s[ip], from, at); }
  }

  /** A client's own request takes the token it grants. */
  lemma LevelOwn(p: Params, s: Buckets, ip: string, now: real)
    requires p.Valid() && Sane(p, s, now)
    ensures Granted(p, s, Request(ip, now), ip) as real + Level(p, After(p, s, Request(ip, now)), ip, now)
            == Level(p, s, ip, now)
  {
    LevelGrows(p, s, ip, now, now);
    GainGrows(p, 0.0, 0.0);
  }

  /** What one step does to the level of a client: it takes the token it grants, and
      gains no more than the elapsed time yields. */
  lemma LevelStep(p: Params, s: Buckets, e: Event, ip: string, from: real)
    requires p.Valid() && p.rate * p.entryTTL >= p.Cap()
    requires Sane(p, s, from) && (e.Request? ==> from <= e.now)
    ensures Granted(p, s, e, ip) as real + Level(p, After(p, s, e), ip, Reached(e, from))
            <= Level(p, s, ip, from) + Gain(p, Reached(e, from) - from)
  {
    var at := Reached(e, from);
    LevelGrows(p, s, ip, from, at);
    if e.Request? && e.ip == ip {
      assert Sane(p, s, at);
      LevelOwn(p, s, ip, at);
    } else if e.Cleanup? && ip in s && ip !in Cleaned(p, s, e.now) {
      IdleIsFull(p, s[ip], at);
    }
  }

  lemma {:induction false} AllowedAtMost(p: Params, s: Buckets, events: seq<Event>, ip: string, from: real, end: real)
    requires p.Valid() && p.rate * p.entryTTL >= p.Cap()
    requires Sane(p, s, from) && InOrder(events, from) && from <= end && Until(events, end)
    ensures AllowedCount(p, s, events, ip) as real <= Level(p, s, ip, from) + Gain(p, end - from)
    decreases |events|
  {
    GainGrows(p, 0.0, end - from);
    LevelGrows(p, s, ip, from, from);
    if events != [] {
      var e := events[0];
      var at := Reached(e, from);
      assert e in events;
      LevelStep(p, s, e, ip, from);
      SaneStep(p, s, e, from);
      AllowedAtMost(p, After(p, s, e), events[1..], ip, at, end);
      GainAdds(p, at - from, end - at);
    }
  }

  lemma {:induction false} SaneRun(p: Params, s: Buckets, events: seq<Event>, from: real, at: real)
    requires p.Valid() && Sane(p, s, from) && InOrder(events, from) && from <= at && Until(events, at)
    ensures Sane(p, AfterAll(p, s, events), at)
    decreases |events|
  {
    if events != [] {
      var e := events[0];
      SaneStep(p, s, e, from);
      SaneRun(p, After(p, s, e), events[1..], Reached(e, from), at);
    }
  }

  /** In any window of length T of any run, one client is allowed at most burst + rate*T
      requests: `before` is the run up to the window, `window` the events inside it. */
  lemma WindowBound(p: Params, before: seq<Event>, window: seq<Event>, ip: string, from: real, start: real, length: real)
    requires p.Valid() && p.rate * p.entryTTL >= p.Cap()
    requires InOrder(before, from) && from <= start && length >= 0.0 && Until(before, start)
    requires InOrder(window, start) && Until(window, start + length)
    ensures AllowedCount(p, AfterAll(p, map[], before), window, ip) as real <= p.burst as real + length * p.rate
  {
    WindowGain(p, before, window, ip, from, start, length);
  }

  lemma WindowGain(p: Params, before: seq<Event>, window: seq<Event>, ip: string, from: real, start: real, length: real)
    requires p.Valid() && p.rate * p.entryTTL >= p.Cap()
    requires InOrder(before, from) && from <= start && length >= 0.0 && Until(before, start)
    requires InOrder(window, start) && Until(window, start + length)
    ensures AllowedCount(p, AfterAll(p, map[], before), window, ip) as real <= p.burst as real + Gain(p, length)
  {
    var s, end := AfterAll(p, map[], before), start + length;
    SaneRun(p, map[], before, from, start);
    AllowedAtMost(p, s, window, ip, start, end);
    LevelGrows(p, s, ip, start, start);
    assert end - start == length;
  }

  // ---- the returned wait is enough -----------------------------------------

  /** A refused client that waits at least the returned time, with no other request of
      its own, is allowed, whatever the others do and whatever is collected meanwhile. */
  lemma RetryIsHonoured(p: Params, s: Buckets, ip: string, now: real, others: seq<Event>, later: real)
    requires p.Valid() && Sane(p, s, now)
    requires ReplyTo(p, s, Request(ip, now)) != [Allowed]
    requires forall e :: e in others && e.Request? ==> e.ip != ip
    requires var wait := ReplyTo(p, s, Request(ip, now))[0].seconds; later >= now + wait as real
    ensures ReplyTo(p, AfterAll(p, After(p, s, Request(ip, now)), others), Request(ip, later)) == [Allowed]
  {
    var b' := After(p, s, Request(ip, now))[ip];
    RefusalWaits(p, s, ip, now);
    Untouched(p, After(p, s, Request(ip, now)), others, ip, b');
    WaitRefills(p, b', now, ReplyTo(p, s, Request(ip, now))[0].seconds as real, later);
    FullIsAllowed(p, AfterAll(p, After(p, s, Request(ip, now)), others), ip, later);
  }

  lemma FullIsAllowed(p: Params, s: Buckets, ip: string, now: real)
    requires p.Valid() && (ip in s ==> Refilled(p, s[ip], now) >= 1.0)
    ensures ReplyTo(p, s, Request(ip, now)) == [Allowed]
  {
    GainGrows(p, 0.0, 0.0);
  }

  /** A refusal keeps what is in the bucket, and asks to wait for the missing part of a
      token, rounded up to whole seconds and at least one. */
  lemma RefusalWaits(p: Params, s: Buckets, ip: string, now: real)
    requires p.Valid() && Sane(p, s, now) && ReplyTo(p, s, Request(ip, now)) != [Allowed]
    ensures var b := After(p, s, Request(ip, now))[ip];
            && b == Bucket(Level(p, s, ip, now), now) && 0.0 <= b.tokens < 1.0
            && ReplyTo(p, s, Request(ip, now))[0].RetryAfter?
            && var wait := ReplyTo(p, s, Request(ip, now))[0].seconds;
               && wait >= 1 && wait as real >= (1.0 - b.tokens) / p.rate
               && (wait > 1 ==> (wait - 1) as real < (1.0 - b.tokens) / p.rate)
  {
    LevelGrows(p, s, ip, now, now);
    GainGrows(p, 0.0, 0.0);
  }

  /** Waiting as told is enough if and only if the bucket can ever hold that many tokens. */
  lemma WaitIsEnoughIff(p: Params, b: Bucket, n: real, now: real, later: real)
    requires p.Valid() && 0.0 <= b.tokens <= p.Cap() && b.lastRefill <= now && TakeN(p, b, n, now).1.RetryAfter?
    requires later >= now + TakeN(p, b, n, now).1.seconds as real
    ensures TakeN(p, TakeN(p, b, n, now).0, n, later).1 == Allowed <==> n <= p.Cap()
  {
    var tokens, needed := Refilled(p, b, now), (n - Refilled(p, b, now)) / p.rate;
    assert Gain(p, needed) == n - tokens;
    GainGrows(p, needed, later - now);
  }

  /** After ceil(missing / rate) seconds nothing is missing. */
  lemma WaitRefills(p: Params, b: Bucket, now: real, wait: real, later: real)
    requires p.Valid() && 0.0 <= b.tokens < 1.0 && b.lastRefill == now
    requires wait >= (1.0 - b.tokens) / p.rate && later >= now + wait
    ensures Refilled(p, b, later) >= 1.0
  {
    var needed := (1.0 - b.tokens) / p.rate;
    assert Gain(p, needed) == 1.0 - b.tokens;
    GainGrows(p, needed, later - now);
  }

  lemma {:induction false} Untouched(p: Params, s: Buckets, others: seq<Event>, ip: string, b: Bucket)
    requires p.rate > 0.0 && (ip in s ==> s[ip] == b)
    requires forall e :: e in others && e.Request? ==> e.ip != ip
    ensures ip in AfterAll(p, s, others) ==> AfterAll(p, s, others)[ip] == b
    decreases |others|
  {
    if others != [] {
      assert others[0] in others;
      Untouched(p, After(p, s, others[0]), others[1..], ip, b);
    }
  }

  // ---- the condition on the idle time is exact -----------------------------

  function Repeat(ip: string, now: real, k: nat): seq<Event> {
    if k == 0 then [] else [Request(ip, now)] + Repeat(ip, now, k - 1)
  }

  lemma {:induction false} RepeatAt(ip: string, now: real, k: nat)
    ensures |Repeat(ip, now, k)| == k
    ensures forall e :: e in Repeat(ip, now, k) ==> e == Request(ip, now)
    ensures InOrder(Repeat(ip, now, k), now) && Requests(Repeat(ip, now, k)) == Repeat(ip, now, k)
  {
    if k > 0 { RepeatAt(ip, now, k - 1); }
  }

  /** Requests of one client at one instant: from a level of L tokens the first k are
      all allowed exactly when L >= k. */
  lemma {:induction false} DrainIff(p: Params, s: Buckets, ip: string, now: real, k: nat)
    requires p.Valid() && Sane(p, s, now)
    ensures AllowedCount(p, s, Repeat(ip, now, k), ip) <= k
    ensures AllowedCount(p, s, Repeat(ip, now, k), ip) == k <==> Level(p, s, ip, now) >= k as real
    ensures Level(p, s, ip, now) >= k as real ==>
            Level(p, AfterAll(p, s, Repeat(ip, now, k)), ip, now) == Level(p, s, ip, now) - k as real
    ensures Sane(p, AfterAll(p, s, Repeat(ip, now, k)), now)
    decreases k
  {
    LevelGrows(p, s, ip, now, now);
    if k > 0 {
      var e := Request(ip, now);
      var rest := Repeat(ip, now, k)[1..];
      assert rest == Repeat(ip, now, k - 1);
      LevelOwn(p, s, ip, now);
      SaneStep(p, s, e, now);
      DrainIff(p, After(p, s, e), ip, now, k - 1);
      LevelGrows(p, After(p, s, e), ip, now, now);
    }
  }

  /** A client that has not been seen, or not for burst / rate seconds, gets its whole burst
      at once, and not one request more. */
  lemma RestedClientGetsBurst(p: Params, s: Buckets, ip: string, now: real)
    requires p.Valid() && Sane(p, s, now)
    requires ip in s ==> p.rate * (now - s[ip].lastRefill) >= p.burst as real
    ensures AllowedCount(p, s, Repeat(ip, now, p.burst), ip) == p.burst
    ensures AllowedCount(p, s, Repeat(ip, now, p.burst + 1), ip) <= p.burst
  {
    RestedIsFull(p, s, ip, now);
    DrainIff(p, s, ip, now, p.burst);
    DrainIff(p, s, ip, now, p.burst + 1);
  }

  lemma RestedIsFull(p: Params, s: Buckets, ip: string, now: real)
    requires p.Valid() && Sane(p, s, now)
    requires ip in s ==> p.rate * (now - s[ip].lastRefill) >= p.burst as real
    ensures Level(p, s, ip, now) == p.burst as real
  {
    if ip in s { GainIsRate(p, now - s[ip].lastRefill); }
  }

  lemma {:induction false} CountSplits(p: Params, s: Buckets, x: seq<Event>, y: seq<Event>, ip: string)
    requires p.rate > 0.0
    ensures AllowedCount(p, s, x + y, ip) == AllowedCount(p, s, x, ip) + AllowedCount(p, AfterAll(p, s, x), y, ip)
    ensures AfterAll(p, s, x + y) == AfterAll(p, AfterAll(p, s, x), y)
    decreases |x|
  {
    if x == [] {
      assert x + y == y;
    } else {
      assert (x + y)[0] == x[0] && (x + y)[1..] == x[1..] + y;
      CountSplits(p, After(p, s, x[0]), x[1..], y, ip);
    }
  }

  /** A burst at time 0, a cleanup and another burst at time t. */
  function TwoBursts(p: Params, ip: string, t: real): seq<Event> {
    Repeat(ip, 0.0, p.burst) + [Cleanup(t)] + Repeat(ip, t, p.burst)
  }

  /** A moment after the idle time at which a drained bucket is not full yet. */
  function Early(p: Params): real
    requires p.rate > 0.0
  {
    (p.entryTTL + p.Cap() / p.rate) / 2.0
  }

  lemma EarlyIsBetween(p: Params)
    requires p.Valid() && p.rate * p.entryTTL < p.Cap()
    ensures p.entryTTL < Early(p) && Gain(p, Early(p)) < p.Cap()
  {
    var full := p.Cap() / p.rate;
    assert full * p.rate == p.Cap();
    assert p.entryTTL < full by {
      if full <= p.entryTTL { GainGrows(p, full, p.entryTTL); }
    }
    var early := Early(p);
    assert early < full;
    assert (full - early) * p.rate > 0.0;
    GainAdds(p, early, full - early);
  }

  /** The condition is exact: when a bucket does not refill within the idle time, some
      run lets through two whole bursts only because of the cleanup between them, and so
      breaks the window bound. */
  lemma EarlyCleanupIsObservable(p: Params, ip: string)
    requires p.Valid() && p.rate * p.entryTTL < p.Cap()
    ensures var t := Early(p);
            && AllowedCount(p, map[], TwoBursts(p, ip, t), ip) == 2 * p.burst
            && (2 * p.burst) as real > p.Cap() + Gain(p, t)
            && AllowedCount(p, map[], Repeat(ip, 0.0, p.burst) + Repeat(ip, t, p.burst), ip) < 2 * p.burst
  {
    var t, n := Early(p), p.burst;
    var first, second := Repeat(ip, 0.0, n), Repeat(ip, t, n);
    var s := AfterAll(p, map[], first);
    EarlyIsBetween(p);
    DrainIff(p, map[], ip, 0.0, n);
    // With the cleanup the second burst starts from a full bucket.
    CountSplits(p, map[], first + [Cleanup(t)], second, ip);
    CountSplits(p, map[], first, [Cleanup(t)], ip);
    DrainedAt(p, ip);
    assert [Cleanup(t)][1..] == [];
    var collected := After(p, s, Cleanup(t));
    assert AfterAll(p, s, [Cleanup(t)]) == collected;
    assert ip !in collected;
    SaneStep(p, s, Cleanup(t), 0.0);
    DrainIff(p, collected, ip, t, n);
    // Without it, from what the bucket regained.
    CountSplits(p, map[], first, second, ip);
    LevelGrows(p, s, ip, 0.0, t);
    DrainIff(p, s, ip, t, n);
  }

  /** After a whole burst at time 0 the bucket was last touched at time 0. */
  lemma DrainedAt(p: Params, ip: string)
    requires p.Valid()
    ensures var s := AfterAll(p, map[], Repeat(ip, 0.0, p.burst)); ip in s && s[ip].lastRefill == 0.0
  {
    TouchedAt(p, After(p, map[], Request(ip, 0.0)), ip, 0.0, p.burst - 1);
    assert Repeat(ip, 0.0, p.burst)[1..] == Repeat(ip, 0.0, p.burst - 1);
  }

  lemma {:induction false} TouchedAt(p: Params, s: Buckets, ip: string, now: real, k: nat)
    requires p.rate > 0.0 && ip in s && s[ip].lastRefill == now
    ensures var s' := AfterAll(p, s, Repeat(ip, now, k)); ip in s' && s'[ip].lastRefill == now
    decreases k
  {
    if k > 0 {
      assert Repeat(ip, now, k)[1..] == Repeat(ip, now, k - 1);
      TouchedAt(p, After(p, s, Request(ip, now)), ip, now, k - 1);
    }
  }

  function CountAllowed(replies: seq<Reply>): nat {
    if replies == [] then 0 else (if replies[0] == Allowed then 1 else 0) + CountAllowed(replies[1..])
  }

  lemma {:induction false} CountFromReplies(p: Params, s: Buckets, events: seq<Event>, ip: string)
    requires p.rate > 0.0 && forall e :: e in events && e.Request? ==> e.ip == ip
    ensures AllowedCount(p, s, events, ip) == CountAllowed(Replies(p, s, events))
    decreases |events|
  {
    if events != [] {
      assert events[0] in events;
      CountFromReplies(p, After(p, s, events[0]), events[1..], ip);
      if events[0].Request? {
        assert Replies(p, s, events)[1..] == Replies(p, After(p, s, events[0]), events[1..]);
      } else {
        assert Replies(p, s, events) == Replies(p, After(p, s, events[0]), events[1..]);
      }
    }
  }

  lemma {:induction false} JoinedRequests(x: seq<Event>, y: seq<Event>)
    ensures Requests(x + y) == Requests(x) + Requests(y)
    decreases |x|
  {
    if x == [] {
      assert x + y == y;
    } else {
      assert (x + y)[0] == x[0] && (x + y)[1..] == x[1..] + y;
      JoinedRequests(x[1..], y);
    }
  }

  lemma {:induction false} JoinedOrder(x: seq<Event>, y: seq<Event>, from: real, at: real)
    requires InOrder(x, from) && InOrder(y, at) && from <= at && Until(x, at)
    ensures InOrder(x + y, from)
    decreases |x|
  {
    if x == [] {
      assert x + y == y;
      EarlierStart(y, at, from);
    } else {
      var rest := x[1..];
      assert (x + y)[0] == x[0] && (x + y)[1..] == rest + y && x[0] in x;
      assert Until(rest, at) by { assert forall e :: e in rest ==> e in x; }
      JoinedOrder(rest, y, Reached(x[0], from), at);
    }
  }

  lemma {:induction false} EarlierStart(y: seq<Event>, at: real, from: real)
    requires InOrder(y, at) && from <= at
    ensures InOrder(y, from)
    decreases |y|
  {
    if y != [] && y[0].Cleanup? {
      EarlierStart(y[1..], Reached(y[0], at), Reached(y[0], from));
    }
  }

  /** Cleanup is unobservable exactly for limiters whose buckets refill completely
      within the idle time. */
  lemma CleanupUnobservableIff(p: Params)
    requires p.Valid()
    ensures (forall events :: InOrder(events, 0.0) ==> Replies(p, map[], events) == Replies(p, map[], Requests(events)))
            <==> p.rate * p.entryTTL >= p.Cap()
  {
    if p.rate * p.entryTTL >= p.Cap() {
      forall events | InOrder(events, 0.0) ensures Replies(p, map[], events) == Replies(p, map[], Requests(events)) {
        CleanupUnobservable(p, events, 0.0);
      }
    } else {
      var t, n, ip := Early(p), p.burst, "";
      var first, second := Repeat(ip, 0.0, n), Repeat(ip, t, n);
      var events := TwoBursts(p, ip, t);
      EarlyIsBetween(p);
      EarlyCleanupIsObservable(p, ip);
      BurstsInOrder(p, ip, t);
      CountFromReplies(p, map[], events, ip);
      CountFromReplies(p, map[], first + second, ip);
      assert InOrder(events, 0.0) && Replies(p, map[], events) != Replies(p, map[], Requests(events));
    }
  }

  lemma BurstsInOrder(p: Params, ip: string, t: real)
    requires t >= 0.0
    ensures InOrder(TwoBursts(p, ip, t), 0.0)
    ensures Requests(TwoBursts(p, ip, t)) == Repeat(ip, 0.0, p.burst) + Repeat(ip, t, p.burst)
    ensures forall e :: e in TwoBursts(p, ip, t) && e.Request? ==> e.ip == ip
    ensures forall e :: e in Repeat(ip, 0.0, p.burst) + Repeat(ip, t, p.burst) ==> e == Request(ip, e.now)
  {
    var first, second := Repeat(ip, 0.0, p.burst), Repeat(ip, t, p.burst);
    RepeatAt(ip, 0.0, p.burst);
    RepeatAt(ip, t, p.burst);
    assert Requests([Cleanup(t)]) == [] && InOrder([Cleanup(t)], 0.0) by { assert [Cleanup(t)][1..] == []; }
    JoinedOrder(first, [Cleanup(t)], 0.0, 0.0);
    JoinedOrder(first + [Cleanup(t)], second, 0.0, t);
    JoinedRequests(first, [Cleanup(t)]);
    JoinedRequests(first + [Cleanup(t)], second);
  }

  // ---- the limiter ---------------------------------------------------------

  class TokenBucket {
    var tokens: real
    const capacity: real
    const rate: real
    var lastRefill: real

    constructor (tokens: real, capacity: real, rate: real, lastRefill: real)
      ensures this.tokens == tokens && this.capacity == capacity && this.rate == rate && this.lastRefill == lastRefill
    {
      this.tokens, this.capacity, this.rate, this.lastRefill := tokens, capacity, rate, lastRefill;
    }

    method Allow(ghost p: Params, n: real, now: real) returns (r: Reply)
      requires p.Valid() && capacity == p.Cap() && rate == p.rate
      modifies this
      ensures var (b, reply) := TakeN(p, Bucket(old(tokens), old(lastRefill)), n, now);
              tokens == b.tokens && lastRefill == b.lastRefill && r == reply
    {
      var elapsed := now - lastRefill;
      tokens := if capacity <= tokens + elapsed * rate then capacity else tokens + elapsed * rate;
      lastRefill := now;
      if tokens >= n {
        tokens := tokens - n;
        return Allowed;
      }
      var missing := n - tokens;
      var retrySeconds := Ceil(missing / rate);
      if retrySeconds < 1 {
        retrySeconds := 1;
      }
      return RetryAfter(retrySeconds);
    }
  }

  class RateLimiter {
    const p: Params
    const cleanupInterval: real
    var buckets: map<string, TokenBucket>
    ghost var state: Buckets

    ghost predicate Valid()
      reads this, buckets.Values
    {
      && p.Valid() && buckets.Keys == state.Keys
      && (forall ip :: ip in buckets ==> Holds(ip))
      && (forall ip, jp :: ip in buckets && jp in buckets && ip != jp ==> buckets[ip] != buckets[jp])
    }

    ghost predicate Holds(ip: string)
      requires ip in buckets && ip in state
      reads this, buckets[ip]
    {
      var b := buckets[ip];
      b.capacity == p.Cap() && b.rate == p.rate && state[ip] == Bucket(b.tokens, b.lastRefill)
    }

    /** NewRateLimiter replaces parameters that are not positive by defaults. */
    constructor (ratePerSecond: real, burst: int, cleanupInterval: real, entryTTL: real)
      ensures Valid() && state == map[]
      ensures p.rate == if ratePerSecond <= 0.0 then 1.0 else ratePerSecond
      ensures p.burst == if burst <= 0 then 1 else burst
      ensures p.entryTTL == if entryTTL <= 0.0 then 300.0 else entryTTL
      ensures this.cleanupInterval == if cleanupInterval <= 0.0 then 60.0 else cleanupInterval
    {
      p := Params(if ratePerSecond <= 0.0 then 1.0 else ratePerSecond,
                  if burst <= 0 then 1 else burst,
                  if entryTTL <= 0.0 then 300.0 else entryTTL);
      this.cleanupInterval := if cleanupInterval <= 0.0 then 60.0 else cleanupInterval;
      buckets := map[];
      state := map[];
    }

    method Allow(ip: string, now: real) returns (r: Reply)
      requires Valid()
      modifies this, buckets.Values
      ensures Valid()
      ensures state == After(p, old(state), Request(ip, now))
      ensures [r] == ReplyTo(p, old(state), Request(ip, now))
    {
      var bucket: TokenBucket;
      if ip in buckets {
        bucket := buckets[ip];
        assert Holds(ip);
      } else {
        bucket := new TokenBucket(p.burst as real, p.burst as real, p.rate, now);
        buckets := buckets[ip := bucket];
      }
      r := bucket.Allow(p, 1.0, now);
      state := state[ip := Bucket(bucket.tokens, bucket.lastRefill)];
      forall jp | jp in buckets ensures Holds(jp) {
        if jp != ip { assert old(Holds(jp)); }
      }
    }

    method Cleanup(now: real)
      requires Valid()
      modifies this
      ensures Valid()
      ensures state == After(p, old(state), Event.Cleanup(now))
    {
      var todo := buckets.Keys;
      while todo != {}
        invariant Valid() && todo <= state.Keys <= old(state).Keys && state == CleanedBut(p, old(state), todo, now)
        decreases |todo|
      {
        NonEmpty(todo);
        var ip :| ip in todo;
        CleanOneMore(p, old(state), todo, ip, now);
        CollectIdle(ip, now);
        todo := todo - {ip};
      }
    }

    method CollectIdle(ip: string, now: real)
      requires Valid() && ip in state
      modifies this
      ensures Valid() && state == if now - old(state)[ip].lastRefill > p.entryTTL then old(state) - {ip} else old(state)
    {
      assert Holds(ip);
      if now - buckets[ip].lastRefill > p.entryTTL {
        RemoveBucket(ip);
      }
    }

    /** Drops one bucket. */
    method RemoveBucket(ip: string)
      requires Valid()
      modifies this
      ensures Valid() && buckets == old(buckets) - {ip} && state == old(state) - {ip}
    {
      buckets := buckets - {ip};
      state := state - {ip};
      forall jp | jp in buckets ensures Holds(jp) {
        assert old(Holds(jp));
      }
    }
  }

  /** Cleaned as far as the clients that are no longer to do. */
  function CleanedBut(p: Params, s: Buckets, todo: set<string>, now: real): Buckets {
    map ip | ip in s && (ip in todo || now - s[ip].lastRefill <= p.entryTTL) :: s[ip]
  }

  lemma CleanOneMore(p: Params, s: Buckets, todo: set<string>, ip: string, now: real)
    requires ip in todo && ip in s
    ensures var t := CleanedBut(p, s, todo, now);
            && ip in t
            && CleanedBut(p, s, todo - {ip}, now) == if now - t[ip].lastRefill > p.entryTTL then t - {ip} else t
  {
  }
}
