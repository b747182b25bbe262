/** The fixed-window rate limiter that runs on every API request
    (`RateLimitMiddleware.InvokeAsync`): per API key, the number of requests seen in the
    current one-minute window, kept in a distributed cache that forgets an entry at its
    absolute expiry. Times are `DateTime` ticks (100 ns since 0001-01-01 UTC). */
module RateLimit {
  import opened Wrappers
  import opened Ticks

  /** Seconds from 0001-01-01 to the Unix epoch (`DateTimeOffset.UnixEpochSeconds`). */
  const UnixEpochSeconds: int := 62_135_596_800
  /** The limit used when the request carries none. */
  const DefaultLimit: int := 10
  const KeyPrefix: string := "ratenLimit_"

  /** What the cache holds for one key: a serialised `RateLimitInfo`. */
  datatype Window = Window(count: int, start: nat) {
    /** `RateLimitInfo.WindowEnd`: one minute after the window starts. */
    function End(): nat
    {
      start + TicksPerMinute
    }
  }

  /** A cache entry: the window and the absolute time at which the cache drops it. */
  datatype Entry = Entry(window: Window, expiry: int)

  /** Accepted requests go on to the next handler; rejected ones get a 429 with `Retry-After`. */
  datatype Verdict = Accepted | Rejected(retryAfter: int)

  /** The `X-RateLimit-Limit`, `-Remaining` and `-Reset` headers and the verdict. */
  datatype Reply = Reply(limit: int, remaining: int, reset: int, verdict: Verdict)

  datatype Outcome = Outcome(reply: Reply, cache: map<string, Entry>)

  /** `$"ratenLimit_{sApiKey}"`: a missing key interpolates as the empty string. */
  function CacheKey(apiKey: Option<string>): (k: string)
    ensures |k| >= |KeyPrefix| && k[..|KeyPrefix|] == KeyPrefix
  {
    KeyPrefix + (if apiKey.Some? then apiKey.value else "")
  }

  /** Two requests share a counter exactly when their API keys print the same. */
  lemma CacheKeySame(a: Option<string>, b: Option<string>)
    ensures CacheKey(a) == CacheKey(b) <==>
      (if a.Some? then a.value else "") == (if b.Some? then b.value else "")
  {
    if CacheKey(a) == CacheKey(b) {
      assert CacheKey(a)[|KeyPrefix|..] == CacheKey(b)[|KeyPrefix|..];
    }
  }

  /** `Items["RateLimitPerMinute"] as int? ?? 10`. */
  function LimitOf(item: Option<int>): (limit: int)
    ensures item.None? ==> limit == DefaultLimit
    ensures item.Some? ==> limit == item.value
  {
    if item.Some? then item.value else DefaultLimit
  }

  /** The cache read: `GetStringAsync` yields nothing for an absent or expired key. */
  function Cached(cache: map<string, Entry>, key: string, now: nat): (r: Option<Window>)
    ensures r.Some? <==> key in cache && now < cache[key].expiry
    ensures r.Some? ==> r.value == cache[key].window
  {
    if key in cache && now < cache[key].expiry then Some(cache[key].window) else None
  }

  /** The window after counting this request: a fresh one starting now when nothing is
      cached or the cached window has ended, otherwise the cached one with one more request. */
  function NextWindow(cached: Option<Window>, now: nat): Window
  {
    match cached
    case None => Window(1, now)
    case Some(w) => if w.End() <= now then Window(1, now) else Window(w.count + 1, w.start)
  }

  /** `Math.Ceiling` of a tick span in seconds. */
  function CeilSeconds(ticks: int): (r: int)
    ensures (r - 1) * TicksPerSecond < ticks <= r * TicksPerSecond
  {
    if ticks % TicksPerSecond == 0 then ticks / TicksPerSecond else ticks / TicksPerSecond + 1
  }

  /** `new DateTimeOffset(t).ToUnixTimeSeconds()` for a UTC time. */
  function UnixSeconds(ticks: nat): (r: int)
    ensures (r + UnixEpochSeconds) * TicksPerSecond <= ticks < (r + UnixEpochSeconds + 1) * TicksPerSecond
  {
    ticks / TicksPerSecond - UnixEpochSeconds
  }

  function Max(a: int, b: int): int
  {
    if a < b then b else a
  }

  /** The headers and the verdict for a request that brought the window to `w`. */
  function Respond(limit: int, w: Window, now: nat): Reply
  {
    Reply(limit, Max(0, limit - w.count), UnixSeconds(w.End()),
          if w.count > limit then Rejected(CeilSeconds(w.End() - now)) else Accepted)
  }

  /** One request through the middleware: count it, answer it, and store the new window
      (expiring at its end) only when the request is let through. */
  function Step(cache: map<string, Entry>, apiKey: Option<string>, limitItem: Option<int>, now: nat): Outcome
  {
    var key := CacheKey(apiKey);
    var w := NextWindow(Cached(cache, key, now), now);
    var reply := Respond(LimitOf(limitItem), w, now);
    if reply.verdict.Rejected? then Outcome(reply, cache)
    else Outcome(reply, cache[key := Entry(w, now + (w.End() - now))])
  }

  /** The window this request falls in, as `Step` computes it. */
  function Counted(cache: map<string, Entry>, apiKey: Option<string>, now: nat): Window
  {
    NextWindow(Cached(cache, CacheKey(apiKey), now), now)
  }

  /** The `X-RateLimit-Limit` header and the threshold are the configured limit, or 10
      when the request carries none. */
  lemma StepLimit(cache: map<string, Entry>, apiKey: Option<string>, limitItem: Option<int>, now: nat)
    ensures var reply := Step(cache, apiKey, limitItem, now).reply;
      && (limitItem.None? ==> reply.limit == 10 && (reply.verdict.Rejected? <==> Counted(cache, apiKey, now).count > 10))
      && (limitItem.Some? ==>
            reply.limit == limitItem.value
            && (reply.verdict.Rejected? <==> Counted(cache, apiKey, now).count > limitItem.value))
  {
  }

  /** How the cache decides the window: an absent or expired entry, or one whose window
      has ended, starts a fresh window at `now`; otherwise the request joins the cached
      window. */
  lemma CountedFromCache(cache: map<string, Entry>, apiKey: Option<string>, now: nat)
    ensures var key := CacheKey(apiKey);
      var restart := key !in cache || cache[key].expiry <= now || cache[key].window.End() <= now;
      Counted(cache, apiKey, now)
        == if restart then Window(1, now) else Window(cache[key].window.count + 1, cache[key].window.start)
  {
  }

  /** A request is turned away exactly when it is over the limit; a turned-away request
      leaves the cache as it was. */
  lemma StepRejects(cache: map<string, Entry>, apiKey: Option<string>, limitItem: Option<int>, now: nat)
    ensures Step(cache, apiKey, limitItem, now).reply.verdict.Rejected?
      <==> Counted(cache, apiKey, now).count > LimitOf(limitItem)
    ensures Step(cache, apiKey, limitItem, now).reply.verdict.Rejected?
      ==> Step(cache, apiKey, limitItem, now).cache == cache
  {
  }

  /** A let-through request is stored under its key, readable until exactly the end of
      its window and no longer; no other key changes. */
  lemma StepStores(cache: map<string, Entry>, apiKey: Option<string>, limitItem: Option<int>, now: nat, t: nat)
    requires Step(cache, apiKey, limitItem, now).reply.verdict.Accepted?
    ensures var c' := Step(cache, apiKey, limitItem, now).cache;
      var w := Counted(cache, apiKey, now);
      Cached(c', CacheKey(apiKey), t) == (if t < w.End() then Some(w) else None)
    ensures var c' := Step(cache, apiKey, limitItem, now).cache;
      forall k :: k != CacheKey(apiKey) ==> (k in c' <==> k in cache) && (k in cache ==> c'[k] == cache[k])
  {
  }

  /** The relative expiration handed to the cache is always positive, so the store
      never throws. */
  lemma ExpiryAhead(cache: map<string, Entry>, apiKey: Option<string>, limitItem: Option<int>, now: nat)
    requires Step(cache, apiKey, limitItem, now).reply.verdict.Accepted?
    ensures Counted(cache, apiKey, now).End() - now > 0
  {
  }

  /** The window always holds the current time and counts this request. */
  lemma CountedWindow(cache: map<string, Entry>, apiKey: Option<string>, now: nat)
    requires EntriesCounted(cache)
    ensures var w := Counted(cache, apiKey, now);
      w.count >= 1 && now < w.End()
  {
  }

  /** Every stored window has counted at least one request. */
  predicate EntriesCounted(cache: map<string, Entry>)
  {
    forall k :: k in cache ==> cache[k].window.count >= 1
  }

  /** `X-RateLimit-Remaining` is never negative, is zero on a rejection and otherwise is
      what is left of the limit after this request. */
  lemma RemainingMeaning(cache: map<string, Entry>, apiKey: Option<string>, limitItem: Option<int>, now: nat)
    ensures var r := Step(cache, apiKey, limitItem, now).reply;
      r.remaining >= 0 && (r.verdict.Rejected? ==> r.remaining == 0)
    ensures var r := Step(cache, apiKey, limitItem, now).reply;
      r.verdict.Accepted? ==> r.remaining + Counted(cache, apiKey, now).count == LimitOf(limitItem)
  {
  }

  /** `Retry-After` is at least one second, at most the window length when no window
      started in the future, and long enough: a request that waits that long starts a
      fresh window. */
  lemma RetryAfterMeaning(cache: map<string, Entry>, apiKey: Option<string>, limitItem: Option<int>, now: nat, later: nat)
    requires EntriesCounted(cache)
    requires Step(cache, apiKey, limitItem, now).reply.verdict.Rejected?
    requires later >= now + Step(cache, apiKey, limitItem, now).reply.verdict.retryAfter * TicksPerSecond
    ensures Step(cache, apiKey, limitItem, now).reply.verdict.retryAfter >= 1
    ensures StartedBy(cache, now) ==> Step(cache, apiKey, limitItem, now).reply.verdict.retryAfter <= 60
    ensures Counted(Step(cache, apiKey, limitItem, now).cache, apiKey, later) == Window(1, later)
  {
    CountedWindow(cache, apiKey, now);
  }

  /** No stored window starts after `now`: time only moves forward. */
  predicate StartedBy(cache: map<string, Entry>, now: nat)
  {
    forall k :: k in cache ==> cache[k].window.start <= now
  }

  /** With one limit for everybody, every stored count stays between 1 and the limit. */
  predicate Bounded(cache: map<string, Entry>, limit: int)
  {
    forall k :: k in cache ==> 1 <= cache[k].window.count <= limit
  }

  lemma StepKeepsBounded(cache: map<string, Entry>, apiKey: Option<string>, limitItem: Option<int>, now: nat)
    requires Bounded(cache, LimitOf(limitItem))
    ensures Bounded(Step(cache, apiKey, limitItem, now).cache, LimitOf(limitItem))
    ensures EntriesCounted(Step(cache, apiKey, limitItem, now).cache)
  {
  }

  /** The verdicts for a series of requests from one client. */
  function Run(cache: map<string, Entry>, apiKey: Option<string>, limitItem: Option<int>, times: seq<nat>): (r: seq<Verdict>)
    ensures |r| == |times|
    decreases |times|
  {
    if |times| == 0 then []
    else
      var o := Step(cache, apiKey, limitItem, times[0]);
      [o.reply.verdict] + Run(o.cache, apiKey, limitItem, times[1..])
  }

  /** All the times fall inside the minute that starts at `t0`. */
  predicate Within(times: seq<nat>, t0: nat)
  {
    forall i :: 0 <= i < |times| ==> t0 <= times[i] < t0 + TicksPerMinute
  }

  /** Mid-window: with `c` requests already counted, the next ones are let through until
      the count reaches the limit and turned away from then on. */
  lemma {:induction false} RunFromCount(cache: map<string, Entry>, apiKey: Option<string>, limit: int,
                                        times: seq<nat>, t0: nat, c: int)
    requires CacheKey(apiKey) in cache
    requires cache[CacheKey(apiKey)] == Entry(Window(c, t0), t0 + TicksPerMinute)
    requires 1 <= c <= limit && Within(times, t0)
    ensures forall i :: 0 <= i < |times| ==>
      (Run(cache, apiKey, Some(limit), times)[i].Accepted? <==> c + i < limit)
    decreases |times|
  {
    if |times| > 0 {
      var key := CacheKey(apiKey);
      var o := Step(cache, apiKey, Some(limit), times[0]);
      assert Cached(cache, key, times[0]) == Some(Window(c, t0));
      assert Within(times[1..], t0) by {
        forall i | 0 <= i < |times[1..]| ensures t0 <= times[1..][i] < t0 + TicksPerMinute {
          assert times[1..][i] == times[i + 1];
        }
      }
      var c' := if c < limit then c + 1 else c;
      assert key in o.cache && o.cache[key] == Entry(Window(c', t0), t0 + TicksPerMinute);
      RunFromCount(o.cache, apiKey, limit, times[1..], t0, c');
      var r := Run(cache, apiKey, Some(limit), times);
      assert r == [o.reply.verdict] + Run(o.cache, apiKey, Some(limit), times[1..]);
      forall i | 0 <= i < |times| ensures r[i].Accepted? <==> c + i < limit {
        if i > 0 {
          assert r[i] == Run(o.cache, apiKey, Some(limit), times[1..])[i - 1];
        }
      }
    }
  }

  /** With a limit below one, nothing is ever let through and nothing is stored. */
  lemma {:induction false} RunBelowOne(cache: map<string, Entry>, apiKey: Option<string>, limit: int, times: seq<nat>)
    requires limit < 1 && EntriesCounted(cache)
    ensures forall i :: 0 <= i < |times| ==> Run(cache, apiKey, Some(limit), times)[i].Rejected?
    decreases |times|
  {
    if |times| > 0 {
      var o := Step(cache, apiKey, Some(limit), times[0]);
      CountedWindow(cache, apiKey, times[0]);
      assert o.cache == cache;
      RunBelowOne(cache, apiKey, limit, times[1..]);
      var r := Run(cache, apiKey, Some(limit), times);
      forall i | 0 <= i < |times| ensures r[i].Rejected? {
        if i > 0 {
          assert r[i] == Run(cache, apiKey, Some(limit), times[1..])[i - 1];
        }
      }
    }
  }

  /** The limiter's promise: of the requests a client makes within one minute of its first
      one, with no window of its own open, exactly the first `limit` are let through. */
  lemma {:induction false} AtMostLimitPerWindow(cache: map<string, Entry>, apiKey: Option<string>, limit: int,
                                                times: seq<nat>)
    requires |times| > 0 && Within(times, times[0]) && EntriesCounted(cache)
    requires Cached(cache, CacheKey(apiKey), times[0]).None?
    ensures forall i :: 0 <= i < |times| ==>
      (Run(cache, apiKey, Some(limit), times)[i].Accepted? <==> i < limit)
  {
    var t0 := times[0];
    var o := Step(cache, apiKey, Some(limit), t0);
    var r := Run(cache, apiKey, Some(limit), times);
    if limit < 1 {
      RunBelowOne(cache, apiKey, limit, times);
    } else {
      assert Within(times[1..], t0) by {
        forall i | 0 <= i < |times[1..]| ensures t0 <= times[1..][i] < t0 + TicksPerMinute {
          assert times[1..][i] == times[i + 1];
        }
      }
      RunFromCount(o.cache, apiKey, limit, times[1..], t0, 1);
      forall i | 0 <= i < |times| ensures r[i].Accepted? <==> i < limit {
        if i > 0 {
          assert r[i] == Run(o.cache, apiKey, Some(limit), times[1..])[i - 1];
        }
      }
    }
  }

  /** `RateLimitInfo`, deserialised from the cache (or made fresh) and updated in place. */
  class RateLimitInfo {
    var requestCount: int
    var windowStart: nat

    constructor(count: int, start: nat)
      ensures requestCount == count && windowStart == start
    {
      requestCount := count;
      windowStart := start;
    }

    /** The value the cache stores for this object. */
    function Snapshot(): Window
      reads this
    {
      Window(requestCount, windowStart)
    }

    function WindowEnd(): nat
      reads this
    {
      Snapshot().End()
    }
  }

  /** The middleware: the cache it shares with every request, and how many requests it
      has handed on to the next handler. */
  class RateLimitMiddleware {
    var cache: map<string, Entry>
    var forwarded: nat

    constructor(initial: map<string, Entry>)
      ensures cache == initial && forwarded == 0
    {
      cache := initial;
      forwarded := 0;
    }

    /** `InvokeAsync`: the request's API key and limit come from the items an earlier
        middleware left on the context, `now` is `DateTime.UtcNow`. */
    method InvokeAsync(apiKey: Option<string>, limitItem: Option<int>, now: nat) returns (reply: Reply)
      modifies this
      ensures Outcome(reply, cache) == Step(old(cache), apiKey, limitItem, now)
      ensures forwarded == old(forwarded) + (if reply.verdict.Accepted? then 1 else 0)
    {
      var limit := LimitOf(limitItem);
      var key := CacheKey(apiKey);
      var info: RateLimitInfo;
      var cached := Cached(cache, key, now);
      if cached.Some? {
        var w := cached.value;
        info := new RateLimitInfo(w.count, w.start);
        if info.WindowEnd() <= now {
          info.requestCount := 1;
          info.windowStart := now;
        } else {
          info.requestCount := info.requestCount + 1;
        }
      } else {
        info := new RateLimitInfo(1, now);
      }
      var counted := info.Snapshot();
      var windowEnd := info.WindowEnd();
      assert counted == Counted(old(cache), apiKey, now) && windowEnd == counted.End();
      var remaining := limit - counted.count;
      var reset := UnixSeconds(windowEnd);
      if counted.count > limit {
        var retryAfter := CeilSeconds(windowEnd - now);
        reply := Reply(limit, if remaining < 0 then 0 else remaining, reset, Rejected(retryAfter));
        assert reply == Respond(limit, counted, now);
        return;
      }
      var expiration := windowEnd - now;
      cache := cache[key := Entry(counted, now + expiration)];
      reply := Reply(limit, if remaining < 0 then 0 else remaining, reset, Accepted);
      assert reply == Respond(limit, counted, now);
      forwarded := forwarded + 1;
    }
  }
}
