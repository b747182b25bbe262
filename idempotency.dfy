/** The idempotency-key gate put on POST actions (`IdempotentAttribute.OnActionExecutionAsync`):
    a POST carrying a key it has already seen is refused without running the action, and a
    fresh key is remembered only when the action succeeded. Times are `DateTime` ticks. */
module Idempotency {
  import opened Wrappers
  import opened Text
  import opened Values
  import opened Ticks

  const DefaultCacheTimeInMinutes: int := 60
  const DefaultHeaderKey: string := "X-Idempotency-Key"
  const KeyPrefix: string := "Idempotent_"
  /** `Request.Path.Value?.ToLowerInvariant() ?? "unknown"` when there is no path. */
  const UnknownPath: string := "unknown"

  /** What the filter reads of the request: its method, its path and its headers. */
  datatype Request = Request(verb: string, path: Option<string>, headers: seq<(string, string)>)

  /** What the action produced: an `ObjectResult` (status code, value) or any other result. */
  datatype ActionResult = ObjectResult(statusCode: Option<int>, value: Value) | OtherResult

  /** The serialised `IdempotentResponse` kept in the cache, and when the cache drops it. */
  datatype Stored = Stored(statusCode: int, value: Value, path: string)
  datatype Entry = Entry(response: Stored, expiry: int)

  /** How the filter ended the request. The 400 results carry their message. */
  datatype Decision =
    | PassedThrough(result: ActionResult)   // not guarded: the action ran, no cache access
    | MissingHeader(message: string)        // 400, action not run
    | PathMismatch(message: string)         // 400, action not run
    | AlreadyUsed(message: string)          // 400 with a failed `Response<bool>` body
    | Executed(result: ActionResult)        // fresh key: the action ran
    | StoreRefused(result: ActionResult)    // the action ran, then the cache refused a lifetime <= 0
  {
    predicate Ran()
    {
      PassedThrough? || Executed? || StoreRefused?
    }
  }

  datatype Outcome = Outcome(decision: Decision, cache: map<string, Entry>)

  /** The attribute's settings: the entry lifetime in ticks, the header name, the switch. */
  datatype Settings = Settings(cacheDuration: int, headerKeyName: string, isEnabled: bool)

  /** `HttpMethods.IsPost`: the method name compared to "POST" ignoring case. */
  predicate IsPost(verb: string)
  {
    EqualsIgnoreCase(verb, "POST")
  }

  /** The header value, when the header is present (header names ignore case). */
  function HeaderValue(headers: seq<(string, string)>, name: string): (r: Option<string>)
    ensures r.Some? <==> exists i :: 0 <= i < |headers| && EqualsIgnoreCase(headers[i].0, name)
    ensures r.Some? ==> exists i :: 0 <= i < |headers| && EqualsIgnoreCase(headers[i].0, name) && r.value == headers[i].1
  {
    match FindMember(headers, name, 0)
    case None => None
    case Some(i) => Some(headers[i].1)
  }

  /** `$"Idempotent_{key}"`: the prefix, then exactly the header value. */
  function CacheKey(key: string): (k: string)
    ensures |k| == |KeyPrefix| + |key| && k[..|KeyPrefix|] == KeyPrefix
    ensures k[|KeyPrefix|..] == key
  {
    KeyPrefix + key
  }

  /** Different header values never share a cache entry. */
  lemma CacheKeyInjective(a: string, b: string)
    ensures CacheKey(a) == CacheKey(b) <==> a == b
  {
    if CacheKey(a) == CacheKey(b) {
      assert a == CacheKey(a)[|KeyPrefix|..];
    }
  }

  /** The request path as the filter records it. */
  function RecordedPath(path: Option<string>): (r: string)
    ensures path.Some? ==> r == LowerAll(path.value)
    ensures path.None? ==> r == UnknownPath
  {
    if path.Some? then LowerAll(path.value) else UnknownPath
  }

  /** The cache read: `GetStringAsync` yields nothing for an absent or expired key. */
  function Lookup(cache: map<string, Entry>, key: string, now: int): (r: Option<Stored>)
    ensures r.Some? <==> key in cache && now < cache[key].expiry
    ensures r.Some? ==> r.value == cache[key].response
  {
    if key in cache && now < cache[key].expiry then Some(cache[key].response) else None
  }

  /** `ObjectResult { StatusCode: >= 200 and < 300 }`. */
  predicate Succeeded(result: ActionResult)
  {
    result.ObjectResult? && result.statusCode.Some? && 200 <= result.statusCode.value < 300
  }

  /** The whole filter as a function of the settings, the cache, the request, what the
      action would return and the current time. */
  function Decide(settings: Settings, cache: map<string, Entry>, request: Request, action: ActionResult, now: int): Outcome
  {
    if !settings.isEnabled || !IsPost(request.verb) then Outcome(PassedThrough(action), cache)
    else match HeaderValue(request.headers, settings.headerKeyName)
      case None =>
        Outcome(MissingHeader("Invalid or missing " + settings.headerKeyName + " header"), cache)
      case Some(value) =>
        var key := CacheKey(value);
        var path := RecordedPath(request.path);
        match Lookup(cache, key, now)
        case Some(stored) =>
          if !EqualsIgnoreCase(path, stored.path) then
            Outcome(PathMismatch("The idempotency key '" + value + "' was used in a different request path."), cache)
          else
            Outcome(AlreadyUsed("The idempotency key '" + value + "' was already used."), cache)
        case None =>
          if !Succeeded(action) then Outcome(Executed(action), cache)
          else if settings.cacheDuration <= 0 then Outcome(StoreRefused(action), cache)
          else
            Outcome(Executed(action),
                    cache[key := Entry(Stored(action.statusCode.value, action.value, path), now + settings.cacheDuration)])
  }

  /** Switched off, or not a POST: the action runs and the cache is neither read nor written. */
  lemma UnguardedPassesThrough(settings: Settings, cache: map<string, Entry>, request: Request, action: ActionResult, now: int)
    requires !settings.isEnabled || !IsPost(request.verb)
    ensures Decide(settings, cache, request, action, now) == Outcome(PassedThrough(action), cache)
  {
  }

  /** A guarded request without the header is refused and touches nothing. */
  lemma MissingHeaderRefused(settings: Settings, cache: map<string, Entry>, request: Request, action: ActionResult, now: int)
    requires settings.isEnabled && IsPost(request.verb)
    requires forall i :: 0 <= i < |request.headers| ==> !EqualsIgnoreCase(request.headers[i].0, settings.headerKeyName)
    ensures Decide(settings, cache, request, action, now)
      == Outcome(MissingHeader("Invalid or missing " + settings.headerKeyName + " header"), cache)
  {
  }

  /** A key still in the cache is always refused, without running the action or changing
      the cache; the message says "already used" exactly when the recorded paths match. */
  lemma UsedKeyRefused(settings: Settings, cache: map<string, Entry>, request: Request, action: ActionResult, now: int,
                       value: string)
    requires settings.isEnabled && IsPost(request.verb)
    requires HeaderValue(request.headers, settings.headerKeyName) == Some(value)
    requires Lookup(cache, CacheKey(value), now).Some?
    ensures var o := Decide(settings, cache, request, action, now);
      !o.decision.Ran() && o.cache == cache && (o.decision.AlreadyUsed? || o.decision.PathMismatch?)
    ensures Decide(settings, cache, request, action, now).decision.AlreadyUsed?
      <==> EqualsIgnoreCase(RecordedPath(request.path), cache[CacheKey(value)].response.path)
  {
  }

  /** A fresh key runs the action once; the cache gains exactly that key, holding the
      status, value and recorded path, exactly when the action succeeded and the lifetime
      is positive. */
  lemma FreshKeyRuns(settings: Settings, cache: map<string, Entry>, request: Request, action: ActionResult, now: int,
                     value: string)
    requires settings.isEnabled && IsPost(request.verb)
    requires HeaderValue(request.headers, settings.headerKeyName) == Some(value)
    requires Lookup(cache, CacheKey(value), now).None?
    ensures var o := Decide(settings, cache, request, action, now);
      o.decision.Ran() && (o.decision.StoreRefused? <==> Succeeded(action) && settings.cacheDuration <= 0)
    ensures var o := Decide(settings, cache, request, action, now);
      o.cache != cache <==> Succeeded(action) && settings.cacheDuration > 0
    ensures var o := Decide(settings, cache, request, action, now);
      o.cache != cache ==>
        o.cache == cache[CacheKey(value) := Entry(Stored(action.statusCode.value, action.value, RecordedPath(request.path)),
                                                  now + settings.cacheDuration)]
  {
    var o := Decide(settings, cache, request, action, now);
    if Succeeded(action) && settings.cacheDuration > 0 {
      var key := CacheKey(value);
      assert key !in cache || cache[key].expiry <= now;
      assert o.cache[key].expiry > now;
    }
  }

  /** The gate's promise: once a request has been remembered, repeating it with the same
      key before the entry expires is refused as already used, whatever the action would
      return, and the same key on a path that differs is refused as a path mismatch. */
  lemma ReplayRefused(settings: Settings, cache: map<string, Entry>, request: Request, action: ActionResult, now: int,
                      again: Request, action2: ActionResult, later: int)
    requires Decide(settings, cache, request, action, now).cache != cache
    requires again.verb == request.verb && again.headers == request.headers
    requires now <= later < now + settings.cacheDuration
    ensures var o := Decide(settings, Decide(settings, cache, request, action, now).cache, again, action2, later);
      !o.decision.Ran() && o.cache == Decide(settings, cache, request, action, now).cache
    ensures var o := Decide(settings, Decide(settings, cache, request, action, now).cache, again, action2, later);
      o.decision.AlreadyUsed? <==> EqualsIgnoreCase(RecordedPath(again.path), RecordedPath(request.path))
  {
    var value := HeaderValue(request.headers, settings.headerKeyName).value;
    var c' := Decide(settings, cache, request, action, now).cache;
    assert Lookup(c', CacheKey(value), later).Some?;
    UsedKeyRefused(settings, c', again, action2, later, value);
  }

  /** The stored path is compared with the request's ignoring case, a missing path
      counting as `unknown`: the lower-casing itself never changes the verdict. */
  lemma RecordedPathsMatch(p: Option<string>, q: Option<string>)
    ensures EqualsIgnoreCase(RecordedPath(p), RecordedPath(q))
      <==> EqualsIgnoreCase(if p.Some? then p.value else UnknownPath, if q.Some? then q.value else UnknownPath)
  {
    var a := if p.Some? then p.value else UnknownPath;
    var b := if q.Some? then q.value else UnknownPath;
    LowerAllIdempotent(a);
    LowerAllIdempotent(b);
    assert LowerAll(UnknownPath) == UnknownPath;
  }

  /** An entry past its expiry is as good as absent: the request is decided as if the
      key had never been used. */
  lemma ExpiredKeyIsFresh(settings: Settings, cache: map<string, Entry>, request: Request, action: ActionResult, now: int,
                          value: string)
    requires HeaderValue(request.headers, settings.headerKeyName) == Some(value)
    requires CacheKey(value) in cache && cache[CacheKey(value)].expiry <= now
    ensures Decide(settings, cache, request, action, now).decision
      == Decide(settings, cache - {CacheKey(value)}, request, action, now).decision
  {
  }

  /** The shared distributed cache, as the filter sees it. */
  class DistributedCache {
    var entries: map<string, Entry>

    constructor(initial: map<string, Entry>)
      ensures entries == initial
    {
      entries := initial;
    }
  }

  class IdempotentAttribute {
    /** The entry lifetime in ticks. */
    const cacheDuration: int
    const headerKeyName: string
    const isEnabled: bool

    /** The lifetime is `TimeSpan.FromMinutes(cacheTimeInMinutes)`. */
    constructor(cacheTimeInMinutes: int, headerKeyName: string, isEnabled: bool)
      ensures Config() == Settings(cacheTimeInMinutes * TicksPerMinute, headerKeyName, isEnabled)
    {
      cacheDuration := cacheTimeInMinutes * TicksPerMinute;
      this.headerKeyName := headerKeyName;
      this.isEnabled := isEnabled;
    }

    /** `[Idempotent]` with no arguments: one hour, `X-Idempotency-Key`, switched on. */
    constructor WithDefaults()
      ensures Config() == Settings(DefaultCacheTimeInMinutes * TicksPerMinute, DefaultHeaderKey, true)
    {
      cacheDuration := DefaultCacheTimeInMinutes * TicksPerMinute;
      headerKeyName := DefaultHeaderKey;
      isEnabled := true;
    }

    function Config(): Settings
    {
      Settings(cacheDuration, headerKeyName, isEnabled)
    }

    /** `OnActionExecutionAsync`: `action` is what the action returns if it is run, `now`
        the clock the cache uses for expiry. */
    method OnActionExecutionAsync(cache: DistributedCache, request: Request, action: ActionResult, now: int)
      returns (decision: Decision)
      modifies cache
      ensures Outcome(decision, cache.entries) == Decide(Config(), old(cache.entries), request, action, now)
    {
      if !isEnabled || !IsPost(request.verb) {
        return PassedThrough(action);
      }
      var header := HeaderValue(request.headers, headerKeyName);
      if header.None? {
        return MissingHeader("Invalid or missing " + headerKeyName + " header");
      }
      var value := header.value;
      var key := CacheKey(value);
      var cached := Lookup(cache.entries, key, now);
      if cached.Some? {
        var path := RecordedPath(request.path);
        if !EqualsIgnoreCase(path, cached.value.path) {
          decision := PathMismatch("The idempotency key '" + value + "' was used in a different request path.");
        } else {
          decision := AlreadyUsed("The idempotency key '" + value + "' was already used.");
        }
        return;
      }
      decision := Executed(action);
      if action.ObjectResult? && action.statusCode.Some? && 200 <= action.statusCode.value < 300 {
        var statusCode := action.statusCode.value;
        var path := RecordedPath(request.path);
        if cacheDuration <= 0 {
          return StoreRefused(action);
        }
        cache.entries := cache.entries[key := Entry(Stored(statusCode, action.value, path), now + cacheDuration)];
      }
    }
  }
}
