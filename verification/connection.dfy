/**
 * `connectDB`: a process-wide cache of the Mongoose connection, `{conn, promise}`.
 * The call is modelled sequentially in two steps, `Begin` (everything before the
 * `await`) and `Finish` (everything after it), so that awaiting the promise is an
 * explicit step. `mongoose.connection.readyState === 1` is an abstract readiness
 * flag, read once on entry and once after the await.
 */
module Connection {
  import opened Wrappers

  /** The value a connect promise resolves to (the Mongoose instance). */
  datatype Mongoose = Mongoose(handle: nat)

  /** The promise of the `n`-th `mongoose.connect` call of the process. */
  datatype Promise = Promise(attempt: nat)

  /**
   * The cache. `started` is not a field of the original cache: it counts the
   * `mongoose.connect` calls made so far and so gives each promise its identity.
   */
  datatype Cache = Cache(conn: Option<Mongoose>, promise: Option<Promise>, started: nat)

  /** The environment: whether `MONGODB_URI` is set, and how each connect attempt settles. */
  datatype Env = Env(uriConfigured: bool, settle: nat -> Result<Mongoose, Thrown>)

  const UriVariable := "MONGODB_URI"
  const MissingUriPrefix := "Please define the "
  const MissingUriMessage := MissingUriPrefix + UriVariable + " environment variable inside .env.local"
  const NotReadyMessage := "MongoDB connection is not ready"

  /** The cache of a freshly loaded module. */
  const Initial := Cache(None, None, 0)

  /** What the first half of a call does before it suspends, or instead of suspending. */
  datatype Begun =
    | FastPath(conn: Mongoose)
    | ConfigFailure(error: Thrown)
    | Awaiting(cache: Cache, awaited: Promise)

  /**
   * Up to the `await`: return a ready cached connection; otherwise reuse the
   * cached promise, or (with no promise cached) check the URI and start exactly
   * one connect, publishing its promise.
   */
  function Begin(c: Cache, uriConfigured: bool, ready: bool): (b: Begun)
    ensures b.FastPath? <==> c.conn.Some? && ready
    ensures b.FastPath? ==> b.conn == c.conn.value
    ensures b.ConfigFailure? <==> !(c.conn.Some? && ready) && c.promise.None? && !uriConfigured
    ensures b.ConfigFailure? ==> b.error == ErrorObject(MissingUriMessage)
    ensures b.Awaiting? ==> b.cache.conn == c.conn && b.cache.promise == Some(b.awaited)
    ensures b.Awaiting? && c.promise.Some? ==> b.cache == c && b.awaited == c.promise.value
    ensures b.Awaiting? && c.promise.None? ==> b.cache.started == c.started + 1 && b.awaited.attempt == c.started
  {
    if c.conn.Some? && ready then FastPath(c.conn.value)
    else if c.promise.Some? then Awaiting(c, c.promise.value)
    else if !uriConfigured then ConfigFailure(ErrorObject(MissingUriMessage))
    else
      var p := Promise(c.started);
      Awaiting(c.(promise := Some(p), started := c.started + 1), p)
  }

  /**
   * After the `await`: on success store the value as `conn` (the promise stays
   * cached) and check readiness; on a rejected promise or a connection that is
   * not ready, clear both `conn` and `promise` and throw.
   */
  function Finish(c: Cache, outcome: Result<Mongoose, Thrown>, ready: bool): (r: (Cache, Result<Mongoose, Thrown>))
    ensures r.0.started == c.started
    ensures r.1.Ok? <==> outcome.Ok? && ready
    ensures r.1.Ok? ==> r.1 == outcome && r.0 == c.(conn := Some(outcome.value))
    ensures r.1.Err? ==> r.0.conn.None? && r.0.promise.None?
    ensures outcome.Err? ==> r.1 == outcome
    ensures outcome.Ok? && !ready ==> r.1 == Err(ErrorObject(NotReadyMessage))
  {
    match outcome
    case Err(e) => (c.(conn := None, promise := None), Err(e))
    case Ok(m) =>
      if ready then (c.(conn := Some(m)), Ok(m))
      else (c.(conn := None, promise := None), Err(ErrorObject(NotReadyMessage)))
  }

  /**
   * The cache is coherent with the environment: a cached connection is the
   * value of the cached promise, and every cached promise belongs to a connect
   * already started.
   */
  predicate Coherent(c: Cache, env: Env) {
    && (c.conn.Some? ==> c.promise.Some? && env.settle(c.promise.value.attempt) == Ok(c.conn.value))
    && (c.promise.Some? ==> c.promise.value.attempt < c.started)
  }

  /** One whole `connectDB()` call: `Begin`, then await the promise, then `Finish`. */
  function ConnectDB(c: Cache, env: Env, readyOnEntry: bool, readyAfterAwait: bool): (r: (Cache, Result<Mongoose, Thrown>))
    // fast path: the cached connection is returned and nothing changes
    ensures c.conn.Some? && readyOnEntry ==> r == (c, Ok(c.conn.value))
    // no new connect while a promise is cached
    ensures c.promise.Some? ==> r.0.started == c.started
    // at most one new connect per call
    ensures r.0.started == c.started || (c.promise.None? && r.0.started == c.started + 1)
    // missing configuration: the state is left as it was
    ensures !(c.conn.Some? && readyOnEntry) && c.promise.None? && !env.uriConfigured ==>
      r == (c, Err(ErrorObject(MissingUriMessage)))
    // any other failure (a rejected promise, or not ready after the await) resets both fields
    ensures r.1.Err? && (c.promise.Some? || env.uriConfigured) ==>
      && r.0.conn.None? && r.0.promise.None?
      && var awaited := if c.promise.Some? then c.promise.value.attempt else c.started;
         (r.1 == env.settle(awaited) || r.1 == Err(ErrorObject(NotReadyMessage)))
    // success stores the awaited value and keeps its promise cached
    ensures r.1.Ok? && !(c.conn.Some? && readyOnEntry) ==>
      && r.0.promise.Some? && r.0.conn == Some(r.1.value)
      && env.settle(r.0.promise.value.attempt) == r.1
    // sequential calls keep the cache coherent
    ensures Coherent(c, env) ==> Coherent(r.0, env)
  {
    match Begin(c, env.uriConfigured, readyOnEntry)
    case FastPath(m) => (c, Ok(m))
    case ConfigFailure(e) => (c, Err(e))
    case Awaiting(c1, p) => Finish(c1, env.settle(p.attempt), readyAfterAwait)
  }

  /**
   * A cached connection that is no longer ready is not re-established by the
   * same call: the old promise is awaited again, yields the same stale
   * connection, fails the readiness check and clears the cache; the next call
   * then starts a fresh connect.
   */
  lemma StaleConnectionNeedsTwoCalls(c: Cache, env: Env, readyLater: bool)
    requires Coherent(c, env) && c.conn.Some? && env.uriConfigured
    ensures var (c1, r1) := ConnectDB(c, env, false, false);
      && r1 == Err(ErrorObject(NotReadyMessage))
      && c1 == Cache(None, None, c.started)
      && var b := Begin(c1, env.uriConfigured, readyLater);
         b.Awaiting? && b.awaited == Promise(c.started) && b.cache.started == c.started + 1
  {
  }

  /**
   * Two calls interleaved at their `await` (the second begins before the first
   * finishes) share one connect: the second awaits the promise the first started.
   */
  lemma InterleavedCallsShareOneConnect(c: Cache, uriConfigured: bool, ready1: bool, ready2: bool)
    requires Begin(c, uriConfigured, ready1).Awaiting?
    requires c.conn.None?
    ensures var b1 := Begin(c, uriConfigured, ready1);
      var b2 := Begin(b1.cache, uriConfigured, ready2);
      && b2.Awaiting?
      && b2.awaited == b1.awaited
      && b2.cache == b1.cache
      && b2.cache.started <= c.started + 1
  {
  }
}
