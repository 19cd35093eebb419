/**
 The login-failure cache under any interleaving (internal/infisical/session.go). Its three operations are each atomic
 under their own lock, so any concurrent use by any sessions is a sequence of them.
 */
module FailureCacheOps {
  import opened Wrappers
  import opened Errors
  import opened SessionTypes
  import opened Session
  import opened Config

  datatype Op =
    | LookUp(key: string, at: Time)
    | Record(key: string, err: Error, at: Time)
    | Clear(key: string, at: Time)

  function Apply(cache: FailureCache, op: Op): FailureCache {
    match op
    case LookUp(key, at) => FailureLookup(cache, key, at).0
    case Record(key, err, at) => FailureRecorded(cache, key, err, at)
    case Clear(key, _) => cache - {key}
  }

  function ApplyAll(cache: FailureCache, ops: seq<Op>): FailureCache {
    if ops == [] then cache else Apply(ApplyAll(cache, ops[..|ops| - 1]), ops[|ops| - 1])
  }

  /** The cache after a history of operations. */
  function After(ops: seq<Op>): FailureCache {
    ApplyAll(map[], ops)
  }

  /** The clock never runs backwards. */
  predicate Ordered(ops: seq<Op>) {
    forall i, j :: 0 <= i < j < |ops| ==> ops[i].at <= ops[j].at
  }

  datatype Recorded = Recorded(err: Error, at: Time)

  /** The failure a reader of the history would remember for a key: the last one recorded since it was cleared. */
  function LastFailure(ops: seq<Op>, key: string): Option<Recorded> {
    if ops == [] then None
    else
      var last := ops[|ops| - 1];
      if last.Record? && last.key == key then Some(Recorded(last.err, last.at))
      else if last.Clear? && last.key == key then None
      else LastFailure(ops[..|ops| - 1], key)
  }

  /** The entry of a remembered failure is there until the first lookup after its ten seconds. */
  lemma {:induction false} EntryIsLastFailure(ops: seq<Op>, key: string)
    requires Ordered(ops)
    ensures var cache, failure := After(ops), LastFailure(ops, key);
            && (failure == None ==> key !in cache)
            && (failure.Some? ==>
                  && (key in cache ==>
                        cache[key] == AuthFailure(failure.value.err, failure.value.at + AUTH_FAILURE_CACHE_TTL))
                  && (key !in cache ==> failure.value.at + AUTH_FAILURE_CACHE_TTL <= ops[|ops| - 1].at))
  {
    if ops != [] {
      EntryIsLastFailure(ops[..|ops| - 1], key);
    }
  }

  /**
   In every interleaving, a lookup is refused exactly when the key's last recorded failure, not cleared
   since by a successful login, is less than ten seconds old; it is then refused with that failure.
   */
  lemma RefusedIffRecentFailure(ops: seq<Op>, key: string, now: Time)
    requires Ordered(ops + [LookUp(key, now)])
    ensures var failure := LastFailure(ops, key);
            FailureLookup(After(ops), key, now).1 ==
            if failure.Some? && now < failure.value.at + 10_000_000_000 then Some(failure.value.err) else None
  {
    var all := ops + [LookUp(key, now)];
    assert forall i :: 0 <= i < |ops| ==> all[i] == ops[i];
    EntryIsLastFailure(ops, key);
    assert ops != [] ==> all[|ops| - 1].at <= all[|ops|].at;
  }

  // ---- What a token request does to the cache ----------------------------------------------------

  /** A request that needs no login leaves the cache alone; every other looks its key up once, first. */
  function OpsOf(out: TokenOutcome, key: string, env: TokenEnv): seq<Op> {
    match out.source
    case Configured => []
    case CachedToken => []
    case CachedFailure => [LookUp(key, env.failureCheckedAt)]
    case LoggedIn => [LookUp(key, env.failureCheckedAt), Clear(key, env.doneAt)]
    case _ =>
      match out.result
      case Failure(err) => [LookUp(key, env.failureCheckedAt), Record(key, err, env.doneAt)]
      case Success(_) => []
  }

  /** A token request is those operations, and reaches the server exactly when its lookup is not refused. */
  lemma TokenRequestOps(cfg: Settings, st: SessionState, cache: FailureCache, env: TokenEnv)
    ensures var out := EnsureTokenOutcome(cfg, st, cache, env);
            var refused := FailureLookup(cache, FailureKey(cfg), env.failureCheckedAt).1;
            var ops := OpsOf(out, FailureKey(cfg), env);
            && out.failures == ApplyAll(cache, ops)
            && (out.source == CachedFailure ==> refused.Some? && out.result == Failure(refused.value))
            && (out.source in {LoggedIn, LoginFailed, NoCredentials} ==> refused == None && |ops| == 2)
  {
    hide CachedLifetime, ApplyAll, FailureKey;
    var out := EnsureTokenOutcome(cfg, st, cache, env);
    AppliedInTurn(cache, OpsOf(out, FailureKey(cfg), env));
  }

  lemma AppliedInTurn(cache: FailureCache, ops: seq<Op>)
    ensures ops == [] ==> ApplyAll(cache, ops) == cache
    ensures |ops| == 1 ==> ApplyAll(cache, ops) == Apply(cache, ops[0])
    ensures |ops| == 2 ==> ApplyAll(cache, ops) == Apply(Apply(cache, ops[0]), ops[1])
  {
    hide Apply;
    if ops != [] {
      assert |ops| == 2 ==> ops[..1] == [ops[0]];
      assert ApplyAll(cache, []) == cache;
      assert ApplyAll(cache, [ops[0]]) == Apply(cache, ops[0]);
    }
  }
}
