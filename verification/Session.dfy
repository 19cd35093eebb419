/**
 The session behind an open provider (internal/infisical/session.go). Every operation is a method over
 the session's fields, proved against a function of the state it starts in and of what the clock and
 the server answer; the modules beside this one reason about those functions over whole runs.
 */
module Session {
  import opened Wrappers
  import opened Bytes
  import opened Errors
  import opened PublicKeys
  import opened SessionTypes
  import opened Config

  // ---- The process-wide login-failure cache ------------------------------------------------------

  datatype AuthFailure = AuthFailure(err: Error, until: Time)

  type FailureCache = map<string, AuthFailure>

  function FailureLookup(cache: FailureCache, key: string, now: Time): (FailureCache, Option<Error>) {
    if key in cache then
      if now < cache[key].until then (cache, Some(cache[key].err)) else (cache - {key}, None)
    else (cache, None)
  }

  function FailureRecorded(cache: FailureCache, key: string, err: Error, now: Time): FailureCache {
    cache[key := AuthFailure(err, now + AUTH_FAILURE_CACHE_TTL)]
  }

  class AuthFailures {
    var entries: FailureCache

    constructor ()
      ensures entries == map[]
    {
      entries := map[];
    }

    method Cached(key: string, now: Time) returns (err: Option<Error>)
      modifies this
      ensures (entries, err) == FailureLookup(old(entries), key, now)
    {
      if key in entries {
        var f := entries[key];
        if now < f.until {
          return Some(f.err);
        }
        entries := entries - {key};
      }
      err := None;
    }

    method Record(key: string, err: Error, now: Time)
      modifies this
      ensures entries == FailureRecorded(old(entries), key, err, now)
    {
      entries := entries[key := AuthFailure(err, now + AUTH_FAILURE_CACHE_TTL)];
    }

    method Clear(key: string)
      modifies this
      ensures entries == old(entries) - {key}
    {
      entries := entries - {key};
    }
  }

  // ---- Session state -----------------------------------------------------------------------------

  datatype PubKeyEntry = PubKeyEntry(key: PublicKey, expiresAt: Time)

  datatype SessionState = SessionState(
    token: string,
    tokenExpiry: Time,
    signers: Option<seq<Signer>>,
    signersExpiry: Time,
    pubKeys: map<string, PubKeyEntry>)

  const FRESH_SESSION := SessionState("", 0, None, 0, map[])

  /** time.Duration(seconds) * time.Second. */
  function SecondsToDuration(seconds: int): int {
    Wrap64(seconds * SECOND)
  }

  // ---- Tokens ------------------------------------------------------------------------------------

  /** How long a token is kept: the earlier of lifetime and ceiling, less the margin, and at least the margin. */
  function CachedLifetime(reported: int, ceilingSeconds: int): int {
    var ceiling := SecondsToDuration(ceilingSeconds);
    var capped := if 0 < ceiling < reported then ceiling else reported;
    var kept := Wrap64(capped - TOKEN_SAFETY_MARGIN);
    if kept < TOKEN_SAFETY_MARGIN then TOKEN_SAFETY_MARGIN else kept
  }

  function FailureKey(cfg: Settings): string {
    cfg.auth.clientId + "@" + cfg.serverUrl
  }

  /** `source` says where the token or the error came from. */
  datatype TokenSource = Configured | CachedToken | CachedFailure | NoCredentials | LoggedIn | LoginFailed

  datatype TokenOutcome = TokenOutcome(
    state: SessionState, failures: FailureCache, result: Result<string, Error>, source: TokenSource)

  function EnsureTokenOutcome(cfg: Settings, st: SessionState, failures: FailureCache, env: TokenEnv): TokenOutcome {
    var key := FailureKey(cfg);
    var (checkedFailures, cached) := FailureLookup(failures, key, env.failureCheckedAt);
    if cfg.auth.authMethod == AUTH_METHOD_TOKEN then
      if cfg.auth.token == "" then
        TokenOutcome(st, failures, Failure(Plain("token auth selected but no token")), Configured)
      else TokenOutcome(st, failures, Success(cfg.auth.token), Configured)
    else if st.token != "" && env.checkedAt < st.tokenExpiry then
      TokenOutcome(st, failures, Success(st.token), CachedToken)
    else if cached.Some? then
      TokenOutcome(st, checkedFailures, Failure(cached.value), CachedFailure)
    else if cfg.auth.clientId == "" || cfg.auth.clientSecret == "" then
      var err := Plain("no Universal Auth credentials");
      TokenOutcome(st, FailureRecorded(checkedFailures, key, err, env.doneAt), Failure(err), NoCredentials)
    else
      match env.login
      case Failure(err) =>
        TokenOutcome(st, FailureRecorded(checkedFailures, key, err, env.doneAt), Failure(err), LoginFailed)
      case Success(issued) =>
        var expiry := env.doneAt + CachedLifetime(issued.ttl, cfg.cache.tokenTtlSeconds);
        TokenOutcome(
          st.(token := issued.token, tokenExpiry := expiry), checkedFailures - {key}, Success(issued.token), LoggedIn)
  }

  // ---- Signers -----------------------------------------------------------------------------------

  datatype SignersOutcome = SignersOutcome(
    state: SessionState, failures: FailureCache, result: Result<Option<seq<Signer>>, Error>, fetched: bool)

  function SignersCallOutcome(cfg: Settings, st: SessionState, failures: FailureCache, env: SignersEnv):
    SignersOutcome
  {
    if st.signers.Some? && env.checkedAt < st.signersExpiry then
      SignersOutcome(st, failures, Success(st.signers), false)
    else
      var token := EnsureTokenOutcome(cfg, st, failures, env.token);
      match token.result
      case Failure(err) => SignersOutcome(token.state, token.failures, Failure(err), false)
      case Success(_) =>
        match env.reply
        case Failure(err) => SignersOutcome(token.state, token.failures, Failure(err), false)
        case Success(list) =>
          var expiry := env.storedAt + SecondsToDuration(cfg.cache.signerTtlSeconds);
          SignersOutcome(token.state.(signers := list, signersExpiry := expiry), token.failures, Success(list), true)
  }

  predicate Matches(sg: Signer, nameOrId: string) {
    sg.name == nameOrId || sg.id == nameOrId
  }

  predicate IsFirstMatch(list: Option<seq<Signer>>, nameOrId: string, sg: Signer) {
    list.Some? && exists i :: 0 <= i < |list.value| && list.value[i] == sg && Matches(sg, nameOrId) &&
                              forall j :: 0 <= j < i ==> !Matches(list.value[j], nameOrId)
  }

  predicate NoMatch(list: Option<seq<Signer>>, nameOrId: string) {
    list.Some? ==> forall i :: 0 <= i < |list.value| ==> !Matches(list.value[i], nameOrId)
  }

  /** What FindSigner may answer once the list, or the error getting it, is known. */
  predicate FindAnswer(list: Result<Option<seq<Signer>>, Error>, nameOrId: string, answer: Result<Signer, Error>) {
    match list
    case Failure(err) => answer == Failure(err)
    case Success(signers) =>
      match answer
      case Success(sg) => IsFirstMatch(signers, nameOrId, sg)
      case Failure(err) => NoMatch(signers, nameOrId) && err == Plain("no such signer")
  }

  // ---- Public keys -------------------------------------------------------------------------------

  /** The first critical section of PublicKey. */
  function PublicKeyHit(st: SessionState, signerId: string, now: Time): Option<PublicKey> {
    if signerId in st.pubKeys && now < st.pubKeys[signerId].expiresAt then Some(st.pubKeys[signerId].key) else None
  }

  /** The second one. */
  function PublicKeyStored(cfg: Settings, st: SessionState, signerId: string, key: PublicKey, now: Time): SessionState {
    st.(pubKeys := st.pubKeys[signerId := PubKeyEntry(key, now + SecondsToDuration(cfg.cache.certTtlSeconds))])
  }

  // ---- Signing -----------------------------------------------------------------------------------

  function Justification(hostname: string): string {
    if hostname == "" then "Auto-requested by the Infisical KSP"
    else "Auto-requested by the Infisical KSP on " + hostname
  }

  predicate ApprovalConfigured(approval: ApprovalConfig) {
    approval.signingCount != 0 || approval.signingDuration != ""
  }

  /** The request an approval block asks for, or the error of a duration that does not parse. */
  function ApprovalFor(lib: Library, approval: ApprovalConfig, ctx: SigningContext, dataHash: string, now: Time):
    Result<ApprovalParams, Error>
  {
    var bare := ApprovalParams(
      Justification(ctx.hostname),
      if approval.signingCount > 0 then approval.signingCount else 0,
      "", "", ScopeOf(ctx, dataHash));
    if approval.signingDuration == "" then Success(bare)
    else
      match ParseApprovalDuration(lib.parsers, approval.signingDuration)
      case None => Failure(Annotated("invalid approval.signing_duration", Plain("parse error")))
      case Some(window) =>
        Success(bare.(windowStart := lib.rfc3339(now / SECOND), windowEnd := lib.rfc3339((now + window) / SECOND)))
  }

  datatype SignOutcome = SignOutcome(
    state: SessionState, failures: FailureCache, result: Result<seq<byte>, Error>, sent: seq<Request>)

  /** The error a failed sign request turns into, and the approval request sent on the way, if any. */
  function DenialOutcome(
    lib: Library, cfg: Settings, ctx: SigningContext, token: string, signerId: string, digest: seq<byte>,
    denial: Error, env: SignEnv): (Error, seq<Request>)
  {
    var api := AsApiError(denial);
    if api == None || !api.value.IsApprovalRequired() || !ApprovalConfigured(cfg.approval) then (denial, [])
    else
      match ApprovalFor(lib, cfg.approval, ctx, lib.hexSha256(digest), env.now)
      case Failure(err) => (ApprovalRequestFailed(denial, err), [])
      case Success(params) =>
        var sent := [ApprovalRequest(token, signerId, params)];
        match env.approval
        case Failure(err) => (ApprovalRequestFailed(denial, err), sent)
        case Success(request) =>
          if request.id != "" then (ApprovalRequestOpened(denial, request.id, request.status), sent) else (denial, sent)
  }

  function SignRequestFor(
    lib: Library, ctx: SigningContext, token: string, signerId: string, algorithm: string, digest: seq<byte>): Request
  {
    SignRequest(token, signerId, SignParams(lib.base64(digest), algorithm, true, MetadataOf(ctx)))
  }

  function SignCallOutcome(
    lib: Library, cfg: Settings, st: SessionState, failures: FailureCache,
    ctx: SigningContext, signerId: string, algorithm: string, digest: seq<byte>, env: SignEnv): SignOutcome
  {
    var token := EnsureTokenOutcome(cfg, st, failures, env.token);
    match token.result
    case Failure(err) => SignOutcome(token.state, token.failures, Failure(err), [])
    case Success(t) =>
      var sent := [SignRequestFor(lib, ctx, t, signerId, algorithm, digest)];
      match env.reply
      case Success(sigB64) => SignOutcome(token.state, token.failures, lib.unbase64(sigB64), sent)
      case Failure(denial) =>
        var (err, extra) := DenialOutcome(lib, cfg, ctx, t, signerId, digest, denial, env);
        SignOutcome(token.state, token.failures, Failure(err), sent + extra)
  }

  // ---- The session object ------------------------------------------------------------------------

  class Session {
    const cfg: Settings
    const failures: AuthFailures

    var token: string
    var tokenExpiry: Time
    var signers: Option<seq<Signer>>
    var signersExpiry: Time
    var pubKeys: map<string, PubKeyEntry>

    function State(): SessionState
      reads this
    {
      SessionState(token, tokenExpiry, signers, signersExpiry, pubKeys)
    }

    constructor (cfg: Settings, failures: AuthFailures)
      ensures this.cfg == cfg && this.failures == failures
      ensures State() == FRESH_SESSION
    {
      this.cfg, this.failures := cfg, failures;
      token, tokenExpiry, signers, signersExpiry, pubKeys := "", 0, None, 0, map[];
    }

    method EnsureToken(env: TokenEnv) returns (result: Result<string, Error>, ghost source: TokenSource)
      modifies this, failures
      ensures TokenOutcome(State(), failures.entries, result, source) ==
              EnsureTokenOutcome(cfg, old(State()), old(failures.entries), env)
    {
      if cfg.auth.authMethod == AUTH_METHOD_TOKEN {
        if cfg.auth.token == "" {
          return Failure(Plain("token auth selected but no token")), Configured;
        }
        return Success(cfg.auth.token), Configured;
      }
      if token != "" && env.checkedAt < tokenExpiry {
        return Success(token), CachedToken;
      }
      var key := cfg.auth.clientId + "@" + cfg.serverUrl;
      var cached := failures.Cached(key, env.failureCheckedAt);
      if cached.Some? {
        return Failure(cached.value), CachedFailure;
      }
      if cfg.auth.clientId == "" || cfg.auth.clientSecret == "" {
        var err := Plain("no Universal Auth credentials");
        failures.Record(key, err, env.doneAt);
        return Failure(err), NoCredentials;
      }
      if env.login.Failure? {
        failures.Record(key, env.login.error, env.doneAt);
        return Failure(env.login.error), LoginFailed;
      }
      token := env.login.value.token;
      var lifetime := CacheLifetime(env.login.value.ttl, cfg.cache.tokenTtlSeconds);
      tokenExpiry := env.doneAt + lifetime;
      failures.Clear(key);
      return Success(token), LoggedIn;
    }

    method Signers(env: SignersEnv) returns (result: Result<Option<seq<Signer>>, Error>)
      modifies this, failures
      ensures var out := SignersCallOutcome(cfg, old(State()), old(failures.entries), env);
              State() == out.state && failures.entries == out.failures && result == out.result
    {
      if signers.Some? && env.checkedAt < signersExpiry {
        return Success(signers);
      }
      var tokenResult, _ := EnsureToken(env.token);
      if tokenResult.Failure? {
        return Failure(tokenResult.error);
      }
      if env.reply.Failure? {
        return Failure(env.reply.error);
      }
      signers := env.reply.value;
      signersExpiry := env.storedAt + SecondsToDuration(cfg.cache.signerTtlSeconds);
      result := Success(signers);
    }

    method FindSigner(nameOrId: string, env: SignersEnv) returns (answer: Result<Signer, Error>)
      modifies this, failures
      ensures var out := SignersCallOutcome(cfg, old(State()), old(failures.entries), env);
              State() == out.state && failures.entries == out.failures && FindAnswer(out.result, nameOrId, answer)
    {
      var result := Signers(env);
      if result.Failure? {
        return Failure(result.error);
      }
      if result.value.Some? {
        var list := result.value.value;
        for i := 0 to |list|
          invariant forall j :: 0 <= j < i ==> !Matches(list[j], nameOrId)
        {
          var sg := list[i];
          if sg.name == nameOrId || sg.id == nameOrId {
            return Success(sg);
          }
        }
      }
      answer := Failure(Plain("no such signer"));
    }

    /** PublicKey up to the point where it gives up the lock: a cached key, or the token to fetch one with. */
    method BeginPublicKey(signerId: string, now: Time, env: TokenEnv)
      returns (cached: Option<PublicKey>, tokenResult: Result<string, Error>)
      modifies this, failures
      ensures cached == PublicKeyHit(old(State()), signerId, now)
      ensures var out := EnsureTokenOutcome(cfg, old(State()), old(failures.entries), env);
              if cached.Some? then State() == old(State()) && failures.entries == old(failures.entries)
              else State() == out.state && failures.entries == out.failures && tokenResult == out.result
    {
      if signerId in pubKeys && now < pubKeys[signerId].expiresAt {
        return Some(pubKeys[signerId].key), Failure(Plain("not needed"));
      }
      cached := None;
      ghost var source;
      tokenResult, source := EnsureToken(env);
    }

    /** PublicKey after the fetch, with the lock taken again. */
    method StorePublicKey(signerId: string, key: PublicKey, now: Time)
      modifies this
      ensures State() == PublicKeyStored(cfg, old(State()), signerId, key, now)
    {
      pubKeys := pubKeys[signerId := PubKeyEntry(key, now + SecondsToDuration(cfg.cache.certTtlSeconds))];
    }

    method Sign(lib: Library, ctx: SigningContext, signerId: string, algorithm: string, digest: seq<byte>, env: SignEnv)
      returns (result: Result<seq<byte>, Error>, sent: seq<Request>)
      modifies this, failures
      ensures SignOutcome(State(), failures.entries, result, sent) ==
              SignCallOutcome(lib, cfg, old(State()), old(failures.entries), ctx, signerId, algorithm, digest, env)
    {
      sent := [];
      var tokenResult, _ := EnsureToken(env.token);
      if tokenResult.Failure? {
        return Failure(tokenResult.error), sent;
      }
      var token := tokenResult.value;
      sent := [SignRequestFor(lib, ctx, token, signerId, algorithm, digest)];
      if env.reply.Failure? {
        var err, extra := AutoRequestOnDenial(lib, ctx, token, signerId, digest, env.reply.error, env);
        return Failure(err), sent + extra;
      }
      result := lib.unbase64(env.reply.value);
    }

    method AutoRequestOnDenial(
      lib: Library, ctx: SigningContext, token: string, signerId: string, digest: seq<byte>,
      denial: Error, env: SignEnv)
      returns (err: Error, sent: seq<Request>)
      ensures (err, sent) == DenialOutcome(lib, cfg, ctx, token, signerId, digest, denial, env)
    {
      var api := AsApiError(denial);
      if api == None || !api.value.IsApprovalRequired() {
        return denial, [];
      }
      var request;
      request, sent := RequestApprovalIfConfigured(lib, ctx, token, signerId, lib.hexSha256(digest), env);
      if request.Failure? {
        err := ApprovalRequestFailed(denial, request.error);
      } else if request.value.id != "" {
        err := ApprovalRequestOpened(denial, request.value.id, request.value.status);
      } else {
        err := denial;
      }
    }

    method RequestApprovalIfConfigured(
      lib: Library, ctx: SigningContext, token: string, signerId: string, dataHash: string, env: SignEnv)
      returns (request: Result<OpenedRequest, Error>, sent: seq<Request>)
      ensures !ApprovalConfigured(cfg.approval) ==> request == Success(OpenedRequest("", "")) && sent == []
      ensures ApprovalConfigured(cfg.approval) ==>
                match ApprovalFor(lib, cfg.approval, ctx, dataHash, env.now)
                case Failure(err) => request == Failure(err) && sent == []
                case Success(params) => request == env.approval && sent == [ApprovalRequest(token, signerId, params)]
    {
      var approval := cfg.approval;
      if approval.signingCount == 0 && approval.signingDuration == "" {
        return Success(OpenedRequest("", "")), [];
      }
      var params := ApprovalParams(Justification(ctx.hostname), 0, "", "", ScopeOf(ctx, dataHash));
      if approval.signingCount > 0 {
        params := params.(requestedSignings := approval.signingCount);
      }
      if approval.signingDuration != "" {
        var window := ParseApprovalDuration(lib.parsers, approval.signingDuration);
        if window == None {
          return Failure(Annotated("invalid approval.signing_duration", Plain("parse error"))), [];
        }
        params := params.(windowStart := lib.rfc3339(env.now / SECOND));
        params := params.(windowEnd := lib.rfc3339((env.now + window.value) / SECOND));
      }
      return env.approval, [ApprovalRequest(token, signerId, params)];
    }
  }

  /** cacheExpiry's adjustments, one after the other. */
  method CacheLifetime(reported: int, ceilingSeconds: int) returns (ttl: int)
    ensures ttl == CachedLifetime(reported, ceilingSeconds)
  {
    ttl := reported;
    var ceiling := SecondsToDuration(ceilingSeconds);
    if ceiling > 0 && ceiling < ttl {
      ttl := ceiling;
    }
    ttl := Wrap64(ttl - TOKEN_SAFETY_MARGIN);
    if ttl < TOKEN_SAFETY_MARGIN {
      ttl := TOKEN_SAFETY_MARGIN;
    }
  }
}
