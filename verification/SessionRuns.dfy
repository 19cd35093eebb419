/**
 Runs of one session: any sequence of calls that pass through its lock (internal/infisical/session.go). The
 process-wide failure cache is arbitrary at each call, so other sessions may do anything in between.
 */
module SessionRuns {
  import opened Wrappers
  import opened Errors
  import opened PublicKeys
  import opened SessionTypes
  import opened Session
  import opened Config

  /**
   One locked section with what the world did in it: `issuedAt` is when the server issued the token,
   `servedAt` when it produced the signer list.
   */
  datatype Call =
    | TokenCall(failures: FailureCache, tokenEnv: TokenEnv, issuedAt: Time)
    | SignersCall(failures: FailureCache, env: SignersEnv, issuedAt: Time, fetchStartedAt: Time, servedAt: Time)
    | StoreKeyCall(signerId: string, key: PublicKey, now: Time)

  function Apply(cfg: Settings, st: SessionState, call: Call): SessionState {
    match call
    case TokenCall(failures, env, _) => EnsureTokenOutcome(cfg, st, failures, env).state
    case SignersCall(failures, env, _, _, _) => SignersCallOutcome(cfg, st, failures, env).state
    case StoreKeyCall(signerId, key, now) => PublicKeyStored(cfg, st, signerId, key, now)
  }

  function After(cfg: Settings, calls: seq<Call>): SessionState {
    if calls == [] then FRESH_SESSION else Apply(cfg, After(cfg, calls[..|calls| - 1]), calls[|calls| - 1])
  }

  /** A login answers after it was issued and never with an empty token. */
  predicate TokenTimed(env: TokenEnv, issuedAt: Time) {
    && env.checkedAt <= env.failureCheckedAt <= issuedAt <= env.doneAt
    && (env.login.Success? ==> env.login.value.token != "" && IsInt64(env.login.value.ttl))
  }

  predicate Timed(call: Call) {
    match call
    case TokenCall(_, env, issuedAt) => TokenTimed(env, issuedAt)
    case SignersCall(_, env, issuedAt, fetchStartedAt, servedAt) =>
      && TokenTimed(env.token, issuedAt)
      && env.checkedAt <= env.token.checkedAt
      && env.token.doneAt <= fetchStartedAt <= servedAt <= env.storedAt
    case StoreKeyCall(_, _, _) => true
  }

  predicate AllTimed(calls: seq<Call>) {
    forall i :: 0 <= i < |calls| ==> Timed(calls[i])
  }

  // ---- Lifetimes ---------------------------------------------------------------------------------

  predicate LiveUntilExpiry(reported: int, ceilingSeconds: int, delay: int) {
    delay + CachedLifetime(reported, ceilingSeconds) <= reported
  }

  /** For positive ceilings the kept lifetime is max(30 s, min(lifetime, ceiling) - 30 s). */
  lemma CachedLifetimeValue(reported: int, ceilingSeconds: int)
    requires IsInt64(reported - TOKEN_SAFETY_MARGIN) && 0 < ceilingSeconds && IsInt64(ceilingSeconds * SECOND)
    ensures var shorter := if reported < ceilingSeconds * SECOND then reported else ceilingSeconds * SECOND;
            CachedLifetime(reported, ceilingSeconds) ==
            if shorter < 60 * SECOND then 30 * SECOND else shorter - 30 * SECOND
  {
  }

  /**
   Whatever the ceiling, a token is dropped before it expires for every delay a client call can have,
   exactly when the server grants it a minute or more.
   */
  lemma TokenDroppedInTimeIff(reported: int, ceilingSeconds: int)
    requires IsInt64(reported)
    ensures (forall delay :: 0 <= delay <= CLIENT_TIMEOUT ==> LiveUntilExpiry(reported, ceilingSeconds, delay)) <==>
            reported >= 60 * SECOND
  {
    if reported < 60 * SECOND {
      assert !LiveUntilExpiry(reported, ceilingSeconds, CLIENT_TIMEOUT);
    }
  }

  // ---- Tokens over a run -------------------------------------------------------------------------

  predicate RequestsToken(cfg: Settings, st: SessionState, call: Call) {
    match call
    case TokenCall(_, _, _) => true
    case SignersCall(_, env, _, _, _) => !(st.signers.Some? && env.checkedAt < st.signersExpiry)
    case StoreKeyCall(_, _, _) => false
  }

  function TokenEnvOf(call: Call): TokenEnv
    requires !call.StoreKeyCall?
  {
    if call.TokenCall? then call.tokenEnv else call.env.token
  }

  /** The token request inside the call at position i of a run. */
  function TokenRequestAt(cfg: Settings, calls: seq<Call>, i: nat): TokenOutcome
    requires i < |calls| && RequestsToken(cfg, After(cfg, calls[..i]), calls[i])
  {
    EnsureTokenOutcome(cfg, After(cfg, calls[..i]), calls[i].failures, TokenEnvOf(calls[i]))
  }

  /** Call i requested a token and logged in. */
  predicate LogsInAt(cfg: Settings, calls: seq<Call>, i: nat)
    requires i < |calls|
  {
    RequestsToken(cfg, After(cfg, calls[..i]), calls[i]) && TokenRequestAt(cfg, calls, i).source == LoggedIn
  }

  /** Call i logged in and was issued `token`. */
  predicate LoginAt(cfg: Settings, calls: seq<Call>, i: nat, token: string) {
    && i < |calls|
    && LogsInAt(cfg, calls, i)
    && TokenEnvOf(calls[i]).login.Success?
    && TokenEnvOf(calls[i]).login.value.token == token
  }

  /** What a call did does not depend on the calls after it. */
  lemma PrefixKeepsLogins(cfg: Settings, calls: seq<Call>, n: nat)
    requires n <= |calls|
    ensures forall i :: 0 <= i < n ==> (LogsInAt(cfg, calls[..n], i) <==> LogsInAt(cfg, calls, i))
    ensures forall i, token :: 0 <= i < n && LoginAt(cfg, calls[..n], i, token) ==> LoginAt(cfg, calls, i, token)
  {
    hide RequestsToken, EnsureTokenOutcome, After;
    assert forall i :: 0 <= i < n ==> calls[..n][..i] == calls[..i];
  }

  /** A call changes the cached token only by logging in, and then to what was issued. */
  lemma CallTokenEffect(cfg: Settings, st: SessionState, call: Call)
    ensures var st' := Apply(cfg, st, call);
            if RequestsToken(cfg, st, call) &&
               EnsureTokenOutcome(cfg, st, call.failures, TokenEnvOf(call)).source == LoggedIn
            then
              && TokenEnvOf(call).login.Success?
              && var issued := TokenEnvOf(call).login.value;
              && st'.token == issued.token
              && st'.tokenExpiry == TokenEnvOf(call).doneAt + CachedLifetime(issued.ttl, cfg.cache.tokenTtlSeconds)
            else st'.token == st.token && st'.tokenExpiry == st.tokenExpiry
  {
    hide CachedLifetime, FailureLookup, SecondsToDuration;
  }

  /**
   The cached token is that of the last login of the run and is kept for its lifetime from then on;
   there is none as long as no login has succeeded.
   */
  lemma {:induction false} CachedTokenOrigin(cfg: Settings, calls: seq<Call>) returns (j: int)
    requires AllTimed(calls)
    ensures -1 <= j < |calls|
    ensures forall k :: j < k < |calls| ==> !LogsInAt(cfg, calls, k)
    ensures j == -1 ==> After(cfg, calls).token == ""
    ensures j >= 0 ==>
              && After(cfg, calls).token != ""
              && LoginAt(cfg, calls, j, After(cfg, calls).token)
              && var login := TokenEnvOf(calls[j]);
                 After(cfg, calls).tokenExpiry ==
                 login.doneAt + CachedLifetime(login.login.value.ttl, cfg.cache.tokenTtlSeconds)
  {
    hide Apply, EnsureTokenOutcome, CachedLifetime;
    j := -1;
    if calls != [] {
      var last := |calls| - 1;
      var before := After(cfg, calls[..last]);
      CallTokenEffect(cfg, before, calls[last]);
      j := CachedTokenOrigin(cfg, calls[..last]);
      PrefixKeepsLogins(cfg, calls, last);
      if LogsInAt(cfg, calls, last) {
        j := last;
      }
    }
  }

  /**
   Every token request of a run, by what happened before it: token auth answers from the configuration alone.
   Otherwise the last login's token is returned until its lifetime is over; after that a failure of the
   identity at this server under ten seconds old is returned; without credentials there is no login; and
   else the answer is the login's own, token or error.
   */
  lemma TokenRequestAnswer(cfg: Settings, calls: seq<Call>, i: nat) returns (j: int)
    requires AllTimed(calls) && i < |calls| && RequestsToken(cfg, After(cfg, calls[..i]), calls[i])
    ensures -1 <= j < i && (forall k :: j < k < i ==> !LogsInAt(cfg, calls, k))
    ensures j >= 0 ==> LogsInAt(cfg, calls, j) && TokenEnvOf(calls[j]).login.Success?
    ensures var out, env, failures := TokenRequestAt(cfg, calls, i), TokenEnvOf(calls[i]), calls[i].failures;
            var key := cfg.auth.clientId + "@" + cfg.serverUrl;
            if cfg.auth.authMethod == "token" then
              && out.failures == failures && out.source == Configured
              && (cfg.auth.token != "" ==> out.result == Success(cfg.auth.token))
              && (cfg.auth.token == "" ==> out.result.Failure?)
            else if j >= 0 && env.checkedAt < TokenEnvOf(calls[j]).doneAt +
                              CachedLifetime(TokenEnvOf(calls[j]).login.value.ttl, cfg.cache.tokenTtlSeconds)
            then out.result == Success(TokenEnvOf(calls[j]).login.value.token) && out.source == CachedToken
            else if key in failures && env.failureCheckedAt < failures[key].until then
              out.result == Failure(failures[key].err) && out.source == CachedFailure
            else if cfg.auth.clientId == "" || cfg.auth.clientSecret == "" then
              out.result.Failure? && out.source == NoCredentials
            else
              && (LogsInAt(cfg, calls, i) <==> env.login.Success?)
              && match env.login
                 case Success(issued) => out.result == Success(issued.token)
                 case Failure(err) => out.result == Failure(err)
  {
    j := CachedTokenOrigin(cfg, calls[..i]);
    PrefixKeepsLogins(cfg, calls, i);
    TokenAnswer(cfg, After(cfg, calls[..i]), calls[i].failures, TokenEnvOf(calls[i]));
    hide After, CachedLifetime, RequestsToken, EnsureTokenOutcome, TokenTimed;
  }

  lemma TokenAnswer(cfg: Settings, st: SessionState, failures: FailureCache, env: TokenEnv)
    ensures var out, key := EnsureTokenOutcome(cfg, st, failures, env), cfg.auth.clientId + "@" + cfg.serverUrl;
            if cfg.auth.authMethod == "token" then
              && out.failures == failures && out.source == Configured
              && (cfg.auth.token != "" ==> out.result == Success(cfg.auth.token))
              && (cfg.auth.token == "" ==> out.result.Failure?)
            else if st.token != "" && env.checkedAt < st.tokenExpiry then
              out.result == Success(st.token) && out.source == CachedToken
            else if key in failures && env.failureCheckedAt < failures[key].until then
              out.result == Failure(failures[key].err) && out.source == CachedFailure
            else if cfg.auth.clientId == "" || cfg.auth.clientSecret == "" then
              out.result.Failure? && out.source == NoCredentials
            else
              && (out.source == LoggedIn <==> env.login.Success?)
              && match env.login
                 case Success(issued) => out.result == Success(issued.token)
                 case Failure(err) => out.result == Failure(err)
  {
    hide CachedLifetime;
  }

  /**
   A token handed out under Universal Auth is never empty, was issued by a login of this run, and has
   not expired when it is handed out, given a lifetime of at least a minute and a login answered
   within the client's timeout.
   */
  lemma ReturnedTokenIsLive(cfg: Settings, calls: seq<Call>, i: nat) returns (j: nat)
    requires AllTimed(calls) && i < |calls| && cfg.auth.authMethod != AUTH_METHOD_TOKEN
    ensures RequestsToken(cfg, After(cfg, calls[..i]), calls[i]) && TokenRequestAt(cfg, calls, i).result.Success? ==>
              var token := TokenRequestAt(cfg, calls, i).result.value;
              && token != "" && j <= i && LoginAt(cfg, calls, j, token)
              && var login, request := TokenEnvOf(calls[j]), TokenEnvOf(calls[i]);
                 var returnedAt := if j == i then request.doneAt else request.checkedAt;
                 login.login.value.ttl >= 60 * SECOND && login.doneAt - calls[j].issuedAt <= CLIENT_TIMEOUT ==>
                   returnedAt < calls[j].issuedAt + login.login.value.ttl
  {
    j := i;
    if RequestsToken(cfg, After(cfg, calls[..i]), calls[i]) && TokenRequestAt(cfg, calls, i).result.Success? {
      if TokenRequestAt(cfg, calls, i).source != LoggedIn {
        var last := CachedTokenOrigin(cfg, calls[..i]);
        PrefixKeepsLogins(cfg, calls, i);
        j := last;
      }
      var login := TokenEnvOf(calls[j]);
      if login.login.value.ttl >= 60 * SECOND && login.doneAt - calls[j].issuedAt <= CLIENT_TIMEOUT {
        TokenDroppedInTimeIff(login.login.value.ttl, cfg.cache.tokenTtlSeconds);
        assert LiveUntilExpiry(login.login.value.ttl, cfg.cache.tokenTtlSeconds, login.doneAt - calls[j].issuedAt);
      }
    }
  }

  /**
   With a lifetime under a minute that is not so: whatever the configuration's ceiling, there is a run
   whose login answers within the client's timeout and whose next request is answered from the cache
   with a token that has expired.
   */
  lemma ShortTokenReturnedExpired(cfg: Settings, ttl: int) returns (calls: seq<Call>)
    requires cfg.auth.authMethod != AUTH_METHOD_TOKEN && cfg.auth.clientId != "" && cfg.auth.clientSecret != ""
    requires IsInt64(ttl) && ttl < 60 * SECOND
    ensures |calls| == 2 && AllTimed(calls) && calls[0].TokenCall? && calls[1].TokenCall?
    ensures var login, request := calls[0].tokenEnv, calls[1].tokenEnv;
            && login.login.Success? && login.login.value.ttl == ttl && LoginAt(cfg, calls, 0, login.login.value.token)
            && login.doneAt - calls[0].issuedAt <= CLIENT_TIMEOUT && login.doneAt <= request.checkedAt
            && TokenRequestAt(cfg, calls, 1).source == CachedToken
            && TokenRequestAt(cfg, calls, 1).result == Success(login.login.value.token)
            && request.checkedAt >= calls[0].issuedAt + ttl
  {
    var issued := Success(IssuedToken("token", ttl));
    var later := 60 * SECOND - 1;
    calls := [
      TokenCall(map[], TokenEnv(0, 0, issued, CLIENT_TIMEOUT), 0),
      TokenCall(map[], TokenEnv(later, later, issued, later), later)
    ];
    assert calls[..0] == [] && calls[..1] == [calls[0]] && [calls[0]][..0] == [];
    assert After(cfg, calls[..1]) == Apply(cfg, FRESH_SESSION, calls[0]);
    hide CachedLifetime;
    LifetimeAtLeastMargin(ttl, cfg.cache.tokenTtlSeconds);
  }

  lemma LifetimeAtLeastMargin(reported: int, ceilingSeconds: int)
    ensures CachedLifetime(reported, ceilingSeconds) >= 30 * SECOND
  {
  }

  // ---- Signer lists over a run -------------------------------------------------------------------

  function SignersCallAt(cfg: Settings, calls: seq<Call>, i: nat): SignersOutcome
    requires i < |calls| && calls[i].SignersCall?
  {
    SignersCallOutcome(cfg, After(cfg, calls[..i]), calls[i].failures, calls[i].env)
  }

  /** Call i fetched `list` from the server. */
  predicate FetchAt(cfg: Settings, calls: seq<Call>, i: nat, list: Option<seq<Signer>>) {
    && i < |calls| && calls[i].SignersCall?
    && SignersCallAt(cfg, calls, i).fetched
    && calls[i].env.reply == Success(list)
  }

  /** A refresh that fails keeps the cached list and its expiry; one that succeeds replaces both. */
  lemma FailedRefreshKeepsList(cfg: Settings, st: SessionState, failures: FailureCache, env: SignersEnv)
    ensures var out := SignersCallOutcome(cfg, st, failures, env);
            if out.fetched then
              && env.reply.Success? && out.state.signers == env.reply.value && out.result == env.reply
              && out.state.signersExpiry == env.storedAt + SecondsToDuration(cfg.cache.signerTtlSeconds)
            else
              && out.state.signers == st.signers && out.state.signersExpiry == st.signersExpiry
              && (out.result.Success? ==> out.result.value == st.signers && st.signers.Some?)
  {
    hide CachedLifetime, FailureLookup, SecondsToDuration;
  }

  lemma OtherCallsKeepList(cfg: Settings, st: SessionState, call: Call)
    requires !call.SignersCall?
    ensures Apply(cfg, st, call).signers == st.signers && Apply(cfg, st, call).signersExpiry == st.signersExpiry
  {
    hide CachedLifetime, FailureLookup, SecondsToDuration;
  }

  /**
   The cached list and its expiry are those of the last fetch of the run that succeeded; refreshes that
   fail later, and every other call, leave them as they are.
   */
  lemma {:induction false} CachedListIsLastFetch(cfg: Settings, calls: seq<Call>) returns (j: int)
    ensures -1 <= j < |calls|
    ensures forall k :: j < k < |calls| && calls[k].SignersCall? ==> !SignersCallAt(cfg, calls, k).fetched
    ensures var st := After(cfg, calls);
            if j == -1 then st.signers == None
            else
              && FetchAt(cfg, calls, j, st.signers)
              && st.signersExpiry == calls[j].env.storedAt + SecondsToDuration(cfg.cache.signerTtlSeconds)
  {
    hide SignersCallOutcome, EnsureTokenOutcome, SecondsToDuration;
    j := -1;
    if calls != [] {
      var last := |calls| - 1;
      var before, call := After(cfg, calls[..last]), calls[last];
      j := CachedListIsLastFetch(cfg, calls[..last]);
      assert forall k :: 0 <= k < last ==> calls[..last][..k] == calls[..k];
      if call.SignersCall? {
        FailedRefreshKeepsList(cfg, before, call.failures, call.env);
        j := if SignersCallAt(cfg, calls, last).fetched then last else j;
      } else {
        OtherCallsKeepList(cfg, before, call);
      }
    }
  }

  /**
   Every request for the signers in a run: a list last fetched and still in its lifetime is returned as it
   is; otherwise the answer is the failed token request's error, or the server's own, list or error.
   */
  lemma SignersAnswer(cfg: Settings, calls: seq<Call>, i: nat) returns (j: int)
    requires i < |calls| && calls[i].SignersCall?
    ensures -1 <= j < i
    ensures forall k :: j < k < i && calls[k].SignersCall? ==> !SignersCallAt(cfg, calls, k).fetched
    ensures j >= 0 ==> calls[j].SignersCall? && SignersCallAt(cfg, calls, j).fetched && calls[j].env.reply.Success?
    ensures var out, env := SignersCallAt(cfg, calls, i), calls[i].env;
            if j >= 0 && calls[j].env.reply.value.Some?
               && env.checkedAt < calls[j].env.storedAt + SecondsToDuration(cfg.cache.signerTtlSeconds)
            then out.result == calls[j].env.reply && !out.fetched
            else
              && RequestsToken(cfg, After(cfg, calls[..i]), calls[i])
              && match TokenRequestAt(cfg, calls, i).result
                 case Failure(err) => out.result == Failure(err) && !out.fetched
                 case Success(_) => out.result == env.reply && (out.fetched <==> env.reply.Success?)
  {
    j := CachedListIsLastFetch(cfg, calls[..i]);
    assert forall k :: 0 <= k < i ==> calls[..i][..k] == calls[..k];
    hide After, EnsureTokenOutcome, SecondsToDuration;
  }

  /** A list used by call i is the one call j fetched, recently enough. */
  predicate ListFreshAt(cfg: Settings, calls: seq<Call>, i: nat, j: nat, list: Option<seq<Signer>>) {
    && j <= i < |calls| && calls[i].SignersCall? && FetchAt(cfg, calls, j, list)
    && (j == i || calls[i].env.checkedAt - calls[j].servedAt <
                  SecondsToDuration(cfg.cache.signerTtlSeconds) + (calls[j].env.storedAt - calls[j].fetchStartedAt))
  }

  /**
   FindSigner agrees with a lookup in a list the server served within the cache lifetime plus that
   fetch's duration: the first signer in it with that name or that ID, or an error when there is none.
   It fails otherwise only because no token or no list could be had.
   */
  lemma FoundSignerIsFresh(cfg: Settings, calls: seq<Call>, i: nat, nameOrId: string, answer: Result<Signer, Error>)
    returns (j: nat)
    requires AllTimed(calls) && i < |calls| && calls[i].SignersCall?
    requires FindAnswer(SignersCallAt(cfg, calls, i).result, nameOrId, answer)
    ensures match SignersCallAt(cfg, calls, i).result
            case Failure(err) => answer == Failure(err)
            case Success(list) =>
              && ListFreshAt(cfg, calls, i, j, list)
              && var signers := if list.Some? then list.value else [];
              && (answer.Success? ==>
                    exists k :: 0 <= k < |signers| && signers[k] == answer.value
                                && (signers[k].name == nameOrId || signers[k].id == nameOrId)
                                && forall l :: 0 <= l < k ==> signers[l].name != nameOrId && signers[l].id != nameOrId)
              && (answer.Failure? ==>
                    forall k :: 0 <= k < |signers| ==> signers[k].name != nameOrId && signers[k].id != nameOrId)
  {
    j := i;
    var out := SignersCallAt(cfg, calls, i);
    if out.result.Success? && !out.fetched {
      j := CachedListIsLastFetch(cfg, calls[..i]);
      assert calls[..i][..j] == calls[..j];
    }
  }
}
