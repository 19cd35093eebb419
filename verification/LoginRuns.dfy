/**
 Runs of many sessions that share the process-wide login-failure cache, one call at a time
 (internal/infisical/session.go). The sessions' own locks do not order calls of different sessions, so this
 is about sequential callers.
 */
module LoginRuns {
  import opened Wrappers
  import opened Errors
  import opened SessionTypes
  import opened Session
  import opened Config

  /** One token request of one session. */
  datatype Event = Event(session: nat, env: TokenEnv)

  datatype World = World(sessions: map<nat, SessionState>, failures: FailureCache)

  /** The configuration of every session. */
  type Configs = nat -> Settings

  function SessionOf(w: World, s: nat): SessionState {
    if s in w.sessions then w.sessions[s] else FRESH_SESSION
  }

  function OutcomeIn(cfgs: Configs, w: World, e: Event): TokenOutcome {
    EnsureTokenOutcome(cfgs(e.session), SessionOf(w, e.session), w.failures, e.env)
  }

  function After(cfgs: Configs, events: seq<Event>): World {
    if events == [] then World(map[], map[])
    else
      var before := After(cfgs, events[..|events| - 1]);
      var e := events[|events| - 1];
      var out := OutcomeIn(cfgs, before, e);
      World(before.sessions[e.session := out.state], out.failures)
  }

  function OutcomeAt(cfgs: Configs, events: seq<Event>, i: nat): TokenOutcome
    requires i < |events|
  {
    OutcomeIn(cfgs, After(cfgs, events[..i]), events[i])
  }

  /** Each call ends before the next one starts, on one clock that never runs backwards. */
  predicate Sequential(events: seq<Event>) {
    && (forall i :: 0 <= i < |events| ==>
          events[i].env.checkedAt <= events[i].env.failureCheckedAt <= events[i].env.doneAt)
    && (forall i, j :: 0 <= i < j < |events| ==> events[i].env.doneAt <= events[j].env.checkedAt)
  }

  /** A login was sent; it starts no earlier than the failure cache was consulted. */
  predicate AttemptsLogin(out: TokenOutcome) {
    out.source == LoggedIn || out.source == LoginFailed
  }

  predicate RecordsFailure(out: TokenOutcome) {
    out.source == LoginFailed || out.source == NoCredentials
  }

  /** The key stays refused until at least `until`. */
  predicate Blocked(cache: FailureCache, key: string, until: Time) {
    key in cache && cache[key].until >= until
  }

  /** A token request leaves a blocked key blocked, unless it looked the key up when the time was over. */
  lemma RequestKeepsBlock(cfg: Settings, st: SessionState, cache: FailureCache, env: TokenEnv, key: string, until: Time)
    requires env.checkedAt <= env.failureCheckedAt <= env.doneAt && Blocked(cache, key, until)
    ensures Blocked(EnsureTokenOutcome(cfg, st, cache, env).failures, key, until) || env.doneAt >= until
    ensures AttemptsLogin(EnsureTokenOutcome(cfg, st, cache, env)) && FailureKey(cfg) == key ==>
            env.failureCheckedAt >= until
  {
  }

  /** A recorded failure keeps its key blocked, or ten seconds have gone by. */
  lemma {:induction false} FailureHeld(cfgs: Configs, events: seq<Event>, i: nat, n: nat)
    requires Sequential(events) && i < n <= |events| && RecordsFailure(OutcomeAt(cfgs, events, i))
    ensures var key, until := FailureKey(cfgs(events[i].session)), events[i].env.doneAt + 10 * SECOND;
            Blocked(After(cfgs, events[..n]).failures, key, until) || events[n - 1].env.doneAt >= until
  {
    var last := events[n - 1];
    var before := After(cfgs, events[..n - 1]);
    assert events[..n][..n - 1] == events[..n - 1];
    assert After(cfgs, events[..n]).failures == OutcomeIn(cfgs, before, last).failures;
    if n > i + 1 {
      var key, until := FailureKey(cfgs(events[i].session)), events[i].env.doneAt + 10 * SECOND;
      FailureHeld(cfgs, events, i, n - 1);
      if Blocked(before.failures, key, until) {
        RequestKeepsBlock(cfgs(last.session), SessionOf(before, last.session), before.failures, last.env, key, until);
      } else {
        assert events[n - 2].env.doneAt <= last.env.checkedAt;
      }
    }
  }

  /** After a failed login, the next login attempt for the same key starts at least ten seconds later. */
  lemma FailedLoginHoldsOff(cfgs: Configs, events: seq<Event>, i: nat, j: nat)
    requires Sequential(events) && i < j < |events|
    requires RecordsFailure(OutcomeAt(cfgs, events, i)) && AttemptsLogin(OutcomeAt(cfgs, events, j))
    requires FailureKey(cfgs(events[i].session)) == FailureKey(cfgs(events[j].session))
    ensures events[j].env.failureCheckedAt >= events[i].env.doneAt + 10 * SECOND
  {
    var key, until := FailureKey(cfgs(events[i].session)), events[i].env.doneAt + 10 * SECOND;
    var before := After(cfgs, events[..j]);
    FailureHeld(cfgs, events, i, j);
    if Blocked(before.failures, key, until) {
      var e := events[j];
      RequestKeepsBlock(cfgs(e.session), SessionOf(before, e.session), before.failures, e.env, key, until);
    }
  }
}
