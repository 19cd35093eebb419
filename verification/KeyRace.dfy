/**
 Concurrent PublicKey calls on one session (internal/infisical/session.go). The lock is held for the cache check
 and token request, released for the certificate fetch, and taken again to store, so fetches overlap
 and may store in any order. Other threads' locked sections may change anything but the key cache.
 */
module KeyRace {
  import opened Wrappers
  import opened Errors
  import opened PublicKeys
  import opened SessionTypes
  import opened Session
  import opened Config

  /** Where a thread is inside PublicKey(id). Checking, GettingToken and Storing hold the lock. */
  datatype Thread =
    | Idle
    | Entering(id: string)
    | Checking(id: string)
    | GettingToken(id: string, checkedAt: Time)
    | Fetching(id: string, checkedAt: Time)
    | Fetched(id: string, checkedAt: Time, key: PublicKey, servedAt: Time)
    | Storing(id: string, checkedAt: Time, key: PublicKey, servedAt: Time)
    | Elsewhere

  /** The history: certificates served, keys stored, keys returned to callers. */
  datatype Serve = Serve(id: string, key: PublicKey, at: Time)
  datatype Store = Store(serve: Serve, storedAt: Time)
  datatype Return = Return(id: string, key: PublicKey, checkedAt: Time)

  datatype Race = Race(
    now: Time,
    lock: Option<nat>,
    st: SessionState,
    threads: map<nat, Thread>,
    served: set<Serve>,
    stored: set<Store>,
    returned: set<Return>)

  datatype Step =
    | Call(t: nat, id: string)
    | Lock(t: nat)
    | Check(t: nat)
    | TokenDone(t: nat, failures: FailureCache, env: TokenEnv)
    | ServeKey(t: nat, key: PublicKey)
    | FetchFailed(t: nat)
    | StoreKey(t: nat)
    | EnterOther(t: nat)
    | LeaveOther(t: nat, token: string, tokenExpiry: Time, signers: Option<seq<Signer>>, signersExpiry: Time)

  function ThreadOf(s: Race, t: nat): Thread {
    if t in s.threads then s.threads[t] else Idle
  }

  const START := Race(0, None, FRESH_SESSION, map[], {}, {}, {})

  /** One step of one thread at time `at`; None when it cannot happen. A served key is any key at all. */
  function Do(cfg: Settings, s: Race, at: Time, step: Step): Option<Race> {
    var t := step.t;
    var thread := ThreadOf(s, t);
    var next := s.(now := at);
    if at < s.now then None
    else
      match step
      case Call(_, id) =>
        if thread == Idle then Some(next.(threads := s.threads[t := Entering(id)])) else None
      case Lock(_) =>
        if s.lock != None then None
        else if thread.Entering? then Some(next.(lock := Some(t), threads := s.threads[t := Checking(thread.id)]))
        else if thread.Fetched? then
          Some(next.(lock := Some(t),
                     threads := s.threads[t := Storing(thread.id, thread.checkedAt, thread.key, thread.servedAt)]))
        else None
      case Check(_) =>
        if !thread.Checking? then None
        else
          (match PublicKeyHit(s.st, thread.id, at)
           case Some(key) =>
             Some(next.(lock := None, threads := s.threads[t := Idle],
                        returned := s.returned + {Return(thread.id, key, at)}))
           case None => Some(next.(threads := s.threads[t := GettingToken(thread.id, at)])))
      case TokenDone(_, failures, env) =>
        if !thread.GettingToken? then None
        else
          var out := EnsureTokenOutcome(cfg, s.st, failures, env);
          var continues := if out.result.Success? then Fetching(thread.id, thread.checkedAt) else Idle;
          Some(next.(lock := None, st := out.state, threads := s.threads[t := continues]))
      case ServeKey(_, key) =>
        if !thread.Fetching? then None
        else Some(next.(threads := s.threads[t := Fetched(thread.id, thread.checkedAt, key, at)],
                        served := s.served + {Serve(thread.id, key, at)}))
      case FetchFailed(_) =>
        if thread.Fetching? then Some(next.(threads := s.threads[t := Idle])) else None
      case StoreKey(_) =>
        if !thread.Storing? then None
        else Some(next.(lock := None, threads := s.threads[t := Idle],
                        st := PublicKeyStored(cfg, s.st, thread.id, thread.key, at),
                        stored := s.stored + {Store(Serve(thread.id, thread.key, thread.servedAt), at)},
                        returned := s.returned + {Return(thread.id, thread.key, thread.checkedAt)}))
      case EnterOther(_) =>
        if thread == Idle && s.lock == None then Some(next.(lock := Some(t), threads := s.threads[t := Elsewhere]))
        else None
      case LeaveOther(_, token, tokenExpiry, signers, signersExpiry) =>
        if thread != Elsewhere then None
        else Some(next.(lock := None, threads := s.threads[t := Idle],
                        st := SessionState(token, tokenExpiry, signers, signersExpiry, s.st.pubKeys)))
  }

  datatype Timed = Timed(at: Time, step: Step)

  /** The state after an interleaving, if every step of it could happen. */
  function After(cfg: Settings, steps: seq<Timed>): Option<Race> {
    if steps == [] then Some(START)
    else
      match After(cfg, steps[..|steps| - 1])
      case None => None
      case Some(s) => Do(cfg, s, steps[|steps| - 1].at, steps[|steps| - 1].step)
  }

  // ---- What every interleaving keeps -------------------------------------------------------------

  predicate HoldsLock(thread: Thread) {
    thread.Checking? || thread.GettingToken? || thread.Storing? || thread.Elsewhere?
  }

  ghost predicate LockHeld(s: Race) {
    forall t: nat :: HoldsLock(ThreadOf(s, t)) <==> s.lock == Some(t)
  }

  /** A thread with a key in hand got it from the server, for the ID it asked about, after its check. */
  ghost predicate ThreadsServed(s: Race) {
    forall t: nat ::
      var th := ThreadOf(s, t);
      && ((th.GettingToken? || th.Fetching?) ==> th.checkedAt <= s.now)
      && ((th.Fetched? || th.Storing?) ==>
            Serve(th.id, th.key, th.servedAt) in s.served && th.checkedAt <= th.servedAt <= s.now)
  }

  ghost predicate StoresServed(s: Race) {
    forall x :: x in s.stored ==> x.serve in s.served && x.serve.at <= x.storedAt <= s.now
  }

  /** Every cache entry was stored for its own ID, and expires CertTTL after that. */
  ghost predicate EntriesStored(cfg: Settings, s: Race) {
    forall id :: id in s.st.pubKeys ==>
      exists x :: x in s.stored && x.serve.id == id && x.serve.key == s.st.pubKeys[id].key &&
                  s.st.pubKeys[id].expiresAt == x.storedAt + SecondsToDuration(cfg.cache.certTtlSeconds)
  }

  /**
   The returned key was served for the same ID, either after the caller's check, or no earlier than
   CertTTL plus the storing thread's serve-to-store delay before it.
   */
  ghost predicate Justified(cfg: Settings, s: Race, r: Return) {
    || (exists v :: v in s.served && v.id == r.id && v.key == r.key && r.checkedAt <= v.at)
    || (exists x :: x in s.stored && x.serve in s.served && x.serve.id == r.id && x.serve.key == r.key &&
          r.checkedAt - x.serve.at < SecondsToDuration(cfg.cache.certTtlSeconds) + (x.storedAt - x.serve.at))
  }

  ghost predicate ReturnsJustified(cfg: Settings, s: Race) {
    forall r :: r in s.returned ==> Justified(cfg, s, r)
  }

  ghost predicate Inv(cfg: Settings, s: Race) {
    LockHeld(s) && ThreadsServed(s) && StoresServed(s) && EntriesStored(cfg, s) && ReturnsJustified(cfg, s)
  }

  /** Later states know at least as much history. */
  lemma JustifiedGrows(cfg: Settings, s: Race, s': Race, r: Return)
    requires Justified(cfg, s, r) && s.served <= s'.served && s.stored <= s'.stored
    ensures Justified(cfg, s', r)
  {
  }

  lemma StepKeepsLock(cfg: Settings, s: Race, at: Time, step: Step)
    requires LockHeld(s) && Do(cfg, s, at, step).Some?
    ensures LockHeld(Do(cfg, s, at, step).value)
  {
  }

  lemma StepKeepsThreads(cfg: Settings, s: Race, at: Time, step: Step)
    requires ThreadsServed(s) && Do(cfg, s, at, step).Some?
    ensures ThreadsServed(Do(cfg, s, at, step).value)
  {
    hide EnsureTokenOutcome, PublicKeyStored, PublicKeyHit;
    var s' := Do(cfg, s, at, step).value;
    forall t: nat
      ensures var th := ThreadOf(s', t);
              && ((th.GettingToken? || th.Fetching?) ==> th.checkedAt <= s'.now)
              && ((th.Fetched? || th.Storing?) ==>
                    Serve(th.id, th.key, th.servedAt) in s'.served && th.checkedAt <= th.servedAt <= s'.now)
    {
      assert t != step.t ==> ThreadOf(s', t) == ThreadOf(s, t);
    }
  }

  lemma StepKeepsStores(cfg: Settings, s: Race, at: Time, step: Step)
    requires ThreadsServed(s) && StoresServed(s) && EntriesStored(cfg, s) && Do(cfg, s, at, step).Some?
    ensures StoresServed(Do(cfg, s, at, step).value) && EntriesStored(cfg, Do(cfg, s, at, step).value)
  {
    hide PublicKeyHit, SecondsToDuration;
    var s' := Do(cfg, s, at, step).value;
    if step.StoreKey? {
      var th := ThreadOf(s, step.t);
      assert Store(Serve(th.id, th.key, th.servedAt), at) in s'.stored;
    } else {
      assert s'.st.pubKeys == s.st.pubKeys && s'.stored == s.stored;
    }
  }

  lemma StepKeepsReturns(cfg: Settings, s: Race, at: Time, step: Step)
    requires Inv(cfg, s) && Do(cfg, s, at, step).Some?
    ensures ReturnsJustified(cfg, Do(cfg, s, at, step).value)
  {
    hide EnsureTokenOutcome;
    var s' := Do(cfg, s, at, step).value;
    var th := ThreadOf(s, step.t);
    forall r | r in s'.returned ensures Justified(cfg, s', r) {
      if r in s.returned {
        JustifiedGrows(cfg, s, s', r);
      } else if step.StoreKey? {
        assert Serve(th.id, th.key, th.servedAt) in s'.served;
      } else {
        var x :| x in s.stored && x.serve.id == th.id && x.serve.key == s.st.pubKeys[th.id].key &&
                 s.st.pubKeys[th.id].expiresAt == x.storedAt + SecondsToDuration(cfg.cache.certTtlSeconds);
        assert x in s'.stored && x.serve in s'.served;
      }
    }
  }

  lemma {:induction false} InterleavingKeepsInv(cfg: Settings, steps: seq<Timed>)
    requires After(cfg, steps).Some?
    ensures Inv(cfg, After(cfg, steps).value)
  {
    hide Do;
    if steps != [] {
      var s := After(cfg, steps[..|steps| - 1]).value;
      var last := steps[|steps| - 1];
      InterleavingKeepsInv(cfg, steps[..|steps| - 1]);
      StepKeepsLock(cfg, s, last.at, last.step);
      StepKeepsThreads(cfg, s, last.at, last.step);
      StepKeepsStores(cfg, s, last.at, last.step);
      StepKeepsReturns(cfg, s, last.at, last.step);
    }
  }

  /** At most one thread is inside a locked section. */
  lemma LockExcludes(cfg: Settings, steps: seq<Timed>, t: nat, u: nat)
    requires After(cfg, steps).Some?
    requires HoldsLock(ThreadOf(After(cfg, steps).value, t)) && HoldsLock(ThreadOf(After(cfg, steps).value, u))
    ensures t == u
  {
    InterleavingKeepsInv(cfg, steps);
  }

  /** Every key ever returned, in every interleaving, is justified; if no thread dawdles it is that fresh. */
  lemma ReturnedKeyIsFresh(cfg: Settings, steps: seq<Timed>, r: Return, slowest: int)
    requires After(cfg, steps).Some? && r in After(cfg, steps).value.returned
    ensures var s := After(cfg, steps).value;
            && Justified(cfg, s, r)
            && ((forall x :: x in s.stored ==> x.storedAt - x.serve.at <= slowest) ==>
                exists v :: v in s.served && v.id == r.id && v.key == r.key &&
                  (r.checkedAt <= v.at || r.checkedAt - v.at < SecondsToDuration(cfg.cache.certTtlSeconds) + slowest))
  {
    InterleavingKeepsInv(cfg, steps);
  }

  // ---- What interleavings do not keep ------------------------------------------------------------

  lemma RunOn(cfg: Settings, steps: seq<Timed>, at: Time, step: Step) returns (longer: seq<Timed>)
    requires After(cfg, steps).Some?
    ensures After(cfg, longer) == Do(cfg, After(cfg, steps).value, at, step)
  {
    longer := steps + [Timed(at, step)];
    assert longer[..|longer| - 1] == steps;
  }

  /** A thread that finds no cached key goes through check, token and fetch without interruption. */
  lemma RunToFetched(cfg: Settings, steps: seq<Timed>, t: nat, id: string, at: Time, key: PublicKey)
    returns (longer: seq<Timed>)
    requires cfg.auth.authMethod == AUTH_METHOD_TOKEN && cfg.auth.token != ""
    requires After(cfg, steps).Some?
    requires var s := After(cfg, steps).value;
             s.lock == None && ThreadOf(s, t) == Idle && id !in s.st.pubKeys && s.now <= at
    ensures var s := After(cfg, steps).value;
            After(cfg, longer) == Some(s.(now := at,
                                          threads := s.threads[t := Fetched(id, at, key, at)],
                                          served := s.served + {Serve(id, key, at)}))
  {
    hide After, PublicKeyStored;
    var s := After(cfg, steps).value;
    longer := RunOn(cfg, steps, at, Call(t, id));
    longer := RunOn(cfg, longer, at, Lock(t));
    longer := RunOn(cfg, longer, at, Check(t));
    longer := RunOn(cfg, longer, at, TokenDone(t, map[], TokenEnv(at, at, Failure(Plain("unused")), at)));
    longer := RunOn(cfg, longer, at, ServeKey(t, key));
    assert After(cfg, longer).value.threads == s.threads[t := Fetched(id, at, key, at)];
  }

  lemma RunToStored(cfg: Settings, steps: seq<Timed>, t: nat, at: Time) returns (longer: seq<Timed>)
    requires After(cfg, steps).Some?
    requires var s := After(cfg, steps).value;
             s.lock == None && ThreadOf(s, t).Fetched? && s.now <= at
    ensures var s := After(cfg, steps).value;
            var th := ThreadOf(s, t);
            && After(cfg, longer).Some?
            && var s' := After(cfg, longer).value;
            && s'.st.pubKeys ==
               s.st.pubKeys[th.id := PubKeyEntry(th.key, at + SecondsToDuration(cfg.cache.certTtlSeconds))]
            && s'.served == s.served && s'.now == at && s'.lock == None
            && forall u: nat :: u != t ==> ThreadOf(s', u) == ThreadOf(s, u)
  {
    hide EnsureTokenOutcome, PublicKeyHit, SecondsToDuration, After;
    longer := RunOn(cfg, steps, at, Lock(t));
    longer := RunOn(cfg, longer, at, StoreKey(t));
  }

  /** The cache does not always hold the key served last: a slow fetch can overwrite a newer one. */
  lemma SlowFetchOverwritesNewer(cfg: Settings, id: string, stale: PublicKey, newer: PublicKey)
    returns (steps: seq<Timed>)
    requires cfg.auth.authMethod == AUTH_METHOD_TOKEN && cfg.auth.token != ""
    ensures After(cfg, steps).Some?
    ensures var s := After(cfg, steps).value;
            && Serve(id, stale, 1) in s.served && Serve(id, newer, 2) in s.served
            && id in s.st.pubKeys && s.st.pubKeys[id].key == stale
  {
    hide Do;
    steps := RunToFetched(cfg, [], 1, id, 1, stale);
    steps := RunToFetched(cfg, steps, 2, id, 2, newer);
    steps := RunToStored(cfg, steps, 2, 3);
    steps := RunToStored(cfg, steps, 1, 4);
  }
}
