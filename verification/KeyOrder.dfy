/**
 Which key the public-key cache holds after concurrent PublicKey calls (internal/infisical/session.go): that of the
 last store, and when that is also the key the server handed out last.
 */
module KeyOrder {
  import opened Wrappers
  import opened PublicKeys
  import opened SessionTypes
  import opened Session
  import opened KeyRace
  import opened Config

  /** A fetch that reached the cache: whose, with which key, and at which steps of the run it was served and stored. */
  datatype Fetch = Fetch(t: nat, key: PublicKey, servedStep: nat, storedStep: nat, storedAt: Time)

  /** The step at which a thread was last served; the length of the run if it never was. */
  function ServedStep(steps: seq<Timed>, t: nat): nat {
    if steps == [] then 0
    else
      var n := |steps| - 1;
      if steps[n].step.ServeKey? && steps[n].step.t == t then n
      else if ServedStep(steps[..n], t) == n then n + 1
      else ServedStep(steps[..n], t)
  }

  /** The fetches of an ID that reached the cache, in the order of their StoreKey steps. */
  function Fetches(cfg: Settings, steps: seq<Timed>, id: string): seq<Fetch>
    requires After(cfg, steps).Some?
  {
    if steps == [] then []
    else
      var n := |steps| - 1;
      var step := steps[n].step;
      var th := ThreadOf(After(cfg, steps[..n]).value, step.t);
      Fetches(cfg, steps[..n], id) +
      (if step.StoreKey? && th.Storing? && th.id == id
       then [Fetch(step.t, th.key, ServedStep(steps[..n], step.t), n, steps[n].at)] else [])
  }

  function EntryOf(cfg: Settings, f: Fetch): PubKeyEntry {
    PubKeyEntry(f.key, f.storedAt + SecondsToDuration(cfg.cache.certTtlSeconds))
  }

  function Last(fs: seq<Fetch>): Fetch
    requires fs != []
  {
    fs[|fs| - 1]
  }

  // ---- The last store decides --------------------------------------------------------------------

  /** A step changes the key cache only by storing the key its thread holds. */
  lemma OnlyStoresChangeKeys(cfg: Settings, s: Race, at: Time, step: Step)
    requires Do(cfg, s, at, step).Some?
    ensures var th := ThreadOf(s, step.t);
            var pubKeys := Do(cfg, s, at, step).value.st.pubKeys;
            if step.StoreKey? then
              && th.Storing?
              && pubKeys == s.st.pubKeys[th.id := PubKeyEntry(th.key, at + SecondsToDuration(cfg.cache.certTtlSeconds))]
            else pubKeys == s.st.pubKeys
  {
    hide PublicKeyHit, SecondsToDuration;
  }

  /** In every interleaving, an ID's entry is exactly that of its last StoreKey step. */
  lemma {:induction false} EntryIsLastStore(cfg: Settings, steps: seq<Timed>, id: string)
    requires After(cfg, steps).Some?
    ensures var pubKeys, fs := After(cfg, steps).value.st.pubKeys, Fetches(cfg, steps, id);
            && (id in pubKeys <==> fs != [])
            && (fs != [] ==> pubKeys[id] == EntryOf(cfg, Last(fs)))
  {
    hide Do, SecondsToDuration;
    if steps != [] {
      var n := |steps| - 1;
      EntryIsLastStore(cfg, steps[..n], id);
      OnlyStoresChangeKeys(cfg, After(cfg, steps[..n]).value, steps[n].at, steps[n].step);
    }
  }

  /**
   In every interleaving, a cache check hits exactly when the ID was stored and its last store is less than
   CertTTL old, and returns the key stored then.
   */
  lemma CheckHitsIff(cfg: Settings, steps: seq<Timed>, id: string, now: Time)
    requires After(cfg, steps).Some?
    ensures var fs := Fetches(cfg, steps, id);
            PublicKeyHit(After(cfg, steps).value.st, id, now) ==
            if fs != [] && now < Last(fs).storedAt + Wrap64(cfg.cache.certTtlSeconds * 1_000_000_000)
            then Some(Last(fs).key) else None
  {
    EntryIsLastStore(cfg, steps, id);
    hide After, Fetches, Wrap64;
  }

  // ---- Order of serving and storing --------------------------------------------------------------

  predicate InHand(th: Thread) {
    th.Fetched? || th.Storing?
  }

  /** The fetch happened at the steps it names. */
  predicate Traced(steps: seq<Timed>, f: Fetch) {
    && f.servedStep < f.storedStep < |steps|
    && steps[f.servedStep].step == ServeKey(f.t, f.key)
    && steps[f.storedStep].step == StoreKey(f.t)
    && steps[f.storedStep].at == f.storedAt
  }

  /** A thread holding a key was served it at its last ServeKey step, after all it stored before. */
  ghost predicate HandsTraced(cfg: Settings, steps: seq<Timed>, id: string)
    requires After(cfg, steps).Some?
  {
    forall t: nat :: InHand(ThreadOf(After(cfg, steps).value, t)) ==>
      var p := ServedStep(steps, t);
      && p < |steps| && steps[p].step == ServeKey(t, ThreadOf(After(cfg, steps).value, t).key)
      && forall f :: f in Fetches(cfg, steps, id) && f.t == t ==> f.storedStep < p
  }

  ghost predicate FetchesTraced(steps: seq<Timed>, fs: seq<Fetch>) {
    && (forall f :: f in fs ==> Traced(steps, f))
    && (forall i, j :: 0 <= i < j < |fs| ==> fs[i].storedStep < fs[j].storedStep)
    && (forall i, j :: 0 <= i < j < |fs| && fs[i].t == fs[j].t ==> fs[i].storedStep < fs[j].servedStep)
  }

  lemma {:induction false} HistoryTraced(cfg: Settings, steps: seq<Timed>, id: string)
    requires After(cfg, steps).Some?
    ensures HandsTraced(cfg, steps, id) && FetchesTraced(steps, Fetches(cfg, steps, id))
  {
    if steps != [] {
      var n := |steps| - 1;
      HistoryTraced(cfg, steps[..n], id);
      StepKeepsHands(cfg, steps, id);
      StepKeepsFetches(cfg, steps, id);
    }
  }

  lemma StepKeepsHands(cfg: Settings, steps: seq<Timed>, id: string)
    requires steps != [] && After(cfg, steps).Some?
    requires HandsTraced(cfg, steps[..|steps| - 1], id)
    requires FetchesTraced(steps[..|steps| - 1], Fetches(cfg, steps[..|steps| - 1], id))
    ensures HandsTraced(cfg, steps, id)
  {
    hide PublicKeyHit, PublicKeyStored, EnsureTokenOutcome;
    var n := |steps| - 1;
    var s, s' := After(cfg, steps[..n]).value, After(cfg, steps).value;
    forall t: nat | InHand(ThreadOf(s', t))
      ensures var p := ServedStep(steps, t);
              && p < |steps| && steps[p].step == ServeKey(t, ThreadOf(s', t).key)
              && forall f :: f in Fetches(cfg, steps, id) && f.t == t ==> f.storedStep < p
    {
      if t != steps[n].step.t {
        assert ThreadOf(s', t) == ThreadOf(s, t);
      }
    }
  }

  lemma StepKeepsFetches(cfg: Settings, steps: seq<Timed>, id: string)
    requires steps != [] && After(cfg, steps).Some?
    requires HandsTraced(cfg, steps[..|steps| - 1], id)
    requires FetchesTraced(steps[..|steps| - 1], Fetches(cfg, steps[..|steps| - 1], id))
    ensures FetchesTraced(steps, Fetches(cfg, steps, id))
  {
    hide Do, ServedStep, FetchesTraced;
    var n := |steps| - 1;
    var t := steps[n].step.t;
    var th := ThreadOf(After(cfg, steps[..n]).value, t);
    var before := Fetches(cfg, steps[..n], id);
    LongerRunTraced(steps, n, before);
    if steps[n].step.StoreKey? && th.Storing? && th.id == id {
      assert InHand(th);
      TracedSnoc(steps, before, Fetch(t, th.key, ServedStep(steps[..n], t), n, steps[n].at));
    } else {
      assert before + [] == before;
    }
  }

  lemma LongerRunTraced(steps: seq<Timed>, n: nat, fs: seq<Fetch>)
    requires n <= |steps| && FetchesTraced(steps[..n], fs)
    ensures FetchesTraced(steps, fs) && forall f :: f in fs ==> f.storedStep < n
  {
    assert forall f :: f in fs ==> Traced(steps[..n], f);
  }

  lemma TracedSnoc(steps: seq<Timed>, fs: seq<Fetch>, f: Fetch)
    requires FetchesTraced(steps, fs) && Traced(steps, f)
    requires forall g :: g in fs ==> g.storedStep < f.storedStep && (g.t == f.t ==> g.storedStep < f.servedStep)
    ensures FetchesTraced(steps, fs + [f])
  {
    hide Traced;
  }

  // ---- When the cache holds the key served last --------------------------------------------------

  /** Of the fetches that reached the cache, the one the server answered last. */
  function Newest(fs: seq<Fetch>): (f: Fetch)
    requires fs != []
    ensures f in fs && forall g :: g in fs ==> g.servedStep <= f.servedStep
  {
    var last := fs[|fs| - 1];
    if |fs| == 1 then last
    else
      var f := Newest(fs[..|fs| - 1]);
      assert fs == fs[..|fs| - 1] + [last];
      if f.servedStep < last.servedStep then last else f
  }

  /** `f` was answered after `g` and yet stored before it. */
  predicate Overtakes(f: Fetch, g: Fetch) {
    g.servedStep < f.servedStep && f.storedStep < g.storedStep
  }

  /**
   In every interleaving, the fetch served last is also the one that wrote the entry exactly when no
   fetch was both served and stored between the last storing thread's serve and its store. The cache
   holds the entry of the fetch served last unless such a fetch brought a different one.
   */
  lemma CacheHoldsLastServedIff(cfg: Settings, steps: seq<Timed>, id: string)
    requires After(cfg, steps).Some? && id in After(cfg, steps).value.st.pubKeys
    ensures var fs := Fetches(cfg, steps, id);
            && fs != []
            && var newest, last := Newest(fs), Last(fs);
            && (forall f :: f in fs && f != newest ==> f.servedStep < newest.servedStep)
            && (newest == last <==> forall f :: f in fs ==> !Overtakes(f, last))
            && (After(cfg, steps).value.st.pubKeys[id] == EntryOf(cfg, newest) <==>
                !(Overtakes(newest, last) && EntryOf(cfg, newest) != EntryOf(cfg, last)))
  {
    EntryIsLastStore(cfg, steps, id);
    HistoryTraced(cfg, steps, id);
    hide *;
    NewestIsLastIff(steps, Fetches(cfg, steps, id));
  }

  lemma NewestIsLastIff(steps: seq<Timed>, fs: seq<Fetch>)
    requires fs != [] && FetchesTraced(steps, fs)
    ensures forall f :: f in fs && f != Newest(fs) ==> f.servedStep < Newest(fs).servedStep
    ensures Newest(fs) == Last(fs) <==> forall f :: f in fs ==> !Overtakes(f, Last(fs))
    ensures Newest(fs) != Last(fs) ==> Overtakes(Newest(fs), Last(fs))
  {
    hide Newest;
    forall i, j | 0 <= i < j < |fs|
      ensures fs[i].servedStep != fs[j].servedStep && fs[i].storedStep < fs[j].storedStep
    {
      assert Traced(steps, fs[i]) && Traced(steps, fs[j]);
    }
    assert Last(fs) in fs;
  }

  // ---- Fetches that do not overlap ---------------------------------------------------------------

  /** The thread is between the cache check that sent it to the server and its store. */
  predicate InFetch(th: Thread, id: string) {
    (th.Fetching? || th.Fetched? || th.Storing?) && th.id == id
  }

  ghost predicate OneInFetch(s: Race, id: string) {
    forall t: nat, u: nat :: InFetch(ThreadOf(s, t), id) && InFetch(ThreadOf(s, u), id) ==> t == u
  }

  /** At no point of the run were two threads fetching the same ID. */
  ghost predicate FetchesSeparate(cfg: Settings, steps: seq<Timed>, id: string)
    requires After(cfg, steps).Some?
  {
    && OneInFetch(After(cfg, steps).value, id)
    && (steps != [] ==> FetchesSeparate(cfg, steps[..|steps| - 1], id))
  }

  /** The key the server handed out last for an ID, stored or not. */
  function LastServed(cfg: Settings, steps: seq<Timed>, id: string): Option<PublicKey>
    requires After(cfg, steps).Some?
  {
    if steps == [] then None
    else
      var n := |steps| - 1;
      var step := steps[n].step;
      var th := ThreadOf(After(cfg, steps[..n]).value, step.t);
      if step.ServeKey? && th.Fetching? && th.id == id then Some(step.key) else LastServed(cfg, steps[..n], id)
  }

  /** The key served last is in the cache, unless the thread it was served to still holds it. */
  ghost predicate LastServedKept(s: Race, id: string, served: Option<PublicKey>) {
    && (forall t: nat :: InHand(ThreadOf(s, t)) && ThreadOf(s, t).id == id ==> served == Some(ThreadOf(s, t).key))
    && ((forall t: nat :: InHand(ThreadOf(s, t)) ==> ThreadOf(s, t).id != id) ==>
          if served == None then id !in s.st.pubKeys
          else id in s.st.pubKeys && s.st.pubKeys[id].key == served.value)
  }

  /** If fetches of an ID never overlap, the cache holds the last key the server handed out for it. */
  lemma {:induction false} SeparateFetchesKeepLastServed(cfg: Settings, steps: seq<Timed>, id: string)
    requires After(cfg, steps).Some? && FetchesSeparate(cfg, steps, id)
    ensures LastServedKept(After(cfg, steps).value, id, LastServed(cfg, steps, id))
  {
    if steps != [] {
      var n := |steps| - 1;
      var s, served := After(cfg, steps[..n]).value, LastServed(cfg, steps[..n], id);
      SeparateFetchesKeepLastServed(cfg, steps[..n], id);
      StepKeepsLastServed(cfg, s, steps[n].at, steps[n].step, id, served);
    }
  }

  lemma StepKeepsLastServed(
    cfg: Settings, s: Race, at: Time, step: Step, id: string, served: Option<PublicKey>)
    requires Do(cfg, s, at, step).Some? && OneInFetch(s, id) && LastServedKept(s, id, served)
    ensures var th := ThreadOf(s, step.t);
            LastServedKept(
              Do(cfg, s, at, step).value, id,
              if step.ServeKey? && th.Fetching? && th.id == id then Some(step.key) else served)
  {
    hide PublicKeyHit, PublicKeyStored, SecondsToDuration, EnsureTokenOutcome;
    var s' := Do(cfg, s, at, step).value;
    var th := ThreadOf(s, step.t);
    assert forall t: nat :: t != step.t ==> ThreadOf(s', t) == ThreadOf(s, t);
    assert step.ServeKey? && th.id == id ==> InFetch(th, id) && InHand(ThreadOf(s', step.t));
    forall t: nat | t != step.t && InHand(ThreadOf(s, t)) && ThreadOf(s, t).id == id
      ensures !(step.ServeKey? && th.id == id)
    {
      assert InFetch(ThreadOf(s, t), id);
    }
    OnlyStoresChangeKeys(cfg, s, at, step);
    if !step.StoreKey? {
      assert InHand(th) ==> InHand(ThreadOf(s', step.t)) && ThreadOf(s', step.t).id == th.id;
    }
  }
}
