/**
 The handle registry of the provider (cmd/ksp/provider_windows.go) against its abstract history: what was registered
 and freed, in order.
 */
module Handles {
  import opened Wrappers
  import opened Errors
  import opened PublicKeys
  import opened SessionTypes
  import opened Modulo

  datatype KeyType = KeyRsa | KeyEcdsa

  datatype KeyState = KeyState(session: nat, signer: Signer, pub: PublicKey, keyType: KeyType, curveBits: int)

  /** What a handle refers to; sessions are named by numbers. */
  datatype Object = Provider(session: nat) | Key(state: KeyState)

  datatype Registry = Registry(handles: map<nat, Object>, nextHandle: nat)

  const EMPTY_REGISTRY := Registry(map[], 1)

  /** A uintptr holds `word` values, so the counter wraps there. */
  function Registered(word: nat, r: Registry, o: Object): Registry
    requires word > 0
  {
    Registry(r.handles[r.nextHandle := o], (r.nextHandle + 1) % word)
  }

  function Lookup(r: Registry, h: nat): Option<Object> {
    if h in r.handles then Some(r.handles[h]) else None
  }

  /** The key state for a public key, unless its kind is unsupported. */
  function KeyStateFor(session: nat, signer: Signer, pub: PublicKey): Result<KeyState, Error> {
    match pub
    case RsaKey(_, _) => Success(KeyState(session, signer, pub, KeyRsa, 0))
    case EcdsaKey(bits, _, _) => Success(KeyState(session, signer, pub, KeyEcdsa, bits))
    case OtherKey => Failure(Plain("unsupported key type"))
  }

  /** What opening a key registers, given what the session's FindSigner and PublicKey answer. */
  function KeyToOpen(r: Registry, prov: nat, signer: Result<Signer, Error>, pub: Result<PublicKey, Error>):
    Result<Object, Error>
  {
    match Lookup(r, prov)
    case Some(Provider(session)) =>
      if signer.Failure? then Failure(signer.error)
      else if pub.Failure? then Failure(pub.error)
      else
        (match KeyStateFor(session, signer.value, pub.value)
         case Failure(err) => Failure(err)
         case Success(ks) => Success(Key(ks)))
    case _ => Failure(BadHandle)
  }

  function KeyByHandle(r: Registry, h: nat): Result<KeyState, Error> {
    match Lookup(r, h)
    case Some(Key(ks)) => Success(ks)
    case _ => Failure(BadHandle)
  }

  class HandleTable {
    const word: nat
    var handles: map<nat, Object>
    var nextHandle: nat

    ghost predicate Valid()
      reads this
    {
      word > 0
    }

    function Value(): Registry
      reads this
    {
      Registry(handles, nextHandle)
    }

    constructor (word: nat)
      requires word > 0
      ensures Valid() && this.word == word && Value() == EMPTY_REGISTRY
    {
      this.word := word;
      handles, nextHandle := map[], 1;
    }

    method RegisterHandle(v: Object) returns (h: nat)
      requires Valid()
      modifies this
      ensures Valid() && h == old(nextHandle) && Value() == Registered(word, old(Value()), v)
    {
      h := nextHandle;
      nextHandle := (nextHandle + 1) % word;
      handles := handles[h := v];
    }

    method LookupHandle(h: nat) returns (o: Option<Object>)
      ensures o == Lookup(Value(), h)
    {
      o := if h in handles then Some(handles[h]) else None;
    }

    method FreeHandle(h: nat)
      requires Valid()
      modifies this
      ensures Valid() && Value() == old(Value()).(handles := old(handles) - {h})
    {
      handles := handles - {h};
    }

    method OpenProvider(session: Result<nat, Error>) returns (h: Result<nat, Error>)
      requires Valid()
      modifies this
      ensures Valid()
      ensures match session
              case Failure(err) => h == Failure(err) && Value() == old(Value())
              case Success(s) => h == Success(old(nextHandle)) && Value() == Registered(word, old(Value()), Provider(s))
    {
      if session.Failure? {
        return Failure(session.error);
      }
      var handle := RegisterHandle(Provider(session.value));
      h := Success(handle);
    }

    method OpenKey(prov: nat, signer: Result<Signer, Error>, pub: Result<PublicKey, Error>)
      returns (h: Result<nat, Error>)
      requires Valid()
      modifies this
      ensures Valid()
      ensures match KeyToOpen(old(Value()), prov, signer, pub)
              case Failure(err) => h == Failure(err) && Value() == old(Value())
              case Success(o) => h == Success(old(nextHandle)) && Value() == Registered(word, old(Value()), o)
    {
      var found := LookupHandle(prov);
      if found == None || !found.value.Provider? {
        return Failure(BadHandle);
      }
      if signer.Failure? {
        return Failure(signer.error);
      }
      if pub.Failure? {
        return Failure(pub.error);
      }
      var ks := KeyState(found.value.session, signer.value, pub.value, KeyRsa, 0);
      if pub.value.RsaKey? {
        ks := ks.(keyType := KeyRsa);
      } else if pub.value.EcdsaKey? {
        ks := ks.(keyType := KeyEcdsa);
        ks := ks.(curveBits := pub.value.curveBits);
      } else {
        return Failure(Plain("unsupported key type"));
      }
      var handle := RegisterHandle(Key(ks));
      h := Success(handle);
    }
  }

  // ---- Runs and their history --------------------------------------------------------------------

  datatype Event =
    | OpenProvider(session: Result<nat, Error>)
    | OpenKey(prov: nat, signer: Result<Signer, Error>, pub: Result<PublicKey, Error>)
    | Free(h: nat)

  /** What an event registers, if anything. */
  function Opened(r: Registry, e: Event): Result<Object, Error> {
    match e
    case OpenProvider(session) => if session.Failure? then Failure(session.error) else Success(Provider(session.value))
    case OpenKey(prov, signer, pub) => KeyToOpen(r, prov, signer, pub)
    case Free(_) => Failure(Plain("nothing to open"))
  }

  function Apply(word: nat, r: Registry, e: Event): Registry
    requires word > 0
  {
    if e.Free? then r.(handles := r.handles - {e.h})
    else if Opened(r, e).Success? then Registered(word, r, Opened(r, e).value)
    else r
  }

  function After(word: nat, events: seq<Event>): Registry
    requires word > 0
  {
    if events == [] then EMPTY_REGISTRY
    else Apply(word, After(word, events[..|events| - 1]), events[|events| - 1])
  }

  datatype Entry = Registration(o: Object) | Release(h: nat)

  /** The abstract history of a run: successful registrations and frees, in order. */
  function History(word: nat, events: seq<Event>): seq<Entry>
    requires word > 0
  {
    if events == [] then []
    else
      var before, e := events[..|events| - 1], events[|events| - 1];
      var o := Opened(After(word, before), e);
      History(word, before) + (if e.Free? then [Release(e.h)] else if o.Success? then [Registration(o.value)] else [])
  }

  function Registrations(history: seq<Entry>): nat {
    if history == [] then 0
    else Registrations(history[..|history| - 1]) + (if history[|history| - 1].Registration? then 1 else 0)
  }

  /** Read backwards: handle k, wrapped, means the latest registration that was given it, unless freed since. */
  function Resolve(word: nat, history: seq<Entry>, h: nat): Option<Object>
    requires word > 0
  {
    if history == [] then None
    else
      var before := history[..|history| - 1];
      match history[|history| - 1]
      case Release(freed) => if freed == h then None else Resolve(word, before, h)
      case Registration(o) => if h == Registrations(history) % word then Some(o) else Resolve(word, before, h)
  }

  lemma RegistrationsSnoc(before: seq<Entry>, e: Entry)
    ensures Registrations(before + [e]) == Registrations(before) + (if e.Registration? then 1 else 0)
  {
  }

  lemma ResolveSnoc(word: nat, before: seq<Entry>, e: Entry, h: nat)
    requires word > 0
    ensures Resolve(word, before + [e], h) ==
            match e
            case Release(freed) => if freed == h then None else Resolve(word, before, h)
            case Registration(o) =>
              if h == (Registrations(before) + 1) % word then Some(o) else Resolve(word, before, h)
  {
    RegistrationsSnoc(before, e);
  }

  lemma NothingResolves(word: nat, h: nat)
    requires word > 0
    ensures Resolve(word, [], h) == None
  {
  }

  /** In every run, wrapped or not, looking a handle up is resolving it in the history. */
  lemma {:induction false} LookupIsResolve(word: nat, events: seq<Event>)
    requires word > 1
    ensures After(word, events).nextHandle == (Registrations(History(word, events)) + 1) % word
    ensures forall h: nat :: Lookup(After(word, events), h) == Resolve(word, History(word, events), h)
  {
    hide Opened, Resolve;
    forall h: nat ensures Resolve(word, [], h) == None {
      NothingResolves(word, h);
    }
    if events != [] {
      var before, e := events[..|events| - 1], events[|events| - 1];
      var r, history := After(word, before), History(word, before);
      var o := Opened(r, e);
      LookupIsResolve(word, before);
      if e.Free? {
        RegistrationsSnoc(history, Release(e.h));
        forall h: nat ensures Lookup(After(word, events), h) == Resolve(word, History(word, events), h) {
          ResolveSnoc(word, history, Release(e.h), h);
        }
      } else if o.Success? {
        var next := history + [Registration(o.value)];
        assert History(word, events) == next;
        RegistrationsSnoc(history, Registration(o.value));
        NextModulo(Registrations(history) + 1, word);
        assert After(word, events) == Registered(word, r, o.value);
        forall h: nat ensures Lookup(After(word, events), h) == Resolve(word, next, h) {
          ResolveSnoc(word, history, Registration(o.value), h);
        }
      } else {
        assert History(word, events) == history;
      }
    }
  }

  /**
   What was registered under a handle is found there until the handle is freed, and never again after,
   for as long as the counter has not come round.
   */
  lemma {:induction false} RegisteredUntilFreed(word: nat, before: seq<Entry>, o: Object, after: seq<Entry>)
    requires word > 0
    ensures Registrations(before + [Registration(o)] + after) > Registrations(before)
    ensures Registrations(before + [Registration(o)] + after) <= Registrations(before) + word ==>
              var h := (Registrations(before) + 1) % word;
              Resolve(word, before + [Registration(o)] + after, h) == if Release(h) in after then None else Some(o)
    decreases |after|
  {
    var first := Registrations(before) + 1;
    var start := before + [Registration(o)];
    RegistrationsSnoc(before, Registration(o));
    if after == [] {
      assert start + after == start;
      ResolveSnoc(word, before, Registration(o), first % word);
    } else {
      var rest, last := after[..|after| - 1], after[|after| - 1];
      RegisteredUntilFreed(word, before, o, rest);
      assert start + after == (start + rest) + [last];
      RegistrationsSnoc(start + rest, last);
      ResolveSnoc(word, start + rest, last, first % word);
      assert after == rest + [last];
      if last.Registration? && Registrations(start + rest) + 1 < first + word {
        DistinctModulo(first, Registrations(start + rest) + 1, word);
      }
    }
  }

  lemma {:induction false} HistoryConcat(word: nat, before: seq<Event>, after: seq<Event>) returns (rest: seq<Entry>)
    requires word > 0
    ensures History(word, before + after) == History(word, before) + rest
    ensures forall h :: Release(h) in rest <==> Free(h) in after
    decreases |after|
  {
    if after == [] {
      rest := [];
      assert before + after == before;
      assert History(word, before) + rest == History(word, before);
    } else {
      var all := before + after;
      var init, e := after[..|after| - 1], after[|after| - 1];
      assert all[..|all| - 1] == before + init;
      var rest' := HistoryConcat(word, before, init);
      var o := Opened(After(word, before + init), e);
      var tail := if e.Free? then [Release(e.h)] else if o.Success? then [Registration(o.value)] else [];
      rest := rest' + tail;
      assert History(word, before) + rest' + tail == History(word, before) + rest;
      assert after == init + [e];
    }
  }

  /**
   In any run in which an open is followed by fewer further registrations than a handle word counts,
   the handle it returned resolves to exactly what was opened until it is freed and never afterwards,
   whatever happens to other handles.
   */
  lemma OpenedHandleResolves(word: nat, before: seq<Event>, e: Event, after: seq<Event>)
    requires word > 1 && Opened(After(word, before), e).Success? && !e.Free?
    requires Registrations(History(word, before + [e] + after)) <= Registrations(History(word, before)) + word
    ensures var h := After(word, before).nextHandle;
            Lookup(After(word, before + [e] + after), h) ==
            if Free(h) in after then None else Some(Opened(After(word, before), e).value)
  {
    hide *;
    var o := Opened(After(word, before), e).value;
    var history := History(word, before);
    HistoryOfOpen(word, before, e);
    var rest := HistoryConcat(word, before + [e], after);
    RegisteredUntilFreed(word, history, o, rest);
    LookupIsResolve(word, before);
    LookupIsResolve(word, before + [e] + after);
    var h := (Registrations(history) + 1) % word;
    assert Release(h) in rest <==> Free(h) in after;
  }

  lemma HistoryOfOpen(word: nat, before: seq<Event>, e: Event)
    requires word > 1 && Opened(After(word, before), e).Success? && !e.Free?
    ensures History(word, before + [e]) == History(word, before) + [Registration(Opened(After(word, before), e).value)]
  {
  }

  // ---- Handles issued over a run -----------------------------------------------------------------

  /** The event at position i opens something, and so issues a handle. */
  predicate Issues(word: nat, events: seq<Event>, i: int)
    requires word > 0
  {
    0 <= i < |events| && !events[i].Free? && Opened(After(word, events[..i]), events[i]).Success?
  }

  function IssuedAt(word: nat, events: seq<Event>, i: int): nat
    requires word > 0 && Issues(word, events, i)
  {
    After(word, events[..i]).nextHandle
  }

  function RegistrationsBefore(word: nat, events: seq<Event>, i: nat): nat
    requires word > 0 && i <= |events|
  {
    Registrations(History(word, events[..i]))
  }

  lemma RegistrationsStep(word: nat, events: seq<Event>, i: nat)
    requires word > 1 && i < |events|
    ensures RegistrationsBefore(word, events, i + 1) ==
            RegistrationsBefore(word, events, i) + (if Issues(word, events, i) then 1 else 0)
  {
    assert events[..i + 1][..i] == events[..i];
    var history, e := History(word, events[..i]), events[i];
    var o := Opened(After(word, events[..i]), e);
    if e.Free? {
      RegistrationsSnoc(history, Release(e.h));
    } else if o.Success? {
      RegistrationsSnoc(history, Registration(o.value));
    } else {
      assert history + [] == history;
    }
  }

  lemma {:induction false} RegistrationsGrow(word: nat, events: seq<Event>, i: nat, j: nat)
    requires word > 1 && i <= j <= |events|
    ensures RegistrationsBefore(word, events, i) <= RegistrationsBefore(word, events, j)
    decreases j
  {
    if i < j {
      RegistrationsStep(word, events, j - 1);
      RegistrationsGrow(word, events, i, j - 1);
    }
  }

  /** The open that makes the k-th registration of a run. */
  lemma {:induction false} IssuingOpen(word: nat, events: seq<Event>, k: nat, n: nat) returns (i: int)
    requires word > 1 && n <= |events| && k < RegistrationsBefore(word, events, n)
    ensures Issues(word, events, i) && i < n && RegistrationsBefore(word, events, i) == k
    decreases n
  {
    RegistrationsStep(word, events, n - 1);
    if RegistrationsBefore(word, events, n - 1) == k {
      i := n - 1;
    } else {
      i := IssuingOpen(word, events, k, n - 1);
    }
  }

  /** Two opens of a run are given the same handle only when a whole word of registrations lies between them. */
  lemma HandlesOfTwoOpens(word: nat, events: seq<Event>, i: int, j: int)
    requires word > 1 && i < j && Issues(word, events, i) && Issues(word, events, j)
    ensures var between := RegistrationsBefore(word, events, j) - RegistrationsBefore(word, events, i);
            && 0 < between
            && (between < word ==> IssuedAt(word, events, i) != IssuedAt(word, events, j))
            && (between == word ==> IssuedAt(word, events, i) == IssuedAt(word, events, j))
  {
    LookupIsResolve(word, events[..i]);
    LookupIsResolve(word, events[..j]);
    RegistrationsStep(word, events, i);
    RegistrationsGrow(word, events, i + 1, j);
    hide *;
    var a, b := RegistrationsBefore(word, events, i) + 1, RegistrationsBefore(word, events, j) + 1;
    if b < a + word {
      DistinctModulo(a, b, word);
    } else if b == a + word {
      FullTurn(a, word);
    }
  }

  /** Some handle is issued twice in a run exactly when the run makes more registrations than a word counts. */
  lemma HandleReissuedIff(word: nat, events: seq<Event>)
    requires word > 1
    ensures (exists i, j :: i < j && Issues(word, events, i) && Issues(word, events, j) &&
                            IssuedAt(word, events, i) == IssuedAt(word, events, j)) <==>
            Registrations(History(word, events)) > word
  {
    var total := RegistrationsBefore(word, events, |events|);
    assert events[..|events|] == events;
    forall i, j | i < j && Issues(word, events, i) && Issues(word, events, j) && total <= word
      ensures IssuedAt(word, events, i) != IssuedAt(word, events, j)
    {
      HandlesOfTwoOpens(word, events, i, j);
      RegistrationsStep(word, events, j);
      RegistrationsGrow(word, events, j + 1, |events|);
    }
    if total > word {
      var i := IssuingOpen(word, events, 0, |events|);
      var j := IssuingOpen(word, events, word, |events|);
      if j <= i {
        RegistrationsGrow(word, events, j, i);
      }
      HandlesOfTwoOpens(word, events, i, j);
    }
  }

  // ---- Keys --------------------------------------------------------------------------------------

  predicate KeyConsistent(ks: KeyState) {
    match ks.pub
    case RsaKey(_, _) => ks.keyType == KeyRsa
    case EcdsaKey(bits, _, _) => ks.keyType == KeyEcdsa && ks.curveBits == bits
    case OtherKey => false
  }

  /** Every key a handle resolves to has the type and curve size of its public key; a provider is no key. */
  lemma {:induction false} LiveKeysConsistent(word: nat, events: seq<Event>, h: nat)
    requires word > 0
    ensures KeyByHandle(After(word, events), h).Success? ==> KeyConsistent(KeyByHandle(After(word, events), h).value)
    ensures Lookup(After(word, events), h).Some? && Lookup(After(word, events), h).value.Provider? ==>
            KeyByHandle(After(word, events), h) == Failure(BadHandle)
  {
    if events != [] {
      LiveKeysConsistent(word, events[..|events| - 1], h);
    }
  }

  /** A provider handle means its session until it is freed. */
  lemma OpenProviderResolves(word: nat, before: seq<Event>, session: nat, after: seq<Event>)
    requires word > 1
    requires Registrations(History(word, before + [OpenProvider(Success(session))] + after)) <=
             Registrations(History(word, before)) + word
    ensures var prov := After(word, before).nextHandle;
            Lookup(After(word, before + [OpenProvider(Success(session))] + after), prov) ==
            if Free(prov) in after then None else Some(Provider(session))
  {
    OpenedHandleResolves(word, before, OpenProvider(Success(session)), after);
  }

  /**
   A key opened through a provider opened earlier in the run, and not freed since, works with that provider's
   session, the signer that was found and its public key, under its handle until that is freed. Through a
   freed provider nothing opens.
   */
  lemma OpenedKeyIsProviders(
    word: nat, first: seq<Event>, session: nat, between: seq<Event>,
    signer: Result<Signer, Error>, pub: Result<PublicKey, Error>, after: seq<Event>)
    requires word > 1
    requires var opening := first + [OpenProvider(Success(session))] + between;
             Registrations(History(word, opening)) <= Registrations(History(word, first)) + word
    requires var opening := first + [OpenProvider(Success(session))] + between;
             var open := OpenKey(After(word, first).nextHandle, signer, pub);
             Registrations(History(word, opening + [open] + after)) <= Registrations(History(word, opening)) + word
    ensures var prov := After(word, first).nextHandle;
            var opening := first + [OpenProvider(Success(session))] + between;
            var open := OpenKey(prov, signer, pub);
            var h := After(word, opening).nextHandle;
            var o := Opened(After(word, opening), open);
            if Free(prov) in between then o == Failure(BadHandle)
            else if signer.Failure? then o == Failure(signer.error)
            else if pub.Failure? then o == Failure(pub.error)
            else if pub.value.OtherKey? then o.Failure?
            else
              && o.Success?
              && (Free(h) !in after ==>
                    var key := KeyByHandle(After(word, opening + [open] + after), h);
                    && key.Success?
                    && key.value.session == session && key.value.signer == signer.value && key.value.pub == pub.value
                    && (key.value.keyType == KeyRsa <==> pub.value.RsaKey?)
                    && (pub.value.EcdsaKey? ==> key.value.curveBits == pub.value.curveBits))
              && (Free(h) in after ==> KeyByHandle(After(word, opening + [open] + after), h) == Failure(BadHandle))
  {
    hide After, History;
    var opening := first + [OpenProvider(Success(session))] + between;
    var open := OpenKey(After(word, first).nextHandle, signer, pub);
    OpenProviderResolves(word, first, session, between);
    if Opened(After(word, opening), open).Success? {
      OpenedHandleResolves(word, opening, open, after);
    }
  }
}
