/**
 From the session's Sign (internal/infisical/session.go) to SignHash (cmd/ksp/bridge_windows.c): what the host is
 given when the server signs, and what it is told when the server refuses.
 */
module HostStatus {
  import opened Wrappers
  import opened Bytes
  import opened Errors
  import opened Session
  import opened Approvals
  import opened Buffers
  import opened HostSignatures
  import opened Config
  import Handles
  import SessionTypes

  /** The session call that SignHash makes for a key and a request, and what it answers. */
  predicate SignsThrough(
    backend: Backend, ks: Handles.KeyState, req: HashRequest, padding: Padding, hashName: string,
    lib: SessionTypes.Library, cfg: Settings, st: SessionState, call: SignCall)
  {
    && Asks(req, padding, hashName)
    && backend.algorithm(ks.keyType, padding, hashName) == Success(call.algorithm)
    && call.signerId == ks.signer.id
    && call.digest == req.digest
    && backend.sign(call.signerId, call.algorithm, call.digest) == OutcomeOf(lib, cfg, st, call).result
  }

  /**
   A SignHash whose sign request the server refuses returns the refusal's own status, whether or not an
   approval request was opened or could be opened, and leaves the caller's memory alone; for a missing
   approval that status is NTE_PERM. Without a token the status is that of the failed token request.
   */
  lemma RefusedSignHashStatus(
    backend: Backend, ks: Handles.KeyState, req: HashRequest, padding: Padding, hashName: string,
    buffer: seq<byte>, cb: dword, lib: SessionTypes.Library, cfg: Settings, st: SessionState, call: SignCall)
    requires cb <= |buffer| && SignsThrough(backend, ks, req, padding, hashName, lib, cfg, st, call)
    ensures var effect := SignHashEffect(backend, Success(ks), req, Some(buffer), cb);
            match TokenOf(cfg, st, call)
            case Failure(err) => effect == Effect(StatusFromError(Some(err)), None, Some(buffer))
            case Success(_) =>
              (match call.env.reply
               case Success(_) => true
               case Failure(denial) =>
                 && effect == Effect(StatusFromError(Some(denial)), None, Some(buffer))
                 && (DeniedForApproval(denial) ==> StatusFromError(Some(denial)) == 0x80090010))
  {
    hide EnsureTokenOutcome, OutcomeOf, StatusFromError, DeniedForApproval, SignHashEffect, Asks;
    var result := OutcomeOf(lib, cfg, st, call).result;
    SignSucceedsIff(lib, cfg, st, call, []);
    if TokenOf(cfg, st, call).Success? && call.env.reply.Failure? {
      DenialStaysInChain(lib, cfg, st, call);
    }
    if result.Failure? {
      FailedSignHash(backend, ks, req, padding, hashName, result.error, buffer, cb);
    }
  }

  /**
   A SignHash whose sign request the server grants fills the buffer with the reply's signature: for an RSA
   key the very octets, for an ECDSA key the r and s of the DER signature they are, each as wide as the
   curve's coordinates.
   */
  lemma GrantedSignHash(
    backend: Backend, ks: Handles.KeyState, req: HashRequest, padding: Padding, hashName: string,
    buffer: seq<byte>, cb: dword, lib: SessionTypes.Library, cfg: Settings, st: SessionState, call: SignCall,
    sig: seq<byte>, size: nat)
    requires cb <= |buffer| && SignsThrough(backend, ks, req, padding, hashName, lib, cfg, st, call)
    requires TokenOf(cfg, st, call).Success? && call.env.reply.Success?
    requires lib.unbase64(call.env.reply.value) == Success(sig)
    ensures var effect := SignHashEffect(backend, Success(ks), req, Some(buffer), cb);
            && (ks.keyType.KeyRsa? && |sig| <= cb && |sig| < 0x8000_0000 ==>
                  effect == Effect(0, Some(|sig|), Some(sig + buffer[|sig|..])))
            && (ks.keyType.KeyEcdsa? && (ks.curveBits, size) in {(256, 32), (384, 48), (521, 66)} && 2 * size <= cb ==>
                  CarriesNumbers(effect, sig, buffer, size))
  {
    hide EnsureTokenOutcome, OutcomeOf, SignHashEffect, Asks, CarriesNumbers, TokenOf;
    SignSucceedsIff(lib, cfg, st, call, sig);
    if ks.keyType.KeyRsa? && |sig| < 0x8000_0000 {
      RsaSignatureDelivered(backend, ks, req, padding, hashName, sig, buffer, cb);
    }
    if ks.keyType.KeyEcdsa? && (ks.curveBits, size) in {(256, 32), (384, 48), (521, 66)} && 2 * size <= cb {
      EcdsaSignatureDelivered(backend, ks, req, padding, hashName, sig, buffer, cb, size);
    }
  }
}
