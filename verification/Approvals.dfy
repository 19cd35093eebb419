/**
 Approval on denial (internal/infisical/session.go): when a sign call opens an approval request, what the request
 asks for, and what the caller is told, for one call and over any run of calls.
 */
module Approvals {
  import opened Wrappers
  import opened Bytes
  import opened Errors
  import opened SessionTypes
  import opened Session
  import opened Config

  /** The server refused to sign because an approval is missing: HTTP 403 with that code, however wrapped. */
  predicate DeniedForApproval(e: Error) {
    RootCause(e).ApiError? && RootCause(e).statusCode == 403 && RootCause(e).code == "ApprovalRequired"
  }

  predicate DurationParses(lib: Library, approval: ApprovalConfig) {
    approval.signingDuration == "" || ParseApprovalDuration(lib.parsers, approval.signingDuration).Some?
  }

  datatype SignCall = SignCall(
    failures: FailureCache, ctx: SigningContext, signerId: string, algorithm: string, digest: seq<byte>, env: SignEnv)

  function OutcomeOf(lib: Library, cfg: Settings, st: SessionState, call: SignCall): SignOutcome {
    SignCallOutcome(lib, cfg, st, call.failures, call.ctx, call.signerId, call.algorithm, call.digest, call.env)
  }

  /** The token the call obtains, or the error it gets instead. */
  function TokenOf(cfg: Settings, st: SessionState, call: SignCall): Result<string, Error> {
    EnsureTokenOutcome(cfg, st, call.failures, call.env.token).result
  }

  /** The call opens an approval request. */
  predicate Opens(lib: Library, cfg: Settings, st: SessionState, call: SignCall) {
    && TokenOf(cfg, st, call).Success?
    && call.env.reply.Failure?
    && DeniedForApproval(call.env.reply.error)
    && (cfg.approval.signingCount != 0 || cfg.approval.signingDuration != "")
    && DurationParses(lib, cfg.approval)
  }

  /** The approval request is for the call's signer and pins the call's own digest, field by field. */
  predicate PinnedTo(lib: Library, call: SignCall, request: Request) {
    && request.ApprovalRequest?
    && request.signerId == call.signerId
    && var scope := request.approval.scope;
    && scope.dataHash == lib.hexSha256(call.digest)
    && scope.command == call.ctx.command
    && scope.signingApplication == call.ctx.application
    && scope.signingApplicationHash == call.ctx.applicationHash
    && scope.hostname == call.ctx.hostname
    && scope.osUsername == call.ctx.osUsername
  }

  /** The sign request carries the call's own digest, algorithm, signer and situation. */
  predicate SignsFor(lib: Library, call: SignCall, request: Request) {
    && request.SignRequest?
    && request.signerId == call.signerId
    && request.params.dataB64 == lib.base64(call.digest) && request.params.isDigest
    && request.params.signingAlgorithm == call.algorithm
    && var metadata := request.params.metadata;
    && metadata.command == call.ctx.command
    && metadata.tool == call.ctx.application
    && metadata.signingApplicationHash == call.ctx.applicationHash
    && metadata.hostname == call.ctx.hostname
    && metadata.osUsername == call.ctx.osUsername
  }

  function ApprovalCount(sent: seq<Request>): nat {
    if sent == [] then 0
    else (if sent[|sent| - 1].ApprovalRequest? then 1 else 0) + ApprovalCount(sent[..|sent| - 1])
  }

  lemma {:induction false} ApprovalCountConcat(a: seq<Request>, b: seq<Request>)
    ensures ApprovalCount(a + b) == ApprovalCount(a) + ApprovalCount(b)
    decreases |b|
  {
    if b == [] {
      assert a + b == a;
    } else {
      assert (a + b)[..|a + b| - 1] == a + b[..|b| - 1];
      ApprovalCountConcat(a, b[..|b| - 1]);
    }
  }

  // ---- One call ----------------------------------------------------------------------------------

  /**
   A call sends nothing without a token, and else one sign request with it; then at most one approval
   request, exactly when it was denied for want of approval and a usable approval block is configured,
   with the same token and pinned to the digest it asked to have signed.
   */
  lemma OneApprovalPerDenial(lib: Library, cfg: Settings, st: SessionState, call: SignCall)
    ensures var sent := OutcomeOf(lib, cfg, st, call).sent;
            && ApprovalCount(sent) == (if Opens(lib, cfg, st, call) then 1 else 0)
            && |sent| == (if TokenOf(cfg, st, call).Failure? then 0 else if Opens(lib, cfg, st, call) then 2 else 1)
            && (|sent| >= 1 ==> SignsFor(lib, call, sent[0]) && sent[0].token == TokenOf(cfg, st, call).value)
            && (|sent| == 2 ==> PinnedTo(lib, call, sent[1]) && sent[1].token == sent[0].token)
  {
    hide EnsureTokenOutcome, ParseApprovalDuration, Justification, RootCause;
    var sent := OutcomeOf(lib, cfg, st, call).sent;
    if call.env.reply.Failure? {
      StatusIsOfRootCause(call.env.reply.error);
    }
    assert sent != [] ==> ApprovalCount(sent[..1]) == 0;
    assert |sent| == 2 ==> sent[..1] == [sent[0]];
  }

  /**
   A call returns a signature exactly when it had a token, the server accepted the sign request, and the
   reply decodes to that signature.
   */
  lemma SignSucceedsIff(lib: Library, cfg: Settings, st: SessionState, call: SignCall, sig: seq<byte>)
    ensures OutcomeOf(lib, cfg, st, call).result == Success(sig) <==>
            && TokenOf(cfg, st, call).Success?
            && call.env.reply.Success?
            && lib.unbase64(call.env.reply.value) == Success(sig)
    ensures OutcomeOf(lib, cfg, st, call).result == Success(sig) ==>
              var sent := OutcomeOf(lib, cfg, st, call).sent;
              |sent| == 1 && SignsFor(lib, call, sent[0]) && sent[0].token == TokenOf(cfg, st, call).value
    ensures TokenOf(cfg, st, call).Failure? ==>
              OutcomeOf(lib, cfg, st, call).result == Failure(TokenOf(cfg, st, call).error)
  {
    OneApprovalPerDenial(lib, cfg, st, call);
    hide EnsureTokenOutcome, DenialOutcome, SignsFor;
  }

  /**
   A refused sign request never succeeds; its error is the server's own or wraps it, so that the host
   is told what the refusal alone would have told it, whatever became of the approval request. The
   wrapper says whether a request was opened, or could not be.
   */
  lemma DenialStaysInChain(lib: Library, cfg: Settings, st: SessionState, call: SignCall)
    requires TokenOf(cfg, st, call).Success? && call.env.reply.Failure?
    ensures var result := OutcomeOf(lib, cfg, st, call).result;
            && result.Failure?
            && InChain(result.error, call.env.reply.error)
            && StatusFromError(Some(result.error)) == StatusFromError(Some(call.env.reply.error))
            && (DeniedForApproval(call.env.reply.error) ==>
                  DeniedForApproval(result.error) && StatusFromError(Some(result.error)) == 0x80090010)
            && (result.error.ApprovalRequestOpened? && result.error.err == call.env.reply.error <==>
                  Opens(lib, cfg, st, call) && call.env.approval.Success? && call.env.approval.value.id != "")
            && (Opens(lib, cfg, st, call) ==>
                  match call.env.approval
                  case Success(OpenedRequest(id, status)) =>
                    result.error == if id != "" then ApprovalRequestOpened(call.env.reply.error, id, status)
                                    else call.env.reply.error
                  case Failure(err) => result.error == ApprovalRequestFailed(call.env.reply.error, err))
            && (result.error.ApprovalRequestFailed? && result.error.err == call.env.reply.error <==>
                  && DeniedForApproval(call.env.reply.error)
                  && (cfg.approval.signingCount != 0 || cfg.approval.signingDuration != "")
                  && (!DurationParses(lib, cfg.approval) || call.env.approval.Failure?))
  {
    hide EnsureTokenOutcome, ParseApprovalDuration, ApprovalFor, StatusFromError, AsApiError, RootCause;
    var result := OutcomeOf(lib, cfg, st, call).result;
    var denial := call.env.reply.error;
    assert InChain(result.error, denial);
    WrappingKeepsStatus(result.error, denial);
    ApprovalForParses(lib, cfg.approval, call.ctx, lib.hexSha256(call.digest), call.env.now);
    StatusIsOfRootCause(denial);
    StatusIsOfRootCause(result.error);
  }

  lemma ApprovalForParses(lib: Library, approval: ApprovalConfig, ctx: SigningContext, dataHash: string, now: Time)
    ensures ApprovalFor(lib, approval, ctx, dataHash, now).Success? <==> DurationParses(lib, approval)
  {
  }

  // ---- Runs --------------------------------------------------------------------------------------

  function After(lib: Library, cfg: Settings, calls: seq<SignCall>): SessionState {
    if calls == [] then FRESH_SESSION
    else OutcomeOf(lib, cfg, After(lib, cfg, calls[..|calls| - 1]), calls[|calls| - 1]).state
  }

  /** Everything a run sends, in order. */
  function Sent(lib: Library, cfg: Settings, calls: seq<SignCall>): seq<Request> {
    if calls == [] then []
    else
      Sent(lib, cfg, calls[..|calls| - 1]) +
      OutcomeOf(lib, cfg, After(lib, cfg, calls[..|calls| - 1]), calls[|calls| - 1]).sent
  }

  /** How many calls of a run were denied in a way that opens a request. */
  function DenialCount(lib: Library, cfg: Settings, calls: seq<SignCall>): nat {
    if calls == [] then 0
    else
      var before := calls[..|calls| - 1];
      DenialCount(lib, cfg, before) +
      (if Opens(lib, cfg, After(lib, cfg, before), calls[|calls| - 1]) then 1 else 0)
  }

  /** A run opens exactly as many approval requests as it has such denials. */
  lemma {:induction false} OneApprovalPerDenialOverRuns(lib: Library, cfg: Settings, calls: seq<SignCall>)
    ensures ApprovalCount(Sent(lib, cfg, calls)) == DenialCount(lib, cfg, calls) <= |calls|
  {
    hide OutcomeOf, Opens;
    if calls != [] {
      var before, last := calls[..|calls| - 1], calls[|calls| - 1];
      OneApprovalPerDenialOverRuns(lib, cfg, before);
      OneApprovalPerDenial(lib, cfg, After(lib, cfg, before), last);
      ApprovalCountConcat(Sent(lib, cfg, before), OutcomeOf(lib, cfg, After(lib, cfg, before), last).sent);
    }
  }

  /** Every approval request of a run is pinned to the digest of a call that was denied. */
  lemma {:induction false} EveryApprovalIsPinned(lib: Library, cfg: Settings, calls: seq<SignCall>, request: Request)
    returns (i: nat)
    requires request in Sent(lib, cfg, calls) && request.ApprovalRequest?
    ensures i < |calls| && Opens(lib, cfg, After(lib, cfg, calls[..i]), calls[i]) && PinnedTo(lib, calls[i], request)
  {
    hide OutcomeOf, Opens, PinnedTo;
    var before, last := calls[..|calls| - 1], calls[|calls| - 1];
    if request in Sent(lib, cfg, before) {
      i := EveryApprovalIsPinned(lib, cfg, before, request);
      assert before[..i] == calls[..i];
    } else {
      i := |calls| - 1;
      OneApprovalPerDenial(lib, cfg, After(lib, cfg, before), last);
    }
  }

  /** Approval requests of a run that carry the same data hash stem from calls whose digests hash alike. */
  lemma SameHashSameDigest(lib: Library, cfg: Settings, calls: seq<SignCall>, r1: Request, r2: Request)
    returns (i: nat, j: nat)
    requires r1 in Sent(lib, cfg, calls) && r1.ApprovalRequest?
    requires r2 in Sent(lib, cfg, calls) && r2.ApprovalRequest?
    ensures i < |calls| && Opens(lib, cfg, After(lib, cfg, calls[..i]), calls[i]) && PinnedTo(lib, calls[i], r1)
    ensures j < |calls| && Opens(lib, cfg, After(lib, cfg, calls[..j]), calls[j]) && PinnedTo(lib, calls[j], r2)
    ensures r1.approval.scope.dataHash == r2.approval.scope.dataHash <==>
            lib.hexSha256(calls[i].digest) == lib.hexSha256(calls[j].digest)
  {
    i := EveryApprovalIsPinned(lib, cfg, calls, r1);
    j := EveryApprovalIsPinned(lib, cfg, calls, r2);
    hide Opens, Sent;
  }

  // ---- What is asked for -------------------------------------------------------------------------

  /**
   With a configuration that passed the checks, a denial always opens its request. The request asks for
   the configured number of signings and says who asks; its window, in the whole seconds it is written
   in, is the configured duration to within a second and between a minute and thirty days, at any time.
   */
  lemma ApprovalWindow(lib: Library, cfg: Settings, st: SessionState, call: SignCall) returns (start: int, end: int)
    requires ApprovalUsable(lib.parsers, cfg.approval)
    requires TokenOf(cfg, st, call).Success? && call.env.reply.Failure? && DeniedForApproval(call.env.reply.error)
    requires cfg.approval.signingCount != 0 || cfg.approval.signingDuration != ""
    ensures Opens(lib, cfg, st, call) && |OutcomeOf(lib, cfg, st, call).sent| == 2
    ensures var params := OutcomeOf(lib, cfg, st, call).sent[1].approval;
            && params.requestedSignings == cfg.approval.signingCount
            && params.justification == (if call.ctx.hostname == "" then "Auto-requested by the Infisical KSP"
                                        else "Auto-requested by the Infisical KSP on " + call.ctx.hostname)
            && (if cfg.approval.signingDuration == "" then params.windowStart == "" && params.windowEnd == ""
                else
                  var window := ParseApprovalDuration(lib.parsers, cfg.approval.signingDuration).value;
                  && params.windowStart == lib.rfc3339(start) && params.windowEnd == lib.rfc3339(end)
                  && start * 1_000_000_000 <= call.env.now < (start + 1) * 1_000_000_000
                  && window / 1_000_000_000 <= end - start <= (window + 999_999_999) / 1_000_000_000
                  && 60 <= end - start <= 30 * 24 * 60 * 60)
  {
    start := call.env.now / SECOND;
    end := start;
    if cfg.approval.signingDuration != "" {
      var window := ParseApprovalDuration(lib.parsers, cfg.approval.signingDuration).value;
      end := (call.env.now + window) / SECOND;
      WholeSeconds(call.env.now, window);
    }
    OpenedRequestIs(lib, cfg, st, call);
    hide EnsureTokenOutcome, ParseApprovalDuration, RootCause, OutcomeOf, TokenOf;
  }

  /** The request a call opens is the one the approval block asks for. */
  lemma OpenedRequestIs(lib: Library, cfg: Settings, st: SessionState, call: SignCall)
    ensures Opens(lib, cfg, st, call) ==>
              var out := OutcomeOf(lib, cfg, st, call);
              var params := ApprovalFor(lib, cfg.approval, call.ctx, lib.hexSha256(call.digest), call.env.now);
              |out.sent| == 2 && out.sent[1].ApprovalRequest? && params == Success(out.sent[1].approval)
  {
    hide EnsureTokenOutcome, ParseApprovalDuration, RootCause;
    if call.env.reply.Failure? {
      StatusIsOfRootCause(call.env.reply.error);
    }
  }

  lemma WholeSeconds(now: Time, window: int)
    requires MINUTE <= window <= 30 * DAY
    ensures var start, end := now / SECOND, (now + window) / SECOND;
            && start * 1_000_000_000 <= now < (start + 1) * 1_000_000_000
            && window / 1_000_000_000 <= end - start <= (window + 999_999_999) / 1_000_000_000
            && 60 <= end - start <= 30 * 24 * 60 * 60
  {
  }
}
