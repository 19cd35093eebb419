/**
 The error values of the provider, how they wrap one another (internal/infisical/errors.go), and the
 status CNG is given for them (cmd/ksp/provider_windows.go).
 */
module Errors {
  import opened Wrappers

  /** `Annotated` is fmt.Errorf with %w; `Plain` is any error that wraps nothing and is none of the others. */
  datatype Error =
    | ApiError(operation: string, statusCode: int, message: string, code: string)
    | RequestError(operation: string, err: Error)
    | ApprovalRequestOpened(err: Error, requestId: string, status: string)
    | ApprovalRequestFailed(err: Error, requestErr: Error)
    | Annotated(text: string, err: Error)
    | BadHandle
    | Plain(text: string)
  {
    function Unwrap(): Option<Error> {
      if RequestError? || ApprovalRequestOpened? || ApprovalRequestFailed? || Annotated? then Some(err) else None
    }

    predicate IsApprovalRequired() {
      ApiError? && statusCode == 403 && code == "ApprovalRequired"
    }
  }

  const STATUS_SUCCESS := 0x00000000
  const STATUS_PERM := 0x80090010
  const STATUS_BAD_KEYSET := 0x80090016
  const STATUS_FAIL := 0x80090020
  const STATUS_INVALID_PARAMETER := 0x80090027

  /** errors.As with an *APIError target: the first one along the chain. */
  function AsApiError(e: Error): (found: Option<Error>)
    ensures found.Some? ==> found.value.ApiError?
  {
    match e
    case ApiError(_, _, _, _) => Some(e)
    case RequestError(_, err) => AsApiError(err)
    case ApprovalRequestOpened(err, _, _) => AsApiError(err)
    case ApprovalRequestFailed(err, _) => AsApiError(err)
    case Annotated(_, err) => AsApiError(err)
    case BadHandle => None
    case Plain(_) => None
  }

  /** errors.Is with errBadHandle. */
  predicate IsBadHandle(e: Error) {
    match e
    case BadHandle => true
    case RequestError(_, err) => IsBadHandle(err)
    case ApprovalRequestOpened(err, _, _) => IsBadHandle(err)
    case ApprovalRequestFailed(err, _) => IsBadHandle(err)
    case Annotated(_, err) => IsBadHandle(err)
    case ApiError(_, _, _, _) => false
    case Plain(_) => false
  }

  function StatusFromError(err: Option<Error>): int {
    match err
    case None => STATUS_SUCCESS
    case Some(e) =>
      if IsBadHandle(e) then STATUS_INVALID_PARAMETER
      else
        match AsApiError(e)
        case None => STATUS_FAIL
        case Some(api) =>
          if api.statusCode == 403 then STATUS_PERM
          else if api.statusCode == 401 then STATUS_PERM
          else if api.statusCode == 404 then STATUS_BAD_KEYSET
          else if api.statusCode == 400 then STATUS_INVALID_PARAMETER
          else STATUS_FAIL
  }

  // ---- Wrapping is transparent -------------------------------------------------------------------

  /** `inner` is reached from `outer` by unwrapping any number of times. */
  predicate InChain(outer: Error, inner: Error) {
    || outer == inner
    || (outer.Unwrap().Some? && InChain(outer.err, inner))
  }

  function RootCause(e: Error): (root: Error)
    ensures root.Unwrap() == None
  {
    if e.Unwrap().Some? then RootCause(e.err) else e
  }

  /**
   What an error means to the host depends on its root cause alone: NTE_PERM for HTTP 401 and 403,
   NTE_BAD_KEYSET for 404, NTE_INVALID_PARAMETER for 400 and a bad handle, NTE_FAIL for the rest.
   */
  lemma {:induction false} StatusIsOfRootCause(e: Error)
    ensures InChain(e, RootCause(e))
    ensures AsApiError(e) == if RootCause(e).ApiError? then Some(RootCause(e)) else None
    ensures StatusFromError(Some(e)) == match RootCause(e)
                                        case BadHandle => 0x80090027
                                        case ApiError(_, statusCode, _, _) =>
                                          if statusCode in {401, 403} then 0x80090010
                                          else if statusCode == 404 then 0x80090016
                                          else if statusCode == 400 then 0x80090027
                                          else 0x80090020
                                        case _ => 0x80090020
    ensures StatusFromError(None) == 0
  {
    if e.Unwrap().Some? {
      StatusIsOfRootCause(e.err);
    }
  }

  /** Wrapping at any depth, whatever else the wrappers carry, changes neither the status nor the API error found. */
  lemma {:induction false} WrappingKeepsStatus(outer: Error, inner: Error)
    requires InChain(outer, inner)
    ensures StatusFromError(Some(outer)) == StatusFromError(Some(inner))
    ensures AsApiError(outer) == AsApiError(inner)
    ensures RootCause(outer) == RootCause(inner)
  {
    if outer != inner {
      WrappingKeepsStatus(outer.err, inner);
    }
  }
}
