/** What a session exchanges with the server and with its callers (internal/infisical/client.go, signing_context.go). */
module SessionTypes {
  import opened Wrappers
  import opened Bytes
  import opened Errors
  import opened PublicKeys
  import Config

  /** Points in time and durations are in nanoseconds. */
  type Time = int

  const TOKEN_SAFETY_MARGIN := 30 * Config.SECOND
  const AUTH_FAILURE_CACHE_TTL := 10 * Config.SECOND
  const CLIENT_TIMEOUT := 30 * Config.SECOND

  datatype Signer = Signer(id: string, name: string, status: string, certificateId: string, keyAlgorithm: string)

  datatype SigningContext = SigningContext(
    command: seq<byte>, application: string, applicationHash: string, hostname: string, osUsername: string)

  datatype ClientMetadata = ClientMetadata(
    tool: string, signingApplicationHash: string, hostname: string, osUsername: string, command: seq<byte>)

  datatype SigningScope = SigningScope(
    command: seq<byte>, signingApplication: string, signingApplicationHash: string,
    hostname: string, osUsername: string, dataHash: string)

  function MetadataOf(c: SigningContext): ClientMetadata {
    ClientMetadata(c.application, c.applicationHash, c.hostname, c.osUsername, c.command)
  }

  function ScopeOf(c: SigningContext, dataHash: string): SigningScope {
    SigningScope(c.command, c.application, c.applicationHash, c.hostname, c.osUsername, dataHash)
  }

  datatype SignParams = SignParams(dataB64: string, signingAlgorithm: string, isDigest: bool, metadata: ClientMetadata)

  /** The optional fields are 0 or "" when the request leaves them out. */
  datatype ApprovalParams = ApprovalParams(
    justification: string, requestedSignings: int, windowStart: string, windowEnd: string, scope: SigningScope)

  /** Requests as they go out, in order. */
  datatype Request =
    | SignRequest(token: string, signerId: string, params: SignParams)
    | ApprovalRequest(token: string, signerId: string, approval: ApprovalParams)

  datatype IssuedToken = IssuedToken(token: string, ttl: int)
  datatype OpenedRequest = OpenedRequest(id: string, status: string)

  // ---- What the world answers --------------------------------------------------------------------

  /** Clock readings and the login's answer, for one token request. Readings not taken are ignored. */
  datatype TokenEnv = TokenEnv(checkedAt: Time, failureCheckedAt: Time, login: Result<IssuedToken, Error>, doneAt: Time)

  /** The list is None for Go's nil slice, which a response without a signer list leaves behind. */
  datatype SignersEnv = SignersEnv(
    checkedAt: Time, token: TokenEnv, reply: Result<Option<seq<Signer>>, Error>, storedAt: Time)

  datatype SignEnv = SignEnv(
    token: TokenEnv, reply: Result<string, Error>, now: Time, approval: Result<OpenedRequest, Error>)

  /** Library functions used while signing; the digest is rendered as hexadecimal SHA-256. */
  datatype Library = Library(
    parsers: Config.Parsers,
    hexSha256: seq<byte> -> string,
    base64: seq<byte> -> string,
    unbase64: string -> Result<seq<byte>, Error>,
    rfc3339: int -> string)
}
