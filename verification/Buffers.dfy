/**
 The two-call buffer protocol of SignHash and ExportKey (cmd/ksp/bridge_windows.c, bridge_windows.go): a first
 call without a buffer announces a size, a second one fills a buffer of that size.
 */
module Buffers {
  import opened Wrappers
  import opened Bytes
  import opened Errors
  import opened PublicKeys
  import opened Ecdsa
  import opened Handles

  const STATUS_BUFFER_TOO_SMALL := 0x80090028
  const STATUS_NOT_SUPPORTED := 0x80090029

  datatype Padding = PaddingNone | PaddingPkcs1 | PaddingPss

  /** A sign request as the host passes it; the hash name sits in the padding info, if there is one. */
  datatype HashRequest = HashRequest(flags: nat, paddingHash: string, digest: seq<byte>)

  /**
   What the rest of the provider answers: the algorithm table, and the session's Sign for a signer,
   algorithm and digest.
   */
  datatype Backend = Backend(
    algorithm: (KeyType, Padding, string) -> Result<string, Error>,
    sign: (string, string, seq<byte>) -> Result<seq<byte>, Error>)

  type dword = x: int | 0 <= x < 0x1_0000_0000

  /**
   A call's status, the value written to *pcbResult, and the caller's buffer afterwards. Undefined stands
   for C's undefined behaviour: memcpy with a count that was negative.
   */
  datatype Effect =
    | Effect(status: int, length: Option<dword>, buffer: Option<seq<byte>>)
    | Undefined

  class Dword {
    var value: dword
  }

  // ---- copyOut -----------------------------------------------------------------------------------

  /** The data's length as a C int, turned into a DWORD: reduced modulo 2^32, and no count from 2^31 on. */
  function CopyOutEffect(data: seq<byte>, buffer: Option<seq<byte>>, cbOutput: dword): Effect
    requires buffer.Some? ==> cbOutput <= |buffer.value|
  {
    var len := |data| % ULONG;
    match buffer
    case None => Effect(STATUS_SUCCESS, Some(len), None)
    case Some(b) =>
      if cbOutput < len then Effect(STATUS_BUFFER_TOO_SMALL, Some(len), buffer)
      else if len >= 0x8000_0000 then Undefined
      else Effect(STATUS_SUCCESS, Some(len), Some(data[..len] + b[len..]))
  }

  function Contents(pbOutput: array?<byte>): Option<seq<byte>>
    reads pbOutput
  {
    if pbOutput == null then None else Some(pbOutput[..])
  }

  /** The caller's memory after a call shows the effect, where C defines one. */
  twostate predicate Shows(effect: Effect, status: int, pbOutput: array?<byte>, pcbResult: Dword?)
    reads pbOutput, pcbResult
  {
    effect.Effect? ==>
      && status == effect.status
      && Contents(pbOutput) == effect.buffer
      && (pcbResult != null ==>
            pcbResult.value == if effect.length.Some? then effect.length.value else old(pcbResult.value))
  }

  method CopyOut(data: seq<byte>, pbOutput: array?<byte>, cbOutput: dword, pcbResult: Dword?) returns (status: int)
    requires pbOutput != null ==> cbOutput <= pbOutput.Length
    modifies pbOutput, pcbResult
    ensures Shows(CopyOutEffect(data, old(Contents(pbOutput)), cbOutput), status, pbOutput, pcbResult)
  {
    var len := |data| % ULONG;
    if pcbResult != null {
      pcbResult.value := len;
    }
    if pbOutput == null {
      return STATUS_SUCCESS;
    }
    if cbOutput < len {
      return STATUS_BUFFER_TOO_SMALL;
    }
    CopyInto(pbOutput, 0, data[..len]);
    assert pbOutput[..] == data[..len] + old(pbOutput[..])[len..];
    return STATUS_SUCCESS;
  }

  /**
   The length is announced modulo 2^32. A shorter buffer is left as it is; one of the announced length is
   filled with all of the data, and nothing else of it changes, exactly when the data is shorter than
   2^31 octets.
   */
  lemma CopyOutCompleteIff(data: seq<byte>, buffer: seq<byte>, cbOutput: dword)
    requires cbOutput <= |buffer|
    ensures var announced := |data| % 0x1_0000_0000;
            && CopyOutEffect(data, None, 0) == Effect(0, Some(announced), None)
            && (cbOutput < announced <==>
                CopyOutEffect(data, Some(buffer), cbOutput) == Effect(0x80090028, Some(announced), Some(buffer)))
            && (announced <= cbOutput ==>
                  (|data| < 0x8000_0000 <==>
                   (|data| <= cbOutput &&
                    CopyOutEffect(data, Some(buffer), cbOutput) ==
                    Effect(0, Some(|data|), Some(data + buffer[|data|..])))))
  {
    assert data[..|data|] == data;
  }

  // ---- Sizes and signatures of a key -------------------------------------------------------------

  function KeyLengthBits(ks: KeyState): int {
    match ks.pub
    case RsaKey(_, n) => BitLen(Magnitude(n))
    case EcdsaKey(bits, _, _) => bits
    case OtherKey => 0
  }

  function SignatureMaxSize(ks: KeyState): int {
    var size := CoordinateSize(KeyLengthBits(ks));
    if ks.keyType == KeyEcdsa then size * 2 else size
  }

  function ErrorOf(e: SigError): Error {
    match e
    case Malformed => Plain("parse DER ECDSA signature")
    case TrailingBytes => Plain("trailing bytes after DER ECDSA signature")
    case NonPositive => Plain("ECDSA signature has non-positive r or s")
    case TooLarge => Plain("ECDSA r/s larger than curve size")
  }

  /** signHash: the remote signature, reshaped for an ECDSA key. */
  function SignatureOf(backend: Backend, ks: KeyState, padding: Padding, hashName: string, digest: seq<byte>):
    Result<seq<byte>, Error>
  {
    match backend.algorithm(ks.keyType, padding, hashName)
    case Failure(err) => Failure(err)
    case Success(algorithm) =>
      match backend.sign(ks.signer.id, algorithm, digest)
      case Failure(err) => Failure(err)
      case Success(sig) =>
        if ks.keyType != KeyEcdsa then Success(sig)
        else
          match RawForm(sig, ks.curveBits)
          case Failure(e) => Failure(ErrorOf(e))
          case Success(raw) => Success(raw)
  }

  function HashFromDigestLen(n: nat): Option<string> {
    if n == 32 then Some("SHA256") else if n == 48 then Some("SHA384") else if n == 64 then Some("SHA512") else None
  }

  /** The padding and hash name of a request; None is an ECDSA digest of unexpected length. */
  function PaddingAndHash(req: HashRequest): Option<(Padding, string)> {
    if req.flags / 2 % 2 == 1 then Some((PaddingPkcs1, req.paddingHash))
    else if req.flags / 8 % 2 == 1 then Some((PaddingPss, req.paddingHash))
    else
      match HashFromDigestLen(|req.digest|)
      case None => None
      case Some(name) => Some((PaddingNone, name))
  }

  /** The signature a sign call produces, or the status it fails with. */
  function SignAnswer(backend: Backend, key: Result<KeyState, Error>, req: HashRequest): Result<seq<byte>, int> {
    if key.Failure? || PaddingAndHash(req) == None then Failure(STATUS_INVALID_PARAMETER)
    else
      var (padding, hashName) := PaddingAndHash(req).value;
      match SignatureOf(backend, key.value, padding, hashName, req.digest)
      case Failure(err) => Failure(StatusFromError(Some(err)))
      case Success(sig) => Success(sig)
  }

  /** The public blob of a key, or the status its export fails with. */
  function ExportAnswer(key: Result<KeyState, Error>): Result<seq<byte>, int> {
    match key
    case Failure(_) => Failure(STATUS_INVALID_PARAMETER)
    case Success(ks) =>
      match ks.pub
      case RsaKey(e, n) => Success(RsaBlob(e, n))
      case EcdsaKey(bits, x, y) =>
        (match EccBlob(bits, x, y)
         case Some(blob) => Success(blob)
         case None => Failure(StatusFromError(Some(Plain("unsupported EC curve")))))
      case OtherKey => Failure(StatusFromError(Some(Plain("unsupported key type"))))
  }

  /** A status other than success leaves the caller's memory alone. */
  function Refused(status: int, buffer: Option<seq<byte>>): Effect {
    Effect(status, None, buffer)
  }

  function SignHashEffect(
    backend: Backend, key: Result<KeyState, Error>, req: HashRequest, buffer: Option<seq<byte>>, cb: dword): Effect
    requires buffer.Some? ==> cb <= |buffer.value|
  {
    if buffer == None then
      if key.Failure? then Refused(STATUS_INVALID_PARAMETER, buffer)
      else Effect(STATUS_SUCCESS, Some(SignatureMaxSize(key.value) % ULONG), buffer)
    else
      match SignAnswer(backend, key, req)
      case Failure(status) => Refused(status, buffer)
      case Success(sig) => CopyOutEffect(sig, buffer, cb)
  }

  function ExportKeyEffect(
    key: Result<KeyState, Error>, supportedBlob: bool, buffer: Option<seq<byte>>, cb: dword): Effect
    requires buffer.Some? ==> cb <= |buffer.value|
  {
    if !supportedBlob then Refused(STATUS_NOT_SUPPORTED, buffer)
    else
      match ExportAnswer(key)
      case Failure(status) => Refused(status, buffer)
      case Success(blob) => CopyOutEffect(blob, buffer, cb)
  }

  // ---- The entry points --------------------------------------------------------------------------

  /** GoSignatureMaxSize, once the key is found. */
  method SignatureSize(ks: KeyState) returns (size: int)
    ensures size == SignatureMaxSize(ks)
  {
    var bits := KeyLengthBits(ks);
    size := CoordinateSize(bits);
    if ks.keyType == KeyEcdsa {
      size := size * 2;
    }
  }

  /** GoSignHash. */
  method SignDigest(backend: Backend, key: Result<KeyState, Error>, req: HashRequest)
    returns (answer: Result<seq<byte>, int>)
    ensures answer == SignAnswer(backend, key, req)
  {
    if key.Failure? {
      return Failure(STATUS_INVALID_PARAMETER);
    }
    var padding: Padding;
    var hashName: string;
    if req.flags / 2 % 2 == 1 {
      padding := PaddingPkcs1;
      hashName := req.paddingHash;
    } else if req.flags / 8 % 2 == 1 {
      padding := PaddingPss;
      hashName := req.paddingHash;
    } else {
      padding := PaddingNone;
      var h := HashFromDigestLen(|req.digest|);
      if h == None {
        return Failure(STATUS_INVALID_PARAMETER);
      }
      hashName := h.value;
    }
    var sig := SignatureOf(backend, key.value, padding, hashName, req.digest);
    answer := if sig.Failure? then Failure(StatusFromError(Some(sig.error))) else Success(sig.value);
  }

  /** ksp_SignHash: without a buffer it answers from the key alone. */
  method SignHash(
    table: HandleTable, hKey: nat, backend: Backend, req: HashRequest,
    pbSignature: array?<byte>, cbSignature: dword, pcbResult: Dword?)
    returns (status: int)
    requires pbSignature != null ==> cbSignature <= pbSignature.Length
    modifies pbSignature, pcbResult
    ensures Shows(
              SignHashEffect(
                backend, old(KeyByHandle(table.Value(), hKey)), req, old(Contents(pbSignature)), cbSignature),
              status, pbSignature, pcbResult)
  {
    var found := table.LookupHandle(hKey);
    var key := if found.Some? && found.value.Key? then Success(found.value.state) else Failure(BadHandle);
    if pbSignature == null {
      if key.Failure? {
        return STATUS_INVALID_PARAMETER;
      }
      var size := SignatureSize(key.value);
      if pcbResult != null {
        pcbResult.value := size % ULONG;
      }
      return STATUS_SUCCESS;
    }
    var answer := SignDigest(backend, key, req);
    if answer.Failure? {
      return answer.error;
    }
    status := CopyOut(answer.value, pbSignature, cbSignature, pcbResult);
  }

  /** ksp_ExportKey: sizing and filling call build the same blob. */
  method ExportKey(
    table: HandleTable, hKey: nat, supportedBlob: bool, pbOutput: array?<byte>, cbOutput: dword, pcbResult: Dword?)
    returns (status: int)
    requires pbOutput != null ==> cbOutput <= pbOutput.Length
    modifies pbOutput, pcbResult
    ensures Shows(
              ExportKeyEffect(old(KeyByHandle(table.Value(), hKey)), supportedBlob, old(Contents(pbOutput)), cbOutput),
              status, pbOutput, pcbResult)
  {
    if !supportedBlob {
      return STATUS_NOT_SUPPORTED;
    }
    var found := table.LookupHandle(hKey);
    var key := if found.Some? && found.value.Key? then Success(found.value.state) else Failure(BadHandle);
    var answer := ExportAnswer(key);
    if answer.Failure? {
      return answer.error;
    }
    status := CopyOut(answer.value, pbOutput, cbOutput, pcbResult);
  }

  // ---- What is announced is what is produced -----------------------------------------------------

  /** The server's RSA signatures are as long as the modulus. */
  predicate ModulusLong(ks: KeyState, sig: seq<byte>) {
    ks.pub.RsaKey? ==> |sig| == |Minimal(Magnitude(ks.pub.n))|
  }

  /** Every ECDSA signature has exactly the announced size, and so has an RSA signature of modulus length. */
  lemma SignatureHasAnnouncedSize(backend: Backend, ks: KeyState, padding: Padding, hashName: string, digest: seq<byte>)
    requires KeyConsistent(ks) && SignatureOf(backend, ks, padding, hashName, digest).Success?
    requires ModulusLong(ks, SignatureOf(backend, ks, padding, hashName, digest).value)
    ensures |SignatureOf(backend, ks, padding, hashName, digest).value| == SignatureMaxSize(ks)
  {
    if ks.pub.RsaKey? {
      MinimalLength(Magnitude(ks.pub.n));
    }
  }

  lemma {:induction false} StatusIsNotTooSmall(e: Error)
    ensures StatusFromError(Some(e)) != STATUS_BUFFER_TOO_SMALL && StatusFromError(Some(e)) != STATUS_SUCCESS
  {
  }

  /**
   SignHash on any key reached by a handle: a buffer of the announced size is never too small; when the
   call succeeds, exactly that many octets are the signature and the rest is as before.
   */
  lemma SizedSignCallSucceeds(
    word: nat, events: seq<Event>, hKey: nat, backend: Backend, req: HashRequest, buffer: seq<byte>, cb: dword)
    requires word > 0 && KeyByHandle(After(word, events), hKey).Success?
    requires cb <= |buffer|
    requires var ks := KeyByHandle(After(word, events), hKey).value;
             && 0 <= SignatureMaxSize(ks) < 0x8000_0000
             && (SignAnswer(backend, Success(ks), req).Success? ==>
                   ModulusLong(ks, SignAnswer(backend, Success(ks), req).value))
    requires cb >= SignHashEffect(backend, KeyByHandle(After(word, events), hKey), req, None, 0).length.value
    ensures var key := KeyByHandle(After(word, events), hKey);
            var size := SignHashEffect(backend, key, req, None, 0).length.value;
            var effect := SignHashEffect(backend, key, req, Some(buffer), cb);
            && effect.Effect? && effect.status != STATUS_BUFFER_TOO_SMALL
            && (effect.status == STATUS_SUCCESS <==> SignAnswer(backend, key, req).Success?)
            && (effect.status == STATUS_SUCCESS ==>
                  && effect.length == Some(size)
                  && effect.buffer == Some(SignAnswer(backend, key, req).value + buffer[size..])
                  && |SignAnswer(backend, key, req).value| == size)
            && (effect.status != STATUS_SUCCESS ==> effect.length == None && effect.buffer == Some(buffer))
  {
    hide SignatureOf, StatusFromError, After, ModulusLong;
    var key := KeyByHandle(After(word, events), hKey);
    LiveKeysConsistent(word, events, hKey);
    if PaddingAndHash(req).Some? {
      var (padding, hashName) := PaddingAndHash(req).value;
      var answer := SignatureOf(backend, key.value, padding, hashName, req.digest);
      if answer.Success? {
        SignatureHasAnnouncedSize(backend, key.value, padding, hashName, req.digest);
        CopyOutCompleteIff(answer.value, buffer, cb);
      } else {
        StatusIsNotTooSmall(answer.error);
      }
    }
  }

  /**
   ExportKey on any key reached by a handle: if the sizing call succeeds, a buffer of the announced size
   is filled with the whole blob exactly when the blob is shorter than 2^31 octets, and CNG reads the
   blob back as the key exactly when the key's numbers are in range.
   */
  lemma SizedExportReadsBack(word: nat, events: seq<Event>, hKey: nat, buffer: seq<byte>, cb: dword)
    requires word > 0 && KeyByHandle(After(word, events), hKey).Success? && cb <= |buffer|
    requires ExportKeyEffect(KeyByHandle(After(word, events), hKey), true, None, 0).status == STATUS_SUCCESS
    requires ExportKeyEffect(KeyByHandle(After(word, events), hKey), true, None, 0).length.value <= cb
    ensures var key := KeyByHandle(After(word, events), hKey);
            && ExportAnswer(key).Success?
            && var blob := ExportAnswer(key).value;
            && (|blob| < 0x8000_0000 <==>
                (|blob| <= cb &&
                 ExportKeyEffect(key, true, Some(buffer), cb) ==
                 Effect(STATUS_SUCCESS, Some(|blob|), Some(blob + buffer[|blob|..]))))
            && match key.value.pub
               case EcdsaKey(bits, x, y) =>
                 ReadEccBlob(blob) == Some(key.value.pub) <==>
                 0 <= x < Pow256((bits + 7) / 8) && 0 <= y < Pow256((bits + 7) / 8)
               case RsaKey(e, n) =>
                 var bits := BitLen(Magnitude(n));
                 IsExponent(e) ==>
                   (ReadRsaBlob(blob) == Some(RsaFields(bits, e, n, (bits + 7) / 8)) <==>
                    e >= 0 && n >= 0 && bits < ULONG)
               case OtherKey => false
  {
    hide EccBlob, RsaBlob, ReadEccBlob, ReadRsaBlob, StatusFromError, After, Pow256, BitLen, CopyOutEffect;
    var key := KeyByHandle(After(word, events), hKey);
    LiveKeysConsistent(word, events, hKey);
    StatusIsNotTooSmall(Plain("unsupported EC curve"));
    StatusIsNotTooSmall(Plain("unsupported key type"));
    CopyOutCompleteIff(ExportAnswer(key).value, buffer, cb);
    match key.value.pub
    case EcdsaKey(bits, x, y) => EccBlobReadsBack(bits, x, y);
    case RsaKey(e, n) =>
      if IsExponent(e) {
        RsaBlobReadsBack(e, n);
      }
    case OtherKey =>
  }
}
