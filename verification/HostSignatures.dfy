/**
 What the host finds in its memory after SignHash and ExportKey (cmd/ksp/bridge_windows.go, bridge_windows.c),
 told from the arguments it passed and from what the algorithm table and the server answered.
 */
module HostSignatures {
  import opened Wrappers
  import opened Bytes
  import opened Errors
  import opened PublicKeys
  import opened Der
  import opened Ecdsa
  import opened Handles
  import opened Buffers

  /**
   The flag of value 2 asks for PKCS #1 padding, else that of value 8 for PSS, both with the hash the
   padding info names; with neither, the digest's length names the hash.
   */
  predicate Asks(req: HashRequest, padding: Padding, hashName: string) {
    if req.flags % 4 >= 2 then padding == PaddingPkcs1 && hashName == req.paddingHash
    else if req.flags % 16 >= 8 then padding == PaddingPss && hashName == req.paddingHash
    else padding == PaddingNone && (|req.digest|, hashName) in {(32, "SHA256"), (48, "SHA384"), (64, "SHA512")}
  }

  /** The server signs the request's digest for the key's signer, with the algorithm the request asks for. */
  predicate Signs(
    backend: Backend, ks: KeyState, req: HashRequest, padding: Padding, hashName: string,
    answer: Result<seq<byte>, Error>)
  {
    && Asks(req, padding, hashName)
    && match backend.algorithm(ks.keyType, padding, hashName)
       case Failure(err) => answer == Failure(err)
       case Success(algorithm) => answer == backend.sign(ks.signer.id, algorithm, req.digest)
  }

  lemma AsksIff(req: HashRequest, padding: Padding, hashName: string)
    ensures Asks(req, padding, hashName) <==> PaddingAndHash(req) == Some((padding, hashName))
  {
    FlagBits(req.flags);
  }

  lemma FlagBits(flags: nat)
    ensures flags / 2 % 2 == 1 <==> flags % 4 >= 2
    ensures flags / 8 % 2 == 1 <==> flags % 16 >= 8
  {
    SecondBit(flags / 4, flags % 4);
    FourthBit(flags / 16, flags % 16);
  }

  lemma SecondBit(q: nat, r: nat)
    requires r < 4
    ensures (4 * q + r) / 2 % 2 == 1 <==> r >= 2
  {
    assert (4 * q + r) / 2 == 2 * q + r / 2;
  }

  lemma FourthBit(q: nat, r: nat)
    requires r < 16
    ensures (16 * q + r) / 8 % 2 == 1 <==> r >= 8
  {
    assert (16 * q + r) / 8 == 2 * q + r / 8;
  }

  /**
   An RSA key's signature goes to the host as the server returned it: whole when the buffer holds it, else
   not at all, and with its length in either case.
   */
  lemma RsaSignatureDelivered(
    backend: Backend, ks: KeyState, req: HashRequest, padding: Padding, hashName: string, sig: seq<byte>,
    buffer: seq<byte>, cb: dword)
    requires cb <= |buffer| && ks.keyType == KeyRsa && Signs(backend, ks, req, padding, hashName, Success(sig))
    requires |sig| < 0x8000_0000
    ensures SignHashEffect(backend, Success(ks), req, Some(buffer), cb) ==
            if |sig| <= cb then Effect(0, Some(|sig|), Some(sig + buffer[|sig|..]))
            else Effect(0x80090028, Some(|sig|), Some(buffer))
  {
    AsksIff(req, padding, hashName);
    assert sig[..|sig|] == sig;
  }

  /**
   If the octets are one DER signature of two positive numbers that fit `size` octets: success, with r and
   then s in the buffer, each that wide, and the rest as before. Otherwise NTE_FAIL and nothing written.
   */
  predicate CarriesNumbers(effect: Effect, der: seq<byte>, buffer: seq<byte>, size: nat)
    requires 2 * size <= |buffer|
  {
    var read := ReadSignature(der);
    if read.Some? && read.value.rest == []
       && 0 < read.value.value.r < Pow256(size) && 0 < read.value.value.s < Pow256(size)
    then
      && effect.Effect? && effect.status == 0 && effect.length == Some(2 * size) && effect.buffer.Some?
      && var filled := effect.buffer.value;
      && |filled| == |buffer| && filled[2 * size..] == buffer[2 * size..]
      && Os2ip(filled[..size]) == read.value.value.r && Os2ip(filled[size..2 * size]) == read.value.value.s
    else effect == Effect(0x80090020, None, Some(buffer))
  }

  /** An ECDSA key's signature goes to the host as r and s, each as wide as the curve's coordinates. */
  lemma EcdsaSignatureDelivered(
    backend: Backend, ks: KeyState, req: HashRequest, padding: Padding, hashName: string, der: seq<byte>,
    buffer: seq<byte>, cb: dword, size: nat)
    requires ks.keyType == KeyEcdsa && Signs(backend, ks, req, padding, hashName, Success(der))
    requires (ks.curveBits, size) in {(256, 32), (384, 48), (521, 66)} && 2 * size <= cb <= |buffer|
    ensures CarriesNumbers(SignHashEffect(backend, Success(ks), req, Some(buffer), cb), der, buffer, size)
  {
    hide SignHashEffect, RawForm, ReadSignature, Pow256, Os2ip, Signs, StatusFromError;
    EcdsaCall(backend, ks, req, padding, hashName, der, buffer, cb);
    RawFormHalves(der, ks.curveBits, size);
    if RawForm(der, ks.curveBits).Success? {
      HalvesWritten(RawForm(der, ks.curveBits).value, buffer, size);
    }
  }

  lemma RawFormHalves(der: seq<byte>, curveBits: int, size: nat)
    requires (curveBits, size) in {(256, 32), (384, 48), (521, 66)}
    ensures var read, result := ReadSignature(der), RawForm(der, curveBits);
            && (result.Success? <==>
                && read.Some? && read.value.rest == []
                && 0 < read.value.value.r < Pow256(size) && 0 < read.value.value.s < Pow256(size))
            && (result.Success? ==> IsRawForm(result.value, size, read.value.value))
  {
    hide ReadSignature, Pow256, Os2ip;
    assert CoordinateSize(curveBits) == size;
    if RawForm(der, curveBits).Success? {
      RawHalves(ReadSignature(der).value.value, size);
    }
  }

  lemma EcdsaCall(
    backend: Backend, ks: KeyState, req: HashRequest, padding: Padding, hashName: string, der: seq<byte>,
    buffer: seq<byte>, cb: dword)
    requires cb <= |buffer| && ks.keyType == KeyEcdsa && Signs(backend, ks, req, padding, hashName, Success(der))
    ensures SignHashEffect(backend, Success(ks), req, Some(buffer), cb) ==
            match RawForm(der, ks.curveBits)
            case Failure(_) => Effect(0x80090020, None, Some(buffer))
            case Success(raw) => CopyOutEffect(raw, Some(buffer), cb)
  {
    hide RawForm, StatusFromError, CopyOutEffect, Asks, PaddingAndHash;
    AsksIff(req, padding, hashName);
    PlainStatus();
  }

  lemma PlainStatus()
    ensures forall text :: StatusFromError(Some(Plain(text))) == 0x80090020
  {
  }

  lemma HalvesWritten(raw: seq<byte>, buffer: seq<byte>, size: nat)
    requires |raw| == 2 * size <= |buffer|
    ensures var filled := raw[..2 * size] + buffer[2 * size..];
            && filled[..size] == raw[..size] && filled[size..2 * size] == raw[size..]
            && filled[2 * size..] == buffer[2 * size..]
  {
  }

  /**
   What fails leaves the memory alone: a handle that is no key, a digest without padding of a length
   that names no hash, and an algorithm or a server that answers with an error, which decides the status.
   */
  lemma FailedSignHash(
    backend: Backend, ks: KeyState, req: HashRequest, padding: Padding, hashName: string, err: Error,
    buffer: seq<byte>, cb: dword)
    requires cb <= |buffer|
    ensures SignHashEffect(backend, Failure(err), req, Some(buffer), cb) == Effect(0x80090027, None, Some(buffer))
    ensures SignHashEffect(backend, Failure(err), req, None, 0) == Effect(0x80090027, None, None)
    ensures req.flags % 4 < 2 && req.flags % 16 < 8 && |req.digest| !in {32, 48, 64} ==>
              SignHashEffect(backend, Success(ks), req, Some(buffer), cb) == Effect(0x80090027, None, Some(buffer))
    ensures Signs(backend, ks, req, padding, hashName, Failure(err)) ==>
              SignHashEffect(backend, Success(ks), req, Some(buffer), cb) ==
              Effect(StatusFromError(Some(err)), None, Some(buffer))
  {
    hide StatusFromError;
    AsksIff(req, padding, hashName);
    FlagBits(req.flags);
  }

  /**
   The sizing call asks the server nothing: an RSA key's signature is announced as long as its modulus, an
   ECDSA key's as two coordinates.
   */
  lemma AnnouncedSize(backend: Backend, ks: KeyState, req: HashRequest)
    requires KeyConsistent(ks)
    ensures var effect := SignHashEffect(backend, Success(ks), req, None, 0);
            && effect.Effect? && effect.status == 0 && effect.buffer == None && effect.length.Some?
            && match ks.pub
               case RsaKey(_, n) => effect.length.value == |Minimal(Magnitude(n))| % 0x1_0000_0000
               case EcdsaKey(bits, _, _) =>
                 (bits in {256, 384, 521} ==> (bits, effect.length.value) in {(256, 64), (384, 96), (521, 132)})
               case OtherKey => false
  {
    hide BitLen, Minimal;
    if ks.pub.RsaKey? {
      MinimalLength(Magnitude(ks.pub.n));
    }
  }

  /** An export is refused for another blob type before the handle is looked at, and for a handle that is no key. */
  lemma RefusedExport(key: Result<KeyState, Error>, buffer: Option<seq<byte>>, cb: dword)
    requires buffer.Some? ==> cb <= |buffer.value|
    ensures ExportKeyEffect(key, false, buffer, cb) == Effect(0x80090029, None, buffer)
    ensures key.Failure? ==> ExportKeyEffect(key, true, buffer, cb) == Effect(0x80090027, None, buffer)
  {
  }
}
