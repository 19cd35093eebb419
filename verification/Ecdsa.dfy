/** From a DER signature to the fixed-width r||s that CNG expects (internal/cng/ecdsa.go). */
module Ecdsa {
  import opened Wrappers
  import opened Bytes
  import opened Der

  datatype SigError = Malformed | TrailingBytes | NonPositive | TooLarge

  /** (curveBits + 7) / 8 with Go's division, which truncates toward zero. */
  function CoordinateSize(curveBits: int): int {
    if curveBits + 7 >= 0 then (curveBits + 7) / 8 else -(-(curveBits + 7) / 8)
  }

  predicate FitsIn(n: int, size: int) {
    size >= 0 && n < Pow256(size)
  }

  function RawForm(der: seq<byte>, curveBits: int): Result<seq<byte>, SigError> {
    var size := CoordinateSize(curveBits);
    match ReadSignature(der)
    case None => Failure(Malformed)
    case Some(Parsed(Signature(r, s), rest)) =>
      if rest != [] then Failure(TrailingBytes)
      else if r <= 0 || s <= 0 then Failure(NonPositive)
      else if !FitsIn(r, size) || !FitsIn(s, size) then Failure(TooLarge)
      else Success(I2osp(r, size) + I2osp(s, size))
  }

  method ECDSADERToRaw(der: seq<byte>, curveBits: int) returns (result: Result<seq<byte>, SigError>)
    ensures result == RawForm(der, curveBits)
  {
    hide ReadSignature, Pow256, I2osp, Minimal;
    var parsed := ReadSignature(der);
    if parsed.None? {
      return Failure(Malformed);
    }
    var Parsed(sig, rest) := parsed.value;
    if |rest| != 0 {
      return Failure(TrailingBytes);
    }
    if sig.r <= 0 || sig.s <= 0 {
      return Failure(NonPositive);
    }
    var size := CoordinateSize(curveBits);
    var r := Minimal(Magnitude(sig.r));
    var s := Minimal(Magnitude(sig.s));
    if size >= 0 {
      MinimalFits(sig.r, size);
      MinimalFits(sig.s, size);
    }
    if |r| > size || |s| > size {
      return Failure(TooLarge);
    }
    PaddedMinimal(sig.r, size);
    PaddedMinimal(sig.s, size);

    var out := PadHalves(r, s, size);
    result := Success(out);
  }

  /** The two halves of the output buffer, each filled at its right end. */
  method PadHalves(r: seq<byte>, s: seq<byte>, size: nat) returns (out: seq<byte>)
    requires |r| <= size && |s| <= size
    ensures out == (Zeros(size - |r|) + r) + (Zeros(size - |s|) + s)
  {
    var buffer := new byte[2 * size](_ => 0);
    CopyInto(buffer, size - |r|, r);
    CopyInto(buffer, 2 * size - |s|, s);
    out := buffer[..];
  }

  // ---- What the raw form says --------------------------------------------------------------------

  /** The raw form of r and s: both halves are `size` octets wide and read back big-endian. */
  predicate IsRawForm(raw: seq<byte>, size: int, sig: Signature) {
    && size >= 0
    && |raw| == 2 * size
    && sig.r > 0 && Os2ip(raw[..size]) == sig.r
    && sig.s > 0 && Os2ip(raw[size..]) == sig.s
  }

  lemma RawHalves(sig: Signature, size: nat)
    requires 0 < sig.r < Pow256(size) && 0 < sig.s < Pow256(size)
    ensures IsRawForm(I2osp(sig.r, size) + I2osp(sig.s, size), size, sig)
  {
  }

  lemma RawFormIsUnique(raw: seq<byte>, sig: Signature, size: int)
    requires IsRawForm(raw, size, sig)
    ensures sig.r < Pow256(size) && sig.s < Pow256(size)
    ensures raw == I2osp(sig.r, size) + I2osp(sig.s, size)
  {
    Os2ipBound(raw[..size]);
    Os2ipBound(raw[size..]);
    Os2ipInjective(raw[..size], I2osp(sig.r, size));
    Os2ipInjective(raw[size..], I2osp(sig.s, size));
    assert raw == raw[..size] + raw[size..];
  }

  /**
   Every outcome for every encoded signature: trailing bytes, a non-positive or a too wide number
   is refused, in that order; anything else comes back as its raw form.
   */
  lemma RawOfEncoding(sig: Signature, extra: seq<byte>, trailing: seq<byte>, curveBits: int)
    requires Encodable(sig, extra)
    ensures
      var size := CoordinateSize(curveBits);
      match RawForm(SignatureDer(sig, extra) + trailing, curveBits)
      case Success(raw) => trailing == [] && IsRawForm(raw, size, sig)
      case Failure(TrailingBytes) => trailing != []
      case Failure(NonPositive) => trailing == [] && (sig.r <= 0 || sig.s <= 0)
      case Failure(TooLarge) =>
        trailing == [] && sig.r > 0 && sig.s > 0 && (!FitsIn(sig.r, size) || !FitsIn(sig.s, size))
      case Failure(Malformed) => false
  {
    SignatureExact(SignatureDer(sig, extra) + trailing, sig, trailing);
    if RawForm(SignatureDer(sig, extra) + trailing, curveBits).Success? {
      RawHalves(sig, CoordinateSize(curveBits));
    }
    hide SignatureDer, ReadSignature, IsRawForm;
  }

  /** The conversion succeeds with `raw` exactly when the input is a DER signature that `raw` is the form of. */
  lemma RawFormExact(der: seq<byte>, curveBits: int, raw: seq<byte>)
    ensures RawForm(der, curveBits) == Success(raw) <==>
            exists sig, extra :: Encodable(sig, extra) && der == SignatureDer(sig, extra) &&
                                 IsRawForm(raw, CoordinateSize(curveBits), sig)
  {
    hide SignatureDer, ReadSignature, IsRawForm, Encodable;
    var size := CoordinateSize(curveBits);
    if RawForm(der, curveBits) == Success(raw) {
      var sig := ReadSignature(der).value.value;
      SignatureExact(der, sig, []);
      RawHalves(sig, size);
      var extra :| Encodable(sig, extra) && der == SignatureDer(sig, extra) + [];
      assert SignatureDer(sig, extra) + [] == SignatureDer(sig, extra);
    }
    if sig, extra :| Encodable(sig, extra) && der == SignatureDer(sig, extra) && IsRawForm(raw, size, sig) {
      assert SignatureDer(sig, extra) + [] == SignatureDer(sig, extra);
      SignatureExact(der, sig, []);
      RawFormIsUnique(raw, sig, size);
      RawFormDef(raw, size, sig);
    }
  }

  lemma RawFormDef(raw: seq<byte>, size: int, sig: Signature)
    requires IsRawForm(raw, size, sig)
    ensures size >= 0 && sig.r > 0 && sig.s > 0
  {
  }

  /** For one curve, equal raw forms come from equal r and s. */
  lemma RawDeterminesSignature(der1: seq<byte>, der2: seq<byte>, curveBits: int)
    requires RawForm(der1, curveBits).Success? && RawForm(der1, curveBits) == RawForm(der2, curveBits)
    ensures ReadSignature(der1).value.value == ReadSignature(der2).value.value
  {
    var size := CoordinateSize(curveBits);
    RawHalves(ReadSignature(der1).value.value, size);
    RawHalves(ReadSignature(der2).value.value, size);
    hide ReadSignature;
  }

  /** On the three curves every r and s of the coordinate size has an encoding, and it converts. */
  lemma CurveSignaturesConvert(sig: Signature, curveBits: int)
    requires curveBits in {256, 384, 521}
    requires 0 < sig.r < Pow256(CoordinateSize(curveBits)) && 0 < sig.s < Pow256(CoordinateSize(curveBits))
    ensures Encodable(sig, [])
    ensures RawForm(SignatureDer(sig), curveBits).Success?
    ensures IsRawForm(RawForm(SignatureDer(sig), curveBits).value, CoordinateSize(curveBits), sig)
  {
    hide ReadSignature, SignatureDer, IsRawForm, Encodable, Pow256;
    var size := CoordinateSize(curveBits);
    SmallSignatureEncodable(sig, size);
    RawOfEncoding(sig, [], [], curveBits);
    assert SignatureDer(sig) + [] == SignatureDer(sig);
  }
}
