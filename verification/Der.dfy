/**
 DER as Go's encoding/asn1 reads SEQUENCE { r INTEGER, s INTEGER }: definite lengths (X.690 section
 8.1.3, and 10.1), two's complement integers (8.3) and sequences (8.9). The encoder is the specification; the
 decoder is proved to accept exactly its image, with Go's tolerance for further elements in the sequence.
 */
module Der {
  import opened Wrappers
  import opened Bytes

  const INTEGER: byte := 0x02
  const SEQUENCE: byte := 0x30

  /** encoding/asn1 reads no longer lengths. */
  const MAX_LENGTH := 0x8000_0000

  datatype Parsed<+T> = Parsed(value: T, rest: seq<byte>)
  datatype Signature = Signature(r: int, s: int)

  // ---- The encoder -------------------------------------------------------------------------------

  /** The shortest two's complement octets of an integer. */
  function TwosComplement(n: int): (b: seq<byte>)
    ensures b != []
    decreases Magnitude(n)
  {
    if -128 <= n < 128 then [n % 256] else TwosComplement(n / 256) + [n % 256]
  }

  function LengthOctets(n: nat): seq<byte>
    requires n < MAX_LENGTH
  {
    MinimalFits(n, 4);
    if n < 0x80 then [n] else [0x80 + |Minimal(n)|] + Minimal(n)
  }

  function Tlv(tag: byte, content: seq<byte>): seq<byte>
    requires |content| < MAX_LENGTH
  {
    [tag] + LengthOctets(|content|) + content
  }

  predicate Encodable(sig: Signature, extra: seq<byte>) {
    && |TwosComplement(sig.r)| < MAX_LENGTH
    && |TwosComplement(sig.s)| < MAX_LENGTH
    && |Tlv(INTEGER, TwosComplement(sig.r)) + Tlv(INTEGER, TwosComplement(sig.s)) + extra| < MAX_LENGTH
  }

  /** A signature, with `extra` standing for whatever follows s inside the sequence. */
  function SignatureDer(sig: Signature, extra: seq<byte> := []): seq<byte>
    requires Encodable(sig, extra)
  {
    Tlv(SEQUENCE, Tlv(INTEGER, TwosComplement(sig.r)) + Tlv(INTEGER, TwosComplement(sig.s)) + extra)
  }

  // ---- The decoder -------------------------------------------------------------------------------

  function ReadTwosComplement(b: seq<byte>): int
    requires b != []
  {
    if |b| == 1 then (if b[0] < 128 then b[0] else b[0] - 256)
    else 256 * ReadTwosComplement(b[..|b| - 1]) + b[|b| - 1]
  }

  predicate MinimallyEncoded(b: seq<byte>) {
    && b != []
    && (|b| == 1 || !((b[0] == 0 && b[1] < 128) || (b[0] == 255 && b[1] >= 128)))
  }

  /** The octets of a long-form length: no leading zero, no shift that would pass 31 bits. */
  function ReadLength(digits: seq<byte>): Option<nat> {
    if digits == [] then Some(0)
    else
      match ReadLength(digits[..|digits| - 1])
      case None => None
      case Some(length) =>
        var next := length * 256 + digits[|digits| - 1];
        if length >= 0x80_0000 || next == 0 then None else Some(next)
  }

  function ReadTlv(tag: byte, b: seq<byte>): Option<Parsed<seq<byte>>> {
    if |b| < 2 || b[0] != tag || b[1] == 0x80 then None
    else
      var octets := if b[1] < 0x80 then 0 else b[1] as int - 0x80;
      if |b| < 2 + octets then None
      else
        match if b[1] < 0x80 then Some(b[1]) else ReadLength(b[2..2 + octets])
        case None => None
        case Some(length) =>
          var start := 2 + octets;
          if (octets > 0 && length < 0x80) || start + length > |b| then None
          else Some(Parsed(b[start..start + length], b[start + length..]))
  }

  function ReadInteger(b: seq<byte>): Option<Parsed<int>> {
    match ReadTlv(INTEGER, b)
    case None => None
    case Some(Parsed(content, rest)) =>
      if MinimallyEncoded(content) then Some(Parsed(ReadTwosComplement(content), rest)) else None
  }

  /** asn1.Unmarshal into a struct of two integers. */
  function ReadSignature(b: seq<byte>): Option<Parsed<Signature>> {
    match ReadTlv(SEQUENCE, b)
    case None => None
    case Some(Parsed(content, rest)) =>
      match ReadInteger(content)
      case None => None
      case Some(Parsed(r, afterR)) =>
        match ReadInteger(afterR)
        case None => None
        case Some(Parsed(s, _)) => Some(Parsed(Signature(r, s), rest))
  }

  // ---- Integers ----------------------------------------------------------------------------------

  lemma {:induction false} TwosComplementRoundTrip(n: int)
    ensures MinimallyEncoded(TwosComplement(n)) && ReadTwosComplement(TwosComplement(n)) == n
    decreases Magnitude(n)
  {
    if !(-128 <= n < 128) {
      TwosComplementRoundTrip(n / 256);
      var head := TwosComplement(n / 256);
      assert TwosComplement(n)[..|head|] == head;
    }
  }

  lemma {:induction false} TwosComplementCanonical(b: seq<byte>)
    requires MinimallyEncoded(b)
    ensures TwosComplement(ReadTwosComplement(b)) == b
  {
    if |b| > 1 {
      var head := b[..|b| - 1];
      TwosComplementCanonical(head);
      assert b == head + [b[|b| - 1]];
      var m, last := ReadTwosComplement(head), b[|b| - 1] as int;
      assert ReadTwosComplement(b) == 256 * m + last;
      assert m == 0 ==> head == [0] && last >= 128;
      assert m == -1 ==> head == [255] && last < 128;
      assert (256 * m + last) / 256 == m && (256 * m + last) % 256 == last;
    }
  }

  lemma {:induction false} TwosComplementLength(n: nat, k: nat)
    requires n < Pow256(k)
    ensures |TwosComplement(n)| <= k + 1
  {
    if n >= 128 {
      TwosComplementLength(n / 256, k - 1);
    }
  }

  // ---- Lengths and values ------------------------------------------------------------------------

  lemma TlvLength(tag: byte, content: seq<byte>)
    requires |content| < MAX_LENGTH
    ensures |Tlv(tag, content)| <= |content| + 6
  {
    MinimalFits(|content|, 4);
  }

  lemma {:induction false} ReadLengthExact(digits: seq<byte>, n: nat)
    ensures ReadLength(digits) == Some(n) <==> digits == Minimal(n) && n < MAX_LENGTH
  {
    if digits != [] {
      var head, last := digits[..|digits| - 1], digits[|digits| - 1];
      ReadLengthExact(head, n / 256);
      assert digits == head + [last];
      if n > 0 {
        assert Minimal(n)[..|Minimal(n)| - 1] == Minimal(n / 256);
      }
    }
  }

  lemma TlvAccepted(tag: byte, content: seq<byte>, rest: seq<byte>)
    requires |content| < MAX_LENGTH
    ensures ReadTlv(tag, Tlv(tag, content) + rest) == Some(Parsed(content, rest))
  {
    var n := |content|;
    var b := Tlv(tag, content) + rest;
    var start := 1 + |LengthOctets(n)|;
    MinimalFits(n, 4);
    MinimalFits(n, 0);
    if n >= 0x80 {
      ReadLengthExact(Minimal(n), n);
      assert b[2..start] == Minimal(n);
    }
    assert b[start..start + n] == content && b[start + n..] == rest;
  }

  lemma TlvRead(tag: byte, b: seq<byte>)
    requires ReadTlv(tag, b).Some?
    ensures var Parsed(content, rest) := ReadTlv(tag, b).value;
            |content| < MAX_LENGTH && b == Tlv(tag, content) + rest
  {
    hide Minimal, ReadLength;
    var Parsed(content, rest) := ReadTlv(tag, b).value;
    if b[1] < 0x80 {
      assert b == [tag] + [b[1]] + content + rest;
    } else {
      var octets := b[1] as int - 0x80;
      ReadLengthExact(b[2..2 + octets], |content|);
      assert b == [tag] + ([b[1]] + b[2..2 + octets]) + content + rest;
    }
  }

  /** The reader accepts exactly the encoder's output. */
  lemma TlvExact(tag: byte, b: seq<byte>, content: seq<byte>, rest: seq<byte>)
    ensures ReadTlv(tag, b) == Some(Parsed(content, rest)) <==>
            |content| < MAX_LENGTH && b == Tlv(tag, content) + rest
  {
    if |content| < MAX_LENGTH {
      TlvAccepted(tag, content, rest);
    }
    if ReadTlv(tag, b).Some? {
      TlvRead(tag, b);
    }
  }

  lemma IntegerExact(b: seq<byte>, n: int, rest: seq<byte>)
    ensures ReadInteger(b) == Some(Parsed(n, rest)) <==>
            |TwosComplement(n)| < MAX_LENGTH && b == Tlv(INTEGER, TwosComplement(n)) + rest
  {
    TwosComplementRoundTrip(n);
    TlvExact(INTEGER, b, TwosComplement(n), rest);
    if ReadInteger(b) == Some(Parsed(n, rest)) {
      TwosComplementCanonical(ReadTlv(INTEGER, b).value.value);
    }
  }

  /** The signature reader accepts exactly the DER signatures, further elements inside the sequence allowed. */
  lemma SignatureExact(b: seq<byte>, sig: Signature, rest: seq<byte>)
    ensures ReadSignature(b) == Some(Parsed(sig, rest)) <==>
            exists extra :: Encodable(sig, extra) && b == SignatureDer(sig, extra) + rest
  {
    hide TwosComplement, Tlv, ReadTlv, ReadInteger;
    var r, s := TwosComplement(sig.r), TwosComplement(sig.s);
    if ReadSignature(b) == Some(Parsed(sig, rest)) {
      var content := ReadTlv(SEQUENCE, b).value.value;
      var afterR := ReadInteger(content).value.rest;
      var extra := ReadInteger(afterR).value.rest;
      TlvExact(SEQUENCE, b, content, rest);
      IntegerExact(content, sig.r, afterR);
      IntegerExact(afterR, sig.s, extra);
      assert content == Tlv(INTEGER, r) + Tlv(INTEGER, s) + extra;
      assert Encodable(sig, extra) && b == SignatureDer(sig, extra) + rest;
    }
    if extra :| Encodable(sig, extra) && b == SignatureDer(sig, extra) + rest {
      var content := Tlv(INTEGER, r) + Tlv(INTEGER, s) + extra;
      assert content == Tlv(INTEGER, r) + (Tlv(INTEGER, s) + extra);
      TlvExact(SEQUENCE, b, content, rest);
      IntegerExact(content, sig.r, Tlv(INTEGER, s) + extra);
      IntegerExact(Tlv(INTEGER, s) + extra, sig.s, extra);
    }
  }

  /** Numbers of up to a thousand octets always have an encoding. */
  lemma SmallSignatureEncodable(sig: Signature, size: nat)
    requires 0 <= sig.r < Pow256(size) && 0 <= sig.s < Pow256(size) && size <= 1000
    ensures Encodable(sig, [])
  {
    TwosComplementLength(sig.r, size);
    TwosComplementLength(sig.s, size);
    TlvLength(INTEGER, TwosComplement(sig.r));
    TlvLength(INTEGER, TwosComplement(sig.s));
    hide TwosComplement, Tlv;
  }
}
