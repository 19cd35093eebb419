/**
 The signature reader on octets written out (X.690 sections 8.1.3, 8.3 and 8.9): tag 2 for INTEGER, tag 48 for
 SEQUENCE, one length octet below 128 and 0x81 with one more from there to 255, which P-521 needs.
 */
module DerOctets {
  import opened Wrappers
  import opened Bytes
  import opened Der
  import opened Ecdsa

  /** Nothing without those two tags is read. */
  lemma TagsRead(b: seq<byte>)
    ensures ReadInteger(b).Some? ==> |b| >= 3 && b[0] == 2
    ensures ReadSignature(b).Some? ==> |b| >= 8 && b[0] == 48
  {
    if ReadInteger(b).Some? {
      TlvRead(INTEGER, b);
    }
    if ReadSignature(b).Some? {
      var content := ReadTlv(SEQUENCE, b).value.value;
      TlvRead(SEQUENCE, b);
      TlvRead(INTEGER, content);
      TlvRead(INTEGER, ReadInteger(content).value.rest);
    }
  }

  /** A number's octets in two's complement: the first one's high bit counts negatively. */
  lemma {:induction false} ContentValue(c: seq<byte>)
    requires c != []
    ensures ReadTwosComplement(c) == Os2ip(c) - (if c[0] >= 128 then Pow256(|c|) else 0)
  {
    if |c| == 1 {
      assert Os2ip(c[..0]) == 0;
      assert Pow256(1) == 256 * Pow256(0);
    } else {
      ContentValue(c[..|c| - 1]);
    }
  }

  /** The shortest content: no first octet that only repeats the sign of the second. */
  predicate Shortest(c: seq<byte>) {
    c != [] && (|c| >= 2 ==> !(c[0] == 0 && c[1] < 128) && !(c[0] == 255 && c[1] >= 128))
  }

  lemma ShortElement(tag: byte, c: seq<byte>, rest: seq<byte>)
    requires |c| < 128
    ensures ReadTlv(tag, [tag, |c|] + c + rest) == Some(Parsed(c, rest))
  {
    var b := [tag, |c|] + c + rest;
    assert b[2..2 + |c|] == c && b[2 + |c|..] == rest;
  }

  lemma LongElement(tag: byte, c: seq<byte>, rest: seq<byte>)
    requires 128 <= |c| < 256
    ensures ReadTlv(tag, [tag, 0x81, |c|] + c + rest) == Some(Parsed(c, rest))
  {
    var b := [tag, 0x81, |c|] + c + rest;
    assert b[2..3] == [|c|];
    assert ReadLength([]) == Some(0);
    assert ReadLength([|c|]) == Some(|c|);
    assert b[3..3 + |c|] == c && b[3 + |c|..] == rest;
  }

  /** Tag 2, length, content: read exactly when the content is as short as it can be, and as the number it denotes. */
  lemma IntegerOctets(c: seq<byte>, rest: seq<byte>)
    requires |c| < 128
    ensures ReadInteger([2, |c|] + c + rest) ==
            if Shortest(c) then Some(Parsed(Os2ip(c) - (if c[0] >= 128 then Pow256(|c|) else 0), rest)) else None
  {
    hide ReadTlv, ReadTwosComplement, Os2ip, Pow256;
    ShortElement(2, c, rest);
    if c != [] {
      ContentValue(c);
    }
  }

  /** The octets of a signature whose numbers have contents x and y. */
  function SignatureOctets(x: seq<byte>, y: seq<byte>): seq<byte>
    requires |x| < 128 && |y| < 128 && |x| + |y| + 4 < 256
  {
    var n := |x| + |y| + 4;
    (if n < 128 then [48, n] else [48, 0x81, n]) + [2, |x|] + x + [2, |y|] + y
  }

  lemma SignatureOctetsRead(x: seq<byte>, y: seq<byte>, rest: seq<byte>)
    requires Shortest(x) && Shortest(y) && |x| < 128 && |y| < 128 && |x| + |y| + 4 < 256
    ensures ReadSignature(SignatureOctets(x, y) + rest) ==
            Some(Parsed(
              Signature(
                Os2ip(x) - (if x[0] >= 128 then Pow256(|x|) else 0),
                Os2ip(y) - (if y[0] >= 128 then Pow256(|y|) else 0)),
              rest))
  {
    hide *;
    var yOctets := [2, |y|] + y;
    var body := [2, |x|] + x + yOctets;
    OctetsOfBody(x, y, rest);
    if |body| < 128 {
      ShortElement(48, body, rest);
    } else {
      LongElement(48, body, rest);
    }
    IntegerOctets(x, yOctets);
    IntegerOctets(y, []);
    assert yOctets + [] == yOctets;
    ElementsMakeSignature(SignatureOctets(x, y) + rest, body, yOctets);
  }

  lemma OctetsOfBody(x: seq<byte>, y: seq<byte>, rest: seq<byte>)
    requires |x| < 128 && |y| < 128 && |x| + |y| + 4 < 256
    ensures var body := [2, |x|] + x + ([2, |y|] + y);
            SignatureOctets(x, y) + rest == (if |body| < 128 then [48, |body|] else [48, 0x81, |body|]) + body + rest
  {
  }

  lemma ElementsMakeSignature(b: seq<byte>, body: seq<byte>, afterR: seq<byte>)
    requires ReadTlv(48, b).Some? && ReadTlv(48, b).value.value == body
    requires ReadInteger(body).Some? && ReadInteger(body).value.rest == afterR && ReadInteger(afterR).Some?
    ensures ReadSignature(b) ==
            Some(Parsed(
              Signature(ReadInteger(body).value.value, ReadInteger(afterR).value.value), ReadTlv(48, b).value.rest))
  {
    hide ReadTlv, ReadInteger;
  }

  /**
   On each curve, the octets of two numbers convert exactly when both are positive and fit 32, 48 or 66
   octets; the output is twice that long and its halves denote, big-endian, the same two numbers.
   */
  lemma SignatureOctetsConvert(x: seq<byte>, y: seq<byte>, curveBits: int, size: nat)
    requires Shortest(x) && Shortest(y) && |x| < 128 && |y| < 128 && |x| + |y| + 4 < 256
    requires (curveBits, size) in {(256, 32), (384, 48), (521, 66)}
    ensures var result := RawForm(SignatureOctets(x, y), curveBits);
            && (result.Success? <==>
                x[0] < 128 && 0 < Os2ip(x) < Pow256(size) && y[0] < 128 && 0 < Os2ip(y) < Pow256(size))
            && (result.Success? ==>
                  && |result.value| == 2 * size
                  && Os2ip(result.value[..size]) == Os2ip(x)
                  && Os2ip(result.value[size..]) == Os2ip(y))
            && result != Failure(Malformed) && result != Failure(TrailingBytes)
  {
    hide ReadSignature, SignatureOctets, Pow256, Os2ip;
    SignatureOctetsRead(x, y, []);
    assert SignatureOctets(x, y) + [] == SignatureOctets(x, y);
    Os2ipBound(x);
    Os2ipBound(y);
    assert CoordinateSize(curveBits) == size;
    var result := RawForm(SignatureOctets(x, y), curveBits);
    if result.Success? {
      RawHalves(ReadSignature(SignatureOctets(x, y)).value.value, size);
    }
  }
}
