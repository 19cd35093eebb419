/** CNG public-key blobs (internal/cng/pubkey.go): little-endian header words, big-endian integers. */
module PublicKeys {
  import opened Wrappers
  import opened Bytes

  /** crypto.PublicKey as the provider distinguishes it. big.Int fields may hold any integer. */
  datatype PublicKey =
    | RsaKey(e: int, n: int)
    | EcdsaKey(curveBits: int, x: int, y: int)
    | OtherKey

  const MAGIC_RSA := 0x31415352
  const MAGIC_P256 := 0x31534345
  const MAGIC_P384 := 0x33534345
  const MAGIC_P521 := 0x35534345

  const ULONG := 0x1_0000_0000

  // ---- Header words ------------------------------------------------------------------------------

  /** A ULONG, least significant octet first. */
  function Word(v: int): (w: seq<byte>)
    requires 0 <= v < ULONG
    ensures |w| == 4
  {
    [v % 256, v / 256 % 256, v / 256 / 256 % 256, v / 256 / 256 / 256]
  }

  function WordAt(b: seq<byte>, at: nat): int
    requires at + 4 <= |b|
  {
    b[at] as int + 256 * (b[at + 1] as int + 256 * (b[at + 2] as int + 256 * b[at + 3] as int))
  }

  lemma WordRoundTrip(v: int, b: seq<byte>, at: nat)
    requires 0 <= v < ULONG && at + 4 <= |b| && b[at..at + 4] == Word(v)
    ensures WordAt(b, at) == v
  {
  }

  /** binary.LittleEndian.PutUint32(out[at:], uint32(v)): the conversion keeps the low 32 bits. */
  method PutUint32(out: array<byte>, at: nat, v: int)
    requires at + 4 <= out.Length
    modifies out
    ensures out[..] == Put(old(out[..]), at, Word(v % ULONG))
  {
    CopyInto(out, at, Word(v % ULONG));
  }

  /** A buffer with four octets overwritten. */
  function Put(b: seq<byte>, at: nat, word: seq<byte>): seq<byte>
    requires |word| == 4 && at + 4 <= |b|
  {
    b[..at] + word + b[at + 4..]
  }

  /** Words written one after the other from the start leave the rest of the zeroed buffer alone. */
  lemma PutNext(written: seq<byte>, k: nat, word: seq<byte>)
    requires |word| == 4 && k >= 4
    ensures Put(written + Zeros(k), |written|, word) == (written + word) + Zeros(k - 4)
  {
  }

  // ---- RSA ---------------------------------------------------------------------------------------

  function RsaBlob(e: int, n: int): seq<byte> {
    var exp, mod := Minimal(Magnitude(e)), Minimal(Magnitude(n));
    Word(MAGIC_RSA) + Word(BitLen(Magnitude(n)) % ULONG) + Word(|exp| % ULONG) + Word(|mod| % ULONG) +
    Word(0) + Word(0) + exp + mod
  }

  method RSAPublicBlob(e: int, n: int) returns (blob: seq<byte>)
    ensures blob == RsaBlob(e, n)
  {
    hide Word, Minimal, BitLen;
    var exp, mod := Minimal(Magnitude(e)), Minimal(Magnitude(n));
    var header := new byte[24](_ => 0);
    assert header[..] == Zeros(24);
    PutUint32(header, 0, MAGIC_RSA);
    PutUint32(header, 4, BitLen(Magnitude(n)));
    PutUint32(header, 8, |exp|);
    PutUint32(header, 12, |mod|);
    FourWords(Word(MAGIC_RSA), Word(BitLen(Magnitude(n)) % ULONG), Word(|exp| % ULONG), Word(|mod| % ULONG));
    blob := header[..] + exp + mod;
  }

  lemma TwoWords(a: seq<byte>, b: seq<byte>)
    requires |a| == |b| == 4
    ensures Put(Put(Zeros(8), 0, a), 4, b) == a + b
  {
  }

  lemma FourWords(a: seq<byte>, b: seq<byte>, c: seq<byte>, d: seq<byte>)
    requires |a| == |b| == |c| == |d| == 4
    ensures Put(Put(Put(Put(Zeros(24), 0, a), 4, b), 8, c), 12, d) == a + b + c + d + Word(0) + Word(0)
  {
    assert Zeros(24) == [] + Zeros(24) && Zeros(8) == Word(0) + Word(0);
    PutNext([], 24, a);
    assert [] + a == a;
    PutNext(a, 20, b);
    PutNext(a + b, 16, c);
    PutNext(a + b + c, 12, d);
  }

  datatype RsaFields = RsaFields(bitLength: int, e: int, n: int, cbModulus: int)

  /** BCRYPT_RSAPUBLIC_BLOB as CNG reads it: six ULONGs, then exponent and modulus, and nothing after. */
  function ReadRsaBlob(b: seq<byte>): Option<RsaFields> {
    if |b| < 24 || WordAt(b, 0) != 0x31415352 || WordAt(b, 16) != 0 || WordAt(b, 20) != 0 then None
    else
      var cbExp, cbMod := WordAt(b, 8), WordAt(b, 12);
      if cbExp < 0 || cbMod < 0 || |b| != 24 + cbExp + cbMod then None
      else Some(RsaFields(WordAt(b, 4), Os2ip(b[24..24 + cbExp]), Os2ip(b[24 + cbExp..]), cbMod))
  }

  // ---- Elliptic curves ---------------------------------------------------------------------------

  function CurveMagic(bits: int): Option<int> {
    match bits
    case 256 => Some(MAGIC_P256)
    case 384 => Some(MAGIC_P384)
    case 521 => Some(MAGIC_P521)
    case _ => None
  }

  function LeftPadded(b: seq<byte>, size: nat): seq<byte> {
    if |b| >= size then b else Zeros(size - |b|) + b
  }

  method LeftPad(b: seq<byte>, size: nat) returns (result: seq<byte>)
    ensures result == LeftPadded(b, size)
  {
    if |b| >= size {
      return b;
    }
    var out := new byte[size](_ => 0);
    CopyInto(out, size - |b|, b);
    result := out[..];
  }

  /** None stands for the unsupported-curve error. */
  function EccBlob(bits: int, x: int, y: int): Option<seq<byte>> {
    match CurveMagic(bits)
    case None => None
    case Some(magic) =>
      var cbKey := (bits + 7) / 8;
      Some(Word(magic) + Word(cbKey) +
           LeftPadded(Minimal(Magnitude(x)), cbKey) + LeftPadded(Minimal(Magnitude(y)), cbKey))
  }

  method ECCPublicBlob(bits: int, x: int, y: int) returns (result: Option<seq<byte>>)
    ensures result == EccBlob(bits, x, y)
  {
    hide Minimal, LeftPadded, Word;
    var magic := CurveMagic(bits);
    if magic == None {
      return None;
    }
    var cbKey := (bits + 7) / 8;
    var header := new byte[8](_ => 0);
    assert header[..] == Zeros(8);
    PutUint32(header, 0, magic.value);
    PutUint32(header, 4, cbKey);
    TwoWords(Word(magic.value), Word(cbKey));
    var paddedX := LeftPad(Minimal(Magnitude(x)), cbKey);
    var paddedY := LeftPad(Minimal(Magnitude(y)), cbKey);
    result := Some(header[..] + paddedX + paddedY);
  }

  /** BCRYPT_ECCPUBLIC_BLOB as CNG reads it: magic and cbKey of one curve, then exactly two coordinates. */
  function ReadEccBlob(b: seq<byte>): Option<PublicKey> {
    if |b| < 8 then None
    else
      var bits := match WordAt(b, 0)
                  case 0x31534345 => 256
                  case 0x33534345 => 384
                  case 0x35534345 => 521
                  case _ => 0;
      var cbKey := (bits + 7) / 8;
      if bits == 0 || WordAt(b, 4) != cbKey || |b| != 8 + 2 * cbKey then None
      else Some(EcdsaKey(bits, Os2ip(b[8..8 + cbKey]), Os2ip(b[8 + cbKey..])))
  }

  // ---- The blobs can be read back ----------------------------------------------------------------

  lemma RsaHeader(e: int, n: int)
    ensures var b := RsaBlob(e, n);
            var exp, mod := Minimal(Magnitude(e)), Minimal(Magnitude(n));
            && |b| == 24 + |exp| + |mod|
            && WordAt(b, 0) == MAGIC_RSA
            && WordAt(b, 4) == BitLen(Magnitude(n)) % ULONG
            && WordAt(b, 8) == |exp| % ULONG
            && WordAt(b, 12) == |mod| % ULONG
            && WordAt(b, 16) == WordAt(b, 20) == 0
            && b[24..24 + |exp|] == exp && b[24 + |exp|..] == mod
  {
    hide Word, Minimal, WordAt, BitLen;
    var exp, mod := Minimal(Magnitude(e)), Minimal(Magnitude(n));
    var b := RsaBlob(e, n);
    WordRoundTrip(MAGIC_RSA, b, 0);
    WordRoundTrip(BitLen(Magnitude(n)) % ULONG, b, 4);
    WordRoundTrip(|exp| % ULONG, b, 8);
    WordRoundTrip(|mod| % ULONG, b, 12);
    WordRoundTrip(0, b, 16);
    WordRoundTrip(0, b, 20);
  }

  /** The exponent is a Go int. */
  predicate IsExponent(e: int) {
    -0x8000_0000_0000_0000 <= e < 0x8000_0000_0000_0000
  }

  /**
   The RSA blob reads back as the key with its bit length, and the modulus takes that many bits
   rounded up to octets, exactly when the numbers are not negative and the bit length fits a ULONG.
   */
  lemma RsaBlobReadsBack(e: int, n: int)
    requires IsExponent(e)
    ensures var bits := BitLen(Magnitude(n));
            ReadRsaBlob(RsaBlob(e, n)) == Some(RsaFields(bits, e, n, (bits + 7) / 8)) <==>
            e >= 0 && n >= 0 && bits < ULONG
  {
    hide Word, Minimal, WordAt, BitLen, Os2ip;
    RsaHeader(e, n);
    MinimalLength(Magnitude(n));
    ExponentOctets(e);
  }

  lemma ExponentOctets(e: int)
    requires IsExponent(e)
    ensures |Minimal(Magnitude(e))| <= 8
  {
    assert Pow256(8) == 0x1_0000_0000_0000_0000;
    MinimalFits(Magnitude(e), 8);
  }

  lemma PaddedReadsBack(x: int, size: nat)
    ensures var b := LeftPadded(Minimal(Magnitude(x)), size);
            && |b| >= size
            && (|b| == size <==> Magnitude(x) < Pow256(size))
            && Os2ip(b) == Magnitude(x)
  {
    MinimalFits(Magnitude(x), size);
    if |Minimal(Magnitude(x))| < size {
      LeadingZeros(size - |Minimal(Magnitude(x))|, Minimal(Magnitude(x)));
    }
  }

  /**
   The ECC blob exists exactly for the three curves, and reads back as the same key exactly when both
   coordinates are non-negative and fit the coordinate size; it then has 8 + 2 * cbKey octets.
   */
  lemma EccBlobReadsBack(bits: int, x: int, y: int)
    ensures EccBlob(bits, x, y).Some? <==> bits in {256, 384, 521}
    ensures var size := (bits + 7) / 8;
            bits in {256, 384, 521} ==>
            var b := EccBlob(bits, x, y).value;
            && (ReadEccBlob(b) == Some(EcdsaKey(bits, x, y)) <==> 0 <= x < Pow256(size) && 0 <= y < Pow256(size))
            && (0 <= x < Pow256(size) && 0 <= y < Pow256(size) ==> |b| == 8 + 2 * size)
  {
    if bits in {256, 384, 521} {
      EccBlobBody(bits, x, y);
    }
  }

  lemma EccBlobBody(bits: int, x: int, y: int)
    requires CurveMagic(bits).Some?
    ensures var size := (bits + 7) / 8;
            var b := EccBlob(bits, x, y).value;
            && (ReadEccBlob(b) == Some(EcdsaKey(bits, x, y)) <==> 0 <= x < Pow256(size) && 0 <= y < Pow256(size))
            && (0 <= x < Pow256(size) && 0 <= y < Pow256(size) ==> |b| == 8 + 2 * size)
  {
    hide Word, WordAt, Minimal, LeftPadded, Os2ip, Pow256;
    var size := (bits + 7) / 8;
    var px, py := LeftPadded(Minimal(Magnitude(x)), size), LeftPadded(Minimal(Magnitude(y)), size);
    PaddedReadsBack(x, size);
    PaddedReadsBack(y, size);
    var b := EccBlob(bits, x, y).value;
    WordRoundTrip(CurveMagic(bits).value, b, 0);
    WordRoundTrip(size, b, 4);
    assert |b| == 8 + |px| + |py|;
    if |px| == size {
      assert b[8..8 + size] == px && b[8 + size..] == py;
    }
  }

  // ---- Octet for octet ---------------------------------------------------------------------------

  /** Four octets from `at` on, the first one counting least. */
  function LittleEndian(b: seq<byte>, at: nat): int
    requires at + 4 <= |b|
  {
    b[at] as int + b[at + 1] as int * 0x100 + b[at + 2] as int * 0x1_0000 + b[at + 3] as int * 0x100_0000
  }

  lemma WordOctets(v: int, b: seq<byte>, at: nat)
    requires 0 <= v < ULONG && at + 4 <= |b| && b[at..at + 4] == Word(v)
    ensures LittleEndian(b, at) == v
  {
    WordRoundTrip(v, b, at);
  }

  /**
   An RSA blob is the octets "RSA1", three words for the bit length and the octet counts of exponent and modulus, two
   words of zero, and then exponent and modulus, big-endian and without leading zeros.
   */
  lemma RsaBlobOctets(e: int, n: int)
    ensures var b, exp, mod := RsaBlob(e, n), Minimal(Magnitude(e)), Minimal(Magnitude(n));
            && |b| == 24 + |exp| + |mod|
            && b[..4] == [0x52, 0x53, 0x41, 0x31]
            && LittleEndian(b, 4) == BitLen(Magnitude(n)) % 0x1_0000_0000
            && LittleEndian(b, 8) == |exp| % 0x1_0000_0000
            && LittleEndian(b, 12) == |mod| % 0x1_0000_0000
            && b[16..24] == [0, 0, 0, 0, 0, 0, 0, 0]
            && b[24..] == exp + mod
  {
    hide Minimal, BitLen, LittleEndian;
    var exp, mod, b := Minimal(Magnitude(e)), Minimal(Magnitude(n)), RsaBlob(e, n);
    assert Word(MAGIC_RSA) == [0x52, 0x53, 0x41, 0x31] && Word(0) == [0, 0, 0, 0];
    hide Word;
    assert b[..4] == Word(MAGIC_RSA) && b[16..24] == Word(0) + Word(0);
    WordOctets(BitLen(Magnitude(n)) % ULONG, b, 4);
    WordOctets(|exp| % ULONG, b, 8);
    WordOctets(|mod| % ULONG, b, 12);
  }

  /**
   An ECC blob begins with "ECS1", "ECS3" or "ECS5" and 32, 48 or 66 as a word; a coordinate that
   fits is as wide as that, big-endian.
   */
  lemma EccBlobOctets(bits: int, x: int, y: int)
    requires bits in {256, 384, 521}
    ensures EccBlob(bits, x, y).Some? && |EccBlob(bits, x, y).value| >= 8
    ensures var b, size := EccBlob(bits, x, y).value, (bits + 7) / 8;
            && b[..8] == [0x45, 0x43, 0x53, if bits == 256 then 0x31 else if bits == 384 then 0x33 else 0x35,
                          size, 0, 0, 0]
            && (0 <= x < Pow256(size) && 0 <= y < Pow256(size) ==> b[8..] == I2osp(x, size) + I2osp(y, size))
  {
    hide Minimal, Pow256, I2osp, LeftPadded;
    var size := (bits + 7) / 8;
    EccHeaderOctets(bits);
    hide Word;
    assert EccBlob(bits, x, y).value[..8] == Word(CurveMagic(bits).value) + Word(size);
    if 0 <= x < Pow256(size) && 0 <= y < Pow256(size) {
      PaddedCoordinate(x, size);
      PaddedCoordinate(y, size);
    }
  }

  lemma EccHeaderOctets(bits: int)
    requires bits in {256, 384, 521}
    ensures Word(CurveMagic(bits).value) + Word((bits + 7) / 8) ==
            [0x45, 0x43, 0x53, if bits == 256 then 0x31 else if bits == 384 then 0x33 else 0x35,
             (bits + 7) / 8, 0, 0, 0]
  {
  }

  lemma PaddedCoordinate(x: int, size: nat)
    requires 0 <= x < Pow256(size)
    ensures LeftPadded(Minimal(Magnitude(x)), size) == I2osp(x, size)
  {
    PaddedMinimal(x, size);
  }
}
