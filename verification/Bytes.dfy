/** Octet strings and the big-endian integers they denote (sections 4.1 and 4.2 of RFC 8017). */
module Bytes {
  type byte = b: int | 0 <= b < 256

  function Pow256(k: nat): (p: int)
    ensures p >= 1
  {
    if k == 0 then 1 else 256 * Pow256(k - 1)
  }

  /** OS2IP. */
  function Os2ip(b: seq<byte>): nat {
    if b == [] then 0 else 256 * Os2ip(b[..|b| - 1]) + b[|b| - 1]
  }

  /** I2OSP: exactly `length` octets. */
  function I2osp(n: nat, length: nat): (b: seq<byte>)
    requires n < Pow256(length)
    ensures |b| == length && Os2ip(b) == n
  {
    if length == 0 then [] else I2osp(n / 256, length - 1) + [n % 256]
  }

  /** big.Int.Bytes of a non-negative number: no leading zero octet. */
  function Minimal(n: nat): (b: seq<byte>)
    ensures Os2ip(b) == n
    ensures b == [] <==> n == 0
    ensures b != [] ==> b[0] != 0
  {
    if n == 0 then [] else Minimal(n / 256) + [n % 256]
  }

  /** big.Int.Bytes ignores the sign. */
  function Magnitude(x: int): nat {
    if x < 0 then -x else x
  }

  /** big.Int.BitLen of a non-negative number. */
  function BitLen(n: nat): nat {
    if n == 0 then 0 else 1 + BitLen(n / 2)
  }

  function Zeros(k: nat): (z: seq<byte>)
    ensures |z| == k
  {
    seq(k, _ => 0)
  }

  lemma {:induction false} Os2ipBound(b: seq<byte>)
    ensures Os2ip(b) < Pow256(|b|)
  {
    if b != [] {
      Os2ipBound(b[..|b| - 1]);
    }
  }

  /** Octets count positionally in base 256, the first one most. */
  lemma {:induction false} Os2ipConcat(a: seq<byte>, b: seq<byte>)
    ensures Os2ip(a + b) == Os2ip(a) * Pow256(|b|) + Os2ip(b)
    ensures |b| == 1 ==> Os2ip(a + b) == Os2ip(a) * 256 + b[0]
    decreases |b|
  {
    if b == [] {
      assert a + b == a;
    } else {
      var n := |b| - 1;
      assert (a + b)[..|a| + n] == a + b[..n];
      Os2ipConcat(a, b[..n]);
      var x, p := Os2ip(a), Pow256(n);
      assert 256 * (x * p) == x * (256 * p);
    }
  }

  /** Octet strings of one length are determined by the integer they denote. */
  lemma {:induction false} Os2ipInjective(a: seq<byte>, b: seq<byte>)
    requires |a| == |b| && Os2ip(a) == Os2ip(b)
    ensures a == b
  {
    if a != [] {
      var n := |a| - 1;
      Os2ipInjective(a[..n], b[..n]);
      assert a == a[..n] + [a[n]] && b == b[..n] + [b[n]];
    }
  }

  lemma {:induction false} LeadingZeros(k: nat, b: seq<byte>)
    ensures Os2ip(Zeros(k) + b) == Os2ip(b)
    decreases k + |b|
  {
    var z := Zeros(k) + b;
    if b != [] {
      assert z[..|z| - 1] == Zeros(k) + b[..|b| - 1];
      LeadingZeros(k, b[..|b| - 1]);
    } else if k > 0 {
      assert z[..|z| - 1] == Zeros(k - 1) + b;
      LeadingZeros(k - 1, b);
    }
  }

  lemma {:induction false} MinimalFits(n: nat, k: nat)
    ensures |Minimal(n)| <= k <==> n < Pow256(k)
  {
    if n > 0 && k > 0 {
      MinimalFits(n / 256, k - 1);
    }
  }

  /** Left-padding the minimal octets gives the fixed-width ones. */
  lemma PaddedMinimal(n: nat, k: nat)
    requires n < Pow256(k)
    ensures |Minimal(n)| <= k && Zeros(k - |Minimal(n)|) + Minimal(n) == I2osp(n, k)
  {
  }

  function Pow2(k: nat): nat {
    if k == 0 then 1 else 2 * Pow2(k - 1)
  }

  /** The bit length is the least number of bits that hold the number. */
  lemma {:induction false} BitLenIsLeast(n: nat)
    ensures n < Pow2(BitLen(n)) && (n > 0 ==> Pow2(BitLen(n) - 1) <= n)
  {
    if n > 0 {
      BitLenIsLeast(n / 2);
    }
  }

  lemma {:induction false} BitLenByNibble(n: nat)
    ensures n >= 16 ==> BitLen(n) == 4 + BitLen(n / 16)
    ensures 0 < n < 16 ==> 1 <= BitLen(n) <= 4
  {
    assert n / 2 / 2 == n / 4 && n / 4 / 2 == n / 8 && n / 8 / 2 == n / 16;
    assert n > 0 ==> BitLen(n) == 1 + BitLen(n / 2);
    assert n / 2 > 0 ==> BitLen(n / 2) == 1 + BitLen(n / 4);
    assert n / 4 > 0 ==> BitLen(n / 4) == 1 + BitLen(n / 8);
    assert n / 8 > 0 ==> BitLen(n / 8) == 1 + BitLen(n / 16);
  }

  /** A number's octet count is its bit length, rounded up to whole octets. */
  lemma {:induction false} MinimalLength(n: nat)
    ensures |Minimal(n)| == (BitLen(n) + 7) / 8
  {
    BitLenByNibble(n);
    BitLenByNibble(n / 16);
    assert n / 16 / 16 == n / 256;
    if n >= 256 {
      MinimalLength(n / 256);
    } else if n > 0 {
      assert Minimal(n) == [n];
    }
  }

  /** Go's copy into dst[at..]. */
  method CopyInto(dst: array<byte>, at: nat, src: seq<byte>)
    requires at + |src| <= dst.Length
    modifies dst
    ensures dst[..] == old(dst[..at]) + src + old(dst[at + |src|..])
  {
    forall i | 0 <= i < |src| {
      dst[at + i] := src[i];
    }
  }
}
