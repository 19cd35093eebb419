/** UTF-8 (section 3 and 4 of RFC 3629): the encoder, and why its output can be cut only between characters. */
module Utf8 {
  import opened Bytes

  /** utf8.RuneStart. */
  predicate RuneStart(b: byte) {
    !(0x80 <= b < 0xC0)
  }

  function Encode(c: char): (e: seq<byte>)
    ensures 1 <= |e| <= 4
    ensures RuneStart(e[0]) && forall i :: 1 <= i < |e| ==> !RuneStart(e[i])
  {
    var n := c as int;
    var q := n / 0x40;
    var r := q / 0x40;
    if n < 0x80 then [n]
    else if n < 0x800 then [0xC0 + q, 0x80 + n % 0x40]
    else if n < 0x1_0000 then [0xE0 + r, 0x80 + q % 0x40, 0x80 + n % 0x40]
    else [0xF0 + r / 0x40, 0x80 + r % 0x40, 0x80 + q % 0x40, 0x80 + n % 0x40]
  }

  function EncodeAll(s: string): seq<byte> {
    if s == "" then [] else Encode(s[0]) + EncodeAll(s[1..])
  }

  lemma {:induction false} EncodeAllConcat(a: string, b: string)
    ensures EncodeAll(a + b) == EncodeAll(a) + EncodeAll(b)
  {
    if a == "" {
      assert a + b == b;
    } else {
      assert (a + b)[1..] == a[1..] + b;
      EncodeAllConcat(a[1..], b);
    }
  }

  /** The code point the bytes begin with, read by the length the first byte announces. */
  function CodePoint(b: seq<byte>): int {
    var at := (i: nat, offset: int) => if i < |b| then b[i] as int - offset else 0;
    if at(0, 0) < 0x80 then at(0, 0)
    else if at(0, 0) < 0xE0 then at(0, 0xC0) * 0x40 + at(1, 0x80)
    else if at(0, 0) < 0xF0 then (at(0, 0xE0) * 0x40 + at(1, 0x80)) * 0x40 + at(2, 0x80)
    else ((at(0, 0xF0) * 0x40 + at(1, 0x80)) * 0x40 + at(2, 0x80)) * 0x40 + at(3, 0x80)
  }

  lemma CodePointOfEncoded(c: char, rest: seq<byte>)
    ensures CodePoint(Encode(c) + rest) == c as int
  {
  }

  /** The encoding determines the string. */
  lemma {:induction false} EncodingIsInjective(a: string, b: string)
    requires EncodeAll(a) == EncodeAll(b)
    ensures a == b
  {
    if a != "" && b != "" {
      CodePointOfEncoded(a[0], EncodeAll(a[1..]));
      CodePointOfEncoded(b[0], EncodeAll(b[1..]));
      assert EncodeAll(a)[|Encode(a[0])|..] == EncodeAll(a[1..]);
      assert EncodeAll(b)[|Encode(b[0])|..] == EncodeAll(b[1..]);
      EncodingIsInjective(a[1..], b[1..]);
      assert a == [a[0]] + a[1..] && b == [b[0]] + b[1..];
    }
  }

  /** The examples of section 7 of RFC 3629, with one, two, three and four octets a character. */
  lemma EncodedExamples()
    ensures EncodeAll("A\U{2262}\U{0391}.") == [0x41, 0xE2, 0x89, 0xA2, 0xCE, 0x91, 0x2E]
    ensures EncodeAll("\U{FEFF}\U{233B4}") == [0xEF, 0xBB, 0xBF, 0xF0, 0xA3, 0x8E, 0xB4]
  {
    assert "A\U{2262}\U{0391}."[1..] == "\U{2262}\U{0391}.";
    assert "\U{2262}\U{0391}."[1..] == "\U{0391}.";
    assert "\U{0391}."[1..] == ".";
    assert "\U{FEFF}\U{233B4}"[1..] == "\U{233B4}";
  }
}
