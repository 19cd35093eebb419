/**
 The parts of Go's `strings` package that command capture relies on. A string is a sequence of
 Unicode scalar values, which is what a valid UTF-8 Go string denotes.
 */
module Strings {

  /** strings.Index for a one-character separator. */
  function IndexOf(s: string, c: char): (i: int)
    ensures -1 <= i < |s|
    ensures i == -1 <==> c !in s
    ensures i >= 0 ==> s[i] == c && c !in s[..i]
  {
    if s == [] then -1
    else if s[0] == c then 0
    else
      var rest := IndexOf(s[1..], c);
      if rest == -1 then -1
      else
        assert s[..rest + 1] == [s[0]] + s[1..][..rest];
        rest + 1
  }

  /** Two strings with the same separator-free head before a separator split at the same place. */
  lemma IndexOfHead(head: string, c: char, tail: string)
    requires c !in head
    ensures IndexOf(head + [c] + tail, c) == |head|
  {
    var s := head + [c] + tail;
    assert s[|head|] == c;
    forall j | 0 <= j < |head| ensures s[j] != c {
      assert head[j] in head;
    }
    assert forall k :: |head| < k <= |s| ==> s[..k][|head|] == c;
  }

  /** strings.LastIndexAny. */
  function LastIndexAny(s: string, chars: set<char>): (i: int)
    ensures -1 <= i < |s|
    ensures i >= 0 ==> s[i] in chars
    ensures forall j :: i < j < |s| ==> s[j] !in chars
  {
    if s == [] then -1
    else if s[|s| - 1] in chars then |s| - 1
    else LastIndexAny(s[..|s| - 1], chars)
  }

  /** strings.HasSuffix. */
  predicate HasSuffix(s: string, suffix: string) {
    |suffix| <= |s| && s[|s| - |suffix|..] == suffix
  }

  /** A suffix without the separator looks only at what follows the separator. */
  lemma SuffixAfterSeparator(head: string, c: char, tail: string, suffix: string)
    requires c !in suffix
    ensures HasSuffix(head + [c] + tail, suffix) <==> HasSuffix(tail, suffix)
  {
    var s := head + [c] + tail;
    if |suffix| <= |tail| {
      assert s[|s| - |suffix|..] == tail[|tail| - |suffix|..];
    } else if |suffix| <= |s| {
      assert s[|head|] == c;
      assert s[|s| - |suffix|..][|head| - (|s| - |suffix|)] == c;
    }
  }

  /**
   unicode.ToLower, as far as it can yield an ASCII character: the ASCII capitals, U+0130 (capital I
   with dot above, to 'i') and U+212A (the Kelvin sign, to 'k'). Other characters lower to non-ASCII
   characters; they are left alone here, since the lowered name is only ever compared with ASCII.
   */
  function LowerRune(c: char): char {
    if 'A' <= c <= 'Z' then (c as int + 32) as char
    else if c == '\U{0130}' then 'i'
    else if c == '\U{212A}' then 'k'
    else c
  }

  /** strings.ToLower. */
  function ToLower(s: string): (r: string)
    ensures |r| == |s|
  {
    seq(|s|, i requires 0 <= i < |s| => LowerRune(s[i]))
  }

  lemma ToLowerConcat(a: string, b: string)
    ensures ToLower(a + b) == ToLower(a) + ToLower(b)
  {
  }

  /** strings.Join. */
  function JoinStrings(parts: seq<string>, sep: string): string {
    if parts == [] then ""
    else if |parts| == 1 then parts[0]
    else parts[0] + sep + JoinStrings(parts[1..], sep)
  }
}
