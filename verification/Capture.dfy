/**
 The captured command sent with every sign request: redact, join, then cut to 2048 bytes
 (internal/infisical/signing_context.go). The cut works on bytes; on valid UTF-8 it is proved to be a cut
 between characters.
 */
module Capture {
  import opened Bytes
  import opened Utf8
  import opened Redaction
  import opened CommandLine

  const MAX_COMMAND_LEN := 2048

  // ---- The byte loop -----------------------------------------------------------------------------

  /** The last position at or before `cut` that starts a character; 0 when there is none. */
  function CharStart(command: seq<byte>, cut: nat): (start: nat)
    requires cut < |command|
    ensures start <= cut
    ensures start == 0 || RuneStart(command[start])
    ensures forall i :: start < i <= cut ==> !RuneStart(command[i])
  {
    if cut == 0 || RuneStart(command[cut]) then cut else CharStart(command, cut - 1)
  }

  function Truncated(command: seq<byte>, limit: nat := MAX_COMMAND_LEN): seq<byte> {
    if |command| <= limit then command else command[..CharStart(command, limit)]
  }

  method TruncateCommand(command: seq<byte>) returns (result: seq<byte>)
    ensures result == Truncated(command)
  {
    if |command| <= MAX_COMMAND_LEN {
      return command;
    }
    var cut := MAX_COMMAND_LEN;
    while cut > 0 && !RuneStart(command[cut])
      invariant 0 <= cut <= MAX_COMMAND_LEN
      invariant CharStart(command, cut) == CharStart(command, MAX_COMMAND_LEN)
    {
      cut := cut - 1;
    }
    result := command[..cut];
  }

  // ---- Cutting bytes is cutting characters -------------------------------------------------------

  /** The longest run of leading characters whose encoding fits in `limit` bytes. */
  function FittingPrefix(s: string, limit: int): string {
    if s == "" || |Encode(s[0])| > limit then ""
    else [s[0]] + FittingPrefix(s[1..], limit - |Encode(s[0])|)
  }

  lemma {:induction false} FittingPrefixIsLongest(s: string, limit: nat)
    ensures FittingPrefix(s, limit) <= s
    ensures |EncodeAll(FittingPrefix(s, limit))| <= limit
    ensures |EncodeAll(s)| > limit ==> |EncodeAll(FittingPrefix(s, limit))| >= limit - 3
    ensures |EncodeAll(s)| <= limit ==> FittingPrefix(s, limit) == s
    ensures forall k :: 0 <= k <= |s| && |EncodeAll(s[..k])| <= limit ==> k <= |FittingPrefix(s, limit)|
    decreases |s|
  {
    if s == "" {
    } else if |Encode(s[0])| > limit {
      forall k | 0 < k <= |s| ensures |EncodeAll(s[..k])| > limit {
        assert s[..k][0] == s[0];
      }
    } else {
      var rest := limit - |Encode(s[0])|;
      FittingPrefixIsLongest(s[1..], rest);
      assert s == [s[0]] + s[1..];
      assert FittingPrefix(s, limit)[1..] == FittingPrefix(s[1..], rest);
      forall k | 0 < k <= |s| && |EncodeAll(s[..k])| <= limit ensures k <= |FittingPrefix(s, limit)| {
        assert s[..k][1..] == s[1..][..k - 1];
      }
    }
  }

  /** Backing up inside the bytes after the first character stays inside them. */
  lemma {:induction false} CharStartShift(head: seq<byte>, tail: seq<byte>, cut: nat)
    requires cut < |tail| && RuneStart(tail[0])
    ensures CharStart(head + tail, |head| + cut) == |head| + CharStart(tail, cut)
    decreases cut
  {
    assert (head + tail)[|head| + cut] == tail[cut];
    if cut > 0 && !RuneStart(tail[cut]) {
      CharStartShift(head, tail, cut - 1);
    }
  }

  /** Inside one encoded character the loop backs up to its first byte. */
  lemma CharStartInside(c: char, tail: seq<byte>, cut: nat)
    requires cut < |Encode(c)|
    ensures CharStart(Encode(c) + tail, cut) == 0
  {
  }

  /** One character more in front, of the encoding and of the prefix that fits. */
  lemma FirstCharacter(s: string, limit: int)
    requires s != ""
    ensures EncodeAll(s) == Encode(s[0]) + EncodeAll(s[1..])
    ensures |Encode(s[0])| > limit ==> EncodeAll(FittingPrefix(s, limit)) == []
    ensures |Encode(s[0])| <= limit ==>
              EncodeAll(FittingPrefix(s, limit)) ==
              Encode(s[0]) + EncodeAll(FittingPrefix(s[1..], limit - |Encode(s[0])|))
    ensures EncodeAll(s[1..]) != [] ==> RuneStart(EncodeAll(s[1..])[0])
  {
    hide Encode;
    if |Encode(s[0])| <= limit {
      assert FittingPrefix(s, limit)[1..] == FittingPrefix(s[1..], limit - |Encode(s[0])|);
    }
    if EncodeAll(s[1..]) != [] {
      assert EncodeAll(s[1..])[0] == Encode(s[1..][0])[0];
    }
  }

  lemma {:induction false} CharStartIsBoundary(s: string, limit: nat)
    requires limit < |EncodeAll(s)|
    ensures EncodeAll(s)[..CharStart(EncodeAll(s), limit)] == EncodeAll(FittingPrefix(s, limit))
    decreases |s|
  {
    assert s != "";
    FirstCharacter(s, limit);
    hide *;
    var head, tail := Encode(s[0]), EncodeAll(s[1..]);
    if limit < |head| {
      CharStartInside(s[0], tail, limit);
    } else {
      var rest := limit - |head|;
      CharStartIsBoundary(s[1..], rest);
      CharStartShift(head, tail, rest);
      var n := CharStart(tail, rest);
      assert (head + tail)[..|head| + n] == head + tail[..n];
    }
  }

  /** On valid UTF-8 the byte cut is the character cut. */
  lemma TruncationCutsCharacters(s: string, limit: nat)
    ensures Truncated(EncodeAll(s), limit) == EncodeAll(FittingPrefix(s, limit))
  {
    FittingPrefixIsLongest(s, limit);
    if |EncodeAll(s)| > limit {
      CharStartIsBoundary(s, limit);
    }
  }

  /**
   The truncated command is the encoding of the longest run of whole characters that fits, loses at
   most three bytes of room, and is not shortened again.
   */
  lemma TruncationOfText(s: string)
    ensures var prefix := FittingPrefix(s, MAX_COMMAND_LEN);
            && prefix <= s
            && Truncated(EncodeAll(s)) == EncodeAll(prefix)
            && |Truncated(EncodeAll(s))| <= 2048
            && (forall k :: 0 <= k <= |s| && |EncodeAll(s[..k])| <= 2048 ==> k <= |prefix|)
    ensures |EncodeAll(s)| > 2048 ==> |Truncated(EncodeAll(s))| >= 2045
    ensures Truncated(Truncated(EncodeAll(s))) == Truncated(EncodeAll(s))
  {
    FittingPrefixIsLongest(s, MAX_COMMAND_LEN);
    TruncationCutsCharacters(s, MAX_COMMAND_LEN);
  }

  // ---- The pipeline ------------------------------------------------------------------------------

  function Captured(args: seq<string>): seq<byte> {
    Truncated(EncodeAll(Joined(Redacted(args))))
  }

  method CaptureCommand(args: seq<string>) returns (command: seq<byte>)
    ensures command == Captured(args)
  {
    var redacted := RedactCommandArgs(args);
    var line := JoinCommandArgs(redacted);
    command := TruncateCommand(EncodeAll(line));
  }

  predicate FitsUncut(args: seq<string>) {
    |EncodeAll(Joined(Redacted(args)))| <= MAX_COMMAND_LEN
  }

  /** Command lines that differ only in credentials are captured alike, cut or not, quotes or not. */
  lemma CaptureHidesCredentials(a: seq<string>, b: seq<string>)
    requires DifferOnlyInCredentials(a, b)
    ensures Captured(a) == Captured(b)
  {
    RedactionKernel(a, b);
  }

  lemma RedactionAddsNoQuotes(args: seq<string>)
    requires NoQuotes(args)
    ensures NoQuotes(Redacted(args))
  {
  }

  /** An uncut capture of arguments without quotes shows the whole redacted list and nothing of the credentials. */
  lemma CaptureShowsTheRest(a: seq<string>, b: seq<string>)
    requires NoQuotes(a) && NoQuotes(b) && FitsUncut(a) && FitsUncut(b)
    ensures Captured(a) == Captured(b) <==> DifferOnlyInCredentials(a, b)
  {
    RedactionKernel(a, b);
    RedactionAddsNoQuotes(a);
    RedactionAddsNoQuotes(b);
    if Captured(a) == Captured(b) {
      EncodingIsInjective(Joined(Redacted(a)), Joined(Redacted(b)));
      JoiningIsInjective(Redacted(a), Redacted(b));
    }
  }

  /**
   What is captured is the redacted line's encoding, whole if that has at most 2048 bytes, and else its longest
   beginning of at most 2048 bytes that ends between two characters.
   */
  lemma CapturedIsBeginning(args: seq<string>)
    ensures var line := Joined(Redacted(args));
            && Captured(args) <= EncodeAll(line) && |Captured(args)| <= 2048
            && (|EncodeAll(line)| <= 2048 ==> Captured(args) == EncodeAll(line))
            && (|EncodeAll(line)| > 2048 ==> |Captured(args)| >= 2045)
            && exists n: nat :: n <= |line| && Captured(args) == EncodeAll(line[..n])
                                && (n < |line| ==> |EncodeAll(line[..n + 1])| > 2048)
  {
    hide Joined, Redacted, FittingPrefix, CharStart, Encode;
    var line := Joined(Redacted(args));
    TruncationOfText(line);
    FittingPrefixIsLongest(line, 2048);
    var n := |FittingPrefix(line, 2048)|;
    assert line[..n] == FittingPrefix(line, 2048);
    assert n < |line| ==> |EncodeAll(line[..n + 1])| > 2048;
    assert Captured(args) == EncodeAll(line[..n]);
  }
}
