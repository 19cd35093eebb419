/**
 What counts as a credential on a command line, written out (internal/infisical/signing_context.go): ten flag words,
 three suffixes, case letter by letter. The redaction is proved to hide exactly the text these name.
 */
module CredentialWords {
  import opened Strings
  import opened Redaction

  // ---- Spelling ----------------------------------------------------------------------------------

  /** The letter, its ASCII capital, or one of the two other characters whose lower case it is. */
  predicate SpelledChar(c: char, letter: char) {
    || c == letter
    || c as int == letter as int - 32
    || (letter == 'i' && c == '\U{0130}')
    || (letter == 'k' && c == '\U{212A}')
  }

  predicate Spelled(s: string, word: string) {
    |s| == |word| && forall i :: 0 <= i < |word| ==> SpelledChar(s[i], word[i])
  }

  predicate EndSpelled(s: string, word: string) {
    |word| <= |s| && Spelled(s[|s| - |word|..], word)
  }

  predicate CredentialWord(name: string) {
    || Spelled(name, "storepass") || Spelled(name, "keypass")
    || Spelled(name, "pass") || Spelled(name, "passin") || Spelled(name, "passout")
    || Spelled(name, "password") || Spelled(name, "passphrase")
    || Spelled(name, "pin") || Spelled(name, "p") || Spelled(name, "pw")
  }

  predicate CredentialEnding(name: string) {
    EndSpelled(name, "password") || EndSpelled(name, "passphrase") || EndSpelled(name, "passwd")
  }

  predicate CredentialName(name: string) {
    CredentialWord(name) || CredentialEnding(name)
  }

  lemma SpelledIsLowered(s: string, word: string)
    requires forall i :: 0 <= i < |word| ==> 'a' <= word[i] <= 'z'
    ensures Spelled(s, word) <==> ToLower(s) == word
  {
    forall i | 0 <= i < |s| && |s| == |word|
      ensures SpelledChar(s[i], word[i]) <==> ToLower(s)[i] == word[i]
    {
    }
  }

  lemma EndSpelledIsSuffix(s: string, word: string)
    requires forall i :: 0 <= i < |word| ==> 'a' <= word[i] <= 'z'
    ensures EndSpelled(s, word) <==> HasSuffix(ToLower(s), word)
  {
    if |word| <= |s| {
      var n := |s| - |word|;
      SpelledIsLowered(s[n..], word);
      assert ToLower(s)[n..] == ToLower(s[n..]);
    }
  }

  lemma CredentialWordIff(name: string)
    ensures CredentialWord(name) <==> ToLower(name) in SECRET_FLAGS
  {
    hide Spelled, ToLower;
    SpelledIsLowered(name, "storepass");
    SpelledIsLowered(name, "keypass");
    SpelledIsLowered(name, "pass");
    SpelledIsLowered(name, "passin");
    SpelledIsLowered(name, "passout");
    SpelledIsLowered(name, "password");
    SpelledIsLowered(name, "passphrase");
    SpelledIsLowered(name, "pin");
    SpelledIsLowered(name, "p");
    SpelledIsLowered(name, "pw");
  }

  lemma CredentialEndingIff(name: string)
    ensures CredentialEnding(name) <==> HasSecretSuffix(ToLower(name))
  {
    hide EndSpelled, ToLower, HasSuffix;
    EndSpelledIsSuffix(name, "password");
    EndSpelledIsSuffix(name, "passphrase");
    EndSpelledIsSuffix(name, "passwd");
  }

  // ---- Names with something in front -------------------------------------------------------------

  lemma SuffixesHaveNoSeparator(head: string, c: char, tail: string)
    requires !('a' <= c <= 'z')
    ensures HasSecretSuffix(head + [c] + tail) <==> HasSecretSuffix(tail)
  {
    hide HasSuffix;
    SuffixAfterSeparator(head, c, tail, "password");
    SuffixAfterSeparator(head, c, tail, "passphrase");
    SuffixAfterSeparator(head, c, tail, "passwd");
  }

  lemma WordsAreLetters(name: string, i: int)
    requires name in SECRET_FLAGS && 0 <= i < |name|
    ensures 'a' <= name[i] <= 'z'
  {
  }

  lemma EmptyNameIsNone()
    ensures !CredentialName("") && "" !in SECRET_FLAGS && !HasSecretSuffix("")
  {
  }

  // ---- Flags -------------------------------------------------------------------------------------

  /** A marker followed by a credential name. */
  predicate CredentialFlag(token: string) {
    || ("--" <= token && CredentialName(token[2..]))
    || ("-" <= token && CredentialName(token[1..]))
    || ("/" <= token && CredentialName(token[1..]))
  }

  /** A second dash in front of a name makes no name. */
  lemma DashedName(name: string)
    ensures CredentialName("-" + name) ==> CredentialName(name)
  {
    var dashed := "-" + name;
    CredentialWordIff(dashed);
    CredentialEndingIff(dashed);
    CredentialEndingIff(name);
    ToLowerConcat("-", name);
    assert ToLower("-") == "-";
    assert ToLower(dashed) == "" + ['-'] + ToLower(name);
    SuffixesHaveNoSeparator("", '-', ToLower(name));
    hide CredentialWord, CredentialEnding, HasSecretSuffix, ToLower;
    if ToLower(dashed) in SECRET_FLAGS {
      WordsAreLetters(ToLower(dashed), 0);
    }
  }

  lemma FlagIff(token: string)
    ensures IsSecretFlagName(FlagName(token), false) <==> CredentialFlag(token)
  {
    hide CredentialWord, CredentialEnding, HasSecretSuffix, ToLower;
    EmptyNameIsNone();
    assert ToLower("") == "" by { EmptyLowered(); }
    if "--" <= token {
      assert token[1..] == "-" + token[2..];
      DashedName(token[2..]);
      CredentialWordIff(token[2..]);
      CredentialEndingIff(token[2..]);
    } else if "-" <= token || "/" <= token {
      CredentialWordIff(token[1..]);
      CredentialEndingIff(token[1..]);
    }
  }

  lemma EmptyLowered()
    ensures ToLower("") == ""
  {
  }

  // ---- key=value ---------------------------------------------------------------------------------

  /** What follows a marker, or the whole key when it has none. */
  function AfterMarker(key: string): string {
    if "--" <= key then key[2..] else if "-" <= key || "/" <= key then key[1..] else key
  }

  /** The last part of a colon-, dot- or underscore-separated name starts at i. */
  predicate LastPartAt(name: string, i: int) {
    && 0 <= i <= |name|
    && (i == 0 || name[i - 1] in {':', '.', '_'})
    && forall j :: i <= j < |name| ==> name[j] !in {':', '.', '_'}
  }

  /** The last part of the key's name is a credential name. */
  ghost predicate CredentialKey(key: string) {
    var name := AfterMarker(key);
    exists i :: LastPartAt(name, i) && CredentialName(name[i..])
  }

  lemma LastPartIsLastIndex(name: string) returns (i: int)
    ensures LastPartAt(name, i) && i == LastIndexAny(ToLower(name), {':', '.', '_'}) + 1
    ensures forall j :: LastPartAt(name, j) ==> j == i
    ensures ToLower(name)[i..] == ToLower(name[i..])
    ensures i > 0 ==> ToLower(name)[i - 1] == name[i - 1]
  {
    i := LastIndexAny(ToLower(name), {':', '.', '_'}) + 1;
    forall j | 0 <= j < |name|
      ensures name[j] in {':', '.', '_'} <==> ToLower(name)[j] in {':', '.', '_'}
      ensures name[j] in {':', '.', '_'} ==> ToLower(name)[j] == name[j]
    {
    }
  }

  /** A credential name stays one when its owner is taken off. */
  lemma NameIffPart(name: string)
    ensures IsSecretFlagName(ToLower(name), true) <==> exists i :: LastPartAt(name, i) && CredentialName(name[i..])
  {
    var lowered := ToLower(name);
    var i := LastPartIsLastIndex(name);
    CredentialWordIff(name[i..]);
    CredentialEndingIff(name[i..]);
    EmptyNameIsNone();
    EmptyLowered();
    hide CredentialWord, CredentialEnding, HasSecretSuffix, ToLower, LastPartAt;
    if i > 0 {
      assert lowered == lowered[..i - 1] + [lowered[i - 1]] + lowered[i..];
      SuffixesHaveNoSeparator(lowered[..i - 1], lowered[i - 1], lowered[i..]);
      if lowered in SECRET_FLAGS {
        WordsAreLetters(lowered, i - 1);
      }
    }
    assert LastPartAt(name, i);
  }

  lemma AssignmentIff(key: string, value: string)
    requires '=' !in key
    ensures IsSecret(key + "=" + value) <==> CredentialKey(key)
  {
    KeyOfInline(key, value);
    NameIffPart(AfterMarker(key));
    BareMarkerIsNone(key);
    hide IsSecretFlagName, CredentialName, LastPartAt;
  }

  lemma BareMarkerIsNone(key: string)
    ensures AfterMarker(key) == "" || FlagName(key) != "" || AfterMarker(key) == key
    ensures AfterMarker(key) == "" ==>
              !IsSecretFlagName(ToLower(key), true) && !IsSecretFlagName(ToLower(AfterMarker(key)), true)
  {
    if AfterMarker(key) == "" {
      EmptyLowered();
      if key != "" {
        var lowered := ToLower(key);
        assert forall i :: 0 <= i < |lowered| ==> lowered[i] in {'-', '/'};
        assert LastIndexAny(lowered, {':', '.', '_'}) == -1;
        assert lowered[0..] == lowered;
        if lowered in SECRET_FLAGS { WordsAreLetters(lowered, 0); }
      }
    }
  }

  // ---- What redaction shows of a command line ----------------------------------------------------

  /** The argument is a credential flag whose value is the next argument. */
  predicate TakesNext(arg: string) {
    '=' !in arg && CredentialFlag(arg)
  }

  /** The argument gives a credential a value after its first '=', which is at k. */
  ghost predicate AssignsAt(arg: string, k: int) {
    0 <= k < |arg| && arg[k] == '=' && '=' !in arg[..k] && CredentialKey(arg[..k])
  }

  /** The argument is a credential flag followed by its first colon, at c, and no '='. */
  predicate ColonAt(arg: string, c: int) {
    '=' !in arg && 0 <= c < |arg| && arg[c] == ':' && ':' !in arg[..c] && CredentialFlag(arg[..c])
  }

  lemma TakesNextIff(arg: string)
    ensures TakesNext(arg) <==> TakesValue(arg)
  {
    FlagIff(arg);
    BareFlagIsSecret(arg);
    TakesValueDef(arg);
    HasInlineDef(arg);
    hide CredentialFlag, TakesValue, HasInlineValue, IsSecret, IsSecretFlagName, FlagName;
  }

  lemma HasInlineDef(arg: string)
    ensures HasInlineValue(arg) <==> '=' in arg
  {
  }

  lemma AssignsAtIff(arg: string, k: int)
    requires 0 <= k < |arg| && arg[k] == '=' && '=' !in arg[..k]
    ensures AssignsAt(arg, k) <==> IsSecret(arg)
    ensures HasInlineValue(arg) && KeyOf(arg) == arg[..k]
  {
    hide IsSecret, CredentialKey;
    assert arg == arg[..k] + "=" + arg[k + 1..];
    KeyOfInline(arg[..k], arg[k + 1..]);
    AssignmentIff(arg[..k], arg[k + 1..]);
  }

  lemma FirstColon(arg: string, c: int)
    requires 0 <= c < |arg| && arg[c] == ':' && ':' !in arg[..c]
    ensures IndexOf(arg, ':') == c
  {
    assert arg == arg[..c] + [':'] + arg[c + 1..];
    IndexOfHead(arg[..c], ':', arg[c + 1..]);
  }

  /**
   Every argument of every command line: a credential flag stays; a credential assignment keeps its key;
   else the argument after a credential flag is hidden whole; else a credential flag with a colon keeps
   what is up to the colon; and everything else is kept as it is.
   */
  lemma RedactedExactly(args: seq<string>, i: int)
    requires 0 <= i < |args|
    ensures var arg, out := args[i], Redacted(args)[i];
            var isValue := i > 0 && TakesNext(args[i - 1]);
            && (TakesNext(arg) ==> out == arg)
            && (forall k :: AssignsAt(arg, k) ==> out == arg[..k] + "=***")
            && (!TakesNext(arg) && (forall k :: !AssignsAt(arg, k)) ==>
                  && (isValue ==> out == "***")
                  && (forall c :: !isValue && ColonAt(arg, c) ==> out == arg[..c] + ":***")
                  && (!isValue && (forall c :: !ColonAt(arg, c)) ==> out == arg))
  {
    var arg := args[i];
    var isValue := InValuePosition(args, i);
    RedactedStep(args, i);
    TakesNextIff(arg);
    TakesValueDef(arg);
    HasInlineDef(arg);
    if i > 0 { TakesNextIff(args[i - 1]); }
    RedactArgCases(arg, isValue);
    RedactedAt(args, i);
    ColonCases(arg);
    if '=' in arg {
      FirstEquals(arg);
      AssignsAtIff(arg, IndexOf(arg, '='));
    }
    forall k | AssignsAt(arg, k) ensures Redacted(args)[i] == arg[..k] + "=***" {
      AssignsAtIff(arg, k);
      Appended(arg[..k], "=", REDACTED);
    }
    forall c | !IsSecret(arg) && ColonAt(arg, c)
      ensures CarriesColonValue(arg) && IndexOf(arg, ':') == c && ColonFlag(arg) + ":" + REDACTED == arg[..c] + ":***"
    {
      ColonIsCarried(arg, c);
      Appended(arg[..c], ":", REDACTED);
    }
    hide *;
  }

  lemma RedactedAt(args: seq<string>, i: int)
    requires 0 <= i < |args|
    ensures Redacted(args)[i] == RedactArg(args[i], InValuePosition(args, i))
    ensures InValuePosition(args, i) <==> i > 0 && TakesValue(args[i - 1])
  {
  }

  lemma Appended(head: string, mark: string, tail: string)
    requires mark in {"=", ":"} && tail == REDACTED
    ensures head + mark + tail == head + (mark + "***")
    ensures mark + "***" == if mark == "=" then "=***" else ":***"
  {
  }

  lemma FirstEquals(arg: string)
    requires '=' in arg
    ensures var k := IndexOf(arg, '='); 0 <= k < |arg| && arg[k] == '=' && '=' !in arg[..k]
  {
  }

  /** The third rewrite and the colon form are the same. */
  lemma ColonIsCarried(arg: string, c: int)
    requires ColonAt(arg, c) && !IsSecret(arg)
    ensures CarriesColonValue(arg) && IndexOf(arg, ':') == c && ColonFlag(arg) == arg[..c]
  {
    hide IsSecret, CredentialFlag, HasSecretSuffix, IsSecretFlagName;
    FirstColon(arg, c);
    FlagIff(arg[..c]);
    assert arg == arg[..c] + ":" + arg[c + 1..];
    assert arg[..c] != "" && FlagName(arg[..c]) != "" by { NoFlagIsNone(arg[..c]); }
    ColonFormSecret(arg[..c], arg[c + 1..]);
  }

  lemma NoFlagIsNone(flag: string)
    ensures IsSecretFlagName(FlagName(flag), false) ==> flag != "" && FlagName(flag) != ""
  {
  }

  lemma ColonCases(arg: string)
    ensures CarriesColonValue(arg) ==> IndexOf(arg, ':') > 0 && ColonAt(arg, IndexOf(arg, ':'))
  {
    hide CredentialFlag, HasSecretSuffix, IsSecretFlagName;
    if CarriesColonValue(arg) {
      FlagIff(ColonFlag(arg));
    }
  }

  /** Neither a credential flag, nor a credential assignment, nor a credential flag with a colon. */
  ghost predicate Ordinary(arg: string) {
    !TakesNext(arg) && (forall k :: !AssignsAt(arg, k)) && (forall c :: !ColonAt(arg, c))
  }

  /** An ordinary argument is hidden after a credential flag and kept everywhere else. */
  lemma OrdinaryArgument(args: seq<string>, i: int)
    requires 0 <= i < |args| && Ordinary(args[i])
    ensures Redacted(args)[i] == if i > 0 && TakesNext(args[i - 1]) then "***" else args[i]
  {
    RedactedExactly(args, i);
    hide AssignsAt, ColonAt, TakesNext, Redacted;
  }

  // ---- Sample command lines ----------------------------------------------------------------------

  /** A flag of one or two letters is a credential only as p or pw. */
  lemma ShortFlagIsOrdinary(token: string)
    requires 2 <= |token| <= 3 && token[0] == '/' && '=' !in token && ':' !in token
    requires !Spelled(token[1..], "p") && !Spelled(token[1..], "pw")
    ensures Ordinary(token)
  {
  }

  lemma BareWordIsOrdinary(token: string)
    requires token != "" && token[0] != '-' && token[0] != '/' && '=' !in token && ':' !in token
    ensures Ordinary(token)
  {
  }

  /** A mixed-case flag hides its value. */
  lemma MixedCaseFlag()
    ensures Redacted(["tool", "-PassIn", "s3cret"]) == ["tool", "-PassIn", "***"]
  {
    hide *;
    var args := ["tool", "-PassIn", "s3cret"];
    PassInIsFlag();
    BareWordIsOrdinary("tool");
    BareWordIsOrdinary("s3cret");
    OrdinaryArgument(args, 0);
    OrdinaryArgument(args, 2);
    RedactedExactly(args, 1);
  }

  /** signtool's own flags and their values are kept. */
  lemma OrdinaryCommandLine()
    ensures Redacted(["signtool", "/fd", "SHA256", "/f", "cert"]) == ["signtool", "/fd", "SHA256", "/f", "cert"]
  {
    hide *;
    var args := ["signtool", "/fd", "SHA256", "/f", "cert"];
    OrdinaryFlags();
    OrdinaryWords();
    OrdinaryTakesNothing("signtool");
    OrdinaryTakesNothing("/fd");
    OrdinaryTakesNothing("SHA256");
    OrdinaryTakesNothing("/f");
    OrdinaryArgument(args, 0);
    OrdinaryArgument(args, 1);
    OrdinaryArgument(args, 2);
    OrdinaryArgument(args, 3);
    OrdinaryArgument(args, 4);
  }

  lemma OrdinaryTakesNothing(arg: string)
    ensures Ordinary(arg) ==> !TakesNext(arg)
  {
  }

  lemma PassInIsFlag()
    ensures TakesNext("-PassIn")
  {
    assert "-PassIn"[0] == '-' && "-PassIn"[1..] == "PassIn";
    assert Spelled("PassIn", "passin");
    assert "-" <= "-PassIn";
  }

  lemma OrdinaryFlags()
    ensures Ordinary("/fd") && Ordinary("/f")
  {
    hide Ordinary;
    assert "/fd"[1..] == "fd" && "/f"[1..] == "f";
    assert "fd"[0] == 'f' && "f"[0] == 'f';
    ShortFlagIsOrdinary("/fd");
    ShortFlagIsOrdinary("/f");
  }

  lemma OrdinaryWords()
    ensures Ordinary("signtool") && Ordinary("SHA256") && Ordinary("cert")
  {
    hide Ordinary;
    BareWordIsOrdinary("signtool");
    BareWordIsOrdinary("SHA256");
    BareWordIsOrdinary("cert");
  }
}
