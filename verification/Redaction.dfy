/**
 Credential redaction of a command line (internal/infisical/signing_context.go). The loop carries one
 bit from argument to argument; it is proved to compute a pointwise function of adjacent arguments,
 and that function's exact kernel says which differences between command lines it hides.
 */
module Redaction {
  import opened Strings

  const REDACTED := "***"

  const SECRET_FLAGS: set<string> := {
    "storepass", "keypass", "pass", "passin", "passout", "password", "passphrase", "pin", "p", "pw"
  }

  // ---- Classifying one argument ------------------------------------------------------------------

  /** The lower-cased flag name, or "" for a token that is not a flag. */
  function FlagName(token: string): string {
    if "--" <= token then ToLower(token[2..])
    else if "-" <= token || "/" <= token then ToLower(token[1..])
    else ""
  }

  predicate HasSecretSuffix(name: string) {
    HasSuffix(name, "password") || HasSuffix(name, "passphrase") || HasSuffix(name, "passwd")
  }

  predicate IsSecretFlagName(name: string, hasInlineValue: bool) {
    if name == "" then false
    else if name in SECRET_FLAGS || HasSecretSuffix(name) then true
    else if !hasInlineValue then false
    else
      var subKey := name[LastIndexAny(name, {':', '.', '_'}) + 1..];
      subKey in SECRET_FLAGS || HasSecretSuffix(subKey)
  }

  predicate HasInlineValue(arg: string) {
    '=' in arg
  }

  /** The text before the first '=', or the whole argument. */
  function KeyOf(arg: string): (key: string)
    ensures '=' !in key
    ensures !HasInlineValue(arg) ==> key == arg
  {
    if IndexOf(arg, '=') == -1 then arg else arg[..IndexOf(arg, '=')]
  }

  function NameOf(key: string, hasInlineValue: bool): string {
    var name := FlagName(key);
    if name == "" && hasInlineValue then ToLower(key) else name
  }

  /** The argument names a credential: with an inline value, or as a flag whose value follows. */
  predicate IsSecret(arg: string) {
    IsSecretFlagName(NameOf(KeyOf(arg), HasInlineValue(arg)), HasInlineValue(arg))
  }

  /** The argument is a credential flag that makes the next argument its value. */
  predicate TakesValue(arg: string) {
    IsSecret(arg) && !HasInlineValue(arg)
  }

  // ---- The stateless form ------------------------------------------------------------------------

  function RedactArg(arg: string, inValuePosition: bool): string {
    if IsSecret(arg) then
      if HasInlineValue(arg) then KeyOf(arg) + "=" + REDACTED else arg
    else if inValuePosition then REDACTED
    else
      var colon := IndexOf(arg, ':');
      if colon > 0 && !HasInlineValue(arg) && IsSecretFlagName(FlagName(arg[..colon]), false) then
        arg[..colon + 1] + REDACTED
      else arg
  }

  predicate InValuePosition(args: seq<string>, i: int)
    requires 0 <= i < |args|
  {
    i > 0 && TakesValue(args[i - 1])
  }

  function Redacted(args: seq<string>): (r: seq<string>)
    ensures |r| == |args|
  {
    seq(|args|, i requires 0 <= i < |args| => RedactArg(args[i], InValuePosition(args, i)))
  }

  // ---- The loop ----------------------------------------------------------------------------------

  /** One iteration, branch by branch, with the classification written as the loop computes it. */
  lemma RedactedStep(args: seq<string>, i: int)
    requires 0 <= i < |args|
    ensures
      var arg := args[i];
      var inline := HasInlineValue(arg);
      var name := if FlagName(KeyOf(arg)) == "" && inline then ToLower(KeyOf(arg)) else FlagName(KeyOf(arg));
      var secret := IsSecretFlagName(name, inline);
      var colon := IndexOf(arg, ':');
      && (TakesValue(arg) <==> secret && !inline)
      && Redacted(args)[i] ==
         if secret then (if inline then KeyOf(arg) + "=" + REDACTED else arg)
         else if i > 0 && TakesValue(args[i - 1]) then REDACTED
         else if colon > 0 && !inline && IsSecretFlagName(FlagName(arg[..colon]), false) then
           arg[..colon + 1] + REDACTED
         else arg
  {
  }

  /** The source's loop: clone the arguments, then rewrite the clone in place. */
  method RedactCommandArgs(args: seq<string>) returns (result: seq<string>)
    ensures result == Redacted(args)
  {
    hide *;
    var redacted := new string[|args|](i requires 0 <= i < |args| => args[i]);
    var redactValue := false;
    var i := 0;
    while i < redacted.Length
      invariant 0 <= i <= redacted.Length == |args| == |Redacted(args)|
      invariant redactValue <==> i > 0 && TakesValue(args[i - 1])
      invariant forall j :: i <= j < |args| ==> redacted[j] == args[j]
      invariant forall j :: 0 <= j < i ==> redacted[j] == Redacted(args)[j]
    {
      RedactedStep(args, i);
      var arg := redacted[i];
      var key, hasInlineValue := KeyOf(arg), HasInlineValue(arg);
      var name := FlagName(key);
      if name == "" && hasInlineValue {
        name := ToLower(key);
      }
      var isSecret := IsSecretFlagName(name, hasInlineValue);
      i := i + 1;

      if redactValue {
        redactValue := false;
        if !isSecret {
          redacted[i - 1] := REDACTED;
          continue;
        }
      }

      if isSecret {
        if hasInlineValue {
          redacted[i - 1] := key + "=" + REDACTED;
        } else {
          redactValue := true;
        }
        continue;
      }

      var colon := IndexOf(arg, ':');
      if colon > 0 && !hasInlineValue {
        var prefix := FlagName(arg[..colon]);
        if IsSecretFlagName(prefix, false) {
          redacted[i - 1] := arg[..colon + 1] + REDACTED;
        }
      }
    }
    result := redacted[..];
  }

  // ---- Names and rewritten arguments -------------------------------------------------------------

  lemma KeyOfInline(key: string, value: string)
    requires '=' !in key
    ensures HasInlineValue(key + "=" + value) && KeyOf(key + "=" + value) == key
  {
    IndexOfHead(key, '=', value);
    assert (key + "=" + value)[|key|] == '=';
  }

  lemma SecretNamesHaveNoColon(name: string)
    requires name in SECRET_FLAGS
    ensures ':' !in name
  {
  }

  /** A flag followed by a colon is still a flag, and its name is extended by the lower-cased text. */
  lemma FlagNameExtends(flag: string, text: string)
    requires FlagName(flag) != ""
    ensures FlagName(flag + ":" + text) == FlagName(flag) + ":" + ToLower(text)
  {
    var n := if "--" <= flag then 2 else 1;
    var whole := flag + ":" + text;
    assert whole[n..] == flag[n..] + (":" + text);
    assert |flag| >= 2;
    assert "--" <= whole <==> "--" <= flag;
    assert ("-" <= whole || "/" <= whole) <==> ("-" <= flag || "/" <= flag);
    ToLowerConcat(flag[n..], ":" + text);
    ToLowerConcat(":", text);
    assert ToLower(":") == ":";
    assert FlagName(flag) == ToLower(flag[n..]);
    assert FlagName(whole) == ToLower(whole[n..]);
    assert ToLower(flag[n..]) + (":" + ToLower(text)) == ToLower(flag[n..]) + ":" + ToLower(text);
  }

  /** "flag:text" without '=' is itself a credential flag exactly when its text has a secret suffix. */
  lemma ColonFormSecret(flag: string, text: string)
    requires FlagName(flag) != "" && '=' !in flag && '=' !in text
    ensures IsSecret(flag + ":" + text) <==> HasSecretSuffix(ToLower(text))
  {
    var arg := flag + ":" + text;
    var name := FlagName(flag) + ":" + ToLower(text);
    FlagNameExtends(flag, text);
    assert !HasInlineValue(arg);
    assert NameOf(KeyOf(arg), false) == name;
    assert name[|FlagName(flag)|] == ':';
    assert name !in SECRET_FLAGS by {
      if name in SECRET_FLAGS { SecretNamesHaveNoColon(name); }
    }
    forall suffix | suffix in {"password", "passphrase", "passwd"}
      ensures HasSuffix(name, suffix) <==> HasSuffix(ToLower(text), suffix)
    {
      SuffixAfterSeparator(FlagName(flag), ':', ToLower(text), suffix);
    }
  }

  /** The placeholder never ends in a secret suffix and is not a flag. */
  lemma PlaceholderIsPlain()
    ensures !IsSecret(REDACTED) && !HasSecretSuffix(ToLower(REDACTED)) && '=' !in REDACTED && ':' !in REDACTED
  {
    assert ToLower(REDACTED) == "***";
    assert REDACTED[0] == '*';
    assert FlagName(REDACTED) == "";
  }

  /** The third rewrite applies: a credential flag carries its value after the first colon. */
  predicate CarriesColonValue(arg: string) {
    && !HasInlineValue(arg)
    && IndexOf(arg, ':') > 0
    && IsSecretFlagName(FlagName(ColonFlag(arg)), false)
    && !HasSecretSuffix(ToLower(arg[IndexOf(arg, ':') + 1..]))
  }

  function ColonFlag(arg: string): string
    requires IndexOf(arg, ':') > 0
  {
    arg[..IndexOf(arg, ':')]
  }

  lemma SplitAtColon(arg: string)
    requires IndexOf(arg, ':') > 0
    ensures arg == ColonFlag(arg) + ":" + arg[IndexOf(arg, ':') + 1..]
  {
  }

  /** What the redaction does to one argument, in terms of the three rewrites. */
  lemma RedactArgCases(arg: string, inValuePosition: bool)
    ensures CarriesColonValue(arg) ==> !IsSecret(arg) && IndexOf(arg, ':') > 0
    ensures RedactArg(arg, inValuePosition) ==
            if IsSecret(arg) && HasInlineValue(arg) then KeyOf(arg) + "=" + REDACTED
            else if !IsSecret(arg) && inValuePosition then REDACTED
            else if !inValuePosition && CarriesColonValue(arg) then ColonFlag(arg) + ":" + REDACTED
            else arg
  {
    var colon := IndexOf(arg, ':');
    if colon > 0 && !HasInlineValue(arg) && IsSecretFlagName(FlagName(ColonFlag(arg)), false) {
      SplitAtColon(arg);
      ColonFormSecret(ColonFlag(arg), arg[colon + 1..]);
      assert arg[..colon + 1] == ColonFlag(arg) + ":";
    }
  }

  /** "flag:***" is again a colon form of the same flag. */
  lemma ColonPlaceholder(flag: string)
    requires IsSecretFlagName(FlagName(flag), false) && '=' !in flag && ':' !in flag
    ensures CarriesColonValue(flag + ":" + REDACTED) && ColonFlag(flag + ":" + REDACTED) == flag
  {
    PlaceholderIsPlain();
    IndexOfHead(flag, ':', REDACTED);
    var arg := flag + ":" + REDACTED;
    assert arg[|flag| + 1..] == REDACTED;
    assert arg[..|flag|] == flag;
    assert flag != "" && FlagName("") == "";
  }

  /** The three rewrites, each applied to an argument it has already rewritten. */
  lemma RewrittenForms(arg: string)
    ensures IsSecret(arg) && HasInlineValue(arg) ==>
            var out := KeyOf(arg) + "=" + REDACTED;
            IsSecret(out) && HasInlineValue(out) && KeyOf(out) == KeyOf(arg)
    ensures CarriesColonValue(arg) ==>
            var out := ColonFlag(arg) + ":" + REDACTED;
            CarriesColonValue(out) && ColonFlag(out) == ColonFlag(arg) && !IsSecret(out) && '=' !in out
    ensures !IsSecret(REDACTED) && !CarriesColonValue(REDACTED) && !HasInlineValue(REDACTED)
  {
    PlaceholderIsPlain();
    KeyOfInline(KeyOf(arg), REDACTED);
    if CarriesColonValue(arg) {
      SplitAtColon(arg);
      ColonPlaceholder(ColonFlag(arg));
      RedactArgCases(ColonFlag(arg) + ":" + REDACTED, false);
    }
  }

  // ---- Idempotence -------------------------------------------------------------------------------

  /** Rewriting one argument keeps its classification, and a second rewrite changes nothing. */
  lemma RedactArgStable(arg: string, inValuePosition: bool)
    ensures var out := RedactArg(arg, inValuePosition);
            RedactArg(out, inValuePosition) == out && (TakesValue(out) <==> TakesValue(arg))
  {
    var out := RedactArg(arg, inValuePosition);
    RewrittenForms(arg);
    RedactArgCases(arg, inValuePosition);
    RedactArgCases(out, inValuePosition);
    hide *;
    assert TakesValue(arg) <==> IsSecret(arg) && !HasInlineValue(arg) by { TakesValueDef(arg); }
    assert TakesValue(out) <==> IsSecret(out) && !HasInlineValue(out) by { TakesValueDef(out); }
  }

  lemma TakesValueDef(arg: string)
    ensures TakesValue(arg) <==> IsSecret(arg) && !HasInlineValue(arg)
  {
  }

  /** Redacting an already redacted command line changes nothing, whatever the arguments. */
  lemma RedactionIsIdempotent(args: seq<string>)
    ensures Redacted(Redacted(args)) == Redacted(args)
  {
    hide RedactArg, TakesValue;
    var once := Redacted(args);
    forall i | 0 <= i < |args|
      ensures Redacted(once)[i] == once[i]
      ensures InValuePosition(once, i) <==> InValuePosition(args, i)
    {
      RedactArgStable(args[i], InValuePosition(args, i));
      if i > 0 {
        RedactArgStable(args[i - 1], InValuePosition(args, i - 1));
      }
    }
  }

  /** Every output is the argument itself, the placeholder, or a prefix of the argument and the placeholder. */
  lemma RedactionShape(args: seq<string>, i: int)
    requires 0 <= i < |args|
    ensures var out := Redacted(args)[i];
            || out == args[i]
            || out == REDACTED
            || (exists n :: 0 < n <= |args[i]| && out == args[i][..n] + REDACTED && args[i][n - 1] in {'=', ':'})
  {
    var arg, inValuePosition := args[i], InValuePosition(args, i);
    assert Redacted(args)[i] == RedactArg(arg, inValuePosition);
    hide *;
    RedactArgCases(arg, inValuePosition);
    if IsSecret(arg) && HasInlineValue(arg) {
      assert Redacted(args)[i] == arg[..KeyEnd(arg)] + REDACTED;
    } else if !inValuePosition && CarriesColonValue(arg) {
      assert Redacted(args)[i] == arg[..ColonEnd(arg)] + REDACTED;
    }
  }

  /** The position after the first '='. */
  function KeyEnd(arg: string): (n: int)
    requires HasInlineValue(arg)
    ensures 0 < n <= |arg| && arg[n - 1] == '=' && arg[..n] == KeyOf(arg) + "="
  {
    IndexOf(arg, '=') + 1
  }

  /** The position after the first colon, which something precedes. */
  function ColonEnd(arg: string): (n: int)
    requires IndexOf(arg, ':') > 0
    ensures 0 < n <= |arg| && arg[n - 1] == ':' && arg[..n] == ColonFlag(arg) + ":"
  {
    IndexOf(arg, ':') + 1
  }

  // ---- What redaction hides, exactly -------------------------------------------------------------

  /**
   Two arguments that differ only in credential text: (a) after the first '=' of the same secret key,
   (b) as the value of a preceding credential flag, unless the value is itself spelled like a
   credential argument, or (c) after the first colon of the same credential flag, when neither text
   contains '=' or ends in a secret suffix.
   */
  predicate DifferOnlyInCredential(a: string, b: string, inValuePosition: bool) {
    || a == b
    || (HasInlineValue(a) && HasInlineValue(b) && KeyOf(a) == KeyOf(b) &&
        IsSecretFlagName(NameOf(KeyOf(a), true), true))
    || (inValuePosition && !IsSecret(a) && !IsSecret(b))
    || (!inValuePosition && CarriesColonValue(a) && CarriesColonValue(b) && ColonFlag(a) == ColonFlag(b))
  }

  ghost predicate DifferOnlyInCredentials(a: seq<string>, b: seq<string>) {
    |a| == |b| && forall i :: 0 <= i < |a| ==> DifferOnlyInCredential(a[i], b[i], InValuePosition(a, i))
  }

  /** One argument: the redaction identifies two arguments exactly when they differ only in a credential. */
  lemma RedactArgKernel(a: string, b: string, inValuePosition: bool)
    ensures RedactArg(a, inValuePosition) == RedactArg(b, inValuePosition) <==>
            DifferOnlyInCredential(a, b, inValuePosition)
  {
    RedactArgCases(a, inValuePosition);
    RedactArgCases(b, inValuePosition);
    RewrittenForms(a);
    RewrittenForms(b);
    SecretInline(a);
    SecretInline(b);
    CredentialDef(a, b, inValuePosition);
    hide *;
  }

  lemma SecretInline(arg: string)
    ensures HasInlineValue(arg) ==> (IsSecret(arg) <==> IsSecretFlagName(NameOf(KeyOf(arg), true), true))
    ensures CarriesColonValue(arg) ==> !HasInlineValue(arg)
  {
  }

  lemma CredentialDef(a: string, b: string, inValuePosition: bool)
    ensures CarriesColonValue(a) ==> IndexOf(a, ':') > 0
    ensures CarriesColonValue(b) ==> IndexOf(b, ':') > 0
    ensures DifferOnlyInCredential(a, b, inValuePosition) <==>
      || a == b
      || (HasInlineValue(a) && HasInlineValue(b) && KeyOf(a) == KeyOf(b) &&
          IsSecretFlagName(NameOf(KeyOf(a), true), true))
      || (inValuePosition && !IsSecret(a) && !IsSecret(b))
      || (!inValuePosition && CarriesColonValue(a) && CarriesColonValue(b) && ColonFlag(a) == ColonFlag(b))
  {
  }

  /** Whole command lines: the redacted lists are equal exactly when the originals differ only in credentials. */
  lemma {:induction false} RedactionKernel(a: seq<string>, b: seq<string>)
    ensures Redacted(a) == Redacted(b) <==> DifferOnlyInCredentials(a, b)
  {
    if |a| == |b| {
      RedactionKernelUpTo(a, b, |a|);
      assert Redacted(a)[..|a|] == Redacted(a) && Redacted(b)[..|a|] == Redacted(b);
    }
  }

  lemma {:induction false} RedactionKernelUpTo(a: seq<string>, b: seq<string>, n: nat)
    requires n <= |a| == |b|
    ensures Redacted(a)[..n] == Redacted(b)[..n] <==>
            forall i :: 0 <= i < n ==> DifferOnlyInCredential(a[i], b[i], InValuePosition(a, i))
    ensures 0 < n && Redacted(a)[..n] == Redacted(b)[..n] ==> (TakesValue(a[n - 1]) <==> TakesValue(b[n - 1]))
  {
    hide *;
    if n == 0 {
    } else {
      var i := n - 1;
      RedactionKernelUpTo(a, b, i);
      var va, vb := InValuePosition(a, i), InValuePosition(b, i);
      RedactArgStable(a[i], va);
      RedactArgStable(b[i], vb);
      RedactArgKernel(a[i], b[i], va);
      RedactedSnoc(a, i);
      RedactedSnoc(b, i);
      SnocEqual(Redacted(a)[..i], RedactArg(a[i], va), Redacted(b)[..i], RedactArg(b[i], vb));
      assert i == 0 ==> va == vb by { FirstIsNoValue(a, b); }
    }
  }

  lemma SnocEqual(xs: seq<string>, x: string, ys: seq<string>, y: string)
    ensures xs + [x] == ys + [y] <==> xs == ys && x == y
  {
    if xs + [x] == ys + [y] {
      assert xs == (xs + [x])[..|xs|] && x == (xs + [x])[|xs|];
    }
  }

  lemma FirstIsNoValue(a: seq<string>, b: seq<string>)
    requires |a| > 0 && |b| > 0
    ensures !InValuePosition(a, 0) && !InValuePosition(b, 0)
  {
  }

  lemma RedactedSnoc(args: seq<string>, i: nat)
    requires i < |args|
    ensures Redacted(args)[..i + 1] == Redacted(args)[..i] + [RedactArg(args[i], InValuePosition(args, i))]
    ensures i > 0 ==> (InValuePosition(args, i) <==> TakesValue(args[i - 1]))
  {
    hide RedactArg, TakesValue;
  }

  // ---- When a credential is hidden, exactly ------------------------------------------------------

  /** Anywhere in a command line, a credential flag's value is replaced unless it is a credential argument itself. */
  lemma FlagValueHiddenIff(args: seq<string>, i: int)
    requires 0 < i < |args| && TakesValue(args[i - 1])
    ensures Redacted(args)[i] == REDACTED <==> !IsSecret(args[i])
  {
    RedactArgCases(args[i], true);
    RewrittenForms(args[i]);
    PlaceholderIsPlain();
    hide IsSecret, RedactArg, CarriesColonValue;
  }

  lemma EmptyIsNoFlag()
    ensures FlagName("") == ""
  {
  }

  /** The value in "flag:value" is replaced unless it contains '=' or ends in a secret suffix. */
  lemma ColonValueHiddenIff(flag: string, value: string)
    requires IsSecretFlagName(FlagName(flag), false) && '=' !in flag && ':' !in flag
    ensures RedactArg(flag + ":" + value, false) == flag + ":" + REDACTED <==>
            '=' !in value && !HasSecretSuffix(ToLower(value))
  {
    hide HasSecretSuffix, RedactArg, FlagName, IsSecret, KeyOf;
    var arg := flag + ":" + value;
    PlaceholderIsPlain();
    RedactArgCases(arg, false);
    EmptyIsNoFlag();
    IndexOfHead(flag, ':', value);
    assert arg[..|flag|] == flag && arg[|flag| + 1..] == value;
    if '=' in value {
      assert HasInlineValue(arg) by { assert arg[|flag| + 1 + IndexOf(value, '=')] == '='; }
      InlineStaysInline(arg);
      assert '=' !in flag + ":" + REDACTED;
    } else {
      assert !HasInlineValue(arg);
      ColonFormSecret(flag, value);
    }
  }

  /** An argument with an '=' is never left without one where it is no flag's value. */
  lemma InlineStaysInline(arg: string)
    requires HasInlineValue(arg)
    ensures '=' in RedactArg(arg, false)
  {
    hide IsSecretFlagName, FlagName;
    if IsSecret(arg) {
      assert RedactArg(arg, false)[|KeyOf(arg)|] == '=';
    }
  }

  /** A credential flag the documentation names, with any marker and in any case. */
  predicate IsDocumentedFlag(flag: string) {
    var name := if "--" <= flag then flag[2..] else if flag != "" then flag[1..] else "";
    && ("-" <= flag || "/" <= flag)
    && ToLower(name) in {"p", "storepass", "keypass", "pass", "password"}
  }

  /**
   Anywhere in a command line, a documented credential flag is kept, and the argument after it is
   replaced exactly when it is not itself a credential argument.
   */
  lemma DocumentedFlagsTakeValue(args: seq<string>, i: int)
    requires 0 < i < |args| && IsDocumentedFlag(args[i - 1])
    ensures TakesValue(args[i - 1]) && Redacted(args)[i - 1] == args[i - 1]
    ensures Redacted(args)[i] == REDACTED <==> !IsSecret(args[i])
  {
    var flag := args[i - 1];
    DocumentedFlagName(flag);
    BareFlagIsSecret(flag);
    hide IsSecret, RedactArg, CarriesColonValue, IsDocumentedFlag, FlagName;
    RedactArgCases(flag, InValuePosition(args, i - 1));
    FlagValueHiddenIff(args, i);
  }

  lemma DocumentedFlagName(flag: string)
    requires IsDocumentedFlag(flag)
    ensures FlagName(flag) in SECRET_FLAGS && FlagName(flag) != "" && !HasInlineValue(flag)
  {
    hide HasSecretSuffix, ToLower;
    var n := if "--" <= flag then 2 else 1;
    assert FlagName(flag) == ToLower(flag[n..]);
    LoweredEquals(flag[n..]);
    assert flag == flag[..n] + flag[n..] && '=' !in flag[..n];
  }

  /** Lower case neither hides nor makes an '='. */
  lemma LoweredEquals(s: string)
    ensures '=' in ToLower(s) <==> '=' in s
  {
    if '=' in s {
      assert ToLower(s)[IndexOf(s, '=')] == '=';
    }
  }

  /**
   A property of any dotted, underscored or colon-separated name whose last part is a credential word or
   ends in one is redacted up to its '='.
   */
  lemma PropertyValueHidden(owner: string, separator: char, part: string, value: string, inValuePosition: bool)
    requires separator in {':', '.', '_'} && '=' !in owner && '=' !in part
    requires forall i :: 0 <= i < |part| ==> LowerRune(part[i]) !in {':', '.', '_'}
    requires ToLower(part) in SECRET_FLAGS || HasSecretSuffix(ToLower(part))
    ensures var key := owner + [separator] + part;
            RedactArg(key + "=" + value, inValuePosition) == key + "=" + REDACTED
  {
    var key := owner + [separator] + part;
    var arg := key + "=" + value;
    PropertyName(owner, separator, part);
    KeyOfInline(key, value);
    hide *;
    SecretInline(arg);
    RedactArgCases(arg, inValuePosition);
  }

  lemma PropertyName(owner: string, separator: char, part: string)
    requires separator in {':', '.', '_'}
    requires forall i :: 0 <= i < |part| ==> LowerRune(part[i]) !in {':', '.', '_'}
    requires ToLower(part) in SECRET_FLAGS || HasSecretSuffix(ToLower(part))
    ensures IsSecretFlagName(NameOf(owner + [separator] + part, true), true)
  {
    hide HasSecretSuffix, NameOf, IsSecretFlagName;
    var key := owner + [separator] + part;
    var name := NameOf(key, true);
    LowerSuffix(key, name);
    var n := |key| - |name|;
    assert key[|owner|] == separator;
    var head := owner[n..] + [separator];
    assert key[n..] == head + part;
    ToLowerConcat(head, part);
    assert name == ToLower(head) + ToLower(part);
    assert ToLower(head)[|head| - 1] == separator;
    SubKeyDecides(ToLower(head), ToLower(part));
  }

  /** With an inline value, a credential word after the last separator makes the whole name secret. */
  lemma SubKeyDecides(head: string, part: string)
    requires head != "" && head[|head| - 1] in {':', '.', '_'}
    requires forall i :: 0 <= i < |part| ==> part[i] !in {':', '.', '_'}
    requires part in SECRET_FLAGS || HasSecretSuffix(part)
    ensures IsSecretFlagName(head + part, true)
  {
    hide HasSecretSuffix;
    var name := head + part;
    assert name[|head| - 1] in {':', '.', '_'};
    assert forall j :: |head| <= j < |name| ==> name[j] == part[j - |head|];
    assert LastIndexAny(name, {':', '.', '_'}) == |head| - 1;
    assert name[|head|..] == part;
  }

  /** A name is the lower-cased key without its leading flag characters. */
  lemma LowerSuffix(key: string, name: string)
    requires name == NameOf(key, true)
    ensures |name| <= |key| && name == ToLower(key[|key| - |name|..])
    ensures forall i :: 0 <= i < |key| - |name| ==> key[i] in {'-', '/'}
  {
    assert key[0..] == key;
  }

  lemma RedactedSmall(a: string, b: string)
    ensures Redacted([a]) == [RedactArg(a, false)]
    ensures Redacted([a, b]) == [RedactArg(a, false), RedactArg(b, TakesValue(a))]
  {
    hide RedactArg, TakesValue;
  }

  lemma SpelledFlagNames()
    ensures FlagName("/p") == "p" && FlagName("-pass") == "pass" && FlagName("-MyPassword") == "mypassword"
  {
    assert "/p"[0] == '/' && "/p"[1..] == "p" && ToLower("p") == "p";
    assert "-pass"[0] == '-' && "-pass"[1] == 'p' && "-pass"[1..] == "pass" && ToLower("pass") == "pass";
    assert "-MyPassword"[0] == '-' && "-MyPassword"[1] == 'M' && "-MyPassword"[1..] == "MyPassword";
    assert ToLower("MyPassword") == "mypassword";
  }

  lemma MyPasswordIsSuffixed()
    ensures HasSecretSuffix("mypassword") && ToLower("MyPassword") == "mypassword"
  {
    assert "mypassword"[2..] == "password";
    assert ToLower("MyPassword") == "mypassword";
  }

  /** A token without '=' is a credential flag when its flag name says so. */
  lemma BareFlagIsSecret(arg: string)
    ensures !HasInlineValue(arg) ==> (IsSecret(arg) <==> IsSecretFlagName(FlagName(arg), false))
    ensures FlagName(arg) != "" && (FlagName(arg) in SECRET_FLAGS || HasSecretSuffix(FlagName(arg))) ==>
            IsSecretFlagName(FlagName(arg), false)
  {
    hide HasSecretSuffix, FlagName;
  }

  lemma SpelledCredentials()
    ensures IsSecret("/p") && !HasInlineValue("/p")
    ensures IsSecret("-MyPassword") && !HasInlineValue("-MyPassword")
    ensures IsSecret("-pass:MyPassword") && !HasInlineValue("-pass:MyPassword")
  {
    hide FlagName, IsSecret, HasSecretSuffix, IsSecretFlagName, ToLower;
    SpelledFlagNames();
    MyPasswordIsSuffixed();
    BareFlagIsSecret("/p");
    BareFlagIsSecret("-MyPassword");
    ColonFormSecret("-pass", "MyPassword");
    assert "-pass:MyPassword" == "-pass" + ":" + "MyPassword";
  }

  lemma PassColonNameIsPlain()
    ensures !IsSecretFlagName("pass:a", true)
  {
    var name := "pass:a";
    assert name[4] == ':' && name[5] == 'a';
    assert LastIndexAny(name, {':', '.', '_'}) == 4;
    assert name[5..] == "a";
    if name in SECRET_FLAGS { SecretNamesHaveNoColon(name); }
  }

  lemma PassColonName()
    ensures NameOf("-pass:a", true) == "pass:a"
  {
    assert "-pass:a"[0] == '-' && "-pass:a"[1] == 'p' && "-pass:a"[1..] == "pass:a";
    assert ToLower("pass:a") == "pass:a";
  }

  lemma PassEqualsIsPlain()
    ensures HasInlineValue("-pass:a=b") && !IsSecret("-pass:a=b")
  {
    hide *;
    KeyOfInline("-pass:a", "b");
    assert "-pass:a=b" == "-pass:a" + "=" + "b";
    SecretInline("-pass:a=b");
    PassColonName();
    PassColonNameIsPlain();
  }

  /** Credentials that are spelled like credential arguments, or like key=value, stay in the clear. */
  lemma CredentialsThatSurvive()
    ensures Redacted(["/p", "-MyPassword"]) == ["/p", "-MyPassword"]
    ensures Redacted(["-pass:MyPassword"]) == ["-pass:MyPassword"]
    ensures Redacted(["-pass:a=b"]) == ["-pass:a=b"]
  {
    hide *;
    SpelledCredentials();
    TakesValueDef("/p");
    RedactArgCases("/p", false);
    RedactArgCases("-MyPassword", true);
    RedactedSmall("/p", "-MyPassword");

    RedactArgCases("-pass:MyPassword", false);
    RedactedSmall("-pass:MyPassword", "");

    PassEqualsIsPlain();
    SecretInline("-pass:a=b");
    RedactArgCases("-pass:a=b", false);
    RedactedSmall("-pass:a=b", "");
  }
}
