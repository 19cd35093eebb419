/**
 Printing an argument list as one command line (internal/infisical/signing_context.go), and the
 tokenizer a reader of that line uses: split on spaces and tabs outside double quotes.
 */
module CommandLine {
  import opened Strings

  predicate IsBlank(c: char) {
    c == ' ' || c == '\t'
  }

  predicate HasBlank(arg: string) {
    exists i :: 0 <= i < |arg| && IsBlank(arg[i])
  }

  predicate NoQuotes(args: seq<string>) {
    forall i :: 0 <= i < |args| ==> '\"' !in args[i]
  }

  // ---- The printer -------------------------------------------------------------------------------

  function Rendered(arg: string): string {
    if arg == "" then "\"\""
    else if HasBlank(arg) then "\"" + arg + "\""
    else arg
  }

  function Joined(args: seq<string>): string {
    JoinStrings(seq(|args|, i requires 0 <= i < |args| => Rendered(args[i])), " ")
  }

  method JoinCommandArgs(args: seq<string>) returns (line: string)
    ensures line == Joined(args)
  {
    hide Rendered, HasBlank;
    var rendered := new string[|args|];
    for i := 0 to |args|
      invariant forall j :: 0 <= j < i ==> rendered[j] == Rendered(args[j])
    {
      var arg := args[i];
      RenderedCases(arg);
      if arg == "" {
        rendered[i] := "\"\"";
      } else if HasBlank(arg) {
        rendered[i] := "\"" + arg + "\"";
      } else {
        rendered[i] := arg;
      }
    }
    assert rendered[..] == seq(|args|, i requires 0 <= i < |args| => Rendered(args[i]));
    line := JoinStrings(rendered[..], " ");
  }

  lemma RenderedCases(arg: string)
    ensures Rendered(arg) == if arg == "" then "\"\"" else if HasBlank(arg) then "\"" + arg + "\"" else arg
  {
  }

  lemma JoinedCons(args: seq<string>)
    requires args != []
    ensures Joined(args) == if |args| == 1 then Rendered(args[0]) else Rendered(args[0]) + " " + Joined(args[1..])
  {
    var parts := seq(|args|, i requires 0 <= i < |args| => Rendered(args[i]));
    assert parts[1..] == seq(|args| - 1, i requires 0 <= i < |args| - 1 => Rendered(args[1..][i]));
  }

  lemma JoinedOne(arg: string)
    ensures Joined([arg]) == Rendered(arg)
  {
  }

  /** Lines are put one after the other with one space between them. */
  lemma {:induction false} JoinedConcat(a: seq<string>, b: seq<string>)
    requires a != [] && b != []
    ensures Joined(a + b) == Joined(a) + " " + Joined(b)
    decreases |a|
  {
    hide Rendered, Joined;
    JoinedCons(a);
    JoinedCons(a + b);
    if |a| == 1 {
      assert (a + b)[1..] == b;
    } else {
      assert (a + b)[1..] == a[1..] + b;
      JoinedConcat(a[1..], b);
      var head, rest, tail := Rendered(a[0]), Joined(a[1..]), Joined(b);
      assert head + " " + (rest + " " + tail) == head + " " + rest + " " + tail;
    }
  }

  /**
   At any place of a line, an argument with a space or a tab stands in double quotes, an empty one is two
   quotes, and any other stands bare; one space separates it from what is before and after.
   */
  lemma ArgumentInLine(before: seq<string>, arg: string, after: seq<string>)
    ensures Joined([]) == ""
    ensures Joined(before + [arg] + after) ==
            (if before == [] then "" else Joined(before) + " ") +
            (if arg == "" || ' ' in arg || '\t' in arg then "\"" + arg + "\"" else arg) +
            (if after == [] then "" else " " + Joined(after))
  {
    BlankIff(arg);
    JoinedOne(arg);
    RenderedCases(arg);
    JoinedNone();
    hide Joined, Rendered, HasBlank;
    if before != [] {
      JoinedConcat(before, [arg]);
    } else {
      assert before + [arg] == [arg];
    }
    if after != [] {
      JoinedConcat(before + [arg], after);
    } else {
      assert before + [arg] + after == before + [arg];
    }
  }

  lemma BlankIff(arg: string)
    ensures HasBlank(arg) <==> ' ' in arg || '\t' in arg
  {
  }

  lemma JoinedNone()
    ensures Joined([]) == ""
  {
  }

  // ---- The tokenizer -----------------------------------------------------------------------------

  /** `started` is set once a token has begun, so that "" stands for an empty token. */
  datatype Scan = Scan(tokens: seq<string>, current: string, started: bool, quoted: bool)

  function Feed(st: Scan, c: char): Scan {
    if c == '\"' then st.(started := true, quoted := !st.quoted)
    else if IsBlank(c) && !st.quoted then Scan(Finish(st), "", false, false)
    else st.(started := true, current := st.current + [c])
  }

  function FeedAll(st: Scan, s: string): Scan
    decreases |s|
  {
    if s == "" then st else FeedAll(Feed(st, s[0]), s[1..])
  }

  function Finish(st: Scan): seq<string> {
    if st.started then st.tokens + [st.current] else st.tokens
  }

  function Tokenized(line: string): seq<string> {
    Finish(FeedAll(Scan([], "", false, false), line))
  }

  // ---- The tokenizer undoes the printer ----------------------------------------------------------

  lemma {:induction false} FeedAllConcat(st: Scan, a: string, b: string)
    ensures FeedAll(st, a + b) == FeedAll(FeedAll(st, a), b)
    decreases |a|
  {
    if a == "" {
      assert a + b == b;
    } else {
      assert (a + b)[1..] == a[1..] + b;
      FeedAllConcat(Feed(st, a[0]), a[1..], b);
    }
  }

  /** Text without quotes is one run of the current token, when quoted or free of blanks. */
  lemma {:induction false} FeedText(st: Scan, s: string)
    requires '\"' !in s && (st.quoted || !HasBlank(s))
    requires st.started || s != ""
    ensures FeedAll(st, s) == st.(started := true, current := st.current + s)
    decreases |s|
  {
    if s == "" {
      assert st.current + s == st.current;
    } else {
      assert st.quoted || !IsBlank(s[0]);
      assert HasBlank(s[1..]) ==> HasBlank(s) by {
        if HasBlank(s[1..]) {
          var i :| 0 <= i < |s[1..]| && IsBlank(s[1..][i]);
          assert IsBlank(s[i + 1]);
        }
      }
      assert [s[0]] + s[1..] == s;
      FeedText(Feed(st, s[0]), s[1..]);
      assert st.current + [s[0]] + s[1..] == st.current + s;
    }
  }

  lemma FeedRendered(tokens: seq<string>, arg: string)
    requires '\"' !in arg
    ensures FeedAll(Scan(tokens, "", false, false), Rendered(arg)) == Scan(tokens, arg, true, false)
  {
    var start := Scan(tokens, "", false, false);
    if arg != "" && !HasBlank(arg) {
      FeedText(start, arg);
      assert "" + arg == arg;
    } else {
      var inside := start.(started := true, quoted := true);
      assert Rendered(arg) == "\"" + arg + "\"";
      assert ("\"" + arg + "\"")[1..] == arg + "\"";
      assert FeedAll(start, Rendered(arg)) == FeedAll(inside, arg + "\"");
      FeedAllConcat(inside, arg, "\"");
      FeedText(inside, arg);
      assert "" + arg == arg;
      var st := FeedAll(inside, arg);
      assert FeedAll(st, "\"") == FeedAll(Feed(st, '\"'), "");
    }
  }

  lemma FeedSeparator(tokens: seq<string>, arg: string, rest: string)
    ensures FeedAll(Scan(tokens, arg, true, false), " " + rest) ==
            FeedAll(Scan(tokens + [arg], "", false, false), rest)
  {
  }

  lemma {:induction false} FeedJoined(tokens: seq<string>, args: seq<string>)
    requires NoQuotes(args)
    ensures Finish(FeedAll(Scan(tokens, "", false, false), Joined(args))) == tokens + args
    decreases |args|
  {
    if args == [] {
      assert tokens + args == tokens;
    } else {
      JoinedCons(args);
      FeedRendered(tokens, args[0]);
      assert NoQuotes(args[1..]);
      if |args| == 1 {
        assert args == [args[0]];
      } else {
        hide *;
        var start := Scan(tokens, "", false, false);
        assert Joined(args) == Rendered(args[0]) + (" " + Joined(args[1..]));
        FeedAllConcat(start, Rendered(args[0]), " " + Joined(args[1..]));
        FeedSeparator(tokens, args[0], Joined(args[1..]));
        FeedJoined(tokens + [args[0]], args[1..]);
        assert tokens + [args[0]] + args[1..] == tokens + args;
      }
    }
  }

  /** The tokenizer drops every quote it reads. */
  lemma {:induction false} TokensHaveNoQuotes(st: Scan, s: string)
    requires NoQuotes(st.tokens) && '\"' !in st.current
    ensures NoQuotes(Finish(FeedAll(st, s)))
    decreases |s|
  {
    if s != "" {
      TokensHaveNoQuotes(Feed(st, s[0]), s[1..]);
    }
  }

  /** An argument list survives printing and tokenizing exactly when no argument contains a double quote. */
  lemma TokenizingUndoesJoining(args: seq<string>)
    ensures Tokenized(Joined(args)) == args <==> NoQuotes(args)
  {
    if NoQuotes(args) {
      FeedJoined([], args);
      assert [] + args == args;
    } else {
      TokensHaveNoQuotes(Scan([], "", false, false), Joined(args));
    }
  }

  /** Among lists without double quotes, the printed line determines the list. */
  lemma JoiningIsInjective(a: seq<string>, b: seq<string>)
    requires NoQuotes(a) && NoQuotes(b) && Joined(a) == Joined(b)
    ensures a == b
  {
    TokenizingUndoesJoining(a);
    TokenizingUndoesJoining(b);
  }
}
