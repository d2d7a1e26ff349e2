/**
 Quoting arguments for a POSIX shell, and a tokenizer to read them back with.
 */
module ShellQuote {
  import opened Wrappers

  /** Every single quote becomes: end quote, escaped quote, start quote. */
  function Escape(arg: string): string {
    if arg == "" then ""
    else (if arg[0] == '\'' then ['\'', '\\', '\'', '\''] else [arg[0]]) + Escape(arg[1..])
  }

  function Quote(arg: string): string {
    ['\''] + (Escape(arg) + ['\''])
  }

  function QuoteArgs(args: seq<string>): seq<string> {
    seq(|args|, i requires 0 <= i < |args| => Quote(args[i]))
  }

  function Join(parts: seq<string>): string {
    if parts == [] then ""
    else if |parts| == 1 then parts[0]
    else parts[0] + ([' '] + Join(parts[1..]))
  }

  function JoinQuoted(args: seq<string>): string {
    Join(QuoteArgs(args))
  }

  // ---------------------------------------------------------------------------
  // Section 2.2 of POSIX.1-2017, Shell Command Language
  // ---------------------------------------------------------------------------

  datatype Mode = Unquoted | InSingle | InDouble

  /** Characters that end a command, start an expansion or may do so when unquoted. */
  const SPECIAL: string := "|&;<>()$`*?[#~=%\n"

  /** The words of a command line made of plain words and quoted text, `None` if it contains
      anything else. `current` is the word under way, if one has begun. */
  function Tokens(s: string, mode: Mode, current: Option<string>, done: seq<string>): Option<seq<string>>
    decreases |s|
  {
    if s == "" then
      if mode != Unquoted then None
      else if current.Some? then Some(done + [current.value]) else Some(done)
    else
      var word := current.GetOr("");
      match mode
      case Unquoted =>
        if s[0] == ' ' || s[0] == '\t' then
          Tokens(s[1..], Unquoted, None, if current.Some? then done + [word] else done)
        else if s[0] == '\'' then Tokens(s[1..], InSingle, Some(word), done)
        else if s[0] == '"' then Tokens(s[1..], InDouble, Some(word), done)
        else if s[0] == '\\' then
          if |s| == 1 then None
          else if s[1] == '\n' then Tokens(s[2..], Unquoted, current, done)
          else Tokens(s[2..], Unquoted, Some(word + [s[1]]), done)
        else if s[0] in SPECIAL then None
        else Tokens(s[1..], Unquoted, Some(word + [s[0]]), done)
      case InSingle =>
        if s[0] == '\'' then Tokens(s[1..], Unquoted, Some(word), done)
        else Tokens(s[1..], InSingle, Some(word + [s[0]]), done)
      case InDouble =>
        if s[0] == '"' then Tokens(s[1..], Unquoted, Some(word), done)
        else if s[0] == '$' || s[0] == '`' then None
        else if s[0] == '\\' && |s| > 1 && s[1] == '\n' then Tokens(s[2..], InDouble, Some(word), done)
        else if s[0] == '\\' && |s| > 1 && s[1] in "$`\"\\" then Tokens(s[2..], InDouble, Some(word + [s[1]]), done)
        else Tokens(s[1..], InDouble, Some(word + [s[0]]), done)
  }

  function Tokenize(s: string): Option<seq<string>> {
    Tokens(s, Unquoted, None, [])
  }

  // ---------------------------------------------------------------------------
  // Round trip
  // ---------------------------------------------------------------------------

  lemma ReadEscapedQuote(more: string, word: string, done: seq<string>)
    ensures Tokens(['\'', '\\', '\'', '\''] + more, InSingle, Some(word), done)
         == Tokens(more, InSingle, Some(word + ['\'']), done)
  {
    var s := ['\'', '\\', '\'', '\''] + more;
    var s1 := ['\\', '\'', '\''] + more;
    var s3 := ['\''] + more;
    assert s[1..] == s1 && s1[2..] == s3 && s3[1..] == more;
    assert Tokens(s, InSingle, Some(word), done) == Tokens(s1, Unquoted, Some(word), done);
    assert Tokens(s1, Unquoted, Some(word), done) == Tokens(s3, Unquoted, Some(word + ['\'']), done);
  }

  lemma {:induction false} ReadEscaped(arg: string, rest: string, word: string, done: seq<string>)
    ensures Tokens(Escape(arg) + (['\''] + rest), InSingle, Some(word), done)
         == Tokens(rest, Unquoted, Some(word + arg), done)
    decreases |arg|
  {
    var tail := ['\''] + rest;
    var s := Escape(arg) + tail;
    if arg == "" {
      assert s == tail && tail[1..] == rest && word + arg == word;
    } else {
      var more := Escape(arg[1..]) + tail;
      ReadEscaped(arg[1..], rest, word + [arg[0]], done);
      assert word + [arg[0]] + arg[1..] == word + arg;
      if arg[0] == '\'' {
        assert s == ['\'', '\\', '\'', '\''] + more;
        ReadEscapedQuote(more, word, done);
      } else {
        assert s[1..] == more;
      }
    }
  }

  lemma ReadQuoted(arg: string, rest: string, done: seq<string>)
    ensures Tokens(Quote(arg) + rest, Unquoted, None, done) == Tokens(rest, Unquoted, Some(arg), done)
  {
    var s := Quote(arg) + rest;
    assert s[1..] == Escape(arg) + (['\''] + rest);
    ReadEscaped(arg, rest, "", done);
    assert "" + arg == arg;
  }

  lemma {:induction false} ReadJoined(args: seq<string>, done: seq<string>)
    ensures Tokens(JoinQuoted(args), Unquoted, None, done) == Some(done + args)
    decreases |args|
  {
    if args == [] {
      assert done + args == done;
    } else if |args| == 1 {
      assert Quote(args[0]) + "" == Quote(args[0]);
      ReadQuoted(args[0], "", done);
      assert [args[0]] == args;
    } else {
      assert QuoteArgs(args)[1..] == QuoteArgs(args[1..]);
      var rest := [' '] + JoinQuoted(args[1..]);
      ReadQuoted(args[0], rest, done);
      assert rest[1..] == JoinQuoted(args[1..]);
      ReadJoined(args[1..], done + [args[0]]);
      assert done + [args[0]] + args[1..] == done + args;
    }
  }

  /** A shell reads back exactly the arguments that were joined, whatever they contain. */
  lemma ShellReadsTheArguments(args: seq<string>)
    ensures Tokenize(JoinQuoted(args)) == Some(args)
  {
    ReadJoined(args, []);
    assert [] + args == args;
  }

  /** So no two argument lists give the same command line. */
  lemma JoinQuotedIsInjective(a: seq<string>, b: seq<string>)
    requires JoinQuoted(a) == JoinQuoted(b)
    ensures a == b
  {
    ShellReadsTheArguments(a);
    ShellReadsTheArguments(b);
  }
}
