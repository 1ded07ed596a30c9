/** Pasting an argument list into a shell (`shell_join` in src/qemu.rs). */
module Shell {
  import opened Wrappers

  predicate Plain(c: char) {
    || 'a' <= c <= 'z' || 'A' <= c <= 'Z' || '0' <= c <= '9'
    || c in {'@', '%', '_', '-', '+', '=', ':', ',', '.', '/'}
  }

  predicate NeedsQuote(arg: string) {
    arg == "" || exists i :: 0 <= i < |arg| && !Plain(arg[i])
  }

  /** Every single quote becomes: close, an escaped quote, reopen. */
  function Escaped(arg: string): string {
    if arg == "" then ""
    else (if arg[0] == '\'' then "'\\''" else [arg[0]]) + Escaped(arg[1..])
  }

  function Quoted(arg: string): string {
    if NeedsQuote(arg) then "'" + Escaped(arg) + "'" else arg
  }

  function ShellJoin(argv: seq<string>): string {
    if argv == [] then ""
    else if |argv| == 1 then Quoted(argv[0])
    else Quoted(argv[0]) + " " + ShellJoin(argv[1..])
  }

  // ---------------------------------------------------------------------------------------------
  // The shell's side: section 2.2 of the POSIX Shell Command Language
  // ---------------------------------------------------------------------------------------------

  datatype Mode = Between | Word | Single | Double

  /** Characters that mean something to the shell outside quotes, beyond quoting and blanks. */
  predicate Active(c: char) {
    c in {'|', '&', ';', '<', '>', '(', ')', '$', '`', '\n', '*', '?', '[', ']', '#', '~', '!', '{', '}'}
  }

  /** Field splitting and quote removal; `None` for anything that is more than a list of words. */
  function Split(s: string, mode: Mode, word: string): Option<seq<string>>
    decreases |s|
  {
    if s == "" then
      match mode
      case Between => Some([])
      case Word => Some([word])
      case _ => None
    else
      var c, rest := s[0], s[1..];
      match mode
      case Single => if c == '\'' then Split(rest, Word, word) else Split(rest, Single, word + [c])
      case Double =>
        if c == '"' then Split(rest, Word, word)
        else if c == '$' || c == '`' then None
        else if c == '\\' && rest != "" && rest[0] in {'$', '`', '"', '\\'} then
          Split(rest[1..], Double, word + [rest[0]])
        else if c == '\\' && rest != "" && rest[0] == '\n' then Split(rest[1..], Double, word)
        else Split(rest, Double, word + [c])
      case _ =>
        if c == ' ' || c == '\t' then
          if mode == Between then Split(rest, Between, "") else Finished(word, Split(rest, Between, ""))
        else if c == '\'' then Split(rest, Single, word)
        else if c == '"' then Split(rest, Double, word)
        else if c == '\\' then
          if rest == "" then None
          else if rest[0] == '\n' then Split(rest[1..], mode, word)
          else Split(rest[1..], Word, word + [rest[0]])
        else if Active(c) then None
        else Split(rest, Word, word + [c])
  }

  function Finished(word: string, more: Option<seq<string>>): Option<seq<string>> {
    match more case None => None case Some(words) => Some([word] + words)
  }

  /** The words a shell makes of a line. */
  function ShellSplit(s: string): Option<seq<string>> {
    Split(s, Between, "")
  }

  lemma PlainIsPassive(c: char)
    requires Plain(c)
    ensures !Active(c) && c != ' ' && c != '\t' && c != '\'' && c != '"' && c != '\\'
  {
  }

  lemma {:induction false} PlainReads(arg: string, tail: string, mode: Mode, word: string)
    requires mode == Between ==> arg != ""
    requires mode == Between || mode == Word
    requires forall i :: 0 <= i < |arg| ==> Plain(arg[i])
    ensures Split(arg + tail, mode, word) == Split(tail, Word, word + arg)
  {
    if arg == "" {
      assert arg + tail == tail && word + arg == word;
    } else {
      PlainIsPassive(arg[0]);
      PlainReads(arg[1..], tail, Word, word + [arg[0]]);
      assert (arg + tail)[1..] == arg[1..] + tail;
      assert word + [arg[0]] + arg[1..] == word + arg;
    }
  }

  /** The escape sequence for a quote closes the string, adds the quote, and reopens it. */
  lemma QuoteReads(tail: string, word: string)
    ensures Split("'\\''" + tail, Single, word) == Split(tail, Single, word + "'")
  {
    var s := "'\\''" + tail;
    assert s[1..] == "\\''" + tail;
    assert ("\\''" + tail)[1..] == "''" + tail;
    assert ("''" + tail)[1..] == "'" + tail;
    assert ("'" + tail)[1..] == tail;
    assert Split(s, Single, word) == Split("\\''" + tail, Word, word);
    assert Split("\\''" + tail, Word, word) == Split("'" + tail, Word, word + "'");
  }

  lemma {:induction false} EscapedReads(arg: string, tail: string, word: string)
    ensures Split(Escaped(arg) + "'" + tail, Single, word) == Split(tail, Word, word + arg)
  {
    var more := "'" + tail;
    assert Escaped(arg) + "'" + tail == Escaped(arg) + more;
    if arg == "" {
      assert Escaped(arg) + more == more && more[1..] == tail && word + arg == word;
    } else {
      var front := if arg[0] == '\'' then "'\\''" else [arg[0]];
      var rest := Escaped(arg[1..]) + "'" + tail;
      assert Escaped(arg) + more == front + rest;
      EscapedReads(arg[1..], tail, word + [arg[0]]);
      assert word + [arg[0]] + arg[1..] == word + arg;
      if arg[0] == '\'' {
        QuoteReads(rest, word);
      } else {
        assert (front + rest)[1..] == rest;
      }
    }
  }

  lemma QuotedReads(arg: string, tail: string)
    ensures Split(Quoted(arg) + tail, Between, "") == Split(tail, Word, arg)
  {
    if NeedsQuote(arg) {
      var inner := Escaped(arg) + "'" + tail;
      assert Quoted(arg) + tail == "'" + inner && ("'" + inner)[1..] == inner;
      EscapedReads(arg, tail, "");
      assert "" + arg == arg;
    } else {
      PlainReads(arg, tail, Between, "");
      assert "" + arg == arg;
    }
  }

  /** What is pasted is what was meant: the shell reads back exactly the argument list. */
  lemma {:induction false} ShellReadsArgv(argv: seq<string>)
    ensures ShellSplit(ShellJoin(argv)) == Some(argv)
  {
    hide Split, Quoted;
    if argv == [] {
      NothingToSplit("");
    } else if |argv| == 1 {
      QuotedReads(argv[0], "");
      NothingToSplit(argv[0]);
      assert Quoted(argv[0]) + "" == Quoted(argv[0]);
      assert argv == [argv[0]];
    } else {
      var rest := ShellJoin(argv[1..]);
      QuotedReads(argv[0], " " + rest);
      assert Quoted(argv[0]) + " " + rest == Quoted(argv[0]) + (" " + rest);
      BlankEndsWord(argv[0], rest);
      ShellReadsArgv(argv[1..]);
      assert argv == [argv[0]] + argv[1..];
    }
  }

  lemma NothingToSplit(word: string)
    ensures Split("", Between, "") == Some([]) && Split("", Word, word) == Some([word])
  {
  }

  lemma BlankEndsWord(word: string, rest: string)
    ensures Split(" " + rest, Word, word) == Finished(word, Split(rest, Between, ""))
  {
    assert (" " + rest)[1..] == rest;
  }

  /** So different argument lists are never pasted as the same line. */
  lemma ShellJoinInjective(a: seq<string>, b: seq<string>)
    requires ShellJoin(a) == ShellJoin(b)
    ensures a == b
  {
    ShellReadsArgv(a);
    ShellReadsArgv(b);
  }
}
