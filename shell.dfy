/**
 * Python's `shlex.quote` and the part of POSIX shell word splitting needed
 * to read its output back: unquoted safe characters, single-quoted and
 * double-quoted runs, and single spaces between words.
 */
module Shell {
  import opened Wrappers

  /** The characters `shlex.quote` leaves bare: ASCII letters and digits and `_@%+=:,./-`. */
  predicate SafeChar(c: char) {
    || ('a' <= c <= 'z') || ('A' <= c <= 'Z') || ('0' <= c <= '9')
    || c == '_' || c == '@' || c == '%' || c == '+' || c == '=' || c == ':'
    || c == ',' || c == '.' || c == '/' || c == '-'
  }

  predicate AllSafe(s: string) {
    forall i | 0 <= i < |s| :: SafeChar(s[i])
  }

  /** Inside a single-quoted word every `'` is written `'"'"'`. */
  function EscapeQuotes(s: string): string {
    if s == "" then ""
    else (if s[0] == '\'' then "'\"'\"'" else [s[0]]) + EscapeQuotes(s[1..])
  }

  /** `shlex.quote(s)`. */
  function Quote(s: string): string {
    if s == "" then "''"
    else if AllSafe(s) then s
    else "'" + EscapeQuotes(s) + "'"
  }

  /** `" ".join(shlex.quote(a) for a in args)`. */
  function JoinQuoted(args: seq<string>): string {
    if args == [] then ""
    else if |args| == 1 then Quote(args[0])
    else Quote(args[0]) + " " + JoinQuoted(args[1..])
  }

  datatype Mode = Bare | InSingle | InDouble

  function Prepend(w: string, ws: Option<seq<string>>): Option<seq<string>> {
    match ws
    case None => None
    case Some(rest) => Some([w] + rest)
  }

  /**
   * Splits `text` into the words a POSIX shell would pass on, starting in
   * `mode` with the current word `word` (`started` once the word has any
   * character or quote). `None` stands for text that uses shell syntax
   * beyond quoting: unquoted operators or expansions, unterminated quotes.
   */
  function Scan(text: string, mode: Mode, word: string, started: bool): Option<seq<string>>
    decreases |text|
  {
    if text == "" then
      if mode != Bare then None else if started then Some([word]) else Some([])
    else
      var c, rest := text[0], text[1..];
      match mode
      case Bare =>
        if c == ' ' then
          if started then Prepend(word, Scan(rest, Bare, "", false)) else Scan(rest, Bare, "", false)
        else if c == '\'' then Scan(rest, InSingle, word, true)
        else if c == '"' then Scan(rest, InDouble, word, true)
        else if SafeChar(c) then Scan(rest, Bare, word + [c], true)
        else None
      case InSingle =>
        if c == '\'' then Scan(rest, Bare, word, true) else Scan(rest, InSingle, word + [c], true)
      case InDouble =>
        if c == '"' then Scan(rest, Bare, word, true)
        else if c == '$' || c == '`' || c == '\\' then None
        else Scan(rest, InDouble, word + [c], true)
  }

  /** The words of a command line. */
  function Words(text: string): Option<seq<string>> {
    Scan(text, Bare, "", false)
  }

  lemma {:induction false} ScanEscaped(s: string, rest: string, word: string)
    ensures Scan(EscapeQuotes(s) + rest, InSingle, word, true) == Scan(rest, InSingle, word + s, true)
  {
    if s == "" {
      assert EscapeQuotes(s) + rest == rest;
      assert word + s == word;
    } else {
      var tail := EscapeQuotes(s[1..]) + rest;
      ScanEscaped(s[1..], rest, word + [s[0]]);
      assert word + [s[0]] + s[1..] == word + s;
      if s[0] == '\'' {
        var t4 := ['\''] + tail;
        var t3 := ['"'] + t4;
        var t2 := ['\''] + t3;
        var t1 := ['"'] + t2;
        assert EscapeQuotes(s) + rest == ['\''] + t1;
        assert Scan(['\''] + t1, InSingle, word, true) == Scan(t1, Bare, word, true);
        assert Scan(t1, Bare, word, true) == Scan(t2, InDouble, word, true);
        assert Scan(t2, InDouble, word, true) == Scan(t3, InDouble, word + ['\''], true);
        assert Scan(t3, InDouble, word + ['\''], true) == Scan(t4, Bare, word + ['\''], true);
        assert Scan(t4, Bare, word + ['\''], true) == Scan(tail, InSingle, word + ['\''], true);
      } else {
        assert EscapeQuotes(s) + rest == [s[0]] + tail;
        assert Scan([s[0]] + tail, InSingle, word, true) == Scan(tail, InSingle, word + [s[0]], true);
      }
    }
  }

  lemma {:induction false} ScanSafe(s: string, rest: string, word: string, started: bool)
    requires AllSafe(s)
    ensures Scan(s + rest, Bare, word, started) == Scan(rest, Bare, word + s, started || s != "")
  {
    if s == "" {
      assert s + rest == rest && word + s == word;
    } else {
      assert SafeChar(s[0]);
      assert (s + rest)[1..] == s[1..] + rest;
      ScanSafe(s[1..], rest, word + [s[0]], true);
      assert word + [s[0]] + s[1..] == word + s;
    }
  }

  /** A quoted argument is read as exactly that text, added to the current word. */
  lemma {:induction false} ScanQuoted(s: string, rest: string, word: string, started: bool)
    ensures Scan(Quote(s) + rest, Bare, word, started) == Scan(rest, Bare, word + s, true)
  {
    if s == "" {
      assert Quote(s) + rest == ['\''] + (['\''] + rest);
      assert Scan(['\''] + rest, InSingle, word, true) == Scan(rest, Bare, word, true);
      assert word + s == word;
    } else if AllSafe(s) {
      ScanSafe(s, rest, word, started);
    } else {
      var body := EscapeQuotes(s) + (['\''] + rest);
      assert Quote(s) + rest == ['\''] + body;
      ScanEscaped(s, ['\''] + rest, word);
      assert Scan(['\''] + rest, InSingle, word + s, true) == Scan(rest, Bare, word + s, true);
    }
  }

  /** The shell reads a quoted argument back as the original text, as one word. */
  lemma QuoteRoundTrip(s: string)
    ensures Words(Quote(s)) == Some([s])
  {
    ScanQuoted(s, "", "", false);
    assert Quote(s) + "" == Quote(s);
    assert "" + s == s;
  }

  /** The shell reads a joined list of quoted arguments back as the list itself. */
  lemma {:induction false} JoinQuotedRoundTrip(args: seq<string>)
    ensures Words(JoinQuoted(args)) == Some(args)
  {
    if |args| == 1 {
      QuoteRoundTrip(args[0]);
      assert [args[0]] == args;
    } else if |args| > 1 {
      var rest := JoinQuoted(args[1..]);
      JoinQuotedRoundTrip(args[1..]);
      assert JoinQuoted(args) == Quote(args[0]) + (" " + rest);
      ScanQuoted(args[0], " " + rest, "", false);
      assert "" + args[0] == args[0];
      assert (" " + rest)[1..] == rest;
      assert Scan(" " + rest, Bare, args[0], true) == Prepend(args[0], Scan(rest, Bare, "", false));
      assert [args[0]] + args[1..] == args;
    }
  }
}
