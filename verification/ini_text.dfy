/**
 Variables in the text of INI files (lib/ini/reader.go), character by character: what an escape, a line end behind a
 backslash, a quote, a blank and a comment mean, for whatever comes before and behind them, and whole lines.
 */
module IniText {
  import opened Ini
  import opened IniValue

  // ---------------------------------------------------------------- one character

  /** A step that goes on. */
  lemma Goes(st: State, s: string, t: State)
    requires s != "" && Step(st, s[0]) == More(t)
    ensures ReadValue(st, s) == ReadValue(t, s[1..])
  {
    hide Finish, ReadComment, Step;
  }

  /**
   Behind a backslash a quote and a backslash stand for themselves, b, n and t for backspace, line end and tab, and a
   line end joins the next line; anything else is refused. Blanks that are held back come before the first two, and
   after a line is joined, but behind the characters that b, n and t stand for.
   */
  lemma EscapeMeans(st: State, c: char, rest: string)
    requires !st.esc
    ensures var r := ReadValue(st, ['\\', c] + rest);
      match c
      case '\\' => r == ReadValue(st.(buf := st.buf + st.spaces + "\\", spaces := ""), rest)
      case '\"' => r == ReadValue(st.(buf := st.buf + st.spaces + "\"", spaces := ""), rest)
      case 'b' => r == ReadValue(st.(buf := st.buf + "\U{0008}"), rest)
      case 'n' => r == ReadValue(st.(buf := st.buf + "\n"), rest)
      case 't' => r == ReadValue(st.(buf := st.buf + "\t"), rest)
      case '\n' =>
        var line := st.line.(mode := 32, value := st.line.value + st.buf + st.spaces);
        r == ReadValue(st.(line := line, buf := "", spaces := ""), rest)
      case _ => r.err == ValueInvalid && r.rest == rest
  {
    hide Finish, ReadComment;
    var s := ['\\', c] + rest;
    assert s[0] == '\\' && s[1..] == [c] + rest && s[1..][0] == c && s[1..][1..] == rest;
    assert Step(st, '\\') == More(st.(esc := true));
    assert ReadValue(st, s) == ReadValue(st.(esc := true), s[1..]);
  }

  /** Inside quotes every other character is one of the value; a line end there is refused. */
  lemma QuotedMeans(st: State, c: char, rest: string)
    requires !st.esc && st.quoted && c != '\\'
    ensures var r := ReadValue(st, [c] + rest);
      if c == '\"' then r == ReadValue(st.(quoted := false), rest)
      else if c == '\n' then r.err == ValueInvalid && r.rest == rest
      else r == ReadValue(st.(buf := st.buf + st.spaces + [c], spaces := ""), rest)
  {
    hide ReadComment;
    var s := [c] + rest;
    assert s[0] == c && s[1..] == rest;
  }

  /** Outside quotes blanks are held back, # and ; start a comment, and a line end ends the value without the blanks. */
  lemma UnquotedMeans(st: State, c: char, rest: string)
    requires !st.esc && !st.quoted && c != '\\'
    ensures var r := ReadValue(st, [c] + rest);
      var done := st.line.(value := st.line.value + st.buf);
      match c
      case '\"' => r == ReadValue(st.(quoted := true, line := st.line.(isQuoted := true)), rest)
      case '\n' => r == Parsed(Nil, done, rest)
      case '#' => r == ReadComment(done, "#" + rest)
      case ';' => r == ReadComment(done, ";" + rest)
      case ' ' => r == ReadValue(st.(spaces := st.spaces + " "), rest)
      case '\t' => r == ReadValue(st.(spaces := st.spaces + "\t"), rest)
      case _ => r == ReadValue(st.(buf := st.buf + st.spaces + [c], spaces := ""), rest)
  {
    hide ReadComment;
    var s := [c] + rest;
    assert s[0] == c && s[1..] == rest;
    assert st.line.value + st.buf + "" == st.line.value + st.buf;
  }

  /** The text can end with the value, if the quotes are closed. */
  lemma EndMeans(st: State)
    ensures ReadValue(st, "") ==
      if st.quoted then Parsed(ValueInvalid, st.line, "") else Parsed(Nil, st.line.(value := st.line.value + st.buf), "")
  {
    assert st.line.value + st.buf + "" == st.line.value + st.buf;
  }

  // ---------------------------------------------------------------- whole values

  /** A state with nothing read, and with something in the buffers. */
  function In(line: Line, buf: string, spaces: string, quoted: bool): State {
    State(line, buf, spaces, quoted, false)
  }

  lemma Char(line: Line, buf: string, spaces: string, c: char, rest: string, s: string, more: string)
    requires c !in {'\\', '\"', '\n', '#', ';', ' ', '\t'} && s == [c] + rest && more == buf + spaces + [c]
    ensures ReadValue(In(line, buf, spaces, false), s) == ReadValue(In(line, more, "", false), rest)
  {
    UnquotedMeans(In(line, buf, spaces, false), c, rest);
  }

  lemma Blank(line: Line, buf: string, rest: string, s: string)
    requires s == " " + rest
    ensures ReadValue(In(line, buf, "", false), s) == ReadValue(In(line, buf, " ", false), rest)
  {
    UnquotedMeans(In(line, buf, "", false), ' ', rest);
    assert "" + " " == " ";
  }

  lemma Ends(line: Line, buf: string, value: string)
    requires value == line.value + buf
    ensures ReadValue(In(line, buf, "", false), "\n") == Parsed(Nil, line.(value := value), "")
  {
    UnquotedMeans(In(line, buf, "", false), '\n', "");
    assert "\n" == ['\n'] + "";
  }

  /** Blanks between words are kept, and those behind the last one go: a b # c. */
  lemma Words(line: Line)
    requires line.value == ""
    ensures ReadValue(In(line, "", "", false), "a b # c\n")
         == Parsed(Nil, line.(value := "a b", mode := WithComment(line.mode), others := "# c"), "")
  {
    hide ReadValue, ReadComment;
    Char(line, "", "", 'a', " b # c\n", "a b # c\n", "a");
    Blank(line, "a", "b # c\n", " b # c\n");
    Char(line, "a", " ", 'b', " # c\n", "b # c\n", "a b");
    Blank(line, "a b", "# c\n", " # c\n");
    UnquotedMeans(In(line, "a b", " ", false), '#', " c\n");
    assert "# c\n" == ['#'] + " c\n" == "#" + " c\n" && "" + "a b" == "a b";
    CommentIs(line.(value := "a b"));
  }

  lemma CommentIs(line: Line)
    ensures ReadComment(line, "# c\n") == Parsed(Nil, line.(mode := WithComment(line.mode), others := "# c"), "")
  {
    Tokens.LineEndIs("# c\n", 3);
    assert "# c\n"[..3] == "# c" && "# c\n"[4..] == "";
  }

  /** A backslash at the end joins the next line, with the blanks before it. */
  lemma Folded(line: Line)
    requires line.value == ""
    ensures ReadValue(In(line, "", "", false), "a \\\nb\n") == Parsed(Nil, line.(mode := 32, value := "a b"), "")
  {
    hide ReadValue;
    Char(line, "", "", 'a', " \\\nb\n", "a \\\nb\n", "a");
    Blank(line, "a", "\\\nb\n", " \\\nb\n");
    EscapeMeans(In(line, "a", " ", false), '\n', "b\n");
    assert ['\\', '\n'] + "b\n" == "\\\nb\n" && "" + "a" + " " == "a ";
    var l := line.(mode := 32, value := "a ");
    Char(l, "", "", 'b', "\n", "b\n", "b");
    Ends(l, "b", "a b");
  }

  /** Quotes may stand anywhere in a value: "a#"b. */
  lemma PartlyQuoted(line: Line)
    requires line.value == ""
    ensures ReadValue(In(line, "", "", false), "\"a#\"b\n") == Parsed(Nil, line.(isQuoted := true, value := "a#b"), "")
  {
    hide ReadValue;
    var l := line.(isQuoted := true);
    UnquotedMeans(In(line, "", "", false), '\"', "a#\"b\n");
    assert ['\"'] + "a#\"b\n" == "\"a#\"b\n";
    QuotedChar(l, "", 'a', "#\"b\n", "a#\"b\n", "a");
    QuotedChar(l, "a", '#', "\"b\n", "#\"b\n", "a#");
    QuotedMeans(In(l, "a#", "", true), '\"', "b\n");
    assert ['\"'] + "b\n" == "\"b\n";
    Char(l, "a#", "", 'b', "\n", "b\n", "a#b");
    Ends(l, "a#b", "a#b");
  }

  lemma QuotedChar(line: Line, buf: string, c: char, rest: string, s: string, more: string)
    requires c !in {'\\', '\"', '\n'} && s == [c] + rest && more == buf + [c]
    ensures ReadValue(In(line, buf, "", true), s) == ReadValue(In(line, more, "", true), rest)
  {
    QuotedMeans(In(line, buf, "", true), c, rest);
    assert buf + "" + [c] == buf + [c];
  }

  /** Outside quotes a blank before \t ends up behind the tab: the text is a, blank, \t, b. */
  lemma BlankMoves(line: Line)
    requires line.value == ""
    ensures ReadValue(In(line, "", "", false), "a \\tb\n") == Parsed(Nil, line.(value := "a\t b"), "")
  {
    hide ReadValue;
    Char(line, "", "", 'a', " \\tb\n", "a \\tb\n", "a");
    Blank(line, "a", "\\tb\n", " \\tb\n");
    EscapeMeans(In(line, "a", " ", false), 't', "b\n");
    assert ['\\', 't'] + "b\n" == "\\tb\n" && "a" + "\t" == "a\t";
    Char(line, "a\t", " ", 'b', "\n", "b\n", "a\t b");
    Ends(line, "a\t b", "a\t b");
  }

  /** Quotes that are not closed in their line are refused. */
  lemma Unclosed(line: Line)
    ensures ReadValue(In(line, "", "", false), "\"a\n").err == ValueInvalid
  {
    hide ReadValue;
    var l := line.(isQuoted := true);
    UnquotedMeans(In(line, "", "", false), '\"', "a\n");
    assert ['\"'] + "a\n" == "\"a\n";
    QuotedChar(l, "", 'a', "\n", "a\n", "a");
    QuotedMeans(In(l, "a", "", true), '\n', "");
    assert ['\n'] + "" == "\n";
  }

  /** What escape writes: the value in quotes, with a backslash for each of five characters. */
  lemma EscapeWrites(c: char, rest: string)
    ensures Escaped([c] + rest) == "\"" + (
      match c
      case '\U{0008}' => "\\b"
      case '\n' => "\\n"
      case '\t' => "\\t"
      case '\\' => "\\\\"
      case '\"' => "\\\""
      case _ => [c]) + Escaped(rest)[1..]
    ensures Escaped("") == "\"\""
  {
    var s := [c] + rest;
    assert s[0] == c && s[1..] == rest;
    assert Escaped(rest)[1..] == EscapeAll(rest) + "\"";
  }

  // ---------------------------------------------------------------- keys

  /** What may stand behind the characters of a key; a key without a value has the value "true". */
  lemma KeyMeans(line: Line, key: string, c: char, rest: string)
    ensures var r := ReadKey(line, key, [c] + rest);
      var single := line.(mode := 8, key := key, value := "true");
      if 'a' <= c <= 'z' || 'A' <= c <= 'Z' || '0' <= c <= '9' || c in {'-', '.', '_'} then r == ReadKey(line, key + [c], rest)
      else if c == '=' then r == ParseVarValue(line.(mode := 8, key := key), rest)
      else if c == '\n' then r == Parsed(Nil, single, rest)
      else if c in {'#', ';'} then r == ReadComment(single, [c] + rest)
      else if c in {' ', '\t', '\U{000B}', '\U{000C}', '\r'} then r == PossibleValue(line.(mode := 8, key := key), rest)
      else r.err == NameInvalid && r.rest == rest
  {
    hide ReadComment, ParseVarValue, PossibleValue;
    var s := [c] + rest;
    assert s[0] == c && s[1..] == rest;
  }

  /** Behind a key and a blank the line may end, or hold a value or a comment. */
  lemma BehindKey(line: Line, c: char, rest: string)
    ensures var r := PossibleValue(line, [c] + rest);
      match c
      case ' ' => r == PossibleValue(line, rest)
      case '\t' => r == PossibleValue(line, rest)
      case '=' => r == ParseVarValue(line, rest)
      case '\n' => r == Parsed(Nil, line.(mode := 8, value := "true"), rest)
      case '#' => r == ReadComment(line.(value := "true"), "#" + rest)
      case ';' => r == ReadComment(line.(value := "true"), ";" + rest)
      case _ => r.err == NameInvalid && r.rest == rest
  {
    hide ReadComment, ParseVarValue;
    var s := [c] + rest;
    assert s[0] == c && s[1..] == rest;
  }

  /** A key begins with a letter. */
  lemma KeyBegins(line: Line, c: char, rest: string)
    ensures ParseVariable(line, [c] + rest) ==
      if 'a' <= c <= 'z' || 'A' <= c <= 'Z' then ReadKey(line, [c], rest) else Parsed(NameInvalid, line, rest)
    ensures ParseVariable(line, "").err == NameInvalid
  {
    hide ReadKey;
    var s := [c] + rest;
    assert s[0] == c && s[1..] == rest;
  }

  /** A whole line: k = v. */
  lemma KeyAndValue(line: Line)
    requires line.value == ""
    ensures ParseVariable(line, "k = v\n") == Parsed(Nil, line.(mode := 16, key := "k", value := "v"), "")
  {
    hide ReadValue, ReadKey, ParseVariable, PossibleValue, ParseVarValue;
    KeyBegins(line, 'k', " = v\n");
    assert ['k'] + " = v\n" == "k = v\n" && [' '] + "= v\n" == " = v\n" && ['='] + " v\n" == "= v\n";
    KeyMeans(line, "k", ' ', "= v\n");
    var l := line.(mode := 8, key := "k");
    BehindKey(l, '=', " v\n");
    ValueBegins(l);
  }

  lemma ValueBegins(l: Line)
    requires l.value == ""
    ensures ParseVarValue(l, " v\n") == Parsed(Nil, l.(mode := 16, value := "v"), "")
  {
    hide ReadValue;
    assert " v\n"[1..] == "v\n" && Blanks("v\n") == 0;
    assert Blanks(" v\n") == 1;
    var m := l.(mode := 16);
    Char(m, "", "", 'v', "\n", "v\n", "v");
    Ends(m, "v", "v");
  }
}
