/**
 Values of INI variables in text (lib/ini/variable.go, lib/ini/reader.go): escaping and printing, the byte-at-a-time
 reader, and when reading gives back what was printed.
 */
module IniValue {
  import opened Ini
  import opened Tokens

  datatype Line = Line(mode: nat, key: string, value: string, others: string, isQuoted: bool)

  datatype Fault = Nil | EOF | ValueInvalid | NameInvalid

  /** How a parse ends: the line read so far and the rest of the text. */
  datatype Parsed = Parsed(err: Fault, line: Line, rest: string)

  // ---------------------------------------------------------------- printing

  function EscapeChar(c: char): string {
    if c == '\U{0008}' then "\\b"
    else if c == '\n' then "\\n"
    else if c == '\t' then "\\t"
    else if c == '\\' then "\\\\"
    else if c == '\"' then "\\\""
    else [c]
  }

  function EscapeAll(v: string): string {
    if v == "" then "" else EscapeChar(v[0]) + EscapeAll(v[1..])
  }

  function Escaped(v: string): string {
    "\"" + EscapeAll(v) + "\""
  }

  method Escape(value: string) returns (out: string)
    ensures out == Escaped(value)
  {
    hide EscapeChar;
    out := "\"";
    assert value[0..] == value;
    for i := 0 to |value|
      invariant out + EscapeAll(value[i..]) == "\"" + EscapeAll(value)
    {
      ghost var before := out;
      assert value[i..][1..] == value[i + 1..];
      out := AppendEscaped(out, value[i]);
      assert out + EscapeAll(value[i + 1..]) == before + (EscapeChar(value[i]) + EscapeAll(value[i + 1..]));
    }
    assert out + EscapeAll("") == out;
    out := out + "\"";
  }

  /** The switch of escape, on one character. */
  method AppendEscaped(buf: string, c: char) returns (out: string)
    ensures out == buf + EscapeChar(c)
  {
    match c
    case '\U{0008}' => out := buf + "\\b";
    case '\n' => out := buf + "\\n";
    case '\t' => out := buf + "\\t";
    case '\\' => out := buf + "\\\\";
    case '\"' => out := buf + "\\\"";
    case _ => out := buf + [c];
  }

  function Text(v: Line): string {
    if v.isQuoted then Escaped(v.value) else v.value
  }

  /** variable.String, for a variable without the format of a line it was read from. */
  function Printed(v: Line): string {
    if v.mode == MODE_EMPTY then ""
    else if v.mode == MODE_COMMENT then v.others + "\n"
    else if v.mode == MODE_SINGLE then v.key + " = true\n"
    else if v.mode == MODE_SINGLE + MODE_COMMENT then v.key + " = true " + v.others + "\n"
    else if v.mode == MODE_VALUE || v.mode == MODE_MULTI then v.key + " = " + Text(v) + "\n"
    else if v.mode == MODE_VALUE + MODE_COMMENT || v.mode == MODE_MULTI + MODE_COMMENT then
      v.key + " = " + Text(v) + " " + v.others + "\n"
    else ""
  }

  // ---------------------------------------------------------------- reading a value, as functions

  predicate IsBlank(c: char) {
    c == ' ' || c == '\t'
  }

  predicate StartsComment(c: char) {
    c == '#' || c == ';'
  }

  /** The buffers of the reader while it is in a value. */
  datatype State = State(line: Line, buf: string, spaces: string, quoted: bool, esc: bool)

  datatype Action = More(st: State) | EndLine(st: State) | ToComment(st: State) | Invalid

  /** valueCommit */
  function Commit(st: State, withSpaces: bool): State {
    st.(line := st.line.(value := st.line.value + st.buf + if withSpaces then st.spaces else ""), buf := "", spaces := "")
  }

  /** valueWriteByte: the spaces held back come first. */
  function Write(st: State, c: char): State {
    st.(buf := st.buf + st.spaces + [c], spaces := "")
  }

  function StepEsc(st: State, c: char): Action {
    if c == '\n' then More(Commit(st.(line := st.line.(mode := MODE_MULTI)), true).(esc := false))
    else if c == '\\' || c == '\"' then More(Write(st, c).(esc := false))
    else if c == 'b' then More(st.(buf := st.buf + "\U{0008}", esc := false))
    else if c == 'n' then More(st.(buf := st.buf + "\n", esc := false))
    else if c == 't' then More(st.(buf := st.buf + "\t", esc := false))
    else Invalid
  }

  function Step(st: State, c: char): Action {
    if st.esc then StepEsc(st, c)
    else if IsBlank(c) then More(if st.quoted then Write(st, c) else st.(spaces := st.spaces + [c]))
    else if c == '\\' then More(st.(esc := true))
    else if c == '\"' then
      More(if st.quoted then st.(quoted := false) else st.(quoted := true, line := st.line.(isQuoted := true)))
    else if c == '\n' then EndLine(st)
    else if StartsComment(c) then
      if st.quoted then More(Write(st, c)) else ToComment(Commit(st, false))
    else More(Write(st, c))
  }

  function WithComment(mode: nat): nat {
    if mode % 2 == 1 then mode else mode + MODE_COMMENT
  }

  /** parseComment: at the end of the text the line counts, and the end is reported. */
  function ReadComment(line: Line, s: string): Parsed {
    var x := LineEnd(s);
    Parsed(if x < |s| then Nil else EOF, line.(mode := WithComment(line.mode), others := s[..x]),
           if x < |s| then s[x + 1..] else "")
  }

  function Finish(st: State, rest: string): Parsed {
    if st.quoted then Parsed(ValueInvalid, st.line, rest) else Parsed(Nil, Commit(st, false).line, rest)
  }

  /** The loop of parseVarValue. */
  function ReadValue(st: State, s: string): Parsed
    decreases |s|
  {
    if s == "" then Finish(st, "")
    else
      match Step(st, s[0])
      case More(t) => ReadValue(t, s[1..])
      case EndLine(t) => Finish(t, s[1..])
      case ToComment(t) => ReadComment(t.line, s)
      case Invalid => Parsed(ValueInvalid, st.line, s[1..])
  }

  function Blanks(s: string): (x: nat)
    ensures x <= |s|
    ensures forall i :: 0 <= i < x ==> IsBlank(s[i])
    ensures x < |s| ==> !IsBlank(s[x])
  {
    if s == "" || !IsBlank(s[0]) then 0 else 1 + Blanks(s[1..])
  }

  /** parseVarValue: leading blanks are skipped; a value that starts is of mode value. */
  function ParseVarValue(line: Line, s: string): Parsed {
    var x := Blanks(s);
    if x == |s| then Parsed(EOF, line.(value := ""), "")
    else if StartsComment(s[x]) then ReadComment(line.(value := ""), s[x..])
    else if s[x] == '\n' then Parsed(Nil, line.(value := ""), s[x + 1..])
    else ReadValue(State(line.(mode := MODE_VALUE), "", "", false, false), s[x..])
  }

  // ---------------------------------------------------------------- quoted values

  lemma {:induction false} EscapedFeeds(st: State, v: string, rest: string)
    requires st.quoted && !st.esc && st.spaces == ""
    ensures ReadValue(st, EscapeAll(v) + rest) == ReadValue(st.(buf := st.buf + v), rest)
    decreases |v|
  {
    hide ReadValue, EscapeChar;
    if v == "" {
      assert EscapeAll(v) + rest == rest && st.buf + v == st.buf;
    } else {
      var more := EscapeAll(v[1..]) + rest;
      assert EscapeAll(v) + rest == EscapeChar(v[0]) + more;
      CharFeeds(st, v[0], more);
      var t := st.(buf := st.buf + [v[0]]);
      EscapedFeeds(t, v[1..], rest);
      assert st.buf + [v[0]] + v[1..] == st.buf + v;
    }
  }

  lemma CharFeeds(st: State, c: char, more: string)
    requires st.quoted && !st.esc && st.spaces == ""
    ensures ReadValue(st, EscapeChar(c) + more) == ReadValue(st.(buf := st.buf + [c]), more)
  {
    hide Finish, ReadComment;
    var s := EscapeChar(c) + more;
    var t := st.(buf := st.buf + [c]);
    assert st.buf + "" + [c] == st.buf + [c];
    if |EscapeChar(c)| == 1 {
      assert s[0] == c && s[1..] == more;
      assert Step(st, c) == More(t);
    } else {
      assert s[0] == '\\' && s[1..][0] == EscapeChar(c)[1] && s[1..][1..] == more;
      assert Step(st, '\\') == More(st.(esc := true));
      assert Step(st.(esc := true), EscapeChar(c)[1]) == More(t);
      assert ReadValue(st, s) == ReadValue(st.(esc := true), s[1..]) == ReadValue(t, more);
    }
  }

  /** After the closing quote comes the end of the line, or a blank and a comment. */
  ghost predicate Tail(line: Line, tail: string, after: Line, rest: string) {
    || (tail == "\n" + rest && after == line)
    || (exists others: string :: CommentText(others) && tail == " " + others + "\n" + rest
          && after == line.(mode := line.mode + MODE_COMMENT, others := others))
  }

  predicate CommentText(others: string) {
    others != "" && StartsComment(others[0]) && LineEnd(others) == |others|
  }

  lemma TailFeeds(line: Line, buf: string, tail: string, after: Line, rest: string)
    requires Tail(line.(value := line.value + buf), tail, after, rest) && line.mode == MODE_VALUE
    ensures ReadValue(State(line, buf, "", false, false), tail) == Parsed(Nil, after, rest)
  {
    hide ReadValue, CommentText;
    var st := State(line, buf, "", false, false);
    var l := line.(value := line.value + buf);
    assert line.value + buf + "" == line.value + buf;
    if tail == "\n" + rest && after == l {
      EndOfLine(st, tail, rest);
    } else {
      var others: string :| CommentText(others) && tail == " " + others + "\n" + rest
          && after == l.(mode := l.mode + MODE_COMMENT, others := others);
      CommentFeeds(st, others, tail, rest);
    }
  }

  lemma EndOfLine(st: State, s: string, rest: string)
    requires s == "\n" + rest && !st.esc && !st.quoted
    ensures ReadValue(st, s) == Parsed(Nil, Commit(st, false).line, rest)
  {
    assert s[0] == '\n' && s[1..] == rest;
  }

  lemma OneMore(st: State, s: string, t: State)
    requires s != "" && Step(st, s[0]) == More(t)
    ensures ReadValue(st, s) == ReadValue(t, s[1..])
  {
  }

  lemma CommentFeeds(st: State, others: string, tail: string, rest: string)
    requires CommentText(others) && tail == " " + others + "\n" + rest
    requires !st.quoted && !st.esc && st.line.mode % 2 == 0
    ensures ReadValue(st, tail) == Parsed(Nil, st.line.(value := st.line.value + st.buf + "", mode := st.line.mode + MODE_COMMENT,
                                                        others := others), rest)
  {
    var s := tail[1..];
    assert tail[0] == ' ' && s == others + "\n" + rest && s[0] == others[0];
    LineEndIs(s, |others|);
    assert s[..|others|] == others && s[|others| + 1..] == rest;
    var t := st.(spaces := st.spaces + [' ']);
    OneMore(st, tail, t);
    assert Step(t, s[0]) == ToComment(Commit(t, false));
  }

  /** Reading an escaped value gives back exactly that value, whatever it holds. */
  lemma QuotedRoundTrip(line: Line, v: string, tail: string, after: Line, rest: string)
    requires line.value == ""
    requires Tail(line.(mode := MODE_VALUE, value := v, isQuoted := true), tail, after, rest)
    ensures ParseVarValue(line, Escaped(v) + tail) == Parsed(Nil, after, rest)
  {
    hide Tail, EscapeAll, Finish, ReadComment;
    var s := Escaped(v) + tail;
    var l := line.(mode := MODE_VALUE, isQuoted := true);
    var closing := "\"" + tail;
    assert s[0] == '\"' && s[1..] == EscapeAll(v) + closing && s[0..] == s;
    var st := State(line.(mode := MODE_VALUE), "", "", false, false);
    var inside := State(l, "", "", true, false);
    assert Step(st, '\"') == More(inside);
    EscapedFeeds(inside, v, closing);
    assert "" + v == v;
    var done := State(l, v, "", true, false);
    assert closing[0] == '\"' && closing[1..] == tail;
    assert Step(done, '\"') == More(done.(quoted := false));
    assert l.value + v == v;
    TailFeeds(l, v, tail, after, rest);
  }

  // ---------------------------------------------------------------- plain values

  predicate Special(c: char) {
    c == '\\' || c == '\"' || c == '\n' || StartsComment(c)
  }

  predicate NoSpecial(v: string) {
    forall i :: 0 <= i < |v| ==> !Special(v[i])
  }

  /** Values that can be written without quotes. */
  predicate Plain(v: string) {
    NoSpecial(v) && (v != "" ==> !IsBlank(v[0]) && !IsBlank(v[|v| - 1]))
  }

  lemma {:induction false} PlainFeeds(st: State, v: string, tail: string)
    requires !st.quoted && !st.esc && NoSpecial(v) && v != "" && !IsBlank(v[|v| - 1])
    ensures ReadValue(st, v + tail) == ReadValue(st.(buf := st.buf + st.spaces + v, spaces := ""), tail)
    decreases |v|
  {
    hide Finish, ReadComment;
    var s, c, w := v + tail, v[0], v[1..];
    assert !Special(c);
    assert s[0] == c && s[1..] == w + tail;
    if IsBlank(c) {
      var t := st.(spaces := st.spaces + [c]);
      assert Step(st, c) == More(t);
      PlainFeeds(t, w, tail);
      assert st.buf + (st.spaces + [c]) + w == st.buf + st.spaces + v;
    } else {
      var t := Write(st, c);
      assert Step(st, c) == More(t);
      if w == "" {
        assert st.buf + st.spaces + [c] == st.buf + st.spaces + v && w + tail == tail;
      } else {
        PlainFeeds(t, w, tail);
        assert st.buf + st.spaces + [c] + "" + w == st.buf + st.spaces + v;
      }
    }
  }

  lemma PlainRoundTrip(line: Line, v: string, tail: string, after: Line, rest: string)
    requires line.value == "" && Plain(v) && v != ""
    requires Tail(line.(mode := MODE_VALUE, value := v), tail, after, rest)
    ensures ParseVarValue(line, v + tail) == Parsed(Nil, after, rest)
  {
    hide Tail, Finish, ReadComment, ReadValue;
    var s := v + tail;
    var l := line.(mode := MODE_VALUE);
    assert s[0] == v[0] && s[0..] == s && !Special(v[0]);
    PlainFeeds(State(l, "", "", false, false), v, tail);
    assert "" + "" + v == v && l.value + v == v;
    TailFeeds(l, v, tail, after, rest);
  }

  /** Characters the value can still come to. */
  function Size(st: State): nat {
    |st.line.value| + |st.buf| + |st.spaces|
  }

  ghost predicate Ends(s: string) {
    s != "" && s[|s| - 1] == '\n'
  }

  lemma StepSize(st: State, c: char)
    ensures Step(st, c).More? ==> Size(Step(st, c).st) <= Size(st) + 1
    ensures Step(st, c).More? && c == '\n' ==> Size(Step(st, c).st) == Size(st)
    ensures Step(st, c).More? && !st.esc && (c == '\\' || c == '\"') ==> Size(Step(st, c).st) == Size(st)
    ensures Step(st, c).EndLine? ==> Step(st, c).st == st && c == '\n'
    ensures Step(st, c).ToComment? ==> |Step(st, c).st.line.value| <= Size(st)
  {
  }

  lemma FinishSize(st: State, rest: string)
    ensures Finish(st, rest).err == Nil ==> |Finish(st, rest).line.value| <= |st.line.value| + |st.buf|
  {
  }

  /** A value has at most the characters of its text, without the end of the line. */
  lemma {:induction false} ValueBound(st: State, s: string)
    requires Ends(s)
    ensures var p := ReadValue(st, s); p.err == Nil ==> |p.line.value| <= Size(st) + |s| - 1
    decreases |s|
  {
    hide Step, Finish, Size;
    var c, w := s[0], s[1..];
    StepSize(st, c);
    FinishSize(st, w);
    assert |st.line.value| + |st.buf| <= Size(st) by {
      SizeParts(st);
    }
    match Step(st, c)
    case More(t) =>
      if w == "" {
        FinishSize(t, w);
        SizeParts(t);
        assert ReadValue(st, s) == ReadValue(t, w) == Finish(t, "");
      } else {
        ValueBound(t, w);
      }
    case EndLine(t) =>
    case ToComment(t) =>
    case Invalid =>
  }

  lemma SizeParts(st: State)
    ensures |st.line.value| + |st.buf| <= Size(st)
  {
  }

  /** A special character does not make it into an unquoted value. */
  lemma {:induction false} SpecialLost(st: State, s: string, i: nat)
    requires Ends(s) && i < |s| - 1 && Special(s[i]) && NoSpecial(s[..i]) && !st.quoted && !st.esc
    ensures var p := ReadValue(st, s); p.err == Nil ==> |p.line.value| < Size(st) + |s| - 1
    decreases |s|
  {
    var c, w := s[0], s[1..];
    StepSize(st, c);
    if i == 0 {
      hide Size;
      SizeParts(st);
      FinishSize(st, w);
      match Step(st, c)
      case More(t) => ValueBound(t, w);
      case EndLine(t) =>
      case ToComment(t) =>
      case Invalid =>
    } else {
      assert c == s[..i][0] && w[..i - 1] == s[..i][1..];
      SpecialLost(Step(st, c).st, w, i - 1);
    }
  }

  /** Nor does a blank at the end. */
  lemma {:induction false} TrailLost(st: State, v: string)
    requires NoSpecial(v) && v != "" && IsBlank(v[|v| - 1]) && !st.quoted && !st.esc
    ensures var p := ReadValue(st, v + "\n"); p.err == Nil ==> |p.line.value| < Size(st) + |v|
    decreases |v|
  {
    var s, c, w := v + "\n", v[0], v[1..];
    assert s[0] == c && s[1..] == w + "\n" && !Special(c);
    StepSize(st, c);
    var t := Step(st, c).st;
    if w == "" {
      assert s[1..][0] == '\n' && Step(t, '\n') == EndLine(t);
      assert ReadValue(st, s) == ReadValue(t, "\n") == Finish(t, s[1..][1..]);
      FinishSize(t, s[1..][1..]);
      assert |t.spaces| >= 1;
    } else {
      TrailLost(t, w);
    }
  }

  /** A value written without quotes is read back exactly when it is plain. */
  lemma PlainExact(line: Line, v: string)
    requires line.value == ""
    ensures var p := ParseVarValue(line, v + "\n"); p.err == Nil && p.line.value == v <==> Plain(v)
  {
    hide ReadValue, Size;
    var s := v + "\n";
    var st := State(line.(mode := MODE_VALUE), "", "", false, false);
    assert Size(st) == 0 by {
      SizeOfEmpty(st);
    }
    if v == "" {
      assert s[0] == '\n' && s[0..] == s;
    } else if Plain(v) {
      var after := line.(mode := MODE_VALUE, value := v);
      assert "\n" + "" == "\n";
      assert Tail(after, "\n", after, "");
      PlainRoundTrip(line, v, "\n", after, "");
    } else if IsBlank(v[0]) {
      assert s[0] == v[0];
      var x := Blanks(s);
      assert x > 0 && x <= |v| by {
        assert !IsBlank(s[|v|]);
      }
      ValueBound(st, s[x..]);
    } else if NoSpecial(v) {
      assert s[0] == v[0] && !Special(v[0]) && s[0..] == s;
      TrailLost(st, v);
    } else {
      NotSpecialFirst(v, line);
    }
  }

  lemma SizeOfEmpty(st: State)
    requires st.line.value == "" && st.buf == "" && st.spaces == ""
    ensures Size(st) == 0
  {
  }

  lemma NotSpecialFirst(v: string, line: Line)
    requires line.value == "" && v != "" && !IsBlank(v[0]) && !NoSpecial(v)
    ensures var p := ParseVarValue(line, v + "\n"); p.err == Nil ==> p.line.value != v
  {
    var s := v + "\n";
    var st := State(line.(mode := MODE_VALUE), "", "", false, false);
    var i := FirstSpecial(v);
    assert s[0] == v[0] && s[0..] == s && s[i] == v[i] && s[..i] == v[..i];
    SpecialLost(st, s, i);
  }

  lemma FirstSpecial(v: string) returns (i: nat)
    requires !NoSpecial(v)
    ensures i < |v| && Special(v[i]) && NoSpecial(v[..i])
  {
    i := 0;
    while !Special(v[i])
      invariant i < |v| && NoSpecial(v[..i])
      decreases |v| - i
    {
      assert forall j :: 0 <= j <= i ==> !Special(v[j]) by {
        assert forall j :: 0 <= j < i ==> v[..i][j] == v[j];
      }
      i := i + 1;
    }
  }

  // ---------------------------------------------------------------- whole lines

  predicate IsLetter(c: char) {
    'a' <= c <= 'z' || 'A' <= c <= 'Z'
  }

  predicate IsSpace(c: char) {
    c == ' ' || '\t' <= c <= '\r'
  }

  predicate KeyChar(c: char) {
    IsLetter(c) || '0' <= c <= '9' || c == '-' || c == '.' || c == '_'
  }

  predicate ValidKey(key: string) {
    key != "" && IsLetter(key[0]) && forall i :: 0 <= i < |key| ==> KeyChar(key[i])
  }

  /** parsePossibleValue */
  function PossibleValue(line: Line, s: string): Parsed {
    if s == "" then Parsed(Nil, line.(mode := MODE_SINGLE, value := TRUE), "")
    else if s[0] == '\n' then Parsed(Nil, line.(mode := MODE_SINGLE, value := TRUE), s[1..])
    else if IsBlank(s[0]) then PossibleValue(line, s[1..])
    else if StartsComment(s[0]) then ReadComment(line.(value := TRUE), s)
    else if s[0] == '=' then ParseVarValue(line, s[1..])
    else Parsed(NameInvalid, line, s[1..])
  }

  /** The loop of parseVariable, with the key so far. */
  function ReadKey(line: Line, key: string, s: string): Parsed
    decreases |s|
  {
    var l := line.(mode := MODE_SINGLE, key := key);
    if s == "" then Parsed(Nil, l.(value := TRUE), "")
    else if s[0] == '=' then ParseVarValue(l, s[1..])
    else if s[0] == '\n' then Parsed(Nil, l.(value := TRUE), s[1..])
    else if KeyChar(s[0]) then ReadKey(line, key + [s[0]], s[1..])
    else if StartsComment(s[0]) then ReadComment(l.(value := TRUE), s)
    else if IsSpace(s[0]) then PossibleValue(l, s[1..])
    else Parsed(NameInvalid, line, s[1..])
  }

  /** parseVariable */
  function ParseVariable(line: Line, s: string): Parsed {
    if s == "" then Parsed(NameInvalid, line, "")
    else if !IsLetter(s[0]) then Parsed(NameInvalid, line, s[1..])
    else ReadKey(line, [s[0]], s[1..])
  }

  lemma {:induction false} KeyFeeds(line: Line, key: string, more: string, text: string)
    requires forall i :: 0 <= i < |more| ==> KeyChar(more[i])
    ensures ReadKey(line, key, more + " = " + text)
         == ParseVarValue(line.(mode := MODE_SINGLE, key := key + more), " " + text)
    decreases |more|
  {
    hide ParseVarValue, ReadComment;
    var s := more + " = " + text;
    if more == "" {
      assert s[0] == ' ' && s[1..] == "= " + text && s[1..][0] == '=' && s[1..][1..] == " " + text;
      assert key + more == key;
    } else {
      assert s[0] == more[0] && s[1..] == more[1..] + " = " + text;
      KeyFeeds(line, key + [more[0]], more[1..], text);
      assert key + [more[0]] + more[1..] == key + more;
    }
  }

  lemma ParseKey(line: Line, key: string, text: string)
    requires ValidKey(key)
    ensures ParseVariable(line, key + " = " + text)
         == ParseVarValue(line.(mode := MODE_SINGLE, key := key), " " + text)
  {
    var s := key + " = " + text;
    assert s[0] == key[0] && s[1..] == key[1..] + " = " + text;
    KeyFeeds(line, [key[0]], key[1..], text);
    assert [key[0]] + key[1..] == key;
  }

  lemma BlankFirst(line: Line, text: string)
    ensures ParseVarValue(line, " " + text) == ParseVarValue(line, text)
  {
    hide ReadValue, ReadComment;
    var s := " " + text;
    assert s[1..] == text && Blanks(s) == 1 + Blanks(text);
    assert s[Blanks(s)..] == text[Blanks(text)..];
  }

  const FRESH := Line(MODE_EMPTY, "", "", "", false)

  predicate Printable(v: Line) {
    && ValidKey(v.key)
    && (v.mode == MODE_VALUE || v.mode == MODE_MULTI || v.mode == MODE_VALUE + MODE_COMMENT || v.mode == MODE_MULTI + MODE_COMMENT)
    && (if v.mode % 2 == 1 then CommentText(v.others) else v.others == "")
  }

  /** A printed variable is read back, with its comment; a value over several lines comes back on one. */
  lemma PrintedRoundTrip(v: Line, rest: string)
    requires Printable(v) && (v.isQuoted || (Plain(v.value) && v.value != ""))
    ensures ParseVariable(FRESH, Printed(v) + rest)
         == Parsed(Nil, v.(mode := if v.mode % 2 == 1 then MODE_VALUE + MODE_COMMENT else MODE_VALUE), rest)
  {
    hide ReadValue, ReadComment, Escaped, ParseVariable, ParseVarValue, Plain, CommentText;
    var tail := if v.mode % 2 == 1 then " " + v.others + "\n" + rest else "\n" + rest;
    var text := Text(v) + tail;
    assert Printed(v) + rest == v.key + " = " + text;
    ParseKey(FRESH, v.key, text);
    var line := FRESH.(mode := MODE_SINGLE, key := v.key);
    BlankFirst(line, text);
    var got := line.(mode := MODE_VALUE, value := v.value, isQuoted := v.isQuoted);
    var after := v.(mode := if v.mode % 2 == 1 then MODE_VALUE + MODE_COMMENT else MODE_VALUE);
    assert Tail(got, tail, after, rest);
    if v.isQuoted {
      QuotedRoundTrip(line, v.value, tail, after, rest);
    } else {
      PlainRoundTrip(line, v.value, tail, after, rest);
    }
  }

  /** A printed line gives back its value exactly when the value is quoted, or plain. */
  lemma PrintedExact(v: Line)
    requires Printable(v) && v.mode % 2 == 0
    ensures var p := ParseVariable(FRESH, Printed(v)); p.err == Nil && p.line.value == v.value <==> v.isQuoted || Plain(v.value)
  {
    hide Plain, ParseVarValue, ParseVariable, ReadValue;
    assert Printed(v) + "" == Printed(v);
    if v.isQuoted {
      PrintedRoundTrip(v, "");
    } else {
      var text := v.value + "\n";
      assert Printed(v) == v.key + " = " + text;
      ParseKey(FRESH, v.key, text);
      var line := FRESH.(mode := MODE_SINGLE, key := v.key);
      BlankFirst(line, text);
      PlainExact(line, v.value);
    }
  }

  lemma UnquotedRead(l: Line)
    requires l.value == ""
    ensures ReadValue(State(l, "", "", false, false), "a\\nb\n") == Parsed(Nil, l.(value := "a\nb"), "")
  {
    hide ReadValue, Finish;
    var s0 := State(l, "", "", false, false);
    OneMore(s0, "a\\nb\n", s0.(buf := "a"));
    assert "a\\nb\n"[1..] == "\\nb\n" && "\\nb\n"[1..] == "nb\n" && "nb\n"[1..] == "b\n" && "b\n"[1..] == "\n";
    OneMore(s0.(buf := "a"), "\\nb\n", s0.(buf := "a", esc := true));
    OneMore(s0.(buf := "a", esc := true), "nb\n", s0.(buf := "a\n"));
    OneMore(s0.(buf := "a\n"), "b\n", s0.(buf := "a\nb"));
    EndOfLine(s0.(buf := "a\nb"), "\n", "");
  }

  const SPLIT := Line(MODE_VALUE, "k", "a\nb", "", false)

  lemma UnquotedParse()
    ensures ParseVariable(FRESH, "k = a\\nb\n") == Parsed(Nil, SPLIT, "")
  {
    hide ReadValue, ParseVariable;
    var line := FRESH.(mode := MODE_SINGLE, key := "k");
    var text := "a\\nb\n";
    assert "k = a\\nb\n" == "k" + " = " + text;
    ParseKey(FRESH, "k", text);
    BlankFirst(line, text);
    UnquotedRead(line.(mode := MODE_VALUE));
    assert text[0..] == text && Blanks(text) == 0;
    assert ParseVarValue(line, text) == ReadValue(State(line.(mode := MODE_VALUE), "", "", false, false), text);
  }

  lemma SplitNotPlain()
    ensures !Plain("a\nb") && Printable(SPLIT)
  {
    assert Special("a\nb"[1]);
  }

  /** A value with an escaped line end but no quotes is read, then printed so that it is lost. */
  lemma UnquotedLost()
    ensures ParseVariable(FRESH, "k = a\\nb\n") == Parsed(Nil, SPLIT, "")
    ensures var p := ParseVariable(FRESH, Printed(SPLIT)); !(p.err == Nil && p.line.value == SPLIT.value)
  {
    hide ParseVariable, Printed, Plain, Printable;
    UnquotedParse();
    SplitNotPlain();
    PrintedExact(SPLIT);
  }
}
