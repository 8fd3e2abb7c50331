/**
 The reader of INI variables as an object (lib/ini/reader.go): it takes one byte after the other, holds spaces back, and
 commits what it has to the variable; tied to the parsing functions.
 */
module IniReader {
  import opened Ini
  import opened IniValue
  import opened Tokens

  class Reader {
    const src: string
    var pos: nat
    var line: Line
    var buf: string
    var bufSpaces: string

    constructor (src: string)
      ensures this.src == src && pos == 0 && line == FRESH
    {
      this.src := src;
      pos, line, buf, bufSpaces := 0, FRESH, "", "";
    }

    ghost function Rest(): string
      reads this
    {
      if pos <= |src| then src[pos..] else ""
    }

    ghost function Buffers(quoted: bool, esc: bool): State
      reads this
    {
      State(line, buf, bufSpaces, quoted, esc)
    }

    method ReadByte() returns (b: char, eof: bool)
      requires pos <= |src|
      modifies this`pos
      ensures pos <= |src|
      ensures eof == (old(Rest()) == "")
      ensures if eof then pos == old(pos) == |src| else
        pos == old(pos) + 1 && b == src[old(pos)] == old(Rest())[0] && Rest() == old(Rest())[1..]
    {
      if pos == |src| {
        return ' ', true;
      }
      b, eof := src[pos], false;
      pos := pos + 1;
    }

    method UnreadByte()
      requires 0 < pos <= |src|
      modifies this`pos
      ensures pos == old(pos) - 1 && Rest() == [src[pos]] + old(Rest())
    {
      pos := pos - 1;
    }

    method ValueCommit(withSpaces: bool)
      modifies this`line, this`buf, this`bufSpaces
      ensures forall q, e :: Buffers(q, e) == Commit(old(Buffers(q, e)), withSpaces)
    {
      var val := buf;
      if withSpaces {
        val := val + bufSpaces;
      }
      assert old(line).value + buf + (if withSpaces then bufSpaces else "") == old(line).value + val;
      line := line.(value := line.value + val);
      buf := "";
      bufSpaces := "";
    }

    method ValueWriteByte(b: char)
      modifies this`buf, this`bufSpaces
      ensures forall q, e :: Buffers(q, e) == Write(old(Buffers(q, e)), b)
    {
      if |bufSpaces| > 0 {
        buf := buf + bufSpaces;
        bufSpaces := "";
      }
      buf := buf + [b];
    }

    /** What a method has read, against the parse of the text before it. */
    ghost predicate Did(err: Fault, p: Parsed)
      reads this
    {
      pos <= |src| && err == p.err && (err == Nil || err == EOF ==> line == p.line && Rest() == p.rest)
    }

    method ParseComment() returns (err: Fault)
      requires pos <= |src|
      modifies this`pos, this`line
      ensures Did(err, ReadComment(old(line), old(Rest())))
    {
      hide ReadComment, WithComment;
      var comment := "";
      line := line.(mode := WithComment(line.mode));
      err := Nil;
      ghost var p := ReadComment(old(line), Rest());
      CommentStarts(old(line), Rest());
      while true
        invariant pos <= |src| && p == CommentFrom(old(line), comment, Rest())
        invariant line == old(line).(mode := WithComment(old(line).mode)) && err == Nil
        decreases |src| - pos
      {
        CommentCases(old(line), comment, Rest());
        var b, eof := ReadByte();
        if eof {
          err := EOF;
          break;
        }
        if b == '\n' {
          break;
        }
        comment := comment + [b];
      }
      line := line.(others := comment);
    }

    /** The switch on the byte after a backslash; false when it may not follow one. */
    method EscapedByte(b: char, ghost quoted: bool) returns (ok: bool)
      modifies this`line, this`buf, this`bufSpaces
      ensures ok == (StepEsc(old(Buffers(quoted, true)), b) != Invalid)
      ensures ok ==> StepEsc(old(Buffers(quoted, true)), b) == More(Buffers(quoted, false))
    {
      ok := true;
      match b
      case '\n' =>
        line := line.(mode := MODE_MULTI);
        ValueCommit(true);
      case '\\' => ValueWriteByte(b);
      case '\"' => ValueWriteByte(b);
      case 'b' => buf := buf + "\U{0008}";
      case 'n' => buf := buf + "\n";
      case 't' => buf := buf + "\t";
      case _ => ok := false;
    }

    /** The switch on any other byte: what it does to the quotes, and whether the line or the value ends. */
    method UnescapedByte(b: char, quoted: bool) returns (inside: bool, esc: bool, isNewline: bool, comment: bool)
      modifies this`line, this`buf, this`bufSpaces
      ensures Step(old(Buffers(quoted, false)), b) ==
        if comment then ToComment(Buffers(inside, esc))
        else if isNewline then EndLine(Buffers(inside, esc)) else More(Buffers(inside, esc))
    {
      inside, esc, isNewline, comment := quoted, false, false, false;
      match b
      case ' ' =>
        if quoted {
          ValueWriteByte(b);
          return;
        }
        bufSpaces := bufSpaces + [b];
      case '\t' =>
        if quoted {
          ValueWriteByte(b);
          return;
        }
        bufSpaces := bufSpaces + [b];
      case '\\' =>
        esc := true;
      case '\"' =>
        if quoted {
          inside := false;
        } else {
          line := line.(isQuoted := true);
          inside := true;
        }
      case '\n' =>
        isNewline := true;
      case '#' =>
        if quoted {
          ValueWriteByte(b);
          return;
        }
        ValueCommit(false);
        comment := true;
      case ';' =>
        if quoted {
          ValueWriteByte(b);
          return;
        }
        ValueCommit(false);
        comment := true;
      case _ =>
        ValueWriteByte(b);
    }

    /** Leading blanks are skipped, and the first byte behind them is read. */
    method ConsumeSpaces() returns (b: char, eof: bool)
      requires pos <= |src|
      modifies this`pos
      ensures pos <= |src|
      ensures var s := old(Rest());
        var x := Blanks(s);
        eof == (x == |s|) && if eof then Rest() == "" else b == s[x] && pos > 0 && src[pos - 1] == b && [b] + Rest() == s[x..]
    {
      ghost var s, n := Rest(), 0;
      Tails(s, 0);
      b, eof := ReadByte();
      while !eof && (b == ' ' || b == '\t')
        invariant pos <= |src| && n <= |s| && forall i :: 0 <= i < n ==> IsBlank(s[i])
        invariant if eof then n == |s| && Rest() == ""
                  else n < |s| && b == s[n] && Rest() == s[n + 1..] && pos > 0 && src[pos - 1] == b
        decreases |src| - pos, if eof then 0 else 1
      {
        Tails(s, n + 1);
        b, eof := ReadByte();
        n := n + 1;
      }
      BlanksIs(s, n);
      Tails(s, n);
    }

    method ParseVarValue() returns (err: Fault)
      requires pos <= |src|
      modifies this
      ensures Did(err, IniValue.ParseVarValue(old(line), old(Rest())))
    {
      hide ReadValue, ReadComment, Blanks;
      buf, bufSpaces := "", "";
      ghost var s := Rest();
      var b, eof := ConsumeSpaces();
      if eof {
        line := line.(value := "");
        return EOF;
      }
      assert s[Blanks(s)..][1..] == s[Blanks(s) + 1..];
      if b == '#' || b == ';' {
        UnreadByte();
        line := line.(value := "");
        err := ParseComment();
        return;
      }
      if b == '\n' {
        line := line.(value := "");
        return Nil;
      }
      line := line.(mode := MODE_VALUE);
      UnreadByte();
      err := ParseQuotes();
    }

    /** The second loop of parseVarValue. */
    method ParseQuotes() returns (err: Fault)
      requires pos <= |src| && buf == "" && bufSpaces == ""
      modifies this
      ensures Did(err, ReadValue(State(old(line), "", "", false, false), old(Rest())))
    {
      hide ReadValue, Finish, Step, StepEsc, Commit, ReadComment;
      var quoted, esc, isNewline := false, false, false;
      ghost var p := ReadValue(Buffers(false, false), Rest());
      while !isNewline
        invariant pos <= |src|
        invariant if isNewline then p == Finish(Buffers(quoted, esc), Rest()) else p == ReadValue(Buffers(quoted, esc), Rest())
        decreases |src| - pos, !isNewline
      {
        ReadCases(Buffers(quoted, esc), Rest());
        StepIs(Buffers(quoted, esc));
        var b, eof := ReadByte();
        if eof {
          break;
        }
        if esc {
          var ok := EscapedByte(b, quoted);
          if !ok {
            return ValueInvalid;
          }
          esc := false;
          continue;
        }
        var comment;
        quoted, esc, isNewline, comment := UnescapedByte(b, quoted);
        if comment {
          UnreadByte();
          err := ParseComment();
          return;
        }
      }
      err := FinishValue(quoted, esc);
    }

    /** The end of parseVarValue: the quotes must be closed. */
    method FinishValue(quoted: bool, ghost esc: bool) returns (err: Fault)
      requires pos <= |src|
      modifies this`line, this`buf, this`bufSpaces
      ensures Did(err, Finish(old(Buffers(quoted, esc)), old(Rest())))
    {
      if quoted {
        return ValueInvalid;
      }
      ValueCommit(false);
      return Nil;
    }

    method ParsePossibleValue() returns (err: Fault)
      requires pos <= |src|
      modifies this
      ensures Did(err, PossibleValue(old(line), old(Rest())))
    {
      hide IniValue.ParseVarValue, ReadComment, PossibleValue;
      err := Nil;
      var isNewline := false;
      ghost var p := PossibleValue(line, Rest());
      while !isNewline
        invariant pos <= |src| && line == old(line)
        invariant p == if isNewline then Parsed(Nil, SingleTrue(line), Rest()) else PossibleValue(line, Rest())
        decreases |src| - pos, !isNewline
      {
        PossibleCases(line, Rest());
        var b, eof := ReadByte();
        if eof {
          break;
        }
        match b
        case '\n' =>
          isNewline := true;
        case ' ' => continue;
        case '\t' => continue;
        case '#' =>
          UnreadByte();
          line := line.(value := TRUE);
          err := ParseComment();
          return;
        case ';' =>
          UnreadByte();
          line := line.(value := TRUE);
          err := ParseComment();
          return;
        case '=' =>
          err := ParseVarValue();
          return;
        case _ =>
          return NameInvalid;
      }
      line := SingleTrue(line);
      return Nil;
    }

    method ParseVariable() returns (err: Fault)
      requires pos <= |src|
      modifies this
      ensures Did(err, IniValue.ParseVariable(old(line), old(Rest())))
    {
      hide IniValue.ParseVarValue, ReadComment, PossibleValue;
      buf := "";
      var b, eof := ReadByte();
      if eof {
        return NameInvalid;
      }
      if !IsLetter(b) {
        return NameInvalid;
      }
      buf := buf + [b];
      assert buf == [b];
      err := ParseKey();
    }

    /** The loop of parseVariable. */
    method ParseKey() returns (err: Fault)
      requires pos <= |src|
      modifies this
      ensures Did(err, ReadKey(old(line), old(buf), old(Rest())))
    {
      hide IniValue.ParseVarValue, ReadComment, PossibleValue, ReadKey, SingleTrue, KeyChar, IsSpace;
      ghost var p := ReadKey(line, buf, Rest());
      var isNewline := false;
      while !isNewline
        invariant pos <= |src| && line == old(line)
        invariant if isNewline then p == Parsed(Nil, SingleTrue(line.(key := buf)), Rest())
                  else p == ReadKey(line, buf, Rest())
        decreases |src| - pos, !isNewline
      {
        KeyCases(line, buf, Rest());
        var b, eof := ReadByte();
        if eof {
          break;
        }
        if b == '=' {
          line := line.(mode := MODE_SINGLE, key := buf);
          err := ParseVarValue();
          return;
        } else if b == '\n' {
          isNewline := true;
        } else if KeyChar(b) {
          buf := buf + [b];
        } else if b == '#' || b == ';' {
          UnreadByte();
          line := line.(mode := MODE_SINGLE, key := buf, value := TRUE);
          err := ParseComment();
          return;
        } else if IsSpace(b) {
          line := line.(mode := MODE_SINGLE, key := buf);
          err := ParsePossibleValue();
          return;
        } else {
          return NameInvalid;
        }
      }
      line := SingleTrue(line.(key := buf));
      return Nil;
    }
  }

  /** A comment of which a part was read before. */
  ghost function CommentFrom(line: Line, comment: string, s: string): Parsed {
    var p := ReadComment(line, s);
    p.(line := p.line.(others := comment + p.line.others))
  }

  lemma CommentStarts(line: Line, s: string)
    ensures CommentFrom(line, "", s) == ReadComment(line, s)
  {
    var p := ReadComment(line, s);
    assert "" + p.line.others == p.line.others;
  }

  /** One turn of parseComment. */
  lemma CommentCases(line: Line, comment: string, s: string)
    ensures CommentFrom(line, comment, s) ==
      if s == "" then Parsed(EOF, line.(mode := WithComment(line.mode), others := comment), "")
      else if s[0] == '\n' then Parsed(Nil, line.(mode := WithComment(line.mode), others := comment), s[1..])
      else CommentFrom(line, comment + [s[0]], s[1..])
  {
    hide WithComment;
    assert comment + "" == comment;
    if s != "" && s[0] != '\n' {
      var o := s[1..][..LineEnd(s[1..])];
      assert s[..LineEnd(s)] == [s[0]] + o;
      assert comment + ([s[0]] + o) == comment + [s[0]] + o;
      assert LineEnd(s) < |s| ==> s[LineEnd(s) + 1..] == s[1..][LineEnd(s[1..]) + 1..];
    }
  }

  /** A variable without a value. */
  function SingleTrue(line: Line): Line {
    line.(mode := MODE_SINGLE, value := TRUE)
  }

  /** One turn of parsePossibleValue. */
  lemma PossibleCases(line: Line, s: string)
    ensures PossibleValue(line, s) ==
      if s == "" then Parsed(Nil, SingleTrue(line), "")
      else if s[0] == '\n' then Parsed(Nil, SingleTrue(line), s[1..])
      else if IsBlank(s[0]) then PossibleValue(line, s[1..])
      else if StartsComment(s[0]) then ReadComment(line.(value := TRUE), s)
      else if s[0] == '=' then IniValue.ParseVarValue(line, s[1..])
      else Parsed(NameInvalid, line, s[1..])
  {
  }

  /** One turn of parseVariable. */
  lemma KeyCases(line: Line, key: string, s: string)
    ensures ReadKey(line, key, s) ==
      var l := line.(mode := MODE_SINGLE, key := key);
      if s == "" then Parsed(Nil, SingleTrue(line.(key := key)), "")
      else if s[0] == '=' then IniValue.ParseVarValue(l, s[1..])
      else if s[0] == '\n' then Parsed(Nil, SingleTrue(line.(key := key)), s[1..])
      else if KeyChar(s[0]) then ReadKey(line, key + [s[0]], s[1..])
      else if StartsComment(s[0]) then ReadComment(l.(value := TRUE), s)
      else if IsSpace(s[0]) then PossibleValue(l, s[1..])
      else Parsed(NameInvalid, line, s[1..])
  {
  }

  lemma StepIs(st: State)
    ensures st.esc ==> forall c :: Step(st, c) == StepEsc(st, c)
  {
  }

  /** What is left of s from n on. */
  lemma Tails(s: string, n: nat)
    requires n <= |s|
    ensures s[n..] == "" <==> n == |s|
    ensures n < |s| ==> s[n..][0] == s[n] && s[n..][1..] == s[n + 1..] && [s[n]] + s[n + 1..] == s[n..]
    ensures n == 0 ==> s[n..] == s
  {
  }

  lemma BlanksIs(s: string, x: nat)
    requires x <= |s| && (forall i :: 0 <= i < x ==> IsBlank(s[i])) && (x < |s| ==> !IsBlank(s[x]))
    ensures Blanks(s) == x
  {
  }

  /** One turn of the value loop. */
  lemma ReadCases(st: State, s: string)
    ensures ReadValue(st, s) ==
      if s == "" then Finish(st, "")
      else
        var a := Step(st, s[0]);
        if a.More? then ReadValue(a.st, s[1..])
        else if a.EndLine? then Finish(a.st, s[1..])
        else if a.ToComment? then ReadComment(a.st.line, s)
        else Parsed(ValueInvalid, st.line, s[1..])
  {
  }
}
