/**
 Delimiter-separated values (lib/dsv): writing a row of string columns and parsing it back, as functions on the text of
 a file. A quoted value may run over several lines.
 */
module Dsv {
  import opened Tokens

  /** The marks of a column; an empty one is not used. */
  datatype Column = Column(lq: string, rq: string, sep: string, skip: bool)

  datatype Fault = MissLeftQuote | MissRightQuote | MissSeparator | OutOfRange

  // ---------------------------------------------------------------- writing

  /** The value with the escape character and the closing mark escaped: the right quote, or else the separator. */
  function EscapeCell(col: Column, v: string): string {
    var e := Enclosed(v, "\\", 0, "\\", "");
    if col.rq != "" then Enclosed(e, col.rq, 0, "\\", "")
    else if col.sep != "" then Enclosed(e, col.sep, 0, "\\", "")
    else e
  }

  /** For marks of one character every occurrence is escaped. */
  lemma EscapeOne(col: Column, v: string)
    requires |col.rq| <= 1 && |col.sep| <= 1
    ensures var e := Marked(v, '\\', "\\", "");
      EscapeCell(col, v) ==
        if col.rq != "" then Marked(e, col.rq[0], "\\", "")
        else if col.sep != "" then Marked(e, col.sep[0], "\\", "")
        else e
  {
    hide Enclosed, Marked;
    EnclosedOne(v, "\\", 0, "\\", "");
    assert v[0..] == v;
    var e := Marked(v, '\\', "\\", "");
    assert e[0..] == e;
    if col.rq != "" {
      EnclosedOne(e, col.rq, 0, "\\", "");
    } else if col.sep != "" {
      EnclosedOne(e, col.sep, 0, "\\", "");
    }
  }

  function CellText(col: Column, v: string): string {
    col.lq + EscapeCell(col, v) + col.rq + col.sep
  }

  function CellsText(cols: seq<Column>, row: seq<string>): string {
    if cols == [] || row == [] then "" else CellText(cols[0], row[0]) + CellsText(cols[1..], row[1..])
  }

  function RowText(cols: seq<Column>, row: seq<string>): string {
    CellsText(cols, row) + "\n"
  }

  // ---------------------------------------------------------------- parsing

  predicate IsSpace(c: char) {
    c == ' ' || c == '\t' || c == '\n' || c == '\r'
  }

  /** parsingSkipSpace */
  function SkipSpace(line: string, p: nat): (r: nat)
    ensures r >= p && (forall i :: p <= i < r ==> i < |line| && IsSpace(line[i]))
    ensures r < |line| ==> !IsSpace(line[r])
    decreases |line| - p
  {
    if p < |line| && IsSpace(line[p]) then SkipSpace(line, p + 1) else p
  }

  /** A value up to the right quote, the line it ends in, the place behind it, and the unread rest of the file. */
  datatype Quoted = Quoted(v: string, line: string, p: nat, text: string, found: bool)

  /** parsingRightQuote: without a right quote in the line, the next line is joined to it. */
  function RightQuote(rq: string, line: string, p: nat, text: string): (q: Quoted)
    requires rq != ""
    ensures |q.text| <= |text|
    decreases |text|
  {
    var c := Cut(line, rq, p, true, false);
    CutRange(line, rq, p, true, false);
    if c.found then Quoted(c.v, line, c.p, text, true)
    else
      var x := LineEnd(text);
      if x == |text| then Quoted(c.v, line + "\n" + text, c.p, "", false)
      else
        var q := RightQuote(rq, line + "\n" + text[..x], c.p, text[x + 1..]);
        q.(v := c.v + q.v)
  }

  /** RightQuote, case by case. */
  lemma RightQuoteUnfolds(rq: string, line: string, p: nat, text: string)
    requires rq != ""
    ensures Cut(line, rq, p, true, false).p >= p
    ensures var c, x := Cut(line, rq, p, true, false), LineEnd(text);
      RightQuote(rq, line, p, text) ==
        if c.found then Quoted(c.v, line, c.p, text, true)
        else if x == |text| then Quoted(c.v, line + "\n" + text, c.p, "", false)
        else var q := RightQuote(rq, line + "\n" + text[..x], c.p, text[x + 1..]); q.(v := c.v + q.v)
  {
    hide Cut;
    CutRange(line, rq, p, true, false);
  }

  lemma {:induction false} CutRange(line: string, token: string, p: nat, checkEsc: bool, escaped: bool)
    requires token != ""
    ensures Cut(line, token, p, checkEsc, escaped).p >= p
    decreases |line| - p
  {
    if p < |line| {
      CutRange(line, token, p + 1, checkEsc, true);
      CutRange(line, token, p + 1, checkEsc, false);
      CutRange(line, token, p + |token|, checkEsc, false);
    }
  }

  /** One column parsed: its value, unless it is skipped, and the place behind it; and the unread rest of the file. */
  datatype Got = Got(v: string, kept: bool, line: string, p: nat, text: string) | Failed(fault: Fault, text: string)

  function Behind(col: Column, line: string, p: nat): nat {
    if col.sep == " " then SkipSpace(line, p) else p
  }

  function GetQuoted(col: Column, line: string, p: nat, text: string): (g: Got)
    requires col.rq != ""
    ensures |g.text| <= |text|
  {
    var q := RightQuote(col.rq, line, p, text);
    if !q.found then Failed(MissRightQuote, q.text)
    else if col.sep == "" then Got(q.v, !col.skip, q.line, q.p, q.text)
    else
      var s := Skip(q.line, col.sep, q.p, false, false);
      if !s.1 then Failed(MissSeparator, q.text) else Got(q.v, !col.skip, q.line, Behind(col, q.line, s.0), q.text)
  }

  function GetPlain(col: Column, line: string, p: nat, text: string): Got {
    if col.sep != "" then
      var start := Behind(col, line, p);
      var c := Cut(line, col.sep, start, false, false);
      CutRange(line, col.sep, start, false, false);
      if !c.found then Failed(MissSeparator, text) else Got(c.v, !col.skip, line, Behind(col, line, c.p), text)
    else if p > |line| then Failed(OutOfRange, text)
    else Got(line[p..], !col.skip, line, p + |line|, text)
  }

  /** An empty column is recognised by its separator, and is recorded even if it is to be skipped. */
  function GetColumn(col: Column, line: string, p: nat, text: string): (g: Got)
    ensures |g.text| <= |text|
  {
    if col.sep != "" && col.sep != col.lq && IsTokenAt(line, col.sep, p) then Got("", true, line, p + |col.sep|, text)
    else
      var l := if col.lq == "" then (p, true) else Skip(line, col.lq, p, false, false);
      if !l.1 then Failed(MissLeftQuote, text)
      else if col.rq != "" then GetQuoted(col, line, l.0, text)
      else GetPlain(col, line, l.0, text)
  }

  datatype Parsed = Row(values: seq<string>, text: string) | Bad(fault: Fault, text: string)

  /** ParseLine, from a column and a place in the line on. */
  function ParseFrom(cols: seq<Column>, line: string, p: nat, text: string): (r: Parsed)
    ensures |r.text| <= |text|
    decreases |cols|
  {
    if cols == [] then Row([], text)
    else
      var g := GetColumn(cols[0], line, p, text);
      if g.Failed? then Bad(g.fault, g.text)
      else
        var r := ParseFrom(cols[1..], g.line, g.p, g.text);
        if r.Row? && g.kept then r.(values := [g.v] + r.values) else r
  }

  /** Reading one line off the file and parsing it. */
  function ParseText(cols: seq<Column>, text: string): Parsed
    requires LineEnd(text) < |text|
  {
    ParseFrom(cols, text[..LineEnd(text)], 0, text[LineEnd(text) + 1..])
  }

  // ---------------------------------------------------------------- escaping and cutting

  function EscChar(c: char, q: char): string {
    if c == '\\' || c == q then ['\\', c] else [c]
  }

  /** The value as it stands before a right quote q. */
  function Esc(v: string, q: char): string {
    if v == "" then "" else EscChar(v[0], q) + Esc(v[1..], q)
  }

  /** Escaping first the backslash and then the quote escapes both, if the quote is no backslash. */
  lemma {:induction false} MarkedTwice(v: string, q: char)
    requires q != '\\'
    ensures Marked(Marked(v, '\\', "\\", ""), q, "\\", "") == Esc(v, q)
  {
    if v != "" {
      MarkedTwice(v[1..], q);
      var a := if v[0] == '\\' then "\\" + [v[0]] + "" else [v[0]];
      var b := Marked(v[1..], '\\', "\\", "");
      MarkedConcat(a, b, q, "\\", "");
      MarkedChar(v[0], q);
    }
  }

  lemma MarkedChar(c: char, q: char)
    requires q != '\\'
    ensures Marked(if c == '\\' then "\\" + [c] + "" else [c], q, "\\", "") == EscChar(c, q)
  {
    if c == '\\' {
      assert "\\" + [c] + "" == ['\\', '\\'];
      assert ['\\', '\\'][1..] == ['\\'] && ['\\'][1..] == "";
      MarkedNone(['\\', '\\'], q, "\\", "");
    } else {
      assert [c][1..] == "";
      assert "\\" + [c] + "" + "" == ['\\', c];
    }
  }

  lemma SliceParts(s: string, p: nat, h: string, t: string)
    requires p + |h| + |t| <= |s| && s[p..p + |h| + |t|] == h + t
    ensures s[p..p + |h|] == h && s[p + |h|..p + |h| + |t|] == t
  {
    var w := s[p..p + |h| + |t|];
    assert s[p..p + |h|] == w[..|h|];
    assert s[p + |h|..p + |h| + |t|] == w[|h|..];
  }

  /** Cutting goes through an escaped value and gives back the value. */
  lemma {:induction false} CutEsc(line: string, rq: string, p: nat, v: string)
    requires |rq| == 1 && rq[0] != '\\' && p + |Esc(v, rq[0])| <= |line|
    requires line[p..p + |Esc(v, rq[0])|] == Esc(v, rq[0])
    ensures Cut(line, rq, p, true, false) == After(v, Cut(line, rq, p + |Esc(v, rq[0])|, true, false))
    decreases |v|
  {
    hide Cut;
    var e := Esc(v, rq[0]);
    if v == "" {
      AfterEnds("", Cut(line, rq, p, true, false));
    } else {
      var h, t := EscChar(v[0], rq[0]), Esc(v[1..], rq[0]);
      assert e == h + t;
      SliceParts(line, p, h, t);
      CutChar(line, rq, p, v[0]);
      CutEsc(line, rq, p + |h|, v[1..]);
      AfterAfter([v[0]], v[1..], Cut(line, rq, p + |e|, true, false));
      assert [v[0]] + v[1..] == v;
    }
  }

  lemma TokenOne(line: string, token: string, p: nat)
    requires |token| == 1
    ensures IsTokenAt(line, token, p) <==> p < |line| && line[p] == token[0]
  {
    if p < |line| {
      assert line[p..p + 1] == [line[p]];
    }
  }

  lemma CutChar(line: string, rq: string, p: nat, c: char)
    requires |rq| == 1 && rq[0] != '\\' && p + |EscChar(c, rq[0])| <= |line|
    requires line[p..p + |EscChar(c, rq[0])|] == EscChar(c, rq[0])
    ensures Cut(line, rq, p, true, false) == After([c], Cut(line, rq, p + |EscChar(c, rq[0])|, true, false))
  {
    hide Cut, After, IsTokenAt;
    var h := EscChar(c, rq[0]);
    assert line[p] == line[p..p + |h|][0];
    TokenOne(line, rq, p);
    AfterEnds("", Cut(line, rq, p, true, false));
    CutCases(line, rq, p, true, false, "");
    if |h| == 2 {
      assert line[p + 1] == line[p..p + |h|][1];
      TokenOne(line, rq, p + 1);
      AfterEnds("", Cut(line, rq, p + 1, true, true));
      CutCases(line, rq, p + 1, true, true, "");
      if c == '\\' {
        assert "" + "\\" == [c];
      } else {
        assert "" + rq == [c];
      }
    } else {
      assert "" + [c] == [c];
    }
  }

  // ---------------------------------------------------------------- the text that is still to be read

  /** What is left of the line and of the file. */
  function Stream(line: string, p: nat, text: string): string
    requires p <= |line|
  {
    line[p..] + "\n" + text
  }

  /** No line end from p on. */
  predicate OneLine(line: string, p: nat) {
    forall i :: p <= i < |line| ==> line[i] != '\n'
  }

  /** A column was parsed to this value, and this text is left. */
  predicate Reads(g: Got, v: string, more: string) {
    g.Got? && g.v == v && g.kept && g.p <= |g.line| && OneLine(g.line, g.p) && Stream(g.line, g.p, g.text) == more
  }

  /** A line end inside an escaped value is one of the value. */
  lemma {:induction false} EscSplit(v: string, q: char, k: nat) returns (i: nat)
    requires q != '\n' && k < |Esc(v, q)| && Esc(v, q)[k] == '\n'
    ensures i < |v| && v[i] == '\n' && |Esc(v[..i], q)| == k
    ensures Esc(v, q) == Esc(v[..i], q) + "\n" + Esc(v[i + 1..], q)
  {
    hide Esc;
    EscNone(q);
    var c, w := v[0], v[1..];
    EscCons(c, w, q);
    assert v == [c] + w;
    var h, t := EscChar(c, q), Esc(w, q);
    if k < |h| {
      i := 0;
      assert h[k] == '\n';
      assert v[..0] == "";
      assert "" + "\n" + t == h + t;
    } else {
      assert (h + t)[k] == t[k - |h|];
      var j := EscSplit(w, q, k - |h|);
      i := j + 1;
      EscCons(c, w[..j], q);
      assert v[..i] == [c] + w[..j] && v[i + 1..] == w[j + 1..];
      Join(h, Esc(w[..j], q), Esc(w[j + 1..], q));
    }
  }

  lemma EscNone(q: char)
    ensures Esc("", q) == ""
  {
  }

  lemma EscCons(c: char, w: string, q: char)
    ensures Esc([c] + w, q) == EscChar(c, q) + Esc(w, q)
  {
    assert ([c] + w)[1..] == w;
  }

  lemma Join(h: string, a: string, b: string)
    ensures h + (a + "\n" + b) == h + a + "\n" + b
  {
  }

  predicate Mark(s: string) {
    |s| == 1 && s[0] != '\n'
  }

  /** The right quote ends the value in this line. */
  lemma QuoteHere(rq: string, line: string, p: nat, text: string, v: string, more: string)
    requires Mark(rq) && rq[0] != '\\' && p <= |line| && OneLine(line, p + 1)
    requires Stream(line, p, text) == Esc(v, rq[0]) + rq + more && |Esc(v, rq[0])| < |line| - p
    ensures var q := RightQuote(rq, line, p, text);
      && q.found && q.v == v && q.p <= |q.line| && OneLine(q.line, q.p) && Stream(q.line, q.p, q.text) == more
  {
    hide Cut, Esc, Stream, IsTokenAt, RightQuote;
    RightQuoteUnfolds(rq, line, p, text);
    var e := Esc(v, rq[0]);
    assert rq == [rq[0]];
    StreamFront(line, p, text, e, rq[0], more);
    CutEsc(line, rq, p, v);
    TokenOne(line, rq, p + |e|);
    CutFound(line, rq, p + |e|);
    AfterEnds(v, Piece("", p + |e| + 1, true));
  }

  lemma StreamFront(line: string, p: nat, text: string, e: string, c: char, more: string)
    requires p <= |line| && Stream(line, p, text) == e + [c] + more && |e| < |line| - p
    ensures line[p..p + |e|] == e && line[p + |e|] == c && Stream(line, p + |e| + 1, text) == more
  {
    var s := Stream(line, p, text);
    assert line[p..p + |e|] == s[..|e|] == e;
    assert line[p + |e|] == s[|e|] == c;
    assert Stream(line, p + |e| + 1, text) == s[|e| + 1..] == more;
  }

  lemma CutFound(line: string, token: string, p: nat)
    requires token != "" && token[0] != '\\' && IsTokenAt(line, token, p)
    ensures Cut(line, token, p, true, false) == Piece("", p + |token|, true)
  {
    assert line[p] == line[p..p + |token|][0];
  }

  /** The right quote is found behind the value, however many lines that takes. */
  lemma {:induction false} RightQuoteReads(rq: string, line: string, p: nat, text: string, v: string, more: string)
    requires Mark(rq) && rq[0] != '\\' && p <= |line| && OneLine(line, p + 1) && '\n' in more
    requires Stream(line, p, text) == Esc(v, rq[0]) + rq + more
    ensures var q := RightQuote(rq, line, p, text);
      && q.found && q.v == v && q.p <= |q.line| && OneLine(q.line, q.p) && Stream(q.line, q.p, q.text) == more
    decreases |text|
  {
    hide Cut, RightQuote, Esc, Stream, LineEnd;
    var e := Esc(v, rq[0]);
    if |e| < |line| - p {
      QuoteHere(rq, line, p, text, v, more);
    } else {
      var i := LineBreaks(rq, line, p, text, v, more);
      NextLine(rq, line, p, text, v, more, i);
      var x := LineEnd(text);
      var v2 := v[i..];
      RightQuoteReads(rq, line + "\n" + text[..x], |line|, text[x + 1..], v2, more);
      assert v[..i] + v[i..] == v;
    }
  }

  /** The line ends at a line end of the value. */
  lemma LineBreaks(rq: string, line: string, p: nat, text: string, v: string, more: string) returns (i: nat)
    requires Mark(rq) && p <= |line| && |Esc(v, rq[0])| >= |line| - p
    requires Stream(line, p, text) == Esc(v, rq[0]) + rq + more
    ensures i < |v| && v[i] == '\n' && line[p..] == Esc(v[..i], rq[0])
    ensures text == Esc(v[i + 1..], rq[0]) + rq + more
  {
    var e, s, k := Esc(v, rq[0]), Stream(line, p, text), |line| - p;
    assert s[k] == '\n';
    assert s[|e|] == rq[0];
    assert e[k] == s[k];
    i := EscSplit(v, rq[0], k);
    var a, b := Esc(v[..i], rq[0]), Esc(v[i + 1..], rq[0]);
    assert s == a + "\n" + b + rq + more;
    assert line[p..] == s[..k] == a;
    assert text == s[k + 1..] == b + rq + more;
  }

  /** One more line is joined, and the value goes on with its line end. */
  lemma NextLine(rq: string, line: string, p: nat, text: string, v: string, more: string, i: nat)
    requires Mark(rq) && rq[0] != '\\' && p <= |line| && i < |v| && v[i] == '\n' && '\n' in more
    requires line[p..] == Esc(v[..i], rq[0]) && text == Esc(v[i + 1..], rq[0]) + rq + more
    ensures var x := LineEnd(text);
      && x < |text|
      && var joined := line + "\n" + text[..x];
      && Stream(joined, |line|, text[x + 1..]) == Esc(v[i..], rq[0]) + rq + more
      && OneLine(joined, |line| + 1)
      && RightQuote(rq, line, p, text) ==
           var q := RightQuote(rq, joined, |line|, text[x + 1..]); q.(v := v[..i] + q.v)
  {
    hide RightQuote, Esc;
    JoinedStream(line, text, Esc(v[i + 1..], rq[0]) + rq, more);
    EscNewline(v, rq[0], i);
    var b := Esc(v[i + 1..], rq[0]);
    assert "\n" + (b + rq + more) == "\n" + b + rq + more;
    NextQuote(rq, line, p, text, v[..i]);
  }

  lemma EscNewline(v: string, q: char, i: nat)
    requires i < |v| && v[i] == '\n' && q != '\n'
    ensures Esc(v[i..], q) == "\n" + Esc(v[i + 1..], q)
  {
    assert v[i..][1..] == v[i + 1..];
  }

  lemma HasLineEnd(front: string, more: string)
    requires '\n' in more
    ensures LineEnd(front + more) < |front + more|
  {
    var m :| 0 <= m < |more| && more[m] == '\n';
    assert (front + more)[|front| + m] == '\n';
  }

  lemma JoinedStream(line: string, text: string, front: string, more: string)
    requires text == front + more && '\n' in more
    ensures var x := LineEnd(text);
      && x < |text|
      && var joined := line + "\n" + text[..x];
      && Stream(joined, |line|, text[x + 1..]) == "\n" + text && OneLine(joined, |line| + 1)
  {
    hide Stream;
    HasLineEnd(front, more);
    var x := LineEnd(text);
    JoinedIs(line, text, x);
    JoinedOne(line, text[..x]);
  }

  lemma JoinedIs(line: string, text: string, x: nat)
    requires x < |text| && text[x] == '\n'
    ensures Stream(line + "\n" + text[..x], |line|, text[x + 1..]) == "\n" + text
  {
    var a, b := text[..x], text[x + 1..];
    assert text == a + "\n" + b;
    var joined := line + "\n" + a;
    assert joined[|line|..] == "\n" + a;
    assert "\n" + a + "\n" + b == "\n" + (a + "\n" + b);
  }

  lemma JoinedOne(line: string, a: string)
    requires forall i :: 0 <= i < |a| ==> a[i] != '\n'
    ensures OneLine(line + "\n" + a, |line| + 1)
  {
    var joined := line + "\n" + a;
    forall i | |line| + 1 <= i < |joined| ensures joined[i] != '\n' {
      assert joined[i] == a[i - |line| - 1];
    }
  }

  lemma NextQuote(rq: string, line: string, p: nat, text: string, v: string)
    requires Mark(rq) && rq[0] != '\\' && p <= |line| && line[p..] == Esc(v, rq[0]) && LineEnd(text) < |text|
    ensures RightQuote(rq, line, p, text) ==
      var q := RightQuote(rq, line + "\n" + text[..LineEnd(text)], |line|, text[LineEnd(text) + 1..]); q.(v := v + q.v)
  {
    hide Cut, Esc;
    assert line[p..p + |Esc(v, rq[0])|] == line[p..];
    CutEsc(line, rq, p, v);
    CutEnd(line, rq, |line|, true, false);
    AfterEnds(v, Piece("", |line|, false));
  }

  // ---------------------------------------------------------------- whole cells

  /** A column of quoted values: single marks, and a right quote that is not the escape character. */
  predicate QuotedColumn(col: Column) {
    Mark(col.lq) && Mark(col.rq) && col.rq != "\\" && (col.sep == "" || Mark(col.sep)) && !col.skip
  }

  /** A column of plain values: no quotes, and a separator that is not a blank. */
  predicate PlainColumn(col: Column) {
    col.lq == "" && col.rq == "" && (col.sep == "" || Mark(col.sep)) && col.sep != " " && !col.skip
  }

  /** A value without what the parser does not take back: backslash, separator and line end. */
  predicate PlainValue(col: Column, v: string) {
    forall i :: 0 <= i < |v| ==> v[i] != '\\' && v[i] != '\n' && [v[i]] != col.sep
  }

  /** What comes behind a blank separator is not a blank itself. */
  predicate Follows(col: Column, more: string) {
    col.sep == " " && more != "" ==> more[0] == '\n' || !IsSpace(more[0])
  }

  lemma SkipHere(line: string, token: string, p: nat)
    requires |token| == 1 && p < |line| && line[p] == token[0]
    ensures Skip(line, token, p, false, false) == (p + 1, true)
  {
    TokenOne(line, token, p);
  }

  /** The separator behind a quoted value, and the blanks that may follow it. */
  lemma SepReads(col: Column, line: string, p: nat, text: string, more: string)
    requires Mark(col.sep) && p <= |line| && OneLine(line, p) && Stream(line, p, text) == col.sep + more && Follows(col, more)
    ensures Skip(line, col.sep, p, false, false) == (p + 1, true)
    ensures Behind(col, line, p + 1) == p + 1 <= |line| && Stream(line, p + 1, text) == more
  {
    var s := Stream(line, p, text);
    assert s[0] == col.sep[0];
    assert p < |line| && line[p] == s[0];
    SkipHere(line, col.sep, p);
    assert s[1..] == more;
    assert line[p..][1..] == line[p + 1..];
    assert p + 1 < |line| ==> line[p + 1] == s[1] == more[0];
  }

  lemma QuotedCell(col: Column, line: string, p: nat, text: string, v: string, more: string)
    requires QuotedColumn(col) && p <= |line| && OneLine(line, p) && '\n' in more && Follows(col, more)
    requires Stream(line, p, text) == CellText(col, v) + more
    ensures Reads(GetColumn(col, line, p, text), v, more)
  {
    hide GetQuoted, GetPlain, Skip, Esc, Stream, IsTokenAt, Reads, Follows, CellText;
    var rest := Esc(v, col.rq[0]) + col.rq + (col.sep + more);
    CellParts(col, v, more);
    OpenReads(col, line, p, text, rest);
    QuotedRest(col, line, p + 1, text, v, more);
  }

  lemma CellParts(col: Column, v: string, more: string)
    requires QuotedColumn(col)
    ensures CellText(col, v) + more == col.lq + (Esc(v, col.rq[0]) + col.rq + (col.sep + more))
  {
    hide Esc, Marked;
    MarkedTwice(v, col.rq[0]);
    var e := Esc(v, col.rq[0]);
    EscapeOne(col, v);
    assert EscapeCell(col, v) == e;
    assert col.lq + e + col.rq + col.sep + more == col.lq + (e + col.rq + (col.sep + more));
  }

  lemma QuotedRest(col: Column, line: string, p: nat, text: string, v: string, more: string)
    requires QuotedColumn(col) && p <= |line| && OneLine(line, p) && '\n' in more && Follows(col, more)
    requires Stream(line, p, text) == Esc(v, col.rq[0]) + col.rq + (col.sep + more)
    ensures Reads(GetQuoted(col, line, p, text), v, more)
  {
    hide RightQuote, Skip, Esc, Stream, IsTokenAt;
    assert '\n' in col.sep + more;
    RightQuoteReads(col.rq, line, p, text, v, col.sep + more);
    var r := RightQuote(col.rq, line, p, text);
    if col.sep != "" {
      SepReads(col, r.line, r.p, r.text, more);
    } else {
      assert "" + more == more;
    }
  }

  /** The left quote, which the separator test before it lets pass. */
  lemma OpenReads(col: Column, line: string, p: nat, text: string, rest: string)
    requires QuotedColumn(col) && p <= |line| && OneLine(line, p) && Stream(line, p, text) == col.lq + rest
    ensures !(col.sep != "" && col.sep != col.lq && IsTokenAt(line, col.sep, p))
    ensures Skip(line, col.lq, p, false, false) == (p + 1, true)
    ensures p + 1 <= |line| && Stream(line, p + 1, text) == rest
  {
    var s := Stream(line, p, text);
    assert s[0] == col.lq[0];
    assert p < |line| && line[p] == s[0];
    SkipHere(line, col.lq, p);
    if col.sep != "" {
      TokenOne(line, col.sep, p);
      assert col.sep == [col.sep[0]] && col.lq == [col.lq[0]];
    }
    assert s[1..] == rest;
    assert line[p..][1..] == line[p + 1..];
  }

  // ---------------------------------------------------------------- plain cells

  lemma {:induction false} CutPlain(line: string, sep: string, p: nat, v: string)
    requires Mark(sep) && p + |v| < |line| && line[p..p + |v|] == v && line[p + |v|] == sep[0]
    requires forall i :: 0 <= i < |v| ==> v[i] != sep[0]
    ensures Cut(line, sep, p, false, false) == Piece(v, p + |v| + 1, true)
    decreases |v|
  {
    TokenOne(line, sep, p);
    if v != "" {
      assert line[p] == v[0] && line[p + 1..p + 1 + |v[1..]|] == v[1..];
      CutPlain(line, sep, p + 1, v[1..]);
      assert "" + [line[p]] + v[1..] == v;
    }
  }

  /** A plain value is written as it is. */
  lemma PlainText(col: Column, v: string)
    requires PlainColumn(col) && PlainValue(col, v)
    ensures CellText(col, v) == v + col.sep
  {
    assert "" + v + "" + col.sep == v + col.sep;
    EscapeOne(col, v);
    MarkedNone(v, '\\', "\\", "");
    if col.sep != "" {
      assert col.sep == [col.sep[0]];
      MarkedNone(v, col.sep[0], "\\", "");
    }
  }

  lemma PlainCell(col: Column, line: string, p: nat, text: string, v: string, more: string)
    requires PlainColumn(col) && PlainValue(col, v) && col.sep != "" && p <= |line| && OneLine(line, p)
    requires Stream(line, p, text) == CellText(col, v) + more
    ensures Reads(GetColumn(col, line, p, text), v, more)
  {
    hide Cut, CellText, Stream, IsTokenAt;
    PlainText(col, v);
    assert col.sep == [col.sep[0]];
    assert v + col.sep + more == v + [col.sep[0]] + more;
    InLine(line, p, text, v, col.sep[0], more);
    StreamFront(line, p, text, v, col.sep[0], more);
    TokenOne(line, col.sep, p);
    CutPlain(line, col.sep, p, v);
  }

  lemma InLine(line: string, p: nat, text: string, v: string, c: char, more: string)
    requires p <= |line| && c != '\n' && (forall i :: 0 <= i < |v| ==> v[i] != '\n')
    requires Stream(line, p, text) == v + [c] + more
    ensures |v| < |line| - p
  {
    var s := Stream(line, p, text);
    assert s[|line| - p] == '\n';
    assert forall i :: 0 <= i < |v| ==> s[i] == v[i];
    assert s[|v|] == c;
  }

  /** The last column needs no separator: it takes the rest of the line. */
  lemma LastCell(col: Column, line: string, p: nat, text: string, v: string, after: string)
    requires PlainColumn(col) && PlainValue(col, v) && col.sep == "" && p <= |line| && OneLine(line, p)
    requires Stream(line, p, text) == CellText(col, v) + "\n" + after
    ensures var g := GetColumn(col, line, p, text); g.Got? && g.v == v && g.kept && g.text == after
  {
    hide Marked;
    PlainText(col, v);
    EndsWith(line, p, text, v, after);
  }

  lemma EndsWith(line: string, p: nat, text: string, v: string, after: string)
    requires p <= |line| && OneLine(line, p) && (forall i :: 0 <= i < |v| ==> v[i] != '\n')
    requires Stream(line, p, text) == v + "\n" + after
    ensures line[p..] == v && text == after
  {
    var s, k := Stream(line, p, text), |line| - p;
    assert s[k] == '\n' && s[|v|] == '\n';
    assert forall i :: 0 <= i < k ==> s[i] == line[p + i];
    assert forall i :: 0 <= i < |v| ==> s[i] == v[i];
    assert k == |v|;
    assert line[p..] == s[..k] && text == s[k + 1..];
  }

  // ---------------------------------------------------------------- whole rows

  /** A row that fits its columns, cell by cell; only the last plain column can do without a separator. */
  predicate Fits(cols: seq<Column>, row: seq<string>)
    decreases |cols|
  {
    if cols == [] then row == []
    else
      && row != []
      && (QuotedColumn(cols[0]) || (PlainColumn(cols[0]) && PlainValue(cols[0], row[0]) && (cols[0].sep == "" ==> |cols| == 1)))
      && Fits(cols[1..], row[1..])
      && Follows(cols[0], RowText(cols[1..], row[1..]))
  }

  /** Parsing what was written gives back the row, and stops behind it. */
  lemma {:induction false} RowReads(cols: seq<Column>, row: seq<string>, line: string, p: nat, text: string, after: string)
    requires Fits(cols, row) && p <= |line| && OneLine(line, p)
    requires Stream(line, p, text) == RowText(cols, row) + after
    ensures ParseFrom(cols, line, p, text) == Row(row, after)
    decreases |cols|
  {
    hide GetColumn, CellText, Stream, Follows, QuotedColumn, PlainColumn, PlainValue;
    if cols == [] {
      NothingLeft(line, p, text, after);
    } else {
      var rest := RowText(cols[1..], row[1..]);
      var more := rest + after;
      assert RowText(cols, row) + after == CellText(cols[0], row[0]) + more;
      FollowsMore(cols[0], rest, after);
      assert rest[|rest| - 1] == '\n' && more[|rest| - 1] == '\n';
      assert [row[0]] + row[1..] == row;
      if QuotedColumn(cols[0]) {
        QuotedCell(cols[0], line, p, text, row[0], more);
        var g := GetColumn(cols[0], line, p, text);
        RowReads(cols[1..], row[1..], g.line, g.p, g.text, after);
      } else if HasSep(cols[0]) {
        PlainCell(cols[0], line, p, text, row[0], more);
        var g := GetColumn(cols[0], line, p, text);
        RowReads(cols[1..], row[1..], g.line, g.p, g.text, after);
      } else {
        assert rest == "\n";
        assert CellText(cols[0], row[0]) + more == CellText(cols[0], row[0]) + "\n" + after;
        LastCell(cols[0], line, p, text, row[0], after);
      }
    }
  }

  predicate HasSep(col: Column) {
    col.sep != ""
  }

  lemma NothingLeft(line: string, p: nat, text: string, after: string)
    requires p <= |line| && OneLine(line, p) && Stream(line, p, text) == RowText([], []) + after
    ensures text == after
  {
    assert "" + "\n" + after == RowText([], []) + after;
    EndsWith(line, p, text, "", after);
  }

  lemma FollowsMore(col: Column, rest: string, after: string)
    requires Follows(col, rest) && rest != ""
    ensures Follows(col, rest + after)
  {
  }

  /** Reading a line of the file and parsing it gives back the row that was written there. */
  lemma RowRoundTrip(cols: seq<Column>, row: seq<string>, after: string)
    requires Fits(cols, row)
    ensures LineEnd(RowText(cols, row) + after) < |RowText(cols, row) + after|
    ensures ParseText(cols, RowText(cols, row) + after) == Row(row, after)
  {
    hide Stream, Fits;
    var text := RowText(cols, row) + after;
    assert text == CellsText(cols, row) + ("\n" + after);
    assert ("\n" + after)[0] == '\n';
    HasLineEnd(CellsText(cols, row), "\n" + after);
    var x := LineEnd(text);
    var line, left := text[..x], text[x + 1..];
    assert Stream(line, 0, left) == text by {
      WholeStream(text, x);
    }
    RowReads(cols, row, line, 0, left, after);
  }

  lemma WholeStream(text: string, x: nat)
    requires x < |text| && text[x] == '\n'
    ensures Stream(text[..x], 0, text[x + 1..]) == text
  {
    assert text[..x][0..] == text[..x];
  }

  /** All rows of a file, one after the other. */
  function FileText(cols: seq<Column>, rows: seq<seq<string>>): string {
    if rows == [] then "" else RowText(cols, rows[0]) + FileText(cols, rows[1..])
  }

  // ---------------------------------------------------------------- what plain columns lose

  /** What is cut without escapes is a piece of the line without the separator. */
  lemma {:induction false} CutClean(line: string, sep: string, p: nat)
    requires |sep| == 1 && OneLine(line, p)
    ensures Clean(Cut(line, sep, p, false, false).v, sep[0])
    decreases |line| - p
  {
    hide Cut, IsTokenAt, After;
    if p < |line| {
      TokenOne(line, sep, p);
      CutClean(line, sep, p + 1);
      CutCases(line, sep, p, false, false, "");
      AfterEnds("", Cut(line, sep, p, false, false));
      AfterEnds("", Piece("", p + 1, true));
      CleanCons(line[p], Cut(line, sep, p + 1, false, false), sep[0]);
      assert "" + [line[p]] == [line[p]];
    } else {
      CutNone(line, sep, p);
    }
  }

  lemma CutNone(line: string, token: string, p: nat)
    requires token != "" && p >= |line|
    ensures Cut(line, token, p, false, false).v == ""
  {
  }

  predicate Clean(v: string, c: char) {
    forall i :: 0 <= i < |v| ==> v[i] != c && v[i] != '\n'
  }

  lemma CleanCons(a: char, piece: Piece, c: char)
    requires Clean(piece.v, c)
    ensures a != c && a != '\n' ==> Clean(After([a], piece).v, c)
  {
  }

  lemma ColumnClean(col: Column, line: string, text: string)
    requires PlainColumn(col) && col.sep != "" && OneLine(line, 0)
    ensures var g := GetColumn(col, line, 0, text);
      g.Got? ==> g.kept && Clean(g.v, col.sep[0])
  {
    hide Cut, IsTokenAt;
    CutClean(line, col.sep, 0);
    assert Behind(col, line, 0) == 0;
    assert GetColumn(col, line, 0, text).Got? ==>
      GetColumn(col, line, 0, text).v == "" || GetColumn(col, line, 0, text).v == Cut(line, col.sep, 0, false, false).v;
  }

  /** Every backslash is written twice. */
  lemma {:induction false} MarkedLonger(v: string)
    ensures |Marked(v, '\\', "\\", "")| >= |v|
    ensures '\\' in v ==> |Marked(v, '\\', "\\", "")| > |v|
    ensures forall i :: 0 <= i < |Marked(v, '\\', "\\", "")| ==>
      Marked(v, '\\', "\\", "")[i] == '\\' || Marked(v, '\\', "\\", "")[i] in v
  {
    if v != "" {
      MarkedLonger(v[1..]);
      var h := if v[0] == '\\' then "\\" + [v[0]] + "" else [v[0]];
      var m := Marked(v[1..], '\\', "\\", "");
      assert Marked(v, '\\', "\\", "") == h + m;
      forall i | 0 <= i < |h + m| ensures (h + m)[i] == '\\' || (h + m)[i] in v {
        if i >= |h| {
          assert (h + m)[i] == m[i - |h|];
          assert m[i - |h|] in v[1..] ==> m[i - |h|] in v;
        } else {
          assert v[0] in v;
        }
      }
    }
  }

  lemma BackslashText(col: Column, v: string)
    requires PlainColumn(col) && col.sep != "" && col.sep != "\\"
    requires (forall i :: 0 <= i < |v| ==> v[i] != col.sep[0]) && col.sep[0] != '\\'
    ensures CellText(col, v) == Marked(v, '\\', "\\", "") + col.sep
  {
    hide Marked;
    var m := Marked(v, '\\', "\\", "");
    EscapeOne(col, v);
    assert EscapeCell(col, v) == m by {
      NoneOf(v, col.sep[0]);
    }
    NoQuotes(col, m);
  }

  lemma NoQuotes(col: Column, m: string)
    requires col.lq == "" && col.rq == ""
    ensures col.lq + m + col.rq + col.sep == m + col.sep
  {
  }

  lemma NoneOf(v: string, c: char)
    requires c != '\\' && forall i :: 0 <= i < |v| ==> v[i] != c
    ensures Marked(Marked(v, '\\', "\\", ""), c, "\\", "") == Marked(v, '\\', "\\", "")
  {
    hide Marked;
    MarkedLonger(v);
    var m := Marked(v, '\\', "\\", "");
    assert c !in v;
    forall i | 0 <= i < |m| ensures m[i] != c {
    }
    MarkedNone(m, c, "\\", "");
  }

  lemma NotBackslash(s: string)
    requires |s| == 1 && s != "\\"
    ensures s[0] != '\\'
  {
    assert s == [s[0]];
  }

  /** A value with backslashes comes back with all of them doubled. */
  lemma BackslashesDouble(col: Column, v: string, line: string, text: string, after: string)
    requires PlainColumn(col) && col.sep != "" && col.sep != "\\" && OneLine(line, 0)
    requires Clean(v, col.sep[0])
    requires Stream(line, 0, text) == CellText(col, v) + after
    ensures Reads(GetColumn(col, line, 0, text), Marked(v, '\\', "\\", ""), after)
  {
    hide Cut, Stream, IsTokenAt, Marked, CellText;
    var m, c := Marked(v, '\\', "\\", ""), col.sep[0];
    assert col.sep == [c];
    MarkedLonger(v);
    MarkedNone(m, c, "\\", "");
    NotBackslash(col.sep);
    BackslashText(col, v);
    InLine(line, 0, text, m, c, after);
    StreamFront(line, 0, text, m, c, after);
    TokenOne(line, col.sep, 0);
    CutPlain(line, col.sep, 0, m);
  }

  /**
   An unquoted column is read back exactly when its value has no backslash, no separator and no line end: the writer
   escapes the first two, but the parser does not look for escapes outside quotes.
   */
  lemma PlainExact(col: Column, v: string, after: string)
    requires PlainColumn(col) && col.sep != ""
    ensures LineEnd(RowText([col], [v]) + after) < |RowText([col], [v]) + after|
    ensures ParseText([col], RowText([col], [v]) + after) == Row([v], after) <==> PlainValue(col, v)
  {
    hide GetColumn, CellText, Stream, Reads;
    var cell := CellText(col, v);
    var text := RowText([col], [v]) + after;
    assert [col][1..] == [] && [v][1..] == [];
    assert CellsText([], []) == "" && cell + "" == cell;
    assert text == cell + ("\n" + after);
    assert ("\n" + after)[0] == '\n';
    HasLineEnd(cell, "\n" + after);
    var x := LineEnd(text);
    var line, left := text[..x], text[x + 1..];
    WholeStream(text, x);
    var g := GetColumn(col, line, 0, left);
    if PlainValue(col, v) {
      assert RowText([], []) == "\n";
      RowRoundTrip([col], [v], after);
    } else {
      ColumnClean(col, line, left);
      NotPlain(col, v, line, left, "\n" + after);
    }
  }

  lemma NotPlain(col: Column, v: string, line: string, text: string, after: string)
    requires PlainColumn(col) && col.sep != "" && OneLine(line, 0) && !PlainValue(col, v)
    requires Stream(line, 0, text) == CellText(col, v) + after
    ensures var g := GetColumn(col, line, 0, text); g.Got? ==> g.v != v
  {
    hide GetColumn, CellText, Stream;
    ColumnClean(col, line, text);
    assert col.sep == [col.sep[0]];
    if Clean(v, col.sep[0]) {
      var i :| 0 <= i < |v| && v[i] == '\\';
      BackslashesDouble(col, v, line, text, after);
      MarkedLonger(v);
    }
  }

  /** A backslash in an unquoted column is written twice and read back twice. */
  lemma BackslashLost()
    ensures var col := Column("", "", ",", false);
      var text := RowText([col], ["\\"]);
      PlainColumn(col) && LineEnd(text) < |text| && ParseText([col], text) != Row(["\\"], "")
  {
    hide ParseText, RowText;
    var col := Column("", "", ",", false);
    PlainExact(col, "\\", "");
    assert RowText([col], ["\\"]) + "" == RowText([col], ["\\"]);
    assert "\\"[0] == '\\';
  }
}
