/**
 Reading a file of delimiter-separated values (lib/dsv/readerinterface.go): lines of white space are skipped, lines that
 do not parse are rejected, and reading goes on behind them. When a written file is read back, and what is read if not.
 */
module DsvRead {
  import opened Dsv
  import opened Tokens

  // ---------------------------------------------------------------- white space

  /** The characters of the Unicode property White_Space. */
  predicate White(c: char) {
    var n := c as int;
    9 <= n <= 13 || n == 32 || n == 0x85 || n == 0xA0 || n == 0x1680 || 0x2000 <= n <= 0x200A || n == 0x2028 || n == 0x2029
    || n == 0x202F || n == 0x205F || n == 0x3000
  }

  predicate AllWhite(s: string) {
    forall i :: 0 <= i < |s| ==> White(s[i])
  }

  function TrimLeft(s: string): string {
    if s != "" && White(s[0]) then TrimLeft(s[1..]) else s
  }

  function TrimRight(s: string): string {
    if s != "" && White(s[|s| - 1]) then TrimRight(s[..|s| - 1]) else s
  }

  function TrimSpace(s: string): string {
    TrimRight(TrimLeft(s))
  }

  lemma {:induction false} TrimLeftParts(s: string) returns (w: string)
    ensures s == w + TrimLeft(s) && AllWhite(w) && (TrimLeft(s) != "" ==> !White(TrimLeft(s)[0]))
  {
    w := "";
    if s != "" && White(s[0]) {
      w := TrimLeftParts(s[1..]);
      w := [s[0]] + w;
    }
  }

  lemma {:induction false} TrimRightParts(s: string) returns (w: string)
    ensures s == TrimRight(s) + w && AllWhite(w) && (TrimRight(s) != "" ==> !White(TrimRight(s)[|TrimRight(s)| - 1]))
  {
    w := "";
    if s != "" && White(s[|s| - 1]) {
      w := TrimRightParts(s[..|s| - 1]);
      w := w + [s[|s| - 1]];
      assert s == s[..|s| - 1] + [s[|s| - 1]];
    }
  }

  /** The line is what is left, with white space on both sides. */
  lemma TrimParts(s: string) returns (w: string, w': string)
    ensures s == w + TrimSpace(s) + w' && AllWhite(w) && AllWhite(w')
    ensures TrimSpace(s) != "" ==> !White(TrimSpace(s)[0])
  {
    w := TrimLeftParts(s);
    w' := TrimRightParts(TrimLeft(s));
  }

  /** Nothing is left of a line exactly if it is all white space. */
  lemma TrimEmpty(s: string)
    ensures TrimSpace(s) == "" <==> AllWhite(s)
  {
    var w, w' := TrimParts(s);
    if TrimSpace(s) == "" {
      assert s == w + w';
    } else {
      assert s[|w|] == TrimSpace(s)[0];
    }
  }

  // ---------------------------------------------------------------- the reader

  /** What ReadRow finds: the line it read, as the parser gets it, and what the parser makes of it. */
  datatype Next = Ended | Next(line: string, parsed: Parsed)

  /** ReadRow: the first line that is not empty is parsed; what is left behind the last line end is not a line. */
  function NextRow(cols: seq<Column>, trim: bool, text: string): (r: Next)
    ensures r.Next? ==> |r.parsed.text| < |text|
    decreases |text|
  {
    var x := LineEnd(text);
    if x == |text| then Ended
    else if TrimSpace(text[..x]) != "" then
      var line := if trim then TrimSpace(text[..x]) else text[..x];
      Next(line, ParseFrom(cols, line, 0, text[x + 1..]))
    else NextRow(cols, trim, text[x + 1..])
  }

  datatype Ending = EndOfFile | MaxRows | Crash

  /** Rows read, lines rejected, the unread rest of the file, and why reading stopped. */
  datatype Dataset = Dataset(rows: seq<seq<string>>, rejected: seq<string>, text: string, ending: Ending)

  /** Read, with n rows read before; without a positive limit, all rows are read. */
  function ReadRows(cols: seq<Column>, trim: bool, max: int, n: nat, text: string): (d: Dataset)
    decreases |text|
  {
    var r := NextRow(cols, trim, text);
    if r.Ended? then Dataset([], [], "", EndOfFile)
    else if r.parsed.Row? then
      if max > 0 && n + 1 >= max then Dataset([r.parsed.values], [], r.parsed.text, MaxRows)
      else
        var d := ReadRows(cols, trim, max, n + 1, r.parsed.text);
        d.(rows := [r.parsed.values] + d.rows)
    else if r.parsed.fault == OutOfRange then Dataset([], [], r.parsed.text, Crash)
    else
      var d := ReadRows(cols, trim, max, n, r.parsed.text);
      d.(rejected := [r.line] + d.rejected)
  }

  /** What two reads give, one after the other. */
  function Joined(a: Dataset, b: Dataset): Dataset {
    Dataset(a.rows + b.rows, a.rejected + b.rejected, b.text, b.ending)
  }

  /** Reading in portions of at most max rows reads the same as reading all at once, whatever is in the file. */
  lemma {:induction false} ReadInPortions(cols: seq<Column>, trim: bool, max: int, n: nat, text: string)
    requires n < max
    ensures var d := ReadRows(cols, trim, max, n, text);
      && n + |d.rows| <= max && (d.ending == MaxRows <==> n + |d.rows| == max)
      && ReadRows(cols, trim, -1, 0, text) ==
           if d.ending == MaxRows then Joined(d, ReadRows(cols, trim, -1, 0, d.text)) else d
    decreases |text|
  {
    hide NextRow;
    AnyCount(cols, trim, 0, 1, text);
    var r := NextRow(cols, trim, text);
    if r.Next? {
      var left := r.parsed.text;
      AnyCount(cols, trim, 0, 1, left);
      if r.parsed.Row? {
        if n + 1 < max {
          ReadInPortions(cols, trim, max, n + 1, left);
          JoinedRow(r.parsed.values, ReadRows(cols, trim, max, n + 1, left),
                    ReadRows(cols, trim, -1, 0, ReadRows(cols, trim, max, n + 1, left).text));
        } else {
          assert [] + ReadRows(cols, trim, -1, 0, left).rejected == ReadRows(cols, trim, -1, 0, left).rejected;
        }
      } else if r.parsed.fault != OutOfRange {
        ReadInPortions(cols, trim, max, n, left);
        JoinedLine(r.line, ReadRows(cols, trim, max, n, left),
                   ReadRows(cols, trim, -1, 0, ReadRows(cols, trim, max, n, left).text));
      }
    }
  }

  lemma JoinedRow(row: seq<string>, a: Dataset, b: Dataset)
    ensures Joined(a.(rows := [row] + a.rows), b) == Joined(a, b).(rows := [row] + Joined(a, b).rows)
  {
  }

  lemma JoinedLine(line: string, a: Dataset, b: Dataset)
    ensures Joined(a.(rejected := [line] + a.rejected), b) == Joined(a, b).(rejected := [line] + Joined(a, b).rejected)
  {
  }

  /** Without a limit it does not matter how many rows were read before. */
  lemma {:induction false} AnyCount(cols: seq<Column>, trim: bool, n: nat, n': nat, text: string)
    ensures ReadRows(cols, trim, -1, n, text) == ReadRows(cols, trim, -1, n', text)
    decreases |text|
  {
    hide NextRow;
    var r := NextRow(cols, trim, text);
    if r.Next? {
      AnyCount(cols, trim, n + 1, n' + 1, r.parsed.text);
      AnyCount(cols, trim, n, n', r.parsed.text);
    }
  }

  // ---------------------------------------------------------------- the first line of a written row

  function FirstLine(cols: seq<Column>, row: seq<string>): string {
    RowText(cols, row)[..LineEnd(RowText(cols, row))]
  }

  ghost predicate BlankFirst(cols: seq<Column>, row: seq<string>) {
    AllWhite(FirstLine(cols, row))
  }

  /** The first line is not skipped, and trimming does not change it. */
  ghost predicate Stays(cols: seq<Column>, row: seq<string>, trim: bool) {
    !BlankFirst(cols, row) && (trim ==> TrimSpace(FirstLine(cols, row)) == FirstLine(cols, row))
  }

  ghost predicate OneLiner(cols: seq<Column>, row: seq<string>) {
    '\n' !in CellsText(cols, row)
  }

  /** The first line and what comes behind it in the file. */
  lemma FirstSplit(cols: seq<Column>, row: seq<string>, after: string) returns (rest: string)
    ensures var text := RowText(cols, row) + after;
      && LineEnd(text) == LineEnd(RowText(cols, row)) < |RowText(cols, row)|
      && text[..LineEnd(text)] == FirstLine(cols, row) && text[LineEnd(text) + 1..] == rest + after
      && text == FirstLine(cols, row) + "\n" + rest + after && RowText(cols, row) == FirstLine(cols, row) + "\n" + rest
      && (OneLiner(cols, row) ==> rest == "" && FirstLine(cols, row) == CellsText(cols, row))
  {
    hide CellsText;
    var cells, r := CellsText(cols, row), RowText(cols, row);
    assert r == cells + "\n" && "\n"[0] == '\n';
    HasLineEnd(cells, "\n");
    var x := LineEnd(r);
    rest := r[x + 1..];
    SplitAt(r, after, x);
    if OneLiner(cols, row) {
      LineEndIs(r, |cells|);
    }
  }

  lemma SplitAt(r: string, after: string, x: nat)
    requires x < |r| && LineEnd(r) == x
    ensures LineEnd(r + after) == x && (r + after)[..x] == r[..x] && (r + after)[x + 1..] == r[x + 1..] + after
    ensures r == r[..x] + "\n" + r[x + 1..] && r + after == r[..x] + "\n" + r[x + 1..] + after
  {
    LineEndIs(r + after, x);
  }

  lemma NextStays(cols: seq<Column>, row: seq<string>, trim: bool, after: string)
    requires Fits(cols, row) && Stays(cols, row, trim)
    ensures NextRow(cols, trim, RowText(cols, row) + after) == Next(FirstLine(cols, row), Row(row, after))
  {
    hide Fits, ParseFrom, TrimSpace;
    var rest := FirstSplit(cols, row, after);
    RowRoundTrip(cols, row, after);
    TrimEmpty(FirstLine(cols, row));
  }

  lemma NextBlank(cols: seq<Column>, row: seq<string>, trim: bool, after: string) returns (rest: string)
    requires BlankFirst(cols, row)
    ensures RowText(cols, row) == FirstLine(cols, row) + "\n" + rest && (OneLiner(cols, row) ==> rest == "")
    ensures NextRow(cols, trim, RowText(cols, row) + after) == NextRow(cols, trim, rest + after)
  {
    hide ParseFrom, TrimSpace;
    rest := FirstSplit(cols, row, after);
    TrimEmpty(FirstLine(cols, row));
  }

  /** The rows with something else than white space in their first line. */
  ghost function Shown(cols: seq<Column>, rows: seq<seq<string>>): seq<seq<string>> {
    if rows == [] then []
    else (if BlankFirst(cols, rows[0]) then [] else [rows[0]]) + Shown(cols, rows[1..])
  }

  /** A written file is read back without its blank rows, if they are single lines and trimming changes no other one. */
  lemma {:induction false} FileRead(cols: seq<Column>, rows: seq<seq<string>>, trim: bool, n: nat)
    requires forall row :: row in rows ==> Fits(cols, row)
    requires forall row :: row in rows ==> Stays(cols, row, trim) || (BlankFirst(cols, row) && OneLiner(cols, row))
    ensures ReadRows(cols, trim, -1, n, FileText(cols, rows)) == Dataset(Shown(cols, rows), [], "", EndOfFile)
    decreases |rows|
  {
    hide Fits, Stays, BlankFirst, OneLiner, RowText, NextRow;
    if rows == [] {
      NothingNext(cols, trim);
    } else {
      assert rows[0] in rows && forall row :: row in rows[1..] ==> row in rows;
      var after := FileText(cols, rows[1..]);
      FileRead(cols, rows[1..], trim, n);
      FileRead(cols, rows[1..], trim, n + 1);
      if BlankFirst(cols, rows[0]) {
        StaysShown(cols, rows[0], trim);
        var rest := NextBlank(cols, rows[0], trim, after);
        assert "" + after == after;
        SameNext(cols, trim, n, RowText(cols, rows[0]) + after, after);
      } else {
        NextStays(cols, rows[0], trim, after);
      }
    }
  }

  lemma NothingNext(cols: seq<Column>, trim: bool)
    ensures NextRow(cols, trim, "") == Ended
  {
  }

  lemma StaysShown(cols: seq<Column>, row: seq<string>, trim: bool)
    requires BlankFirst(cols, row)
    ensures !Stays(cols, row, trim)
  {
  }

  lemma SameNext(cols: seq<Column>, trim: bool, n: nat, text: string, text': string)
    requires NextRow(cols, trim, text) == NextRow(cols, trim, text')
    ensures ReadRows(cols, trim, -1, n, text) == ReadRows(cols, trim, -1, n, text')
  {
    hide NextRow;
  }

  // ---------------------------------------------------------------- counting line ends

  ghost function Ends(s: string): nat {
    if s == "" then 0 else (if s[0] == '\n' then 1 else 0) + Ends(s[1..])
  }

  ghost function RowEnds(row: seq<string>): nat {
    if row == [] then 0 else Ends(row[0]) + RowEnds(row[1..])
  }

  /** The lines that rows take up: one more than there are line ends in the values, for each. */
  ghost function RowsEnds(rows: seq<seq<string>>): nat {
    if rows == [] then 0 else 1 + RowEnds(rows[0]) + RowsEnds(rows[1..])
  }

  lemma {:induction false} EndsConcat(a: string, b: string)
    ensures Ends(a + b) == Ends(a) + Ends(b)
  {
    if a == "" {
      assert a + b == b;
    } else {
      assert (a + b)[0] == a[0] && (a + b)[1..] == a[1..] + b;
      EndsConcat(a[1..], b);
    }
  }

  lemma {:induction false} EndsNone(s: string)
    requires '\n' !in s
    ensures Ends(s) == 0
  {
    if s != "" {
      assert s[0] in s && forall c :: c in s[1..] ==> c in s;
      EndsNone(s[1..]);
    }
  }

  lemma EndsLine(a: string, b: string)
    requires '\n' !in a
    ensures Ends(a + "\n" + b) == 1 + Ends(b)
  {
    EndsNone(a);
    EndsConcat(a, "\n" + b);
    assert a + "\n" + b == a + ("\n" + b);
    assert ("\n" + b)[1..] == b;
  }

  /** Cutting loses no line end. */
  lemma {:induction false} CutEnds(line: string, token: string, p: nat, checkEsc: bool, escaped: bool)
    requires Mark(token) && p <= |line|
    ensures var c := Cut(line, token, p, checkEsc, escaped);
      p <= c.p <= |line| && Ends(c.v) == Ends(line[p..c.p]) && (c.found ==> c.p > p) && (!c.found ==> c.p == |line|)
    decreases |line| - p
  {
    hide IsTokenAt, Ends;
    EndsOne(if p < |line| then line[p] else '\\');
    EndsOne('\\');
    if p == |line| {
      assert line[p..p] == "";
    } else {
      TokenOne(line, token, p);
      assert token == [token[0]] && line[p..p + 1] == [line[p]];
      var esc := checkEsc && line[p] == '\\' && !escaped;
      CutEnds(line, token, p + 1, checkEsc, esc);
      var d := Cut(line, token, p + 1, checkEsc, esc);
      if checkEsc && line[p] == '\\' {
        EndsPrefix("\\", line, p, d);
        EndsPrefix("", line, p, d);
        assert "" + d.v == d.v;
      } else if !IsTokenAt(line, token, p) {
        EndsConcat("\\", [line[p]]);
        assert "" + [line[p]] == [line[p]];
        EndsPrefix((if escaped then "\\" else "") + [line[p]], line, p, d);
      } else if escaped {
        EndsPrefix(token, line, p, d);
      }
    }
  }

  lemma EndsPrefix(pre: string, line: string, p: nat, d: Piece)
    requires p < d.p <= |line| && Ends(d.v) == Ends(line[p + 1..d.p])
    ensures Ends(pre) == Ends([line[p]]) ==> Ends(pre + d.v) == Ends(line[p..d.p])
  {
    hide Ends;
    EndsConcat(pre, d.v);
    EndsConcat([line[p]], line[p + 1..d.p]);
    assert line[p..d.p] == [line[p]] + line[p + 1..d.p];
  }

  lemma EndsOne(c: char)
    ensures Ends([c]) == (if c == '\n' then 1 else 0) && Ends("") == 0
  {
    assert [c][1..] == "";
  }

  /** The line ends of a quoted value are those of the lines that were joined. */
  lemma {:induction false} RightQuoteEnds(rq: string, line: string, p: nat, text: string)
    requires Mark(rq) && p <= |line| && OneLine(line, p + 1)
    ensures var q := RightQuote(rq, line, p, text);
      && Ends(q.text) <= Ends(text)
      && (q.found ==> q.p <= |q.line| && OneLine(q.line, q.p) && Ends(q.v) + Ends(q.text) == Ends(line[p..]) + Ends(text))
    decreases |text|
  {
    hide Cut, Ends;
    EndsOne('\\');
    CutEnds(line, rq, p, true, false);
    var c, x := Cut(line, rq, p, true, false), LineEnd(text);
    if c.found {
      assert line[p..] == line[p..c.p] + line[c.p..];
      EndsConcat(line[p..c.p], line[c.p..]);
      EndsNone(line[c.p..]);
    } else if x < |text| {
      assert line[p..c.p] == line[p..];
      var joined := line + "\n" + text[..x];
      JoinedOne(line, text[..x]);
      JoinedEnds(line, text, x);
      RightQuoteEnds(rq, joined, |line|, text[x + 1..]);
      EndsConcat(c.v, RightQuote(rq, joined, |line|, text[x + 1..]).v);
    }
  }

  lemma JoinedEnds(line: string, text: string, x: nat)
    requires x == LineEnd(text) < |text|
    ensures Ends((line + "\n" + text[..x])[|line|..]) == 1 && Ends(text) == 1 + Ends(text[x + 1..])
  {
    hide Ends, LineEnd;
    var a := text[..x];
    SplitAt(text, "", x);
    EndsLine(a, text[x + 1..]);
    EndsLine("", a);
    EndsNone(a);
    Tail(line, a);
  }

  lemma Tail(line: string, a: string)
    ensures (line + "\n" + a)[|line|..] == "" + "\n" + a
  {
    assert line + "\n" + a == line + ("\n" + a);
  }

  lemma {:induction false} SkipRange(line: string, token: string, p: nat)
    requires |token| == 1 && p <= |line|
    ensures p <= Skip(line, token, p, false, false).0 <= |line|
    decreases |line| - p
  {
    if p < |line| {
      SkipRange(line, token, p + 1);
    }
  }

  lemma {:induction false} SpaceRange(line: string, p: nat)
    requires p <= |line|
    ensures SkipSpace(line, p) <= |line|
    decreases |line| - p
  {
    if p < |line| {
      SpaceRange(line, p + 1);
    }
  }

  /** Only the last column may be without a separator when it has no quotes. */
  predicate ColumnsOk(cols: seq<Column>) {
    forall i :: 0 <= i < |cols| ==>
      QuotedColumn(cols[i]) || (PlainColumn(cols[i]) && (cols[i].sep == "" ==> i == |cols| - 1))
  }

  lemma QuotedEnds(col: Column, line: string, p: nat, text: string)
    requires QuotedColumn(col) && p <= |line| && OneLine(line, p)
    ensures var g := GetQuoted(col, line, p, text);
      && Ends(g.text) <= Ends(text)
      && (g.Got? ==> g.kept && g.p <= |g.line| && OneLine(g.line, g.p) && Ends(g.v) + Ends(g.text) == Ends(text))
  {
    hide RightQuote, Skip, Ends;
    RightQuoteEnds(col.rq, line, p, text);
    EndsNone(line[p..]);
    var q := RightQuote(col.rq, line, p, text);
    if q.found && col.sep != "" {
      SkipRange(q.line, col.sep, q.p);
      var s := Skip(q.line, col.sep, q.p, false, false);
      SpaceRange(q.line, s.0);
    }
  }

  lemma PlainEnds(col: Column, line: string, p: nat, text: string)
    requires PlainColumn(col) && p <= |line| && OneLine(line, p)
    ensures var g := GetPlain(col, line, p, text);
      && g.text == text
      && (g.Got? ==> g.kept && Ends(g.v) == 0)
      && (g.Got? && col.sep != "" ==> g.p <= |g.line| && OneLine(g.line, g.p))
  {
    hide Cut, Ends;
    EndsNone(line[p..]);
    if col.sep != "" {
      CutEnds(line, col.sep, p, false, false);
      EndsNone(line[p..Cut(line, col.sep, p, false, false).p]);
    }
  }

  /** The line ends of a column that was parsed are those that were read for it. */
  lemma ColumnEnds(col: Column, line: string, p: nat, text: string)
    requires (QuotedColumn(col) || PlainColumn(col)) && p <= |line| && OneLine(line, p)
    ensures var g := GetColumn(col, line, p, text);
      && Ends(g.text) <= Ends(text)
      && (g.Got? ==> g.kept && Ends(g.v) + Ends(g.text) == Ends(text))
      && (g.Got? && (QuotedColumn(col) || col.sep != "") ==> g.p <= |g.line| && OneLine(g.line, g.p))
  {
    hide GetQuoted, GetPlain, Ends, Skip;
    EndsOne('\\');
    if col.lq != "" {
      SkipRange(line, col.lq, p);
      var l := Skip(line, col.lq, p, false, false);
      QuotedEnds(col, line, l.0, text);
    } else {
      PlainEnds(col, line, p, text);
    }
  }

  lemma {:induction false} ParseEnds(cols: seq<Column>, line: string, p: nat, text: string)
    requires ColumnsOk(cols) && p <= |line| && OneLine(line, p)
    ensures var r := ParseFrom(cols, line, p, text);
      && Ends(r.text) <= Ends(text)
      && (r.Row? ==> RowEnds(r.values) + Ends(r.text) == Ends(text))
    decreases |cols|
  {
    hide GetColumn, Ends, QuotedColumn, PlainColumn;
    if cols != [] {
      ColumnEnds(cols[0], line, p, text);
      var g := GetColumn(cols[0], line, p, text);
      if g.Got? {
        if |cols| == 1 {
          assert cols[1..] == [];
          OneValue(g.v);
        } else {
          SeparatorThere(cols[0], cols);
          ParseEnds(cols[1..], g.line, g.p, g.text);
          var r := ParseFrom(cols[1..], g.line, g.p, g.text);
          if r.Row? {
            assert ([g.v] + r.values)[1..] == r.values;
          }
        }
      }
    }
  }

  lemma SeparatorThere(col: Column, cols: seq<Column>)
    requires ColumnsOk(cols) && |cols| > 1 && col == cols[0]
    ensures QuotedColumn(col) || col.sep != ""
    ensures ColumnsOk(cols[1..])
  {
  }

  lemma OneValue(v: string)
    ensures RowEnds([v]) == Ends(v)
  {
    assert [v][1..] == [];
  }

  /** What ReadRow reads: at least one line, and one for each line end in the values. */
  lemma {:induction false} NextEnds(cols: seq<Column>, trim: bool, text: string)
    requires ColumnsOk(cols)
    ensures var r := NextRow(cols, trim, text);
      r.Next? ==>
        && Ends(r.parsed.text) < Ends(text)
        && (r.parsed.Row? ==> Ends(text) >= 1 + RowEnds(r.parsed.values) + Ends(r.parsed.text))
    decreases |text|
  {
    hide ParseFrom, Ends, TrimSpace, ColumnsOk;
    var x := LineEnd(text);
    if x < |text| {
      var a, b := text[..x], text[x + 1..];
      assert text == a + "\n" + b;
      EndsLine(a, b);
      var w, w' := TrimParts(a);
      TrimmedOne(a, w, TrimSpace(a), w');
      ParseEnds(cols, a, 0, b);
      ParseEnds(cols, TrimSpace(a), 0, b);
      NextEnds(cols, trim, b);
    }
  }

  lemma TrimmedOne(a: string, w: string, t: string, w': string)
    requires a == w + t + w' && '\n' !in a
    ensures '\n' !in t && OneLine(a, 0) && OneLine(t, 0)
  {
    forall i | 0 <= i < |t| ensures t[i] != '\n' {
      assert a[|w| + i] == t[i];
    }
  }

  /** The rows that are read, and the lines rejected, take up no more lines than the file has. */
  lemma {:induction false} RowsInFile(cols: seq<Column>, trim: bool, n: nat, text: string)
    requires ColumnsOk(cols)
    ensures var d := ReadRows(cols, trim, -1, n, text);
      RowsEnds(d.rows) + |d.rejected| <= Ends(text)
    decreases |text|
  {
    hide NextRow, Ends, ColumnsOk, RowEnds;
    NextEnds(cols, trim, text);
    var r := NextRow(cols, trim, text);
    if r.Next? {
      RowsInFile(cols, trim, n, r.parsed.text);
      RowsInFile(cols, trim, n + 1, r.parsed.text);
      if r.parsed.Row? {
        var d := ReadRows(cols, trim, -1, n + 1, r.parsed.text);
        assert ([r.parsed.values] + d.rows)[1..] == d.rows;
      }
    }
  }

  // ---------------------------------------------------------------- when a file is read back

  lemma {:induction false} MarkedEnds(v: string, c: char)
    requires c != '\n'
    ensures Ends(Marked(v, c, "\\", "")) == Ends(v)
  {
    hide Ends;
    EndsOne('\\');
    if v != "" {
      MarkedEnds(v[1..], c);
      var h := if v[0] == c then "\\" + [v[0]] + "" else [v[0]];
      assert v == [v[0]] + v[1..];
      EndsConcat([v[0]], v[1..]);
      EndsConcat(h, Marked(v[1..], c, "\\", ""));
      EndsConcat("\\", [v[0]]);
      assert "\\" + [v[0]] + "" == "\\" + [v[0]];
      EndsOne(v[0]);
    }
  }

  lemma MarkEnds(s: string)
    requires s == "" || Mark(s)
    ensures Ends(s) == 0
  {
    if s != "" {
      assert s == [s[0]];
      EndsOne(s[0]);
    }
  }

  lemma CellEnds(col: Column, v: string)
    requires QuotedColumn(col) || PlainColumn(col)
    ensures Ends(CellText(col, v)) == Ends(v)
  {
    hide Ends, Marked, EscapeCell;
    EscapeOne(col, v);
    MarkedEnds(v, '\\');
    var e := Marked(v, '\\', "\\", "");
    if col.rq != "" {
      MarkedEnds(e, col.rq[0]);
    } else if col.sep != "" {
      MarkedEnds(e, col.sep[0]);
    }
    MarkEnds(col.lq);
    MarkEnds(col.rq);
    MarkEnds(col.sep);
    EndsConcat(col.lq, EscapeCell(col, v));
    EndsConcat(col.lq + EscapeCell(col, v), col.rq);
    EndsConcat(col.lq + EscapeCell(col, v) + col.rq, col.sep);
  }

  lemma {:induction false} CellsEnds(cols: seq<Column>, row: seq<string>)
    requires Fits(cols, row)
    ensures Ends(CellsText(cols, row)) == RowEnds(row)
    decreases |cols|
  {
    hide CellText, Ends;
    EndsOne('\\');
    if cols != [] {
      CellEnds(cols[0], row[0]);
      CellsEnds(cols[1..], row[1..]);
      EndsConcat(CellText(cols[0], row[0]), CellsText(cols[1..], row[1..]));
    }
  }

  lemma RowTextEnds(cols: seq<Column>, row: seq<string>)
    requires Fits(cols, row)
    ensures Ends(RowText(cols, row)) == 1 + RowEnds(row)
  {
    hide Ends, Fits;
    CellsEnds(cols, row);
    EndsConcat(CellsText(cols, row), "\n");
    EndsOne('\n');
    assert "\n" == ['\n'];
  }

  lemma {:induction false} FileEnds(cols: seq<Column>, rows: seq<seq<string>>)
    requires forall row :: row in rows ==> Fits(cols, row)
    ensures Ends(FileText(cols, rows)) == RowsEnds(rows)
  {
    hide Ends, Fits, RowText;
    EndsOne('\\');
    if rows != [] {
      assert rows[0] in rows && forall row :: row in rows[1..] ==> row in rows;
      RowTextEnds(cols, rows[0]);
      FileEnds(cols, rows[1..]);
      EndsConcat(RowText(cols, rows[0]), FileText(cols, rows[1..]));
    }
  }

  lemma {:induction false} FitsColumns(cols: seq<Column>, row: seq<string>)
    requires Fits(cols, row)
    ensures ColumnsOk(cols)
    decreases |cols|
  {
    hide QuotedColumn, PlainColumn;
    if cols != [] {
      FitsColumns(cols[1..], row[1..]);
      forall i | 0 <= i < |cols|
        ensures QuotedColumn(cols[i]) || (PlainColumn(cols[i]) && (cols[i].sep == "" ==> i == |cols| - 1))
      {
        if i > 0 {
          assert cols[i] == cols[1..][i - 1];
        }
      }
    }
  }

  // ---------------------------------------------------------------- a row whose first line was trimmed

  predicate LeftQuotesSeen(cols: seq<Column>) {
    forall i :: 0 <= i < |cols| ==> cols[i].lq == "" || !White(cols[i].lq[0])
  }

  /** Without the end of an escaped value there is no right quote in the line, and something of the value is missing. */
  lemma {:induction false} CutPrefix(line: string, rq: string, p: nat, u: string, n: nat)
    requires Mark(rq) && rq[0] != '\\' && p <= |line| && n <= |Esc(u, rq[0])| && line[p..] == Esc(u, rq[0])[..n]
    ensures var c := Cut(line, rq, p, true, false);
      && !c.found && c.p == |line| && |c.v| <= |u| && (n < |Esc(u, rq[0])| ==> |c.v| < |u|)
      && ('\n' !in u ==> '\n' !in c.v)
    decreases |u|
  {
    hide Cut, Esc;
    EscNone(rq[0]);
    if p == |line| {
      CutEnd(line, rq, p, true, false);
    } else {
      assert |line[p..]| > 0 && u != "";
      var h, t := EscChar(u[0], rq[0]), Esc(u[1..], rq[0]);
      assert u == [u[0]] + u[1..];
      EscCons(u[0], u[1..], rq[0]);
      if n >= |h| {
        PrefixParts(line, p, h, t, n);
        CutChar(line, rq, p, u[0]);
        CutPrefix(line, rq, p + |h|, u[1..], n - |h|);
        assert '\n' !in u ==> '\n' !in u[1..] && u[0] != '\n';
      } else {
        assert h == ['\\', u[0]] && n == 1;
        assert (h + t)[..1] == ['\\'];
        assert line[p..] == ['\\'];
        assert line[p] == line[p..][0];
        HalfEscape(line, rq, p);
      }
    }
  }

  lemma PrefixParts(line: string, p: nat, h: string, t: string, n: nat)
    requires p <= |line| && |h| <= n <= |h| + |t| && line[p..] == (h + t)[..n]
    ensures p + |h| <= |line| && line[p..p + |h|] == h && line[p + |h|..] == t[..n - |h|]
  {
    assert line[p..p + |h|] == line[p..][..|h|] == h;
    assert line[p + |h|..] == line[p..][|h|..] == t[..n - |h|];
  }

  /** A backslash at the end of the line escapes nothing. */
  lemma HalfEscape(line: string, rq: string, p: nat)
    requires Mark(rq) && p + 1 == |line| && line[p] == '\\'
    ensures Cut(line, rq, p, true, false) == Piece("", |line|, false)
  {
  }

  /** A value that goes on in the next line goes on with a line end. */
  lemma GoesOn(rq: string, line: string, p: nat, text: string)
    requires Mark(rq) && p < |line| && line[p] == '\n'
    ensures var q := RightQuote(rq, line, p, text); q.found ==> q.v != "" && q.v[0] == '\n'
  {
    hide IsTokenAt;
    TokenOne(line, rq, p);
    assert rq == [rq[0]];
    CutRange(line, rq, p, true, false);
    CutStarts(line, rq, p, true);
  }

  lemma CutStarts(line: string, token: string, p: nat, checkEsc: bool)
    requires token != "" && p < |line| && !IsTokenAt(line, token, p) && !(checkEsc && line[p] == '\\')
    ensures var c := Cut(line, token, p, checkEsc, false); c.v != "" && c.v[0] == line[p]
  {
    assert "" + [line[p]] == [line[p]];
  }

  /** Cut off inside, a quoted value is not read as it was. */
  lemma QuoteDiffers(rq: string, line: string, p: nat, text: string, u: string, n: nat, v: string)
    requires Mark(rq) && rq[0] != '\\' && p <= |line| && n <= |Esc(u, rq[0])| && line[p..] == Esc(u, rq[0])[..n]
    requires '\n' !in u && (v == u || (n < |Esc(u, rq[0])| && |u| < |v| && v[..|u|] == u))
    ensures var q := RightQuote(rq, line, p, text); q.found ==> q.v != v
  {
    hide Cut, Esc;
    CutPrefix(line, rq, p, u, n);
    var c, x := Cut(line, rq, p, true, false), LineEnd(text);
    if x < |text| {
      var joined := line + "\n" + text[..x];
      GoesOn(rq, joined, |line|, text[x + 1..]);
      var q, r := RightQuote(rq, line, p, text), RightQuote(rq, joined, |line|, text[x + 1..]);
      if q.found {
        EndThere(c.v, r.v, u, v);
      }
    }
  }

  lemma EndThere(c: string, tail: string, u: string, v: string)
    requires tail != "" && tail[0] == '\n' && '\n' !in u
    requires (v == u && |c| <= |u|) || (|c| < |u| < |v| && v[..|u|] == u)
    ensures c + tail != v
  {
    assert (c + tail)[|c|] == '\n';
    if |c| < |v| {
      assert v[|c|] == v[..|u|][|c|] == u[|c|];
    }
  }

  lemma {:induction false} EscEnds(v: string, q: char)
    requires q != '\n'
    ensures '\n' in v <==> '\n' in Esc(v, q)
  {
    if v != "" {
      EscEnds(v[1..], q);
      assert v == [v[0]] + v[1..];
      assert Esc(v, q) == EscChar(v[0], q) + Esc(v[1..], q);
      assert '\n' in EscChar(v[0], q) <==> v[0] == '\n' by {
        assert v[0] == '\n' ==> EscChar(v[0], q)[0] == '\n';
      }
    }
  }

  /** The text of a cell, a trimmed line and the white space cut off: s is what is left of the line. */
  ghost predicate CutOff(line: string, p: nat, w: string, text: string, all: string) {
    && p <= |line| && OneLine(line, p) && w != "" && AllWhite(w) && '\n' !in w
    && line[p..] + w + "\n" + text == all
  }

  lemma QuotedPlainText(col: Column, v: string)
    requires QuotedColumn(col)
    ensures CellText(col, v) == col.lq + Esc(v, col.rq[0]) + col.rq + col.sep
    ensures |CellText(col, v)| == 2 + |Esc(v, col.rq[0])| + |col.sep|
  {
    hide Esc, Marked;
    EscapeOne(col, v);
    MarkedTwice(v, col.rq[0]);
  }

  /** The first line end is the one behind the line. */
  lemma FirstEnd(s: string, w: string, text: string, front: string, back: string)
    requires s + w + "\n" + text == front + back && '\n' !in s && '\n' !in w
    ensures '\n' !in front ==> |front| <= |s + w| && front == (s + w)[..|front|]
    ensures '\n' in front ==> |s + w| < |front| && front[|s + w|] == '\n' && front[..|s + w|] == s + w
  {
    var all := front + back;
    assert all[|s + w|] == '\n';
    assert all[..|s + w|] == s + w;
    if '\n' in front {
      var k :| 0 <= k < |front| && front[k] == '\n';
      assert all[k] == '\n';
      assert forall i :: 0 <= i < |s + w| ==> all[i] == (s + w)[i];
      assert forall i :: 0 <= i < |s + w| ==> (s + w)[i] != '\n';
    } else {
      assert forall i :: 0 <= i < |front| ==> all[i] == front[i] != '\n';
      assert all[..|front|] == front;
    }
  }

  /** A quoted cell of which the end of the line cuts off a part does not give its value. */
  lemma QuotedCutOff(col: Column, line: string, p: nat, text: string, v: string, w: string, more: string)
    requires QuotedColumn(col) && CutOff(line, p, w, text, CellText(col, v) + more)
    requires '\n' in v || |CellText(col, v)| > |line| - p
    ensures var g := GetColumn(col, line, p, text); g.Got? ==> g.v != v
  {
    hide GetQuoted, GetPlain, Skip, IsTokenAt, CellText, Esc;
    if p < |line| {
      QuotedPlainText(col, v);
      var q, e := col.rq[0], Esc(v, col.rq[0]);
      var s := line[p + 1..];
      assert line[p..] == [line[p]] + s;
      var all := CellText(col, v) + more;
      assert all[0] == col.lq[0] && all[0] == line[p];
      assert col.lq == [line[p]];
      assert Stream(line, p, text) == col.lq + (s + "\n" + text);
      OpenReads(col, line, p, text, s + "\n" + text);
      InnerCutOff(line, p, s, w, text, col, e, more);
      QuotedRestCutOff(col, line, p + 1, text, v, w, more);
    } else {
      NoColumn(col, line, p, text);
    }
  }

  lemma InnerCutOff(line: string, p: nat, s: string, w: string, text: string, col: Column, e: string, more: string)
    requires p < |line| && line[p..] == [line[p]] + s && col.lq == [line[p]]
    requires line[p..] + w + "\n" + text == col.lq + e + col.rq + col.sep + more
    ensures s + w + "\n" + text == e + col.rq + (col.sep + more)
  {
    assert line[p..] + w + "\n" + text == [line[p]] + (s + w + "\n" + text);
    assert col.lq + e + col.rq + col.sep + more == [line[p]] + (e + col.rq + (col.sep + more));
    assert ([line[p]] + (s + w + "\n" + text))[1..] == s + w + "\n" + text;
    assert ([line[p]] + (e + col.rq + (col.sep + more)))[1..] == e + col.rq + (col.sep + more);
  }

  /** At the end of the line there is no column with a quote or a separator. */
  lemma NoColumn(col: Column, line: string, p: nat, text: string)
    requires p == |line| && col.lq != ""
    ensures GetColumn(col, line, p, text).Failed?
  {
  }

  lemma QuotedRestCutOff(col: Column, line: string, p: nat, text: string, v: string, w: string, more: string)
    requires QuotedColumn(col) && CutOff(line, p, w, text, Esc(v, col.rq[0]) + col.rq + (col.sep + more))
    requires '\n' in v || |Esc(v, col.rq[0])| + 1 + |col.sep| > |line| - p
    ensures var g := GetQuoted(col, line, p, text); g.Got? ==> g.v != v
  {
    hide RightQuote, Skip, Esc;
    var q, e, s := col.rq[0], Esc(v, col.rq[0]), line[p..];
    assert e + col.rq + (col.sep + more) == e + (col.rq + (col.sep + more));
    FirstEnd(s, w, text, e, col.rq + (col.sep + more));
    EscEnds(v, q);
    if '\n' in v {
      var i := EscSplit(v, q, |s + w|);
      var u := v[..i];
      assert Esc(u, q) == e[..|s + w|];
      EscEnds(u, q);
      assert s == Esc(u, q)[..|s|];
      QuoteDiffers(col.rq, line, p, text, u, |s|, v);
    } else if |s| <= |e| {
      assert s == e[..|s|];
      QuoteDiffers(col.rq, line, p, text, v, |s|, v);
    } else {
      SepCutOff(col, line, p, text, v, w, more);
    }
  }

  /** The value and its quote are there, but the separator is not. */
  lemma SepCutOff(col: Column, line: string, p: nat, text: string, v: string, w: string, more: string)
    requires QuotedColumn(col) && CutOff(line, p, w, text, Esc(v, col.rq[0]) + col.rq + (col.sep + more))
    requires |Esc(v, col.rq[0])| < |line| - p < |Esc(v, col.rq[0])| + 1 + |col.sep|
    ensures GetQuoted(col, line, p, text).Failed?
  {
    hide RightQuote, Esc;
    var e, s := Esc(v, col.rq[0]), line[p..];
    var all := e + col.rq + (col.sep + more);
    assert s == all[..|s|] == e + col.rq;
    assert Stream(line, p, text) == e + col.rq + ("\n" + text);
    QuoteHere(col.rq, line, p, text, v, "\n" + text);
    var r := RightQuote(col.rq, line, p, text);
    assert "" + "\n" + text == "\n" + text;
    EndsWith(r.line, r.p, r.text, "", text);
    assert r.p == |r.line|;
  }

  lemma {:induction false} NotCut(line: string, sep: string, p: nat)
    requires |sep| == 1 && p <= |line| && forall i :: p <= i < |line| ==> line[i] != sep[0]
    ensures !Cut(line, sep, p, false, false).found
    decreases |line| - p
  {
    if p < |line| {
      TokenOne(line, sep, p);
      NotCut(line, sep, p + 1);
    }
  }

  /** A plain cell of which the end of the line cuts off a part has no separator any more, or loses a part of its value. */
  lemma PlainCutOff(col: Column, line: string, p: nat, text: string, v: string, w: string, more: string)
    requires PlainColumn(col) && PlainValue(col, v) && CutOff(line, p, w, text, CellText(col, v) + more)
    requires |CellText(col, v)| > |line| - p
    ensures var g := GetColumn(col, line, p, text); g.Got? ==> g.v != v
  {
    hide Cut, CellText, IsTokenAt;
    PlainText(col, v);
    var s, all := line[p..], CellText(col, v) + more;
    assert s == all[..|s|] == (v + col.sep)[..|s|];
    if col.sep != "" {
      assert s == v[..|s|] && col.sep == [col.sep[0]];
      assert forall i :: p <= i < |line| ==> line[i] == s[i - p];
      TokenOne(line, col.sep, p);
      NotCut(line, col.sep, p);
    }
  }

  /** A cell that is whole in the line is read, and the rest is cut off as before. */
  lemma WholeCell(col: Column, line: string, p: nat, text: string, v: string, w: string, more: string)
    requires QuotedColumn(col) || (PlainColumn(col) && PlainValue(col, v) && col.sep != "")
    requires CutOff(line, p, w, text, CellText(col, v) + more) && |CellText(col, v)| <= |line| - p && Follows(col, more)
    ensures var g := GetColumn(col, line, p, text);
      g.Got? && g.v == v && g.kept && g.text == text && CutOff(g.line, g.p, w, text, more)
  {
    hide GetColumn, CellText, Reads, Stream;
    var n := |CellText(col, v)|;
    var s := line[p + n..];
    var rest := s + "\n" + text;
    assert rest[|s|] == '\n';
    CellWhole(line, p, w, text, CellText(col, v), more);
    assert s + w + "\n" + text == more;
    assert Follows(col, rest) by {
      assert s != "" ==> more[0] == s[0] == rest[0];
      assert s == "" ==> rest[0] == '\n';
    }
    if QuotedColumn(col) {
      QuotedCell(col, line, p, text, v, rest);
    } else {
      PlainCell(col, line, p, text, v, rest);
    }
    var g := GetColumn(col, line, p, text);
    ReadsIs(g, v, rest);
    assert forall i :: 0 <= i < |s| ==> s[i] == line[p + n + i];
    EndsWith(g.line, g.p, g.text, s, text);
  }

  lemma ReadsIs(g: Got, v: string, more: string)
    requires Reads(g, v, more)
    ensures g.Got? && g.v == v && g.kept && g.p <= |g.line| && OneLine(g.line, g.p) && Stream(g.line, g.p, g.text) == more
  {
  }

  lemma CellWhole(line: string, p: nat, w: string, text: string, cell: string, more: string)
    requires p <= |line| && |cell| <= |line| - p && line[p..] + w + "\n" + text == cell + more
    ensures line[p + |cell|..] + w + "\n" + text == more
    ensures Stream(line, p, text) == cell + (line[p + |cell|..] + "\n" + text)
  {
    var all, n := cell + more, |cell|;
    assert line[p..] == line[p..p + n] + line[p + n..];
    assert line[p..p + n] == all[..n] == cell;
    assert all == cell + (line[p + n..] + w + "\n" + text);
    assert all[n..] == line[p + n..] + w + "\n" + text;
  }

  lemma CellCutOff(col: Column, line: string, p: nat, text: string, v: string, w: string, more: string)
    requires QuotedColumn(col) || (PlainColumn(col) && PlainValue(col, v))
    requires CutOff(line, p, w, text, CellText(col, v) + more) && |CellText(col, v)| > |line| - p
    ensures var g := GetColumn(col, line, p, text); g.Got? ==> g.kept && g.v != v
  {
    hide CellText, CutOff;
    if QuotedColumn(col) {
      QuotedCutOff(col, line, p, text, v, w, more);
    } else {
      PlainCutOff(col, line, p, text, v, w, more);
    }
  }

  /** Either the cell is whole in the line and has a separator or a quote to end it, or it is cut off. */
  lemma WholeOrCut(col: Column, line: string, p: nat, text: string, v: string, w: string, after: string)
    requires PlainColumn(col) && PlainValue(col, v) && col.sep == "" && CutOff(line, p, w, text, CellText(col, v) + ("\n" + after))
    ensures |CellText(col, v)| > |line| - p
  {
    hide CellText;
    PlainText(col, v);
    assert v + "" == v;
    var s := line[p..] + w;
    assert s + "\n" + text == v + ("\n" + after);
    assert (v + ("\n" + after))[|v|] == '\n';
    assert forall i :: 0 <= i < |s| ==> s[i] != '\n';
    assert (s + "\n" + text)[..|s|] == s;
    assert |v| >= |s|;
  }

  /** White space cut off at the end of the first line: the row is not read as it was written. */
  lemma {:induction false} TrailingDiffers(cols: seq<Column>, row: seq<string>, line: string, p: nat, text: string, w: string,
                                           after: string)
    requires Fits(cols, row) && CutOff(line, p, w, text, RowText(cols, row) + after)
    ensures var r := ParseFrom(cols, line, p, text); !(r.Row? && r.values == row)
    decreases |cols|
  {
    hide GetColumn, CellText, QuotedColumn, PlainColumn, PlainValue, CutOff, Follows;
    if cols == [] {
      NoneCutOff(line, p, w, text, after);
    } else {
      var rest := RowText(cols[1..], row[1..]);
      var more := rest + after;
      var g := GetColumn(cols[0], line, p, text);
      assert RowText(cols, row) + after == CellText(cols[0], row[0]) + more;
      FollowsMore(cols[0], rest, after);
      if !QuotedColumn(cols[0]) && !HasSep(cols[0]) {
        assert rest == "\n";
        WholeOrCut(cols[0], line, p, text, row[0], w, after);
      }
      if |CellText(cols[0], row[0])| <= |line| - p {
        WholeCell(cols[0], line, p, text, row[0], w, more);
        TrailingDiffers(cols[1..], row[1..], g.line, g.p, text, w, after);
      } else {
        CellCutOff(cols[0], line, p, text, row[0], w, more);
      }
    }
  }

  lemma NoneCutOff(line: string, p: nat, w: string, text: string, after: string)
    ensures !CutOff(line, p, w, text, RowText([], []) + after)
  {
    if p <= |line| && OneLine(line, p) && w != "" && '\n' !in w {
      var s := line[p..] + w;
      assert s[0] == (if p < |line| then line[p] else w[0]) != '\n';
      assert (s + "\n" + text)[0] == s[0];
      assert (RowText([], []) + after)[0] == '\n';
    }
  }

  /** White space cut off at the start of the first line: the first value is not read as it was written. */
  lemma LeadingDiffers(cols: seq<Column>, row: seq<string>, f: string, t: string, text: string, after: string)
    requires Fits(cols, row) && LeftQuotesSeen(cols) && f + "\n" + text == RowText(cols, row) + after && '\n' !in f
    requires f != "" && White(f[0]) && t != "" && !White(t[0]) && |t| < |f|
    ensures var r := ParseFrom(cols, t, 0, text); !(r.Row? && r.values == row)
  {
    hide CellText, Fits, GetColumn, ParseFrom, RowText, QuotedColumn, PlainColumn, PlainValue;
    SomeColumn(cols, row, f + "\n" + text, after);
    var rest := RowText(cols[1..], row[1..]);
    assert f[0] in f && (f + "\n" + text)[0] == f[0];
    QuotedStarts(cols[0], row[0], rest + after);
    if !QuotedColumn(cols[0]) {
      FirstValue(cols, t, text);
      if cols[0].sep == "" {
        LastPlain(cols[0], row[0], f, t, text, after);
      } else {
        FirstPlain(cols[0], row[0], f, t, text, rest + after);
      }
    }
  }

  /** A text that is not a mere line end is that of a first cell and the rest. */
  lemma SomeColumn(cols: seq<Column>, row: seq<string>, all: string, after: string)
    requires Fits(cols, row) && all == RowText(cols, row) + after && all[0] != '\n'
    ensures cols != [] && row != [] && all == CellText(cols[0], row[0]) + (RowText(cols[1..], row[1..]) + after)
    ensures QuotedColumn(cols[0]) || (PlainColumn(cols[0]) && PlainValue(cols[0], row[0]))
    ensures !QuotedColumn(cols[0]) && cols[0].sep == "" ==> RowText(cols[1..], row[1..]) == "\n"
  {
    hide CellText, QuotedColumn, PlainColumn, PlainValue, Follows;
    assert ("\n" + after)[0] == '\n' && "" + "\n" == "\n";
    assert cols != [];
    assert CellsText(cols, row) == CellText(cols[0], row[0]) + CellsText(cols[1..], row[1..]);
  }

  /** The first value of a parsed row is that of the first column, if it is kept. */
  lemma FirstValue(cols: seq<Column>, line: string, text: string)
    requires cols != []
    ensures var r, g := ParseFrom(cols, line, 0, text), GetColumn(cols[0], line, 0, text);
      r.Row? ==> g.Got? && (g.kept ==> r.values != [] && r.values[0] == g.v)
  {
    hide GetColumn;
  }

  lemma QuotedStarts(col: Column, v: string, more: string)
    ensures QuotedColumn(col) ==> col.lq != "" && CellText(col, v) + more != "" && (CellText(col, v) + more)[0] == col.lq[0]
  {
    hide EscapeCell;
  }

  lemma FirstPlain(col: Column, v: string, f: string, t: string, text: string, more: string)
    requires PlainColumn(col) && PlainValue(col, v) && f + "\n" + text == CellText(col, v) + more
    requires f != "" && White(f[0]) && t != "" && !White(t[0]) && col.sep != ""
    ensures var g := GetColumn(col, t, 0, text); g.Got? ==> g.kept && g.v != v
  {
    hide Cut, CellText, IsTokenAt;
    PlainText(col, v);
    var all := CellText(col, v) + more;
    assert all[0] == f[0] && col.sep == [col.sep[0]];
    assert f[0] == if v == "" then col.sep[0] else v[0];
    TokenOne(t, col.sep, 0);
    if !IsTokenAt(t, col.sep, 0) {
      CutStarts(t, col.sep, 0, false);
    }
  }

  lemma LastPlain(col: Column, v: string, f: string, t: string, text: string, after: string)
    requires PlainColumn(col) && PlainValue(col, v) && col.sep == "" && '\n' !in f && |t| < |f|
    requires f + "\n" + text == CellText(col, v) + ("\n" + after)
    ensures var g := GetColumn(col, t, 0, text); g.Got? ==> g.kept && g.v != v
  {
    hide CellText;
    PlainText(col, v);
    assert Stream(f, 0, text) == v + "\n" + after;
    EndsWith(f, 0, text, v, after);
  }

  /** If trimming changes the first line, the row is not read as it was written. */
  lemma TrimmedDiffers(cols: seq<Column>, row: seq<string>, rest: string, after: string)
    requires Fits(cols, row) && LeftQuotesSeen(cols) && RowText(cols, row) == FirstLine(cols, row) + "\n" + rest
    requires '\n' !in FirstLine(cols, row)
    requires TrimSpace(FirstLine(cols, row)) != "" && TrimSpace(FirstLine(cols, row)) != FirstLine(cols, row)
    ensures var r := ParseFrom(cols, TrimSpace(FirstLine(cols, row)), 0, rest + after); !(r.Row? && r.values == row)
  {
    hide Fits, RowText, FirstLine, TrimSpace, ParseFrom, LeftQuotesSeen;
    var f := FirstLine(cols, row);
    var t := TrimSpace(f);
    var w, w' := TrimParts(f);
    assert f + "\n" + (rest + after) == RowText(cols, row) + after;
    if w != "" {
      assert f[0] == w[0];
      LeadingDiffers(cols, row, f, t, rest + after, after);
    } else {
      assert f == t + w';
      assert t[0..] == t;
      assert forall i :: 0 <= i < |t| ==> t[i] == f[i];
      assert forall i :: 0 <= i < |w'| ==> w'[i] == f[|t| + i];
      TrailingDiffers(cols, row, t, 0, rest + after, w', after);
    }
  }

  /** What reading finds at a row whose first line trimming changes: no row, or another one. */
  lemma NextTrimmed(cols: seq<Column>, row: seq<string>, after: string)
    requires Fits(cols, row) && LeftQuotesSeen(cols) && !BlankFirst(cols, row) && !Stays(cols, row, true)
    ensures var r := NextRow(cols, true, RowText(cols, row) + after);
      r.Next? && Ends(r.parsed.text) < Ends(RowText(cols, row) + after) && !(r.parsed.Row? && r.parsed.values == row)
  {
    hide Fits, ParseFrom, TrimSpace, LeftQuotesSeen, FirstLine, RowText;
    var rest := FirstSplit(cols, row, after);
    TrimEmpty(FirstLine(cols, row));
    assert '\n' !in FirstLine(cols, row) by {
      FirstOne(cols, row);
    }
    TrimmedDiffers(cols, row, rest, after);
    FitsColumns(cols, row);
    NextEnds(cols, true, RowText(cols, row) + after);
  }

  lemma FirstOne(cols: seq<Column>, row: seq<string>)
    ensures '\n' !in FirstLine(cols, row)
  {
  }

  /** The rows of a written file, if they are what reading it finds, stay as they are. */
  lemma {:induction false} OnlyIfStays(cols: seq<Column>, rows: seq<seq<string>>, trim: bool, n: nat)
    requires (forall row :: row in rows ==> Fits(cols, row)) && (trim ==> LeftQuotesSeen(cols))
    requires ReadRows(cols, trim, -1, n, FileText(cols, rows)).rows == rows
    ensures forall row :: row in rows ==> Stays(cols, row, trim)
    decreases |rows|
  {
    hide Fits, Stays, BlankFirst, RowText, NextRow, LeftQuotesSeen, Ends;
    if rows != [] {
      assert rows[0] in rows && forall row :: row in rows[1..] ==> row in rows;
      var after := FileText(cols, rows[1..]);
      FitsColumns(cols, rows[0]);
      FileEnds(cols, rows);
      FirstStays(cols, rows, trim, n, after);
      NextStays(cols, rows[0], trim, after);
      var d := ReadRows(cols, trim, -1, n + 1, after);
      assert ([rows[0]] + d.rows)[1..] == d.rows;
      OnlyIfStays(cols, rows[1..], trim, n + 1);
    }
  }

  lemma FirstStays(cols: seq<Column>, rows: seq<seq<string>>, trim: bool, n: nat, after: string)
    requires rows != [] && Fits(cols, rows[0]) && ColumnsOk(cols) && (trim ==> LeftQuotesSeen(cols))
    requires FileText(cols, rows) == RowText(cols, rows[0]) + after && Ends(FileText(cols, rows)) == RowsEnds(rows)
    requires ReadRows(cols, trim, -1, n, FileText(cols, rows)).rows == rows
    ensures Stays(cols, rows[0], trim)
  {
    hide Fits, RowText, NextRow, LeftQuotesSeen, Ends, FirstLine, FileText, AllWhite;
    var text := FileText(cols, rows);
    if BlankFirst(cols, rows[0]) {
      var rest := NextBlank(cols, rows[0], trim, after);
      SameNext(cols, trim, n, text, rest + after);
      RowsInFile(cols, trim, n, rest + after);
      FirstOne(cols, rows[0]);
      assert text == FirstLine(cols, rows[0]) + "\n" + (rest + after);
      EndsLine(FirstLine(cols, rows[0]), rest + after);
    } else if !Stays(cols, rows[0], trim) {
      NextTrimmed(cols, rows[0], after);
      var r := NextRow(cols, true, text);
      RowsInFile(cols, trim, n, r.parsed.text);
    }
  }

  /**
   A written file is read back exactly if no first line of a row is all white space and, when lines are trimmed, no
   first line of a row begins or ends with white space.
   */
  lemma FileRoundTrip(cols: seq<Column>, rows: seq<seq<string>>, trim: bool)
    requires (forall row :: row in rows ==> Fits(cols, row)) && (trim ==> LeftQuotesSeen(cols))
    ensures ReadRows(cols, trim, -1, 0, FileText(cols, rows)).rows == rows
      <==> forall row :: row in rows ==> Stays(cols, row, trim)
    ensures (forall row :: row in rows ==> Stays(cols, row, trim)) ==>
      ReadRows(cols, trim, -1, 0, FileText(cols, rows)) == Dataset(rows, [], "", EndOfFile)
  {
    hide Fits, LeftQuotesSeen, Stays;
    if forall row :: row in rows ==> Stays(cols, row, trim) {
      FileRead(cols, rows, trim, 0);
      AllShown(cols, rows, trim);
    }
    if ReadRows(cols, trim, -1, 0, FileText(cols, rows)).rows == rows {
      OnlyIfStays(cols, rows, trim, 0);
    }
  }

  lemma {:induction false} AllShown(cols: seq<Column>, rows: seq<seq<string>>, trim: bool)
    requires forall row :: row in rows ==> Stays(cols, row, trim)
    ensures Shown(cols, rows) == rows
  {
    hide BlankFirst, TrimSpace;
    if rows != [] {
      assert rows[0] in rows && forall row :: row in rows[1..] ==> row in rows;
      AllShown(cols, rows[1..], trim);
      assert [rows[0]] + rows[1..] == rows;
    }
  }

  /** In front of the first line end of a value there is its left quote. */
  lemma {:induction false} BlankOneLiner(cols: seq<Column>, row: seq<string>)
    requires Fits(cols, row) && LeftQuotesSeen(cols) && !OneLiner(cols, row)
    ensures exists i :: 0 <= i < LineEnd(CellsText(cols, row)) && !White(CellsText(cols, row)[i])
    decreases |cols|
  {
    hide CellText, LineEnd;
    var text := CellsText(cols, row);
    var cell, rest := CellText(cols[0], row[0]), CellsText(cols[1..], row[1..]);
    assert text == cell + rest;
    if QuotedColumn(cols[0]) {
      QuotedStarts(cols[0], row[0], rest);
      assert LineEnd(text) > 0;
    } else {
      PlainText(cols[0], row[0]);
      assert '\n' !in cell;
      BlankOneLiner(cols[1..], row[1..]);
      var i :| 0 <= i < LineEnd(rest) && !White(rest[i]);
      assert text[|cell| + i] == rest[i];
      assert text[|cell|..] == rest;
      LaterEnd(cell, rest);
    }
  }

  lemma LaterEnd(cell: string, rest: string)
    requires '\n' !in cell
    ensures LineEnd(cell + rest) == |cell| + LineEnd(rest)
  {
    var x := LineEnd(rest);
    assert forall i :: 0 <= i < |cell| ==> (cell + rest)[i] == cell[i];
    assert forall i :: 0 <= i < x ==> (cell + rest)[|cell| + i] == rest[i];
    LineEndIs(cell + rest, |cell| + x);
  }

  /** Without trimming, reading a written file gives exactly its rows without those that begin with a blank line. */
  lemma FileShown(cols: seq<Column>, rows: seq<seq<string>>)
    requires (forall row :: row in rows ==> Fits(cols, row)) && LeftQuotesSeen(cols)
    ensures ReadRows(cols, false, -1, 0, FileText(cols, rows)) == Dataset(Shown(cols, rows), [], "", EndOfFile)
  {
    hide Fits, LeftQuotesSeen, ReadRows, BlankFirst, OneLiner, TrimSpace, FileText, Shown, FirstLine;
    forall row | row in rows ensures Stays(cols, row, false) || (BlankFirst(cols, row) && OneLiner(cols, row)) {
      if BlankFirst(cols, row) {
        BlankIsOne(cols, row);
      }
    }
    FileRead(cols, rows, false, 0);
  }

  lemma BlankIsOne(cols: seq<Column>, row: seq<string>)
    requires Fits(cols, row) && LeftQuotesSeen(cols) && BlankFirst(cols, row)
    ensures OneLiner(cols, row)
  {
    hide Fits, LeftQuotesSeen, CellsText, FirstLine, OneLiner;
    if !OneLiner(cols, row) {
      FirstOfMany(cols, row);
      forall i | 0 <= i < LineEnd(CellsText(cols, row)) ensures White(CellsText(cols, row)[i]) {
        assert FirstLine(cols, row)[i] == CellsText(cols, row)[i];
      }
      BlankOneLiner(cols, row);
    }
  }

  lemma FirstOfMany(cols: seq<Column>, row: seq<string>)
    requires !OneLiner(cols, row)
    ensures FirstLine(cols, row) == CellsText(cols, row)[..LineEnd(CellsText(cols, row))]
  {
    var x := LineEnd(CellsText(cols, row));
    LineEndIs(RowText(cols, row), x);
  }

  /** Where columns end with a blank: a blank is an empty value, and otherwise all blanks behind the value go with it. */
  lemma BlankSeparated(col: Column, line: string, p: nat, text: string)
    requires col.lq == col.rq == "" && col.sep == " " && p <= |line| && OneLine(line, p)
    ensures var g := GetColumn(col, line, p, text);
      var a := SkipSpace(line, p);
      if p < |line| && line[p] == ' ' then g == Got("", true, line, p + 1, text)
      else g.Got? ==>
        var b := a + |g.v|;
        && g.text == text && g.line == line && b < |line| && line[a..b] == g.v && ' ' !in g.v && line[b] == ' '
        && g.p == SkipSpace(line, b + 1)
  {
    hide IsTokenAt, Cut;
    TokenOne(line, " ", p);
    var a := SkipSpace(line, p);
    SpaceRange(line, p);
    CutFirst(line, " ", a);
    var c := Cut(line, " ", a, false, false);
    if c.found {
      OneBlank(line, a, c.p - 1);
    }
  }

  lemma OneBlank(line: string, a: nat, b: nat)
    requires a <= b <= |line| && IsTokenAt(line, " ", b) && forall i :: a <= i < b ==> !IsTokenAt(line, " ", i)
    ensures b < |line| && line[b] == ' ' && ' ' !in line[a..b]
  {
    TokenOne(line, " ", b);
    forall i | a <= i < b ensures line[i] != ' ' {
      TokenOne(line, " ", i);
    }
  }

  /** Behind a plain column that took the rest of a line from its middle another one panics. */
  lemma PastTheEnd()
    ensures ParseFrom([Column("", "", ",", false), Column("", "", "", false), Column("", "", "", false)], ",a", 0, "")
         == Bad(OutOfRange, "")
  {
    hide Cut, Skip;
    var cols := [Column("", "", ",", false), Column("", "", "", false), Column("", "", "", false)];
    TokenOne(",a", ",", 0);
    assert cols[1..][0] == cols[1] && cols[1..][1..] == [cols[2]];
    assert GetColumn(cols[0], ",a", 0, "") == Got("", true, ",a", 1, "");
    assert GetColumn(cols[1], ",a", 1, "") == Got(",a"[1..], true, ",a", 3, "");
    assert GetColumn(cols[2], ",a", 3, "") == Failed(OutOfRange, "");
  }

  /** How the value a'b\c is written between quotes and before a comma. */
  lemma QuotedText()
    ensures CellText(Column("\'", "\'", ",", false), "a\'b\\c") == "\'a\\\'b\\\\c\',"
  {
    hide CellText, Esc, EscChar;
    var col := Column("\'", "\'", ",", false);
    QuotedPlainText(col, "a\'b\\c");
    EscNone('\'');
    EscapedFirst('a', "\'b\\c", "a\'b\\c");
    EscapedFirst('\'', "b\\c", "\'b\\c");
    EscapedFirst('b', "\\c", "b\\c");
    EscapedFirst('\\', "c", "\\c");
    EscapedFirst('c', "", "c");
    assert Esc("a\'b\\c", '\'') == "a" + ("\\\'" + ("b" + ("\\\\" + ("c" + ""))));
  }

  lemma EscapedFirst(c: char, w: string, v: string)
    requires v == [c] + w
    ensures Esc(v, '\'') == (if c == '\\' || c == '\'' then ['\\', c] else [c]) + Esc(w, '\'')
  {
    hide Esc;
    EscCons(c, w, '\'');
  }

  /** One column that a tab ends, and nothing in it: the row is written as a tab, and never read. */
  lemma BlankLost()
    ensures var cols, rows := [Column("", "", "\t", false)], [[""]];
      Fits(cols, rows[0]) && FileText(cols, rows) == "\t\n" && ReadRows(cols, false, -1, 0, FileText(cols, rows)).rows == []
  {
    hide ReadRows, FileText, Fits, LeftQuotesSeen, Shown;
    BlankText();
    BlankShown();
    FileShown([Column("", "", "\t", false)], [[""]]);
  }

  lemma BlankText()
    ensures var cols, row := [Column("", "", "\t", false)], [""];
      CellsText(cols, row) == "\t" && RowText(cols, row) == "\t\n" && FileText(cols, [row]) == "\t\n"
  {
    var cols, row := [Column("", "", "\t", false)], [""];
    assert RowText(cols[1..], row[1..]) == "\n";
    assert CellText(cols[0], "") == "\t";
    assert CellsText(cols, row) == "\t";
    assert FileText(cols, [row][1..]) == "";
  }

  lemma BlankShown()
    ensures var cols, row := [Column("", "", "\t", false)], [""];
      Fits(cols, row) && LeftQuotesSeen(cols) && Shown(cols, [row]) == []
  {
    hide RowText, CellsText, FileText;
    BlankText();
    LineEndIs("\t\n", 1);
    assert Shown([Column("", "", "\t", false)], [[""]][1..]) == [];
  }

  /** A last value that ends with a space loses it when lines are trimmed, as they are by default. */
  lemma SpaceLost()
    ensures var cols, rows := [Column("", "", "", false)], [["a "]];
      Fits(cols, rows[0]) && !(ReadRows(cols, true, -1, 0, FileText(cols, rows)).rows == rows)
  {
    hide ReadRows, FileText, Fits, FirstLine, LeftQuotesSeen, TrimSpace;
    var cols, rows := [Column("", "", "", false)], [["a "]];
    SpaceText();
    assert TrimSpace("a ") == "a" by {
      SpaceTrimmed();
    }
    FileRoundTrip(cols, rows, true);
    assert rows[0] in rows && !Stays(cols, rows[0], true);
  }

  lemma SpaceText()
    ensures var cols, row := [Column("", "", "", false)], ["a "];
      Fits(cols, row) && LeftQuotesSeen(cols) && FirstLine(cols, row) == "a "
  {
    var cols := [Column("", "", "", false)];
    var row: seq<string> := ["a "];
    assert RowText(cols[1..], row[1..]) == "\n";
    PlainText(cols[0], "a ");
    assert RowText(cols, row) == "a \n";
    LineEndIs("a \n", 2);
  }

  lemma SpaceTrimmed()
    ensures TrimSpace("a ") == "a"
  {
    assert TrimLeft("a ") == "a ";
    assert "a "[..1] == "a";
  }

  const TAB_QUOTED := Column("\t", ",", ",", false)

  lemma TabText()
    ensures var cols, row := [TAB_QUOTED], [""];
      && Fits(cols, row) && RowText(cols, row) == "\t,,\n" == FileText(cols, [row])
      && FirstLine(cols, row) == "\t,," && LineEnd("\t,,\n") == 3
  {
    var cols := [TAB_QUOTED];
    var row: seq<string> := [""];
    assert RowText(cols[1..], row[1..]) == "\n";
    assert CellText(cols[0], "") == "\t,,";
    assert CellsText(cols, row) == "\t,,";
    assert RowText(cols, row) == "\t,,\n" && FileText(cols, [row]) == "\t,,\n";
    LineEndIs("\t,,\n", 3);
  }

  lemma TabNext()
    ensures TrimSpace("\t,,") == ",," && NextRow([TAB_QUOTED], true, "\t,,\n") == Next(",,", Row([""], ""))
  {
    hide FileText, RowText, Fits, FirstLine, LineEnd;
    TabText();
    var cols := [TAB_QUOTED];
    assert "\t,,"[1..] == ",,";
    assert TrimLeft("\t,,") == ",,";
    assert TrimSpace("\t,,") == ",,";
    assert IsTokenAt(",,", ",", 0);
    assert GetColumn(cols[0], ",,", 0, "") == Got("", true, ",,", 1, "");
    assert cols[1..] == [];
    assert ParseFrom(cols, ",,", 0, "") == Row([""], "");
    assert "\t,,\n"[..3] == "\t,," && "\t,,\n"[4..] == "";
  }

  /** With a tab as the left quote it can happen that a trimmed row is read back: the separator is taken for it all. */
  lemma TabQuote()
    ensures var cols, rows := [TAB_QUOTED], [[""]];
      && Fits(cols, rows[0]) && !Stays(cols, rows[0], true)
      && ReadRows(cols, true, -1, 0, FileText(cols, rows)) == Dataset(rows, [], "", EndOfFile)
  {
    hide FileText, Fits, TrimSpace, NextRow;
    TabText();
    TabNext();
    NothingNext([TAB_QUOTED], true);
  }

  const TAB_OPENED := Column("\t", "\'", ",", false)

  lemma OpenedText()
    ensures var cols, row := [TAB_OPENED], ["\nx"];
      && Fits(cols, row) && FileText(cols, [row]) == "\t\nx\',\n" && BlankFirst(cols, row) && !OneLiner(cols, row)
      && Shown(cols, [row]) == []
  {
    hide Fits, CellsText, RowText, FileText, LineEnd;
    OpenedCells();
    var cols, row := [TAB_OPENED], ["\nx"];
    assert CellsText(cols, row)[1] == '\n';
    LineEndIs("\t\nx\',\n", 1);
    assert FirstLine(cols, row) == "\t";
    assert [row][1..] == [];
  }

  lemma OpenedCells()
    ensures var cols, row := [TAB_OPENED], ["\nx"];
      && Fits(cols, row) && CellsText(cols, row) == "\t\nx\',"
      && RowText(cols, row) == "\t\nx\',\n" == FileText(cols, [row])
  {
    hide Marked, Enclosed;
    var cols := [TAB_OPENED];
    var row: seq<string> := ["\nx"];
    assert RowText(cols[1..], row[1..]) == "\n";
    MarkedNone("\nx", '\\', "\\", "");
    MarkedNone("\nx", '\'', "\\", "");
    EscapeOne(cols[0], "\nx");
    assert EscapeCell(cols[0], "\nx") == "\nx";
    assert CellText(cols[0], "\nx") == "\t\nx\',";
    assert CellsText(cols, row) == "\t\nx\',";
    assert RowText(cols, row) == "\t\nx\',\n";
    assert FileText(cols, [row][1..]) == "";
  }

  lemma OpenedNext()
    ensures NextRow([TAB_OPENED], false, "\t\nx\',\n") == Next("x\',", Bad(MissLeftQuote, ""))
  {
    hide ParseFrom;
    var cols := [TAB_OPENED];
    LineEndIs("\t\nx\',\n", 1);
    LineEndIs("x\',\n", 3);
    TrimEmpty("\t");
    TrimEmpty("x\',");
    assert "\t\nx\',\n"[..1] == "\t" && "\t\nx\',\n"[2..] == "x\',\n";
    assert "x\',\n"[..3] == "x\'," && "x\',\n"[4..] == "";
    assert !White("x\',"[0]);
    OpenedFails();
  }

  lemma OpenedFails()
    ensures ParseFrom([TAB_OPENED], "x\',", 0, "") == Bad(MissLeftQuote, "")
  {
    NotSkipped("x\',", "\t", 0);
    TokenOne("x\',", ",", 0);
  }

  lemma {:induction false} NotSkipped(line: string, token: string, p: nat)
    requires |token| == 1 && forall i :: p <= i < |line| ==> line[i] != token[0]
    ensures !Skip(line, token, p, false, false).1
    decreases |line| - p
  {
    if p < |line| {
      TokenOne(line, token, p);
      NotSkipped(line, token, p + 1);
    }
  }

  /** With a tab as the left quote, the rest of a row whose first line was skipped can be rejected. */
  lemma BlankQuote()
    ensures var cols, rows := [TAB_OPENED], [["\nx"]];
      && Fits(cols, rows[0]) && Shown(cols, rows) == []
      && ReadRows(cols, false, -1, 0, FileText(cols, rows)) == Dataset([], ["x\',"], "", EndOfFile)
  {
    hide FileText, Fits, NextRow, Shown;
    OpenedText();
    OpenedNext();
    NothingNext([TAB_OPENED], false);
  }
}
