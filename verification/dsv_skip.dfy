/**
 Columns that are to be skipped (lib/dsv/readerinterface.go): of a row that was written with all of its columns the
 reader records the values of the others, and besides them the empty ones that it recognises by their separator.
 */
module DsvSkip {
  import opened Tokens
  import opened Dsv
  import opened DsvRead

  /** The columns with none of them skipped. */
  function Wanted(col: Column): Column {
    col.(skip := false)
  }

  function Unskipped(cols: seq<Column>): (r: seq<Column>)
    ensures |r| == |cols|
  {
    if cols == [] then [] else [Wanted(cols[0])] + Unskipped(cols[1..])
  }

  /** A column is taken as empty where its separator stands. */
  predicate EmptyAt(col: Column, line: string, p: nat) {
    col.sep != "" && col.sep != col.lq && IsTokenAt(line, col.sep, p)
  }

  /** Skipping a column changes nothing but whether its value is kept. */
  lemma SkipKeeps(col: Column, line: string, p: nat, text: string)
    ensures var g := GetColumn(Wanted(col), line, p, text);
      && (g.Got? ==> g.kept && (EmptyAt(col, line, p) ==> g.v == ""))
      && GetColumn(col, line, p, text) == if g.Got? then g.(kept := !col.skip || EmptyAt(col, line, p)) else g
  {
    hide Cut, RightQuote, Skip, IsTokenAt, SkipSpace;
  }

  // ---------------------------------------------------------------- any line

  /** Which of the columns are recorded from this place on. */
  function Marks(cols: seq<Column>, line: string, p: nat, text: string): seq<bool>
    decreases |cols|
  {
    if cols == [] then []
    else
      var g := GetColumn(Wanted(cols[0]), line, p, text);
      if g.Failed? then []
      else [!cols[0].skip || EmptyAt(cols[0], line, p)] + Marks(cols[1..], g.line, g.p, g.text)
  }

  function Pick(values: seq<string>, marks: seq<bool>): seq<string>
    requires |values| == |marks|
  {
    if values == [] then [] else (if marks[0] then [values[0]] else []) + Pick(values[1..], marks[1..])
  }

  /**
   Whatever is in a line: it is read, or refused with the same fault, as if no column were skipped, over the same lines
   of the file; recorded are all values of columns that are not skipped, and of the skipped ones only empty values.
   */
  lemma {:induction false} AnyLine(cols: seq<Column>, line: string, p: nat, text: string)
    ensures var r, u := ParseFrom(cols, line, p, text), ParseFrom(Unskipped(cols), line, p, text);
      var marks := Marks(cols, line, p, text);
      && r.text == u.text && (u.Bad? ==> r == u)
      && (u.Row? ==>
            && r.Row? && |u.values| == |cols| == |marks| && r.values == Pick(u.values, marks)
            && (forall i :: 0 <= i < |cols| && !cols[i].skip ==> marks[i])
            && (forall i :: 0 <= i < |cols| && cols[i].skip && marks[i] ==> u.values[i] == ""))
    decreases |cols|
  {
    hide GetColumn, EmptyAt;
    if cols != [] {
      SkipKeeps(cols[0], line, p, text);
      var g := GetColumn(Wanted(cols[0]), line, p, text);
      assert Unskipped(cols)[0] == Wanted(cols[0]) && Unskipped(cols)[1..] == Unskipped(cols[1..]);
      if g.Got? {
        AnyLine(cols[1..], g.line, g.p, g.text);
        OneMore(cols, line, p, text);
      }
    }
  }

  lemma OneMore(cols: seq<Column>, line: string, p: nat, text: string)
    requires cols != [] && GetColumn(Wanted(cols[0]), line, p, text).Got?
    ensures var g := GetColumn(Wanted(cols[0]), line, p, text);
      var marks := Marks(cols, line, p, text);
      marks != [] && marks[0] == (!cols[0].skip || EmptyAt(cols[0], line, p))
      && marks[1..] == Marks(cols[1..], g.line, g.p, g.text)
  {
    hide GetColumn, EmptyAt;
  }

  // ---------------------------------------------------------------- written rows

  /** Recorded are the values of columns that are not skipped, and empty ones of plain columns with a separator. */
  predicate Kept(col: Column, v: string) {
    !col.skip || (col.lq == "" && col.sep != "" && v == "")
  }

  function Recorded(cols: seq<Column>, row: seq<string>): seq<string> {
    if cols == [] || row == [] then []
    else (if Kept(cols[0], row[0]) then [row[0]] else []) + Recorded(cols[1..], row[1..])
  }

  lemma {:induction false} SameText(cols: seq<Column>, row: seq<string>)
    ensures CellsText(Unskipped(cols), row) == CellsText(cols, row)
    decreases |cols|
  {
    hide CellText;
    if cols != [] && row != [] {
      SameCell(cols[0], row[0]);
      assert Unskipped(cols)[0] == Wanted(cols[0]) && Unskipped(cols)[1..] == Unskipped(cols[1..]);
      SameText(cols[1..], row[1..]);
    }
  }

  lemma QuotedNotEmpty(col: Column, line: string, p: nat, text: string, v: string, more: string)
    requires QuotedColumn(Wanted(col)) && p <= |line| && OneLine(line, p)
    requires Stream(line, p, text) == CellText(col, v) + more
    ensures EmptyAt(col, line, p) == false == (col.lq == "" && col.sep != "" && v == "")
  {
    hide EscapeCell, Stream, Skip, IsTokenAt;
    var e := EscapeCell(col, v);
    assert col.lq + e + col.rq + col.sep + more == col.lq + (e + col.rq + col.sep + more);
    OpenReads(Wanted(col), line, p, text, e + col.rq + col.sep + more);
  }

  lemma PlainEmpty(col: Column, line: string, p: nat, text: string, v: string, more: string)
    requires PlainColumn(Wanted(col)) && PlainValue(col, v) && p <= |line| && OneLine(line, p)
    requires Stream(line, p, text) == CellText(Wanted(col), v) + more
    ensures EmptyAt(col, line, p) <==> col.lq == "" && col.sep != "" && v == ""
  {
    hide IsTokenAt, EscapeCell;
    PlainText(Wanted(col), v);
    if col.sep != "" {
      TokenOne(line, col.sep, p);
      var s := Stream(line, p, text);
      assert col.sep == [col.sep[0]];
      assert s[0] == if v == "" then col.sep[0] else v[0];
      assert s[0] == if p < |line| then line[p] else '\n';
    }
  }

  /** Parsing a written row records the values that are kept, and stops behind the row. */
  lemma {:induction false} RowSkips(cols: seq<Column>, row: seq<string>, line: string, p: nat, text: string, after: string)
    requires Fits(Unskipped(cols), row) && p <= |line| && OneLine(line, p)
    requires Stream(line, p, text) == RowText(cols, row) + after
    ensures ParseFrom(cols, line, p, text) == Row(Recorded(cols, row), after)
    decreases |cols|
  {
    hide GetColumn, CellText, Stream, Follows, QuotedColumn, PlainColumn, PlainValue, EmptyAt;
    if cols == [] {
      NothingLeft(line, p, text, after);
    } else {
      var col, rest := cols[0], RowText(cols[1..], row[1..]);
      var more := rest + after;
      assert Unskipped(cols)[0] == Wanted(col) && Unskipped(cols)[1..] == Unskipped(cols[1..]);
      SameText(cols[1..], row[1..]);
      SameCell(col, row[0]);
      assert RowText(cols, row) + after == CellText(col, row[0]) + more;
      FollowsMore(Wanted(col), rest, after);
      assert rest[|rest| - 1] == '\n' && more[|rest| - 1] == '\n';
      SkipKeeps(col, line, p, text);
      if QuotedColumn(Wanted(col)) {
        QuotedCell(Wanted(col), line, p, text, row[0], more);
        QuotedNotEmpty(col, line, p, text, row[0], more);
        var g := GetColumn(col, line, p, text);
        RowSkips(cols[1..], row[1..], g.line, g.p, g.text, after);
      } else {
        PlainEmpty(col, line, p, text, row[0], more);
        if HasSep(col) {
          PlainCell(Wanted(col), line, p, text, row[0], more);
          var g := GetColumn(col, line, p, text);
          RowSkips(cols[1..], row[1..], g.line, g.p, g.text, after);
        } else {
          assert |cols| == 1 && rest == "\n";
          assert CellText(col, row[0]) + more == CellText(col, row[0]) + "\n" + after;
          LastCell(Wanted(col), line, p, text, row[0], after);
        }
      }
    }
  }

  lemma SameCell(col: Column, v: string)
    ensures CellText(Wanted(col), v) == CellText(col, v)
    ensures PlainValue(Wanted(col), v) == PlainValue(col, v)
    ensures Wanted(col).sep == col.sep
  {
  }

  /** Reading a line of the file and parsing it: a written row with skipped columns. */
  lemma SkippedRoundTrip(cols: seq<Column>, row: seq<string>, after: string)
    requires Fits(Unskipped(cols), row)
    ensures LineEnd(RowText(cols, row) + after) < |RowText(cols, row) + after|
    ensures ParseText(cols, RowText(cols, row) + after) == Row(Recorded(cols, row), after)
  {
    hide Stream, Fits, ParseFrom;
    SameText(cols, row);
    RowRoundTrip(Unskipped(cols), row, after);
    var text := RowText(cols, row) + after;
    var x := LineEnd(text);
    WholeStream(text, x);
    RowSkips(cols, row, text[..x], 0, text[x + 1..], after);
  }

  // ---------------------------------------------------------------- written files

  function RecordedAll(cols: seq<Column>, rows: seq<seq<string>>): seq<seq<string>> {
    if rows == [] then [] else [Recorded(cols, rows[0])] + RecordedAll(cols, rows[1..])
  }

  lemma SameRowText(cols: seq<Column>, row: seq<string>)
    ensures RowText(Unskipped(cols), row) == RowText(cols, row)
  {
    SameText(cols, row);
  }

  lemma {:induction false} SameFile(cols: seq<Column>, rows: seq<seq<string>>)
    ensures FileText(Unskipped(cols), rows) == FileText(cols, rows)
  {
    hide RowText;
    if rows != [] {
      SameRowText(cols, rows[0]);
      SameFile(cols, rows[1..]);
    }
  }

  lemma NextSkips(cols: seq<Column>, row: seq<string>, trim: bool, after: string)
    requires Fits(Unskipped(cols), row) && Stays(Unskipped(cols), row, trim)
    ensures NextRow(cols, trim, RowText(cols, row) + after) == Next(FirstLine(cols, row), Row(Recorded(cols, row), after))
  {
    hide Fits, ParseFrom, TrimSpace;
    SameRowText(cols, row);
    var rest := FirstSplit(cols, row, after);
    SkippedRoundTrip(cols, row, after);
    TrimEmpty(FirstLine(cols, row));
  }

  /** A written file of which no line is blank or changed by trimming: of every row what is kept is read, in order. */
  lemma {:induction false} FileSkips(cols: seq<Column>, rows: seq<seq<string>>, trim: bool, n: nat)
    requires forall row :: row in rows ==> Fits(Unskipped(cols), row) && Stays(Unskipped(cols), row, trim)
    ensures ReadRows(cols, trim, -1, n, FileText(cols, rows)) == Dataset(RecordedAll(cols, rows), [], "", EndOfFile)
    decreases |rows|
  {
    hide Fits, Stays, RowText, NextRow, Recorded;
    if rows == [] {
      NothingNext(cols, trim);
    } else {
      assert rows[0] in rows && forall row :: row in rows[1..] ==> row in rows;
      FileSkips(cols, rows[1..], trim, n + 1);
      NextSkips(cols, rows[0], trim, FileText(cols, rows[1..]));
    }
  }

  // ---------------------------------------------------------------- two columns

  /** A row of two values, the first of which is to be skipped. */
  lemma TwoCells(a: Column, b: Column, v: string, w: string)
    ensures RowText([a, b], [v, w]) == CellText(a, v) + CellText(b, w) + "\n"
    ensures Unskipped([a, b]) == [Wanted(a), Wanted(b)]
    ensures Recorded([a, b], [v, w]) == (if Kept(a, v) then [v] else []) + (if Kept(b, w) then [w] else [])
  {
    hide CellText, Kept;
    var cols, row := [a, b], [v, w];
    assert cols[1..] == [b] && row[1..] == [w] && |cols[1..][1..]| == 0;
    assert CellsText(cols[1..], row[1..]) == CellText(b, w) + CellsText(cols[1..][1..], row[1..][1..]);
    assert CellsText(cols[1..], row[1..]) == CellText(b, w) + "";
    assert CellsText(cols, row) == CellText(a, v) + (CellText(b, w) + "");
    assert Recorded(cols[1..], row[1..]) == (if Kept(b, w) then [w] else []) + [];
  }

  lemma TwoFit(a: Column, b: Column, v: string, w: string)
    requires QuotedColumn(a) || (PlainColumn(a) && PlainValue(a, v) && a.sep != "")
    requires QuotedColumn(b) || (PlainColumn(b) && PlainValue(b, w))
    requires a.sep != " " && b.sep != " "
    ensures Fits([a, b], [v, w])
  {
    hide QuotedColumn, PlainColumn, PlainValue, RowText;
    var cols, row := [a, b], [v, w];
    assert cols[1..] == [b] && row[1..] == [w] && |cols[1..][1..]| == 0 && |row[1..][1..]| == 0;
    assert Fits([b], [w]);
  }

  lemma LineParsed(a: Column, b: Column, v: string, w: string, line: string)
    requires Fits([Wanted(a), Wanted(b)], [v, w]) && '\n' !in line && CellText(a, v) + CellText(b, w) == line
    ensures ParseFrom([a, b], line, 0, "")
         == Row((if Kept(a, v) then [v] else []) + (if Kept(b, w) then [w] else []), "")
  {
    hide Fits, ParseFrom, CellText, Kept;
    TwoCells(a, b, v, w);
    assert line[0..] == line;
    assert Stream(line, 0, "") == line + "\n" + "";
    RowSkips([a, b], [v, w], line, 0, "", "");
  }

  const MARK := "\'"

  lemma QuotedLetter(col: Column, c: char)
    requires col.lq == col.rq == MARK && |col.sep| <= 1 && c != '\'' && c != '\\'
    ensures CellText(col, [c]) == MARK + [c] + MARK + col.sep
  {
    hide Marked;
    EscapeOne(col, [c]);
    MarkedNone([c], '\\', "\\", "");
    MarkedNone([c], '\'', "\\", "");
  }

  /** Of two quoted columns the first is skipped: the line 'a','b' gives the row of "b" alone. */
  lemma SecondOnly()
    ensures ParseFrom([Column(MARK, MARK, ",", true), Column(MARK, MARK, "", false)], "\'a\',\'b\'", 0, "") == Row(["b"], "")
  {
    hide ParseFrom, CellText, Fits;
    var a, b := Column(MARK, MARK, ",", true), Column(MARK, MARK, "", false);
    QuotedLetter(a, 'a');
    QuotedLetter(b, 'b');
    TwoFit(Wanted(a), Wanted(b), "a", "b");
    assert MARK + "a" + MARK + "," + (MARK + "b" + MARK + "") == "\'a\',\'b\'";
    LineParsed(a, b, "a", "b", "\'a\',\'b\'");
    assert [] + ["b"] == ["b"];
  }

  /** Of two plain columns the first is skipped: "a,b" gives "b" alone, but ",b" gives an empty value, too. */
  lemma EmptyRecorded()
    ensures ParseFrom([Column("", "", ",", true), Column("", "", "", false)], "a,b", 0, "") == Row(["b"], "")
    ensures ParseFrom([Column("", "", ",", true), Column("", "", "", false)], ",b", 0, "") == Row(["", "b"], "")
  {
    PlainLine("a", "a,b");
    PlainLine("", ",b");
    assert [] + ["b"] == ["b"] && [""] + ["b"] == ["", "b"];
  }

  lemma PlainLine(v: string, line: string)
    requires (v == "a" && line == "a,b") || (v == "" && line == ",b")
    ensures ParseFrom([Column("", "", ",", true), Column("", "", "", false)], line, 0, "")
         == Row((if v == "" then [v] else []) + ["b"], "")
  {
    hide ParseFrom, CellText, Fits;
    var a, b := Column("", "", ",", true), Column("", "", "", false);
    PlainText(Wanted(a), v);
    PlainText(b, "b");
    SameCell(a, v);
    TwoFit(Wanted(a), b, v, "b");
    assert v + "," + ("b" + "") == line;
    assert Wanted(b) == b;
    LineParsed(a, b, v, "b", line);
  }
}
