/**
 The row writer and the row parser of lib/dsv as loops over columns, with a reader that hands out one line at a time.
 */
module DsvObjects {
  import opened Dsv
  import opened DsvRead
  import opened Tokens

  /** WriteRow, for string columns in the order of the row; columns behind the end of the row are left out. */
  method WriteRow(cols: seq<Column>, row: seq<string>) returns (v: string)
    ensures v == RowText(cols, row)
  {
    hide CellText, CellsText;
    v := "";
    assert cols[0..] == cols && row[0..] == row;
    for i := 0 to |cols|
      invariant i <= |row| ==> v + CellsText(cols[i..], row[i..]) == CellsText(cols, row)
      invariant i > |row| ==> v == CellsText(cols, row)
    {
      if i >= |row| {
        NoCells(cols[i..], v);
        assert i == |row| ==> row[i..] == [];
        continue;
      }
      CellsStep(cols, row, i, v);
      v := WriteCell(cols[i], row[i], v);
    }
    CellsEnd(cols, row, v);
    v := v + "\n";
  }

  lemma CellsStep(cols: seq<Column>, row: seq<string>, i: nat, v: string)
    requires i < |cols| && i < |row|
    ensures v + CellsText(cols[i..], row[i..]) == v + CellText(cols[i], row[i]) + CellsText(cols[i + 1..], row[i + 1..])
    ensures i + 1 == |row| ==> CellsText(cols[i + 1..], row[i + 1..]) == ""
  {
    assert cols[i..][1..] == cols[i + 1..] && row[i..][1..] == row[i + 1..];
    var rest := CellsText(cols[i + 1..], row[i + 1..]);
    assert v + (CellText(cols[i], row[i]) + rest) == v + CellText(cols[i], row[i]) + rest;
  }

  lemma NoCells(cols: seq<Column>, v: string)
    ensures v + CellsText(cols, []) == v
  {
  }

  lemma CellsEnd(cols: seq<Column>, row: seq<string>, v: string)
    ensures |cols| <= |row| ==> v + CellsText(cols[|cols|..], row[|cols|..]) == v
  {
  }

  /** One column of WriteRow, put behind what was written before. */
  method WriteCell(col: Column, field: string, before: string) returns (v: string)
    ensures v == before + CellText(col, field)
  {
    hide EscapeCell;
    v := before;
    if |col.lq| > 0 {
      v := v + col.lq;
    }
    var recV := EscapeField(col, field);
    v := v + recV;
    if |col.rq| > 0 {
      v := v + col.rq;
    }
    if |col.sep| > 0 {
      v := v + col.sep;
    }
    assert v == before + (col.lq + recV + col.rq + col.sep);
  }

  method EscapeField(col: Column, field: string) returns (recV: string)
    ensures recV == EscapeCell(col, field)
  {
    var status;
    recV, status := EncloseToken(field, "\\", "\\", "");
    if |col.rq| > 0 {
      recV, status := EncloseToken(recV, col.rq, "\\", "");
    } else if |col.sep| > 0 {
      recV, status := EncloseToken(recV, col.sep, "\\", "");
    }
  }

  /** parsingSkipSpace */
  method ParsingSkipSpace(line: string, startAt: nat) returns (p: nat)
    ensures p == SkipSpace(line, startAt)
  {
    p := startAt;
    while p < |line|
      invariant SkipSpace(line, p) == SkipSpace(line, startAt)
    {
      if line[p] == ' ' || line[p] == '\t' || line[p] == '\n' || line[p] == '\r' {
        p := p + 1;
        continue;
      }
      break;
    }
  }

  /** A file that is read line by line, the options of the reader, the rows read and the lines rejected. */
  class Reader {
    const trimSpace: bool
    const maxRows: int
    var rest: string
    var dataset: seq<seq<string>>
    var rejected: seq<string>

    constructor (text: string, trimSpace: bool, maxRows: int)
      ensures rest == text && this.trimSpace == trimSpace && this.maxRows == maxRows && dataset == [] && rejected == []
    {
      rest, dataset, rejected := text, [], [];
      this.trimSpace, this.maxRows := trimSpace, maxRows;
    }

    /** The next line without its end, or what is left of the file and an error. */
    method ReadLine() returns (line: string, ok: bool)
      modifies `rest
      ensures var text := old(rest);
        var x := LineEnd(text);
        ok == (x < |text|) && line == text[..x] && rest == if ok then text[x + 1..] else ""
    {
      var x := 0;
      while x < |rest| && rest[x] != '\n'
        invariant x <= |rest| && forall i :: 0 <= i < x ==> rest[i] != '\n'
      {
        x := x + 1;
      }
      LineEndIs(rest, x);
      line, ok := rest[..x], x < |rest|;
      rest := if ok then rest[x + 1..] else "";
    }

    /** FetchNextLine: the next line is put behind the last one. */
    method FetchNextLine(lastline: string) returns (line: string, ok: bool)
      modifies `rest
      ensures var text := old(rest);
        var x := LineEnd(text);
        ok == (x < |text|) && line == lastline + "\n" + text[..x] && rest == if ok then text[x + 1..] else ""
    {
      line, ok := ReadLine();
      var joined := lastline + "\n";
      line := joined + line;
    }

    method ParsingRightQuote(rq: string, line0: string, startAt: nat)
      returns (v: string, line: string, p: nat, found: bool)
      requires rq != ""
      modifies `rest
      ensures Quoted(v, line, p, rest, found) == RightQuote(rq, line0, startAt, old(rest))
    {
      hide Cut, RightQuote;
      v, line, p, found := "", line0, startAt, false;
      ghost var q := RightQuote(rq, line0, startAt, rest);
      assert "" + q.v == q.v;
      while true
        invariant !found && q == RightQuote(rq, line, p, rest).(v := v + RightQuote(rq, line, p, rest).v)
        decreases |rest|
      {
        RightQuoteCases(rq, line, p, rest, v);
        CutRange(line, rq, p, true, false);
        var content, end;
        content, end, found := CutUntilToken(line, rq, p, true);
        p := end;
        v := v + content;
        if found {
          return;
        }
        var ok;
        line, ok := FetchNextLine(line);
        if !ok {
          return;
        }
      }
    }

    /** ParseLine */
    method ParseLine(inputMd: seq<Column>, line0: string) returns (r: Parsed)
      modifies `rest
      ensures r == ParseFrom(inputMd, line0, 0, old(rest))
      ensures rest == r.text
    {
      hide GetColumn;
      var p, line := 0, line0;
      var row: seq<string> := [];
      ghost var all := ParseFrom(inputMd, line0, 0, rest);
      NoneBefore(all);
      assert inputMd[0..] == inputMd;
      for i := 0 to |inputMd|
        invariant Before(row, ParseFrom(inputMd[i..], line, p, rest)) == all
      {
        ParseCases(inputMd[i..], line, p, rest, row);
        assert inputMd[i..][1..] == inputMd[i + 1..];
        var g := ParseColumn(inputMd[i], line, p);
        if g.Failed? {
          return Bad(g.fault, rest);
        }
        line, p := g.line, g.p;
        if g.kept {
          row := row + [g.v];
        }
      }
      return Row(row, rest);
    }

    /** The body of the loop of ParseLine. */
    method ParseColumn(md: Column, line: string, startAt: nat) returns (g: Got)
      modifies `rest
      ensures g == GetColumn(md, line, startAt, old(rest))
      ensures rest == g.text
    {
      hide Cut, Skip, RightQuote, GetQuoted, GetPlain;
      var p := startAt;
      if |md.sep| > 0 && md.sep != md.lq {
        var matched := TokenAt(line, md.sep, p);
        if matched {
          p := p + |md.sep|;
          return Got("", true, line, p, rest);
        }
      }
      if |md.lq| > 0 {
        var found;
        p, found := SkipAfterToken(line, md.lq, p, false);
        if !found {
          return Failed(MissLeftQuote, rest);
        }
      }
      if |md.rq| > 0 {
        g := ParseQuoted(md, line, p);
      } else {
        g := ParsePlain(md, line, p);
      }
    }

    method ParseQuoted(md: Column, line0: string, startAt: nat) returns (g: Got)
      requires md.rq != ""
      modifies `rest
      ensures g == GetQuoted(md, line0, startAt, old(rest))
      ensures rest == g.text
    {
      hide RightQuote, Skip;
      var v, line, p, found := ParsingRightQuote(md.rq, line0, startAt);
      if !found {
        return Failed(MissRightQuote, rest);
      }
      if |md.sep| > 0 {
        p, found := SkipAfterToken(line, md.sep, p, false);
        if !found {
          return Failed(MissSeparator, rest);
        }
        if md.sep == " " {
          p := ParsingSkipSpace(line, p);
        }
      }
      return Got(v, !md.skip, line, p, rest);
    }

    method ParsePlain(md: Column, line: string, startAt: nat) returns (g: Got)
      ensures g == GetPlain(md, line, startAt, rest)
      ensures rest == g.text
    {
      hide Cut;
      var p := startAt;
      if |md.sep| > 0 {
        if md.sep == " " {
          p := ParsingSkipSpace(line, p);
        }
        CutRange(line, md.sep, p, false, false);
        var v, end, found := CutUntilToken(line, md.sep, p, false);
        if !found {
          return Failed(MissSeparator, rest);
        }
        p := end;
        if md.sep == " " {
          p := ParsingSkipSpace(line, p);
        }
        return Got(v, !md.skip, line, p, rest);
      }
      if p > |line| {
        return Failed(OutOfRange, rest);
      }
      return Got(line[p..], !md.skip, line, p + |line|, rest);
    }

    /** ReadRow */
    method ReadRow(inputMd: seq<Column>) returns (r: Next)
      modifies `rest
      ensures r == NextRow(inputMd, trimSpace, old(rest))
      ensures rest == if r.Ended? then "" else r.parsed.text
    {
      hide ParseFrom, TrimSpace;
      var line, ok;
      while true
        invariant NextRow(inputMd, trimSpace, rest) == NextRow(inputMd, trimSpace, old(rest))
        decreases |rest|
      {
        line, ok := ReadLine();
        if !ok {
          return Ended;
        }
        var lineTrimmed := TrimSpace(line);
        if |lineTrimmed| > 0 {
          break;
        }
      }
      if trimSpace {
        line := TrimSpace(line);
      }
      var row := ParseLine(inputMd, line);
      return Next(line, row);
    }

    /** Read: rows go into the dataset, which is emptied before, and lines that do not parse are rejected. */
    method Read(inputMd: seq<Column>) returns (n: nat, end: Ending)
      modifies this
      ensures var d := ReadRows(inputMd, trimSpace, maxRows, 0, old(rest));
        && n == |d.rows| && dataset == d.rows && rejected == old(rejected) + d.rejected && rest == d.text && end == d.ending
    {
      hide NextRow;
      n, dataset := 0, [];
      ghost var all := ReadRows(inputMd, trimSpace, maxRows, 0, rest);
      NothingRead(all, rejected);
      while true
        invariant n == |dataset|
        invariant ReadBefore(dataset, rejected, ReadRows(inputMd, trimSpace, maxRows, n, rest))
               == ReadBefore([], old(rejected), all)
        decreases |rest|
      {
        ReadRowsCases(inputMd, trimSpace, maxRows, n, rest, dataset, rejected);
        var r := ReadRow(inputMd);
        if r.Ended? {
          return n, EndOfFile;
        }
        if r.parsed.Row? {
          dataset := dataset + [r.parsed.values];
          n := n + 1;
          if maxRows > 0 && n >= maxRows {
            return n, MaxRows;
          }
          continue;
        }
        if r.parsed.fault == OutOfRange {
          return n, Crash;
        }
        rejected := rejected + [r.line];
      }
    }
  }

  /** Rows and lines that were read before the others. */
  function ReadBefore(rows: seq<seq<string>>, rejected: seq<string>, d: Dataset): Dataset {
    d.(rows := rows + d.rows, rejected := rejected + d.rejected)
  }

  lemma NothingRead(d: Dataset, rejected: seq<string>)
    ensures ReadBefore([], rejected, d) == d.(rejected := rejected + d.rejected)
  {
    assert [] + d.rows == d.rows;
  }

  /** One turn of Read, with what was read before. */
  lemma ReadRowsCases(cols: seq<Column>, trim: bool, max: int, n: nat, text: string, rows: seq<seq<string>>,
                      rejected: seq<string>)
    ensures var r := NextRow(cols, trim, text);
      ReadBefore(rows, rejected, ReadRows(cols, trim, max, n, text)) ==
        if r.Ended? then Dataset(rows, rejected, "", EndOfFile)
        else if r.parsed.Row? then
          if max > 0 && n + 1 >= max then Dataset(rows + [r.parsed.values], rejected, r.parsed.text, MaxRows)
          else ReadBefore(rows + [r.parsed.values], rejected, ReadRows(cols, trim, max, n + 1, r.parsed.text))
        else if r.parsed.fault == OutOfRange then Dataset(rows, rejected, r.parsed.text, Crash)
        else ReadBefore(rows, rejected + [r.line], ReadRows(cols, trim, max, n, r.parsed.text))
  {
    hide NextRow;
    var r := NextRow(cols, trim, text);
    if r.Next? {
      var d, e := ReadRows(cols, trim, max, n + 1, r.parsed.text), ReadRows(cols, trim, max, n, r.parsed.text);
      if r.parsed.Row? {
        assert rows + ([r.parsed.values] + d.rows) == rows + [r.parsed.values] + d.rows;
      }
      assert rejected + ([r.line] + e.rejected) == rejected + [r.line] + e.rejected;
    }
    assert rows + [] == rows && rejected + [] == rejected;
  }

  /** One turn of parsingRightQuote, with what was cut before. */
  lemma RightQuoteCases(rq: string, line: string, p: nat, text: string, v: string)
    requires rq != ""
    ensures Cut(line, rq, p, true, false).p >= p
    ensures var c, q, x := Cut(line, rq, p, true, false), RightQuote(rq, line, p, text), LineEnd(text);
      q.(v := v + q.v) ==
        if c.found then Quoted(v + c.v, line, c.p, text, true)
        else if x == |text| then Quoted(v + c.v, line + "\n" + text, c.p, "", false)
        else
          var r := RightQuote(rq, line + "\n" + text[..x], c.p, text[x + 1..]);
          r.(v := v + c.v + r.v)
  {
    hide Cut, RightQuote;
    var c, x := Cut(line, rq, p, true, false), LineEnd(text);
    RightQuoteUnfolds(rq, line, p, text);
    if !c.found && x < |text| {
      Assoc(v, c.v, RightQuote(rq, line + "\n" + text[..x], c.p, text[x + 1..]).v);
    }
  }

  lemma Assoc(a: string, b: string, c: string)
    ensures a + (b + c) == a + b + c
  {
  }

  /** Values that were parsed before the others. */
  function Before(row: seq<string>, r: Parsed): Parsed {
    if r.Row? then r.(values := row + r.values) else r
  }

  lemma NoneBefore(r: Parsed)
    ensures Before([], r) == r
  {
    if r.Row? {
      assert [] + r.values == r.values;
    }
  }

  lemma ParseCases(cols: seq<Column>, line: string, p: nat, text: string, row: seq<string>)
    ensures cols == [] ==> Before(row, ParseFrom(cols, line, p, text)) == Row(row, text)
    ensures cols != [] ==>
      var g := GetColumn(cols[0], line, p, text);
      Before(row, ParseFrom(cols, line, p, text)) ==
        if g.Failed? then Bad(g.fault, g.text)
        else Before(if g.kept then row + [g.v] else row, ParseFrom(cols[1..], g.line, g.p, g.text))
  {
    hide GetColumn;
    if cols == [] {
      assert row + [] == row;
    } else {
      var g := GetColumn(cols[0], line, p, text);
      if g.Got? {
        var r := ParseFrom(cols[1..], g.line, g.p, g.text);
        if r.Row? {
          assert row + ([g.v] + r.values) == row + [g.v] + r.values;
        }
      }
    }
  }
}
