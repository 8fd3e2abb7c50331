/**
 Tokens in byte strings (lib/bytes/bytes.go): finding, enclosing, skipping and cutting, as functions and as the loops
 that compute them.
 */
module Tokens {
  predicate IsTokenAt(line: string, token: string, p: nat) {
    token != "" && p + |token| <= |line| && line[p..p + |token|] == token
  }

  /** The loop of IsTokenAt; a negative position counts as the start. */
  method TokenAt(line: string, token: string, startAt: int) returns (found: bool)
    ensures found == IsTokenAt(line, token, if startAt < 0 then 0 else startAt)
  {
    if |token| == 0 {
      return false;
    }
    var p := startAt;
    if p < 0 {
      p := 0;
    }
    if p + |token| > |line| {
      return false;
    }
    ghost var start := p;
    for x := 0 to |token|
      invariant p == start + x
      invariant forall i :: 0 <= i < x ==> line[start + i] == token[i]
    {
      if line[p] != token[x] {
        assert line[start..start + |token|][x] == line[p];
        return false;
      }
      p := p + 1;
    }
    assert line[start..start + |token|] == token;
    return true;
  }

  // ---------------------------------------------------------------- finding

  /** The scan of TokenFind from x on, with y characters matched since `at`. */
  function Scan(line: string, token: string, x: nat, y: nat, at: int): int
    requires y < |token|
    decreases |line| - x
  {
    if x >= |line| then -1
    else if line[x] == token[y] then
      var here := if y == 0 then x else at;
      if y + 1 == |token| then here else Scan(line, token, x + 1, y + 1, here)
    else if at != -1 then Scan(line, token, x + 1, 0, -1)
    else Scan(line, token, x + 1, y, at)
  }

  function Find(line: string, token: string, startAt: int): int {
    if token == "" then -1 else Scan(line, token, if startAt < 0 then 0 else startAt, 0, -1)
  }

  method TokenFind(line: string, token: string, startAt: int) returns (at: int)
    ensures at == Find(line, token, startAt)
  {
    if |token| == 0 {
      return -1;
    }
    var start := startAt;
    if start < 0 {
      start := 0;
    }
    var y := 0;
    at := -1;
    var x := start;
    while x < |line|
      invariant y < |token| && x >= start >= 0
      invariant Scan(line, token, x, y, at) == Find(line, token, startAt)
    {
      if line[x] == token[y] {
        if y == 0 {
          at := x;
        }
        y := y + 1;
        if y == |token| {
          return at;
        }
      } else if at != -1 {
        y := 0;
        at := -1;
      }
      x := x + 1;
    }
    at := -1;
  }

  ghost predicate AllSame(token: string) {
    forall i :: 0 <= i < |token| ==> token[i] == token[0]
  }

  /** The place is that of the first occurrence from x on, or there is none. */
  ghost predicate First(line: string, token: string, x: nat, at: int) {
    if at == -1 then forall i :: i >= x ==> !IsTokenAt(line, token, i)
    else at >= x && IsTokenAt(line, token, at) && forall i :: x <= i < at ==> !IsTokenAt(line, token, i)
  }

  /** No occurrence begins in a run that a different character ends too early. */
  lemma RunEnds(line: string, token: string, start: nat, x: nat)
    requires token != "" && AllSame(token) && start <= x < |line| && line[x] != token[0] && x < start + |token|
    ensures forall i :: start <= i <= x ==> !IsTokenAt(line, token, i)
  {
    forall i | start <= i <= x ensures !IsTokenAt(line, token, i) {
      if i + |token| <= |line| {
        assert line[i..i + |token|][x - i] == line[x];
      }
    }
  }

  lemma {:induction false} ScanSame(line: string, token: string, x: nat, y: nat, at: int, start: nat)
    requires token != "" && AllSame(token) && y < |token| && start + y == x
    requires if y == 0 then at == -1 else at == start
    requires x <= |line| ==> line[start..x] == token[..y]
    ensures First(line, token, start, Scan(line, token, x, y, at))
    decreases |line| - x
  {
    if x >= |line| {
      assert forall i :: i >= start ==> !IsTokenAt(line, token, i);
    } else if line[x] == token[y] {
      assert line[start..x + 1] == token[..y + 1];
      if y + 1 == |token| {
        assert token[..y + 1] == token;
      } else {
        ScanSame(line, token, x + 1, y + 1, start, start);
      }
    } else {
      RunEnds(line, token, start, x);
      ScanSame(line, token, x + 1, 0, -1, x + 1);
    }
  }

  /** Too few characters are left for a match that starts anew. */
  lemma {:induction false} ScanShort(line: string, token: string, x: nat, y: nat, at: int)
    requires y < |token| && |line| - x < |token| - y
    ensures Scan(line, token, x, y, at) == -1
    decreases |line| - x
  {
    if x < |line| {
      if line[x] == token[y] {
        ScanShort(line, token, x + 1, y + 1, if y == 0 then x else at);
      } else if at != -1 {
        ScanShort(line, token, x + 1, 0, -1);
      } else {
        ScanShort(line, token, x + 1, y, at);
      }
    }
  }

  lemma {:induction false} ScanRun(line: string, token: string, x: nat, m: nat)
    requires x <= m < |token| && m < |line|
    requires forall i :: 0 <= i < m ==> line[i] == token[i]
    requires x > 0
    ensures Scan(line, token, x, x, 0) == Scan(line, token, m, m, 0)
    decreases m - x
  {
    if x < m {
      ScanRun(line, token, x + 1, m);
    }
  }

  /** The scan does not go back after a failed match, so one more first character hides the token. */
  lemma Missed(token: string, m: nat)
    requires 0 < m < |token| && token[m] != token[0] && forall i :: 0 <= i < m ==> token[i] == token[0]
    ensures var line := [token[0]] + token;
      Find(line, token, 0) == -1 && IsTokenAt(line, token, 1)
  {
    var line := [token[0]] + token;
    assert line[1..1 + |token|] == token;
    assert line[0] == token[0];
    assert Scan(line, token, 0, 0, -1) == Scan(line, token, 1, 1, 0);
    assert forall i :: 0 <= i < m ==> line[i] == token[i];
    ScanRun(line, token, 1, m);
    assert line[m] == token[m - 1] != token[m];
    assert Scan(line, token, m, m, 0) == Scan(line, token, m + 1, 0, -1);
    assert line[m + 1] == token[m] != token[0];
    assert Scan(line, token, m + 1, 0, -1) == Scan(line, token, m + 2, 0, -1);
    ScanShort(line, token, m + 2, 0, -1);
  }

  /** TokenFind finds the first occurrence in every line exactly when all characters of the token are the same. */
  lemma FindExact(token: string)
    requires token != ""
    ensures (forall line: string, x: nat :: First(line, token, x, Find(line, token, x))) <==> AllSame(token)
  {
    if AllSame(token) {
      forall line: string, x: nat ensures First(line, token, x, Find(line, token, x)) {
        FindSame(line, token, x);
      }
    } else {
      var m := FirstOther(token);
      Missed(token, m);
      var line := [token[0]] + token;
      assert !First(line, token, 0, Find(line, token, 0));
    }
  }

  lemma FindSame(line: string, token: string, x: nat)
    requires token != "" && AllSame(token)
    ensures First(line, token, x, Find(line, token, x))
  {
    ScanSame(line, token, x, 0, -1, x);
  }

  lemma FirstOther(token: string) returns (m: nat)
    requires token != "" && !AllSame(token)
    ensures 0 < m < |token| && token[m] != token[0] && forall i :: 0 <= i < m ==> token[i] == token[0]
  {
    m := 1;
    while token[m] == token[0]
      invariant 0 < m < |token| && forall i :: 0 <= i < m ==> token[i] == token[0]
      decreases |token| - m
    {
      m := m + 1;
    }
  }

  // ---------------------------------------------------------------- enclosing

  /** The token after every mark before it, for a token of one character. */
  function Marked(line: string, c: char, left: string, right: string): string {
    if line == "" then ""
    else (if line[0] == c then left + [c] + right else [line[0]]) + Marked(line[1..], c, left, right)
  }

  /** What the scan finds lies in the line, from where it began or from the start of the match it is in. */
  lemma {:induction false} ScanRange(line: string, token: string, x: nat, y: nat, at: int)
    requires y < |token| && (if y == 0 then at == -1 else at >= 0 && at + y == x)
    ensures var r := Scan(line, token, x, y, at);
      r == -1 || (r >= (if y == 0 then x else at) && r + |token| <= |line|)
    decreases |line| - x
  {
    if x < |line| {
      if line[x] == token[y] {
        if y + 1 < |token| {
          ScanRange(line, token, x + 1, y + 1, if y == 0 then x else at);
        }
      } else {
        ScanRange(line, token, x + 1, 0, -1);
      }
    }
  }

  lemma FindRange(line: string, token: string, startAt: nat)
    ensures var r := Find(line, token, startAt);
      r == -1 || (token != "" && startAt <= r && r + |token| <= |line|)
  {
    if token != "" {
      ScanRange(line, token, startAt, 0, -1);
    }
  }

  /** The line from startAt on, with every token that TokenFind comes to between the two others. */
  function Enclosed(line: string, token: string, startAt: nat, left: string, right: string): string
    requires startAt <= |line|
    decreases |line| - startAt
  {
    var at := Find(line, token, startAt);
    FindRange(line, token, startAt);
    if at < 0 then line[startAt..]
    else line[startAt..at] + left + token + right + Enclosed(line, token, at + |token|, left, right)
  }

  method EncloseToken(line: string, token: string, left: string, right: string) returns (newline: string, status: bool)
    ensures newline == Enclosed(line, token, 0, left, right)
    ensures status == (Find(line, token, 0) >= 0)
  {
    hide Find, Enclosed;
    newline := "";
    var startat := 0;
    assert "" + Enclosed(line, token, 0, left, right) == Enclosed(line, token, 0, left, right);
    while true
      invariant startat <= |line|
      invariant newline + Enclosed(line, token, startat, left, right) == Enclosed(line, token, 0, left, right)
      invariant startat > 0 ==> Find(line, token, 0) >= 0
      decreases |line| - startat
    {
      var foundat := TokenFind(line, token, startat);
      EnclosedStep(line, token, startat, left, right, newline);
      if foundat < 0 {
        newline := newline + line[startat..];
        break;
      }
      newline := newline + line[startat..foundat];
      newline := newline + left;
      newline := newline + token;
      newline := newline + right;
      startat := foundat + |token|;
    }
    status := startat > 0;
  }

  /** One turn of the loop of EncloseToken, with what was written before. */
  lemma EnclosedStep(line: string, token: string, startAt: nat, left: string, right: string, before: string)
    requires startAt <= |line|
    ensures var at, rest := Find(line, token, startAt), Enclosed(line, token, startAt, left, right);
      && (at == -1 || (token != "" && startAt <= at <= |line| - |token|))
      && before + rest ==
           if at < 0 then before + line[startAt..]
           else before + line[startAt..at] + left + token + right + Enclosed(line, token, at + |token|, left, right)
  {
    hide Find;
    FindRange(line, token, startAt);
    var at := Find(line, token, startAt);
    if at >= 0 {
      var rest := Enclosed(line, token, at + |token|, left, right);
      assert before + (line[startAt..at] + left + token + right + rest)
          == before + line[startAt..at] + left + token + right + rest;
    }
  }

  /** For a token of one character, every occurrence is enclosed, and the status tells whether there is one. */
  lemma {:induction false} EnclosedOne(line: string, token: string, startAt: nat, left: string, right: string)
    requires |token| == 1 && startAt <= |line|
    ensures Enclosed(line, token, startAt, left, right) == Marked(line[startAt..], token[0], left, right)
    ensures Find(line, token, startAt) >= 0 <==> token[0] in line[startAt..]
    decreases |line| - startAt
  {
    hide Find, Marked;
    FindRange(line, token, startAt);
    FindOne(line, token, startAt);
    var at := Find(line, token, startAt);
    if at < 0 {
      MarkedNone(line[startAt..], token[0], left, right);
    } else {
      assert token == [token[0]] && line[startAt..][at - startAt] == token[0];
      MarkedFirst(line, token[0], left, right, startAt, at);
      EnclosedOne(line, token, at + 1, left, right);
    }
  }

  lemma FindOne(line: string, token: string, x: nat)
    requires |token| == 1
    ensures var at := Find(line, token, x);
      if at == -1 then forall i :: x <= i < |line| ==> line[i] != token[0]
      else x <= at < |line| && line[at] == token[0] && forall i :: x <= i < at ==> line[i] != token[0]
  {
    FindSame(line, token, x);
    assert forall i :: 0 <= i < |line| ==> (line[i..i + 1] == token <==> line[i] == token[0]);
    assert forall i :: 0 <= i < |line| ==> (IsTokenAt(line, token, i) <==> line[i] == token[0]);
  }

  lemma {:induction false} MarkedNone(line: string, c: char, left: string, right: string)
    requires forall i :: 0 <= i < |line| ==> line[i] != c
    ensures Marked(line, c, left, right) == line
  {
    if line != "" {
      MarkedNone(line[1..], c, left, right);
    }
  }

  lemma {:induction false} MarkedConcat(a: string, b: string, c: char, left: string, right: string)
    ensures Marked(a + b, c, left, right) == Marked(a, c, left, right) + Marked(b, c, left, right)
  {
    if a == "" {
      assert a + b == b;
    } else {
      assert (a + b)[0] == a[0] && (a + b)[1..] == a[1..] + b;
      MarkedConcat(a[1..], b, c, left, right);
    }
  }

  lemma MarkedFirst(line: string, c: char, left: string, right: string, s: nat, f: nat)
    requires s <= f < |line| && line[f] == c && forall i :: s <= i < f ==> line[i] != c
    ensures Marked(line[s..], c, left, right) == line[s..f] + left + [c] + right + Marked(line[f + 1..], c, left, right)
  {
    assert line[s..] == line[s..f] + line[f..];
    MarkedConcat(line[s..f], line[f..], c, left, right);
    MarkedNone(line[s..f], c, left, right);
    assert line[f..][1..] == line[f + 1..];
  }

  // ---------------------------------------------------------------- skipping and cutting

  /** The loop of SkipAfterToken from p on. */
  function Skip(line: string, token: string, p: nat, checkEsc: bool, escaped: bool): (nat, bool)
    requires token != ""
    decreases |line| - p
  {
    if p >= |line| then (p, false)
    else if checkEsc && line[p] == '\\' then Skip(line, token, p + 1, checkEsc, true)
    else if !IsTokenAt(line, token, p) then Skip(line, token, p + 1, checkEsc, false)
    else if checkEsc && escaped then Skip(line, token, p + 1, checkEsc, false)
    else (p + |token|, true)
  }

  method SkipAfterToken(line: string, token: string, startAt: int, checkEsc: bool) returns (p: nat, found: bool)
    requires token != ""
    ensures (p, found) == Skip(line, token, if startAt < 0 then 0 else startAt, checkEsc, false)
  {
    var escaped := false;
    var start := startAt;
    if start < 0 {
      start := 0;
    }
    p := start;
    while p < |line|
      invariant Skip(line, token, p, checkEsc, escaped) == Skip(line, token, start, checkEsc, false)
      invariant !checkEsc ==> !escaped
      decreases |line| - p
    {
      if checkEsc && line[p] == '\\' {
        escaped := true;
        p := p + 1;
        continue;
      }
      var at := TokenAt(line, token, p);
      if !at {
        escaped := false;
        p := p + 1;
        continue;
      }
      if checkEsc && escaped {
        escaped := false;
        p := p + 1;
        continue;
      }
      return p + |token|, true;
    }
    return p, false;
  }

  /** What is cut, where it ends, and whether the token was found. */
  datatype Piece = Piece(v: string, p: int, found: bool)

  function After(v: string, c: Piece): Piece {
    c.(v := v + c.v)
  }

  /** The loop of CutUntilToken from p on: a backslash is kept back until the next character. */
  function Cut(line: string, token: string, p: nat, checkEsc: bool, escaped: bool): Piece
    requires token != ""
    decreases |line| - p
  {
    if p >= |line| then Piece("", p, false)
    else if checkEsc && line[p] == '\\' then
      if escaped then After("\\", Cut(line, token, p + 1, checkEsc, false)) else Cut(line, token, p + 1, checkEsc, true)
    else if !IsTokenAt(line, token, p) then
      After((if escaped then "\\" else "") + [line[p]], Cut(line, token, p + 1, checkEsc, false))
    else if escaped then After(token, Cut(line, token, p + |token|, checkEsc, false))
    else Piece("", p + |token|, true)
  }

  method CutUntilToken(line: string, token: string, startAt: int, checkEsc: bool) returns (v: string, p: int, found: bool)
    ensures Piece(v, p, found) ==
      if token == "" then Piece(line, -1, false)
      else Cut(line, token, if startAt < 0 then 0 else startAt, checkEsc, false)
  {
    if |token| == 0 {
      return line, -1, false;
    }
    var start := startAt;
    if start < 0 {
      start := 0;
    }
    hide Cut, After, IsTokenAt;
    v := "";
    p := start;
    var escaped := false;
    ghost var whole := Cut(line, token, start, checkEsc, false);
    AfterEnds("", whole);
    while p < |line|
      invariant p >= start
      invariant After(v, Cut(line, token, p, checkEsc, escaped)) == whole
      decreases |line| - p
    {
      CutCases(line, token, p, checkEsc, escaped, v);
      if checkEsc && line[p] == '\\' {
        if escaped {
          v := v + "\\";
          escaped := false;
        } else {
          escaped := true;
        }
        p := p + 1;
        continue;
      }
      var at := TokenAt(line, token, p);
      if !at {
        if escaped {
          v := v + "\\";
          escaped := false;
        }
        v := v + [line[p]];
        p := p + 1;
        continue;
      }
      if escaped {
        v := v + token;
        p := p + |token|;
        escaped := false;
        continue;
      }
      AfterEnds(v, Piece("", p + |token|, true));
      return v, p + |token|, true;
    }
    AfterEnds(v, Piece("", p, false));
    CutEnd(line, token, p, checkEsc, escaped);
    return v, p, false;
  }

  /** One turn of the loop of CutUntilToken, with what was cut before. */
  lemma CutCases(line: string, token: string, p: nat, checkEsc: bool, escaped: bool, v: string)
    requires token != "" && p < |line|
    ensures After(v, Cut(line, token, p, checkEsc, escaped)) ==
      if checkEsc && line[p] == '\\' then
        if escaped then After(v + "\\", Cut(line, token, p + 1, checkEsc, false))
        else After(v, Cut(line, token, p + 1, checkEsc, true))
      else if !IsTokenAt(line, token, p) then
        After((if escaped then v + "\\" else v) + [line[p]], Cut(line, token, p + 1, checkEsc, false))
      else if escaped then After(v + token, Cut(line, token, p + |token|, checkEsc, false))
      else After(v, Piece("", p + |token|, true))
  {
    hide IsTokenAt;
    var c := Cut(line, token, p + 1, checkEsc, false);
    AfterAfter(v, "\\", c);
    AfterAfter(v, token, Cut(line, token, p + |token|, checkEsc, false));
    AfterAfter(v, (if escaped then "\\" else "") + [line[p]], c);
    assert v + ("\\" + [line[p]]) == v + "\\" + [line[p]] && "" + [line[p]] == [line[p]];
  }

  lemma CutEnd(line: string, token: string, p: nat, checkEsc: bool, escaped: bool)
    requires token != "" && p >= |line|
    ensures Cut(line, token, p, checkEsc, escaped) == Piece("", p, false)
  {
  }

  lemma AfterEnds(v: string, c: Piece)
    ensures After("", c) == c
    ensures c.v == "" ==> After(v, c) == c.(v := v)
  {
    assert "" + c.v == c.v;
  }

  lemma AfterAfter(a: string, b: string, c: Piece)
    ensures After(a, After(b, c)) == After(a + b, c)
  {
    assert a + (b + c.v) == a + b + c.v;
  }

  // ---------------------------------------------------------------- tokens of any length

  /** Without escapes, what is cut is what stands before the first occurrence, and the rest of the line without one. */
  lemma {:induction false} CutFirst(line: string, token: string, p: nat)
    requires token != "" && p <= |line|
    ensures var c := Cut(line, token, p, false, false);
      && (c.found <==> exists i :: i >= p && IsTokenAt(line, token, i))
      && (if c.found then
            var i := c.p - |token|;
            p <= i <= |line| && First(line, token, p, i) && c.v == line[p..i]
          else c.p == |line| && c.v == line[p..])
    decreases |line| - p
  {
    hide IsTokenAt;
    if p == |line| {
      TooLate(line, token, p);
    } else if IsTokenAt(line, token, p) {
      assert line[p..p] == "";
    } else {
      CutFirst(line, token, p + 1);
      var c := Cut(line, token, p + 1, false, false);
      assert c.found ==> line[p..c.p - |token|] == [line[p]] + line[p + 1..c.p - |token|];
      assert "" + [line[p]] == [line[p]];
    }
  }

  lemma TooLate(line: string, token: string, p: nat)
    requires p >= |line|
    ensures forall i :: i >= p ==> !IsTokenAt(line, token, i)
  {
  }

  /** And skipping stops behind the first occurrence, or at the end of the line. */
  lemma {:induction false} SkipFirst(line: string, token: string, p: nat)
    requires token != "" && p <= |line|
    ensures var (x, found) := Skip(line, token, p, false, false);
      && (found <==> exists i :: i >= p && IsTokenAt(line, token, i))
      && (if found then First(line, token, p, x - |token|) else x == |line|)
    decreases |line| - p
  {
    hide IsTokenAt;
    if p == |line| {
      TooLate(line, token, p);
    } else if !IsTokenAt(line, token, p) {
      SkipFirst(line, token, p + 1);
    }
  }

  lemma TwoHere(line: string, p: nat)
    ensures IsTokenAt(line, "##", p) <==> p + 1 < |line| && line[p] == '#' && line[p + 1] == '#'
  {
    if p + 1 < |line| {
      assert line[p..p + 2] == [line[p], line[p + 1]];
    }
  }

  /** A token of two characters, escaped once and then not: the first one is cut with the value, without its backslash. */
  lemma CutLong()
    ensures Cut("a\\##b##c", "##", 0, true, false) == Piece("a##b", 7, true)
    ensures Skip("a\\##b##c", "##", 0, true, false) == (7, true)
  {
    var line := "a\\##b##c";
    hide IsTokenAt;
    TwoHere(line, 0);
    TwoHere(line, 2);
    TwoHere(line, 3);
    TwoHere(line, 4);
    TwoHere(line, 5);
    assert Cut(line, "##", 4, true, false) == Piece("b", 7, true);
    assert Cut(line, "##", 2, true, true) == Piece("##b", 7, true);
    assert Skip(line, "##", 3, true, false) == (7, true);
  }

  /** A backslash before something else stays, and two of them are one. */
  lemma CutBackslash()
    ensures Cut("a\\b##", "##", 0, true, false) == Piece("a\\b", 5, true)
    ensures Cut("\\\\##", "##", 0, true, false) == Piece("\\", 4, true)
  {
    var s, t := "a\\b##", "\\\\##";
    hide IsTokenAt;
    TwoHere(s, 0);
    TwoHere(s, 2);
    TwoHere(s, 3);
    TwoHere(t, 2);
    assert Cut(s, "##", 2, true, true) == Piece("\\b", 5, true);
  }

  /** A token of two characters is enclosed as a whole. */
  lemma EncloseLong()
    ensures Enclosed("a##b", "##", 0, "<", ">") == "a<##>b"
  {
    var line := "a##b";
    assert Find(line, "##", 0) == 1 by {
      assert Scan(line, "##", 1, 0, -1) == 1;
    }
    assert Find(line, "##", 3) == -1;
    assert line[0..1] == "a" && line[3..] == "b";
  }

  // ---------------------------------------------------------------- lines

  /** The position of the first line end, or the end of the text. */
  function LineEnd(s: string): (x: nat)
    ensures x <= |s|
    ensures forall i :: 0 <= i < x ==> s[i] != '\n'
    ensures x < |s| ==> s[x] == '\n'
  {
    if s == "" || s[0] == '\n' then 0 else 1 + LineEnd(s[1..])
  }

  lemma LineEndIs(s: string, x: nat)
    requires x <= |s| && (forall i :: 0 <= i < x ==> s[i] != '\n') && (x < |s| ==> s[x] == '\n')
    ensures LineEnd(s) == x
  {
  }
}
