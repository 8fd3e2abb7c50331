/**
 Partitions of a set (lib/strings/table.go): a recursive enumerator of the ways to split elements into k non-empty
 blocks, against the sets of sets it is meant to list. Here blocks are values; in partition_slices.dfy they are slices.
 */
module Partition {
  import opened Lists
  import Stirling

  type Block = seq<string>
  type Row = seq<Block>
  type Table = seq<Row>

  // ---------------------------------------------------------------- the enumerator as functions

  function Singles(ss: seq<string>): (r: Row)
    ensures |r| == |ss|
  {
    seq(|ss|, i requires 0 <= i < |ss| => [ss[i]])
  }

  function JoinAt(row: Row, y: nat, s: string): (r: Row)
    requires y < |row|
    ensures |r| == |row|
  {
    row[y := row[y] + [s]]
  }

  function JoinRow(row: Row, s: string): (t: Table)
    ensures |t| == |row|
  {
    seq(|row|, y requires 0 <= y < |row| => JoinAt(row, y, s))
  }

  function Join(table: Table, s: string): Table {
    if table == [] then [] else JoinRow(table[0], s) + Join(table[1..], s)
  }

  function WithBlock(table: Table, s: string): (t: Table)
    ensures |t| == |table|
  {
    seq(|table|, i requires 0 <= i < |table| => table[i] + [[s]])
  }

  function Partitions(ss: seq<string>, k: nat): Table
    requires k == 1 || 1 <= k <= |ss|
    decreases |ss|
  {
    if k == 1 then [[ss]]
    else if |ss| == k then [Singles(ss)]
    else Join(Partitions(ss[1..], k), ss[0]) + WithBlock(Partitions(ss[1..], k - 1), ss[0])
  }

  // ---------------------------------------------------------------- sets of sets

  ghost function Elems(b: Block): set<string> {
    set x | x in b
  }

  /** A row up to the order of its blocks and of the elements in them. */
  ghost function Blocks(row: Row): set<set<string>> {
    set b | b in row :: Elems(b)
  }

  ghost predicate Inside(P: set<set<string>>, S: set<string>) {
    forall B :: B in P ==> B != {} && B <= S
  }

  ghost predicate Apart(P: set<set<string>>) {
    forall B, C :: B in P && C in P && B != C ==> B !! C
  }

  ghost predicate Covered(P: set<set<string>>, x: string) {
    exists B :: B in P && x in B
  }

  ghost predicate Covers(P: set<set<string>>, S: set<string>) {
    forall x :: x in S ==> Covered(P, x)
  }

  /** P splits S into non-empty sets without common elements. */
  ghost predicate Splits(P: set<set<string>>, S: set<string>) {
    Inside(P, S) && Apart(P) && Covers(P, S)
  }

  /** The row lists every element of S once, in |row| non-empty blocks. */
  ghost predicate RowOk(row: Row, S: set<string>) {
    && (forall i :: 0 <= i < |row| ==> row[i] != [] && NoDup(row[i]) && Elems(row[i]) <= S)
    && (forall i, j :: 0 <= i < j < |row| ==> Elems(row[i]) !! Elems(row[j]))
    && (forall x :: x in S ==> exists i :: 0 <= i < |row| && x in row[i])
  }

  /** No two rows are the same up to order. */
  ghost predicate NoRepeat(t: Table) {
    forall i, j :: 0 <= i < j < |t| ==> Blocks(t[i]) != Blocks(t[j])
  }

  ghost predicate Sound(t: Table, S: set<string>, k: nat) {
    forall row :: row in t ==> |row| == k && RowOk(row, S)
  }

  /** Some row is P up to order. */
  ghost predicate Listed(t: Table, P: set<set<string>>) {
    exists row :: row in t && Blocks(row) == P
  }

  ghost predicate Complete(t: Table, S: set<string>, k: nat) {
    forall P: set<set<string>> :: Splits(P, S) && |P| == k ==> Listed(t, P)
  }

  // ---------------------------------------------------------------- one element more

  /** The blocks without one element. */
  ghost function Strip(P: set<set<string>>, e: string): set<set<string>> {
    set B | B in P :: B - {e}
  }

  lemma BlockIn(row: Row, i: nat)
    requires i < |row|
    ensures Elems(row[i]) in Blocks(row)
  {
    assert row[i] in row;
  }

  lemma InBlocks(row: Row, B: set<string>) returns (i: nat)
    requires B in Blocks(row)
    ensures i < |row| && Elems(row[i]) == B
  {
    var b :| b in row && Elems(b) == B;
    i :| 0 <= i < |row| && row[i] == b;
  }

  lemma ElemsAppend(b: Block, e: string)
    ensures Elems(b + [e]) == Elems(b) + {e}
  {
  }

  /** The element goes into block y: still a proper row. */
  lemma JoinAtOk(row: Row, y: nat, e: string, S: set<string>)
    requires y < |row| && RowOk(row, S) && e !in S
    ensures RowOk(JoinAt(row, y, e), S + {e})
  {
    var r := JoinAt(row, y, e);
    ElemsAppend(row[y], e);
    forall i | 0 <= i < |r| ensures r[i] != [] && NoDup(r[i]) && Elems(r[i]) <= S + {e} {
      if i == y {
        assert forall m :: 0 <= m < |row[y]| ==> row[y][m] in Elems(row[y]);
      }
    }
    forall x | x in S + {e} ensures exists i :: 0 <= i < |r| && x in r[i] {
      if x == e {
        assert e in r[y];
      } else {
        var i :| 0 <= i < |row| && x in row[i];
        assert x in r[i];
      }
    }
  }

  /** Taking the element away again gives the row back. */
  lemma JoinAtStrip(row: Row, y: nat, e: string, S: set<string>)
    requires y < |row| && RowOk(row, S) && e !in S
    ensures Strip(Blocks(JoinAt(row, y, e)), e) == Blocks(row)
    ensures Elems(row[y]) + {e} in Blocks(JoinAt(row, y, e))
    ensures {e} !in Blocks(JoinAt(row, y, e))
  {
    var r := JoinAt(row, y, e);
    ElemsAppend(row[y], e);
    BlockIn(r, y);
    assert forall i :: 0 <= i < |row| ==> Elems(r[i]) - {e} == Elems(row[i]);
    forall B | B in Blocks(row) ensures B in Strip(Blocks(r), e) {
      var i := InBlocks(row, B);
      BlockIn(r, i);
    }
    forall B | B in Strip(Blocks(r), e) ensures B in Blocks(row) {
      var C :| C in Blocks(r) && B == C - {e};
      var i := InBlocks(r, C);
      BlockIn(row, i);
    }
    forall i | 0 <= i < |r| ensures Elems(r[i]) != {e} {
      assert row[i][0] in Elems(row[i]) && row[i][0] in Elems(r[i]);
    }
  }

  lemma WithBlockOk(row: Row, e: string, S: set<string>)
    requires RowOk(row, S) && e !in S
    ensures RowOk(row + [[e]], S + {e})
    ensures Blocks(row + [[e]]) == Blocks(row) + {{e}}
    ensures {e} !in Blocks(row)
  {
    var r := row + [[e]];
    assert Elems([e]) == {e};
    forall x | x in S + {e} ensures exists i :: 0 <= i < |r| && x in r[i] {
      if x == e {
        assert e in r[|row|];
      } else {
        var i :| 0 <= i < |row| && x in row[i];
        assert x in r[i];
      }
    }
    assert forall b :: b in r <==> b in row || b == [e];
    assert forall i :: 0 <= i < |row| ==> e !in Elems(row[i]);
    assert e in {e};
  }

  // ---------------------------------------------------------------- tables

  /** The rows of a join are exactly those of the table with the element put into one of their blocks. */
  lemma {:induction false} JoinRows(t: Table, e: string, r: Row)
    ensures r in Join(t, e) <==> exists row, y :: row in t && 0 <= y < |row| && r == JoinAt(row, y, e)
  {
    if t != [] {
      JoinRows(t[1..], e, r);
      assert r in JoinRow(t[0], e) <==> exists y :: 0 <= y < |t[0]| && r == JoinAt(t[0], y, e) by {
        if y :| 0 <= y < |t[0]| && r == JoinAt(t[0], y, e) {
          assert JoinRow(t[0], e)[y] == r;
        }
      }
      assert forall row :: row in t <==> row == t[0] || row in t[1..];
    }
  }

  lemma JoinSound(t: Table, e: string, S: set<string>, k: nat)
    requires Sound(t, S, k) && e !in S
    ensures Sound(Join(t, e), S + {e}, k)
  {
    forall r | r in Join(t, e) ensures |r| == k && RowOk(r, S + {e}) {
      JoinRows(t, e, r);
      var row, y :| row in t && 0 <= y < |row| && r == JoinAt(row, y, e);
      JoinAtOk(row, y, e, S);
    }
  }

  lemma WithBlockSound(t: Table, e: string, S: set<string>, k: nat)
    requires Sound(t, S, k) && e !in S
    ensures Sound(WithBlock(t, e), S + {e}, k + 1)
  {
    forall r | r in WithBlock(t, e) ensures |r| == k + 1 && RowOk(r, S + {e}) {
      var i :| 0 <= i < |t| && WithBlock(t, e)[i] == r;
      assert t[i] in t;
      WithBlockOk(t[i], e, S);
    }
  }

  /** Rows made from one row differ: the element is in different blocks. */
  lemma JoinAtDiffer(row: Row, y: nat, z: nat, e: string, S: set<string>)
    requires y < z < |row| && RowOk(row, S) && e !in S
    ensures Blocks(JoinAt(row, y, e)) != Blocks(JoinAt(row, z, e))
  {
    var a, b := JoinAt(row, y, e), JoinAt(row, z, e);
    ElemsAppend(row[y], e);
    ElemsAppend(row[z], e);
    BlockIn(a, y);
    forall i | 0 <= i < |b| ensures Elems(b[i]) != Elems(a[y]) {
      assert e in Elems(a[y]);
      if i == z {
        assert row[y][0] in Elems(row[y]);
        assert row[y][0] in Elems(a[y]) && row[y][0] !in Elems(b[z]);
      }
    }
  }

  lemma NoRepeatConcat(a: Table, b: Table)
    requires NoRepeat(a) && NoRepeat(b)
    requires forall i, j :: 0 <= i < |a| && 0 <= j < |b| ==> Blocks(a[i]) != Blocks(b[j])
    ensures NoRepeat(a + b)
  {
  }

  /** Rows made from different rows differ: without the element they are those rows again. */
  lemma JoinsDiffer(t: Table, i: nat, j: nat, e: string, S: set<string>, k: nat)
    requires t != [] && Sound(t, S, k) && NoRepeat(t) && e !in S && i < |t[0]| && j < |Join(t[1..], e)|
    ensures Blocks(JoinRow(t[0], e)[i]) != Blocks(Join(t[1..], e)[j])
  {
    hide RowOk, Blocks, Strip, Join;
    var r := Join(t[1..], e)[j];
    assert t[0] in t && forall row :: row in t[1..] ==> row in t;
    JoinAtStrip(t[0], i, e, S);
    JoinRows(t[1..], e, r);
    var row, y :| row in t[1..] && 0 <= y < |row| && r == JoinAt(row, y, e);
    JoinAtStrip(row, y, e, S);
    var m :| 0 <= m < |t[1..]| && t[1..][m] == row;
    assert t[m + 1] == row;
  }

  lemma {:induction false} JoinNoRepeat(t: Table, e: string, S: set<string>, k: nat)
    requires Sound(t, S, k) && NoRepeat(t) && e !in S
    ensures NoRepeat(Join(t, e))
  {
    if t != [] {
      var a, b := JoinRow(t[0], e), Join(t[1..], e);
      assert t[0] in t && forall row :: row in t[1..] ==> row in t;
      JoinNoRepeat(t[1..], e, S, k);
      forall y, z | 0 <= y < z < |a| ensures Blocks(a[y]) != Blocks(a[z]) {
        JoinAtDiffer(t[0], y, z, e, S);
      }
      forall i, j | 0 <= i < |a| && 0 <= j < |b| ensures Blocks(a[i]) != Blocks(b[j]) {
        JoinsDiffer(t, i, j, e, S, k);
      }
      NoRepeatConcat(a, b);
    }
  }

  lemma WithBlockNoRepeat(t: Table, e: string, S: set<string>, k: nat)
    requires Sound(t, S, k) && NoRepeat(t) && e !in S
    ensures NoRepeat(WithBlock(t, e))
  {
    var w := WithBlock(t, e);
    forall i, j | 0 <= i < j < |w| ensures Blocks(w[i]) != Blocks(w[j]) {
      assert t[i] in t && t[j] in t;
      WithBlockOk(t[i], e, S);
      WithBlockOk(t[j], e, S);
      assert Blocks(w[i]) - {{e}} == Blocks(t[i]) && Blocks(w[j]) - {{e}} == Blocks(t[j]);
    }
  }

  /** A row of a join never has the element alone, a row with a block of its own always does. */
  lemma TablesDiffer(t: Table, u: Table, e: string, S: set<string>, k: nat, i: nat, j: nat)
    requires k >= 1 && Sound(t, S, k) && Sound(u, S, k - 1) && e !in S
    requires i < |Join(t, e)| && j < |WithBlock(u, e)|
    ensures Blocks(Join(t, e)[i]) != Blocks(WithBlock(u, e)[j])
  {
    var r := Join(t, e)[i];
    JoinRows(t, e, r);
    var row, y :| row in t && 0 <= y < |row| && r == JoinAt(row, y, e);
    JoinAtStrip(row, y, e, S);
    assert u[j] in u;
    WithBlockOk(u[j], e, S);
    assert {e} in Blocks(u[j]) + {{e}};
  }

  // ---------------------------------------------------------------- every split is listed

  /** The block that holds the element, and no other. */
  lemma Holder(P: set<set<string>>, S: set<string>, e: string) returns (B: set<string>)
    requires Splits(P, S) && e in S
    ensures B in P && e in B && forall C :: C in P && C != B ==> e !in C
  {
    hide Inside, Apart;
    assert Covered(P, e);
    B :| B in P && e in B;
    OnlyHolder(P, e, B);
  }

  lemma OnlyHolder(P: set<set<string>>, e: string, B: set<string>)
    requires Apart(P) && B in P && e in B
    ensures forall C :: C in P && C != B ==> e !in C
  {
    forall C | C in P && C != B ensures e !in C {
      assert C !! B;
    }
  }

  /** An element alone in its block: without the block, the rest is split. */
  lemma AloneRest(P: set<set<string>>, S: set<string>, e: string)
    requires Splits(P, S + {e}) && e !in S && {e} in P
    ensures Splits(P - {{e}}, S) && |P - {{e}}| == |P| - 1
  {
    hide Inside, Apart, Covers;
    OnlyHolder(P, e, {e});
    AloneInside(P, S, e);
    AloneApart(P, {{e}});
    AloneCovers(P, S, e);
  }

  lemma AloneInside(P: set<set<string>>, S: set<string>, e: string)
    requires Inside(P, S + {e}) && forall C :: C in P && C != {e} ==> e !in C
    ensures Inside(P - {{e}}, S)
  {
  }

  lemma AloneApart(P: set<set<string>>, D: set<set<string>>)
    requires Apart(P)
    ensures Apart(P - D)
  {
  }

  lemma AloneCovers(P: set<set<string>>, S: set<string>, e: string)
    requires Covers(P, S + {e}) && e !in S
    ensures Covers(P - {{e}}, S)
  {
    forall x | x in S ensures Covered(P - {{e}}, x) {
      assert Covered(P, x);
      var B :| B in P && x in B;
      assert B in P - {{e}};
    }
  }

  /** An element with company: without it, as many blocks split the rest. */
  lemma StripSplits(P: set<set<string>>, S: set<string>, e: string, B: set<string>)
    requires Splits(P, S + {e}) && e !in S && B in P && e in B && B != {e}
    ensures var Q := P - {B} + {B - {e}};
      Splits(Q, S) && |Q| == |P| && B - {e} !in P - {B}
  {
    hide Inside, Apart, Covers;
    OnlyHolder(P, e, B);
    StripInside(P, S, e, B);
    StripApart(P, e, B);
    StripCovers(P, S, e, B);
  }

  lemma StripInside(P: set<set<string>>, S: set<string>, e: string, B: set<string>)
    requires Inside(P, S + {e}) && B in P && e in B && B != {e} && forall C :: C in P && C != B ==> e !in C
    ensures Inside(P - {B} + {B - {e}}, S)
  {
    assert B - {e} != {} by {
      assert B - {e} + {e} == B;
    }
  }

  lemma StripApart(P: set<set<string>>, e: string, B: set<string>)
    requires Apart(P) && B in P && e in B && B != {e}
    ensures Apart(P - {B} + {B - {e}}) && B - {e} !in P - {B}
  {
    var Q := P - {B} + {B - {e}};
    assert B - {e} != {} by {
      assert B - {e} + {e} == B;
    }
    forall C | C in P && C != B ensures C !! B - {e} && C != B - {e} {
      assert C !! B;
      var x :| x in B - {e};
    }
  }

  lemma StripCovers(P: set<set<string>>, S: set<string>, e: string, B: set<string>)
    requires Covers(P, S + {e}) && e !in S
    ensures Covers(P - {B} + {B - {e}}, S)
  {
    var Q := P - {B} + {B - {e}};
    forall x | x in S ensures Covered(Q, x) {
      assert Covered(P, x);
      var C :| C in P && x in C;
      if C == B {
        assert B - {e} in Q && x in B - {e};
      } else {
        assert C in Q;
      }
    }
  }

  /** Putting the element back into its block of a row. */
  lemma PutBack(row: Row, y: nat, e: string, S: set<string>, P: set<set<string>>, B: set<string>)
    requires RowOk(row, S) && e !in S && y < |row| && e in B && B in P
    requires Blocks(row) == P - {B} + {B - {e}} && Elems(row[y]) == B - {e} && B - {e} !in P - {B}
    ensures Blocks(JoinAt(row, y, e)) == P
  {
    hide Blocks, RowOk;
    var r := JoinAt(row, y, e);
    ElemsAppend(row[y], e);
    forall C | C in P ensures C in Blocks(r) {
      KeptBlock(row, y, e, P, B, C);
    }
    forall C | C in Blocks(r) ensures C in P {
      NoNewBlock(row, y, e, S, P, B, C);
    }
  }

  lemma KeptBlock(row: Row, y: nat, e: string, P: set<set<string>>, B: set<string>, C: set<string>)
    requires y < |row| && Blocks(row) == P - {B} + {B - {e}} && Elems(row[y]) == B - {e} && B - {e} !in P - {B}
    requires Elems(row[y] + [e]) == B && C in P
    ensures C in Blocks(JoinAt(row, y, e))
  {
    hide Blocks;
    var r := JoinAt(row, y, e);
    if C == B {
      BlockIn(r, y);
    } else {
      var i := InBlocks(row, C);
      BlockIn(r, i);
    }
  }

  lemma NoNewBlock(row: Row, y: nat, e: string, S: set<string>, P: set<set<string>>, B: set<string>, C: set<string>)
    requires RowOk(row, S) && y < |row| && e in B && B in P
    requires Blocks(row) == P - {B} + {B - {e}} && Elems(row[y]) == B - {e} && B - {e} !in P - {B}
    requires Elems(row[y] + [e]) == B && C in Blocks(JoinAt(row, y, e))
    ensures C in P
  {
    hide Blocks;
    var i := InBlocks(JoinAt(row, y, e), C);
    if i != y {
      BlockIn(row, i);
      assert row[i][0] in Elems(row[i]) && Elems(row[i]) != Elems(row[y]);
    }
  }

  lemma JoinLists(t: Table, e: string, S: set<string>, k: nat, P: set<set<string>>, B: set<string>)
    requires Sound(t, S, k) && Complete(t, S, k) && e !in S
    requires Splits(P, S + {e}) && |P| == k && B in P && e in B && B != {e}
    ensures Listed(Join(t, e), P)
  {
    hide Inside, Apart, Covers, RowOk, Blocks, Join;
    StripSplits(P, S, e, B);
    var Q := P - {B} + {B - {e}};
    assert Listed(t, Q);
    var row :| row in t && Blocks(row) == Q;
    var y := InBlocks(row, B - {e});
    PutBack(row, y, e, S, P, B);
    JoinRows(t, e, JoinAt(row, y, e));
  }

  lemma WithBlockLists(t: Table, e: string, S: set<string>, k: nat, P: set<set<string>>)
    requires Sound(t, S, k) && Complete(t, S, k) && e !in S
    requires Splits(P, S + {e}) && |P| == k + 1 && {e} in P
    ensures Listed(WithBlock(t, e), P)
  {
    hide Inside, Apart, Covers, RowOk, Blocks;
    AloneRest(P, S, e);
    assert Listed(t, P - {{e}});
    var row :| row in t && Blocks(row) == P - {{e}};
    WithBlockOk(row, e, S);
    var i :| 0 <= i < |t| && t[i] == row;
    assert WithBlock(t, e)[i] == row + [[e]];
    assert P - {{e}} + {{e}} == P;
  }

  // ---------------------------------------------------------------- the two ends

  /** No more blocks than elements, and as many only when every block is a single element. */
  lemma {:induction false} AtMostSingles(P: set<set<string>>, S: set<string>)
    requires Splits(P, S)
    ensures |P| <= |S|
    ensures |P| == |S| ==> forall B :: B in P ==> exists x :: x in S && B == {x}
    decreases |S|
  {
    hide Inside, Apart, Covers;
    if S == {} {
      NoBlocks(P);
    } else {
      var e :| e in S;
      var T := S - {e};
      assert T + {e} == S;
      var B := Holder(P, S, e);
      if B == {e} {
        AloneRest(P, T, e);
        AtMostSingles(P - {{e}}, T);
        assert forall C :: C in P ==> C == {e} || C in P - {{e}};
      } else {
        StripSplits(P, T, e, B);
        AtMostSingles(P - {B} + {B - {e}}, T);
      }
    }
  }

  lemma NoBlocks(P: set<set<string>>)
    requires Inside(P, {})
    ensures P == {}
  {
    if B :| B in P {
      assert false;
    }
  }

  lemma {:induction false} ElemsCount(ss: seq<string>)
    requires NoDup(ss)
    ensures |Elems(ss)| == |ss|
  {
    if ss != [] {
      ElemsCount(ss[1..]);
      assert Elems(ss) == Elems(ss[1..]) + {ss[0]};
    }
  }

  lemma SinglesOk(ss: seq<string>)
    requires NoDup(ss)
    ensures RowOk(Singles(ss), Elems(ss))
    ensures Complete([Singles(ss)], Elems(ss), |ss|)
  {
    var row, S := Singles(ss), Elems(ss);
    assert forall i :: 0 <= i < |ss| ==> Elems(row[i]) == {ss[i]};
    forall x | x in S ensures exists i :: 0 <= i < |row| && x in row[i] {
      var i :| 0 <= i < |ss| && ss[i] == x;
      assert x in row[i];
    }
    forall P: set<set<string>> | Splits(P, S) && |P| == |ss| ensures Listed([row], P) {
      SinglesListed(ss, P);
      assert row in [row];
    }
  }

  lemma SinglesListed(ss: seq<string>, P: set<set<string>>)
    requires NoDup(ss) && Splits(P, Elems(ss)) && |P| == |ss|
    ensures Blocks(Singles(ss)) == P
  {
    hide Inside, Apart, NoDup;
    var row, S := Singles(ss), Elems(ss);
    ElemsCount(ss);
    AtMostSingles(P, S);
    forall x | x in S ensures {x} in P {
      assert Covered(P, x);
      var B :| B in P && x in B;
    }
    forall B | B in P ensures B in Blocks(row) {
      var x :| x in S && B == {x};
      var i :| 0 <= i < |ss| && ss[i] == x;
      BlockIn(row, i);
      assert Elems(row[i]) == {x};
    }
    forall B | B in Blocks(row) ensures B in P {
      var i := InBlocks(row, B);
      assert Elems(row[i]) == {ss[i]};
    }
  }

  lemma OneBlockOk(ss: seq<string>)
    requires NoDup(ss) && ss != []
    ensures RowOk([ss], Elems(ss))
    ensures Complete([[ss]], Elems(ss), 1)
  {
    var row, S := [ss], Elems(ss);
    forall x | x in S ensures exists i :: 0 <= i < |row| && x in row[i] {
      assert x in row[0];
    }
    assert Blocks(row) == {S};
    forall P: set<set<string>> | Splits(P, S) && |P| == 1 ensures Listed([row], P) {
      OnlyBlock(P, S);
      assert row in [row];
    }
  }

  lemma OnlyBlock(P: set<set<string>>, S: set<string>)
    requires Splits(P, S) && |P| == 1
    ensures P == {S}
  {
    var B :| B in P;
    assert |P - {B}| == 0;
    assert P == {B};
    assert B <= S;
    forall x | x in S ensures x in B {
      assert Covered(P, x);
    }
    assert B == S;
  }

  // ---------------------------------------------------------------- the main results

  ghost predicate Correct(t: Table, S: set<string>, k: nat) {
    Sound(t, S, k) && NoRepeat(t) && Complete(t, S, k)
  }

  /** The enumerator, case by case. */
  lemma PartitionsCases(ss: seq<string>, k: nat)
    requires 1 <= k <= |ss|
    ensures k == 1 ==> Partitions(ss, k) == [[ss]]
    ensures k == |ss| > 1 ==> Partitions(ss, k) == [Singles(ss)]
    ensures 1 < k < |ss| ==>
      Partitions(ss, k) == Join(Partitions(ss[1..], k), ss[0]) + WithBlock(Partitions(ss[1..], k - 1), ss[0])
  {
  }

  lemma {:induction false} PartitionsCorrect(ss: seq<string>, k: nat)
    requires 1 <= k <= |ss| && NoDup(ss)
    ensures Correct(Partitions(ss, k), Elems(ss), k)
    decreases |ss|
  {
    hide Partitions, NoDup, RowOk, Complete, NoRepeat, Elems, Join, WithBlock;
    PartitionsCases(ss, k);
    if k == 1 {
      OneBlockOk(ss);
      OneRow([ss]);
    } else if |ss| == k {
      SinglesOk(ss);
      OneRow(Singles(ss));
    } else {
      var rest := ss[1..];
      FirstApart(ss);
      PartitionsCorrect(rest, k);
      PartitionsCorrect(rest, k - 1);
      Combine(Partitions(rest, k), Partitions(rest, k - 1), ss[0], Elems(rest), k);
    }
  }

  lemma OneRow(row: Row)
    ensures NoRepeat([row])
  {
  }

  lemma FirstApart(ss: seq<string>)
    requires ss != [] && NoDup(ss)
    ensures Elems(ss) == Elems(ss[1..]) + {ss[0]} && ss[0] !in Elems(ss[1..])
    ensures NoDup(ss[1..])
  {
  }

  lemma Combine(t: Table, u: Table, e: string, S: set<string>, k: nat)
    requires k >= 1 && Correct(t, S, k) && Correct(u, S, k - 1) && e !in S
    ensures Correct(Join(t, e) + WithBlock(u, e), S + {e}, k)
  {
    hide RowOk, Join, WithBlock, Blocks, Complete, NoRepeat;
    JoinSound(t, e, S, k);
    WithBlockSound(u, e, S, k - 1);
    JoinNoRepeat(t, e, S, k);
    WithBlockNoRepeat(u, e, S, k - 1);
    forall i, j | 0 <= i < |Join(t, e)| && 0 <= j < |WithBlock(u, e)|
      ensures Blocks(Join(t, e)[i]) != Blocks(WithBlock(u, e)[j])
    {
      TablesDiffer(t, u, e, S, k, i, j);
    }
    NoRepeatConcat(Join(t, e), WithBlock(u, e));
    CombineComplete(t, u, e, S, k);
  }

  lemma CombineComplete(t: Table, u: Table, e: string, S: set<string>, k: nat)
    requires k >= 1 && Correct(t, S, k) && Correct(u, S, k - 1) && e !in S
    ensures Complete(Join(t, e) + WithBlock(u, e), S + {e}, k)
  {
    hide RowOk, Join, WithBlock, Blocks, Splits, NoRepeat;
    var a, b := Join(t, e), WithBlock(u, e);
    forall P: set<set<string>> | Splits(P, S + {e}) && |P| == k ensures Listed(a + b, P) {
      var B := Holder(P, S + {e}, e);
      if B == {e} {
        WithBlockLists(u, e, S, k - 1, P);
        ListsConcat(a, b, P);
      } else {
        JoinLists(t, e, S, k, P, B);
        ListsConcat(a, b, P);
      }
    }
  }

  lemma ListsConcat(a: Table, b: Table, P: set<set<string>>)
    requires Listed(a, P) || Listed(b, P)
    ensures Listed(a + b, P)
  {
    var row :| row in a + b && Blocks(row) == P;
  }

  /** A proper row splits the elements, into as many blocks as it has. */
  lemma RowSplits(row: Row, S: set<string>)
    requires RowOk(row, S)
    ensures Splits(Blocks(row), S) && |Blocks(row)| == |row|
  {
    var P := Blocks(row);
    forall B | B in P ensures B != {} && B <= S {
      var i := InBlocks(row, B);
      assert row[i][0] in Elems(row[i]);
    }
    forall B, C | B in P && C in P && B != C ensures B !! C {
      var i := InBlocks(row, B);
      var j := InBlocks(row, C);
    }
    forall x | x in S ensures Covered(P, x) {
      var i :| 0 <= i < |row| && x in row[i];
      BlockIn(row, i);
      assert x in Elems(row[i]);
    }
    BlocksCount(row);
  }

  lemma {:induction false} BlocksCount(row: Row)
    requires forall i :: 0 <= i < |row| ==> row[i] != []
    requires forall i, j :: 0 <= i < j < |row| ==> Elems(row[i]) !! Elems(row[j])
    ensures |Blocks(row)| == |row|
  {
    if row != [] {
      BlocksCount(row[1..]);
      assert forall b :: b in row <==> b == row[0] || b in row[1..];
      assert Blocks(row) == Blocks(row[1..]) + {Elems(row[0])};
      forall B | B in Blocks(row[1..]) ensures B != Elems(row[0]) {
        var i := InBlocks(row[1..], B);
        assert row[0][0] in Elems(row[0]) && row[0][0] !in Elems(row[i + 1]);
      }
    }
  }

  /** A set of sets is a row of the table, up to order, exactly when it splits the elements into k blocks. */
  lemma ListsExactly(ss: seq<string>, k: nat, P: set<set<string>>)
    requires 1 <= k <= |ss| && NoDup(ss)
    ensures Listed(Partitions(ss, k), P) <==> Splits(P, Elems(ss)) && |P| == k
  {
    hide RowOk, Splits, Blocks, Elems;
    PartitionsCorrect(ss, k);
    if row :| row in Partitions(ss, k) && Blocks(row) == P {
      RowSplits(row, Elems(ss));
    }
  }

  lemma JoinStep(t: Table, e: string)
    ensures |Join(t, e)| == if t == [] then 0 else |t[0]| + |Join(t[1..], e)|
  {
  }

  lemma {:induction false} JoinCount(t: Table, e: string, k: nat)
    requires forall row :: row in t ==> |row| == k
    ensures |Join(t, e)| == k * |t|
  {
    hide Join, JoinRow;
    JoinStep(t, e);
    if t != [] {
      assert t[0] in t && forall row :: row in t[1..] ==> row in t;
      JoinCount(t[1..], e, k);
      assert k * |t| == k + k * (|t| - 1);
    }
  }

  lemma {:induction false} PartitionsWidth(ss: seq<string>, k: nat)
    requires 1 <= k <= |ss|
    ensures forall row :: row in Partitions(ss, k) ==> |row| == k
    decreases |ss|
  {
    if k > 1 && |ss| > k {
      PartitionsWidth(ss[1..], k);
      PartitionsWidth(ss[1..], k - 1);
      var t, u := Partitions(ss[1..], k), Partitions(ss[1..], k - 1);
      forall row | row in Partitions(ss, k) ensures |row| == k {
        JoinRows(t, ss[0], row);
      }
    }
  }

  /** As many rows as the Stirling number says. */
  lemma {:induction false} PartitionsCount(ss: seq<string>, k: nat)
    requires 1 <= k <= |ss|
    ensures |Partitions(ss, k)| == Stirling.S2(|ss|, k)
    decreases |ss|
  {
    hide Partitions, Join;
    PartitionsCases(ss, k);
    if k == 1 {
      Stirling.OneBlock(|ss|);
    } else if |ss| == k {
      Stirling.AllAlone(k);
    } else {
      PartitionsCount(ss[1..], k);
      PartitionsCount(ss[1..], k - 1);
      PartitionsWidth(ss[1..], k);
      JoinCount(Partitions(ss[1..], k), ss[0], k);
    }
  }

  /** No elements in one block: the one row listed has an empty block, so it is not a partition. */
  lemma NothingInOneBlock()
    ensures !Sound(Partitions([], 1), {}, 1)
  {
    var t := Partitions([], 1);
    assert t[0] in t && t[0][0] == [];
  }
}
