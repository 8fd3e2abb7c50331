/**
 Partition with the memory it uses (lib/strings/table.go): blocks are slices of arrays, and appending to a block with
 spare capacity writes into an array that other rows may share. When that spoils the table, and when it does not.
 */
module PartitionSlices {
  import opened Lists
  import opened Partition
  import Stirling

  /** The backing arrays of all blocks; their lengths are the capacities. */
  type Arrays = seq<seq<string>>

  datatype Slice = Slice(arr: nat, len: nat)

  type SliceRow = seq<Slice>
  type SliceTable = seq<SliceRow>

  /** The capacity append gives to the copy of a full slice: at first it doubles, and it always grows. */
  ghost predicate GrowthOk(g: nat -> nat) {
    g(1) == 2 && g(2) == 4 && forall c :: g(c) > c
  }

  const DOUBLE: nat -> nat := c => if c == 0 then 1 else 2 * c

  type Growth = g: nat -> nat | GrowthOk(g) witness DOUBLE

  predicate SliceOk(m: Arrays, s: Slice) {
    s.arr < |m| && s.len <= |m[s.arr]|
  }

  predicate RowFine(m: Arrays, row: SliceRow) {
    forall s :: s in row ==> SliceOk(m, s)
  }

  predicate Fine(m: Arrays, t: SliceTable) {
    forall row :: row in t ==> RowFine(m, row)
  }

  ghost predicate InTable(t: SliceTable, s: Slice) {
    exists row :: row in t && s in row
  }

  function Content(m: Arrays, s: Slice): Block
    requires SliceOk(m, s)
  {
    m[s.arr][..s.len]
  }

  /** The blocks of a row as a reader of the table sees them. */
  function ViewRow(m: Arrays, row: SliceRow): (r: Row)
    requires RowFine(m, row)
    ensures |r| == |row|
  {
    seq(|row|, y requires 0 <= y < |row| => Content(m, row[y]))
  }

  function View(m: Arrays, t: SliceTable): (v: Table)
    requires Fine(m, t)
    ensures |v| == |t|
  {
    seq(|t|, i requires 0 <= i < |t| => ViewRow(m, t[i]))
  }

  // ---------------------------------------------------------------- the steps as functions

  /** More arrays, none of them longer or shorter. */
  ghost predicate Extends(m: Arrays, m': Arrays) {
    |m| <= |m'| && forall a :: 0 <= a < |m| ==> |m'[a]| == |m[a]|
  }

  lemma FineMore(m: Arrays, m': Arrays, t: SliceTable)
    requires Extends(m, m') && Fine(m, t)
    ensures Fine(m', t)
  {
  }

  lemma FineConcat(m: Arrays, a: SliceTable, b: SliceTable)
    requires Fine(m, a) && Fine(m, b)
    ensures Fine(m, a + b)
  {
  }

  lemma PrefixExtends(m: Arrays, m': Arrays)
    requires m <= m'
    ensures Extends(m, m')
  {
  }

  /** append(s, x): in place while there is room, and else into a larger copy. */
  function Appended(g: Growth, m: Arrays, s: Slice, x: string): (r: (Arrays, Slice))
    requires SliceOk(m, s)
    ensures Extends(m, r.0) && SliceOk(r.0, r.1)
  {
    if s.len < |m[s.arr]| then (m[s.arr := m[s.arr][s.len := x]], Slice(s.arr, s.len + 1))
    else
      (m + [m[s.arr] + [x] + seq(g(s.len) - s.len - 1, _ => "")], Slice(|m|, s.len + 1))
  }

  /** The rows made from one row, from block y on. */
  function JoinRowFrom(g: Growth, m: Arrays, row: SliceRow, y: nat, x: string): (r: (Arrays, SliceTable))
    requires RowFine(m, row) && y <= |row|
    ensures Extends(m, r.0) && Fine(r.0, r.1) && |r.1| == |row| - y
    ensures forall i :: 0 <= i < |r.1| ==> |r.1[i]| == |row|
    decreases |row| - y
  {
    if y == |row| then (m, [])
    else
      var (m1, s) := Appended(g, m, row[y], x);
      var (m2, t) := JoinRowFrom(g, m1, row, y + 1, x);
      FineMore(m1, m2, [row[y := s]]);
      FineConcat(m2, [row[y := s]], t);
      (m2, [row[y := s]] + t)
  }

  /** JoinCombination on slices. */
  function JoinTable(g: Growth, m: Arrays, t: SliceTable, x: string): (r: (Arrays, SliceTable))
    requires Fine(m, t)
    ensures Extends(m, r.0) && Fine(r.0, r.1)
    decreases |t|
  {
    if t == [] then (m, [])
    else
      var (m1, a) := JoinRowFrom(g, m, t[0], 0, x);
      FineMore(m, m1, t[1..]);
      var (m2, b) := JoinTable(g, m1, t[1..], x);
      FineMore(m1, m2, a);
      FineConcat(m2, a, b);
      (m2, a + b)
  }

  function SinglesMade(m: Arrays, ss: seq<string>): (r: (Arrays, SliceRow))
    ensures m <= r.0 && RowFine(r.0, r.1) && |r.1| == |ss|
  {
    (m + seq(|ss|, i requires 0 <= i < |ss| => [ss[i]]), seq(|ss|, i requires 0 <= i < |ss| => Slice(|m| + i, 1)))
  }

  function BlocksRows(lo: nat, t: SliceTable): (r: SliceTable)
    ensures |r| == |t|
  {
    seq(|t|, i requires 0 <= i < |t| => t[i] + [Slice(lo + i, 1)])
  }

  lemma BlocksFine(m: Arrays, m': Arrays, t: SliceTable)
    requires Fine(m, t) && m <= m' && |m'| == |m| + |t| && forall i :: |m| <= i < |m'| ==> |m'[i]| == 1
    ensures Fine(m', BlocksRows(|m|, t))
  {
    var r := BlocksRows(|m|, t);
    forall row, s | row in r && s in row ensures SliceOk(m', s) {
      var i :| 0 <= i < |t| && r[i] == row;
      assert t[i] in t;
    }
  }

  /** Every row with one more block, of a new array. */
  function BlocksMade(m: Arrays, t: SliceTable, x: string): (r: (Arrays, SliceTable))
    requires Fine(m, t)
    ensures m <= r.0 && Fine(r.0, r.1) && |r.1| == |t|
  {
    BlocksFine(m, m + seq(|t|, _ => [x]), t);
    (m + seq(|t|, _ => [x]), BlocksRows(|m|, t))
  }

  /** All slices are of arrays from lo up to hi. */
  ghost predicate Between(t: SliceTable, lo: nat, hi: nat) {
    forall row, s :: row in t && s in row ==> lo <= s.arr < hi
  }

  lemma AppendKeeps(g: Growth, m: Arrays, s: Slice, x: string, lo: nat)
    requires SliceOk(m, s) && lo <= s.arr
    ensures var (m', s') := Appended(g, m, s, x);
      m'[..lo] == m[..lo] && lo <= s'.arr < |m'|
  {
  }

  lemma {:induction false} JoinRowKeeps(g: Growth, m: Arrays, row: SliceRow, y: nat, x: string, lo: nat)
    requires RowFine(m, row) && y <= |row| && lo <= |m| && forall s :: s in row ==> lo <= s.arr
    ensures var (m', t) := JoinRowFrom(g, m, row, y, x);
      m'[..lo] == m[..lo] && Between(t, lo, |m'|)
    decreases |row| - y
  {
    if y < |row| {
      AppendKeeps(g, m, row[y], x, lo);
      JoinRowKeeps(g, Appended(g, m, row[y], x).0, row, y + 1, x, lo);
    }
  }

  /** Joining writes only into arrays of the table and into new ones. */
  lemma {:induction false} JoinKeeps(g: Growth, m: Arrays, t: SliceTable, x: string, lo: nat)
    requires Fine(m, t) && lo <= |m| && Between(t, lo, |m|)
    ensures var (m', j) := JoinTable(g, m, t, x);
      m'[..lo] == m[..lo] && Between(j, lo, |m'|)
    decreases |t|
  {
    if t != [] {
      assert t[0] in t && forall row :: row in t[1..] ==> row in t;
      JoinRowKeeps(g, m, t[0], 0, x, lo);
      var m1 := JoinRowFrom(g, m, t[0], 0, x).0;
      FineMore(m, m1, t[1..]);
      JoinKeeps(g, m1, t[1..], x, lo);
    }
  }

  /** The joined table and the one with new blocks, one behind the other. */
  lemma TwoTables(m: Arrays, m2: Arrays, j: SliceTable, m3: Arrays, u: SliceTable, m4: Arrays, w: SliceTable, x: string)
    requires |m| <= |m2| && m <= m2 <= m3 && Fine(m2, j) && Between(j, |m|, |m2|)
    requires Fine(m3, u) && Between(u, |m2|, |m3|) && (m4, w) == BlocksMade(m3, u, x)
    ensures m <= m4 && Fine(m4, j + w) && Between(w, |m2|, |m4|) && Between(j + w, |m|, |m4|)
  {
    PrefixExtends(m2, m4);
    FineMore(m2, m4, j);
    FineConcat(m4, j, w);
    forall row, s | row in w && s in row ensures |m2| <= s.arr < |m4| {
      var i :| 0 <= i < |w| && w[i] == row;
      assert u[i] in u;
    }
  }

  /** Partition on slices; arrays that were there before stay as they are. */
  function Enumerated(g: Growth, m: Arrays, ss: seq<string>, k: nat): (r: (Arrays, SliceTable))
    requires k == 1 || 1 <= k <= |ss|
    ensures m <= r.0 && Fine(r.0, r.1) && Between(r.1, |m|, |r.0|)
    decreases |ss|
  {
    if k == 1 then (m + [ss], [[Slice(|m|, |ss|)]])
    else if k == |ss| then
      var (m1, row) := SinglesMade(m, ss);
      (m1, [row])
    else
      var (m1, t) := Enumerated(g, m, ss[1..], k);
      var (m2, j) := JoinTable(g, m1, t, ss[0]);
      JoinKeeps(g, m1, t, ss[0], |m|);
      var (m3, u) := Enumerated(g, m2, ss[1..], k - 1);
      var (m4, w) := BlocksMade(m3, u, ss[0]);
      TwoTables(m, m2, j, m3, u, m4, w, ss[0]);
      (m4, j + w)
  }

  // ---------------------------------------------------------------- what joining writes

  ghost predicate WriteSlot(t: SliceTable, a: nat, i: nat) {
    InTable(t, Slice(a, i))
  }

  /**
   From m to m' slots change only to x, and only those right behind a slice of t; arrays from base on do not change.
   */
  ghost predicate Written(m: Arrays, m': Arrays, t: SliceTable, base: nat, x: string) {
    && Extends(m, m')
    && forall a, i :: 0 <= a < |m| && 0 <= i < |m[a]| ==>
         m'[a][i] == m[a][i] || (m'[a][i] == x && a < base && WriteSlot(t, a, i))
  }

  lemma WrittenThen(m: Arrays, m1: Arrays, m2: Arrays, t: SliceTable, base: nat, x: string)
    requires Written(m, m1, t, base, x) && Written(m1, m2, t, base, x)
    ensures Written(m, m2, t, base, x)
  {
    hide WriteSlot;
    forall a, i | 0 <= a < |m| && 0 <= i < |m[a]|
      ensures m2[a][i] == m[a][i] || (m2[a][i] == x && a < base && WriteSlot(t, a, i))
    {
      assert m2[a][i] == m1[a][i] || m2[a][i] == x;
      assert m1[a][i] == m[a][i] || m1[a][i] == x;
    }
  }

  lemma WrittenSelf(m: Arrays, t: SliceTable, base: nat, x: string)
    ensures Written(m, m, t, base, x)
  {
  }

  lemma AppendWritten(g: Growth, m: Arrays, s: Slice, x: string, t: SliceTable, base: nat)
    requires SliceOk(m, s) && InTable(t, s) && s.arr < base <= |m|
    ensures Written(m, Appended(g, m, s, x).0, t, base, x)
  {
    hide InTable;
  }

  /** The slices of a row are of the table, and of arrays before base. */
  ghost predicate Old(t: SliceTable, base: nat, row: SliceRow) {
    forall s :: s in row ==> InTable(t, s) && s.arr < base
  }

  lemma {:induction false} JoinRowWritten(g: Growth, m: Arrays, row: SliceRow, y: nat, x: string, t: SliceTable, base: nat)
    requires RowFine(m, row) && y <= |row| && base <= |m| && Old(t, base, row)
    ensures Written(m, JoinRowFrom(g, m, row, y, x).0, t, base, x)
    decreases |row| - y
  {
    hide Written;
    if y < |row| {
      var m1 := Appended(g, m, row[y], x).0;
      assert row[y] in row;
      AppendWritten(g, m, row[y], x, t, base);
      JoinRowWritten(g, m1, row, y + 1, x, t, base);
      WrittenThen(m, m1, JoinRowFrom(g, m1, row, y + 1, x).0, t, base, x);
    } else {
      WrittenSelf(m, t, base, x);
    }
  }

  lemma {:induction false} JoinWritten(g: Growth, m: Arrays, rest: SliceTable, x: string, t: SliceTable, base: nat)
    requires Fine(m, rest) && base <= |m| && forall row :: row in rest ==> Old(t, base, row)
    ensures Written(m, JoinTable(g, m, rest, x).0, t, base, x)
    decreases |rest|
  {
    hide Written, Old;
    if rest != [] {
      assert rest[0] in rest && forall row :: row in rest[1..] ==> row in rest;
      var m1 := JoinRowFrom(g, m, rest[0], 0, x).0;
      FineMore(m, m1, rest[1..]);
      JoinRowWritten(g, m, rest[0], 0, x, t, base);
      JoinWritten(g, m1, rest[1..], x, t, base);
      WrittenThen(m, m1, JoinTable(g, m1, rest[1..], x).0, t, base, x);
    } else {
      WrittenSelf(m, t, base, x);
    }
  }

  // ---------------------------------------------------------------- slices that keep their contents

  /** Slices of the table that share an array have the same length. */
  ghost predicate NoOverlap(t: SliceTable) {
    forall s, s' :: InTable(t, s) && InTable(t, s') && s.arr == s'.arr ==> s.len == s'.len
  }

  /** No write of x for table t can change what the slice shows. */
  ghost predicate Settled(m: Arrays, t: SliceTable, base: nat, x: string, s: Slice) {
    && SliceOk(m, s)
    && (s.arr < base ==> forall i :: 0 <= i < s.len && WriteSlot(t, s.arr, i) ==> m[s.arr][i] == x)
  }

  lemma SettledKept(m: Arrays, m': Arrays, t: SliceTable, base: nat, x: string, s: Slice)
    requires Written(m, m', t, base, x) && Settled(m, t, base, x, s)
    ensures Settled(m', t, base, x, s) && Content(m', s) == Content(m, s)
  {
    hide WriteSlot;
    forall i | 0 <= i < s.len ensures m'[s.arr][i] == m[s.arr][i] {
    }
  }

  lemma OldSettled(m: Arrays, t: SliceTable, base: nat, x: string, s: Slice)
    requires NoOverlap(t) && InTable(t, s) && SliceOk(m, s)
    ensures Settled(m, t, base, x, s)
  {
  }

  lemma AppendSettled(g: Growth, m: Arrays, t: SliceTable, base: nat, x: string, s: Slice)
    requires NoOverlap(t) && InTable(t, s) && SliceOk(m, s) && s.arr < base <= |m|
    ensures var (m', s') := Appended(g, m, s, x);
      Settled(m', t, base, x, s') && Content(m', s') == Content(m, s) + [x]
  {
    hide InTable;
    OldSettled(m, t, base, x, s);
  }

  ghost predicate RowSettled(m: Arrays, t: SliceTable, base: nat, x: string, row: SliceRow) {
    forall s :: s in row ==> Settled(m, t, base, x, s)
  }

  lemma RowKept(m: Arrays, m': Arrays, t: SliceTable, base: nat, x: string, row: SliceRow)
    requires Written(m, m', t, base, x) && RowSettled(m, t, base, x, row)
    ensures RowSettled(m', t, base, x, row) && RowFine(m, row) && RowFine(m', row)
    ensures ViewRow(m', row) == ViewRow(m, row)
  {
    hide Written, Settled, Content;
    forall s | s in row ensures Settled(m', t, base, x, s) && SliceOk(m, s) && SliceOk(m', s) && Content(m', s) == Content(m, s) {
      SettledOk(m, t, base, x, s);
      SettledKept(m, m', t, base, x, s);
      SettledOk(m', t, base, x, s);
    }
  }

  lemma SettledOk(m: Arrays, t: SliceTable, base: nat, x: string, s: Slice)
    requires Settled(m, t, base, x, s)
    ensures SliceOk(m, s)
  {
  }

  // ---------------------------------------------------------------- joining without overlap

  lemma OldRowSettled(m: Arrays, t: SliceTable, base: nat, x: string, row: SliceRow)
    requires NoOverlap(t) && Old(t, base, row) && RowFine(m, row)
    ensures RowSettled(m, t, base, x, row)
  {
    hide NoOverlap, Settled;
    forall s | s in row ensures Settled(m, t, base, x, s) {
      OldSettled(m, t, base, x, s);
    }
  }

  /** The first row made: one block has one element more. */
  lemma FirstJoined(g: Growth, m: Arrays, row: SliceRow, y: nat, x: string, t: SliceTable, base: nat)
    requires RowFine(m, row) && y < |row| && base <= |m| && Old(t, base, row) && NoOverlap(t)
    ensures var (m1, s) := Appended(g, m, row[y], x);
      && RowSettled(m1, t, base, x, row[y := s]) && RowFine(m1, row[y := s])
      && ViewRow(m1, row[y := s]) == JoinAt(ViewRow(m, row), y, x)
      && RowFine(m1, row) && ViewRow(m1, row) == ViewRow(m, row)
  {
    hide Written, Settled, NoOverlap, Content;
    var (m1, s) := Appended(g, m, row[y], x);
    var made := row[y := s];
    assert row[y] in row;
    OldRowSettled(m, t, base, x, row);
    AppendWritten(g, m, row[y], x, t, base);
    RowKept(m, m1, t, base, x, row);
    AppendSettled(g, m, t, base, x, row[y]);
    forall q | q in made ensures Settled(m1, t, base, x, q) && SliceOk(m1, q) {
      assert q == s || q in row;
      SettledOk(m1, t, base, x, q);
    }
    assert forall z :: 0 <= z < |row| && z != y ==> Content(m1, row[z]) == ViewRow(m1, row)[z];
  }

  lemma BlockOk(m: Arrays, row: SliceRow, y: nat)
    requires RowFine(m, row) && y < |row|
    ensures SliceOk(m, row[y])
  {
  }

  lemma {:induction false} JoinRowView(g: Growth, m: Arrays, row: SliceRow, y: nat, x: string, t: SliceTable, base: nat)
    requires RowFine(m, row) && y <= |row| && base <= |m| && Old(t, base, row) && NoOverlap(t)
    ensures var (m', out) := JoinRowFrom(g, m, row, y, x);
      && (forall i :: 0 <= i < |out| ==> RowSettled(m', t, base, x, out[i]))
      && forall i :: 0 <= i < |out| ==> out[i] in out && ViewRow(m', out[i]) == JoinAt(ViewRow(m, row), y + i, x)
    decreases |row| - y
  {
    hide Written, RowSettled, NoOverlap, ViewRow, Old, RowFine;
    if y < |row| {
      BlockOk(m, row, y);
      var (m1, s) := Appended(g, m, row[y], x);
      FirstJoined(g, m, row, y, x, t, base);
      JoinRowView(g, m1, row, y + 1, x, t, base);
      var (m2, rest) := JoinRowFrom(g, m1, row, y + 1, x);
      JoinRowWritten(g, m1, row, y + 1, x, t, base);
      RowKept(m1, m2, t, base, x, row[y := s]);
      var out := [row[y := s]] + rest;
      assert forall i :: 0 < i < |out| ==> out[i] == rest[i - 1];
    }
  }

  /** Seen as values, joining does what it should. */
  lemma {:induction false} JoinView(g: Growth, m: Arrays, rest: SliceTable, x: string, t: SliceTable, base: nat)
    requires Fine(m, rest) && base <= |m| && NoOverlap(t) && forall row :: row in rest ==> Old(t, base, row)
    ensures var (m', out) := JoinTable(g, m, rest, x);
      && (forall i :: 0 <= i < |out| ==> RowSettled(m', t, base, x, out[i]))
      && View(m', out) == Join(View(m, rest), x)
    decreases |rest|
  {
    hide Written, RowSettled, NoOverlap, ViewRow, Old, RowFine, JoinRowFrom;
    if rest != [] {
      assert rest[0] in rest && forall row :: row in rest[1..] ==> row in rest;
      var (m1, a) := JoinRowFrom(g, m, rest[0], 0, x);
      FineMore(m, m1, rest[1..]);
      JoinRowView(g, m, rest[0], 0, x, t, base);
      JoinRowWritten(g, m, rest[0], 0, x, t, base);
      TableKeptOld(m, m1, rest[1..], t, base, x);
      JoinView(g, m1, rest[1..], x, t, base);
      var (m2, b) := JoinTable(g, m1, rest[1..], x);
      JoinWritten(g, m1, rest[1..], x, t, base);
      TableKept(m1, m2, a, t, base, x);
      JoinedViews(g, m, rest, x, m1, a, m2, b);
    }
  }

  lemma TableKeptOld(m: Arrays, m': Arrays, rest: SliceTable, t: SliceTable, base: nat, x: string)
    requires Written(m, m', t, base, x) && NoOverlap(t) && Fine(m, rest) && forall row :: row in rest ==> Old(t, base, row)
    ensures Fine(m', rest) && View(m', rest) == View(m, rest)
  {
    hide Written, RowSettled, NoOverlap, ViewRow, Old, RowFine;
    forall row | row in rest ensures RowSettled(m, t, base, x, row) {
      OldRowSettled(m, t, base, x, row);
    }
    TableKept(m, m', rest, t, base, x);
  }

  lemma TableKept(m: Arrays, m': Arrays, a: SliceTable, t: SliceTable, base: nat, x: string)
    requires Written(m, m', t, base, x) && forall row :: row in a ==> RowSettled(m, t, base, x, row)
    ensures Fine(m, a) && Fine(m', a) && View(m', a) == View(m, a)
    ensures forall row :: row in a ==> RowSettled(m', t, base, x, row)
  {
    hide Written, RowSettled, ViewRow, RowFine;
    forall row | row in a
      ensures RowSettled(m', t, base, x, row) && RowFine(m, row) && RowFine(m', row) && ViewRow(m', row) == ViewRow(m, row)
    {
      RowKept(m, m', t, base, x, row);
    }
  }

  lemma JoinedViews(g: Growth, m: Arrays, rest: SliceTable, x: string, m1: Arrays, a: SliceTable, m2: Arrays, b: SliceTable)
    requires rest != [] && Fine(m, rest) && Fine(m1, rest[1..]) && Fine(m1, a) && Fine(m2, a) && Fine(m2, b)
    requires rest[0] in rest && |a| == |rest[0]|
    requires forall i :: 0 <= i < |a| ==> a[i] in a && ViewRow(m1, a[i]) == JoinAt(ViewRow(m, rest[0]), i, x)
    requires View(m2, a) == View(m1, a) && View(m1, rest[1..]) == View(m, rest)[1..]
    requires View(m2, b) == Join(View(m1, rest[1..]), x)
    ensures Fine(m2, a + b) && View(m2, a + b) == Join(View(m, rest), x)
  {
    hide ViewRow, RowFine;
    FineConcat(m2, a, b);
    assert View(m2, a + b) == View(m2, a) + View(m2, b);
    assert View(m1, a) == JoinRow(View(m, rest)[0], x);
  }

  // ---------------------------------------------------------------- where the slices of a join come from

  /** The slice is p with one element more, in place or in a copy. */
  ghost predicate From(g: Growth, m: Arrays, base: nat, p: Slice, s: Slice) {
    && p.arr < base <= |m|
    && if p.len < |m[p.arr]| then s == Slice(p.arr, p.len + 1)
       else s.arr >= base && s.len == p.len + 1 && s.arr < |m| && |m[s.arr]| == g(p.len)
  }

  ghost predicate Origin(g: Growth, m: Arrays, t: SliceTable, base: nat, s: Slice) {
    (s.arr < base && InTable(t, s)) || exists p :: InTable(t, p) && From(g, m, base, p, s)
  }

  /** New arrays come from lo up to hi, and each of them is under one slice only. */
  ghost predicate OneEach(out: SliceTable, base: nat, lo: nat, hi: nat) {
    && (forall s :: InTable(out, s) ==> s.arr < base || lo <= s.arr < hi)
    && forall s, s' :: InTable(out, s) && InTable(out, s') && s.arr == s'.arr >= base ==> s == s'
  }

  ghost predicate Origins(g: Growth, m: Arrays, out: SliceTable, t: SliceTable, base: nat) {
    forall s :: InTable(out, s) ==> Origin(g, m, t, base, s)
  }

  lemma OriginLater(g: Growth, m: Arrays, m': Arrays, out: SliceTable, t: SliceTable, base: nat)
    requires Extends(m, m') && Origins(g, m, out, t, base)
    ensures Origins(g, m', out, t, base)
  {
    hide InTable;
    forall s | InTable(out, s) ensures Origin(g, m', t, base, s) {
      if !(s.arr < base && InTable(t, s)) {
        var p :| InTable(t, p) && From(g, m, base, p, s);
        assert From(g, m', base, p, s);
      }
    }
  }

  lemma InConcat(a: SliceTable, b: SliceTable, s: Slice)
    ensures InTable(a + b, s) <==> InTable(a, s) || InTable(b, s)
  {
    assert forall row :: row in a + b <==> row in a || row in b;
  }

  lemma OneEachConcat(a: SliceTable, b: SliceTable, base: nat, lo: nat, mid: nat, hi: nat)
    requires OneEach(a, base, lo, mid) && OneEach(b, base, mid, hi) && base <= lo <= mid <= hi
    ensures OneEach(a + b, base, lo, hi)
  {
    hide InTable;
    forall s ensures InTable(a + b, s) <==> InTable(a, s) || InTable(b, s) {
      InConcat(a, b, s);
    }
  }

  lemma OriginsConcat(g: Growth, m: Arrays, a: SliceTable, b: SliceTable, t: SliceTable, base: nat)
    requires Origins(g, m, a, t, base) && Origins(g, m, b, t, base)
    ensures Origins(g, m, a + b, t, base)
  {
    hide InTable, Origin;
    forall s ensures InTable(a + b, s) <==> InTable(a, s) || InTable(b, s) {
      InConcat(a, b, s);
    }
  }

  lemma FirstOrigin(g: Growth, m: Arrays, row: SliceRow, y: nat, x: string, t: SliceTable, base: nat)
    requires RowFine(m, row) && y < |row| && base <= |m| && Old(t, base, row)
    ensures var (m1, s) := Appended(g, m, row[y], x);
      Origins(g, m1, [row[y := s]], t, base) && OneEach([row[y := s]], base, |m|, |m1|)
  {
    var (m1, s) := Appended(g, m, row[y], x);
    var made := [row[y := s]];
    assert row[y] in row;
    assert From(g, m1, base, row[y], s);
    forall q | InTable(made, q) ensures Origin(g, m1, t, base, q) && (q in row || q == s) {
      assert q in row[y := s];
      assert q == s || q in row;
    }
  }

  lemma {:induction false} JoinRowOrigins(g: Growth, m: Arrays, row: SliceRow, y: nat, x: string, t: SliceTable, base: nat)
    requires RowFine(m, row) && y <= |row| && base <= |m| && Old(t, base, row)
    ensures var (m', out) := JoinRowFrom(g, m, row, y, x);
      Origins(g, m', out, t, base) && OneEach(out, base, |m|, |m'|)
    decreases |row| - y
  {
    hide Origins, OneEach, RowFine, Old;
    if y < |row| {
      BlockOk(m, row, y);
      var (m1, s) := Appended(g, m, row[y], x);
      FirstOrigin(g, m, row, y, x, t, base);
      RowMore(m, m1, row);
      JoinRowOrigins(g, m1, row, y + 1, x, t, base);
      var (m2, rest) := JoinRowFrom(g, m1, row, y + 1, x);
      OriginLater(g, m1, m2, [row[y := s]], t, base);
      OneEachConcat([row[y := s]], rest, base, |m|, |m1|, |m2|);
      OriginsConcat(g, m2, [row[y := s]], rest, t, base);
    } else {
      NoSlices(g, m, t, base);
    }
  }

  lemma RowMore(m: Arrays, m': Arrays, row: SliceRow)
    requires Extends(m, m') && RowFine(m, row)
    ensures RowFine(m', row)
  {
  }

  lemma NoSlices(g: Growth, m: Arrays, t: SliceTable, base: nat)
    ensures Origins(g, m, [], t, base) && OneEach([], base, |m|, |m|)
  {
  }

  lemma {:induction false} JoinOrigins(g: Growth, m: Arrays, rest: SliceTable, x: string, t: SliceTable, base: nat)
    requires Fine(m, rest) && base <= |m| && forall row :: row in rest ==> Old(t, base, row)
    ensures var (m', out) := JoinTable(g, m, rest, x);
      Origins(g, m', out, t, base) && OneEach(out, base, |m|, |m'|)
    decreases |rest|
  {
    hide Origins, OneEach, RowFine, Old;
    if rest != [] {
      assert rest[0] in rest && forall row :: row in rest[1..] ==> row in rest;
      var (m1, a) := JoinRowFrom(g, m, rest[0], 0, x);
      FineMore(m, m1, rest[1..]);
      JoinRowOrigins(g, m, rest[0], 0, x, t, base);
      JoinOrigins(g, m1, rest[1..], x, t, base);
      var (m2, b) := JoinTable(g, m1, rest[1..], x);
      OriginLater(g, m1, m2, a, t, base);
      OneEachConcat(a, b, base, |m|, |m1|, |m2|);
      OriginsConcat(g, m2, a, b, t, base);
    } else {
      NoSlices(g, m, t, base);
    }
  }

  // ---------------------------------------------------------------- tables with few elements more than blocks

  /** No block has spare capacity. */
  ghost predicate Full(m: Arrays, t: SliceTable)
    requires Fine(m, t)
  {
    forall s :: InTable(t, s) ==> SliceOk(m, s) && s.len == |m[s.arr]|
  }

  ghost predicate AllSingle(t: SliceTable) {
    forall s :: InTable(t, s) ==> s.len == 1
  }

  lemma AllOld(m: Arrays, t: SliceTable)
    requires Fine(m, t)
    ensures forall row :: row in t ==> Old(t, |m|, row)
  {
    forall row, s | row in t && s in row ensures InTable(t, s) && s.arr < |m| {
      assert SliceOk(m, s);
    }
  }

  /** Joining full blocks copies each of them, so no two of different lengths share an array. */
  lemma FullJoins(g: Growth, m: Arrays, t: SliceTable, x: string)
    requires Fine(m, t) && Full(m, t)
    ensures var (m', j) := JoinTable(g, m, t, x);
      NoOverlap(j) && (AllSingle(t) ==> Full(m', j))
  {
    hide InTable;
    AllOld(m, t);
    JoinOrigins(g, m, t, x, t, |m|);
    var (m', j) := JoinTable(g, m, t, x);
    forall s | InTable(j, s) ensures if s.arr < |m| then InTable(t, s) && s.len == |m[s.arr]| else Copied(g, m', t, s) {
      CopiedOrOld(g, m, m', t, s);
    }
    forall s, s' | InTable(j, s) && InTable(j, s') && s.arr == s'.arr ensures s.len == s'.len {
    }
    if AllSingle(t) {
      forall s | InTable(j, s) ensures SliceOk(m', s) && s.len == |m'[s.arr]| {
        SliceFine(m', j, s);
      }
    }
  }

  ghost predicate Copied(g: Growth, m: Arrays, t: SliceTable, s: Slice) {
    s.arr < |m| && exists p :: InTable(t, p) && s.len == p.len + 1 && |m[s.arr]| == g(p.len)
  }

  lemma CopiedOrOld(g: Growth, m: Arrays, m': Arrays, t: SliceTable, s: Slice)
    requires Fine(m, t) && Full(m, t) && Extends(m, m') && Origin(g, m', t, |m|, s)
    ensures if s.arr < |m| then InTable(t, s) && s.len == |m[s.arr]| else Copied(g, m', t, s)
  {
    hide InTable;
    if !(s.arr < |m| && InTable(t, s)) {
      var p :| InTable(t, p) && From(g, m', |m|, p, s);
    }
  }

  lemma SliceFine(m: Arrays, t: SliceTable, s: Slice)
    requires Fine(m, t) && InTable(t, s)
    ensures SliceOk(m, s)
  {
  }

  // ---------------------------------------------------------------- tables that are right

  /** The parts of one step of Partition, for more elements than blocks. */
  datatype Parts = Parts(m1: Arrays, t: SliceTable, m2: Arrays, j: SliceTable, m3: Arrays, u: SliceTable,
                         m4: Arrays, w: SliceTable)

  ghost predicate StepParts(g: Growth, m: Arrays, ss: seq<string>, k: nat, p: Parts)
    requires 1 < k < |ss|
  {
    && (p.m1, p.t) == Enumerated(g, m, ss[1..], k)
    && (p.m2, p.j) == JoinTable(g, p.m1, p.t, ss[0])
    && (p.m3, p.u) == Enumerated(g, p.m2, ss[1..], k - 1)
    && (p.m4, p.w) == BlocksMade(p.m3, p.u, ss[0])
  }

  lemma EnumeratedEnds(g: Growth, m: Arrays, ss: seq<string>, k: nat)
    requires k == 1 || 1 <= k == |ss|
    ensures k == 1 ==> Enumerated(g, m, ss, k) == (m + [ss], [[Slice(|m|, |ss|)]])
    ensures k > 1 ==> Enumerated(g, m, ss, k) == (SinglesMade(m, ss).0, [SinglesMade(m, ss).1])
  {
  }

  lemma StepMade(g: Growth, m: Arrays, ss: seq<string>, k: nat) returns (p: Parts)
    requires 1 < k < |ss|
    ensures StepParts(g, m, ss, k, p) && Enumerated(g, m, ss, k) == (p.m4, p.j + p.w)
    ensures m <= p.m1 && |p.m1| <= |p.m2| && p.m2 <= p.m3 <= p.m4
    ensures Fine(p.m1, p.t) && Fine(p.m2, p.j) && Fine(p.m3, p.u) && Fine(p.m4, p.w) && Fine(p.m4, p.j)
    ensures Between(p.j, 0, |p.m2|) && Between(p.u, |p.m2|, |p.m3|) && Between(p.w, |p.m2|, |p.m4|)
  {
    var (m1, t) := Enumerated(g, m, ss[1..], k);
    var (m2, j) := JoinTable(g, m1, t, ss[0]);
    JoinKeeps(g, m1, t, ss[0], |m|);
    var (m3, u) := Enumerated(g, m2, ss[1..], k - 1);
    var (m4, w) := BlocksMade(m3, u, ss[0]);
    TwoTables(m, m2, j, m3, u, m4, w, ss[0]);
    PrefixExtends(m2, m4);
    FineMore(m2, m4, j);
    p := Parts(m1, t, m2, j, m3, u, m4, w);
  }

  lemma FullConcat(m: Arrays, m': Arrays, a: SliceTable, b: SliceTable)
    requires m <= m' && Fine(m, a) && Full(m, a) && Fine(m', b) && Full(m', b)
    ensures Fine(m', a + b) && Full(m', a + b)
  {
    hide InTable;
    PrefixExtends(m, m');
    FineMore(m, m', a);
    FineConcat(m', a, b);
    forall s | InTable(a + b, s) ensures SliceOk(m', s) && s.len == |m'[s.arr]| {
      InConcat(a, b, s);
    }
  }

  lemma InBlocks(lo: nat, u: SliceTable, s: Slice)
    requires InTable(BlocksRows(lo, u), s)
    ensures InTable(u, s) || (s.len == 1 && lo <= s.arr < lo + |u|)
  {
    var r := BlocksRows(lo, u);
    var row :| row in r && s in row;
    var i :| 0 <= i < |r| && r[i] == row;
    assert u[i] in u;
  }

  lemma BlocksFull(m: Arrays, u: SliceTable, x: string)
    requires Fine(m, u) && Full(m, u)
    ensures var (m', w) := BlocksMade(m, u, x); Full(m', w)
  {
    hide InTable;
    var (m', w) := BlocksMade(m, u, x);
    forall s | InTable(w, s) ensures SliceOk(m', s) && s.len == |m'[s.arr]| {
      InBlocks(|m|, u, s);
    }
  }

  lemma SinglesFull(m: Arrays, ss: seq<string>)
    ensures var (m', row) := SinglesMade(m, ss);
      Full(m', [row]) && AllSingle([row]) && NoOverlap([row])
  {
  }

  /** As many elements as blocks, or one more: nothing has spare capacity. */
  lemma {:induction false} EnumeratedFull(g: Growth, m: Arrays, ss: seq<string>, k: nat)
    requires k == 1 || 1 <= k <= |ss| <= k + 1
    ensures var (m', r) := Enumerated(g, m, ss, k); Full(m', r)
    decreases |ss|
  {
    hide Full, AllSingle, NoOverlap, Enumerated, JoinTable, BlocksMade, SinglesMade, Fine, Between;
    if k == 1 {
      EnumeratedEnds(g, m, ss, k);
      OneFull(m, ss);
    } else if k == |ss| {
      EnumeratedEnds(g, m, ss, k);
      SinglesFull(m, ss);
    } else {
      var p := StepMade(g, m, ss, k);
      EnumeratedEnds(g, m, ss[1..], k);
      SinglesFull(m, ss[1..]);
      FullJoins(g, p.m1, p.t, ss[0]);
      EnumeratedFull(g, p.m2, ss[1..], k - 1);
      BlocksFull(p.m3, p.u, ss[0]);
      FullConcat(p.m2, p.m4, p.j, p.w);
    }
  }

  lemma OneFull(m: Arrays, ss: seq<string>)
    ensures Fine(m + [ss], [[Slice(|m|, |ss|)]]) && Full(m + [ss], [[Slice(|m|, |ss|)]])
    ensures NoOverlap([[Slice(|m|, |ss|)]])
  {
  }

  lemma NoOverlapConcat(a: SliceTable, b: SliceTable, mid: nat, hi: nat)
    requires NoOverlap(a) && NoOverlap(b) && Between(a, 0, mid) && Between(b, mid, hi)
    ensures NoOverlap(a + b)
  {
    hide InTable;
    forall s ensures InTable(a + b, s) <==> InTable(a, s) || InTable(b, s) {
      InConcat(a, b, s);
    }
    forall s | InTable(a, s) ensures s.arr < mid {
      InBetween(a, 0, mid, s);
    }
    forall s | InTable(b, s) ensures s.arr >= mid {
      InBetween(b, mid, hi, s);
    }
  }

  lemma InBetween(t: SliceTable, lo: nat, hi: nat, s: Slice)
    requires Between(t, lo, hi) && InTable(t, s)
    ensures lo <= s.arr < hi
  {
  }

  lemma BlocksNoOverlap(m: Arrays, u: SliceTable, x: string)
    requires Fine(m, u) && NoOverlap(u)
    ensures NoOverlap(BlocksMade(m, u, x).1)
  {
    hide InTable;
    var w := BlocksRows(|m|, u);
    forall s | InTable(w, s) ensures (InTable(u, s) && s.arr < |m|) || (s.len == 1 && s.arr >= |m|) {
      InBlocks(|m|, u, s);
      if InTable(u, s) {
        SliceFine(m, u, s);
      }
    }
  }

  /** Up to two more elements than blocks: slices that share an array are equally long. */
  lemma {:induction false} EnumeratedNoOverlap(g: Growth, m: Arrays, ss: seq<string>, k: nat)
    requires k == 1 || 1 <= k <= |ss| <= k + 2
    ensures NoOverlap(Enumerated(g, m, ss, k).1)
    decreases |ss|
  {
    hide Full, AllSingle, NoOverlap, Enumerated, JoinTable, BlocksMade, SinglesMade, Fine, Between;
    if k == 1 {
      EnumeratedEnds(g, m, ss, k);
      OneFull(m, ss);
    } else if k == |ss| {
      EnumeratedEnds(g, m, ss, k);
      SinglesFull(m, ss);
    } else {
      var p := StepMade(g, m, ss, k);
      EnumeratedFull(g, m, ss[1..], k);
      FullJoins(g, p.m1, p.t, ss[0]);
      EnumeratedNoOverlap(g, p.m2, ss[1..], k - 1);
      BlocksNoOverlap(p.m3, p.u, ss[0]);
      NoOverlapConcat(p.j, p.w, |p.m2|, |p.m4|);
    }
  }

  lemma PrefixView(m: Arrays, m': Arrays, t: SliceTable)
    requires m <= m' && Fine(m, t)
    ensures Fine(m', t) && View(m', t) == View(m, t)
  {
    PrefixExtends(m, m');
    FineMore(m, m', t);
    forall i | 0 <= i < |t| ensures ViewRow(m', t[i]) == ViewRow(m, t[i]) {
      assert t[i] in t;
      PrefixRow(m, m', t[i]);
    }
  }

  lemma PrefixRow(m: Arrays, m': Arrays, row: SliceRow)
    requires m <= m' && RowFine(m, row)
    ensures RowFine(m', row) && ViewRow(m', row) == ViewRow(m, row)
  {
    forall y | 0 <= y < |row| ensures SliceOk(m', row[y]) && Content(m', row[y]) == Content(m, row[y]) {
      assert row[y] in row;
    }
  }

  lemma BlocksView(m: Arrays, u: SliceTable, x: string)
    requires Fine(m, u)
    ensures var (m', w) := BlocksMade(m, u, x); View(m', w) == WithBlock(View(m, u), x)
  {
    var (m', w) := BlocksMade(m, u, x);
    PrefixView(m, m', u);
    forall i | 0 <= i < |u| ensures ViewRow(m', w[i]) == View(m, u)[i] + [[x]] {
      assert u[i] in u && w[i] in w;
      assert View(m', u)[i] == ViewRow(m', u[i]);
      assert Content(m', Slice(|m| + i, 1)) == [x];
    }
  }

  lemma ViewConcat(m: Arrays, a: SliceTable, b: SliceTable)
    requires Fine(m, a) && Fine(m, b)
    ensures Fine(m, a + b) && View(m, a + b) == View(m, a) + View(m, b)
  {
    FineConcat(m, a, b);
  }

  lemma SinglesView(m: Arrays, ss: seq<string>)
    ensures var (m', row) := SinglesMade(m, ss); View(m', [row]) == [Singles(ss)]
  {
    var (m', row) := SinglesMade(m, ss);
    assert forall i :: 0 <= i < |ss| ==> Content(m', row[i]) == [ss[i]];
    assert ViewRow(m', row) == Singles(ss);
  }

  lemma OneView(m: Arrays, ss: seq<string>)
    ensures Fine(m + [ss], [[Slice(|m|, |ss|)]]) && View(m + [ss], [[Slice(|m|, |ss|)]]) == [[ss]]
  {
    assert Content(m + [ss], Slice(|m|, |ss|)) == ss;
    assert ViewRow(m + [ss], [Slice(|m|, |ss|)]) == [ss];
  }

  /** Up to three more elements than blocks: the table shows what the enumeration on values gives. */
  lemma {:induction false} EnumeratedRight(g: Growth, m: Arrays, ss: seq<string>, k: nat)
    requires k == 1 || 1 <= k <= |ss| <= k + 3
    ensures var (m', r) := Enumerated(g, m, ss, k); View(m', r) == Partitions(ss, k)
    decreases |ss|
  {
    hide Partitions, View, Join, WithBlock, NoOverlap, Fine, Old, Enumerated, JoinTable, BlocksMade, SinglesMade, Between;
    PartitionsCasesAll(ss, k);
    if k == 1 {
      EnumeratedEnds(g, m, ss, k);
      OneView(m, ss);
    } else if k == |ss| {
      EnumeratedEnds(g, m, ss, k);
      SinglesView(m, ss);
    } else {
      var p := StepMade(g, m, ss, k);
      EnumeratedRight(g, m, ss[1..], k);
      EnumeratedNoOverlap(g, m, ss[1..], k);
      AllOld(p.m1, p.t);
      JoinView(g, p.m1, p.t, ss[0], p.t, |p.m1|);
      PrefixView(p.m2, p.m4, p.j);
      EnumeratedRight(g, p.m2, ss[1..], k - 1);
      BlocksView(p.m3, p.u, ss[0]);
      ViewConcat(p.m4, p.j, p.w);
    }
  }

  lemma PartitionsCasesAll(ss: seq<string>, k: nat)
    requires k == 1 || 1 <= k <= |ss|
    ensures k == 1 ==> Partitions(ss, k) == [[ss]]
    ensures k == |ss| > 1 ==> Partitions(ss, k) == [Singles(ss)]
    ensures 1 < k < |ss| ==>
      Partitions(ss, k) == Join(Partitions(ss[1..], k), ss[0]) + WithBlock(Partitions(ss[1..], k - 1), ss[0])
  {
  }

  // ---------------------------------------------------------------- tables that are spoiled

  /** The first two rows made from a first row of two blocks or more, and the memory in between. */
  lemma TwoMade(g: Growth, m: Arrays, row: SliceRow, x: string)
    requires RowFine(m, row) && |row| >= 2
    ensures var (m1, s) := Appended(g, m, row[0], x);
      RowFine(m1, row) && SliceOk(m1, row[1])
      && var (m2, s') := Appended(g, m1, row[1], x);
      RowFine(m2, row)
      && var (m3, out) := JoinRowFrom(g, m, row, 0, x);
      |out| == |row| && out[0] == row[0 := s] && out[1] == row[1 := s'] && m3 == JoinRowFrom(g, m2, row, 2, x).0
  {
    BlockOk(m, row, 0);
    var (m1, s) := Appended(g, m, row[0], x);
    RowMore(m, m1, row);
    BlockOk(m1, row, 1);
    var (m2, s') := Appended(g, m1, row[1], x);
    RowMore(m1, m2, row);
    FromFirst(g, m, row, 0, x);
    FromFirst(g, m1, row, 1, x);
  }

  lemma FromFirst(g: Growth, m: Arrays, row: SliceRow, y: nat, x: string)
    requires RowFine(m, row) && y < |row|
    ensures SliceOk(m, row[y])
    ensures var (m1, s) := Appended(g, m, row[y], x);
      RowFine(m1, row)
      && var (m2, t) := JoinRowFrom(g, m1, row, y + 1, x);
      JoinRowFrom(g, m, row, y, x) == (m2, [row[y := s]] + t)
  {
  }

  lemma JoinRowEnd(g: Growth, m: Arrays, row: SliceRow, x: string)
    requires RowFine(m, row)
    ensures JoinRowFrom(g, m, row, |row|, x) == (m, [])
  {
  }

  lemma JoinNone(g: Growth, m: Arrays, t: SliceTable, x: string)
    requires t == []
    ensures Fine(m, t) && JoinTable(g, m, t, x) == (m, [])
  {
  }

  lemma JoinSplits(g: Growth, m: Arrays, t: SliceTable, x: string)
    requires Fine(m, t) && t != []
    ensures RowFine(m, t[0])
    ensures var (m1, a) := JoinRowFrom(g, m, t[0], 0, x);
      Fine(m1, t[1..])
      && var (m2, b) := JoinTable(g, m1, t[1..], x);
      JoinTable(g, m, t, x) == (m2, a + b)
  {
    assert t[0] in t;
    FineMore(m, JoinRowFrom(g, m, t[0], 0, x).0, t[1..]);
  }

  /** The block l elements long of the first row has capacity c, and the second block is a single one, and full. */
  ghost predicate Lead(m: Arrays, t: SliceTable, k: nat, l: nat, c: nat) {
    && Fine(m, t) && t != [] && |t[0]| == k >= 2
    && SliceOk(m, t[0][0]) && t[0][0].len == l && |m[t[0][0].arr]| == c
    && SliceOk(m, t[0][1]) && t[0][1].len == 1 && |m[t[0][1].arr]| == 1
  }

  ghost predicate FirstApart(t: SliceTable, a: nat) {
    t != [] && forall y :: 1 <= y < |t[0]| ==> t[0][y].arr != a
  }

  /** The first two rows of a join, and their memory afterwards. */
  lemma LeadJoined(g: Growth, m: Arrays, t: SliceTable, x: string, k: nat, l: nat, c: nat)
    requires Lead(m, t, k, l, c)
    ensures var (m', j) := JoinTable(g, m, t, x);
      && |j| >= 2 && |j[0]| == k && |j[1]| == k && SliceOk(m', j[0][0]) && SliceOk(m', j[1][1])
      && (l < c ==> j[0][0] == Slice(t[0][0].arr, l + 1) && |m'[j[0][0].arr]| == c)
      && (l == c ==> j[0][0] == Slice(|m|, l + 1) && |m'[|m|]| == g(l))
      && (forall y :: 1 <= y < k ==> j[0][y] == t[0][y])
      && j[1][0] == t[0][0] && j[1][1].len == 2 && j[1][1].arr >= |m|
      && m'[j[1][1].arr][1] == x
  {
    hide Fine, RowFine, InTable, Written, Old;
    JoinSplits(g, m, t, x);
    TwoMade(g, m, t[0], x);
    AllOld(m, t);
    var row := t[0];
    assert row in t;
    var (m1, s) := Appended(g, m, row[0], x);
    var (m2, s') := Appended(g, m1, row[1], x);
    var (m3, a) := JoinRowFrom(g, m, row, 0, x);
    var (m', b) := JoinTable(g, m3, t[1..], x);
    JoinRowWritten(g, m2, row, 2, x, t, |m|);
    JoinWritten(g, m3, t[1..], x, t, |m|);
    WrittenThen(m2, m3, m', t, |m|, x);
    NewKept(m2, m', t, |m|, x, s'.arr);
    ExtendsThen(m1, m2, m');
  }

  lemma ExtendsThen(m: Arrays, m1: Arrays, m2: Arrays)
    requires Extends(m, m1) && Extends(m1, m2)
    ensures Extends(m, m2)
  {
  }

  lemma NewKept(m: Arrays, m': Arrays, t: SliceTable, base: nat, x: string, a: nat)
    requires Written(m, m', t, base, x) && base <= a < |m|
    ensures m'[a] == m[a] && Extends(m, m')
  {
  }

  /** A fresh copy as the first block: no other block of the row is of its array. */
  ghost predicate FreshLead(m: Arrays, t: SliceTable, k: nat, l: nat, c: nat) {
    Lead(m, t, k, l, c) && FirstApart(t, t[0][0].arr)
  }

  lemma LeadStep(g: Growth, m: Arrays, t: SliceTable, x: string, k: nat, l: nat, c: nat)
    requires Lead(m, t, k, l, c) && l <= c
    ensures var (m', j) := JoinTable(g, m, t, x);
      && Lead(m', j, k, l + 1, if l < c then c else g(l))
      && (l == c ==> FirstApart(j, j[0][0].arr))
      && (l < c && FirstApart(t, t[0][0].arr) ==> FirstApart(j, j[0][0].arr))
  {
    hide Fine, RowFine;
    LeadJoined(g, m, t, x, k, l, c);
    var (m', j) := JoinTable(g, m, t, x);
    forall y | 1 <= y < k ensures l == c ==> j[0][y].arr != |m| {
      LeadOld(m, t, y);
    }
  }

  lemma LeadOld(m: Arrays, t: SliceTable, y: nat)
    requires Fine(m, t) && t != [] && y < |t[0]|
    ensures t[0][y].arr < |m|
  {
    assert t[0] in t && t[0][y] in t[0];
    assert SliceOk(m, t[0][y]);
  }

  /** The table in front of later rows, over more memory, leads the same way. */
  lemma LeadLifted(m: Arrays, m': Arrays, j: SliceTable, w: SliceTable, k: nat, l: nat, c: nat)
    requires Lead(m, j, k, l, c) && m <= m' && Fine(m', j + w)
    ensures Lead(m', j + w, k, l, c) && (j + w)[0] == j[0]
  {
    hide Fine, RowFine;
  }

  lemma LeadAtNone(g: Growth, m: Arrays, ss: seq<string>, k: nat)
    requires 2 <= k == |ss|
    ensures var (m', r) := Enumerated(g, m, ss, k); Lead(m', r, k, 1, 1)
  {
    EnumeratedEnds(g, m, ss, k);
  }

  lemma LeadAtOne(g: Growth, m: Arrays, ss: seq<string>, k: nat)
    requires 2 <= k && |ss| == k + 1
    ensures var (m', r) := Enumerated(g, m, ss, k); Lead(m', r, k, 2, 2)
  {
    hide Lead, Enumerated;
    var p := StepMade(g, m, ss, k);
    LeadAtNone(g, m, ss[1..], k);
    LeadStep(g, p.m1, p.t, ss[0], k, 1, 1);
    LeadLifted(p.m2, p.m4, p.j, p.w, k, 2, 2);
  }

  lemma LeadAtTwo(g: Growth, m: Arrays, ss: seq<string>, k: nat)
    requires 2 <= k && |ss| == k + 2
    ensures var (m', r) := Enumerated(g, m, ss, k); FreshLead(m', r, k, 3, 4)
  {
    hide Enumerated;
    var p := StepMade(g, m, ss, k);
    LeadAtOne(g, m, ss[1..], k);
    LeadStep(g, p.m1, p.t, ss[0], k, 2, 2);
    LeadLifted(p.m2, p.m4, p.j, p.w, k, 3, 4);
  }

  /** The first block is full, and a later row still has the shorter slice of its array. */
  ghost predicate SharedLead(m: Arrays, t: SliceTable, k: nat) {
    FreshLead(m, t, k, 4, 4) && |t| >= 2 && t[1] != [] && t[1][0] == Slice(t[0][0].arr, 3)
  }

  lemma LeadAtThree(g: Growth, m: Arrays, ss: seq<string>, k: nat)
    requires 2 <= k && |ss| == k + 3
    ensures var (m', r) := Enumerated(g, m, ss, k); SharedLead(m', r, k)
  {
    hide Enumerated;
    var p := StepMade(g, m, ss, k);
    LeadAtTwo(g, m, ss[1..], k);
    LeadStep(g, p.m1, p.t, ss[0], k, 3, 4);
    LeadJoined(g, p.m1, p.t, ss[0], k, 3, 4);
    LeadLifted(p.m2, p.m4, p.j, p.w, k, 4, 4);
  }

  // ---------------------------------------------------------------- the slot behind a shorter slice

  lemma {:induction false} SpareRowWritten(g: Growth, m: Arrays, row: SliceRow, y: nat, x: string, s: Slice,
                                           t: SliceTable, base: nat)
    requires RowFine(m, row) && y <= |row| && base <= |m| && Old(t, base, row)
    requires s in row[y..] && s.len < |m[s.arr]|
    ensures var m' := JoinRowFrom(g, m, row, y, x).0;
      Extends(m, m') && m'[s.arr][s.len] == x
    decreases |row| - y
  {
    hide Written, Old;
    FromFirst(g, m, row, y, x);
    var m1 := Appended(g, m, row[y], x).0;
    var m' := JoinRowFrom(g, m1, row, y + 1, x).0;
    if row[y] == s {
      JoinRowWritten(g, m1, row, y + 1, x, t, base);
      SlotStays(m1, m', t, base, x, s);
    } else {
      assert s in row[y + 1..] && s in row;
      SpareRowWritten(g, m1, row, y + 1, x, s, t, base);
    }
  }

  lemma SlotStays(m: Arrays, m': Arrays, t: SliceTable, base: nat, x: string, s: Slice)
    requires Written(m, m', t, base, x) && s.arr < |m| && s.len < |m[s.arr]| && m[s.arr][s.len] == x
    ensures Extends(m, m') && m'[s.arr][s.len] == x
  {
  }

  /** A join writes behind every slice with spare capacity. */
  lemma {:induction false} SpareWritten(g: Growth, m: Arrays, rest: SliceTable, x: string, s: Slice, t: SliceTable,
                                        base: nat)
    requires Fine(m, rest) && base <= |m| && forall row :: row in rest ==> Old(t, base, row)
    requires InTable(rest, s) && SliceOk(m, s) && s.len < |m[s.arr]|
    ensures var m' := JoinTable(g, m, rest, x).0;
      Extends(m, m') && m'[s.arr][s.len] == x
    decreases |rest|
  {
    hide Written, Old, RowFine;
    JoinSplits(g, m, rest, x);
    assert rest[0] in rest && forall row :: row in rest[1..] ==> row in rest;
    var m1 := JoinRowFrom(g, m, rest[0], 0, x).0;
    var m' := JoinTable(g, m1, rest[1..], x).0;
    if s in rest[0] {
      assert rest[0][0..] == rest[0];
      SpareRowWritten(g, m, rest[0], 0, x, s, t, base);
      JoinWritten(g, m1, rest[1..], x, t, base);
      SlotStays(m1, m', t, base, x, s);
    } else {
      InRest(rest, s);
      SpareWritten(g, m1, rest[1..], x, s, t, base);
    }
  }

  lemma InRest(rest: SliceTable, s: Slice)
    requires InTable(rest, s) && rest != [] && s !in rest[0]
    ensures InTable(rest[1..], s)
  {
    var row :| row in rest && s in row;
    assert row in rest[1..];
  }

  // ---------------------------------------------------------------- an element in two blocks

  /** The slice shows v at place i, and every slice of its array is longer than i: no join writes there. */
  ghost predicate HoldsAt(m: Arrays, t: SliceTable, s: Slice, v: string, i: nat) {
    && SliceOk(m, s) && i < s.len && m[s.arr][i] == v
    && forall q :: InTable(t, q) && q.arr == s.arr ==> q.len > i
  }

  /** Row r has v in its first two blocks, for good. */
  ghost predicate SpoiledAt(m: Arrays, t: SliceTable, r: nat, v: string, i: nat, j: nat) {
    && Fine(m, t) && r < |t| && |t[r]| >= 2
    && HoldsAt(m, t, t[r][0], v, i) && HoldsAt(m, t, t[r][1], v, j)
  }

  lemma SlotKept(m: Arrays, m': Arrays, t: SliceTable, base: nat, x: string, s: Slice, v: string, i: nat)
    requires Written(m, m', t, base, x) && SliceOk(m, s) && i < s.len && m[s.arr][i] == v
    requires forall q :: InTable(t, q) && q.arr == s.arr ==> q.len > i
    ensures SliceOk(m', s) && m'[s.arr][i] == v
  {
    hide InTable;
  }

  /** Joining keeps what a slice of the table holds, also when it has grown in place. */
  lemma HoldsJoined(g: Growth, m: Arrays, t: SliceTable, x: string, s: Slice, l: nat, v: string, i: nat)
    requires Fine(m, t) && HoldsAt(m, t, s, v, i) && s.len <= l <= |m[s.arr]|
    ensures var (m', j) := JoinTable(g, m, t, x);
      HoldsAt(m', j, Slice(s.arr, l), v, i)
  {
    hide Fine, InTable, Written, Origins, OneEach, Old;
    AllOld(m, t);
    var (m', j) := JoinTable(g, m, t, x);
    JoinWritten(g, m, t, x, t, |m|);
    SlotKept(m, m', t, |m|, x, s, v, i);
    JoinOrigins(g, m, t, x, t, |m|);
    forall q | InTable(j, q) && q.arr == s.arr ensures q.len > i {
      OldArray(g, m', j, t, |m|, q);
    }
  }

  lemma OldArray(g: Growth, m: Arrays, out: SliceTable, t: SliceTable, base: nat, q: Slice)
    requires Origins(g, m, out, t, base) && InTable(out, q) && q.arr < base
    ensures InTable(t, q) || (q.len > 0 && InTable(t, Slice(q.arr, q.len - 1)))
  {
    hide InTable;
    assert Origin(g, m, t, base, q);
    if !InTable(t, q) {
      var p :| InTable(t, p) && From(g, m, base, p, q);
      assert p == Slice(q.arr, q.len - 1);
    }
  }

  /** The first row made from row r, and the memory before and after its append. */
  lemma {:induction false} FirstChild(g: Growth, m: Arrays, rest: SliceTable, r: nat, x: string, t: SliceTable, base: nat)
    returns (ma: Arrays, n: nat)
    requires Fine(m, rest) && base <= |m| && forall row :: row in rest ==> Old(t, base, row)
    requires r < |rest| && rest[r] != []
    ensures Written(m, ma, t, base, x) && (r == 0 ==> ma == m) && SliceOk(ma, rest[r][0])
    ensures var (m', j) := JoinTable(g, m, rest, x);
      var (mb, s) := Appended(g, ma, rest[r][0], x);
      Written(mb, m', t, base, x) && n < |j| && j[n] == rest[r][0 := s]
    decreases |rest|
  {
    hide Written, Old, RowFine;
    JoinSplits(g, m, rest, x);
    assert rest[0] in rest && forall row :: row in rest[1..] ==> row in rest;
    var (m1, a) := JoinRowFrom(g, m, rest[0], 0, x);
    var (m', b) := JoinTable(g, m1, rest[1..], x);
    if r == 0 {
      ma, n := m, 0;
      WrittenSelf(m, t, base, x);
      FromFirst(g, m, rest[0], 0, x);
      var mb := Appended(g, m, rest[0][0], x).0;
      JoinRowWritten(g, mb, rest[0], 1, x, t, base);
      JoinWritten(g, m1, rest[1..], x, t, base);
      WrittenThen(mb, m1, m', t, base, x);
    } else {
      ma, n := FirstChild(g, m1, rest[1..], r - 1, x, t, base);
      JoinRowWritten(g, m, rest[0], 0, x, t, base);
      WrittenThen(m, m1, ma, t, base, x);
      n := |a| + n;
    }
  }

  lemma InJoined(j: SliceTable, n: nat, y: nat)
    requires n < |j| && y < |j[n]|
    ensures InTable(j, j[n][y])
  {
    assert j[n] in j && j[n][y] in j[n];
  }

  /** A copy in the joined table holds what was copied. */
  lemma CopyHolds(g: Growth, m: Arrays, t: SliceTable, x: string, mb: Arrays, c: Slice, v: string, i: nat)
    requires Fine(m, t) && |m| <= c.arr && SliceOk(mb, c) && i < c.len && mb[c.arr][i] == v
    requires var (m', j) := JoinTable(g, m, t, x); Written(mb, m', t, |m|, x) && InTable(j, c)
    ensures var (m', j) := JoinTable(g, m, t, x);
      HoldsAt(m', j, c, v, i)
  {
    hide Fine, InTable, Written, Origins, Old;
    AllOld(m, t);
    var (m', j) := JoinTable(g, m, t, x);
    JoinOrigins(g, m, t, x, t, |m|);
    NewKept(mb, m', t, |m|, x, c.arr);
  }

  /** The first row made from a spoiled row is spoiled. */
  lemma SpoiledJoined(g: Growth, m: Arrays, t: SliceTable, x: string, r: nat, v: string, i: nat, j: nat)
    returns (n: nat)
    requires SpoiledAt(m, t, r, v, i, j)
    ensures var (m', t') := JoinTable(g, m, t, x); SpoiledAt(m', t', n, v, i, j)
  {
    hide Fine, InTable, Written, Origins, Old, OneEach;
    AllOld(m, t);
    var (m', t') := JoinTable(g, m, t, x);
    var ma: Arrays;
    ma, n := FirstChild(g, m, t, r, x, t, |m|);
    var s := t[r][0];
    var (mb, c) := Appended(g, ma, s, x);
    SlotKept(m, ma, t, |m|, x, s, v, i);
    HoldsJoined(g, m, t, x, t[r][1], t[r][1].len, v, j);
    assert t'[n][1] == t[r][1] && t'[n][0] == c;
    if s.len < |ma[s.arr]| {
      WrittenMore(m, ma, t, |m|, x);
      HoldsJoined(g, m, t, x, s, s.len + 1, v, i);
    } else {
      WrittenMore(m, ma, t, |m|, x);
      InJoined(t', n, 0);
      CopyHolds(g, m, t, x, mb, c, v, i);
    }
  }

  lemma WrittenMore(m: Arrays, m': Arrays, t: SliceTable, base: nat, x: string)
    requires Written(m, m', t, base, x)
    ensures Extends(m, m')
  {
  }

  /** With the rows of the other tables behind it, a spoiled table is spoiled. */
  lemma SpoiledLifted(m: Arrays, m': Arrays, t: SliceTable, w: SliceTable, r: nat, v: string, i: nat, j: nat)
    requires SpoiledAt(m, t, r, v, i, j) && m <= m' && Fine(m', t + w) && Between(w, |m|, |m'|)
    ensures SpoiledAt(m', t + w, r, v, i, j)
  {
    hide Fine, InTable, Between;
    HoldsLifted(m, m', t, w, t[r][0], v, i);
    HoldsLifted(m, m', t, w, t[r][1], v, j);
  }

  lemma HoldsLifted(m: Arrays, m': Arrays, t: SliceTable, w: SliceTable, s: Slice, v: string, i: nat)
    requires HoldsAt(m, t, s, v, i) && m <= m' && Between(w, |m|, |m'|)
    ensures HoldsAt(m', t + w, s, v, i)
  {
    hide InTable, Between;
    forall q | InTable(t + w, q) && q.arr == s.arr ensures q.len > i {
      InConcat(t, w, q);
      if InTable(w, q) {
        InBetween(w, |m|, |m'|, q);
        assert false;
      }
    }
  }

  // ---------------------------------------------------------------- four more elements than blocks

  /** The second row has x at the end of a full block of four, and for good in its second block. */
  ghost predicate Crossed(m: Arrays, t: SliceTable, x: string) {
    && Fine(m, t) && |t| >= 2 && |t[1]| >= 2
    && (forall y :: 0 <= y < |t[0]| ==> t[0][y].arr != t[1][0].arr)
    && SliceOk(m, t[1][0]) && t[1][0].len == 4 == |m[t[1][0].arr]| && m[t[1][0].arr][3] == x
    && HoldsAt(m, t, t[1][1], x, 1)
  }

  lemma CrossedJoined(g: Growth, m: Arrays, t: SliceTable, x: string, k: nat)
    requires SharedLead(m, t, k)
    ensures var (m', j) := JoinTable(g, m, t, x); Crossed(m', j, x)
  {
    hide Fine, RowFine, InTable, Written, Old, OneEach, Origins;
    var (m', j) := JoinTable(g, m, t, x);
    var s := t[1][0];
    LeadJoined(g, m, t, x, k, 4, 4);
    AllOld(m, t);
    InJoined(t, 1, 0);
    SliceFine(m, t, s);
    SpareWritten(g, m, t, x, s, t, |m|);
    InJoined(j, 1, 1);
    SliceFine(m', j, j[1][1]);
    WrittenSelf(m', t, |m|, x);
    CopyHolds(g, m, t, x, m', j[1][1], x, 1);
  }

  lemma CrossedLifted(m: Arrays, m': Arrays, j: SliceTable, w: SliceTable, x: string)
    requires Crossed(m, j, x) && m <= m' && Fine(m', j + w) && Between(w, |m|, |m'|)
    ensures Crossed(m', j + w, x)
  {
    hide Fine, InTable, Between, HoldsAt;
    HoldsLifted(m, m', j, w, j[1][1], x, 1);
  }

  /** The full block of the second row is copied before anything else is written into its array. */
  lemma CrossedSpoils(g: Growth, m: Arrays, t: SliceTable, x: string, e: string)
    returns (n: nat)
    requires Crossed(m, t, x)
    ensures var (m', t') := JoinTable(g, m, t, e); SpoiledAt(m', t', n, x, 3, 1)
  {
    hide Fine, RowFine, InTable, Written, Old, OneEach, Origins;
    var (m', t') := JoinTable(g, m, t, e);
    var s := t[1][0];
    AllOld(m, t);
    JoinSplits(g, m, t, e);
    FirstRowOnly(g, m, t, e, s);
    assert forall row :: row in t[1..] ==> row in t;
    var (m1, a) := JoinRowFrom(g, m, t[0], 0, e);
    var ma: Arrays;
    ma, n := FirstChild(g, m1, t[1..], 0, e, t, |m|);
    n := |a| + n;
    var (mb, c) := Appended(g, ma, s, e);
    HoldsJoined(g, m, t, e, t[1][1], t[1][1].len, x, 1);
    assert t'[n] == t[1][0 := c];
    InJoined(t', n, 0);
    CopyHolds(g, m, t, e, mb, c, x, 3);
  }

  /** Joining the first row leaves an array alone of which that row has no slice. */
  lemma FirstRowOnly(g: Growth, m: Arrays, t: SliceTable, e: string, s: Slice)
    requires Fine(m, t) && t != [] && SliceOk(m, s) && forall y :: 0 <= y < |t[0]| ==> t[0][y].arr != s.arr
    ensures RowFine(m, t[0])
    ensures var m1 := JoinRowFrom(g, m, t[0], 0, e).0; Extends(m, m1) && m1[s.arr] == m[s.arr]
  {
    var one := [t[0]];
    assert t[0] in t;
    AllOld(m, one);
    assert t[0] in one;
    var m1 := JoinRowFrom(g, m, t[0], 0, e).0;
    JoinRowWritten(g, m, t[0], 0, e, one, |m|);
    forall i | 0 <= i < |m[s.arr]| ensures m1[s.arr][i] == m[s.arr][i] {
      assert !WriteSlot(one, s.arr, i);
    }
  }

  lemma CrossedAtFour(g: Growth, m: Arrays, ss: seq<string>, k: nat)
    requires 2 <= k && |ss| == k + 4
    ensures var (m', r) := Enumerated(g, m, ss, k); Crossed(m', r, ss[0])
  {
    hide Enumerated, Fine, Crossed, SharedLead;
    var p := StepMade(g, m, ss, k);
    LeadAtThree(g, m, ss[1..], k);
    CrossedJoined(g, p.m1, p.t, ss[0], k);
    CrossedLifted(p.m2, p.m4, p.j, p.w, ss[0]);
  }

  /** From five more elements than blocks on, some row has an element twice, in a way that later joins keep. */
  lemma {:induction false} SpoiledAtFive(g: Growth, m: Arrays, ss: seq<string>, k: nat)
    returns (r: nat, v: string)
    requires 2 <= k && |ss| >= k + 5
    ensures var (m', t) := Enumerated(g, m, ss, k); SpoiledAt(m', t, r, v, 3, 1)
    decreases |ss|
  {
    hide Enumerated, Fine, Crossed, SpoiledAt;
    var p := StepMade(g, m, ss, k);
    if |ss| == k + 5 {
      CrossedAtFour(g, m, ss[1..], k);
      v := ss[1];
      r := CrossedSpoils(g, p.m1, p.t, v, ss[0]);
    } else {
      r, v := SpoiledAtFive(g, m, ss[1..], k);
      r := SpoiledJoined(g, p.m1, p.t, ss[0], r, v, 3, 1);
    }
    SpoiledLifted(p.m2, p.m4, p.j, p.w, r, v, 3, 1);
  }

  // ---------------------------------------------------------------- when the table is right

  /** Some row shows v in two blocks. */
  ghost predicate Doubled(m: Arrays, t: SliceTable, r: nat, v: string)
    requires Fine(m, t)
  {
    && r < |t| && |t[r]| >= 2 && v in View(m, t)[r][0] && v in View(m, t)[r][1]
  }

  lemma DoubledWrong(m: Arrays, t: SliceTable, r: nat, v: string, S: set<string>, k: nat)
    requires Fine(m, t) && Doubled(m, t, r, v)
    ensures !Sound(View(m, t), S, k)
  {
    var row := View(m, t)[r];
    assert row in View(m, t);
    assert v in Elems(row[0]) && v in Elems(row[1]);
  }

  lemma ShownAt(m: Arrays, t: SliceTable, r: nat, y: nat, i: nat)
    requires Fine(m, t) && r < |t| && y < |t[r]| && i < t[r][y].len
    ensures SliceOk(m, t[r][y]) && m[t[r][y].arr][i] in View(m, t)[r][y]
  {
    assert t[r] in t && t[r][y] in t[r];
    assert SliceOk(m, t[r][y]);
    assert Content(m, t[r][y])[i] == m[t[r][y].arr][i];
    assert View(m, t)[r][y] == Content(m, t[r][y]);
  }

  /** Four more elements than blocks or more: some row shows an element in two blocks. */
  lemma EnumeratedDoubles(g: Growth, m: Arrays, ss: seq<string>, k: nat)
    returns (r: nat, v: string)
    requires 2 <= k && |ss| >= k + 4
    ensures var (m', t) := Enumerated(g, m, ss, k); Doubled(m', t, r, v)
    ensures |ss| == k + 4 ==> r == 1 && v == ss[0]
  {
    hide Enumerated, Fine, View, InTable;
    var (m', t) := Enumerated(g, m, ss, k);
    r, v := 1, ss[0];
    if |ss| == k + 4 {
      CrossedAtFour(g, m, ss, k);
    } else {
      r, v := SpoiledAtFive(g, m, ss, k);
    }
    ShownAt(m', t, r, 0, 3);
    ShownAt(m', t, r, 1, 1);
  }

  // ---------------------------------------------------------------- as many rows, so a wrong one leaves a split out

  /** As many rows, and as many blocks in each. */
  ghost predicate SameShape(t: SliceTable, v: Table) {
    |t| == |v| && forall i :: 0 <= i < |t| ==> |t[i]| == |v[i]|
  }

  lemma {:induction false} JoinShape(g: Growth, m: Arrays, t: SliceTable, x: string, v: Table)
    requires Fine(m, t) && SameShape(t, v)
    ensures SameShape(JoinTable(g, m, t, x).1, Join(v, x))
    decreases |t|
  {
    if t != [] {
      JoinSplits(g, m, t, x);
      var m1 := JoinRowFrom(g, m, t[0], 0, x).0;
      JoinShape(g, m1, t[1..], x, v[1..]);
    }
  }

  lemma {:induction false} EnumeratedShape(g: Growth, m: Arrays, ss: seq<string>, k: nat)
    requires k == 1 || 1 <= k <= |ss|
    ensures SameShape(Enumerated(g, m, ss, k).1, Partitions(ss, k))
    decreases |ss|
  {
    hide Partitions, Join, Fine, Enumerated, JoinTable, Between;
    PartitionsCasesAll(ss, k);
    if k == 1 || k == |ss| {
      EnumeratedEnds(g, m, ss, k);
    } else {
      var p := StepMade(g, m, ss, k);
      EnumeratedShape(g, m, ss[1..], k);
      JoinShape(g, p.m1, p.t, ss[0], Partitions(ss[1..], k));
      EnumeratedShape(g, p.m2, ss[1..], k - 1);
      assert forall i :: 0 <= i < |p.w| ==> |p.w[i]| == |p.u[i]| + 1;
    }
  }

  /** The splits that the rows of a table are, up to order. */
  ghost function Kinds(t: Table): set<set<set<string>>> {
    set row | row in t :: Blocks(row)
  }

  lemma {:induction false} KindsCount(t: Table)
    ensures |Kinds(t)| <= |t| && (NoRepeat(t) ==> |Kinds(t)| == |t|)
  {
    hide Blocks;
    if t != [] {
      KindsCount(t[1..]);
      assert forall row :: row in t <==> row == t[0] || row in t[1..];
      assert Kinds(t) == Kinds(t[1..]) + {Blocks(t[0])};
      if NoRepeat(t) {
        assert NoRepeat(t[1..]);
        forall row | row in t[1..] ensures Blocks(row) != Blocks(t[0]) {
          var i :| 0 <= i < |t[1..]| && t[1..][i] == row;
          assert row == t[i + 1];
        }
      }
    }
  }

  lemma {:induction false} AtMostBlocks(row: Row)
    ensures |Blocks(row)| <= |row|
  {
    if row != [] {
      AtMostBlocks(row[1..]);
      assert forall b :: b in row <==> b == row[0] || b in row[1..];
      assert Blocks(row) == Blocks(row[1..]) + {Elems(row[0])};
    }
  }

  /** A row with an element in two blocks is no split into as many blocks as it has. */
  lemma DoubledNoSplit(row: Row, v: string, S: set<string>)
    requires |row| >= 2 && v in row[0] && v in row[1]
    ensures !(Splits(Blocks(row), S) && |Blocks(row)| == |row|)
  {
    BlockIn(row, 0);
    BlockIn(row, 1);
    assert v in Elems(row[0]) && v in Elems(row[1]);
    if Elems(row[0]) == Elems(row[1]) {
      AtMostBlocks(row[1..]);
      assert forall b :: b in row <==> b == row[0] || b in row[1..];
      BlockIn(row[1..], 0);
      assert Blocks(row) == Blocks(row[1..]);
    }
  }

  /** A table with as many rows as the right one, one of them wrong, does not list every split. */
  lemma WrongMisses(v: Table, u: Table, r: nat, S: set<string>, k: nat)
    requires Correct(u, S, k) && |v| == |u| && r < |v| && !(Splits(Blocks(v[r]), S) && |Blocks(v[r])| == k)
    ensures !Complete(v, S, k)
  {
    hide Blocks, Splits, RowOk;
    if Complete(v, S, k) {
      KindsCount(v);
      KindsCount(u);
      forall row | row in u ensures Splits(Blocks(row), S) && |Blocks(row)| == k && Blocks(row) in Kinds(v) {
        RowSplits(row, S);
        assert Listed(v, Blocks(row));
      }
      assert v[r] in v && Blocks(v[r]) in Kinds(v) && Blocks(v[r]) !in Kinds(u);
      assert Kinds(u) <= Kinds(v) - {Blocks(v[r])};
      Larger(Kinds(u), Kinds(v) - {Blocks(v[r])});
    }
  }

  lemma Larger(a: set<set<set<string>>>, b: set<set<set<string>>>)
    requires a <= b
    ensures |a| <= |b|
  {
    assert b == a + (b - a);
  }

  /** Four more elements than blocks or more: some row is no split, and some split is no row. */
  lemma EnumeratedWrong(g: Growth, m: Arrays, ss: seq<string>, k: nat)
    requires 2 <= k && |ss| >= k + 4 && NoDup(ss)
    ensures var (m', t) := Enumerated(g, m, ss, k);
      !Sound(View(m', t), Elems(ss), k) && !Complete(View(m', t), Elems(ss), k)
  {
    hide Enumerated, Fine, Sound, InTable, Partitions, Elems, Complete, NoDup, Splits, Blocks;
    var (m', t) := Enumerated(g, m, ss, k);
    var r, v := EnumeratedDoubles(g, m, ss, k);
    DoubledWrong(m', t, r, v, Elems(ss), k);
    DoubledNoSplit(View(m', t)[r], v, Elems(ss));
    EnumeratedShape(g, m, ss, k);
    PartitionsWidth(ss, k);
    assert Partitions(ss, k)[r] in Partitions(ss, k);
    PartitionsCorrect(ss, k);
    WrongMisses(View(m', t), Partitions(ss, k), r, Elems(ss), k);
  }

  /**
   Every row is a way to split the elements into k blocks, every way is a row, and no two rows are the same: all of
   this for one block or at most k + 3 elements, and otherwise neither the first nor the second.
   */
  lemma PartitionExact(g: Growth, m: Arrays, ss: seq<string>, k: nat)
    requires 1 <= k <= |ss| && NoDup(ss)
    ensures var (m', t) := Enumerated(g, m, ss, k);
      var right := k == 1 || |ss| <= k + 3;
      && (Correct(View(m', t), Elems(ss), k) <==> right)
      && (Sound(View(m', t), Elems(ss), k) <==> right)
      && (Complete(View(m', t), Elems(ss), k) <==> right)
  {
    hide Enumerated, View, Sound, NoRepeat, Complete, Elems, NoDup;
    if k == 1 || |ss| <= k + 3 {
      EnumeratedRight(g, m, ss, k);
      PartitionsCorrect(ss, k);
    } else {
      EnumeratedWrong(g, m, ss, k);
    }
  }

  /** Whether right or not, the table has as many rows as the Stirling number says. */
  lemma EnumeratedCount(g: Growth, m: Arrays, ss: seq<string>, k: nat)
    requires 1 <= k <= |ss|
    ensures |Enumerated(g, m, ss, k).1| == Stirling.S2(|ss|, k)
  {
    hide Enumerated, Partitions;
    EnumeratedShape(g, m, ss, k);
    PartitionsCount(ss, k);
  }

  /** Six elements in two blocks: in the second row "a" is in both blocks, so a split is not listed. */
  lemma SixInTwo(g: Growth, m: Arrays)
    ensures var ss := ["a", "b", "c", "d", "e", "f"];
      var (m', t) := Enumerated(g, m, ss, 2);
      && |t| > 1 && |t[1]| == 2 && "a" in View(m', t)[1][0] && "a" in View(m', t)[1][1]
      && !Complete(View(m', t), Elems(ss), 2)
  {
    hide Enumerated, View, Partitions, Complete;
    var ss := ["a", "b", "c", "d", "e", "f"];
    var r, v := EnumeratedDoubles(g, m, ss, 2);
    EnumeratedShape(g, m, ss, 2);
    PartitionsWidth(ss, 2);
    assert Partitions(ss, 2)[1] in Partitions(ss, 2);
    EnumeratedWrong(g, m, ss, 2);
  }
}
