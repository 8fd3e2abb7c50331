/**
 The methods of lib/strings/table.go, with blocks as slices of arrays that a Memory holds. Each is tied to its function
 in partition_slices.dfy.
 */
module PartitionObjects {
  import opened Lists
  import opened Partition
  import opened PartitionSlices
  import Stirling

  /** The arrays that slices refer to, and how append grows them. */
  class Memory {
    const growth: Growth
    var arrays: Arrays

    constructor (growth: Growth)
      ensures this.growth == growth && arrays == []
    {
      this.growth := growth;
      arrays := [];
    }

    /** A slice of a new array that it fills. */
    method Make(block: seq<string>) returns (s: Slice)
      modifies this
      ensures arrays == old(arrays) + [block] && s == Slice(|old(arrays)|, |block|)
    {
      s := Slice(|arrays|, |block|);
      arrays := arrays + [block];
    }

    /** append: in place while the array has room behind the slice, and else into a copy. */
    method Append(s: Slice, x: string) returns (r: Slice)
      requires SliceOk(arrays, s)
      modifies this
      ensures (arrays, r) == Appended(growth, old(arrays), s, x)
    {
      r := Slice(s.arr, s.len + 1);
      if s.len < |arrays[s.arr]| {
        arrays := arrays[s.arr := arrays[s.arr][s.len := x]];
      } else {
        var spare := growth(s.len) - s.len - 1;
        r := Slice(|arrays|, s.len + 1);
        arrays := arrays + [arrays[s.arr] + [x] + seq(spare, _ => "")];
      }
    }

    /** SinglePartition */
    method SinglePartition(ss: seq<string>) returns (table: SliceTable)
      modifies this
      ensures (arrays, table) == (SinglesMade(old(arrays), ss).0, [SinglesMade(old(arrays), ss).1])
    {
      table := [];
      var row: SliceRow := [];
      for x := 0 to |ss|
        invariant old(arrays) <= arrays && |arrays| == |old(arrays)| + x && |row| == x
        invariant forall i :: 0 <= i < x ==> arrays[|old(arrays)| + i] == [ss[i]] && row[i] == Slice(|old(arrays)| + i, 1)
      {
        var block := Make([ss[x]]);
        row := row + [block];
      }
      assert arrays == SinglesMade(old(arrays), ss).0;
      assert row == SinglesMade(old(arrays), ss).1;
      table := table + [row];
      assert table == [row];
    }

    /** JoinCombination: a new row shares the blocks it does not append to, and the array of the one it does. */
    method JoinCombination(table: SliceTable, s: string) returns (tout: SliceTable)
      requires Fine(arrays, table)
      modifies this
      ensures (arrays, tout) == JoinTable(growth, old(arrays), table, s)
    {
      hide Appended, JoinRowFrom, JoinTable, Fine, RowFine, Behind;
      tout := [];
      ghost var all := JoinTable(growth, arrays, table, s);
      assert table[0..] == table;
      BehindNone(all);
      for x := 0 to |table|
        invariant Fine(arrays, table[x..])
        invariant all == Behind(tout, JoinTable(growth, arrays, table[x..], s))
      {
        var row := table[x];
        ghost var before, part := tout, [];
        NextRow(growth, arrays, table, x, s);
        ghost var made := JoinRowFrom(growth, arrays, row, 0, s);
        ghost var rest := JoinTable(growth, made.0, table[x + 1..], s);
        BehindNone(made);
        assert before + [] == before;
        for y := 0 to |row|
          invariant RowFine(arrays, row) && tout == before + part
          invariant made == Behind(part, JoinRowFrom(growth, arrays, row, y, s))
        {
          NextBlock(growth, arrays, row, y, s, part);
          var newRow := row;
          var block := Append(newRow[y], s);
          newRow := newRow[y := block];
          tout := tout + [newRow];
          part := part + [newRow];
        }
        JoinRowEnd(growth, arrays, row, s);
        BehindNone((arrays, part));
        BehindBehind(before, part, rest);
      }
      JoinNone(growth, arrays, table[|table|..], s);
      BehindNone((arrays, tout));
    }

    /** Partition */
    method Partition(ss: seq<string>, k: nat) returns (table: SliceTable)
      requires k == 1 || 1 <= k <= |ss|
      modifies this
      ensures (arrays, table) == Enumerated(growth, old(arrays), ss, k)
      decreases |ss|
    {
      var seed := ss;
      if k == 1 {
        var list := Make(seed);
        return [[list]];
      }
      if |ss| == k {
        table := SinglePartition(seed);
        return;
      }
      var el := seed[0];
      seed := seed[1..];
      var genTable := Partition(seed, k);
      table := JoinCombination(genTable, el);
      genTable := Partition(seed, k - 1);
      table := AppendBlocks(table, genTable, el);
    }

    /** The last loop of Partition: every row of the smaller partitions gets the element as a block of its own. */
    method AppendBlocks(joined: SliceTable, genTable: SliceTable, el: string) returns (table: SliceTable)
      requires Fine(arrays, genTable)
      modifies this
      ensures var (m, made) := BlocksMade(old(arrays), genTable, el); arrays == m && table == joined + made
    {
      table := joined;
      for x := 0 to |genTable|
        invariant |arrays| == |old(arrays)| + x && |table| == |joined| + x && old(arrays) <= arrays && joined <= table
        invariant forall i :: |old(arrays)| <= i < |arrays| ==> arrays[i] == [el]
        invariant forall i :: 0 <= i < x ==> table[|joined| + i] == genTable[i] + [Slice(|old(arrays)| + i, 1)]
      {
        var list := genTable[x];
        var block := Make([el]);
        list := list + [block];
        table := table + [list];
      }
      assert arrays == BlocksMade(old(arrays), genTable, el).0;
      assert table == joined + BlocksMade(old(arrays), genTable, el).1;
    }
  }

  /** The table and the closed formula agree on the number of rows, whether the rows are right or not. */
  method CountRows(mem: Memory, ss: seq<string>, k: nat) returns (table: SliceTable, s: int)
    requires k == 1 || 1 <= k <= |ss|
    modifies mem
    ensures (mem.arrays, table) == Enumerated(mem.growth, old(mem.arrays), ss, k)
    ensures |table| == s
  {
    ghost var before := mem.arrays;
    table := mem.Partition(ss, k);
    s := Stirling.StirlingS2(|ss|, k);
    if ss != [] {
      EnumeratedCount(mem.growth, before, ss, k);
    }
  }

  /** Rows made before, and what the rest of a table makes. */
  ghost function Behind(rows: SliceTable, r: (Arrays, SliceTable)): (Arrays, SliceTable) {
    (r.0, rows + r.1)
  }

  lemma BehindNone(r: (Arrays, SliceTable))
    ensures Behind([], r) == r && Behind(r.1, (r.0, [])) == r
  {
    assert [] + r.1 == r.1 && r.1 + [] == r.1;
  }

  lemma BehindBehind(a: SliceTable, b: SliceTable, r: (Arrays, SliceTable))
    ensures Behind(a, Behind(b, r)) == Behind(a + b, r)
  {
    assert a + (b + r.1) == a + b + r.1;
  }

  /** One turn of the outer loop of JoinCombination. */
  lemma NextRow(g: Growth, m: Arrays, table: SliceTable, x: nat, s: string)
    requires x < |table| && Fine(m, table[x..])
    ensures RowFine(m, table[x])
    ensures var made := JoinRowFrom(g, m, table[x], 0, s);
      Fine(made.0, table[x + 1..])
      && JoinTable(g, m, table[x..], s) == Behind(made.1, JoinTable(g, made.0, table[x + 1..], s))
  {
    hide JoinRowFrom, JoinTable, Fine, RowFine;
    assert table[x..][0] == table[x] && table[x..][1..] == table[x + 1..];
    JoinSplits(g, m, table[x..], s);
  }

  /** One turn of the inner loop. */
  lemma NextBlock(g: Growth, m: Arrays, row: SliceRow, y: nat, s: string, part: SliceTable)
    requires RowFine(m, row) && y < |row|
    ensures SliceOk(m, row[y])
    ensures var made := Appended(g, m, row[y], s);
      RowFine(made.0, row)
      && Behind(part, JoinRowFrom(g, m, row, y, s))
         == Behind(part + [row[y := made.1]], JoinRowFrom(g, made.0, row, y + 1, s))
  {
    hide Appended, JoinRowFrom, RowFine, SliceOk;
    FromFirst(g, m, row, y, s);
    var made := Appended(g, m, row[y], s);
    BehindBehind(part, [row[y := made.1]], JoinRowFrom(g, made.0, row, y + 1, s));
  }
}
