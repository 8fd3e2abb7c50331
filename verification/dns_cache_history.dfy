/**
 What the cache holds for a key after any run of calls (lib/dns/caches.go, lib/dns/answer.go), said of the list of calls
 alone: the packet of the last store, and the times of the stores and lookups since the answer came in.
 */
module DnsCacheHistory {
  import opened Bytes
  import opened DnsCache

  predicate Stores(op: Op, k: Key) {
    op.Store? && op.key == k
  }

  predicate Uses(op: Op, k: Key) {
    !op.Sweep? && op.key == k
  }

  /** The time that a stored answer is stamped with. */
  function Stamp(op: Op): int
    requires op.Store?
  {
    if op.isLocal then 0 else op.now
  }

  /** The number of the last store for the key, or -1. */
  function LastStore(ops: seq<Op>, k: Key): (i: int)
    ensures -1 <= i < |ops| && (i >= 0 ==> Stores(ops[i], k))
    ensures forall j :: i < j < |ops| ==> !Stores(ops[j], k)
  {
    var n := |ops| - 1;
    if ops == [] then -1 else if Stores(ops[n], k) then n else LastStore(ops[..n], k)
  }

  /** The number of the last store or lookup. */
  function LastUse(ops: seq<Op>, k: Key): (i: int)
    ensures -1 <= i < |ops| && (i >= 0 ==> Uses(ops[i], k))
    ensures forall j :: i < j < |ops| ==> !Uses(ops[j], k)
  {
    var n := |ops| - 1;
    if ops == [] then -1 else if Uses(ops[n], k) then n else LastUse(ops[..n], k)
  }

  /** The number of the first store that makes the answer local, or -1. */
  function FirstLocal(ops: seq<Op>, k: Key): (i: int)
    ensures -1 <= i < |ops| && (i >= 0 ==> Stores(ops[i], k) && Stamp(ops[i]) <= 0)
    ensures forall j :: 0 <= j < (if i < 0 then |ops| else i) ==> !(Stores(ops[j], k) && Stamp(ops[j]) <= 0)
  {
    var n := |ops| - 1;
    if ops == [] then -1
    else
      var i := FirstLocal(ops[..n], k);
      if i < 0 && Stores(ops[n], k) && Stamp(ops[n]) <= 0 then n else i
  }

  /** The number of the store with which the answer that is there came in, or -1: it was not there just before. */
  ghost function Came(ops: seq<Op>, k: Key): (b: int)
    ensures -1 <= b < |ops| && (b >= 0 ==> Stores(ops[b], k) && k !in Run(EMPTY, ops[..b]).entries)
  {
    var n := |ops| - 1;
    if ops == [] then -1
    else if Stores(ops[n], k) && k !in Run(EMPTY, ops[..n]).entries then n
    else
      var b := Came(ops[..n], k);
      assert b >= 0 ==> ops[..n][..b] == ops[..b];
      b
  }

  lemma {:induction false} RunSnoc(c: Cache, ops: seq<Op>, op: Op)
    requires Good(c)
    ensures Run(c, ops + [op]) == Step(Run(c, ops), op)
    decreases |ops|
  {
    hide Step;
    if ops == [] {
      assert [op][1..] == [];
      assert ops + [op] == [op];
    } else {
      GoodStep(c, ops[0]);
      assert (ops + [op])[0] == ops[0] && (ops + [op])[1..] == ops[1..] + [op];
      RunSnoc(Step(c, ops[0]), ops[1..], op);
    }
  }

  /** The answer after these calls, of which the first one stored it and none removed it. */
  function EntryAfter(life: seq<Op>, k: Key): Entry
    requires LastStore(life, k) >= 0
  {
    var last, local, use := LastStore(life, k), FirstLocal(life, k), LastUse(life, k);
    if local >= 0 then Entry(life[last].packet, Stamp(life[local]), Stamp(life[local]))
    else
      assert use >= last;
      Entry(life[last].packet, Stamp(life[last]), life[use].now)
  }

  /** One call more on an answer that is there. */
  lemma EntryNext(life: seq<Op>, k: Key, op: Op)
    requires LastStore(life, k) >= 0
    ensures LastStore(life + [op], k) >= 0
    ensures var e, e' := EntryAfter(life, k), EntryAfter(life + [op], k);
      && (!Uses(op, k) ==> e' == e)
      && (op.Lookup? && op.key == k ==> e' == if e.Local() then e else e.(accessedAt := op.now))
      && (Stores(op, k) ==>
            e' == if e.Local() then e.(packet := op.packet) else Entry(op.packet, Stamp(op), if op.isLocal then 0 else op.now))
  {
    var more := life + [op];
    assert more[..|life|] == life && more[|life|] == op;
    assert FirstLocal(life, k) < 0 ==> Stamp(life[LastStore(life, k)]) > 0;
  }

  /** One call on the cache, seen from one key. */
  lemma StepEntry(c: Cache, op: Op, k: Key)
    requires Good(c)
    ensures var d := Step(c, op);
      && (k in c.entries && k !in d.entries ==> op.Sweep?)
      && (k !in c.entries && k in d.entries ==> Stores(op, k) && d.entries[k] == Entry(op.packet, Stamp(op), Stamp(op)))
      && (Stores(op, k) ==> k in d.entries)
      && (k in c.entries && k in d.entries ==>
            var e, e' := c.entries[k], d.entries[k];
            && (!Uses(op, k) ==> e' == e)
            && (op.Lookup? && op.key == k ==> e' == if e.Local() then e else e.(accessedAt := op.now))
            && (Stores(op, k) ==> e' == if e.Local() then e.(packet := op.packet) else Entry(op.packet, Stamp(op), Stamp(op))))
  {
    hide Stale, Good;
    if op.Sweep? {
      PrunedFacts(c, op.now + op.threshold);
    }
  }

  ghost predicate Told(ops: seq<Op>, k: Key, c: Cache) {
    k in c.entries ==>
      var b := Came(ops, k);
      b >= 0 && LastStore(ops[b..], k) >= 0 && c.entries[k] == EntryAfter(ops[b..], k)
  }

  /**
   After every run an answer that is there has the packet of the last store for its key. It was received when the first
   store that made it local says, and otherwise when the last store says; and it was accessed with the last store or
   lookup, unless it is local.
   */
  lemma {:induction false} History(ops: seq<Op>, k: Key)
    ensures Told(ops, k, Run(EMPTY, ops))
    decreases |ops|
  {
    hide Step, EntryAfter, Run;
    if ops == [] {
      NothingYet(k);
    } else {
      var n := |ops| - 1;
      var op, c := ops[n], Run(EMPTY, ops[..n]);
      assert ops[..n] + [op] == ops;
      RunSnoc(EMPTY, ops[..n], op);
      History(ops[..n], k);
      StepEntry(c, op, k);
      if k in Step(c, op).entries {
        if k in c.entries {
          var b := Came(ops[..n], k);
          assert ops[b..] == ops[..n][b..] + [op];
          EntryNext(ops[..n][b..], k, op);
        } else {
          assert ops[n..] == [op];
          JustStored(op, k);
        }
      }
    }
  }

  lemma NothingYet(k: Key)
    ensures k !in Run(EMPTY, []).entries
  {
  }

  lemma JustStored(op: Op, k: Key)
    requires Stores(op, k)
    ensures LastStore([op], k) == 0 && EntryAfter([op], k) == Entry(op.packet, Stamp(op), Stamp(op))
  {
    assert [op][..0] == [];
  }

  /** The packet is that of the last store in the whole run; without a store nothing is there. */
  lemma LastPacket(ops: seq<Op>, k: Key)
    ensures var c, i := Run(EMPTY, ops), LastStore(ops, k);
      k in c.entries ==> i >= 0 && c.entries[k].packet == ops[i].packet
  {
    hide Run, Came;
    History(ops, k);
    if k in Run(EMPTY, ops).entries {
      var b := Came(ops, k);
      var j, i := LastStore(ops[b..], k), LastStore(ops, k);
      assert ops[b..][j] == ops[b + j];
      assert i >= b + j;
      assert ops[b..][i - b] == ops[i];
    }
  }

  /** An answer that was stored and is gone, or came in anew, was swept away in between. */
  lemma {:induction false} GoneBySweep(ops: seq<Op>, k: Key, j: nat)
    requires j < |ops| && Stores(ops[j], k)
    requires k !in Run(EMPTY, ops).entries || j < Came(ops, k)
    ensures exists s :: j < s < |ops| && Removes(ops, k, s)
    decreases |ops|
  {
    hide Step, Run;
    var n := |ops| - 1;
    var op, c := ops[n], Run(EMPTY, ops[..n]);
    assert ops[..n] + [op] == ops;
    RunSnoc(EMPTY, ops[..n], op);
    StepEntry(c, op, k);
    if k in c.entries && k !in Run(EMPTY, ops).entries {
      assert ops[..n + 1] == ops;
      assert Removes(ops, k, n);
    } else {
      GoneBySweep(ops[..n], k, j);
      var s :| j < s < n && Removes(ops[..n], k, s);
      assert ops[..n][..s] == ops[..s] && ops[..n][..s + 1] == ops[..s + 1];
      assert Removes(ops, k, s);
    }
  }

  /** Call s is a prune, and the answer is there before and not after it. */
  ghost predicate Removes(ops: seq<Op>, k: Key, s: nat) {
    s < |ops| && ops[s].Sweep? && k in Run(EMPTY, ops[..s]).entries && k !in Run(EMPTY, ops[..s + 1]).entries
  }

  /** Stored twice, an answer is refreshed. */
  lemma Refreshed(k: Key, first: seq<byte>, second: seq<byte>)
    ensures var c := Run(EMPTY, [Store(k, first, false, 1), Store(k, second, false, 2), Lookup(k, 3)]);
      k in c.entries && c.entries[k] == Entry(second, 2, 3)
  {
    var ops := [Store(k, first, false, 1), Store(k, second, false, 2), Lookup(k, 3)];
    RunThree(ops);
    RunTwo(ops[..2]);
  }
}
