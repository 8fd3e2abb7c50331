/**
 The cache of DNS answers (lib/dns/caches.go) as a value: a map from name, type and class to an answer, and the
 answers in the order they are to be pruned.
 */
module DnsCache {
  import opened Bytes
  import DnsName
  import DnsRecord
  import DnsWire
  import opened Lists

  datatype Key = Key(name: string, qtype: u16, qclass: u16)

  /** An answer; receivedAt is 0 for an answer from a hosts or zone file. */
  datatype Entry = Entry(packet: seq<byte>, receivedAt: int, accessedAt: int) {
    predicate Local() {
      receivedAt <= 0
    }
  }

  datatype Cache = Cache(entries: map<Key, Entry>, lru: seq<Key>)

  const EMPTY := Cache(map[], [])

  datatype Option<T> = None | Some(value: T)

  /** One call on the cache at a moment of the clock; a new answer is stamped and stored in one step. */
  datatype Op =
    | Lookup(key: Key, now: int)
    | Store(key: Key, packet: seq<byte>, isLocal: bool, now: int)
    | Sweep(now: int, threshold: int)

  // ---------------------------------------------------------------- the calls

  function Touched(c: Cache, k: Key, now: int): Cache {
    if k !in c.entries || c.entries[k].Local() then c
    else Cache(c.entries[k := c.entries[k].(accessedAt := now)], ToBack(c.lru, k))
  }

  /** An answer stored over another one: the times are taken over only by an answer that is not local. */
  function Updated(was: Entry, nu: Entry): Entry {
    if was.Local() then was.(packet := nu.packet) else nu
  }

  function Upserted(c: Cache, k: Key, nu: Entry): Cache {
    if k in c.entries then Cache(c.entries[k := Updated(c.entries[k], nu)], c.lru)
    else Cache(c.entries[k := nu], if nu.Local() then c.lru else c.lru + [k])
  }

  ghost predicate KeysIn(lru: seq<Key>, m: map<Key, Entry>) {
    forall k :: k in lru ==> k in m
  }

  /** How many answers at the front were last accessed at exp or before. */
  function Stale(lru: seq<Key>, m: map<Key, Entry>, exp: int): (n: nat)
    requires KeysIn(lru, m)
    ensures n <= |lru|
    ensures forall i :: 0 <= i < n ==> m[lru[i]].accessedAt <= exp
    ensures n < |lru| ==> m[lru[n]].accessedAt > exp
  {
    if lru == [] || m[lru[0]].accessedAt > exp then 0 else 1 + Stale(lru[1..], m, exp)
  }

  ghost function KeySet(s: seq<Key>): set<Key> {
    set k | k in s
  }

  lemma PrunedIs(c: Cache, exp: int, n: nat)
    requires KeysIn(c.lru, c.entries) && n <= |c.lru|
    requires forall i :: 0 <= i < n ==> c.entries[c.lru[i]].accessedAt <= exp
    requires n < |c.lru| ==> c.entries[c.lru[n]].accessedAt > exp
    ensures Stale(c.lru, c.entries, exp) == n
    ensures Pruned(c, exp) == Cache(c.entries - KeySet(c.lru[..n]), c.lru[n..])
  {
  }

  ghost function Pruned(c: Cache, exp: int): Cache
    requires KeysIn(c.lru, c.entries)
  {
    var n := Stale(c.lru, c.entries, exp);
    Cache(c.entries - KeySet(c.lru[..n]), c.lru[n..])
  }

  lemma PruneNone(c: Cache)
    ensures Cache(c.entries - KeySet(c.lru[..0]), c.lru[0..]) == c
  {
    assert KeySet(c.lru[..0]) == {};
  }

  /** One answer more taken from the front. */
  lemma PruneOne(c: Cache, n: nat)
    requires n < |c.lru|
    ensures c.entries - KeySet(c.lru[..n]) - {c.lru[n]} == c.entries - KeySet(c.lru[..n + 1])
    ensures c.lru[n..][1..] == c.lru[n + 1..] && c.lru[n..][0] == c.lru[n]
  {
    assert c.lru[..n + 1] == c.lru[..n] + [c.lru[n]];
    assert KeySet(c.lru[..n + 1]) == KeySet(c.lru[..n]) + {c.lru[n]};
  }

  function Fresh(packet: seq<byte>, isLocal: bool, now: int): Entry {
    if isLocal then Entry(packet, 0, 0) else Entry(packet, now, now)
  }

  ghost function Step(c: Cache, op: Op): Cache
    requires KeysIn(c.lru, c.entries)
  {
    match op
    case Lookup(k, now) => Touched(c, k, now)
    case Store(k, packet, isLocal, now) => Upserted(c, k, Fresh(packet, isLocal, now))
    case Sweep(now, threshold) => Pruned(c, now + threshold)
  }

  // ---------------------------------------------------------------- what every run keeps

  /** The list names answers of the cache, each once, and misses none that can expire. */
  ghost predicate Good(c: Cache) {
    && NoDup(c.lru)
    && KeysIn(c.lru, c.entries)
    && (forall k :: k in c.entries && !c.entries[k].Local() ==> k in c.lru)
  }

  lemma GoodTouched(c: Cache, k: Key, now: int)
    requires Good(c)
    ensures Good(Touched(c, k, now))
  {
    ToBackFacts(c.lru, k);
  }

  lemma GoodUpserted(c: Cache, k: Key, nu: Entry)
    requires Good(c)
    ensures Good(Upserted(c, k, nu))
  {
    if k !in c.entries {
      assert k !in c.lru;
    }
  }

  lemma PrunedFacts(c: Cache, exp: int)
    requires Good(c)
    ensures Good(Pruned(c, exp))
    ensures forall k :: k in Pruned(c, exp).entries <==> k in c.entries && k !in c.lru[..Stale(c.lru, c.entries, exp)]
    ensures |c.entries| == |Pruned(c, exp).entries| + Stale(c.lru, c.entries, exp)
  {
    hide Stale, NoDup;
    var n := Stale(c.lru, c.entries, exp);
    InSplit(c.lru, n);
    RemovedCount(c.entries, c.lru[..n]);
  }

  lemma RemovedCount(m: map<Key, Entry>, s: seq<Key>)
    requires NoDup(s) && KeysIn(s, m)
    ensures |m| == |m - KeySet(s)| + |s|
  {
    var d := m - KeySet(s);
    NoDupCount(s);
    assert m.Keys == d.Keys + KeySet(s);
    assert |m.Keys| == |m| && |d.Keys| == |d|;
  }

  lemma {:induction false} NoDupCount(s: seq<Key>)
    requires NoDup(s)
    ensures |KeySet(s)| == |s|
  {
    if s != [] {
      NoDupCount(s[1..]);
      assert KeySet(s) == KeySet(s[1..]) + {s[0]};
    }
  }

  lemma GoodStep(c: Cache, op: Op)
    requires Good(c)
    ensures Good(Step(c, op))
  {
    match op
    case Lookup(k, now) => GoodTouched(c, k, now);
    case Store(k, packet, isLocal, now) => GoodUpserted(c, k, Fresh(packet, isLocal, now));
    case Sweep(now, threshold) => PrunedFacts(c, now + threshold);
  }

  ghost function Run(c: Cache, ops: seq<Op>): (d: Cache)
    requires Good(c)
    ensures Good(d)
    decreases |ops|
  {
    if ops == [] then c
    else
      GoodStep(c, ops[0]);
      Run(Step(c, ops[0]), ops[1..])
  }

  // ---------------------------------------------------------------- the list holds exactly the non-local answers

  ghost predicate Exact(c: Cache) {
    forall k :: k in c.lru <==> k in c.entries && !c.entries[k].Local()
  }

  /** A local answer stored over one that can expire: its time of reception becomes 0 but it stays in the list. */
  predicate Demotes(c: Cache, k: Key, nu: Entry) {
    k in c.entries && !c.entries[k].Local() && nu.Local()
  }

  lemma UpsertExact(c: Cache, k: Key, nu: Entry)
    requires Good(c) && Exact(c)
    ensures Exact(Upserted(c, k, nu)) <==> !Demotes(c, k, nu)
  {
    var d := Upserted(c, k, nu);
    if Demotes(c, k, nu) {
      assert k in d.lru && d.entries[k].Local();
    }
    assert k !in c.entries ==> k !in c.lru;
  }

  lemma TouchedExact(c: Cache, k: Key, now: int)
    requires Good(c) && Exact(c)
    ensures Exact(Touched(c, k, now))
  {
    ToBackFacts(c.lru, k);
  }

  lemma PrunedExact(c: Cache, exp: int)
    requires Good(c) && Exact(c)
    ensures Exact(Pruned(c, exp))
  {
    hide Stale, NoDup;
    InSplit(c.lru, Stale(c.lru, c.entries, exp));
  }

  /** A demoted answer is removed by the next prune of anything: pruning is not safe for local answers then. */
  lemma DemotedIsPruned(k: Key, packet: seq<byte>, now: int)
    requires now > 0
    ensures var c := Run(EMPTY, [Store(k, packet, false, now), Store(k, packet, true, now)]);
      k in c.entries && c.entries[k].Local() && k !in Pruned(c, 0).entries
  {
    var ops := [Store(k, packet, false, now), Store(k, packet, true, now)];
    var c1 := Step(EMPTY, ops[0]);
    var c2 := Step(c1, ops[1]);
    assert ops[1..][0] == ops[1] && ops[1..][1..] == [];
    assert Run(EMPTY, ops) == Run(c1, ops[1..]) == Run(c2, []) == c2;
    assert c2.lru == [k] && c2.entries[k] == Entry(packet, 0, 0);
    assert Stale(c2.lru, c2.entries, 0) == 1;
    assert k in c2.lru[..1];
  }

  ghost predicate NoLocal(ops: seq<Op>) {
    forall i :: 0 <= i < |ops| && ops[i].Store? ==> !ops[i].isLocal
  }

  /** Local answers are stored before all others. */
  ghost predicate LocalFirst(ops: seq<Op>) {
    forall i, j :: 0 <= i < j < |ops| && ops[i].Store? && ops[j].Store? && ops[j].isLocal ==> ops[i].isLocal
  }

  /** The clock never goes back, from t on. */
  ghost predicate Ticking(ops: seq<Op>, t: int) {
    && (forall i :: 0 <= i < |ops| ==> t <= ops[i].now)
    && (forall i, j :: 0 <= i < j < |ops| ==> ops[i].now <= ops[j].now)
  }

  ghost predicate AllLocal(c: Cache) {
    forall k :: k in c.entries ==> c.entries[k].Local()
  }

  lemma ExactStep(c: Cache, op: Op)
    requires Good(c) && Exact(c)
    requires op.Store? ==> !Demotes(c, op.key, Fresh(op.packet, op.isLocal, op.now))
    ensures Exact(Step(c, op))
  {
    hide Exact, Good;
    match op
    case Lookup(k, now) => TouchedExact(c, k, now);
    case Store(k, packet, isLocal, now) => UpsertExact(c, k, Fresh(packet, isLocal, now));
    case Sweep(now, threshold) => PrunedExact(c, now + threshold);
  }

  lemma StillLocal(c: Cache, op: Op)
    requires Good(c) && AllLocal(c) && (op.Store? ==> op.isLocal)
    ensures AllLocal(Step(c, op))
  {
    hide Stale;
  }

  lemma {:induction false} ExactFrom(c: Cache, ops: seq<Op>)
    requires Good(c) && Exact(c) && LocalFirst(ops) && Ticking(ops, 1)
    requires AllLocal(c) || NoLocal(ops)
    ensures Exact(Run(c, ops))
    decreases |ops|
  {
    hide Exact, Step;
    if ops != [] {
      var op := ops[0];
      assert op.Store? && !op.isLocal ==> NoLocal(ops);
      ExactStep(c, op);
      GoodStep(c, op);
      if op.Store? ==> op.isLocal {
        if AllLocal(c) {
          StillLocal(c, op);
        }
      }
      ExactFrom(Step(c, op), ops[1..]);
    }
  }

  /** Over every run in which the local answers come first, the list holds exactly the others, each once. */
  lemma ExactRun(ops: seq<Op>)
    requires LocalFirst(ops) && Ticking(ops, 1)
    ensures Exact(Run(EMPTY, ops)) && NoDup(Run(EMPTY, ops).lru)
  {
    ExactFrom(EMPTY, ops);
  }

  // ---------------------------------------------------------------- the list is in the order of access

  function At(c: Cache, i: nat): int
    requires i < |c.lru| && c.lru[i] in c.entries
  {
    c.entries[c.lru[i]].accessedAt
  }

  ghost predicate Ordered(c: Cache)
    requires KeysIn(c.lru, c.entries)
  {
    forall i, j :: 0 <= i < j < |c.lru| ==> At(c, i) <= At(c, j)
  }

  ghost predicate UpTo(c: Cache, t: int)
    requires KeysIn(c.lru, c.entries)
  {
    forall i :: 0 <= i < |c.lru| ==> At(c, i) <= t
  }

  /** The answers at exp or before are all in front of the others. */
  ghost predicate StaleFirst(c: Cache, exp: int)
    requires KeysIn(c.lru, c.entries)
  {
    forall i, j :: 0 <= i < j < |c.lru| && At(c, j) <= exp ==> At(c, i) <= exp
  }

  /** The new time of a stored answer fits its place in the list. */
  ghost predicate Fits(c: Cache, k: Key, t: int)
    requires KeysIn(c.lru, c.entries)
  {
    forall i, j :: 0 <= i < j < |c.lru| ==>
      (c.lru[j] == k ==> At(c, i) <= t) && (c.lru[i] == k ==> t <= At(c, j))
  }

  /** Storing keeps the order exactly when the time of the answer fits where it stays or is put. */
  lemma UpsertOrdered(c: Cache, k: Key, nu: Entry)
    requires Good(c) && Ordered(c)
    ensures Ordered(Upserted(c, k, nu)) <==>
      if k !in c.entries then nu.Local() || UpTo(c, nu.accessedAt)
      else c.entries[k].Local() || Fits(c, k, nu.accessedAt)
  {
    if k in c.entries {
      UpdateOrdered(c, k, nu);
    } else {
      InsertOrdered(c, k, nu);
    }
  }

  lemma InsertOrdered(c: Cache, k: Key, nu: Entry)
    requires Good(c) && Ordered(c) && k !in c.entries
    ensures Ordered(Upserted(c, k, nu)) <==> nu.Local() || UpTo(c, nu.accessedAt)
  {
    var d := Upserted(c, k, nu);
    assert forall i :: 0 <= i < |c.lru| ==> c.lru[i] in c.lru && d.lru[i] == c.lru[i] && At(d, i) == At(c, i);
    if !nu.Local() {
      assert At(d, |c.lru|) == nu.accessedAt;
    }
  }

  lemma UpdateOrdered(c: Cache, k: Key, nu: Entry)
    requires Good(c) && Ordered(c) && k in c.entries
    ensures Ordered(Upserted(c, k, nu)) <==> c.entries[k].Local() || Fits(c, k, nu.accessedAt)
  {
    var d := Upserted(c, k, nu);
    assert forall i :: 0 <= i < |c.lru| ==> c.lru[i] in c.lru;
    if c.entries[k].Local() {
      assert forall i :: 0 <= i < |c.lru| ==> At(d, i) == At(c, i);
    } else {
      assert forall i :: 0 <= i < |c.lru| ==> At(d, i) == if c.lru[i] == k then nu.accessedAt else At(c, i);
    }
  }

  ghost predicate OrderedIn(s: seq<Key>, m: map<Key, Entry>)
    requires KeysIn(s, m)
  {
    forall i, j :: 0 <= i < j < |s| ==> m[s[i]].accessedAt <= m[s[j]].accessedAt
  }

  lemma {:induction false} WithoutOrdered(s: seq<Key>, m: map<Key, Entry>, k: Key)
    requires KeysIn(s, m) && OrderedIn(s, m)
    ensures KeysIn(Without(s, k), m) && OrderedIn(Without(s, k), m)
    ensures forall x :: x in Without(s, k) ==> x in s
  {
    if s != [] && s[0] != k {
      assert s == [s[0]] + s[1..];
      WithoutOrdered(s[1..], m, k);
      var w := Without(s[1..], k);
      forall i | 0 <= i < |w| ensures m[s[0]].accessedAt <= m[w[i]].accessedAt {
        assert w[i] in s[1..];
        var j :| 0 <= j < |s[1..]| && s[1..][j] == w[i];
        assert s[j + 1] == w[i];
      }
    }
  }

  lemma AppendOrdered(s: seq<Key>, m: map<Key, Entry>, k: Key, e: Entry)
    requires KeysIn(s, m) && OrderedIn(s, m) && k !in s
    requires forall x :: x in s ==> m[x].accessedAt <= e.accessedAt
    ensures KeysIn(s + [k], m[k := e]) && OrderedIn(s + [k], m[k := e])
  {
    var w, n := s + [k], m[k := e];
    assert forall i :: 0 <= i < |s| ==> s[i] in s && w[i] == s[i] && n[w[i]] == m[s[i]];
  }

  /** The same with positions in place of keys. */
  lemma OrderedByKey(c: Cache, t: int)
    requires KeysIn(c.lru, c.entries)
    ensures Ordered(c) <==> OrderedIn(c.lru, c.entries)
    ensures UpTo(c, t) <==> forall x :: x in c.lru ==> c.entries[x].accessedAt <= t
  {
    assert forall i :: 0 <= i < |c.lru| ==> At(c, i) == c.entries[c.lru[i]].accessedAt;
  }

  lemma TouchedOrdered(c: Cache, k: Key, now: int)
    requires Good(c) && Ordered(c) && UpTo(c, now)
    ensures Good(Touched(c, k, now)) && Ordered(Touched(c, k, now)) && UpTo(Touched(c, k, now), now)
  {
    hide Ordered, UpTo, OrderedIn, Without;
    GoodTouched(c, k, now);
    OrderedByKey(c, now);
    OrderedByKey(Touched(c, k, now), now);
    if k in c.entries && !c.entries[k].Local() {
      WithoutOrdered(c.lru, c.entries, k);
      WithoutFacts(c.lru, k);
      AppendOrdered(Without(c.lru, k), c.entries, k, c.entries[k].(accessedAt := now));
    }
  }

  lemma PrunedOrdered(c: Cache, exp: int, t: int)
    requires Good(c) && Ordered(c) && UpTo(c, t)
    ensures Good(Pruned(c, exp)) && Ordered(Pruned(c, exp)) && UpTo(Pruned(c, exp), t)
  {
    hide Stale, NoDup, Ordered, UpTo, OrderedIn;
    PrunedFacts(c, exp);
    var d, n := Pruned(c, exp), Stale(c.lru, c.entries, exp);
    OrderedByKey(c, t);
    OrderedByKey(d, t);
    SliceOrdered(c.lru, c.entries, n, d.entries);
  }

  lemma SliceOrdered(s: seq<Key>, m: map<Key, Entry>, n: nat, d: map<Key, Entry>)
    requires n <= |s| && KeysIn(s, m) && OrderedIn(s, m) && KeysIn(s[n..], d)
    requires forall k :: k in d ==> k in m && d[k] == m[k]
    ensures OrderedIn(s[n..], d)
    ensures forall x :: x in s[n..] ==> x in s
  {
    assert forall i :: 0 <= i < |s[n..]| ==> s[n..][i] == s[i + n] && s[i + n] in s && s[n..][i] in s[n..];
  }

  // ---------------------------------------------------------------- what pruning removes

  ghost predicate Expired(c: Cache, k: Key, exp: int) {
    k in c.lru && k in c.entries && c.entries[k].accessedAt <= exp
  }

  /** Whatever the order, nothing recent and nothing outside the list is removed, and nothing is changed. */
  lemma PrunedSafe(c: Cache, exp: int, k: Key)
    requires Good(c) && k in c.entries && !Expired(c, k, exp)
    ensures k in Pruned(c, exp).entries && Pruned(c, exp).entries[k] == c.entries[k]
  {
    PrunedFacts(c, exp);
    var n := Stale(c.lru, c.entries, exp);
    InSplit(c.lru, n);
    if k in c.lru {
      assert forall i :: 0 <= i < n ==> c.lru[i] != k;
    }
  }

  lemma StaleAll(c: Cache, exp: int, k: Key)
    requires Good(c) && StaleFirst(c, exp) && Expired(c, k, exp)
    ensures k !in Pruned(c, exp).entries
  {
    PrunedFacts(c, exp);
    var n := Stale(c.lru, c.entries, exp);
    var j :| 0 <= j < |c.lru| && c.lru[j] == k;
    assert At(c, j) <= exp;
    assert n < j ==> At(c, n) <= exp;
    assert c.lru[..n][j] == k;
  }

  lemma StaleBound(c: Cache, exp: int, i: nat)
    requires Good(c) && i < |c.lru| && exp < At(c, i)
    ensures Stale(c.lru, c.entries, exp) <= i
  {
  }

  lemma StaleMissed(c: Cache, exp: int, i: nat, j: nat)
    requires Good(c) && i < j < |c.lru| && At(c, j) <= exp < At(c, i)
    ensures Expired(c, c.lru[j], exp) && c.lru[j] in Pruned(c, exp).entries
  {
    hide Stale, Pruned, NoDup;
    PrunedFacts(c, exp);
    var n := Stale(c.lru, c.entries, exp);
    StaleBound(c, exp, i);
    assert c.lru[j] in c.lru;
    InSplit(c.lru, n);
    assert c.lru[n..][j - n] == c.lru[j];
  }

  /** The early end of the loop misses nothing exactly when the expired answers are in front. */
  lemma PruneExact(c: Cache, exp: int)
    requires Good(c)
    ensures (forall k :: Expired(c, k, exp) ==> k !in Pruned(c, exp).entries) <==> StaleFirst(c, exp)
  {
    hide Pruned, Stale, Expired;
    if StaleFirst(c, exp) {
      forall k | Expired(c, k, exp) ensures k !in Pruned(c, exp).entries {
        StaleAll(c, exp, k);
      }
    } else {
      var i, j :| 0 <= i < j < |c.lru| && At(c, j) <= exp && At(c, i) > exp;
      StaleMissed(c, exp, i, j);
    }
  }

  /** Being in the order of access is what pruning at every moment needs. */
  lemma OrderedIff(c: Cache)
    requires Good(c)
    ensures Ordered(c) <==> forall exp :: StaleFirst(c, exp)
  {
    if forall exp :: StaleFirst(c, exp) {
      forall i, j | 0 <= i < j < |c.lru| ensures At(c, i) <= At(c, j) {
        assert StaleFirst(c, At(c, j));
      }
    }
  }

  lemma RunTwo(ops: seq<Op>)
    requires |ops| == 2
    ensures Good(EMPTY) && Good(Step(EMPTY, ops[0])) && Run(EMPTY, ops) == Step(Step(EMPTY, ops[0]), ops[1])
  {
    GoodStep(EMPTY, ops[0]);
    assert ops[1..][0] == ops[1] && ops[1..][1..] == [];
    assert Run(EMPTY, ops) == Run(Step(EMPTY, ops[0]), ops[1..]);
  }

  lemma RunThree(ops: seq<Op>)
    requires |ops| == 3
    ensures Run(EMPTY, ops) == Step(Run(EMPTY, ops[..2]), ops[2])
  {
    hide Step;
    RunTwo(ops[..2]);
    GoodStep(EMPTY, ops[0]);
    var c := Step(EMPTY, ops[0]);
    GoodStep(c, ops[1]);
    assert ops[1..][0] == ops[1] && ops[1..][1..][0] == ops[2] && ops[1..][1..][1..] == [];
    assert Run(EMPTY, ops) == Run(c, ops[1..]) == Run(Step(c, ops[1]), ops[1..][1..]);
  }

  lemma StoredTwo(a: Key, b: Key, packet: seq<byte>)
    requires a != b
    ensures Run(EMPTY, [Store(a, packet, false, 1), Store(b, packet, false, 2)])
         == Cache(map[a := Entry(packet, 1, 1), b := Entry(packet, 2, 2)], [a, b])
  {
    RunTwo([Store(a, packet, false, 1), Store(b, packet, false, 2)]);
  }

  /** Stored again later, an answer keeps its place: the list is out of order, and an expired answer is not pruned. */
  lemma StoredAgain(a: Key, b: Key, packet: seq<byte>)
    requires a != b
    ensures var ops := [Store(a, packet, false, 1), Store(b, packet, false, 2), Store(a, packet, false, 100)];
      var c := Run(EMPTY, ops);
      Ticking(ops, 1) && !Ordered(c) && Expired(c, b, 50) && b in Pruned(c, 50).entries
  {
    hide Stale, Pruned;
    var ops := [Store(a, packet, false, 1), Store(b, packet, false, 2), Store(a, packet, false, 100)];
    RunThree(ops);
    assert ops[..2] == [Store(a, packet, false, 1), Store(b, packet, false, 2)];
    StoredTwo(a, b, packet);
    var c := Run(EMPTY, ops);
    assert c == Cache(map[a := Entry(packet, 100, 100), b := Entry(packet, 2, 2)], [a, b]);
    assert At(c, 0) == 100 && At(c, 1) == 2;
    StaleMissed(c, 50, 0, 1);
  }

  // ---------------------------------------------------------------- the simple map

  /** The cache without its list: pruning looks at every answer. */
  ghost function SimplePruned(m: map<Key, Entry>, exp: int): map<Key, Entry> {
    map k | k in m && (m[k].Local() || m[k].accessedAt > exp) :: m[k]
  }

  ghost function SimpleStep(m: map<Key, Entry>, op: Op): map<Key, Entry> {
    match op
    case Lookup(k, now) => if k in m && !m[k].Local() then m[k := m[k].(accessedAt := now)] else m
    case Store(k, packet, isLocal, now) =>
      var at := if isLocal then 0 else now;
      m[k := if k in m && m[k].receivedAt <= 0 then Entry(packet, m[k].receivedAt, m[k].accessedAt) else Entry(packet, at, at)]
    case Sweep(now, threshold) => SimplePruned(m, now + threshold)
  }

  ghost function SimpleRun(m: map<Key, Entry>, ops: seq<Op>): map<Key, Entry>
    decreases |ops|
  {
    if ops == [] then m else SimpleRun(SimpleStep(m, ops[0]), ops[1..])
  }

  /** No answer is stored over one that can expire. */
  ghost predicate Steady(c: Cache, ops: seq<Op>)
    requires Good(c)
    decreases |ops|
  {
    ops != [] ==>
      && (ops[0].Store? ==> ops[0].key !in c.entries || c.entries[ops[0].key].Local())
      && Good(Step(c, ops[0]))
      && Steady(Step(c, ops[0]), ops[1..])
  }

  ghost predicate InStep(c: Cache, t: int) {
    Good(c) && Exact(c) && Ordered(c) && UpTo(c, t)
  }

  lemma SweepRefines(c: Cache, exp: int, t: int)
    requires InStep(c, t)
    ensures Pruned(c, exp).entries == SimplePruned(c.entries, exp)
    ensures InStep(Pruned(c, exp), t)
  {
    PrunedOrdered(c, exp, t);
    PrunedExact(c, exp);
    OrderedIff(c);
    PruneExact(c, exp);
    var d := Pruned(c, exp);
    forall k | k in c.entries ensures k in d.entries <==> k in SimplePruned(c.entries, exp) {
      if !Expired(c, k, exp) {
        PrunedSafe(c, exp, k);
      }
    }
  }

  lemma StepRefines(c: Cache, op: Op, t: int)
    requires InStep(c, t) && t <= op.now && t >= 1
    requires op.Store? ==> op.key !in c.entries || c.entries[op.key].Local()
    ensures Step(c, op).entries == SimpleStep(c.entries, op)
    ensures InStep(Step(c, op), op.now)
  {
    hide Exact, Ordered, Stale, Pruned, ToBack, SimplePruned;
    ExactStep(c, op);
    GoodStep(c, op);
    assert UpTo(c, op.now);
    match op
    case Lookup(k, now) => TouchedOrdered(c, k, now);
    case Store(k, packet, isLocal, now) =>
      UpsertOrdered(c, k, Fresh(packet, isLocal, now));
      UpsertUpTo(c, k, Fresh(packet, isLocal, now), now);
    case Sweep(now, threshold) => SweepRefines(c, now + threshold, now);
  }

  lemma UpsertUpTo(c: Cache, k: Key, nu: Entry, t: int)
    requires Good(c) && UpTo(c, t) && nu.accessedAt <= t && (k in c.entries ==> c.entries[k].Local())
    ensures Good(Upserted(c, k, nu)) && UpTo(Upserted(c, k, nu), t)
  {
    GoodUpserted(c, k, nu);
    var d := Upserted(c, k, nu);
    assert forall i :: 0 <= i < |c.lru| ==> At(c, i) <= t && d.lru[i] == c.lru[i] && At(d, i) == At(c, i);
  }

  /** The cache with its list and the plain map give the same answers over every such run. */
  lemma {:induction false} RunRefines(c: Cache, ops: seq<Op>, t: int)
    requires InStep(c, t) && t >= 1 && Ticking(ops, t) && Steady(c, ops)
    ensures Run(c, ops).entries == SimpleRun(c.entries, ops)
    ensures Exact(Run(c, ops)) && Ordered(Run(c, ops))
    decreases |ops|
  {
    hide InStep, Step, SimpleStep;
    if ops != [] {
      InStepGood(c, t);
      StepRefines(c, ops[0], t);
      RunRefines(Step(c, ops[0]), ops[1..], ops[0].now);
    } else {
      InStepGood(c, t);
    }
  }

  lemma InStepGood(c: Cache, t: int)
    requires InStep(c, t)
    ensures Good(c) && Exact(c) && Ordered(c)
  {
  }

  // ---------------------------------------------------------------- answers that stay

  /** An answer outside the list stays in the cache over every run. */
  lemma {:induction false} LocalStays(c: Cache, ops: seq<Op>, k: Key)
    requires Good(c) && k in c.entries && k !in c.lru
    ensures k in Run(c, ops).entries && k !in Run(c, ops).lru
    decreases |ops|
  {
    if ops != [] {
      GoodStep(c, ops[0]);
      OutsideStays(c, ops[0], k);
      LocalStays(Step(c, ops[0]), ops[1..], k);
    }
  }

  lemma OutsideStays(c: Cache, op: Op, k: Key)
    requires Good(c) && k in c.entries && k !in c.lru
    ensures k in Step(c, op).entries && k !in Step(c, op).lru
  {
    hide Stale;
    match op
    case Lookup(q, now) => ToBackFacts(c.lru, q);
    case Store(q, packet, isLocal, now) =>
    case Sweep(now, threshold) =>
      PrunedSafe(c, now + threshold, k);
      InSplit(c.lru, Stale(c.lru, c.entries, now + threshold));
  }

  /** Every prune reaches back to e at most, and everything else happens after e. */
  ghost predicate Beyond(ops: seq<Op>, k: Key, e: int) {
    forall i :: 0 <= i < |ops| ==>
      match ops[i]
      case Sweep(now, threshold) => now + threshold <= e
      case Lookup(_, now) => e < now
      case Store(q, _, isLocal, now) => e < now && (q == k ==> !isLocal)
  }

  /** An answer accessed after e stays over every run whose prunes do not reach beyond e. */
  lemma {:induction false} RecentStays(c: Cache, ops: seq<Op>, k: Key, e: int)
    requires Good(c) && k in c.entries && c.entries[k].accessedAt > e && Beyond(ops, k, e)
    ensures k in Run(c, ops).entries && Run(c, ops).entries[k].accessedAt > e
    decreases |ops|
  {
    if ops != [] {
      GoodStep(c, ops[0]);
      RecentStep(c, ops[0], k, e);
      RecentStays(Step(c, ops[0]), ops[1..], k, e);
    }
  }

  lemma RecentStep(c: Cache, op: Op, k: Key, e: int)
    requires Good(c) && k in c.entries && c.entries[k].accessedAt > e && Beyond([op], k, e)
    ensures k in Step(c, op).entries && Step(c, op).entries[k].accessedAt > e
  {
    hide Stale;
    assert [op][0] == op;
    if op.Sweep? {
      PrunedSafe(c, op.now + op.threshold, k);
    }
  }

  // ---------------------------------------------------------------- answers handed out

  /** How long ago the answer was received, in the 32 bits that are kept of it. */
  function Age(e: Entry, now: int): u32 {
    (now - e.receivedAt) % 0x1_0000_0000
  }

  predicate HasSlots(m: DnsWire.MessageValue, len: nat) {
    DnsWire.SlotsInside(m.answer, len) && DnsWire.SlotsInside(m.authority, len) && DnsWire.SlotsInside(m.additional, len)
  }

  lemma SameSlots(m: DnsWire.MessageValue, n: u32, len: nat)
    requires HasSlots(m, len)
    ensures HasSlots(DnsWire.SubTTLMessage(m, n), len)
  {
  }

  /** An answer with message m handed out: its times to live are lowered by its age, and it was accessed now. */
  function ServedEntry(e: Entry, m: DnsWire.MessageValue, now: int): Entry
    requires HasSlots(m, |e.packet|)
  {
    SameSlots(m, Age(e, now), |e.packet|);
    Entry(DnsWire.WriteMessageTTLs(e.packet, DnsWire.SubTTLMessage(m, Age(e, now))), e.receivedAt, now)
  }

  /** Handing out an answer changes it outside the lock of the cache, and does not move it in the list. */
  function Served(c: Cache, k: Key, m: DnsWire.MessageValue, now: int): Cache
    requires k in c.entries ==> HasSlots(m, |c.entries[k].packet|)
  {
    if k in c.entries && c.entries[k].receivedAt != 0 then
      Cache(c.entries[k := ServedEntry(c.entries[k], m, now)], c.lru)
    else c
  }

  /** So the order is kept exactly when the answer is still the last, or no later one was accessed before now. */
  lemma ServedOrdered(c: Cache, k: Key, m: DnsWire.MessageValue, now: int)
    requires Good(c) && Ordered(c) && k in c.entries && c.entries[k].receivedAt > 0 && HasSlots(m, |c.entries[k].packet|)
    ensures Ordered(Served(c, k, m, now)) <==> Fits(c, k, now)
  {
    hide Fits, Ordered, ServedEntry;
    UpdateOrdered(c, k, ServedEntry(c.entries[k], m, now));
    ServedTime(c.entries[k], m, now);
  }

  /** An answer that is handed out does not move behind the one accessed before it. */
  lemma ServedOutOfOrder(a: Key, b: Key, packet: seq<byte>, m: DnsWire.MessageValue)
    requires a != b && HasSlots(m, |packet|)
    ensures var c := Run(EMPTY, [Store(a, packet, false, 1), Store(b, packet, false, 2)]);
      && Ordered(c) && a in c.entries && c.entries[a].packet == packet
      && KeysIn(Served(c, a, m, 3).lru, Served(c, a, m, 3).entries) && !Ordered(Served(c, a, m, 3))
  {
    hide ServedEntry, HasSlots;
    StoredTwo(a, b, packet);
    var c := Run(EMPTY, [Store(a, packet, false, 1), Store(b, packet, false, 2)]);
    ServedTime(c.entries[a], m, 3);
    var d := Served(c, a, m, 3);
    assert d.lru == [a, b] && At(d, 0) == 3 && At(d, 1) == 2;
  }

  lemma ServedTime(e: Entry, m: DnsWire.MessageValue, now: int)
    requires HasSlots(m, |e.packet|)
    ensures ServedEntry(e, m, now).accessedAt == now && ServedEntry(e, m, now).receivedAt == e.receivedAt
  {
  }

  /** A packed response of the answer k, received at most 32 bits of seconds before now. */
  ghost predicate Holds(c: Cache, k: Key, m: DnsWire.MessageValue, now: int) {
    && k in c.entries && 0 < c.entries[k].receivedAt <= now < c.entries[k].receivedAt + 0x1_0000_0000
    && c.entries[k].packet == DnsWire.EncodeMessage(m)
    && DnsWire.Packed(m) && !m.header.isQuery
    && DnsWire.NoOPT(m.answer) && DnsWire.NoOPT(m.authority) && DnsWire.NoOPT(m.additional)
  }

  /** The packet handed out is that of the message with its times to live lowered by the age. */
  lemma ServedPacket(c: Cache, k: Key, m: DnsWire.MessageValue, now: int, later: int)
    requires Holds(c, k, m, later) && c.entries[k].receivedAt <= now <= later
    ensures HasSlots(m, |c.entries[k].packet|)
    ensures var m' := DnsWire.SubTTLMessage(m, now - c.entries[k].receivedAt);
      var d := Served(c, k, m, now);
      && d == Cache(c.entries[k := Entry(DnsWire.EncodeMessage(m'), c.entries[k].receivedAt, now)], c.lru)
      && Holds(d, k, m', later)
  {
    hide DnsWire.EncodeMessage, DnsWire.WriteMessageTTLs, DnsWire.Packed, DnsWire.NoOPT, DnsWire.SubTTLs;
    DnsWire.SubTTLRewrites(m, now - c.entries[k].receivedAt);
    DnsWire.LoweredKeeps(m, now - c.entries[k].receivedAt);
    SlotsBack(m, now - c.entries[k].receivedAt, |c.entries[k].packet|);
  }

  lemma SlotsBack(m: DnsWire.MessageValue, n: u32, len: nat)
    requires HasSlots(DnsWire.SubTTLMessage(m, n), len)
    ensures HasSlots(m, len) && DnsWire.SubTTLMessage(m, n).header == m.header
  {
    var m' := DnsWire.SubTTLMessage(m, n);
    assert forall i :: 0 <= i < |m.answer| ==> m'.answer[i].offTTL == m.answer[i].offTTL;
    assert forall i :: 0 <= i < |m.authority| ==> m'.authority[i].offTTL == m.authority[i].offTTL;
    assert forall i :: 0 <= i < |m.additional| ==> m'.additional[i].offTTL == m.additional[i].offTTL;
  }

  /**
   Every handing out lowers the times to live by the whole age, from what the one before left: an answer handed out at
   t1 and at t2 is as it should be at t2 exactly when t1 was the moment it was received, or nothing is left at t2.
   */
  lemma ServedTwice(c: Cache, k: Key, m: DnsWire.MessageValue, t1: int, t2: int)
    requires Holds(c, k, m, t2) && c.entries[k].receivedAt <= t1 <= t2
    ensures HasSlots(m, |c.entries[k].packet|)
    ensures var m1 := DnsWire.SubTTLMessage(m, t1 - c.entries[k].receivedAt);
      var once := Served(c, k, m, t1);
      && HasSlots(m1, |once.entries[k].packet|)
      && (Served(once, k, m1, t2) == Served(c, k, m, t2) <==>
            t1 == c.entries[k].receivedAt || DnsWire.AllOver(m, t2 - c.entries[k].receivedAt))
  {
    hide Holds, Served, HasSlots, DnsWire.EncodeMessage, DnsWire.AllOver, DnsWire.SubTTLMessage;
    HoldsFacts(c, k, m, t2);
    var r := c.entries[k].receivedAt;
    var m1 := DnsWire.SubTTLMessage(m, t1 - r);
    ServedPacket(c, k, m, t1, t2);
    ServedPacket(c, k, m, t2, t2);
    var once := Served(c, k, m, t1);
    ServedPacket(once, k, m1, t2, t2);
    DnsWire.PacketTwice(m, t1 - r, t2 - r);
    var twice, right := Served(once, k, m1, t2), Served(c, k, m, t2);
    assert twice.entries[k].packet == DnsWire.EncodeMessage(DnsWire.SubTTLMessage(m1, t2 - r));
    assert right.entries[k].packet == DnsWire.EncodeMessage(DnsWire.SubTTLMessage(m, t2 - r));
    assert twice == Cache(right.entries[k := twice.entries[k]], right.lru);
  }

  lemma HoldsFacts(c: Cache, k: Key, m: DnsWire.MessageValue, now: int)
    requires Holds(c, k, m, now)
    ensures k in c.entries && 0 < c.entries[k].receivedAt <= now < c.entries[k].receivedAt + 0x1_0000_0000
    ensures DnsWire.Packed(m) && !m.header.isQuery
    ensures DnsWire.NoOPT(m.answer) && DnsWire.NoOPT(m.authority) && DnsWire.NoOPT(m.additional)
  {
  }

  /** One address, to live for 300 seconds. */
  const ADDRESS := DnsWire.MessageValue(
    DnsWire.FRESH_HEADER.(isQuery := false), DnsWire.Question([97], 1, 1),
    [DnsRecord.Record([97], DnsRecord.TYPE_A, 1, 300, DnsRecord.A([10, 0, 0, 1]), 0)], [], [])

  lemma AddressPacked()
    ensures var m := DnsWire.PackedMessage(ADDRESS);
      && DnsWire.Packed(m) && !m.header.isQuery && |m.answer| == 1 && m.answer[0].ttl == 300
      && DnsWire.NoOPT(m.answer) && DnsWire.NoOPT(m.authority) && DnsWire.NoOPT(m.additional)
  {
    hide DnsWire.EncodeMessage, DnsWire.Packed, DnsWire.RecordsStart;
    DnsWire.PackStable(ADDRESS);
    assert DnsName.ValidName([97]);
    DnsWire.PackedValid(ADDRESS);
    assert |DnsWire.PackedMessage(ADDRESS).answer| == 1;
  }

  /** Received at 1, handed out at 2 and at 3: the second time 3 seconds are gone from its 300 instead of 2. */
  lemma ServedLow(k: Key)
    ensures var m := DnsWire.PackedMessage(ADDRESS);
      var c := Cache(map[k := Entry(DnsWire.EncodeMessage(m), 1, 1)], [k]);
      && HasSlots(m, |DnsWire.EncodeMessage(m)|)
      && var once, m1 := Served(c, k, m, 2), DnsWire.SubTTLMessage(m, 1);
      HasSlots(m1, |once.entries[k].packet|) && Served(once, k, m1, 3) != Served(c, k, m, 3)
  {
    hide Served, HasSlots, DnsWire.EncodeMessage, DnsWire.PackedMessage, DnsWire.SubTTLMessage;
    AddressPacked();
    var m := DnsWire.PackedMessage(ADDRESS);
    var c := Cache(map[k := Entry(DnsWire.EncodeMessage(m), 1, 1)], [k]);
    assert Holds(c, k, m, 3);
    ServedTwice(c, k, m, 2, 3);
    assert !DnsWire.AllOver(m, 2);
  }
}
