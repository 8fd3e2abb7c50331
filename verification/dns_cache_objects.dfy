/**
 The cache of DNS answers as objects (lib/dns/caches.go, lib/dns/answers.go, lib/dns/answer.go): answers that are
 updated in place, one list of answers for each name, and the list of elements that point at the answers.
 */
module DnsCacheObjects {
  import opened Bytes
  import opened DnsCache
  import opened Lists

  /** An element of the list of answers to prune. */
  class Element {
    const value: Answer

    constructor (an: Answer)
      ensures value == an
    {
      value := an;
    }
  }

  class Answer {
    const qname: string
    const qtype: u16
    const qclass: u16
    var receivedAt: int
    var accessedAt: int
    var msg: Option<seq<byte>>
    var el: Element?

    /** newAnswer: a message from outside is stamped with the time. */
    constructor (name: string, qtype: u16, qclass: u16, packet: seq<byte>, isLocal: bool, now: int)
      ensures KeyOf(this) == Key(name, qtype, qclass)
      ensures msg == Some(packet) && EntryOf(this) == Fresh(packet, isLocal, now)
      ensures el == null
    {
      this.qname, this.qtype, this.qclass := name, qtype, qclass;
      msg, el := Some(packet), null;
      receivedAt, accessedAt := 0, 0;
      if !isLocal {
        receivedAt, accessedAt := now, now;
      }
    }

    method Clear()
      modifies this
      ensures msg == None && el == null
      ensures receivedAt == old(receivedAt) && accessedAt == old(accessedAt)
    {
      msg := None;
      el := null;
    }

    /** update: an answer updated with itself loses its message. */
    method Update(nu: Answer?)
      requires msg.Some?
      modifies this, nu
      ensures nu == null || old(nu.msg).None? ==>
        EntryOf(this) == old(EntryOf(this)) && msg == old(msg) && (nu != null ==> nu.msg == None)
      ensures nu == this ==> msg == None && receivedAt == old(receivedAt) && accessedAt == old(accessedAt)
      ensures nu != null && nu != this && old(nu.msg).Some? ==>
        && msg == old(nu.msg) && nu.msg == None
        && receivedAt == (if old(receivedAt) > 0 then old(nu.receivedAt) else old(receivedAt))
        && accessedAt == (if old(receivedAt) > 0 then old(nu.accessedAt) else old(accessedAt))
      ensures el == old(el)
    {
      if nu == null || nu.msg.None? {
        return;
      }
      if receivedAt > 0 {
        receivedAt := nu.receivedAt;
        accessedAt := nu.accessedAt;
      }
      msg := nu.msg;
      nu.msg := None;
    }
  }

  function KeyOf(a: Answer): Key {
    Key(a.qname, a.qtype, a.qclass)
  }

  function EntryOf(a: Answer): Entry
    reads a
  {
    Entry(if a.msg.Some? then a.msg.value else [], a.receivedAt, a.accessedAt)
  }

  predicate Matches(a: Answer, qtype: u16, qclass: u16) {
    a.qtype == qtype && a.qclass == qclass
  }

  /** The position of the first match, or the end. */
  function Find(s: seq<Answer>, qtype: u16, qclass: u16): (x: nat)
    ensures x <= |s|
    ensures forall i :: 0 <= i < x ==> !Matches(s[i], qtype, qclass)
    ensures x < |s| ==> Matches(s[x], qtype, qclass)
  {
    if s == [] || Matches(s[0], qtype, qclass) then 0 else 1 + Find(s[1..], qtype, qclass)
  }

  lemma FindIs(s: seq<Answer>, qtype: u16, qclass: u16, x: nat)
    requires x <= |s| && (forall i :: 0 <= i < x ==> !Matches(s[i], qtype, qclass))
    requires x < |s| ==> Matches(s[x], qtype, qclass)
    ensures Find(s, qtype, qclass) == x
  {
  }

  /** The last one moves into the place of the one that goes. */
  function SwapOut(s: seq<Answer>, x: nat): seq<Answer>
    requires x < |s|
  {
    s[x := s[|s| - 1]][..|s| - 1]
  }

  lemma SwapOutFacts(s: seq<Answer>, x: nat)
    requires x < |s| && NoDup(s)
    ensures NoDup(SwapOut(s, x))
    ensures forall y :: y in SwapOut(s, x) <==> y in s && y != s[x]
  {
    var r := SwapOut(s, x);
    forall y | y in s && y != s[x] ensures y in r {
      var i :| 0 <= i < |s| && s[i] == y;
      if i == |s| - 1 {
        assert r[x] == y;
      } else {
        assert r[i] == y;
      }
    }
  }

  /** The answers for one name. */
  class Answers {
    var v: seq<Answer>

    constructor (an: Answer?)
      ensures v == if an != null && an.msg.Some? then [an] else []
    {
      v := [];
      new;
      if an != null && an.msg.Some? {
        v := v + [an];
      }
    }

    method Get(qtype: u16, qclass: u16) returns (an: Answer?, x: nat)
      ensures x == Find(v, qtype, qclass)
      ensures an == if x < |v| then v[x] else null
    {
      x := 0;
      while x < |v|
        invariant x <= |v| && forall i :: 0 <= i < x ==> !Matches(v[i], qtype, qclass)
      {
        if v[x].qtype == qtype && v[x].qclass == qclass {
          FindIs(v, qtype, qclass, x);
          return v[x], x;
        }
        x := x + 1;
      }
      FindIs(v, qtype, qclass, x);
      return null, x;
    }

    method Remove(qtype: u16, qclass: u16)
      modifies this
      ensures var s := old(v);
        var x := Find(s, qtype, qclass);
        v == if x < |s| then SwapOut(s, x) else s
    {
      var an, x := Get(qtype, qclass);
      if an != null {
        v := v[x := v[|v| - 1]];
        v := v[..|v| - 1];
      }
    }

    /** Answers.upsert: the answer that was there, updated, or null when the new one is added. */
    method Upsert(nu: Answer?) returns (an: Answer?)
      requires nu !in v && forall a :: a in v ==> a.msg.Some?
      modifies this, v, nu
      ensures nu == null || old(nu.msg).None? ==> an == null && v == old(v) && unchanged(old(v)) && (nu != null ==> unchanged(nu))
      ensures nu != null && old(nu.msg).Some? ==>
        var s := old(v);
        var x := Find(s, nu.qtype, nu.qclass);
        if x < |s| then
          && an == s[x] && v == s && nu.msg == None && an.msg.Some? && an.el == old(s[x].el)
          && EntryOf(an) == Updated(old(EntryOf(s[x])), old(EntryOf(nu)))
          && (forall a :: a in s && a != an ==> unchanged(a))
        else
          an == null && v == s + [nu] && unchanged(s) && unchanged(nu)
    {
      an := null;
      if nu == null || nu.msg.None? {
        return;
      }
      var x;
      an, x := Get(nu.qtype, nu.qclass);
      if an != null {
        an.Update(nu);
      } else {
        v := v + [nu];
      }
    }
  }

  // ---------------------------------------------------------------- the maps and the list, as values

  /** The list of a name holds answers for that name, each under its key in the index, and once. */
  ghost predicate AnswersOk(name: string, s: seq<Answer>, index: map<Key, Answer>) {
    && NoDup(s)
    && forall a :: a in s ==> a.qname == name && KeyOf(a) in index && index[KeyOf(a)] == a
  }

  ghost predicate HomeOk(k: Key, lists: map<string, seq<Answer>>, index: map<Key, Answer>)
    requires k in index
  {
    KeyOf(index[k]) == k && k.name in lists && index[k] in lists[k.name]
  }

  ghost predicate MapsFine(lists: map<string, seq<Answer>>, index: map<Key, Answer>) {
    && (forall n :: n in lists ==> AnswersOk(n, lists[n], index))
    && (forall k :: k in index ==> HomeOk(k, lists, index))
  }

  /** The fields of an answer that change. */
  datatype Fields = Fields(entry: Entry, el: Element?, full: bool)

  ghost function FieldsOf(a: Answer): Fields
    reads a
  {
    Fields(EntryOf(a), a.el, a.msg.Some?)
  }

  ghost function Snapshot(index: map<Key, Answer>): map<Key, Fields>
    reads index.Values
  {
    map k | k in index :: FieldsOf(index[k])
  }

  ghost function EntriesIn(snap: map<Key, Fields>): map<Key, Entry> {
    map k | k in snap :: snap[k].entry
  }

  /** The element points at an answer of the cache that points back at it. */
  ghost predicate ElementOk(e: Element, index: map<Key, Answer>, snap: map<Key, Fields>) {
    var k := KeyOf(e.value);
    k in index && index[k] == e.value && k in snap && snap[k].el == e
  }

  /** An answer that is not local has its element in the list. */
  ghost predicate AnswerOk(a: Answer, f: Fields, lru: seq<Element>) {
    f.full && (!f.entry.Local() ==> f.el != null && f.el in lru && f.el.value == a)
  }

  /** The list is right for all answers but perhaps one, which it does not hold. */
  ghost predicate LruFine(lru: seq<Element>, index: map<Key, Answer>, snap: map<Key, Fields>, but: Answer?) {
    && NoDup(lru)
    && (forall e :: e in lru ==> ElementOk(e, index, snap) && e.value != but)
    && (forall k :: k in index && index[k] != but ==> k in snap && AnswerOk(index[k], snap[k], lru))
  }

  ghost function KeysOf(s: seq<Element>): (r: seq<Key>)
    ensures |r| == |s|
  {
    seq(|s|, i requires 0 <= i < |s| => KeyOf(s[i].value))
  }

  function Listing(lists: map<string, seq<Answer>>, name: string): seq<Answer> {
    if name in lists then lists[name] else []
  }

  lemma FineAdd(lists: map<string, seq<Answer>>, index: map<Key, Answer>, nu: Answer)
    requires MapsFine(lists, index) && KeyOf(nu) !in index && nu !in index.Values
    ensures MapsFine(lists[nu.qname := Listing(lists, nu.qname) + [nu]], index[KeyOf(nu) := nu])
  {
    var ls, ix := lists[nu.qname := Listing(lists, nu.qname) + [nu]], index[KeyOf(nu) := nu];
    forall n | n in ls ensures AnswersOk(n, ls[n], ix) {
      if n in lists {
        assert AnswersOk(n, lists[n], index);
        assert nu !in lists[n];
      }
    }
    forall k | k in ix ensures HomeOk(k, ls, ix) {
      if k != KeyOf(nu) {
        assert HomeOk(k, lists, index);
      }
    }
  }

  lemma FineRemove(lists: map<string, seq<Answer>>, index: map<Key, Answer>, k: Key, x: nat)
    requires MapsFine(lists, index) && k in index && k.name in lists
    requires x < |lists[k.name]| && lists[k.name][x] == index[k]
    ensures MapsFine(lists[k.name := SwapOut(lists[k.name], x)], index - {k})
  {
    var s := lists[k.name];
    var ls, ix := lists[k.name := SwapOut(s, x)], index - {k};
    assert HomeOk(k, lists, index);
    forall n | n in ls ensures AnswersOk(n, ls[n], ix) {
      assert AnswersOk(n, lists[n], index);
      SwapOutFacts(s, x);
    }
    forall q | q in ix ensures HomeOk(q, ls, ix) {
      assert HomeOk(q, lists, index);
      SwapOutFacts(s, x);
    }
  }

  /** Scanning the list of a name finds what the index says. */
  lemma FoundIs(lists: map<string, seq<Answer>>, index: map<Key, Answer>, k: Key)
    requires MapsFine(lists, index)
    ensures var s := Listing(lists, k.name);
      var x := Find(s, k.qtype, k.qclass);
      if x < |s| then k in index && index[k] == s[x] && KeyOf(s[x]) == k else k !in index
  {
    var s := Listing(lists, k.name);
    var x := Find(s, k.qtype, k.qclass);
    if k in index {
      assert HomeOk(k, lists, index);
      var i :| 0 <= i < |s| && s[i] == index[k];
      assert Matches(s[i], k.qtype, k.qclass);
      assert x <= i;
    }
    if x < |s| {
      assert AnswersOk(k.name, s, index);
      assert s[x] in s && KeyOf(s[x]) == k;
    }
  }

  lemma LruMore(lru: seq<Element>, index: map<Key, Answer>, snap: map<Key, Fields>, nu: Answer, f: Fields)
    requires LruFine(lru, index, snap, null) && KeyOf(nu) !in index && nu !in index.Values
    ensures LruFine(lru, index[KeyOf(nu) := nu], snap[KeyOf(nu) := f], nu)
  {
    var ix, sn := index[KeyOf(nu) := nu], snap[KeyOf(nu) := f];
    forall e | e in lru ensures ElementOk(e, ix, sn) && e.value != nu {
      assert ElementOk(e, index, snap);
    }
    forall k | k in ix && ix[k] != nu ensures k in sn && AnswerOk(ix[k], sn[k], lru) {
      assert AnswerOk(index[k], snap[k], lru);
    }
  }

  /** An answer changed in place that keeps its element. */
  lemma LruChange(lru: seq<Element>, index: map<Key, Answer>, snap: map<Key, Fields>, k: Key, f: Fields)
    requires LruFine(lru, index, snap, null) && k in index && k in snap
    requires f.full && f.el == snap[k].el && (!f.entry.Local() ==> !snap[k].entry.Local())
    ensures LruFine(lru, index, snap[k := f], null)
  {
    var sn := snap[k := f];
    forall e | e in lru ensures ElementOk(e, index, sn) {
      assert ElementOk(e, index, snap);
    }
    forall q | q in index ensures q in sn && AnswerOk(index[q], sn[q], lru) {
      assert AnswerOk(index[q], snap[q], lru);
    }
  }

  lemma LruPush(lru: seq<Element>, index: map<Key, Answer>, snap: map<Key, Fields>, nu: Answer, e: Element)
    requires LruFine(lru, index, snap, nu) && KeyOf(nu) in index && index[KeyOf(nu)] == nu && e !in lru && e.value == nu
    requires KeyOf(nu) in snap && snap[KeyOf(nu)].full && forall k :: k in index && k != KeyOf(nu) ==> index[k] != nu
    ensures LruFine(lru + [e], index, snap[KeyOf(nu) := snap[KeyOf(nu)].(el := e)], null)
  {
    var sn, l := snap[KeyOf(nu) := snap[KeyOf(nu)].(el := e)], lru + [e];
    forall d | d in l ensures ElementOk(d, index, sn) {
      assert d in lru ==> ElementOk(d, index, snap);
    }
    forall q | q in index ensures q in sn && AnswerOk(index[q], sn[q], l) {
      assert q != KeyOf(nu) ==> AnswerOk(index[q], snap[q], lru);
    }
  }

  lemma LruLocal(lru: seq<Element>, index: map<Key, Answer>, snap: map<Key, Fields>, nu: Answer)
    requires LruFine(lru, index, snap, nu) && KeyOf(nu) in snap
    requires snap[KeyOf(nu)].full && snap[KeyOf(nu)].entry.Local()
    requires forall k :: k in index && k != KeyOf(nu) ==> index[k] != nu
    ensures LruFine(lru, index, snap, null)
  {
  }

  lemma HasElement(lru: seq<Element>, index: map<Key, Answer>, snap: map<Key, Fields>, an: Answer)
    requires LruFine(lru, index, snap, null) && KeyOf(an) in index && index[KeyOf(an)] == an
    requires KeyOf(an) in snap && !snap[KeyOf(an)].entry.Local()
    ensures var e := snap[KeyOf(an)].el; e != null && e in lru && e.value == an
    ensures snap[KeyOf(an)].full
  {
    assert AnswerOk(an, snap[KeyOf(an)], lru);
  }

  lemma LruMove(lru: seq<Element>, index: map<Key, Answer>, snap: map<Key, Fields>, e: Element)
    requires LruFine(lru, index, snap, null) && e in lru
    ensures LruFine(ToBack(lru, e), index, snap, null)
    ensures KeysOf(ToBack(lru, e)) == ToBack(KeysOf(lru), KeyOf(e.value))
  {
    hide ToBack, KeysOf;
    assert forall d :: d in lru ==> ElementOk(d, index, snap);
    ToBackFacts(lru, e);
    KeysToBack(lru, e);
    var l := ToBack(lru, e);
    var none: Answer? := null;
    forall d | d in l ensures ElementOk(d, index, snap) && d.value != none {
      var i :| 0 <= i < |l| && l[i] == d;
      assert l[i] in lru;
    }
    forall q | q in index ensures AnswerOk(index[q], snap[q], ToBack(lru, e)) {
      assert AnswerOk(index[q], snap[q], lru);
    }
  }

  /** The back pointers make the abstract cache a good one. */
  lemma StateGood(lists: map<string, seq<Answer>>, lru: seq<Element>, index: map<Key, Answer>, snap: map<Key, Fields>)
    requires MapsFine(lists, index) && LruFine(lru, index, snap, null) && snap.Keys == index.Keys
    ensures Good(Cache(EntriesIn(snap), KeysOf(lru)))
  {
    forall i, j | 0 <= i < j < |lru| ensures KeyOf(lru[i].value) != KeyOf(lru[j].value) {
      assert lru[i] in lru && lru[j] in lru;
      assert ElementOk(lru[i], index, snap) && ElementOk(lru[j], index, snap);
    }
    forall k | k in KeysOf(lru) ensures k in index {
      var i :| 0 <= i < |lru| && KeysOf(lru)[i] == k;
      assert lru[i] in lru && ElementOk(lru[i], index, snap);
    }
    forall k | k in index && !snap[k].entry.Local() ensures k in KeysOf(lru) {
      assert AnswerOk(index[k], snap[k], lru) && HomeOk(k, lists, index);
      var i :| 0 <= i < |lru| && lru[i] == snap[k].el;
      assert KeysOf(lru)[i] == KeyOf(lru[i].value);
    }
  }

  /** Changing one answer in place changes one entry of the snapshot. */
  lemma OneChanged(lists: map<string, seq<Answer>>, index: map<Key, Answer>, before: map<Key, Fields>, a: Answer)
    requires MapsFine(lists, index) && KeyOf(a) in index && index[KeyOf(a)] == a && before.Keys == index.Keys
    requires forall q :: q in index && index[q] != a ==> FieldsOf(index[q]) == before[q]
    ensures Snapshot(index) == before[KeyOf(a) := FieldsOf(a)]
    ensures EntriesIn(Snapshot(index)) == EntriesIn(before)[KeyOf(a) := EntryOf(a)]
  {
    hide MapsFine;
    OnlyOne(lists, index, a);
    assert Snapshot(index) == before[KeyOf(a) := FieldsOf(a)];
    EntryChanged(before, KeyOf(a), FieldsOf(a));
  }

  lemma EntryChanged(snap: map<Key, Fields>, k: Key, f: Fields)
    ensures EntriesIn(snap[k := f]) == EntriesIn(snap)[k := f.entry]
  {
  }

  lemma SameEntry(snap: map<Key, Fields>, k: Key)
    requires k in snap
    ensures EntriesIn(snap)[k := snap[k].entry] == EntriesIn(snap)
  {
  }

  lemma ListedAnswers(lists: map<string, seq<Answer>>, index: map<Key, Answer>, lru: seq<Element>,
                      snap: map<Key, Fields>, name: string)
    requires MapsFine(lists, index) && LruFine(lru, index, snap, null) && name in lists
    ensures forall a :: a in lists[name] ==>
      KeyOf(a) in index && index[KeyOf(a)] == a && a in index.Values && KeyOf(a) in snap && snap[KeyOf(a)].full
  {
    assert AnswersOk(name, lists[name], index);
    forall a | a in lists[name] ensures snap[KeyOf(a)].full {
      assert AnswerOk(a, snap[KeyOf(a)], lru);
    }
  }

  class Caches {
    var v: map<string, Answers>
    var lru: seq<Element>
    var pruneDelay: int
    var pruneThreshold: int
    ghost var index: map<Key, Answer>

    ghost function Lists(): map<string, seq<Answer>>
      reads this`v, v.Values
    {
      map n | n in v :: v[n].v
    }

    ghost predicate Separate()
      reads this`v
    {
      forall m, n :: m in v && n in v && m != n ==> v[m] != v[n]
    }

    ghost predicate MapsOk()
      reads this`v, this`index, v.Values
    {
      Separate() && MapsFine(Lists(), index)
    }

    ghost predicate Valid()
      reads this, v.Values, index.Values
    {
      MapsOk() && LruFine(lru, index, Snapshot(index), null)
    }

    ghost function State(): (c: Cache)
      requires Valid()
      reads this, v.Values, index.Values
      ensures Good(c)
    {
      StateGood(Lists(), lru, index, Snapshot(index));
      Cache(EntriesIn(Snapshot(index)), KeysOf(lru))
    }

    /** newCaches: delays under a minute and thresholds less than a minute back become an hour (in seconds here). */
    constructor (pruneDelay: int, pruneThreshold: int)
      ensures Valid() && State() == EMPTY
      ensures this.pruneDelay >= 60 && this.pruneThreshold <= -60
      ensures this.pruneDelay == if pruneDelay < 60 then 3600 else pruneDelay
      ensures this.pruneThreshold == if pruneThreshold > -60 then -3600 else pruneThreshold
    {
      this.pruneDelay := if pruneDelay < 60 then 3600 else pruneDelay;
      this.pruneThreshold := if pruneThreshold > -60 then -3600 else pruneThreshold;
      v, lru, index := map[], [], map[];
    }

    // ---------------------------------------------------------------- get

    method Get(qname: string, qtype: u16, qclass: u16, now: int) returns (ans: Answers?, an: Answer?)
      requires Valid()
      modifies this`lru, index.Values
      ensures Valid() && index == old(index) && v == old(v)
      ensures State() == Touched(old(State()), Key(qname, qtype, qclass), now)
      ensures ans == if qname in v then v[qname] else null
      ensures an == if Key(qname, qtype, qclass) in index then index[Key(qname, qtype, qclass)] else null
    {
      hide MapsFine, LruFine, KeysOf, ToBack;
      ghost var k := Key(qname, qtype, qclass);
      FoundIs(Lists(), index, k);
      ans, an := null, null;
      if qname !in v {
        return;
      }
      ans := v[qname];
      var x;
      an, x := ans.Get(qtype, qclass);
      if an != null && an.receivedAt > 0 {
        Touch(an, now);
      }
    }

    /** The answer goes to the back of the list, with a new time of access. */
    method Touch(an: Answer, now: int)
      requires Valid() && KeyOf(an) in index && index[KeyOf(an)] == an && an.receivedAt > 0
      modifies this`lru, an`accessedAt
      ensures Valid()
      ensures State() == Cache(old(State()).entries[KeyOf(an) := old(EntryOf(an)).(accessedAt := now)],
                               ToBack(old(State()).lru, KeyOf(an)))
    {
      hide MapsFine, LruFine, KeysOf, ToBack;
      ghost var snap := Snapshot(index);
      HasElement(lru, index, snap, an);
      var e: Element := an.el;
      LruMove(lru, index, snap, e);
      lru := ToBack(lru, e);
      LruChange(lru, index, snap, KeyOf(an), FieldsOf(an).(entry := EntryOf(an).(accessedAt := now)));
      an.accessedAt := now;
      OneChanged(Lists(), index, snap, an);
    }

    // ---------------------------------------------------------------- upsert

    method Upsert(nu: Answer?) returns (inserted: bool)
      requires Valid() && nu !in index.Values
      modifies this`v, this`lru, this`index, v.Values, index.Values, nu
      ensures Valid()
      ensures nu == null || old(nu.msg).None? ==> !inserted && State() == old(State()) && index == old(index)
      ensures nu != null && old(nu.msg).Some? ==>
        && State() == Upserted(old(State()), KeyOf(nu), old(EntryOf(nu)))
        && inserted == (KeyOf(nu) !in old(index))
        && index == if inserted then old(index)[KeyOf(nu) := nu] else old(index)
    {
      hide MapsFine, LruFine, KeysOf;
      assert EntriesIn(Snapshot(index)).Keys == index.Keys;
      if nu == null || nu.msg.None? {
        return false;
      }
      inserted := false;
      FoundIs(Lists(), index, KeyOf(nu));
      if nu.qname !in v {
        inserted := true;
        AddName(nu);
        PushBack(nu);
      } else {
        var an := UpsertListed(nu);
        if an == null {
          inserted := true;
          PushBack(nu);
        }
      }
    }

    /** The maps hold the new answer; the list is yet to. */
    ghost predicate Added(nu: Answer)
      reads this, v.Values, index.Values
    {
      MapsOk() && KeyOf(nu) in index && index[KeyOf(nu)] == nu && LruFine(lru, index, Snapshot(index), nu)
    }

    method AddName(nu: Answer)
      requires Valid() && nu !in index.Values && nu.qname !in v && KeyOf(nu) !in index && nu.msg.Some?
      modifies this`v, this`index
      ensures Added(nu) && index == old(index)[KeyOf(nu) := nu]
      ensures EntriesIn(Snapshot(index)) == old(EntriesIn(Snapshot(index)))[KeyOf(nu) := EntryOf(nu)]
    {
      hide MapsFine, LruFine;
      ghost var lists, before, snap := Lists(), index, Snapshot(index);
      var l := new Answers(nu);
      v := v[nu.qname := l];
      index := index[KeyOf(nu) := nu];
      assert Listing(lists, nu.qname) + [nu] == [nu];
      assert Lists() == lists[nu.qname := [nu]];
      AddedIn(nu, lists, before, snap);
    }

    /** The new answer goes to the back of the list, unless it is local. */
    method PushBack(nu: Answer)
      requires Added(nu) && nu.msg.Some?
      modifies this`lru, nu`el
      ensures Valid() && EntriesIn(Snapshot(index)) == old(EntriesIn(Snapshot(index)))
      ensures KeysOf(lru) == if nu.receivedAt > 0 then old(KeysOf(lru)) + [KeyOf(nu)] else old(KeysOf(lru))
    {
      hide LruFine, MapsFine, KeysOf;
      OnlyOne(Lists(), index, nu);
      ghost var snap := Snapshot(index);
      if nu.receivedAt > 0 {
        var e := new Element(nu);
        PushElement(nu, e);
      } else {
        LruLocal(lru, index, snap, nu);
      }
    }

    method PushElement(nu: Answer, e: Element)
      requires Added(nu) && nu.msg.Some? && e.value == nu && e !in lru
      modifies this`lru, nu`el
      ensures Valid() && EntriesIn(Snapshot(index)) == old(EntriesIn(Snapshot(index)))
      ensures KeysOf(lru) == old(KeysOf(lru)) + [KeyOf(nu)]
    {
      hide LruFine, MapsFine;
      OnlyOne(Lists(), index, nu);
      ghost var snap := Snapshot(index);
      LruPush(lru, index, snap, nu, e);
      nu.el := e;
      lru := lru + [e];
      OneChanged(Lists(), index, snap, nu);
      assert Snapshot(index) == snap[KeyOf(nu) := snap[KeyOf(nu)].(el := e)];
      SameEntry(snap, KeyOf(nu));
    }

    /** The part of upsert for a name that has answers. */
    method UpsertListed(nu: Answer) returns (an: Answer?)
      requires Valid() && nu !in index.Values && nu.qname in v && nu.msg.Some?
      modifies this`index, v.Values, index.Values, nu
      ensures an == if KeyOf(nu) in old(index) then old(index)[KeyOf(nu)] else null
      ensures an == null ==>
        && Added(nu) && index == old(index)[KeyOf(nu) := nu] && unchanged(nu)
        && EntriesIn(Snapshot(index)) == old(EntriesIn(Snapshot(index)))[KeyOf(nu) := EntryOf(nu)]
      ensures an != null ==>
        && Valid() && index == old(index)
        && EntriesIn(Snapshot(index)) ==
             old(EntriesIn(Snapshot(index)))[KeyOf(nu) := Updated(old(EntryOf(index[KeyOf(nu)])), old(EntryOf(nu)))]
    {
      hide MapsFine, LruFine, Find;
      FoundIs(Lists(), index, KeyOf(nu));
      ListedAnswers(Lists(), index, lru, Snapshot(index), nu.qname);
      ghost var lists, snap := Lists(), Snapshot(index);
      an := v[nu.qname].Upsert(nu);
      if an != null {
        assert Lists() == lists;
        forall q | q in index && index[q] != an ensures FieldsOf(index[q]) == snap[q] {
          if index[q] in lists[nu.qname] {
            assert old(allocated(index[q]));
          }
        }
        UpdatedIn(an, snap);
      } else {
        ghost var before := index;
        index := index[KeyOf(nu) := nu];
        AddedIn(nu, lists, before, snap);
      }
    }

    lemma UpdatedIn(an: Answer, snap: map<Key, Fields>)
      requires MapsOk() && LruFine(lru, index, snap, null) && KeyOf(an) in index && index[KeyOf(an)] == an
      requires snap.Keys == index.Keys && forall q :: q in index && index[q] != an ==> FieldsOf(index[q]) == snap[q]
      requires an.msg.Some? && an.el == snap[KeyOf(an)].el
      requires an.receivedAt > 0 ==> snap[KeyOf(an)].entry.receivedAt > 0
      ensures Valid() && EntriesIn(Snapshot(index)) == EntriesIn(snap)[KeyOf(an) := EntryOf(an)]
    {
      hide MapsFine, LruFine;
      OneChanged(Lists(), index, snap, an);
      LruChange(lru, index, snap, KeyOf(an), FieldsOf(an));
    }

    lemma AddedIn(nu: Answer, lists: map<string, seq<Answer>>, before: map<Key, Answer>, snap: map<Key, Fields>)
      requires Separate() && MapsFine(lists, before) && LruFine(lru, before, snap, null)
      requires Lists() == lists[nu.qname := Listing(lists, nu.qname) + [nu]] && index == before[KeyOf(nu) := nu]
      requires KeyOf(nu) !in before && nu !in before.Values
      requires snap.Keys == before.Keys && forall q :: q in before ==> FieldsOf(before[q]) == snap[q]
      ensures Added(nu)
      ensures EntriesIn(Snapshot(index)) == EntriesIn(snap)[KeyOf(nu) := EntryOf(nu)]
    {
      hide MapsFine, LruFine;
      FineAdd(lists, before, nu);
      LruMore(lru, before, snap, nu, FieldsOf(nu));
      assert Snapshot(index) == snap[KeyOf(nu) := FieldsOf(nu)];
      EntryChanged(snap, KeyOf(nu), FieldsOf(nu));
    }

    // ---------------------------------------------------------------- prune

    /** remove: the answer leaves the list of its name and is cleared. */
    method Remove(an: Answer)
      requires MapsOk() && KeyOf(an) in index && index[KeyOf(an)] == an
      modifies this`index, v.Values, an
      ensures MapsOk() && index == old(index) - {KeyOf(an)}
      ensures Snapshot(index) == old(Snapshot(index)) - {KeyOf(an)}
      ensures an.msg == None && an.el == null
    {
      hide MapsFine, Find, SwapOut, FieldsOf;
      ghost var k, lists := KeyOf(an), Lists();
      FoundIs(lists, index, k);
      OnlyOne(lists, index, an);
      if an.qname in v {
        v[an.qname].Remove(an.qtype, an.qclass);
        ghost var x := Find(lists[k.name], k.qtype, k.qclass);
        FineRemove(lists, index, k, x);
        assert Lists() == lists[k.name := SwapOut(lists[k.name], x)];
      }
      an.Clear();
      index := index - {k};
    }

    method RemoveFront()
      requires Valid() && lru != []
      modifies this`lru, this`index, v.Values, index.Values
      ensures Valid() && index == old(index) - {KeyOf(old(lru)[0].value)}
      ensures var c := old(State()); State() == Cache(c.entries - {c.lru[0]}, c.lru[1..])
    {
      hide MapsFine, LruFine, KeysOf, EntriesIn, Snapshot, Good;
      KeysFine(Lists(), index);
      LruDrop(lru, index, Snapshot(index));
      var an := lru[0].value;
      lru := lru[1..];
      Remove(an);
    }

    lemma FrontEntry()
      requires Valid() && lru != []
      ensures State().lru != [] && State().lru[0] in State().entries
      ensures State().entries[State().lru[0]] == EntryOf(lru[0].value)
      ensures lru[0].value in index.Values
    {
      KeysFine(Lists(), index);
      LruDrop(lru, index, Snapshot(index));
    }

    lemma StateFacts()
      requires Valid()
      ensures (State().lru == []) == (lru == []) && KeysIn(State().lru, State().entries)
    {
    }

    method Prune(now: int) returns (n: nat)
      requires Valid()
      modifies this`lru, this`index, v.Values, index.Values
      ensures Valid()
      ensures State() == Pruned(old(State()), now + pruneThreshold)
      ensures n == Stale(old(State()).lru, old(State()).entries, now + pruneThreshold)
    {
      hide Valid, State, Good, Stale, Pruned, FrontGone;
      var exp := now + pruneThreshold;
      n := 0;
      ghost var c := State();
      StateFacts();
      NoneGone(c, exp);
      while lru != []
        invariant Valid() && v == old(v) && index.Values <= old(index).Values
        invariant FrontGone(c, exp, n, State()) && (State().lru == []) == (lru == [])
        decreases |State().lru|
      {
        var an := lru[0].value;
        FrontEntry();
        if an.accessedAt > exp {
          break;
        }
        OneGone(c, exp, n, State());
        RemoveFront();
        StateFacts();
        n := n + 1;
      }
      AllGone(c, exp, n, State());
    }
  }

  /** What the cache is after the loop of prune has removed n answers. */
  ghost predicate FrontGone(c: Cache, exp: int, n: nat, s: Cache)
    requires KeysIn(c.lru, c.entries)
  {
    && n <= |c.lru| && s == Cache(c.entries - KeySet(c.lru[..n]), c.lru[n..])
    && forall i :: 0 <= i < n ==> c.entries[c.lru[i]].accessedAt <= exp
  }

  lemma NoneGone(c: Cache, exp: int)
    requires KeysIn(c.lru, c.entries)
    ensures FrontGone(c, exp, 0, c)
  {
    PruneNone(c);
  }

  lemma OneGone(c: Cache, exp: int, n: nat, s: Cache)
    requires KeysIn(c.lru, c.entries) && FrontGone(c, exp, n, s)
    requires s.lru != [] && s.lru[0] in s.entries && s.entries[s.lru[0]].accessedAt <= exp
    ensures FrontGone(c, exp, n + 1, Cache(s.entries - {s.lru[0]}, s.lru[1..]))
  {
    hide KeySet, KeysIn;
    PruneOne(c, n);
  }

  lemma AllGone(c: Cache, exp: int, n: nat, s: Cache)
    requires KeysIn(c.lru, c.entries) && FrontGone(c, exp, n, s)
    requires s.lru != [] ==> s.lru[0] in s.entries && s.entries[s.lru[0]].accessedAt > exp
    ensures s == Pruned(c, exp) && n == Stale(c.lru, c.entries, exp)
  {
    hide KeySet;
    PrunedIs(c, exp, n);
  }

  /** The front of the list goes, and its answer with it. */
  lemma LruDrop(lru: seq<Element>, index: map<Key, Answer>, snap: map<Key, Fields>)
    requires LruFine(lru, index, snap, null) && lru != []
    requires forall q :: q in index ==> KeyOf(index[q]) == q
    ensures var k := KeyOf(lru[0].value);
      && k in index && index[k] == lru[0].value && k in snap
      && LruFine(lru[1..], index - {k}, snap - {k}, null)
      && KeysOf(lru[1..]) == KeysOf(lru)[1..] && KeysOf(lru)[0] == k
      && EntriesIn(snap - {k}) == EntriesIn(snap) - {k}
  {
    var k, l := KeyOf(lru[0].value), lru[1..];
    assert lru[0] in lru && ElementOk(lru[0], index, snap);
    var none: Answer? := null;
    forall d | d in l ensures ElementOk(d, index - {k}, snap - {k}) && d.value != none {
      assert d in lru && ElementOk(d, index, snap);
    }
    forall q | q in index - {k} ensures q in snap - {k} && AnswerOk(index[q], snap[q], l) {
      assert AnswerOk(index[q], snap[q], lru);
      if !snap[q].entry.Local() {
        assert snap[q].el != lru[0];
        var i :| 0 <= i < |lru| && lru[i] == snap[q].el;
        assert l[i - 1] == snap[q].el;
      }
    }
  }

  lemma KeysFine(lists: map<string, seq<Answer>>, index: map<Key, Answer>)
    requires MapsFine(lists, index)
    ensures forall q :: q in index ==> KeyOf(index[q]) == q
  {
    forall q | q in index ensures KeyOf(index[q]) == q {
      assert HomeOk(q, lists, index);
    }
  }

  lemma OnlyOne(lists: map<string, seq<Answer>>, index: map<Key, Answer>, nu: Answer)
    requires MapsFine(lists, index)
    ensures forall k :: k in index && k != KeyOf(nu) ==> index[k] != nu
  {
    forall k | k in index && k != KeyOf(nu) ensures index[k] != nu {
      assert HomeOk(k, lists, index);
    }
  }

  lemma {:induction false} KeysWithout(s: seq<Element>, e: Element)
    requires forall d :: d in s && KeyOf(d.value) == KeyOf(e.value) ==> d == e
    ensures KeysOf(Without(s, e)) == Without(KeysOf(s), KeyOf(e.value))
  {
    if s != [] {
      assert KeysOf(s)[1..] == KeysOf(s[1..]) && KeysOf(s)[0] == KeyOf(s[0].value);
      if s[0] != e {
        KeysWithout(s[1..], e);
        assert KeysOf([s[0]] + Without(s[1..], e)) == [KeyOf(s[0].value)] + KeysOf(Without(s[1..], e));
      }
    }
  }

  lemma KeysToBack(s: seq<Element>, e: Element)
    requires forall d :: d in s && KeyOf(d.value) == KeyOf(e.value) ==> d == e
    ensures KeysOf(ToBack(s, e)) == ToBack(KeysOf(s), KeyOf(e.value))
  {
    KeysWithout(s, e);
  }
}
