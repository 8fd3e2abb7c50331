/**
 INI files in memory (lib/ini): looking up values, merging sections, and pruning, as functions on the list of sections.
 */
module Ini {
  import opened Lists

  datatype Option<T> = None | Some(value: T)

  // Line modes are sets of bits.
  const MODE_EMPTY := 0
  const MODE_COMMENT := 1
  const MODE_SECTION := 2
  const MODE_SUBSECTION := 4
  const MODE_SINGLE := 8
  const MODE_VALUE := 16
  const MODE_MULTI := 32

  predicate HasMode(mode: nat, bit: nat)
    requires bit > 0
  {
    mode / bit % 2 == 1
  }

  datatype Var = Var(mode: nat, key: string, keyLower: string, value: string)

  datatype Sec = Sec(mode: nat, name: string, nameLower: string, sub: string, vars: seq<Var>)

  function LowerChar(c: char): char {
    if 'A' <= c <= 'Z' then c + ('a' - 'A') else c
  }

  function Lower(s: string): (r: string)
    ensures |r| == |s|
  {
    seq(|s|, i requires 0 <= i < |s| => LowerChar(s[i]))
  }

  lemma LowerTwice(s: string)
    ensures Lower(Lower(s)) == Lower(s)
  {
  }

  const TRUE := "true"

  function Norm(value: string): string {
    if value == "" then TRUE else value
  }

  // ---------------------------------------------------------------- variables of a section

  /** The position of the first variable with this key and value, or the end. */
  function PlaceOf(vars: seq<Var>, keyLower: string, value: string): (x: nat)
    ensures x <= |vars|
    ensures forall i :: 0 <= i < x ==> !(vars[i].keyLower == keyLower && vars[i].value == value)
    ensures x < |vars| ==> vars[x].keyLower == keyLower && vars[x].value == value
  {
    if vars == [] || (vars[0].keyLower == keyLower && vars[0].value == value) then 0
    else 1 + PlaceOf(vars[1..], keyLower, value)
  }

  /** addUniqValue: a variable that is there moves to the end. */
  function AddUniq(vars: seq<Var>, key: string, value: string): seq<Var> {
    var x := PlaceOf(vars, Lower(key), value);
    if x < |vars| then vars[..x] + vars[x + 1..] + [vars[x]]
    else vars + [Var(MODE_VALUE, key, Lower(key), value)]
  }

  predicate Blank(v: Var) {
    v.mode == MODE_EMPTY || v.mode == MODE_COMMENT
  }

  /** The variables of a section put into another one, without blank lines and comments. */
  function MergeVars(vars: seq<Var>, more: seq<Var>): seq<Var>
    decreases |more|
  {
    if more == [] then vars
    else MergeVars(if Blank(more[0]) then vars else AddUniq(vars, more[0].keyLower, more[0].value), more[1..])
  }

  function PruneVars(vars: seq<Var>, more: seq<Var>): seq<Var>
    decreases |more|
  {
    if more == [] then vars
    else PruneVars(if Blank(more[0]) then vars else AddUniq(vars, more[0].key, Norm(more[0].value)), more[1..])
  }

  // ---------------------------------------------------------------- sections

  predicate Named(s: Sec, nameLower: string, sub: string) {
    s.nameLower == nameLower && s.sub == sub
  }

  function FindSec(secs: seq<Sec>, nameLower: string, sub: string): (x: nat)
    ensures x <= |secs|
    ensures forall i :: 0 <= i < x ==> !Named(secs[i], nameLower, sub)
    ensures x < |secs| ==> Named(secs[x], nameLower, sub)
  {
    if secs == [] || Named(secs[0], nameLower, sub) then 0 else 1 + FindSec(secs[1..], nameLower, sub)
  }

  function MergeSection(secs: seq<Sec>, s: Sec): seq<Sec> {
    var x := FindSec(secs, s.nameLower, s.sub);
    if x < |secs| then secs[x := secs[x].(vars := MergeVars(secs[x].vars, s.vars))] else secs + [s]
  }

  /** A section as Prune makes it anew. */
  function PruneSec(s: Sec): Sec {
    Sec(if s.sub != "" then MODE_SECTION + MODE_SUBSECTION else MODE_SECTION, s.name, s.nameLower, s.sub,
        PruneVars([], s.vars))
  }

  function PruneFrom(done: seq<Sec>, secs: seq<Sec>): seq<Sec>
    decreases |secs|
  {
    if secs == [] then done
    else PruneFrom(if secs[0].mode == MODE_EMPTY then done else MergeSection(done, PruneSec(secs[0])), secs[1..])
  }

  function Prune(secs: seq<Sec>): seq<Sec> {
    PruneFrom([], secs)
  }

  function Rebase(secs: seq<Sec>, other: seq<Sec>): seq<Sec>
    decreases |other|
  {
    if other == [] then secs else Rebase(MergeSection(secs, other[0]), other[1..])
  }

  // ---------------------------------------------------------------- lookups

  /** The values under a key in lower case, from top to bottom. */
  function VarVals(vars: seq<Var>, key: string): seq<string> {
    if vars == [] then []
    else (if vars[0].keyLower == key then [vars[0].value] else []) + VarVals(vars[1..], key)
  }

  /** Section.get: the last value. */
  function SecGet(vars: seq<Var>, key: string): Option<string> {
    if vars == [] || key == "" then None
    else if vars[|vars| - 1].keyLower == Lower(key) then Some(vars[|vars| - 1].value)
    else SecGet(vars[..|vars| - 1], key)
  }

  /** Ini.Get: the sections from the last to the first. */
  function Get(secs: seq<Sec>, name: string, sub: string, key: string): Option<string> {
    if secs == [] || name == "" || key == "" then None
    else
      var s := secs[|secs| - 1];
      var r := if Named(s, Lower(name), sub) then SecGet(s.vars, key) else None;
      if r.Some? then r else Get(secs[..|secs| - 1], name, sub, key)
  }

  function SecGets(vars: seq<Var>, key: string): seq<string> {
    if key == "" then [] else VarVals(vars, Lower(key))
  }

  /** Ini.Gets: the values of all sections of that name, from top to bottom. */
  function Gets(secs: seq<Sec>, name: string, sub: string, key: string): seq<string> {
    if secs == [] then []
    else
      (if HasMode(secs[0].mode, MODE_SECTION) && Named(secs[0], Lower(name), sub) then SecGets(secs[0].vars, key) else [])
      + Gets(secs[1..], name, sub, key)
  }

  // ---------------------------------------------------------------- what the reader and the setters keep

  predicate VarOk(v: Var) {
    if Blank(v) then v.keyLower == "" else v.keyLower == Lower(v.key) && v.key != ""
  }

  predicate SecOk(s: Sec) {
    && s.nameLower == Lower(s.name)
    && (if s.mode == MODE_EMPTY then s.name == "" else s.name != "" && HasMode(s.mode, MODE_SECTION))
    && forall v :: v in s.vars ==> VarOk(v)
  }

  /** Blank lines have no key, others their key in lower case; only the lines before the first header have no section. */
  predicate IniOk(secs: seq<Sec>) {
    forall s :: s in secs ==> SecOk(s)
  }

  // ---------------------------------------------------------------- keeping the last of equal values

  function KeepLast(vals: seq<string>): seq<string> {
    if vals == [] then []
    else if vals[0] in vals[1..] then KeepLast(vals[1..])
    else [vals[0]] + KeepLast(vals[1..])
  }

  /** Every value once. */
  lemma {:induction false} KeepLastNoDup(vals: seq<string>)
    ensures NoDup(KeepLast(vals))
    ensures forall x :: x in KeepLast(vals) <==> x in vals
  {
    if vals != [] {
      KeepLastNoDup(vals[1..]);
      assert forall x :: x in vals <==> x == vals[0] || x in vals[1..];
      if vals[0] !in vals[1..] {
        ConsNoDup(vals[0], KeepLast(vals[1..]));
      }
    }
  }

  /** One more value: an equal one before it goes, and it is the last. */
  lemma {:induction false} KeepLastSnoc(vals: seq<string>, x: string)
    ensures KeepLast(vals + [x]) == ToBack(KeepLast(vals), x)
  {
    if vals == [] {
      assert KeepLast([x]) == [x] + KeepLast([]);
    } else {
      var rest := vals[1..];
      assert (vals + [x])[1..] == rest + [x] && (vals + [x])[0] == vals[0];
      KeepLastSnoc(rest, x);
      KeepLastNoDup(rest);
      if vals[0] in rest {
      } else if vals[0] == x {
        assert KeepLast(vals) == [x] + KeepLast(rest);
        WithoutAbsent(KeepLast(rest), x);
      } else {
        assert KeepLast(vals + [x]) == [vals[0]] + ToBack(KeepLast(rest), x);
      }
    }
  }

  lemma {:induction false} WithoutAbsent(s: seq<string>, x: string)
    requires x !in s
    ensures Without(s, x) == s
  {
    if s != [] {
      WithoutAbsent(s[1..], x);
    }
  }

  lemma KeepLastTwice(a: seq<string>)
    ensures KeepLast(KeepLast(a)) == KeepLast(a)
  {
    KeepLastNoDup(a);
    KeepLastSame(KeepLast(a));
  }

  lemma {:induction false} KeepLastSame(a: seq<string>)
    requires NoDup(a)
    ensures KeepLast(a) == a
  {
    if a != [] {
      KeepLastSame(a[1..]);
    }
  }

  /** The last value stays the last. */
  lemma KeepLastLast(vals: seq<string>)
    requires vals != []
    ensures KeepLast(vals) != [] && KeepLast(vals)[|KeepLast(vals)| - 1] == vals[|vals| - 1]
  {
    var m := |vals| - 1;
    assert vals == vals[..m] + [vals[m]];
    KeepLastSnoc(vals[..m], vals[m]);
  }

  lemma {:induction false} KeepLastInner(a: seq<string>, b: seq<string>)
    ensures KeepLast(a + KeepLast(b)) == KeepLast(a + b)
  {
    if a == [] {
      assert a + KeepLast(b) == KeepLast(b) && a + b == b;
      KeepLastTwice(b);
    } else {
      KeepLastInner(a[1..], b);
      KeepLastNoDup(b);
      assert (a + KeepLast(b))[1..] == a[1..] + KeepLast(b) && (a + b)[1..] == a[1..] + b;
      assert (a + KeepLast(b))[0] == a[0] == (a + b)[0];
      assert a[0] in a[1..] + KeepLast(b) <==> a[0] in a[1..] + b;
    }
  }

  /** Values added one after the other, as addUniqValue does. */
  function AddAll(a: seq<string>, b: seq<string>): seq<string>
    decreases |b|
  {
    if b == [] then a else AddAll(ToBack(a, b[0]), b[1..])
  }

  lemma {:induction false} AddAllKeepLast(a: seq<string>, b: seq<string>)
    ensures AddAll(KeepLast(a), b) == KeepLast(a + b)
    decreases |b|
  {
    if b == [] {
      assert a + b == a;
    } else {
      KeepLastSnoc(a, b[0]);
      AddAllKeepLast(a + [b[0]], b[1..]);
      assert a + [b[0]] + b[1..] == a + b;
    }
  }

  lemma {:induction false} AddAllLast(a: seq<string>, b: seq<string>)
    requires b != []
    ensures AddAll(a, b) != [] && AddAll(a, b)[|AddAll(a, b)| - 1] == b[|b| - 1]
    decreases |b|
  {
    if |b| > 1 {
      AddAllLast(ToBack(a, b[0]), b[1..]);
    } else {
      assert AddAll(a, b) == AddAll(ToBack(a, b[0]), []);
    }
  }

  // ---------------------------------------------------------------- values of a section

  lemma {:induction false} VarValsConcat(a: seq<Var>, b: seq<Var>, k: string)
    ensures VarVals(a + b, k) == VarVals(a, k) + VarVals(b, k)
  {
    if a == [] {
      assert a + b == b;
    } else {
      assert (a + b)[0] == a[0] && (a + b)[1..] == a[1..] + b;
      VarValsConcat(a[1..], b, k);
    }
  }

  lemma VarValsOne(v: Var, k: string)
    ensures VarVals([v], k) == if v.keyLower == k then [v.value] else []
  {
    assert VarVals([v][1..], k) == [];
  }

  /** The variables without the one at x, or all of them at the end. */
  function TakeOut(vars: seq<Var>, x: nat): seq<Var>
    requires x <= |vars|
  {
    vars[..x] + if x < |vars| then vars[x + 1..] else []
  }

  /** Taking out the first variable with the key and value takes out the first such value. */
  lemma {:induction false} VarValsRemove(vars: seq<Var>, key: string, value: string, k: string)
    ensures VarVals(TakeOut(vars, PlaceOf(vars, key, value)), k)
         == if key == k then Without(VarVals(vars, k), value) else VarVals(vars, k)
  {
    var x := PlaceOf(vars, key, value);
    if vars == [] {
      assert TakeOut(vars, x) == [];
    } else if x == 0 {
      assert TakeOut(vars, x) == vars[1..];
      if vars[0].keyLower == k {
        assert Without([vars[0].value] + VarVals(vars[1..], k), value) == VarVals(vars[1..], k);
      } else {
        assert [] + VarVals(vars[1..], k) == VarVals(vars[1..], k);
      }
    } else {
      VarValsRemove(vars[1..], key, value, k);
      VarValsSkip(vars, key, value, k, x);
    }
  }

  lemma VarValsSkip(vars: seq<Var>, key: string, value: string, k: string, x: nat)
    requires x == PlaceOf(vars, key, value) && x > 0
    requires VarVals(TakeOut(vars[1..], x - 1), k)
          == if key == k then Without(VarVals(vars[1..], k), value) else VarVals(vars[1..], k)
    ensures VarVals(TakeOut(vars, x), k)
         == if key == k then Without(VarVals(vars, k), value) else VarVals(vars, k)
    ensures PlaceOf(vars[1..], key, value) == x - 1
  {
    var v, rest := vars[0], vars[1..];
    assert TakeOut(vars, x) == [v] + TakeOut(rest, x - 1);
    HeadVals(v, TakeOut(rest, x - 1), k);
    HeadVals(v, rest, k);
    assert vars == [v] + rest;
    if v.keyLower == k && key == k {
      assert v.value != value;
      WithoutHead(v.value, VarVals(rest, k), value);
    }
  }

  lemma WithoutHead(a: string, s: seq<string>, x: string)
    requires a != x
    ensures Without([a] + s, x) == [a] + Without(s, x)
  {
  }

  lemma HeadVals(v: Var, rest: seq<Var>, k: string)
    ensures VarVals([v] + rest, k) == if v.keyLower == k then [v.value] + VarVals(rest, k) else VarVals(rest, k)
  {
    assert ([v] + rest)[1..] == rest;
    assert [] + VarVals(rest, k) == VarVals(rest, k);
  }

  lemma VarValsAddUniq(vars: seq<Var>, key: string, value: string, k: string)
    ensures VarVals(AddUniq(vars, key, value), k)
         == if Lower(key) == k then ToBack(VarVals(vars, k), value) else VarVals(vars, k)
  {
    hide VarVals, Without, PlaceOf;
    var x := PlaceOf(vars, Lower(key), value);
    VarValsRemove(vars, Lower(key), value, k);
    if x < |vars| {
      assert TakeOut(vars, x) == vars[..x] + vars[x + 1..];
      VarValsConcat(vars[..x] + vars[x + 1..], [vars[x]], k);
      VarValsOne(vars[x], k);
    } else {
      var v := Var(MODE_VALUE, key, Lower(key), value);
      assert TakeOut(vars, x) == vars;
      VarValsConcat(vars, [v], k);
      VarValsOne(v, k);
    }
  }

  function NormAll(vals: seq<string>): (r: seq<string>)
    ensures |r| == |vals|
  {
    seq(|vals|, i requires 0 <= i < |vals| => Norm(vals[i]))
  }

  lemma VarValsFirst(more: seq<Var>, k: string)
    requires more != [] && k != "" && VarOk(more[0])
    ensures VarVals(more, k) ==
      if !Blank(more[0]) && Lower(more[0].key) == k then [more[0].value] + VarVals(more[1..], k) else VarVals(more[1..], k)
  {
    assert [] + VarVals(more[1..], k) == VarVals(more[1..], k);
  }

  lemma {:induction false} MergeVarsValues(vars: seq<Var>, more: seq<Var>, k: string)
    requires k != "" && forall v :: v in more ==> VarOk(v)
    ensures VarVals(MergeVars(vars, more), k) == AddAll(VarVals(vars, k), VarVals(more, k))
    decreases |more|
  {
    hide AddUniq, VarVals, Lower;
    if more != [] {
      var v := more[0];
      assert v in more && forall w :: w in more[1..] ==> w in more;
      VarValsFirst(more, k);
      LowerTwice(v.key);
      VarValsAddUniq(vars, v.keyLower, v.value, k);
      MergeVarsValues(if Blank(v) then vars else AddUniq(vars, v.keyLower, v.value), more[1..], k);
    } else {
      assert VarVals(more, k) == [] by {
        VarValsNone(k);
      }
    }
  }

  lemma VarValsNone(k: string)
    ensures VarVals([], k) == []
  {
  }

  lemma NormFirst(value: string, rest: seq<string>, before: seq<string>)
    ensures AddAll(before, NormAll([value] + rest)) == AddAll(ToBack(before, Norm(value)), NormAll(rest))
  {
    assert NormAll([value] + rest) == [Norm(value)] + NormAll(rest);
    assert ([Norm(value)] + NormAll(rest))[1..] == NormAll(rest);
  }

  lemma {:induction false} PruneVarsValues(vars: seq<Var>, more: seq<Var>, k: string)
    requires k != "" && forall v :: v in more ==> VarOk(v)
    ensures VarVals(PruneVars(vars, more), k) == AddAll(VarVals(vars, k), NormAll(VarVals(more, k)))
    decreases |more|
  {
    hide AddUniq, VarVals, Lower;
    if more != [] {
      var v := more[0];
      assert v in more && forall w :: w in more[1..] ==> w in more;
      VarValsFirst(more, k);
      VarValsAddUniq(vars, v.key, Norm(v.value), k);
      PruneVarsValues(if Blank(v) then vars else AddUniq(vars, v.key, Norm(v.value)), more[1..], k);
      NormFirst(v.value, VarVals(more[1..], k), VarVals(vars, k));
    } else {
      VarValsNone(k);
    }
  }

  // ---------------------------------------------------------------- values of all sections

  function SecVals(s: Sec, name: string, sub: string, k: string): seq<string> {
    if Named(s, name, sub) then VarVals(s.vars, k) else []
  }

  /** All values under a section name and a key in lower case, from top to bottom. */
  function Values(secs: seq<Sec>, name: string, sub: string, k: string): seq<string> {
    if secs == [] then [] else SecVals(secs[0], name, sub, k) + Values(secs[1..], name, sub, k)
  }

  lemma {:induction false} ValuesConcat(a: seq<Sec>, b: seq<Sec>, name: string, sub: string, k: string)
    ensures Values(a + b, name, sub, k) == Values(a, name, sub, k) + Values(b, name, sub, k)
  {
    if a == [] {
      assert a + b == b;
    } else {
      assert (a + b)[0] == a[0] && (a + b)[1..] == a[1..] + b;
      ValuesConcat(a[1..], b, name, sub, k);
    }
  }

  lemma ValuesSnoc(secs: seq<Sec>, s: Sec, name: string, sub: string, k: string)
    ensures Values(secs + [s], name, sub, k) == Values(secs, name, sub, k) + SecVals(s, name, sub, k)
  {
    ValuesConcat(secs, [s], name, sub, k);
    assert Values([s][1..], name, sub, k) == [];
  }

  function Last(vals: seq<string>): Option<string> {
    if vals == [] then None else Some(vals[|vals| - 1])
  }

  lemma {:induction false} SecGetIsLast(vars: seq<Var>, key: string)
    requires key != ""
    ensures SecGet(vars, key) == Last(VarVals(vars, Lower(key)))
  {
    if vars != [] {
      var m := |vars| - 1;
      assert vars == vars[..m] + [vars[m]];
      VarValsConcat(vars[..m], [vars[m]], Lower(key));
      VarValsOne(vars[m], Lower(key));
      SecGetIsLast(vars[..m], key);
    }
  }

  /** Get, scanning from the end, finds the last of all values. */
  lemma {:induction false} GetIsLast(secs: seq<Sec>, name: string, sub: string, key: string)
    ensures Get(secs, name, sub, key)
         == if name == "" || key == "" then None else Last(Values(secs, Lower(name), sub, Lower(key)))
  {
    if secs != [] && name != "" && key != "" {
      var m := |secs| - 1;
      assert secs == secs[..m] + [secs[m]];
      ValuesSnoc(secs[..m], secs[m], Lower(name), sub, Lower(key));
      SecGetIsLast(secs[m].vars, key);
      GetIsLast(secs[..m], name, sub, key);
    }
  }

  lemma {:induction false} GetsIsValues(secs: seq<Sec>, name: string, sub: string, key: string)
    requires IniOk(secs)
    ensures Gets(secs, name, sub, key)
         == if name == "" || key == "" then [] else Values(secs, Lower(name), sub, Lower(key))
  {
    hide SecOk, SecGets, SecVals, HasMode, Named;
    if secs != [] {
      assert forall s :: s in secs[1..] ==> s in secs;
      GetsIsValues(secs[1..], name, sub, key);
      SecGetsIsValues(secs[0], name, sub, key);
    }
  }

  lemma SecGetsIsValues(s: Sec, name: string, sub: string, key: string)
    requires SecOk(s)
    ensures (if HasMode(s.mode, MODE_SECTION) && Named(s, Lower(name), sub) then SecGets(s.vars, key) else [])
         == if name == "" || key == "" then [] else SecVals(s, Lower(name), sub, Lower(key))
  {
    assert (Lower(name) == "" <==> name == "") && (s.nameLower == "" <==> s.name == "");
  }

  // ---------------------------------------------------------------- sections with one name each

  ghost predicate Unique(secs: seq<Sec>) {
    forall i, j :: 0 <= i < j < |secs| ==> !Named(secs[j], secs[i].nameLower, secs[i].sub)
  }

  lemma {:induction false} ValuesAbsent(secs: seq<Sec>, name: string, sub: string, k: string)
    requires forall i :: 0 <= i < |secs| ==> !Named(secs[i], name, sub)
    ensures Values(secs, name, sub, k) == []
  {
    if secs != [] {
      ValuesAbsent(secs[1..], name, sub, k);
    }
  }

  /** The values of the sections before and behind one of them. */
  lemma ValuesSplit(secs: seq<Sec>, x: nat, name: string, sub: string, k: string)
    requires x < |secs|
    ensures Values(secs, name, sub, k)
         == Values(secs[..x], name, sub, k) + SecVals(secs[x], name, sub, k) + Values(secs[x + 1..], name, sub, k)
  {
    assert secs == secs[..x] + [secs[x]] + secs[x + 1..];
    ValuesConcat(secs[..x] + [secs[x]], secs[x + 1..], name, sub, k);
    ValuesSnoc(secs[..x], secs[x], name, sub, k);
  }

  lemma MergedVals(t: Sec, s: Sec, name: string, sub: string, k: string)
    requires k != "" && (forall v :: v in s.vars ==> VarOk(v)) && Named(t, s.nameLower, s.sub)
    ensures SecVals(t.(vars := MergeVars(t.vars, s.vars)), name, sub, k)
         == AddAll(SecVals(t, name, sub, k), SecVals(s, name, sub, k))
  {
    hide MergeVars, VarVals;
    if Named(s, name, sub) {
      MergeVarsValues(t.vars, s.vars, k);
    }
  }

  lemma MergeValues(secs: seq<Sec>, s: Sec, name: string, sub: string, k: string)
    requires k != "" && forall v :: v in s.vars ==> VarOk(v)
    ensures var x, vals := FindSec(secs, s.nameLower, s.sub), SecVals(s, name, sub, k);
      Values(MergeSection(secs, s), name, sub, k) ==
        if x == |secs| then Values(secs, name, sub, k) + vals
        else Values(secs[..x], name, sub, k) + AddAll(SecVals(secs[x], name, sub, k), vals)
             + Values(secs[x + 1..], name, sub, k)
  {
    hide Values, MergeVars, SecVals, AddAll, VarVals, FindSec, VarOk;
    var x := FindSec(secs, s.nameLower, s.sub);
    if x < |secs| {
      MergedVals(secs[x], s, name, sub, k);
      UpdateValues(secs, x, secs[x].(vars := MergeVars(secs[x].vars, s.vars)), name, sub, k);
    } else {
      ValuesSnoc(secs, s, name, sub, k);
    }
  }

  /** Replacing one section changes its values only. */
  lemma UpdateValues(secs: seq<Sec>, x: nat, t: Sec, name: string, sub: string, k: string)
    requires x < |secs|
    ensures Values(secs[x := t], name, sub, k)
         == Values(secs[..x], name, sub, k) + SecVals(t, name, sub, k) + Values(secs[x + 1..], name, sub, k)
  {
    hide Values, SecVals;
    var r := secs[x := t];
    ValuesSplit(r, x, name, sub, k);
    assert r[..x] == secs[..x] && r[x + 1..] == secs[x + 1..];
  }

  lemma MergeUnique(secs: seq<Sec>, s: Sec)
    requires Unique(secs)
    ensures Unique(MergeSection(secs, s))
  {
    hide MergeVars;
  }

  /** Merging into sections with one name each: the values go behind those that are there. */
  lemma MergeUniqueValues(secs: seq<Sec>, s: Sec, name: string, sub: string, k: string)
    requires Unique(secs) && k != "" && forall v :: v in s.vars ==> VarOk(v)
    ensures Values(MergeSection(secs, s), name, sub, k) ==
      var vals := SecVals(s, name, sub, k);
      if FindSec(secs, s.nameLower, s.sub) == |secs| then Values(secs, name, sub, k) + vals
      else AddAll(Values(secs, name, sub, k), vals)
  {
    hide Values, MergeSection, AddAll, FindSec, VarOk, Unique, SecVals, Named;
    MergeValues(secs, s, name, sub, k);
    var x := FindSec(secs, s.nameLower, s.sub);
    if x < |secs| {
      if Named(s, name, sub) {
        MergedHere(secs, s, name, sub, k);
      } else {
        NotHere(secs, s, x, name, sub, k);
      }
    }
  }

  lemma MergedHere(secs: seq<Sec>, s: Sec, name: string, sub: string, k: string)
    requires Unique(secs) && Named(s, name, sub)
    ensures var x := FindSec(secs, s.nameLower, s.sub);
      x < |secs| ==>
        var vals := SecVals(s, name, sub, k);
        Values(secs[..x], name, sub, k) + AddAll(SecVals(secs[x], name, sub, k), vals) + Values(secs[x + 1..], name, sub, k)
        == AddAll(Values(secs, name, sub, k), vals)
  {
    hide Values, AddAll, FindSec, Unique, SecVals;
    OnlyHere(secs, s, name, sub, k);
    var x := FindSec(secs, name, sub);
    if x < |secs| {
      NoneAround(AddAll(SecVals(secs[x], name, sub, k), SecVals(s, name, sub, k)));
    }
  }

  lemma NotHere(secs: seq<Sec>, s: Sec, x: nat, name: string, sub: string, k: string)
    requires x < |secs| && Named(secs[x], s.nameLower, s.sub) && !Named(s, name, sub)
    ensures SecVals(s, name, sub, k) == []
    ensures Values(secs[..x], name, sub, k) + AddAll(SecVals(secs[x], name, sub, k), []) + Values(secs[x + 1..], name, sub, k)
         == AddAll(Values(secs, name, sub, k), [])
  {
    hide Values, AddAll;
    ValuesSplit(secs, x, name, sub, k);
    AddNone([]);
    AddNone(Values(secs, name, sub, k));
  }

  lemma NoneAround(vals: seq<string>)
    ensures [] + vals + [] == vals
  {
  }

  lemma OnlyHere(secs: seq<Sec>, s: Sec, name: string, sub: string, k: string)
    requires Unique(secs) && Named(s, name, sub)
    ensures var x := FindSec(secs, name, sub);
      x < |secs| ==>
        && Values(secs[..x], name, sub, k) == [] && Values(secs[x + 1..], name, sub, k) == []
        && Values(secs, name, sub, k) == SecVals(secs[x], name, sub, k)
  {
    hide Values, SecVals, FindSec;
    var x := FindSec(secs, name, sub);
    if x < |secs| {
      ValuesSplit(secs, x, name, sub, k);
      ValuesAbsent(secs[..x], name, sub, k);
      ValuesAbsent(secs[x + 1..], name, sub, k);
      NoneAround(SecVals(secs[x], name, sub, k));
    }
  }

  lemma AddNone(a: seq<string>)
    ensures AddAll(a, []) == a
  {
  }

  // ---------------------------------------------------------------- Prune

  ghost predicate Same(v: Var, w: Var) {
    v.keyLower == w.keyLower && v.value == w.value
  }

  /** Variables as addUniqValue leaves them: filled, and no two with the same key and value. */
  ghost predicate Clean(vars: seq<Var>) {
    && (forall v :: v in vars ==> v.mode == MODE_VALUE && v.keyLower == Lower(v.key) && v.value != "")
    && (forall i, j :: 0 <= i < j < |vars| ==> !Same(vars[i], vars[j]))
  }

  ghost predicate CleanSec(s: Sec) {
    && s.mode == (if s.sub != "" then MODE_SECTION + MODE_SUBSECTION else MODE_SECTION)
    && Clean(s.vars)
  }

  ghost predicate CleanIni(secs: seq<Sec>) {
    Unique(secs) && forall s :: s in secs ==> CleanSec(s)
  }

  lemma CleanAddUniq(vars: seq<Var>, key: string, value: string)
    requires Clean(vars) && value != ""
    ensures Clean(AddUniq(vars, key, value))
  {
    var x := PlaceOf(vars, Lower(key), value);
    var r := AddUniq(vars, key, value);
    if x < |vars| {
      assert forall i :: 0 <= i < |r| ==> r[i] == if i < x then vars[i] else if i < |vars| - 1 then vars[i + 1] else vars[x];
      assert vars[x] in vars;
    }
  }

  lemma {:induction false} CleanMerge(vars: seq<Var>, more: seq<Var>)
    requires Clean(vars) && forall v :: v in more ==> v.value != ""
    ensures Clean(MergeVars(vars, more))
    decreases |more|
  {
    hide Clean, AddUniq;
    if more != [] {
      assert more[0] in more && forall w :: w in more[1..] ==> w in more;
      CleanAddUniq(vars, more[0].keyLower, more[0].value);
      CleanMerge(if Blank(more[0]) then vars else AddUniq(vars, more[0].keyLower, more[0].value), more[1..]);
    }
  }

  lemma {:induction false} CleanPrune(vars: seq<Var>, more: seq<Var>)
    requires Clean(vars)
    ensures Clean(PruneVars(vars, more))
    decreases |more|
  {
    hide Clean, AddUniq;
    if more != [] {
      CleanAddUniq(vars, more[0].key, Norm(more[0].value));
      CleanPrune(if Blank(more[0]) then vars else AddUniq(vars, more[0].key, Norm(more[0].value)), more[1..]);
    }
  }

  lemma PruneSecClean(s: Sec)
    ensures CleanSec(PruneSec(s))
  {
    CleanPrune([], s.vars);
  }

  lemma MergeClean(secs: seq<Sec>, s: Sec)
    requires CleanIni(secs) && CleanSec(s)
    ensures CleanIni(MergeSection(secs, s))
  {
    hide MergeVars, Unique, Clean;
    MergeUnique(secs, s);
    var x := FindSec(secs, s.nameLower, s.sub);
    CleanFilled(s.vars);
    if x < |secs| {
      assert secs[x] in secs;
      CleanMerge(secs[x].vars, s.vars);
    }
  }

  lemma CleanFilled(vars: seq<Var>)
    requires Clean(vars)
    ensures forall v :: v in vars ==> v.value != ""
    ensures forall v :: v in vars && v.key != "" ==> VarOk(v)
  {
  }

  /** Pruned variables have the keys of the old ones. */
  lemma AddedKey(vars: seq<Var>, key: string, value: string)
    ensures forall w :: w in AddUniq(vars, key, value) ==> w in vars || w == Var(MODE_VALUE, key, Lower(key), value)
  {
    hide PlaceOf;
  }

  lemma {:induction false} PruneVarsKeys(vars: seq<Var>, more: seq<Var>)
    requires forall v :: v in vars ==> VarOk(v)
    requires forall v :: v in more ==> VarOk(v)
    ensures forall v :: v in PruneVars(vars, more) ==> VarOk(v)
    decreases |more|
  {
    if more != [] {
      var v := more[0];
      assert v in more && forall w :: w in more[1..] ==> w in more;
      AddedKey(vars, v.key, Norm(v.value));
      PruneVarsKeys(if Blank(v) then vars else AddUniq(vars, v.key, Norm(v.value)), more[1..]);
    }
  }

  /** Pruning one more section, seen from one key. */
  lemma PruneStepValues(done: seq<Sec>, s: Sec, name: string, sub: string, k: string, before: seq<string>)
    requires CleanIni(done) && SecOk(s) && s.mode != MODE_EMPTY && k != ""
    requires Values(done, name, sub, k) == KeepLast(before)
    ensures Values(MergeSection(done, PruneSec(s)), name, sub, k)
         == KeepLast(before + NormAll(SecVals(s, name, sub, k)))
  {
    hide Values, MergeSection, KeepLast, AddAll, PruneVars, VarVals, Unique, CleanSec, MergeVars, Without, FindSec;
    var p := PruneSec(s);
    PruneVarsKeys([], s.vars);
    MergeUniqueValues(done, p, name, sub, k);
    var b := NormAll(SecVals(s, name, sub, k));
    PruneSecValues(s, name, sub, k);
    var x := FindSec(done, p.nameLower, p.sub);
    if x == |done| {
      if Named(s, name, sub) {
        ValuesAbsentHere(done, p, name, sub, k);
        NothingKept(before, b);
      } else {
        assert KeepLast(b) == [] by {
          KeepLastNone();
        }
        assert before + b == before && KeepLast(before) + [] == KeepLast(before);
      }
    } else {
      AddAllKeepLast(before, KeepLast(b));
      KeepLastInner(before, b);
    }
  }

  lemma KeepLastNone()
    ensures KeepLast([]) == []
  {
  }

  lemma PruneSecValues(s: Sec, name: string, sub: string, k: string)
    requires SecOk(s) && k != ""
    ensures SecVals(PruneSec(s), name, sub, k) == KeepLast(NormAll(SecVals(s, name, sub, k)))
  {
    hide PruneVars, VarVals, KeepLast, AddAll;
    if Named(s, name, sub) {
      PruneVarsValues([], s.vars, k);
      VarValsNone(k);
      var b := NormAll(VarVals(s.vars, k));
      KeepLastNone();
      AddAllKeepLast([], b);
      assert [] + b == b;
    } else {
      KeepLastNone();
    }
  }

  lemma ValuesAbsentHere(secs: seq<Sec>, p: Sec, name: string, sub: string, k: string)
    requires FindSec(secs, p.nameLower, p.sub) == |secs| && Named(p, name, sub)
    ensures Values(secs, name, sub, k) == []
  {
    ValuesAbsent(secs, name, sub, k);
  }

  lemma NothingKept(a: seq<string>, b: seq<string>)
    requires KeepLast(a) == []
    ensures KeepLast(a + b) == KeepLast(b)
  {
    if a != [] {
      KeepLastLast(a);
    }
    assert a + b == b;
  }

  lemma {:induction false} PruneFromValues(done: seq<Sec>, secs: seq<Sec>, name: string, sub: string, k: string,
                                           before: seq<string>)
    requires CleanIni(done) && IniOk(secs) && k != "" && name != ""
    requires Values(done, name, sub, k) == KeepLast(before)
    ensures Values(PruneFrom(done, secs), name, sub, k) == KeepLast(before + NormAll(Values(secs, name, sub, k)))
    ensures CleanIni(PruneFrom(done, secs))
    decreases |secs|
  {
    hide CleanIni, SecOk, MergeSection, KeepLast, PruneSec, SecVals;
    if secs == [] {
      assert before + NormAll([]) == before;
    } else {
      var s := secs[0];
      assert s in secs && forall t :: t in secs[1..] ==> t in secs;
      var now := SecVals(s, name, sub, k);
      NormConcat(before, now, Values(secs[1..], name, sub, k));
      if s.mode == MODE_EMPTY {
        EmptyNamed(s, name, sub, k);
        assert before + [] == before;
        PruneFromValues(done, secs[1..], name, sub, k, before);
      } else {
        PruneSecClean(s);
        MergeClean(done, PruneSec(s));
        PruneStepValues(done, s, name, sub, k, before);
        PruneFromValues(MergeSection(done, PruneSec(s)), secs[1..], name, sub, k, before + NormAll(now));
      }
    }
  }

  lemma NormConcat(before: seq<string>, now: seq<string>, later: seq<string>)
    ensures before + NormAll(now + later) == before + NormAll(now) + NormAll(later)
    ensures now == [] ==> NormAll(now + later) == NormAll(later)
  {
    assert NormAll(now + later) == NormAll(now) + NormAll(later);
    assert now == [] ==> now + later == later;
  }

  lemma EmptyNamed(s: Sec, name: string, sub: string, k: string)
    requires SecOk(s) && s.mode == MODE_EMPTY && name != ""
    ensures SecVals(s, name, sub, k) == []
  {
  }

  /** Prune turns the values of every key into the last ones of equals, with empty ones filled. */
  lemma PruneValues(secs: seq<Sec>, name: string, sub: string, k: string)
    requires IniOk(secs) && name != "" && k != ""
    ensures Values(Prune(secs), name, sub, k) == KeepLast(NormAll(Values(secs, name, sub, k)))
    ensures CleanIni(Prune(secs))
  {
    KeepLastNone();
    PruneFromValues([], secs, name, sub, k, []);
    assert [] + NormAll(Values(secs, name, sub, k)) == NormAll(Values(secs, name, sub, k));
  }

  /** Prune gives every lookup the value it had, but for an empty one, which becomes "true". */
  lemma PruneGet(secs: seq<Sec>, name: string, sub: string, key: string)
    requires IniOk(secs)
    ensures var was := Get(secs, name, sub, key);
      && Get(Prune(secs), name, sub, key) == (if was.Some? then Some(Norm(was.value)) else None)
      && (Get(Prune(secs), name, sub, key) == was <==> was != Some(""))
  {
    hide Prune, KeepLast, Values, NormAll;
    GetIsLast(secs, name, sub, key);
    GetIsLast(Prune(secs), name, sub, key);
    if name != "" && key != "" {
      var vals := Values(secs, Lower(name), sub, Lower(key));
      PruneValues(secs, Lower(name), sub, Lower(key));
      LastNormAll(vals);
      if vals != [] {
        KeepLastLast(NormAll(vals));
      } else {
        KeepLastNone();
      }
    }
  }

  /** No variable has an empty value, as addVariable, add and set leave them. */
  ghost predicate Filled(vars: seq<Var>) {
    forall v :: v in vars && !Blank(v) ==> v.value != ""
  }

  lemma {:induction false} FilledVals(vars: seq<Var>, k: string)
    requires k != "" && Filled(vars) && forall v :: v in vars ==> VarOk(v)
    ensures "" !in VarVals(vars, k)
  {
    if vars != [] {
      assert vars[0] in vars && forall v :: v in vars[1..] ==> v in vars;
      FilledVals(vars[1..], k);
    }
  }

  lemma {:induction false} FilledValues(secs: seq<Sec>, name: string, sub: string, k: string)
    requires k != "" && IniOk(secs) && forall s :: s in secs ==> Filled(s.vars)
    ensures "" !in Values(secs, name, sub, k)
  {
    hide Filled;
    if secs != [] {
      assert secs[0] in secs && forall s :: s in secs[1..] ==> s in secs;
      FilledVals(secs[0].vars, k);
      FilledValues(secs[1..], name, sub, k);
    }
  }

  /** So Prune keeps every lookup of a file without empty values. */
  lemma PruneGetFilled(secs: seq<Sec>, name: string, sub: string, key: string)
    requires IniOk(secs) && forall s :: s in secs ==> Filled(s.vars)
    ensures Get(Prune(secs), name, sub, key) == Get(secs, name, sub, key)
  {
    hide Prune, Filled, Values, IniOk;
    PruneGet(secs, name, sub, key);
    GetIsLast(secs, name, sub, key);
    if name != "" && key != "" {
      FilledValues(secs, Lower(name), sub, Lower(key));
    }
  }

  lemma LastNormAll(vals: seq<string>)
    ensures NormAll(vals) == [] <==> vals == []
    ensures vals != [] ==> NormAll(vals)[|vals| - 1] == Norm(vals[|vals| - 1])
    ensures (forall x :: x in vals ==> x != "") ==> NormAll(vals) == vals
  {
    assert forall i :: 0 <= i < |vals| ==> vals[i] in vals;
    assert (forall i :: 0 <= i < |vals| ==> vals[i] != "") ==> NormAll(vals) == vals;
  }

  lemma {:induction false} MergeVarsKeys(vars: seq<Var>, more: seq<Var>)
    requires forall v :: v in vars ==> VarOk(v)
    requires forall v :: v in more ==> VarOk(v)
    ensures forall v :: v in MergeVars(vars, more) ==> VarOk(v)
    decreases |more|
  {
    if more != [] {
      var v := more[0];
      assert v in more && forall w :: w in more[1..] ==> w in more;
      LowerTwice(v.key);
      assert !Blank(v) ==> forall w :: w in AddUniq(vars, v.keyLower, v.value) ==> w in vars || VarOk(w);
      MergeVarsKeys(if Blank(v) then vars else AddUniq(vars, v.keyLower, v.value), more[1..]);
    }
  }

  lemma MergeOk(secs: seq<Sec>, s: Sec)
    requires IniOk(secs) && SecOk(s)
    ensures IniOk(MergeSection(secs, s))
  {
    hide MergeVars, VarOk;
    var x := FindSec(secs, s.nameLower, s.sub);
    if x < |secs| {
      assert secs[x] in secs;
      MergeVarsKeys(secs[x].vars, s.vars);
    }
  }

  lemma PruneSecOk(s: Sec)
    requires SecOk(s) && s.mode != MODE_EMPTY
    ensures SecOk(PruneSec(s))
  {
    PruneVarsKeys([], s.vars);
  }

  lemma {:induction false} PruneFromOk(done: seq<Sec>, secs: seq<Sec>)
    requires IniOk(done) && IniOk(secs)
    ensures IniOk(PruneFrom(done, secs))
    decreases |secs|
  {
    hide SecOk, PruneSec, MergeSection;
    if secs != [] {
      var s := secs[0];
      assert s in secs && forall t :: t in secs[1..] ==> t in secs;
      if s.mode == MODE_EMPTY {
        PruneFromOk(done, secs[1..]);
      } else {
        PruneSecOk(s);
        MergeOk(done, PruneSec(s));
        PruneFromOk(MergeSection(done, PruneSec(s)), secs[1..]);
      }
    }
  }

  /** Prune turns the values of Gets into the last ones of equals; nothing else changes if none is empty. */
  lemma PruneGets(secs: seq<Sec>, name: string, sub: string, key: string)
    requires IniOk(secs)
    ensures var was := Gets(secs, name, sub, key);
      && Gets(Prune(secs), name, sub, key) == KeepLast(NormAll(was))
      && ((forall x :: x in was ==> x != "") ==> Gets(Prune(secs), name, sub, key) == KeepLast(was))
  {
    hide KeepLast, Values, NormAll, SecOk, Gets;
    PruneFromOk([], secs);
    GetsIsValues(secs, name, sub, key);
    GetsIsValues(Prune(secs), name, sub, key);
    LastNormAll(Gets(secs, name, sub, key));
    if name != "" && key != "" {
      PruneValues(secs, Lower(name), sub, Lower(key));
    } else {
      KeepLastNone();
    }
  }

  lemma PlaceAtEnd(vars: seq<Var>, v: Var)
    requires Clean(vars + [v])
    ensures AddUniq(vars, v.key, Norm(v.value)) == vars + [v] && !Blank(v)
  {
    var x := PlaceOf(vars, v.keyLower, v.value);
    var all := vars + [v];
    assert all[|vars|] in all && v == all[|vars|];
    assert x < |vars| ==> Same(all[x], all[|vars|]);
  }

  lemma {:induction false} PruneVarsClean(done: seq<Var>, vars: seq<Var>)
    requires Clean(done + vars)
    ensures PruneVars(done, vars) == done + vars
    decreases |vars|
  {
    if vars == [] {
      assert done + vars == done;
    } else {
      var all, d := done + vars, done + [vars[0]];
      assert d + vars[1..] == all;
      assert forall i :: 0 <= i < |d| ==> d[i] == all[i] && all[i] in all;
      PlaceAtEnd(done, vars[0]);
      PruneVarsClean(d, vars[1..]);
    }
  }

  lemma {:induction false} PruneFromClean(done: seq<Sec>, secs: seq<Sec>)
    requires CleanIni(done + secs)
    ensures PruneFrom(done, secs) == done + secs
    decreases |secs|
  {
    if secs == [] {
      assert done + secs == done;
    } else {
      var all, s := done + secs, secs[0];
      var x := |done|;
      assert all[x] == s && s in all && done + [s] + secs[1..] == all;
      PruneVarsClean([], s.vars);
      assert [] + s.vars == s.vars;
      assert PruneSec(s) == s;
      assert forall i :: 0 <= i < x ==> all[i] == done[i] && !Named(all[x], all[i].nameLower, all[i].sub);
      FindSecIs(done, s.nameLower, s.sub, x);
      PruneFromClean(done + [s], secs[1..]);
    }
  }

  /** Pruning twice is pruning once, and leaves one section for each name pair without repeated variables. */
  lemma PruneTwice(secs: seq<Sec>)
    requires IniOk(secs)
    ensures CleanIni(Prune(secs))
    ensures Prune(Prune(secs)) == Prune(secs)
  {
    PruneValues(secs, "x", "", "x");
    assert [] + Prune(secs) == Prune(secs);
    PruneFromClean([], Prune(secs));
  }

  // ---------------------------------------------------------------- Rebase

  lemma {:induction false} FindSecIs(secs: seq<Sec>, name: string, sub: string, x: nat)
    requires x <= |secs| && (forall i :: 0 <= i < x ==> !Named(secs[i], name, sub))
    requires x < |secs| ==> Named(secs[x], name, sub)
    ensures FindSec(secs, name, sub) == x
  {
  }

  /** The values in sections of this name behind the first one. */
  function Later(secs: seq<Sec>, name: string, sub: string, k: string): seq<string> {
    var x := FindSec(secs, name, sub);
    if x < |secs| then Values(secs[x + 1..], name, sub, k) else []
  }

  lemma {:induction false} SameNamesValues(a: seq<Sec>, b: seq<Sec>, name: string, sub: string, k: string)
    requires |a| == |b|
    requires forall i :: 0 <= i < |a| ==> a[i] == b[i] || (!Named(a[i], name, sub) && !Named(b[i], name, sub))
    ensures Values(a, name, sub, k) == Values(b, name, sub, k)
  {
    if a != [] {
      SameNamesValues(a[1..], b[1..], name, sub, k);
    }
  }

  lemma MergeLater(secs: seq<Sec>, s: Sec, name: string, sub: string, k: string)
    ensures Later(MergeSection(secs, s), name, sub, k) == Later(secs, name, sub, k)
  {
    hide MergeVars, Values, FindSec;
    var x, y := FindSec(secs, name, sub), FindSec(secs, s.nameLower, s.sub);
    var r := MergeSection(secs, s);
    if x < |secs| {
      assert y == |secs| ==> !Named(secs[x], s.nameLower, s.sub);
      FindSecIs(r, name, sub, x);
      if y < |secs| {
        SameNamesValues(r[x + 1..], secs[x + 1..], name, sub, k);
      } else {
        assert r[x + 1..] == secs[x + 1..] + [s];
        assert !Named(s, name, sub);
        ValuesSnoc(secs[x + 1..], s, name, sub, k);
      }
    } else if y == |secs| {
      LaterAppended(secs, s, name, sub, k);
    } else {
      FindSecIs(r, name, sub, |r|);
    }
  }

  lemma LaterAppended(secs: seq<Sec>, s: Sec, name: string, sub: string, k: string)
    requires FindSec(secs, name, sub) == |secs|
    ensures Later(secs + [s], name, sub, k) == []
  {
    var r := secs + [s];
    FindSecIs(r, name, sub, if Named(s, name, sub) then |secs| else |r|);
  }

  /** One section merged: its last value counts unless a later section of the name has one. */
  lemma MergeLast(secs: seq<Sec>, s: Sec, name: string, sub: string, k: string)
    requires k != "" && forall v :: v in s.vars ==> VarOk(v)
    ensures Last(Values(MergeSection(secs, s), name, sub, k)) ==
      if Later(secs, name, sub, k) == [] && SecVals(s, name, sub, k) != [] then Last(SecVals(s, name, sub, k))
      else Last(Values(secs, name, sub, k))
  {
    hide Values, MergeSection, AddAll, SecVals;
    MergeValues(secs, s, name, sub, k);
    var x, vals := FindSec(secs, s.nameLower, s.sub), SecVals(s, name, sub, k);
    NotNamedVals(s, name, sub, k);
    if x < |secs| {
      ValuesSplit(secs, x, name, sub, k);
      if vals != [] {
        AddAllLast(SecVals(secs[x], name, sub, k), vals);
      } else {
        AddNone(SecVals(secs[x], name, sub, k));
      }
    }
  }

  lemma NotNamedVals(s: Sec, name: string, sub: string, k: string)
    ensures SecVals(s, name, sub, k) != [] ==> Named(s, name, sub)
  {
  }

  lemma {:induction false} RebaseLast(secs: seq<Sec>, other: seq<Sec>, name: string, sub: string, k: string)
    requires k != "" && IniOk(other)
    ensures Last(Values(Rebase(secs, other), name, sub, k)) ==
      if Later(secs, name, sub, k) == [] && Values(other, name, sub, k) != [] then Last(Values(other, name, sub, k))
      else Last(Values(secs, name, sub, k))
    decreases |other|
  {
    hide MergeSection, SecVals, Later;
    if other != [] {
      var s := other[0];
      assert s in other && forall t :: t in other[1..] ==> t in other;
      assert SecOk(s);
      MergeLast(secs, s, name, sub, k);
      MergeLater(secs, s, name, sub, k);
      RebaseLast(MergeSection(secs, s), other[1..], name, sub, k);
    }
  }

  /** A later section of the same name hides what is merged into the first one. */
  predicate Hidden(secs: seq<Sec>, name: string, sub: string, key: string) {
    Later(secs, Lower(name), sub, Lower(key)) != []
  }

  /**
   Rebase on any other file: a lookup gives the other's value where it has one, and the old value otherwise, unless
   twin sections of the name hide it, and then always the old value.
   */
  lemma RebaseGet(secs: seq<Sec>, other: seq<Sec>, name: string, sub: string, key: string)
    requires IniOk(other)
    ensures var theirs, ours := Get(other, name, sub, key), Get(secs, name, sub, key);
      Get(Rebase(secs, other), name, sub, key) ==
        if theirs.Some? && !Hidden(secs, name, sub, key) then theirs else ours
  {
    hide Rebase, Values, Later;
    GetIsLast(secs, name, sub, key);
    GetIsLast(other, name, sub, key);
    GetIsLast(Rebase(secs, other), name, sub, key);
    if name != "" && key != "" {
      RebaseLast(secs, other, Lower(name), sub, Lower(key));
    }
  }

  /** A pruned file has no twin sections, so the other's values always win. */
  lemma RebasePruned(secs: seq<Sec>, other: seq<Sec>, name: string, sub: string, key: string)
    requires IniOk(secs) && IniOk(other)
    ensures var base := Prune(secs);
      var theirs := Get(other, name, sub, key);
      Get(Rebase(base, other), name, sub, key) == if theirs.Some? then theirs else Get(base, name, sub, key)
  {
    hide Prune, Rebase;
    PruneTwice(secs);
    RebaseGet(Prune(secs), other, name, sub, key);
    UniqueNotHidden(Prune(secs), name, sub, key);
  }

  lemma UniqueNotHidden(secs: seq<Sec>, name: string, sub: string, key: string)
    requires Unique(secs)
    ensures !Hidden(secs, name, sub, key)
  {
    hide Values, FindSec;
    var x := FindSec(secs, Lower(name), sub);
    if x < |secs| {
      ValuesAbsent(secs[x + 1..], Lower(name), sub, Lower(key));
    }
  }

  /** Without pruning, a value of the other file can be lost. */
  lemma RebaseLoses()
    ensures var v := Var(MODE_VALUE, "k", "k", "1");
      var a := Sec(MODE_SECTION, "s", "s", "", [v]);
      var b := Sec(MODE_SECTION, "s", "s", "", [v.(value := "2")]);
      IniOk([a, a]) && IniOk([b]) && Get([b], "s", "", "k") == Some("2") && Get(Rebase([a, a], [b]), "s", "", "k") == Some("1")
  {
    var v := Var(MODE_VALUE, "k", "k", "1");
    var a := Sec(MODE_SECTION, "s", "s", "", [v]);
    var b := Sec(MODE_SECTION, "s", "s", "", [v.(value := "2")]);
    assert Lower("k") == "k" && Lower("s") == "s";
    assert [a, a][1..] == [a] && [a][1..] == [];
    assert [b][1..] == [] && [v][1..] == [];
    RebaseGet([a, a], [b], "s", "", "k");
    GetIsLast([b], "s", "", "k");
    GetIsLast([a, a], "s", "", "k");
  }

  // ---------------------------------------------------------------- all values after Rebase

  /** The values in the first section of this name. */
  function Firsts(secs: seq<Sec>, name: string, sub: string, k: string): seq<string> {
    var x := FindSec(secs, name, sub);
    if x < |secs| then VarVals(secs[x].vars, k) else []
  }

  predicate HasSec(secs: seq<Sec>, name: string, sub: string) {
    FindSec(secs, name, sub) < |secs|
  }

  lemma FirstsLater(secs: seq<Sec>, name: string, sub: string, k: string)
    ensures Values(secs, name, sub, k) == Firsts(secs, name, sub, k) + Later(secs, name, sub, k)
  {
    hide VarVals, Values, FindSec;
    var x := FindSec(secs, name, sub);
    ValuesAbsent(secs[..x], name, sub, k);
    if x < |secs| {
      ValuesSplit(secs, x, name, sub, k);
      NoneBefore(SecVals(secs[x], name, sub, k), Values(secs[x + 1..], name, sub, k));
    } else {
      assert secs[..x] == secs;
    }
  }

  lemma NoneBefore(a: seq<string>, b: seq<string>)
    ensures [] + a + b == a + b
  {
  }

  lemma MergeFirsts(secs: seq<Sec>, s: Sec, name: string, sub: string, k: string)
    requires k != "" && forall v :: v in s.vars ==> VarOk(v)
    ensures var r := MergeSection(secs, s);
      && HasSec(r, name, sub) == (HasSec(secs, name, sub) || Named(s, name, sub))
      && Firsts(r, name, sub, k) ==
           if HasSec(secs, name, sub) then AddAll(Firsts(secs, name, sub, k), SecVals(s, name, sub, k))
           else SecVals(s, name, sub, k)
  {
    hide MergeVars, VarVals;
    var x, y := FindSec(secs, name, sub), FindSec(secs, s.nameLower, s.sub);
    var r := MergeSection(secs, s);
    AddNone(Firsts(secs, name, sub, k));
    if x < |secs| {
      FindSecIs(r, name, sub, x);
      if x == y {
        MergedVals(secs[x], s, name, sub, k);
      }
    } else {
      FindSecIs(r, name, sub, if y == |secs| && Named(s, name, sub) then |secs| else |r|);
    }
  }

  /** The values of the other file are added to those of the first section of their name, one after the other. */
  lemma {:induction false} RebaseValues(secs: seq<Sec>, other: seq<Sec>, name: string, sub: string, k: string)
    requires k != "" && IniOk(other)
    ensures Values(Rebase(secs, other), name, sub, k) ==
      if HasSec(secs, name, sub) then
        AddAll(Firsts(secs, name, sub, k), Values(other, name, sub, k)) + Later(secs, name, sub, k)
      else AddAll(Firsts(other, name, sub, k), Later(other, name, sub, k))
    decreases |other|
  {
    hide MergeSection, Firsts, Later, HasSec, SecVals, AddAll;
    if other == [] {
      FirstsLater(secs, name, sub, k);
      AddNone(Firsts(secs, name, sub, k));
      NoSections(secs, name, sub, k);
    } else {
      var s := other[0];
      assert s in other && forall t :: t in other[1..] ==> t in other;
      assert SecOk(s);
      MergeFirsts(secs, s, name, sub, k);
      MergeLater(secs, s, name, sub, k);
      RebaseValues(MergeSection(secs, s), other[1..], name, sub, k);
      HeadSection(other, name, sub, k);
      NoSections(secs, name, sub, k);
      AddAllTwice(Firsts(secs, name, sub, k), SecVals(s, name, sub, k), Values(other[1..], name, sub, k));
    }
  }

  lemma NoSections(secs: seq<Sec>, name: string, sub: string, k: string)
    ensures !HasSec(secs, name, sub) ==> Firsts(secs, name, sub, k) == Later(secs, name, sub, k) == []
    ensures !HasSec([], name, sub) && AddAll(Firsts([], name, sub, k), Later([], name, sub, k)) == []
  {
  }

  lemma HeadSection(secs: seq<Sec>, name: string, sub: string, k: string)
    requires secs != []
    ensures Values(secs, name, sub, k) == SecVals(secs[0], name, sub, k) + Values(secs[1..], name, sub, k)
    ensures if Named(secs[0], name, sub) then
        Firsts(secs, name, sub, k) == SecVals(secs[0], name, sub, k) && Later(secs, name, sub, k) == Values(secs[1..], name, sub, k)
      else
        SecVals(secs[0], name, sub, k) == []
        && Firsts(secs, name, sub, k) == Firsts(secs[1..], name, sub, k) && Later(secs, name, sub, k) == Later(secs[1..], name, sub, k)
  {
    hide VarVals, Values;
    HeadValues(secs, name, sub, k);
    if !Named(secs[0], name, sub) {
      var x := FindSec(secs[1..], name, sub);
      FindSecIs(secs, name, sub, x + 1);
      assert x < |secs[1..]| ==> secs[1..][x + 1..] == secs[x + 2..];
    } else {
      FindSecIs(secs, name, sub, 0);
    }
  }

  lemma HeadValues(secs: seq<Sec>, name: string, sub: string, k: string)
    requires secs != []
    ensures Values(secs, name, sub, k) == SecVals(secs[0], name, sub, k) + Values(secs[1..], name, sub, k)
  {
  }

  lemma {:induction false} AddAllTwice(a: seq<string>, b: seq<string>, c: seq<string>)
    ensures AddAll(AddAll(a, b), c) == AddAll(a, b + c)
    decreases |b|
  {
    if b == [] {
      assert b + c == c;
    } else {
      AddAllTwice(ToBack(a, b[0]), b[1..], c);
      assert (b + c)[1..] == b[1..] + c;
    }
  }

  lemma {:induction false} RebaseOk(secs: seq<Sec>, other: seq<Sec>)
    requires IniOk(secs) && IniOk(other)
    ensures IniOk(Rebase(secs, other))
    decreases |other|
  {
    hide SecOk, MergeSection;
    if other != [] {
      assert other[0] in other && forall t :: t in other[1..] ==> t in other;
      MergeOk(secs, other[0]);
      RebaseOk(MergeSection(secs, other[0]), other[1..]);
    }
  }

  /** Gets after Rebase: each value of the other file is behind all others, whether it was there before or not. */
  lemma RebaseGets(secs: seq<Sec>, other: seq<Sec>, name: string, sub: string, key: string)
    requires IniOk(secs) && IniOk(other) && name != "" && key != ""
    ensures var n, k := Lower(name), Lower(key);
      Gets(Rebase(secs, other), name, sub, key) ==
        if HasSec(secs, n, sub) then AddAll(Firsts(secs, n, sub, k), Gets(other, name, sub, key)) + Later(secs, n, sub, k)
        else AddAll(Firsts(other, n, sub, k), Later(other, n, sub, k))
  {
    hide Rebase, Values, Later, Firsts, AddAll, IniOk, HasSec;
    RebaseOk(secs, other);
    GetsIsValues(Rebase(secs, other), name, sub, key);
    GetsIsValues(other, name, sub, key);
    RebaseValues(secs, other, Lower(name), sub, Lower(key));
  }

  lemma UniqueLater(secs: seq<Sec>, name: string, sub: string, k: string)
    requires Unique(secs)
    ensures Later(secs, name, sub, k) == [] && Values(secs, name, sub, k) == Firsts(secs, name, sub, k)
  {
    hide Values, FindSec, VarVals;
    var x := FindSec(secs, name, sub);
    if x < |secs| {
      ValuesAbsent(secs[x + 1..], name, sub, k);
    }
    FirstsLater(secs, name, sub, k);
    assert Firsts(secs, name, sub, k) + [] == Firsts(secs, name, sub, k);
  }

  /** Of pruned files, Rebase keeps the last of equal values from both, one behind the other. */
  lemma RebasePrunedGets(secs: seq<Sec>, other: seq<Sec>, name: string, sub: string, key: string)
    requires IniOk(secs) && IniOk(other) && name != "" && key != ""
    ensures var base, theirs := Prune(secs), Prune(other);
      Gets(Rebase(base, theirs), name, sub, key) == KeepLast(Gets(base, name, sub, key) + Gets(theirs, name, sub, key))
  {
    hide Prune, Rebase, Values, Later, Firsts, AddAll, IniOk, HasSec, KeepLast, CleanIni, Gets, Unique;
    var base, theirs := Prune(secs), Prune(other);
    var n, k := Lower(name), Lower(key);
    PrunedFacts(secs, n, sub, k);
    PrunedFacts(other, n, sub, k);
    RebaseGets(base, theirs, name, sub, key);
    GetsIsValues(base, name, sub, key);
    GetsIsValues(theirs, name, sub, key);
    var a, b := Values(base, n, sub, k), Values(theirs, n, sub, k);
    AddAllKeepLast(a, b);
    AddNone(b);
    NoSections(base, n, sub, k);
    assert AddAll(a, b) + [] == AddAll(a, b);
    assert [] + b == b;
  }

  lemma PrunedFacts(secs: seq<Sec>, n: string, sub: string, k: string)
    requires IniOk(secs) && n != "" && k != ""
    ensures var p := Prune(secs);
      && IniOk(p) && Later(p, n, sub, k) == [] && Values(p, n, sub, k) == Firsts(p, n, sub, k)
      && KeepLast(Values(p, n, sub, k)) == Values(p, n, sub, k)
  {
    hide Values, Later, Firsts, KeepLast, Unique, SecOk;
    PruneFromOk([], secs);
    PruneValues(secs, n, sub, k);
    KeepLastTwice(NormAll(Values(secs, n, sub, k)));
    UniqueLater(Prune(secs), n, sub, k);
  }
}
