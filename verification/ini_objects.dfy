/**
 INI files as objects (lib/ini/ini.go, lib/ini/section.go): sections whose variables are moved and added in place, and
 files whose lists of sections are rebuilt by Prune and Rebase, tied to the functions on values.
 */
module IniObjects {
  import opened Ini
  import opened IniCalls
  import opened Lists

  class Section {
    const mode: nat
    const name: string
    const nameLower: string
    const sub: string
    var vars: seq<Var>

    constructor (mode: nat, name: string, nameLower: string, sub: string)
      ensures Value() == Sec(mode, name, nameLower, sub, [])
    {
      this.mode, this.name, this.nameLower, this.sub := mode, name, nameLower, sub;
      vars := [];
    }

    ghost function Value(): Sec
      reads this
    {
      Sec(mode, name, nameLower, sub, vars)
    }

    /** addUniqValue */
    method AddUniqValue(key: string, value: string)
      modifies this`vars
      ensures vars == AddUniq(old(vars), key, value)
    {
      var keyLower := Lower(key);
      for x := 0 to |vars|
        invariant vars == old(vars)
        invariant forall i :: 0 <= i < x ==> !(vars[i].keyLower == keyLower && vars[i].value == value)
      {
        if vars[x].keyLower == keyLower && vars[x].value == value {
          PlaceIs(vars, keyLower, value, x);
          var tmp := vars[x];
          vars := vars[..x] + vars[x + 1..];
          vars := vars + [tmp];
          return;
        }
      }
      PlaceIs(vars, keyLower, value, |vars|);
      vars := vars + [Var(MODE_VALUE, key, keyLower, value)];
    }

    /** addVariable: an empty value becomes "true", and the key gets its lower case. */
    method AddVariable(v: Var)
      modifies this`vars
      ensures vars == old(vars) + [Stored(v)]
    {
      var w := v;
      if HasMode(v.mode, MODE_SINGLE) || HasMode(v.mode, MODE_VALUE) || HasMode(v.mode, MODE_MULTI) {
        if |v.value| == 0 {
          w := w.(value := TRUE);
        }
        w := w.(keyLower := Lower(v.key));
      }
      vars := vars + [w];
    }

    /** add: a variable that is there with the value is not added again. */
    method Add(key: string, value: string) returns (added: bool)
      modifies this`vars
      ensures vars == AddTo(old(vars), key, value) && added == (vars != old(vars))
    {
      if |key| == 0 {
        return false;
      }
      var val := value;
      if |val| == 0 {
        val := TRUE;
      }
      var keyLower := Lower(key);
      for x := 0 to |vars|
        invariant forall i :: 0 <= i < x ==> !Holds(vars[i], keyLower, val)
      {
        if !IsVar(vars[x]) {
          continue;
        }
        if vars[x].keyLower != keyLower {
          continue;
        }
        if vars[x].value == val {
          assert Holds(vars[x], keyLower, val);
          return false;
        }
      }
      vars := vars + [Var(MODE_VALUE, key, keyLower, val)];
      return true;
    }

    /** set: the last variable with the key gets the value. */
    method Set(key: string, value: string) returns (ok: bool)
      modifies this`vars
      ensures vars == SetIn(old(vars), key, value) && ok == (key != "")
    {
      if |key| == 0 {
        return false;
      }
      var keyLower := Lower(key);
      var val := value;
      if |val| == 0 {
        val := TRUE;
      }
      var x := |vars|;
      assert vars[..x] == vars;
      while x > 0
        invariant x <= |vars| && LastOf(vars[..x], keyLower) == LastOf(vars, keyLower)
      {
        assert vars[..x][..x - 1] == vars[..x - 1];
        x := x - 1;
        if !IsVar(vars[x]) {
          continue;
        }
        if vars[x].keyLower == keyLower {
          vars := vars[x := vars[x].(value := val)];
          return true;
        }
      }
      vars := vars + [Var(MODE_VALUE, key, keyLower, val)];
      return true;
    }

    /** unset: the last variable with the key goes. */
    method Unset(key: string) returns (ok: bool)
      modifies this`vars
      ensures vars == UnsetIn(old(vars), key) && ok == (vars != old(vars))
    {
      if |key| == 0 {
        return false;
      }
      var keyLower := Lower(key);
      var x := |vars|;
      assert vars[..x] == vars;
      while x > 0
        invariant x <= |vars| && LastOf(vars[..x], keyLower) == LastOf(vars, keyLower)
      {
        assert vars[..x][..x - 1] == vars[..x - 1];
        x := x - 1;
        if !IsVar(vars[x]) {
          continue;
        }
        if vars[x].keyLower == keyLower {
          vars := vars[..x] + vars[x + 1..];
          return true;
        }
      }
      return false;
    }

    method Get(key: string, def: string) returns (val: string, ok: bool)
      ensures var r := SecGet(vars, key); ok == r.Some? && val == if r.Some? then r.value else def
    {
      val, ok := def, false;
      if |vars| == 0 || |key| == 0 {
        return;
      }
      var x := |vars|;
      var k := Lower(key);
      assert vars[..x] == vars;
      while x > 0
        invariant x <= |vars| && !ok && val == def && k == Lower(key)
        invariant SecGet(vars[..x], key) == SecGet(vars, key)
      {
        assert vars[..x][..x - 1] == vars[..x - 1];
        x := x - 1;
        if vars[x].keyLower != k {
          continue;
        }
        val := vars[x].value;
        ok := true;
        break;
      }
    }

    method Gets(key: string) returns (vals: seq<string>, ok: bool)
      ensures vals == SecGets(vars, key) && ok == (vals != [])
    {
      vals, ok := [], false;
      if |vars| == 0 || |key| == 0 {
        return;
      }
      var k := Lower(key);
      for x := 0 to |vars|
        invariant vals + VarVals(vars[x..], k) == VarVals(vars, k)
      {
        assert vars[x..][1..] == vars[x + 1..];
        if vars[x].keyLower == k {
          vals := vals + [vars[x].value];
        }
      }
      assert VarVals(vars[|vars|..], k) == [];
      ok := |vals| != 0;
    }
  }

  lemma PlaceIs(vars: seq<Var>, keyLower: string, value: string, x: nat)
    requires x <= |vars|
    requires forall i :: 0 <= i < x ==> !(vars[i].keyLower == keyLower && vars[i].value == value)
    requires x < |vars| ==> vars[x].keyLower == keyLower && vars[x].value == value
    ensures PlaceOf(vars, keyLower, value) == x
  {
  }

  ghost function ValuesOf(secs: seq<Section>): (r: seq<Sec>)
    reads secs
    ensures |r| == |secs|
  {
    seq(|secs|, i requires 0 <= i < |secs| reads secs => secs[i].Value())
  }

  /** The variables of a section go into another one. */
  method MergeInto(sec: Section, newSec: Section)
    requires sec != newSec
    modifies sec`vars
    ensures sec.vars == MergeVars(old(sec.vars), newSec.vars)
  {
    hide AddUniq;
    for x := 0 to |newSec.vars|
      invariant MergeVars(sec.vars, newSec.vars[x..]) == MergeVars(old(sec.vars), newSec.vars)
    {
      var v := newSec.vars[x];
      assert newSec.vars[x..][1..] == newSec.vars[x + 1..];
      if v.mode == MODE_EMPTY || v.mode == MODE_COMMENT {
        continue;
      }
      sec.AddUniqValue(v.keyLower, v.value);
    }
  }

  /** mergeSection: into the first section of the name, or behind all others. */
  method MergeIn(secs: seq<Section>, newSec: Section) returns (r: seq<Section>)
    requires NoDup(secs) && newSec !in secs
    modifies secs
    ensures ValuesOf(r) == MergeSection(old(ValuesOf(secs)), newSec.Value())
    ensures r == secs || r == secs + [newSec]
  {
    hide MergeVars;
    for x := 0 to |secs|
      invariant forall i :: 0 <= i < |secs| ==> secs[i].vars == old(secs[i].vars)
      invariant forall i :: 0 <= i < x ==> !Named(secs[i].Value(), newSec.nameLower, newSec.sub)
    {
      if secs[x].nameLower != newSec.nameLower {
        continue;
      }
      if secs[x].sub != newSec.sub {
        continue;
      }
      FindSecIs(ValuesOf(secs), newSec.nameLower, newSec.sub, x);
      MergeInto(secs[x], newSec);
      return secs;
    }
    FindSecIs(ValuesOf(secs), newSec.nameLower, newSec.sub, |secs|);
    r := secs + [newSec];
  }

  lemma RebaseStep(secs: seq<Sec>, other: seq<Sec>, x: nat)
    requires x <= |other|
    ensures Ini.Rebase(secs, other[x..]) ==
      if x == |other| then secs else Ini.Rebase(MergeSection(secs, other[x]), other[x + 1..])
  {
    hide MergeSection;
    if x < |other| {
      assert other[x..][1..] == other[x + 1..];
    }
  }

  /** A new section with the variables of the old one, filled and each of them once. */
  method Rebuilt(sec: Section) returns (newSec: Section)
    ensures fresh(newSec) && newSec.Value() == PruneSec(sec.Value())
  {
    hide AddUniq;
    var mode := MODE_SECTION;
    if |sec.sub| > 0 {
      mode := mode + MODE_SUBSECTION;
    }
    newSec := new Section(mode, sec.name, sec.nameLower, sec.sub);
    for x := 0 to |sec.vars|
      invariant fresh(newSec) && newSec.Value().(vars := []) == PruneSec(sec.Value()).(vars := [])
      invariant PruneVars(newSec.vars, sec.vars[x..]) == PruneVars([], sec.vars)
      modifies newSec`vars
    {
      var v := sec.vars[x];
      assert sec.vars[x..][1..] == sec.vars[x + 1..];
      if v.mode == MODE_EMPTY || v.mode == MODE_COMMENT {
        continue;
      }
      var newValue := v.value;
      if |v.value| == 0 {
        newValue := "true";
      }
      newSec.AddUniqValue(v.key, newValue);
    }
  }

  class File {
    var secs: seq<Section>

    constructor ()
      ensures secs == []
    {
      secs := [];
    }

    ghost function Value(): seq<Sec>
      reads this, secs
    {
      ValuesOf(secs)
    }

    /** getSection: the last section of the name. */
    method GetSection(secName: string, subName: string) returns (sec: Section?, ghost x: int)
      ensures x == SectionAt(Value(), secName, subName)
      ensures if x < 0 then sec == null else sec == secs[x]
    {
      ghost var all := Value();
      var i := |secs|;
      assert all[..i] == all;
      while i > 0
        invariant i <= |secs| && SectionAt(all[..i], secName, subName) == SectionAt(all, secName, subName)
      {
        assert all[..i][..i - 1] == all[..i - 1];
        i := i - 1;
        if secs[i].mode == MODE_EMPTY || secs[i].mode == MODE_COMMENT {
          continue;
        }
        if secs[i].nameLower != secName {
          continue;
        }
        if secs[i].sub != subName {
          continue;
        }
        return secs[i], i;
      }
      return null, -1;
    }

    /** The end of Add and Set: a new section with one variable. */
    method AppendSection(secName: string, subName: string, v: Var)
      requires secName != "" && NoDup(secs)
      modifies this`secs
      ensures Value() == old(Value()) + [NewSec(secName, subName, v)] && NoDup(secs)
    {
      var mode := MODE_SECTION;
      if |subName| > 0 {
        mode := mode + MODE_SUBSECTION;
      }
      ghost var all := Value();
      var sec := new Section(mode, secName, Lower(secName), subName);
      sec.vars := sec.vars + [v];
      assert sec.Value() == NewSec(secName, subName, v);
      secs := secs + [sec];
      assert forall i :: 0 <= i < |all| ==> secs[i].Value() == all[i];
    }

    method Add(secName: string, subName: string, key: string, value: string) returns (ok: bool)
      requires NoDup(secs)
      modifies this`secs, secs
      ensures Value() == Called(old(Value()), Call.Add(secName, subName, key, value))
      ensures ok == (Value() != old(Value())) && NoDup(secs)
    {
      if |secName| == 0 || |key| == 0 {
        return false;
      }
      var name := Lower(secName);
      var sec, x := GetSection(name, subName);
      if sec != null {
        ok := sec.Add(key, value);
        return;
      }
      var val := value;
      if |val| == 0 {
        val := TRUE;
      }
      AppendSection(name, subName, Var(MODE_VALUE, key, Lower(key), val));
      return true;
    }

    method Set(secName: string, subName: string, key: string, value: string) returns (ok: bool)
      requires NoDup(secs)
      modifies this`secs, secs
      ensures Value() == Called(old(Value()), Call.Set(secName, subName, key, value))
      ensures ok == (secName != "" && key != "") && NoDup(secs)
    {
      if |secName| == 0 || |key| == 0 {
        return false;
      }
      var name := Lower(secName);
      var sec, x := GetSection(name, subName);
      if sec == null {
        AppendSection(name, subName, Var(MODE_VALUE, key, Lower(key), value));
        return true;
      }
      ok := sec.Set(Lower(key), value);
    }

    /** Unset tells whether there is such a section. */
    method Unset(secName: string, subName: string, key: string) returns (ok: bool)
      requires NoDup(secs)
      modifies this`secs, secs
      ensures Value() == Called(old(Value()), Call.Unset(secName, subName, key))
      ensures ok == (secName != "" && key != "" && SectionAt(old(Value()), Lower(secName), subName) >= 0)
      ensures secs == old(secs)
    {
      hide UnsetIn, SectionAt, NewSec, FirstVar;
      if |secName| == 0 || |key| == 0 {
        return false;
      }
      var name := Lower(secName);
      var sec, x := GetSection(name, subName);
      if sec == null {
        return false;
      }
      var removed := sec.Unset(key);
      return true;
    }

    method Prune()
      modifies this`secs
      ensures Value() == Ini.Prune(old(Value()))
      ensures fresh(secs) && NoDup(secs)
    {
      hide MergeSection, PruneSec;
      var newSecs: seq<Section> := [];
      ghost var all := Value();
      for x := 0 to |secs|
        invariant fresh(newSecs) && NoDup(newSecs)
        invariant secs == old(secs) && forall i :: 0 <= i < |secs| ==> secs[i].Value() == all[i]
        invariant PruneFrom(ValuesOf(newSecs), all[x..]) == Ini.Prune(all)
      {
        assert all[x..][1..] == all[x + 1..];
        if secs[x].mode == MODE_EMPTY {
          continue;
        }
        var newSec := Rebuilt(secs[x]);
        newSecs := MergeIn(newSecs, newSec);
      }
      secs := newSecs;
    }

    /** The sections of the other file are merged, or shared when their name is new. */
    method Rebase(other: File)
      requires NoDup(secs) && NoDup(other.secs) && forall s :: s in secs ==> s !in other.secs
      requires this != other
      modifies this`secs, secs, other.secs
      ensures Value() == Ini.Rebase(old(Value()), old(other.Value()))
    {
      hide MergeSection, Ini.Rebase, Section.Value;
      ghost var mine, theirs := Value(), other.Value();
      assert theirs[0..] == theirs;
      for x := 0 to |other.secs|
        invariant NoDup(secs) && other.secs == old(other.secs)
        invariant forall i :: 0 <= i < |secs| ==> secs[i] in old(secs) || secs[i] in other.secs
        invariant forall i :: x <= i < |other.secs| ==> other.secs[i] !in secs
        invariant forall i :: x <= i < |other.secs| ==> other.secs[i].Value() == theirs[i]
        invariant Ini.Rebase(Value(), theirs[x..]) == Ini.Rebase(mine, theirs)
      {
        RebaseStep(Value(), theirs, x);
        secs := MergeIn(secs, other.secs[x]);
      }
      RebaseStep(Value(), theirs, |theirs|);
    }

    method Get(secName: string, subName: string, key: string, def: string) returns (val: string, ok: bool)
      ensures var r := Ini.Get(Value(), secName, subName, key); ok == r.Some? && val == if r.Some? then r.value else def
    {
      if |secs| == 0 || |secName| == 0 || |key| == 0 {
        return def, false;
      }
      ghost var all := Value();
      var x := |secs|;
      var sec := Lower(secName);
      assert all[..x] == all;
      while x > 0
        invariant x <= |secs| && sec == Lower(secName)
        invariant Ini.Get(all[..x], secName, subName, key) == Ini.Get(all, secName, subName, key)
      {
        assert all[..x][..x - 1] == all[..x - 1];
        x := x - 1;
        if secs[x].nameLower != sec {
          continue;
        }
        if secs[x].sub != subName {
          continue;
        }
        val, ok := secs[x].Get(key, def);
        if ok {
          return;
        }
      }
      return def, false;
    }

    method Gets(secName: string, subName: string, key: string) returns (out: seq<string>)
      ensures out == Ini.Gets(Value(), secName, subName, key)
    {
      hide SecGets, Ini.Gets;
      out := [];
      ghost var all := Value();
      ghost var g := Ini.Gets(all, secName, subName, key);
      var name := Lower(secName);
      assert all[0..] == all && [] + g == g;
      for x := 0 to |secs|
        invariant out + Ini.Gets(all[x..], secName, subName, key) == g
      {
        GetsStep(out, all, x, secName, subName, key);
        if !HasMode(secs[x].mode, MODE_SECTION) {
          continue;
        }
        if secs[x].nameLower != name {
          continue;
        }
        if secs[x].sub != subName {
          continue;
        }
        var vals, ok := secs[x].Gets(key);
        if !ok {
          continue;
        }
        out := out + vals;
      }
      assert Ini.Gets(all[|secs|..], secName, subName, key) == [] by {
        GetsNone(all, secName, subName, key);
      }
    }
  }

  /** One turn of the loop of Gets. */
  lemma GetsStep(out: seq<string>, secs: seq<Sec>, x: nat, name: string, sub: string, key: string)
    requires x < |secs|
    ensures var s, rest := secs[x], Ini.Gets(secs[x + 1..], name, sub, key);
      out + Ini.Gets(secs[x..], name, sub, key) ==
        if HasMode(s.mode, MODE_SECTION) && Named(s, Lower(name), sub) && SecGets(s.vars, key) != []
        then out + SecGets(s.vars, key) + rest else out + rest
  {
    hide SecGets, HasMode, Named;
    assert secs[x..][1..] == secs[x + 1..];
    var s, rest := secs[x], Ini.Gets(secs[x + 1..], name, sub, key);
    var vals := if HasMode(s.mode, MODE_SECTION) && Named(s, Lower(name), sub) then SecGets(s.vars, key) else [];
    assert Ini.Gets(secs[x..], name, sub, key) == vals + rest;
    assert out + (vals + rest) == out + vals + rest && [] + rest == rest;
  }

  lemma GetsNone(secs: seq<Sec>, name: string, sub: string, key: string)
    ensures Ini.Gets(secs[|secs|..], name, sub, key) == []
  {
  }
}
