/**
 What Add, Set and Unset do to lookups (lib/ini/ini.go, lib/ini/section.go): to the values of their own section and key,
 and to no others.
 */
module IniLookups {
  import opened Ini
  import opened IniCalls

  // ---------------------------------------------------------------- the lines of one section

  /** Every line is blank or a variable, and in order otherwise. */
  ghost predicate LinesOk(vars: seq<Var>) {
    forall v :: v in vars ==> VarOk(v) && (Blank(v) || IsVar(v))
  }

  function WithoutLast(vals: seq<string>): seq<string> {
    if vals == [] then [] else vals[..|vals| - 1]
  }

  /** The last variable of the key carries the last of its values. */
  lemma {:induction false} LastSplit(vars: seq<Var>, k: string)
    requires LinesOk(vars) && k != ""
    ensures var x := LastOf(vars, k);
      && (x < 0 ==> VarVals(vars, k) == [])
      && (x >= 0 ==> VarVals(vars, k) == VarVals(vars[..x], k) + [vars[x].value] && VarVals(vars[x + 1..], k) == [])
    decreases |vars|
  {
    hide VarVals, LinesOk;
    if vars == [] {
      VarValsNone(k);
    } else {
      var n := |vars| - 1;
      LastLine(vars, k);
      if vars[n].keyLower == k {
        assert vars[n + 1..] == [];
        VarValsNone(k);
      } else {
        LastSplit(vars[..n], k);
        var x := LastOf(vars[..n], k);
        if x >= 0 {
          LaterLine(vars, x, k);
        }
      }
    }
  }

  lemma LastLine(vars: seq<Var>, k: string)
    requires LinesOk(vars) && vars != [] && k != ""
    ensures var n := |vars| - 1;
      && LinesOk(vars[..n]) && (vars[n].keyLower == k ==> IsVar(vars[n]))
      && VarVals(vars, k) == VarVals(vars[..n], k) + if vars[n].keyLower == k then [vars[n].value] else []
  {
    hide VarVals;
    var n := |vars| - 1;
    assert vars == vars[..n] + [vars[n]] && vars[n] in vars;
    VarValsConcat(vars[..n], [vars[n]], k);
    VarValsOne(vars[n], k);
  }

  lemma LaterLine(vars: seq<Var>, x: nat, k: string)
    requires x < |vars| - 1 && vars[|vars| - 1].keyLower != k
    ensures var n := |vars| - 1;
      vars[..n][..x] == vars[..x] && VarVals(vars[x + 1..], k) == VarVals(vars[..n][x + 1..], k)
  {
    hide VarVals;
    var n := |vars| - 1;
    assert vars[x + 1..] == vars[..n][x + 1..] + [vars[n]];
    VarValsConcat(vars[..n][x + 1..], [vars[n]], k);
    VarValsOne(vars[n], k);
  }

  /** Another line at x. */
  lemma ReplacedVals(vars: seq<Var>, x: nat, v: Var, k: string)
    requires x < |vars|
    ensures VarVals(vars[x := v], k)
         == VarVals(vars[..x], k) + (if v.keyLower == k then [v.value] else []) + VarVals(vars[x + 1..], k)
    ensures VarVals(vars[..x] + vars[x + 1..], k) == VarVals(vars[..x], k) + VarVals(vars[x + 1..], k)
  {
    hide VarVals;
    assert vars[x := v] == vars[..x] + [v] + vars[x + 1..];
    VarValsConcat(vars[..x] + [v], vars[x + 1..], k);
    VarValsConcat(vars[..x], [v], k);
    VarValsConcat(vars[..x], vars[x + 1..], k);
    VarValsOne(v, k);
  }

  lemma AppendedVals(vars: seq<Var>, v: Var, k: string)
    ensures VarVals(vars + [v], k) == VarVals(vars, k) + if v.keyLower == k then [v.value] else []
  {
    hide VarVals;
    VarValsConcat(vars, [v], k);
    VarValsOne(v, k);
  }

  /** Set replaces the last value of its key, or adds the first one; nothing else changes. */
  lemma SetInVals(vars: seq<Var>, key: string, value: string, k: string)
    requires LinesOk(vars) && key != ""
    ensures VarVals(SetIn(vars, key, value), k)
         == if k == Lower(key) then WithoutLast(VarVals(vars, k)) + [Norm(value)] else VarVals(vars, k)
  {
    hide VarVals, LastOf, LinesOk;
    var x := LastOf(vars, Lower(key));
    assert |Lower(key)| == |key|;
    LastSplit(vars, Lower(key));
    if x >= 0 {
      ReplacedVals(vars, x, vars[x].(value := Norm(value)), k);
      ReplacedVals(vars, x, vars[x], k);
      assert vars[x := vars[x]] == vars;
    } else {
      AppendedVals(vars, NewVar(key, Norm(value)), k);
    }
  }

  /** Unset removes the last value of its key. */
  lemma UnsetInVals(vars: seq<Var>, key: string, k: string)
    requires LinesOk(vars) && key != ""
    ensures VarVals(UnsetIn(vars, key), k) == if k == Lower(key) then WithoutLast(VarVals(vars, k)) else VarVals(vars, k)
  {
    hide VarVals, LastOf, LinesOk;
    var x := LastOf(vars, Lower(key));
    assert |Lower(key)| == |key|;
    LastSplit(vars, Lower(key));
    if x >= 0 {
      ReplacedVals(vars, x, vars[x], k);
      assert vars[x := vars[x]] == vars;
    }
  }

  /** Some variable has the key and the value exactly if the value is among those of the key. */
  lemma {:induction false} HoldsInVals(vars: seq<Var>, k: string, value: string)
    requires LinesOk(vars) && k != ""
    ensures (exists i :: 0 <= i < |vars| && Holds(vars[i], k, value)) <==> value in VarVals(vars, k)
    decreases |vars|
  {
    hide LinesOk, VarVals;
    if vars == [] {
      VarValsNone(k);
    } else {
      FirstLine(vars, k);
      HoldsInVals(vars[1..], k, value);
      assert forall i :: 0 <= i < |vars[1..]| ==> vars[1..][i] == vars[i + 1];
      if i :| 0 <= i < |vars| && Holds(vars[i], k, value) {
        assert i > 0 ==> Holds(vars[1..][i - 1], k, value);
      }
      if j :| 0 <= j < |vars[1..]| && Holds(vars[1..][j], k, value) {
        assert Holds(vars[j + 1], k, value);
      }
      assert vars[0].keyLower == k ==> Holds(vars[0], k, vars[0].value);
    }
  }

  lemma FirstLine(vars: seq<Var>, k: string)
    requires LinesOk(vars) && vars != [] && k != ""
    ensures LinesOk(vars[1..]) && (vars[0].keyLower == k ==> IsVar(vars[0]))
    ensures VarVals(vars, k) == (if vars[0].keyLower == k then [vars[0].value] else []) + VarVals(vars[1..], k)
  {
    assert vars[0] in vars;
  }

  /** Add adds a value that its key does not have yet. */
  lemma AddToVals(vars: seq<Var>, key: string, value: string, k: string)
    requires LinesOk(vars) && key != ""
    ensures VarVals(AddTo(vars, key, value), k)
         == if k == Lower(key) && Norm(value) !in VarVals(vars, k) then VarVals(vars, k) + [Norm(value)] else VarVals(vars, k)
  {
    hide VarVals, LinesOk, Holds;
    assert |Lower(key)| == |key|;
    HoldsInVals(vars, Lower(key), Norm(value));
    AppendedVals(vars, NewVar(key, Norm(value)), k);
  }

  // ---------------------------------------------------------------- whole files

  ghost predicate FileOk(secs: seq<Sec>) {
    IniOk(secs) && forall s :: s in secs ==> LinesOk(s.vars)
  }

  /** What a call makes of the values under its name and key, of which `here` are in the last section of the name. */
  function After(c: Call, here: seq<string>, vals: seq<string>): seq<string> {
    match c
    case Add(_, _, _, value) => if Norm(value) in here then vals else vals + [Norm(value)]
    case Set(_, _, _, value) => (if here == [] then vals else WithoutLast(vals)) + [Norm(value)]
    case Unset(_, _, _) => if here == [] then vals else WithoutLast(vals)
  }

  lemma CalledInVals(vars: seq<Var>, c: Call, k: string)
    requires LinesOk(vars) && c.key != ""
    ensures VarVals(CalledIn(vars, c), k)
         == if k == Lower(c.key) then After(c, VarVals(vars, k), VarVals(vars, k)) else VarVals(vars, k)
  {
    hide VarVals, AddTo, SetIn, UnsetIn, LinesOk;
    LowerTwice(c.key);
    assert |Lower(c.key)| == |c.key|;
    match c
    case Add(_, _, key, value) => AddToVals(vars, key, value, k);
    case Set(_, _, key, value) => SetInVals(vars, Lower(key), value, k);
    case Unset(_, _, key) => UnsetInVals(vars, key, k);
  }

  /** A change at the end of a list of values is one at the end of all of them. */
  lemma AfterBehind(c: Call, before: seq<string>, here: seq<string>)
    ensures before + After(c, here, here) == After(c, here, before + here)
  {
    match c
    case Add(_, _, _, value) => assert before + (here + [Norm(value)]) == before + here + [Norm(value)];
    case Set(_, _, _, value) =>
      if here != [] {
        assert before + (WithoutLast(here) + [Norm(value)]) == WithoutLast(before + here) + [Norm(value)];
      } else {
        assert before + here == before && [] + [Norm(value)] == [Norm(value)];
      }
    case Unset(_, _, _) =>
      if here != [] {
        assert before + WithoutLast(here) == WithoutLast(before + here);
      } else {
        assert before + here == before;
      }
  }

  /** Behind the last section of the name there are no values, and without such a section there are none at all. */
  lemma NoneBehind(secs: seq<Sec>, n: string, sub: string, k: string)
    requires FileOk(secs) && n != ""
    ensures var x := SectionAt(secs, n, sub); Values(secs[x + 1..], n, sub, k) == []
  {
    hide Values, LinesOk, SectionAt, SecOk, Named;
    var x := SectionAt(secs, n, sub);
    var rest := secs[x + 1..];
    forall i | 0 <= i < |rest| ensures !Named(rest[i], n, sub) {
      assert rest[i] == secs[x + 1 + i] && rest[i] in secs;
      if Named(rest[i], n, sub) {
        NamedIsSection(rest[i], n, sub);
      }
    }
    ValuesAbsent(rest, n, sub, k);
  }

  lemma NamedIsSection(s: Sec, n: string, sub: string)
    requires SecOk(s) && n != "" && Named(s, n, sub)
    ensures IsSection(s)
  {
    assert |Lower(s.name)| == |s.name|;
  }

  /** The values of the last section of the call's name. */
  function Here(secs: seq<Sec>, c: Call, k: string): seq<string> {
    var x := CallAt(secs, c);
    if x < 0 then [] else VarVals(secs[x].vars, k)
  }

  /**
   An accepted call changes the values under its name and key, and nothing else: Add adds a value that the last section
   of the name does not have, Set replaces the last value if it is in that section, and adds it otherwise, and Unset
   removes it. Set leaves an empty value empty only in a section that it makes.
   */
  lemma CallValues(secs: seq<Sec>, c: Call, n: string, sub: string, k: string)
    requires FileOk(secs) && !Refused(c) && n != ""
    ensures var vals := Values(secs, n, sub, k);
      Values(Called(secs, c), n, sub, k) ==
        if n != Lower(c.name) || sub != c.sub || k != Lower(c.key) then vals
        else if CallAt(secs, c) < 0 && c.Set? then [c.value]
        else After(c, Here(secs, c, k), vals)
  {
    hide Values, VarVals, Called, CallAt, After, FileOk;
    NameOfCall(c);
    if CallAt(secs, c) >= 0 {
      InSection(secs, c, n, sub, k);
    } else {
      NoneThere(secs, c, k);
      if c.Unset? {
        NothingLost(secs, c);
      } else {
        NewSection(secs, c, n, sub, k);
      }
    }
  }

  lemma NameOfCall(c: Call)
    requires !Refused(c)
    ensures Lower(Lower(c.name)) == Lower(c.name) && Lower(c.name) != "" && Lower(c.key) != ""
  {
    LowerTwice(c.name);
    assert |Lower(c.name)| == |c.name| && |Lower(c.key)| == |c.key|;
  }

  lemma NoneThere(secs: seq<Sec>, c: Call, k: string)
    requires FileOk(secs) && !Refused(c) && CallAt(secs, c) < 0
    ensures Values(secs, Lower(c.name), c.sub, k) == []
  {
    hide Values, FileOk, SectionAt;
    NameOfCall(c);
    NoneBehind(secs, Lower(c.name), c.sub, k);
    assert secs[0..] == secs;
  }

  lemma InSection(secs: seq<Sec>, c: Call, n: string, sub: string, k: string)
    requires FileOk(secs) && !Refused(c) && n != "" && CallAt(secs, c) >= 0
    ensures var vals := Values(secs, n, sub, k);
      Values(Called(secs, c), n, sub, k) ==
        if n != Lower(c.name) || sub != c.sub || k != Lower(c.key) then vals else After(c, Here(secs, c, k), vals)
  {
    hide Values, VarVals, CalledIn, After, LinesOk, IniOk, SectionAt;
    NameOfCall(c);
    var x := CallAt(secs, c);
    var s := secs[x];
    assert s in secs;
    CalledInVals(s.vars, c, k);
    ChangedSection(secs, x, CalledIn(s.vars, c), n, sub, k);
    if n == Lower(c.name) && sub == c.sub && k == Lower(c.key) {
      OwnValues(secs, c, k);
    }
  }

  lemma OwnValues(secs: seq<Sec>, c: Call, k: string)
    requires FileOk(secs) && !Refused(c) && CallAt(secs, c) >= 0
    ensures var x, n := CallAt(secs, c), Lower(c.name);
      var before, here, behind := Values(secs[..x], n, c.sub, k), VarVals(secs[x].vars, k), Values(secs[x + 1..], n, c.sub, k);
      before + After(c, here, here) + behind == After(c, here, before + here + behind)
  {
    hide Values, VarVals, After, FileOk, SectionAt;
    NameOfCall(c);
    var x, n := CallAt(secs, c), Lower(c.name);
    var before, here := Values(secs[..x], n, c.sub, k), VarVals(secs[x].vars, k);
    NoneBehind(secs, n, c.sub, k);
    AfterBehind(c, before, here);
    assert before + After(c, here, here) + [] == before + After(c, here, here) && before + here + [] == before + here;
  }

  lemma NothingLost(secs: seq<Sec>, c: Call)
    requires c.Unset? && CallAt(secs, c) < 0
    ensures Called(secs, c) == secs && After(c, [], []) == []
  {
  }

  /** Another list of lines in section x. */
  lemma ChangedSection(secs: seq<Sec>, x: nat, vars: seq<Var>, n: string, sub: string, k: string)
    requires x < |secs|
    ensures var here := Named(secs[x], n, sub);
      && Values(secs[x := secs[x].(vars := vars)], n, sub, k)
         == Values(secs[..x], n, sub, k) + (if here then VarVals(vars, k) else []) + Values(secs[x + 1..], n, sub, k)
      && Values(secs, n, sub, k)
         == Values(secs[..x], n, sub, k) + (if here then VarVals(secs[x].vars, k) else []) + Values(secs[x + 1..], n, sub, k)
  {
    hide Values, VarVals;
    UpdateValues(secs, x, secs[x].(vars := vars), n, sub, k);
    ValuesSplit(secs, x, n, sub, k);
  }

  /** The section that Add or Set makes has one value. */
  lemma NewSection(secs: seq<Sec>, c: Call, n: string, sub: string, k: string)
    requires !Refused(c) && !c.Unset? && CallAt(secs, c) < 0
    requires n == Lower(c.name) && sub == c.sub ==> Values(secs, n, sub, k) == []
    ensures var vals := Values(secs, n, sub, k);
      Values(Called(secs, c), n, sub, k) ==
        if n != Lower(c.name) || sub != c.sub || k != Lower(c.key) then vals
        else if c.Set? then [c.value] else After(c, [], vals)
  {
    hide Values, VarVals, SectionAt;
    LowerTwice(c.name);
    var s := NewSec(Lower(c.name), c.sub, FirstVar(c));
    ValuesSnoc(secs, s, n, sub, k);
    VarValsOne(FirstVar(c), k);
    assert Values(secs, n, sub, k) + [] == Values(secs, n, sub, k);
    assert forall v: string :: [] + [v] == [v];
  }

  // ---------------------------------------------------------------- lookups after a call

  /** A lookup right after Set finds what was set. */
  lemma GetAfterSet(secs: seq<Sec>, c: Call)
    requires FileOk(secs) && !Refused(c) && c.Set?
    ensures Get(Called(secs, c), c.name, c.sub, c.key) == Some(if CallAt(secs, c) < 0 then c.value else Norm(c.value))
  {
    hide Values, Get, FileOk, SectionAt, Called;
    assert |Lower(c.name)| == |c.name|;
    CallValues(secs, c, Lower(c.name), c.sub, Lower(c.key));
    GetIsLast(Called(secs, c), c.name, c.sub, c.key);
  }

  /** After Unset it finds the value before the last one, if the last one was in the last section of the name. */
  lemma GetAfterUnset(secs: seq<Sec>, c: Call)
    requires FileOk(secs) && !Refused(c) && c.Unset?
    ensures var k := Lower(c.key);
      var vals := Values(secs, Lower(c.name), c.sub, k);
      Get(Called(secs, c), c.name, c.sub, c.key) == Last(if Here(secs, c, k) == [] then vals else WithoutLast(vals))
  {
    hide Values, Get, FileOk, SectionAt, Called, Here;
    assert |Lower(c.name)| == |c.name|;
    CallValues(secs, c, Lower(c.name), c.sub, Lower(c.key));
    GetIsLast(Called(secs, c), c.name, c.sub, c.key);
  }

  /** Lookups of other sections and keys stay as they are. */
  lemma OthersKept(secs: seq<Sec>, c: Call, name: string, sub: string, key: string)
    requires FileOk(secs) && !(Lower(name) == Lower(c.name) && sub == c.sub && Lower(key) == Lower(c.key))
    ensures Get(Called(secs, c), name, sub, key) == Get(secs, name, sub, key)
  {
    hide Values, Get, FileOk, SectionAt;
    assert |Lower(name)| == |name|;
    GetIsLast(Called(secs, c), name, sub, key);
    GetIsLast(secs, name, sub, key);
    if !Refused(c) && name != "" {
      hide Called;
      CallValues(secs, c, Lower(name), sub, Lower(key));
    }
  }

  // ---------------------------------------------------------------- runs

  /** Parsed files are in order, and calls keep them so. */
  lemma {:induction false} ParsedOk(ps: seq<Source>)
    requires forall p :: p in ps ==> SourceOk(p)
    ensures FileOk(Parsed(ps))
  {
    ParsedStarts(ps);
    ParsedLines(ps);
  }

  lemma {:induction false} ParsedLines(ps: seq<Source>)
    requires forall p :: p in ps ==> SourceOk(p)
    ensures forall s :: s in Parsed(ps) ==> forall v :: v in s.vars ==> Blank(v) || IsVar(v)
  {
    if ps != [] {
      assert ps[0] in ps && forall p :: p in ps[1..] ==> p in ps;
      ParsedLines(ps[1..]);
      forall v | v in StoredAll(ps[0].lines) ensures Blank(v) || IsVar(v) {
        var i :| 0 <= i < |ps[0].lines| && v == Stored(ps[0].lines[i]);
        assert LineOk(ps[0].lines[i]);
      }
    }
  }

  lemma CalledInOk(vars: seq<Var>, c: Call)
    requires LinesOk(vars) && c.key != ""
    ensures LinesOk(CalledIn(vars, c))
  {
    hide LastOf;
    assert |Lower(c.key)| == |c.key|;
    LowerTwice(c.key);
    if !c.Unset? {
      NewVarIs(c.key, Norm(c.value));
      NewVarIs(Lower(c.key), Norm(c.value));
    }
  }

  lemma {:induction false} CallsKeepOk(secs: seq<Sec>, cs: seq<Call>)
    requires FileOk(secs)
    ensures FileOk(CalledAll(secs, cs))
    decreases |cs|
  {
    hide FileOk, Called;
    if cs != [] {
      var n := |cs| - 1;
      CallsKeepOk(secs, cs[..n]);
      CallKeepsOk(CalledAll(secs, cs[..n]), cs[n]);
    }
  }

  lemma CallKeepsOk(secs: seq<Sec>, c: Call)
    requires FileOk(secs)
    ensures FileOk(Called(secs, c))
  {
    hide LinesOk, CalledIn, SectionAt;
    if !Refused(c) {
      NameOfCall(c);
      var x := CallAt(secs, c);
      if x >= 0 {
        assert secs[x] in secs;
        CalledInOk(secs[x].vars, c);
        SectionKept(secs[x], CalledIn(secs[x].vars, c));
      } else if !c.Unset? {
        NewSectionOk(c);
      }
    }
  }

  lemma SectionKept(s: Sec, vars: seq<Var>)
    requires SecOk(s) && LinesOk(vars)
    ensures SecOk(s.(vars := vars))
  {
  }

  lemma NewSectionOk(c: Call)
    requires !Refused(c) && !c.Unset?
    ensures var s := NewSec(Lower(c.name), c.sub, FirstVar(c)); SecOk(s) && LinesOk(s.vars)
  {
    NameOfCall(c);
    NewVarIs(c.key, FirstVar(c).value);
  }

  /** The values of the lines of a section as parsed, an empty one as "true". */
  function LineVals(lines: seq<Var>, k: string): seq<string> {
    if lines == [] then []
    else (if !Blank(lines[0]) && Lower(lines[0].key) == k then [Norm(lines[0].value)] else []) + LineVals(lines[1..], k)
  }

  function SourceVals(ps: seq<Source>, n: string, sub: string, k: string): seq<string> {
    if ps == [] then []
    else (if Lower(ps[0].name) == n && ps[0].sub == sub then LineVals(ps[0].lines, k) else []) + SourceVals(ps[1..], n, sub, k)
  }

  lemma {:induction false} StoredVals(lines: seq<Var>, k: string)
    requires (forall v :: v in lines ==> LineOk(v)) && k != ""
    ensures VarVals(StoredAll(lines), k) == LineVals(lines, k)
    decreases |lines|
  {
    hide VarVals, Stored;
    if lines == [] {
      VarValsNone(k);
      assert StoredAll(lines) == [];
    } else {
      assert lines[0] in lines && forall v :: v in lines[1..] ==> v in lines;
      StoredVals(lines[1..], k);
      assert StoredAll(lines) == [Stored(lines[0])] + StoredAll(lines[1..]);
      VarValsConcat([Stored(lines[0])], StoredAll(lines[1..]), k);
      VarValsOne(Stored(lines[0]), k);
      StoredIs(lines[0]);
    }
  }

  lemma StoredIs(v: Var)
    requires LineOk(v)
    ensures Blank(v) ==> Stored(v).keyLower == ""
    ensures !Blank(v) ==> Stored(v).keyLower == Lower(v.key) && Stored(v).value == Norm(v.value)
  {
  }

  /** What Gets finds in a parsed file: the values of all lines of that key in all sections of that name, in order. */
  lemma {:induction false} ParsedValues(ps: seq<Source>, n: string, sub: string, k: string)
    requires (forall p :: p in ps ==> SourceOk(p)) && n != "" && k != ""
    ensures Values(Parsed(ps), n, sub, k) == SourceVals(ps, n, sub, k)
    decreases |ps|
  {
    hide StoredAll, VarVals, LineVals, LineOk;
    if ps != [] {
      var p := ps[0];
      assert p in ps && forall q :: q in ps[1..] ==> q in ps;
      ParsedValues(ps[1..], n, sub, k);
      StoredVals(p.lines, k);
      assert |Lower(p.name)| == |p.name|;
      var s := Sec(p.mode, p.name, Lower(p.name), p.sub, StoredAll(p.lines));
      ValuesConcat([s], Parsed(ps[1..]), n, sub, k);
      assert Values([s], n, sub, k) == SecVals(s, n, sub, k) by {
        ValuesSnoc([], s, n, sub, k);
        assert [] + [s] == [s] && Values([], n, sub, k) + SecVals(s, n, sub, k) == SecVals(s, n, sub, k);
      }
      assert [] + Parsed(ps[1..]) == Parsed(ps[1..]);
    }
  }

  // ---------------------------------------------------------------- two values

  const A := Var(MODE_VALUE, "k", "k", "a")
  const B := Var(MODE_VALUE, "k", "k", "b")
  const TWO := Sec(MODE_SECTION, "s", "s", "", [A, B])

  lemma TwoOk()
    ensures FileOk([TWO]) && Lower("S") == "s" && Lower("K") == "k"
  {
    assert Lower("s") == "s" && Lower("k") == "k" && Lower("S") == "s" && Lower("K") == "k";
  }

  lemma TwoAt(c: Call)
    requires c.name == "S" && c.sub == ""
    ensures CallAt([TWO], c) == 0
  {
    assert Lower("s") == "s" && Lower("S") == "s";
  }

  lemma TwoVals()
    ensures Values([TWO], "s", "", "k") == ["a", "b"] == VarVals(TWO.vars, "k")
  {
    hide VarVals, Values;
    AppendedVals([A], B, "k");
    VarValsOne(A, "k");
    assert [A] + [B] == [A, B] && ["a"] + ["b"] == ["a", "b"];
    ValuesSnoc([], TWO, "s", "", "k");
    NoValues("s", "", "k");
    assert [] + [TWO] == [TWO] && [] + VarVals([A, B], "k") == VarVals([A, B], "k");
  }

  lemma NoValues(n: string, sub: string, k: string)
    ensures Values([], n, sub, k) == []
  {
  }

  /** Under a key with the values "a" and "b", whatever the case of the letters, Set puts "c" in place of "b", and Unset takes "b" away. */
  lemma TwoValues()
    ensures Values(Called([TWO], Set("S", "", "K", "c")), "s", "", "k") == ["a", "c"]
    ensures Values(Called([TWO], Unset("S", "", "K")), "s", "", "k") == ["a"]
    ensures Get(Called([TWO], Set("S", "", "K", "c")), "S", "", "K") == Some("c")
    ensures Get(Called([TWO], Unset("S", "", "K")), "S", "", "K") == Some("a")
  {
    hide FileOk, Called, CallAt, Values, VarVals, Get;
    TwoOk();
    TwoVals();
    TwoAt(Set("S", "", "K", "c"));
    TwoAt(Unset("S", "", "K"));
    CallValues([TWO], Set("S", "", "K", "c"), "s", "", "k");
    CallValues([TWO], Unset("S", "", "K"), "s", "", "k");
    assert ["a", "b"][..1] == ["a"] && ["a"] + ["c"] == ["a", "c"];
    GetIsLast(Called([TWO], Set("S", "", "K", "c")), "S", "", "K");
    GetIsLast(Called([TWO], Unset("S", "", "K")), "S", "", "K");
  }
}
