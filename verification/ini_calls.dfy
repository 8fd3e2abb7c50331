/**
 How INI files come about (lib/ini/ini.go, lib/ini/section.go): sections of parsed lines, and then calls of Add, Set and
 Unset. Every variable remembers the call that stored its value; from that follows which lookups Prune changes.
 */
module IniCalls {
  import opened Ini

  // ---------------------------------------------------------------- variables of a section

  /** isLineModeVar */
  predicate IsVar(v: Var) {
    HasMode(v.mode, MODE_SINGLE) || HasMode(v.mode, MODE_VALUE) || HasMode(v.mode, MODE_MULTI)
  }

  /** What addVariable keeps of a parsed line. */
  function Stored(v: Var): Var {
    if IsVar(v) then v.(value := Norm(v.value), keyLower := Lower(v.key)) else v
  }

  /** A line of a section as the parser gives it: blank, or a variable with its key. */
  predicate LineOk(v: Var) {
    if Blank(v) then v.keyLower == "" else v.key != "" && IsVar(v)
  }

  lemma StoredOk(v: Var)
    requires LineOk(v)
    ensures VarOk(Stored(v)) && (Blank(v) || Stored(v).value != "")
  {
  }

  predicate Holds(v: Var, keyLower: string, value: string) {
    IsVar(v) && v.keyLower == keyLower && v.value == value
  }

  function NewVar(key: string, value: string): Var {
    Var(MODE_VALUE, key, Lower(key), value)
  }

  function AddTo(vars: seq<Var>, key: string, value: string): seq<Var> {
    if key == "" || exists i :: 0 <= i < |vars| && Holds(vars[i], Lower(key), Norm(value)) then vars
    else vars + [NewVar(key, Norm(value))]
  }

  /** getVariable: the place of the last variable with the key, or -1. */
  function LastOf(vars: seq<Var>, keyLower: string): (x: int)
    ensures -1 <= x < |vars|
    ensures x >= 0 ==> IsVar(vars[x]) && vars[x].keyLower == keyLower
    ensures forall i :: x < i < |vars| ==> !(IsVar(vars[i]) && vars[i].keyLower == keyLower)
  {
    if vars == [] then -1
    else if IsVar(vars[|vars| - 1]) && vars[|vars| - 1].keyLower == keyLower then |vars| - 1
    else LastOf(vars[..|vars| - 1], keyLower)
  }

  function SetIn(vars: seq<Var>, key: string, value: string): seq<Var> {
    var x := LastOf(vars, Lower(key));
    if key == "" then vars
    else if x >= 0 then vars[x := vars[x].(value := Norm(value))]
    else vars + [NewVar(key, Norm(value))]
  }

  function UnsetIn(vars: seq<Var>, key: string): seq<Var> {
    var x := LastOf(vars, Lower(key));
    if key == "" || x < 0 then vars else vars[..x] + vars[x + 1..]
  }

  // ---------------------------------------------------------------- sections of a file

  /** A section as the parser finds it: its header, and its lines. */
  datatype Source = Source(mode: nat, name: string, sub: string, lines: seq<Var>)

  predicate SourceOk(p: Source) {
    && (if p.mode == MODE_EMPTY then p.name == "" else HasMode(p.mode, MODE_SECTION))
    && forall v :: v in p.lines ==> LineOk(v)
  }

  function StoredAll(lines: seq<Var>): (r: seq<Var>)
    ensures |r| == |lines|
  {
    seq(|lines|, i requires 0 <= i < |lines| => Stored(lines[i]))
  }

  /** What addSection and addVariable make of them: a section header without a name is left out. */
  function Parsed(ps: seq<Source>): seq<Sec> {
    if ps == [] then []
    else
      var p := ps[0];
      (if p.mode != MODE_EMPTY && p.name == "" then []
       else [Sec(p.mode, p.name, Lower(p.name), p.sub, StoredAll(p.lines))]) + Parsed(ps[1..])
  }

  predicate IsSection(s: Sec) {
    s.mode != MODE_EMPTY && s.mode != MODE_COMMENT
  }

  /** getSection: the place of the last section of the name, or -1. */
  function SectionAt(secs: seq<Sec>, nameLower: string, sub: string): (x: int)
    ensures -1 <= x < |secs|
    ensures x >= 0 ==> IsSection(secs[x]) && Named(secs[x], nameLower, sub)
    ensures forall i :: x < i < |secs| ==> !(IsSection(secs[i]) && Named(secs[i], nameLower, sub))
  {
    if secs == [] then -1
    else
      var s := secs[|secs| - 1];
      if IsSection(s) && Named(s, nameLower, sub) then |secs| - 1
      else SectionAt(secs[..|secs| - 1], nameLower, sub)
  }

  function NewSec(name: string, sub: string, v: Var): Sec {
    Sec(if sub != "" then MODE_SECTION + MODE_SUBSECTION else MODE_SECTION, name, Lower(name), sub, [v])
  }

  datatype Call =
    | Add(name: string, sub: string, key: string, value: string)
    | Set(name: string, sub: string, key: string, value: string)
    | Unset(name: string, sub: string, key: string)

  /** The place of the section a call is about, or -1. */
  function CallAt(secs: seq<Sec>, c: Call): (x: int)
    ensures -1 <= x < |secs|
    ensures x >= 0 ==> Named(secs[x], Lower(Lower(c.name)), c.sub)
  {
    LowerTwice(c.name);
    SectionAt(secs, Lower(c.name), c.sub)
  }

  predicate Refused(c: Call) {
    c.name == "" || c.key == ""
  }

  /** The variables of its section after a call. */
  function CalledIn(vars: seq<Var>, c: Call): seq<Var> {
    match c
    case Add(_, _, key, value) => AddTo(vars, key, value)
    case Set(_, _, key, value) => SetIn(vars, Lower(key), value)
    case Unset(_, _, key) => UnsetIn(vars, key)
  }

  /** The variable of a new section: Add fills an empty value, Set does not. */
  function FirstVar(c: Call): Var
    requires !c.Unset?
  {
    NewVar(c.key, if c.Add? then Norm(c.value) else c.value)
  }

  function Called(secs: seq<Sec>, c: Call): seq<Sec> {
    var x := CallAt(secs, c);
    if Refused(c) then secs
    else if x >= 0 then secs[x := secs[x].(vars := CalledIn(secs[x].vars, c))]
    else if c.Unset? then secs
    else secs + [NewSec(Lower(c.name), c.sub, FirstVar(c))]
  }

  function CalledAll(secs: seq<Sec>, cs: seq<Call>): seq<Sec> {
    if cs == [] then secs else Called(CalledAll(secs, cs[..|cs| - 1]), cs[|cs| - 1])
  }

  /** A Set of an empty value for which there is no section yet. */
  predicate Hollow(secs: seq<Sec>, c: Call) {
    c.Set? && !Refused(c) && c.value == "" && CallAt(secs, c) < 0
  }

  // ---------------------------------------------------------------- which call stored a value

  /** For every variable the number of the call that stored its value, or -1 for a parsed one. */
  type Marks = seq<seq<int>>

  predicate Fit(secs: seq<Sec>, marks: Marks) {
    |marks| == |secs| && forall x :: 0 <= x < |secs| ==> |marks[x]| == |secs[x].vars|
  }

  function NoMarks(secs: seq<Sec>): (marks: Marks)
    ensures Fit(secs, marks)
  {
    seq(|secs|, x requires 0 <= x < |secs| => seq(|secs[x].vars|, _ => -1))
  }

  function AddMarks(vars: seq<Var>, marks: seq<int>, key: string, value: string, i: nat): (r: seq<int>)
    requires |marks| == |vars|
    ensures |r| == |AddTo(vars, key, value)|
  {
    if |AddTo(vars, key, value)| > |vars| then marks + [i] else marks
  }

  function SetMarks(vars: seq<Var>, marks: seq<int>, key: string, value: string, i: nat): (r: seq<int>)
    requires |marks| == |vars|
    ensures |r| == |SetIn(vars, key, value)|
  {
    var x := LastOf(vars, Lower(key));
    if key == "" then marks else if x >= 0 then marks[x := i] else marks + [i]
  }

  function UnsetMarks(vars: seq<Var>, marks: seq<int>, key: string): (r: seq<int>)
    requires |marks| == |vars|
    ensures |r| == |UnsetIn(vars, key)|
  {
    var x := LastOf(vars, Lower(key));
    if key == "" || x < 0 then marks else marks[..x] + marks[x + 1..]
  }

  function MarkedIn(vars: seq<Var>, marks: seq<int>, c: Call, i: nat): (r: seq<int>)
    requires |marks| == |vars|
    ensures |r| == |CalledIn(vars, c)|
  {
    match c
    case Add(_, _, key, value) => AddMarks(vars, marks, key, value, i)
    case Set(_, _, key, value) => SetMarks(vars, marks, Lower(key), value, i)
    case Unset(_, _, key) => UnsetMarks(vars, marks, key)
  }

  function Marked(secs: seq<Sec>, marks: Marks, c: Call, i: nat): (r: Marks)
    requires Fit(secs, marks)
    ensures Fit(Called(secs, c), r)
  {
    var x := CallAt(secs, c);
    if Refused(c) then marks
    else if x >= 0 then marks[x := MarkedIn(secs[x].vars, marks[x], c, i)]
    else if c.Unset? then marks
    else marks + [[i]]
  }

  function MarkedAll(secs: seq<Sec>, cs: seq<Call>): (marks: Marks)
    ensures Fit(CalledAll(secs, cs), marks)
  {
    if cs == [] then NoMarks(secs)
    else
      var n := |cs| - 1;
      Marked(CalledAll(secs, cs[..n]), MarkedAll(secs, cs[..n]), cs[n], n)
  }

  /** Call j of the run was a Set of an empty value that made its section. */
  predicate HollowAt(secs: seq<Sec>, cs: seq<Call>, j: int) {
    0 <= j < |cs| && Hollow(CalledAll(secs, cs[..j]), cs[j])
  }

  /** The mark of a variable tells the call that stored it: its section, its key and its value. */
  ghost predicate Told(secs: seq<Sec>, cs: seq<Call>, s: Sec, v: Var, j: int) {
    && VarOk(v) && -1 <= j < |cs|
    && (j == -1 ==> Blank(v) || v.value != "")
    && (j >= 0 ==>
          && !cs[j].Unset? && Named(s, Lower(cs[j].name), cs[j].sub)
          && IsVar(v) && !Blank(v) && v.keyLower == Lower(cs[j].key)
          && v.value == if HollowAt(secs, cs, j) then "" else Norm(cs[j].value))
  }

  ghost predicate SecTold(start: seq<Sec>, cs: seq<Call>, s: Sec, marks: seq<int>) {
    |marks| == |s.vars| && forall y :: 0 <= y < |s.vars| ==> Told(start, cs, s, s.vars[y], marks[y])
  }

  /** One call more in the run. */
  lemma ToldLater(secs: seq<Sec>, cs: seq<Call>, c: Call, s: Sec, v: Var, j: int)
    requires Told(secs, cs, s, v, j)
    ensures Told(secs, cs + [c], s, v, j)
  {
    var ds := cs + [c];
    assert j >= 0 ==> ds[..j] == cs[..j] && ds[j] == cs[j];
  }

  lemma SecToldLater(start: seq<Sec>, cs: seq<Call>, c: Call, s: Sec, marks: seq<int>)
    requires SecTold(start, cs, s, marks)
    ensures SecTold(start, cs + [c], s, marks)
  {
    hide Told;
    forall y | 0 <= y < |s.vars| ensures Told(start, cs + [c], s, s.vars[y], marks[y]) {
      ToldLater(start, cs, c, s, s.vars[y], marks[y]);
    }
  }

  /** A variable that call c, the next one, stores in a section that is there. */
  lemma StoredNow(start: seq<Sec>, cs: seq<Call>, c: Call, s: Sec, v: Var)
    requires !Refused(c) && !c.Unset? && CallAt(CalledAll(start, cs), c) >= 0 && Named(s, Lower(c.name), c.sub)
    requires IsVar(v) && !Blank(v) && v.keyLower == Lower(v.key) == Lower(c.key) && v.value == Norm(c.value)
    ensures Told(start, cs + [c], s, v, |cs|)
  {
    var ds := cs + [c];
    assert ds[..|cs|] == cs && ds[|cs|] == c;
    assert |Lower(c.key)| == |v.key|;
  }

  lemma AddTold(start: seq<Sec>, cs: seq<Call>, c: Call, s: Sec, marks: seq<int>)
    requires c.Add? && !Refused(c) && CallAt(CalledAll(start, cs), c) >= 0 && Named(s, Lower(c.name), c.sub)
    requires SecTold(start, cs + [c], s, marks)
    ensures SecTold(start, cs + [c], s.(vars := AddTo(s.vars, c.key, c.value)), AddMarks(s.vars, marks, c.key, c.value, |cs|))
  {
    hide Told, CalledAll;
    var t := s.(vars := AddTo(s.vars, c.key, c.value));
    SameSection(start, cs + [c], s, t);
    NewVarIs(c.key, Norm(c.value));
    StoredNow(start, cs, c, t, NewVar(c.key, Norm(c.value)));
  }

  lemma NewVarIs(key: string, value: string)
    ensures var v := NewVar(key, value);
      IsVar(v) && !Blank(v) && v.keyLower == Lower(v.key) && v.key == key && v.value == value
  {
  }

  /** What a mark tells does not depend on the other variables. */
  lemma SameSection(start: seq<Sec>, cs: seq<Call>, s: Sec, t: Sec)
    requires t == s.(vars := t.vars)
    ensures forall v, j {:trigger Told(start, cs, t, v, j)} :: Told(start, cs, s, v, j) ==> Told(start, cs, t, v, j)
  {
  }

  lemma SetTold(start: seq<Sec>, cs: seq<Call>, c: Call, s: Sec, marks: seq<int>)
    requires c.Set? && !Refused(c) && CallAt(CalledAll(start, cs), c) >= 0 && Named(s, Lower(c.name), c.sub)
    requires SecTold(start, cs + [c], s, marks)
    ensures var key := Lower(c.key);
      SecTold(start, cs + [c], s.(vars := SetIn(s.vars, key, c.value)), SetMarks(s.vars, marks, key, c.value, |cs|))
  {
    hide Told, CalledAll, LastOf;
    var key := Lower(c.key);
    LowerTwice(c.key);
    var t := s.(vars := SetIn(s.vars, key, c.value));
    SameSection(start, cs + [c], s, t);
    var x := LastOf(s.vars, Lower(key));
    if x >= 0 {
      VarTold(start, cs + [c], s, s.vars[x], marks[x]);
      StoredNow(start, cs, c, t, s.vars[x].(value := Norm(c.value)));
    } else {
      NewVarIs(key, Norm(c.value));
      StoredNow(start, cs, c, t, NewVar(key, Norm(c.value)));
    }
  }

  lemma VarTold(start: seq<Sec>, cs: seq<Call>, s: Sec, v: Var, j: int)
    requires Told(start, cs, s, v, j) && IsVar(v)
    ensures !Blank(v) && v.keyLower == Lower(v.key)
  {
  }

  lemma UnsetTold(start: seq<Sec>, cs: seq<Call>, key: string, s: Sec, marks: seq<int>)
    requires SecTold(start, cs, s, marks)
    ensures SecTold(start, cs, s.(vars := UnsetIn(s.vars, key)), UnsetMarks(s.vars, marks, key))
  {
    hide Told, LastOf;
    SameSection(start, cs, s, s.(vars := UnsetIn(s.vars, key)));
  }

  lemma CalledInTold(start: seq<Sec>, cs: seq<Call>, c: Call, s: Sec, marks: seq<int>)
    requires !Refused(c) && CallAt(CalledAll(start, cs), c) >= 0 && Named(s, Lower(c.name), c.sub)
    requires SecTold(start, cs, s, marks)
    ensures SecTold(start, cs + [c], s.(vars := CalledIn(s.vars, c)), MarkedIn(s.vars, marks, c, |cs|))
  {
    hide SecTold, AddTo, SetIn, UnsetIn, AddMarks, SetMarks, UnsetMarks, CalledAll;
    SecToldLater(start, cs, c, s, marks);
    match c
    case Add(_, _, _, _) => AddTold(start, cs, c, s, marks);
    case Set(_, _, _, _) => SetTold(start, cs, c, s, marks);
    case Unset(_, _, key) => UnsetTold(start, cs + [c], key, s, marks);
  }

  /** A section that the next call makes. */
  lemma NewSecTold(start: seq<Sec>, cs: seq<Call>, c: Call)
    requires !Refused(c) && !c.Unset? && CallAt(CalledAll(start, cs), c) < 0
    ensures SecTold(start, cs + [c], NewSec(Lower(c.name), c.sub, FirstVar(c)), [|cs|])
  {
    var ds := cs + [c];
    assert ds[..|cs|] == cs && ds[|cs|] == c;
    LowerTwice(c.name);
    NewVarIs(c.key, if c.Add? then Norm(c.value) else c.value);
  }

  ghost predicate FileTold(start: seq<Sec>, cs: seq<Call>, secs: seq<Sec>, marks: Marks) {
    |marks| == |secs| && forall x :: 0 <= x < |secs| ==> SecTold(start, cs, secs[x], marks[x])
  }

  lemma CallTold(start: seq<Sec>, cs: seq<Call>, c: Call, marks: Marks)
    requires var secs := CalledAll(start, cs); Fit(secs, marks) && FileTold(start, cs, secs, marks)
    ensures var secs := CalledAll(start, cs);
      FileTold(start, cs + [c], Called(secs, c), Marked(secs, marks, c, |cs|))
  {
    hide SecTold, CalledIn, MarkedIn, CalledAll;
    var secs := CalledAll(start, cs);
    forall x | 0 <= x < |secs| ensures SecTold(start, cs + [c], secs[x], marks[x]) {
      SecToldLater(start, cs, c, secs[x], marks[x]);
    }
    var x := CallAt(secs, c);
    if !Refused(c) {
      LowerTwice(c.name);
      if x >= 0 {
        CalledInTold(start, cs, c, secs[x], marks[x]);
      } else if !c.Unset? {
        NewSecTold(start, cs, c);
      }
    }
  }

  /** A file without empty values, as parsing and pruning make it. */
  ghost predicate NothingEmpty(secs: seq<Sec>) {
    IniOk(secs) && forall s :: s in secs ==> Filled(s.vars)
  }

  lemma StartTold(start: seq<Sec>)
    requires NothingEmpty(start)
    ensures FileTold(start, [], start, NoMarks(start))
  {
    forall x | 0 <= x < |start| ensures SecTold(start, [], start[x], NoMarks(start)[x]) {
      assert start[x] in start;
    }
  }

  /** Over every run of calls the marks tell which call stored which value. */
  lemma {:induction false} RunTold(start: seq<Sec>, cs: seq<Call>)
    requires NothingEmpty(start)
    ensures FileTold(start, cs, CalledAll(start, cs), MarkedAll(start, cs))
    decreases |cs|
  {
    hide FileTold, Called, Marked, NoMarks, NothingEmpty;
    if cs == [] {
      StartTold(start);
    } else {
      var n := |cs| - 1;
      RunTold(start, cs[..n]);
      CallTold(start, cs[..n], cs[n], MarkedAll(start, cs[..n]));
      assert cs[..n] + [cs[n]] == cs;
    }
  }

  // ---------------------------------------------------------------- files stay in order

  predicate HeaderOk(s: Sec) {
    s.nameLower == Lower(s.name) && if s.mode == MODE_EMPTY then s.name == "" else s.name != "" && HasMode(s.mode, MODE_SECTION)
  }

  lemma NewSecHeader(name: string, sub: string, v: Var)
    requires name != ""
    ensures HeaderOk(NewSec(name, sub, v))
  {
  }

  lemma {:induction false} HeadersKept(start: seq<Sec>, cs: seq<Call>)
    requires forall s :: s in start ==> HeaderOk(s)
    ensures forall s :: s in CalledAll(start, cs) ==> HeaderOk(s)
    decreases |cs|
  {
    hide HeaderOk, CalledIn, NewSec;
    if cs != [] {
      var n := |cs| - 1;
      HeadersKept(start, cs[..n]);
      var secs, c := CalledAll(start, cs[..n]), cs[n];
      var x := CallAt(secs, c);
      if !Refused(c) && x >= 0 {
        assert secs[x] in secs;
        SameHeader(secs[x], CalledIn(secs[x].vars, c));
      } else if !Refused(c) && !c.Unset? {
        assert |Lower(c.name)| == |c.name|;
        NewSecHeader(Lower(c.name), c.sub, FirstVar(c));
      }
    }
  }

  lemma SameHeader(s: Sec, vars: seq<Var>)
    ensures HeaderOk(s.(vars := vars)) == HeaderOk(s)
  {
  }

  /** Over every run of calls the file stays in the order that Prune relies on. */
  lemma RunOk(start: seq<Sec>, cs: seq<Call>)
    requires NothingEmpty(start)
    ensures IniOk(CalledAll(start, cs))
  {
    hide CalledAll, MarkedAll;
    var secs := CalledAll(start, cs);
    HeadersKept(start, cs);
    RunTold(start, cs);
    forall s | s in secs ensures SecOk(s) {
      var x :| 0 <= x < |secs| && secs[x] == s;
      forall v | v in s.vars ensures VarOk(v) {
        var y :| 0 <= y < |s.vars| && s.vars[y] == v;
        assert SecTold(start, cs, secs[x], MarkedAll(start, cs)[x]);
        assert Told(start, cs, s, s.vars[y], MarkedAll(start, cs)[x][y]);
      }
    }
  }

  // ---------------------------------------------------------------- which lookups Prune changes

  /** The place of the last variable with the key, or -1. */
  function VarAt(vars: seq<Var>, key: string): (y: int)
    ensures -1 <= y < |vars|
  {
    if vars == [] || key == "" then -1
    else if vars[|vars| - 1].keyLower == Lower(key) then |vars| - 1
    else VarAt(vars[..|vars| - 1], key)
  }

  /** Where Get finds its value: the number of the section and of the variable in it. */
  function Place(secs: seq<Sec>, name: string, sub: string, key: string): (p: Option<(nat, nat)>)
    ensures p.Some? ==> p.value.0 < |secs| && p.value.1 < |secs[p.value.0].vars|
  {
    if secs == [] || name == "" || key == "" then None
    else
      var s := secs[|secs| - 1];
      var y := if Named(s, Lower(name), sub) then VarAt(s.vars, key) else -1;
      if y >= 0 then Some((|secs| - 1, y)) else Place(secs[..|secs| - 1], name, sub, key)
  }

  lemma {:induction false} VarAtFound(vars: seq<Var>, key: string)
    ensures var y := VarAt(vars, key);
      && SecGet(vars, key) == (if y >= 0 then Some(vars[y].value) else None)
      && (y >= 0 ==> key != "" && vars[y].keyLower == Lower(key))
  {
    if vars != [] && key != "" {
      VarAtFound(vars[..|vars| - 1], key);
    }
  }

  /** The place is where the value is that Get gives. */
  lemma {:induction false} PlaceFound(secs: seq<Sec>, name: string, sub: string, key: string)
    ensures var p := Place(secs, name, sub, key);
      && Get(secs, name, sub, key) == (if p.Some? then Some(secs[p.value.0].vars[p.value.1].value) else None)
      && (p.Some? ==>
            && key != "" && Named(secs[p.value.0], Lower(name), sub)
            && secs[p.value.0].vars[p.value.1].keyLower == Lower(key))
  {
    hide SecGet, VarAt;
    if secs != [] && name != "" && key != "" {
      VarAtFound(secs[|secs| - 1].vars, key);
      PlaceFound(secs[..|secs| - 1], name, sub, key);
    }
  }

  /** The call that stored the value that Get finds, or -1 if it was there at the start. */
  ghost function StoredBy(start: seq<Sec>, cs: seq<Call>, p: (nat, nat)): int
    requires p.0 < |CalledAll(start, cs)| && p.1 < |CalledAll(start, cs)[p.0].vars|
  {
    MarkedAll(start, cs)[p.0][p.1]
  }

  lemma ToldAt(start: seq<Sec>, cs: seq<Call>, p: (nat, nat))
    requires NothingEmpty(start) && p.0 < |CalledAll(start, cs)| && p.1 < |CalledAll(start, cs)[p.0].vars|
    ensures var s := CalledAll(start, cs)[p.0]; Told(start, cs, s, s.vars[p.1], StoredBy(start, cs, p))
  {
    hide NothingEmpty, Told, CalledAll, MarkedAll;
    RunTold(start, cs);
    assert SecTold(start, cs, CalledAll(start, cs)[p.0], MarkedAll(start, cs)[p.0]);
  }

  /** The value that Get finds is that of the call that stored it, for the same section and key. */
  lemma FoundIsStored(start: seq<Sec>, cs: seq<Call>, name: string, sub: string, key: string)
    requires NothingEmpty(start)
    ensures var secs := CalledAll(start, cs);
      var p := Place(secs, name, sub, key);
      p.Some? ==>
        var j := StoredBy(start, cs, p.value);
        && -1 <= j < |cs|
        && (j >= 0 ==>
              && !cs[j].Unset? && Lower(cs[j].name) == Lower(name) && cs[j].sub == sub && Lower(cs[j].key) == Lower(key)
              && Get(secs, name, sub, key) == Some(if HollowAt(start, cs, j) then "" else Norm(cs[j].value)))
  {
    hide NothingEmpty, CalledAll, MarkedAll, Place, Get;
    var secs := CalledAll(start, cs);
    PlaceFound(secs, name, sub, key);
    var p := Place(secs, name, sub, key);
    if p.Some? {
      ToldAt(start, cs, p.value);
    }
  }

  /**
   After a run of Add, Set and Unset on a parsed file, Prune keeps a lookup if and only if the value it finds was not
   stored by a Set of an empty value that made its section.
   */
  lemma PruneAfterCalls(start: seq<Sec>, cs: seq<Call>, name: string, sub: string, key: string)
    requires NothingEmpty(start)
    ensures var secs := CalledAll(start, cs);
      var p := Place(secs, name, sub, key);
      (Get(Prune(secs), name, sub, key) == Get(secs, name, sub, key)) <==>
        !(p.Some? && HollowAt(start, cs, StoredBy(start, cs, p.value)))
  {
    hide NothingEmpty, CalledAll, MarkedAll, Place, Get, Prune, HollowAt;
    var secs := CalledAll(start, cs);
    RunOk(start, cs);
    PruneGet(secs, name, sub, key);
    PlaceFound(secs, name, sub, key);
    var p := Place(secs, name, sub, key);
    if p.Some? {
      ToldAt(start, cs, p.value);
      EmptyIsHollow(start, cs, secs[p.value.0], secs[p.value.0].vars[p.value.1], StoredBy(start, cs, p.value), key);
    }
  }

  lemma EmptyIsHollow(start: seq<Sec>, cs: seq<Call>, s: Sec, v: Var, j: int, key: string)
    requires Told(start, cs, s, v, j) && key != "" && v.keyLower == Lower(key)
    ensures v.value == "" <==> HollowAt(start, cs, j)
  {
    assert |v.keyLower| == |key|;
  }

  /** So without such a call every lookup is kept. */
  lemma PruneKeepsLookups(start: seq<Sec>, cs: seq<Call>, name: string, sub: string, key: string)
    requires NothingEmpty(start) && forall j :: 0 <= j < |cs| ==> !HollowAt(start, cs, j)
    ensures var secs := CalledAll(start, cs); Get(Prune(secs), name, sub, key) == Get(secs, name, sub, key)
  {
    hide NothingEmpty, CalledAll, MarkedAll, Place, Get, Prune, HollowAt;
    PruneAfterCalls(start, cs, name, sub, key);
    FoundIsStored(start, cs, name, sub, key);
    assert !HollowAt(start, cs, -1) by {
      NoCall(start, cs);
    }
  }

  lemma NoCall(start: seq<Sec>, cs: seq<Call>)
    ensures !HollowAt(start, cs, -1)
  {
  }

  /** And after such a call the lookup gives the empty value, which Prune turns into "true". */
  lemma HollowChanges(secs: seq<Sec>, c: Call)
    requires IniOk(secs) && Hollow(secs, c)
    ensures var r := Called(secs, c);
      Get(r, c.name, c.sub, c.key) == Some("") && Get(Prune(r), c.name, c.sub, c.key) == Some(TRUE)
  {
    hide Prune, IniOk, SectionAt;
    var s := NewSec(Lower(c.name), c.sub, FirstVar(c));
    var r := Called(secs, c);
    LowerTwice(c.name);
    assert r == secs + [s] && r[|r| - 1] == s;
    assert |Lower(c.name)| == |c.name|;
    NewSecHeader(Lower(c.name), c.sub, FirstVar(c));
    AppendedOk(secs, s);
    PruneGet(r, c.name, c.sub, c.key);
  }

  lemma AppendedOk(secs: seq<Sec>, s: Sec)
    requires IniOk(secs) && HeaderOk(s) && forall v :: v in s.vars ==> VarOk(v)
    ensures IniOk(secs + [s])
  {
  }

  /** On an empty file: Get finds the empty value that Set stored, and after Prune it finds "true". */
  lemma EmptySetChanges()
    ensures var secs := CalledAll([], [Set("s", "", "k", "")]);
      Get(secs, "s", "", "k") == Some("") && Get(Prune(secs), "s", "", "k") == Some("true")
  {
    hide Prune, Get;
    var cs := [Set("s", "", "k", "")];
    assert cs[..0] == [];
    assert CalledAll([], []) == [];
    HollowChanges([], cs[0]);
  }

  // ---------------------------------------------------------------- where runs can begin

  lemma {:induction false} ParsedStarts(ps: seq<Source>)
    requires forall p :: p in ps ==> SourceOk(p)
    ensures NothingEmpty(Parsed(ps))
  {
    if ps != [] {
      assert ps[0] in ps && forall p :: p in ps[1..] ==> p in ps;
      ParsedStarts(ps[1..]);
      SourceStarts(ps[0]);
    }
  }

  lemma SourceStarts(p: Source)
    requires SourceOk(p)
    ensures (p.mode == MODE_EMPTY || p.name != "") ==> HeaderOk(Sec(p.mode, p.name, Lower(p.name), p.sub, StoredAll(p.lines)))
    ensures Filled(StoredAll(p.lines)) && forall v :: v in StoredAll(p.lines) ==> VarOk(v)
  {
    forall v | v in StoredAll(p.lines) ensures VarOk(v) && (Blank(v) || v.value != "") {
      var i :| 0 <= i < |p.lines| && v == Stored(p.lines[i]);
      assert p.lines[i] in p.lines;
      StoredOk(p.lines[i]);
    }
  }

  /** A pruned file has no empty values, so it is as good as a parsed one. */
  lemma PrunedStarts(secs: seq<Sec>)
    requires IniOk(secs)
    ensures NothingEmpty(Prune(secs))
  {
    hide SecOk, PruneFrom, CleanIni;
    PruneTwice(secs);
    PruneFromOk([], secs);
    CleanIsFilled(Prune(secs));
  }

  lemma CleanIsFilled(secs: seq<Sec>)
    requires CleanIni(secs)
    ensures forall s :: s in secs ==> Filled(s.vars)
  {
  }

  lemma {:induction false} MergedFilled(vars: seq<Var>, more: seq<Var>)
    requires Filled(vars) && Filled(more)
    ensures Filled(MergeVars(vars, more))
    decreases |more|
  {
    hide PlaceOf;
    if more != [] {
      assert more[0] in more && forall v :: v in more[1..] ==> v in more;
      var now := if Blank(more[0]) then vars else AddUniq(vars, more[0].keyLower, more[0].value);
      assert Filled(now) by {
        var x := PlaceOf(vars, Lower(more[0].keyLower), more[0].value);
        assert x < |vars| ==> vars[x] in vars;
      }
      MergedFilled(now, more[1..]);
    }
  }

  /** So is a file that was rebased on one without empty values. */
  lemma {:induction false} RebasedStarts(secs: seq<Sec>, other: seq<Sec>)
    requires NothingEmpty(secs) && NothingEmpty(other)
    ensures NothingEmpty(Rebase(secs, other))
    decreases |other|
  {
    hide SecOk, Filled, MergeVars;
    if other != [] {
      var s := other[0];
      assert s in other && forall t :: t in other[1..] ==> t in other;
      MergeOk(secs, s);
      var x := FindSec(secs, s.nameLower, s.sub);
      if x < |secs| {
        assert secs[x] in secs;
        MergedFilled(secs[x].vars, s.vars);
      }
      RebasedStarts(MergeSection(secs, s), other[1..]);
    }
  }
}
