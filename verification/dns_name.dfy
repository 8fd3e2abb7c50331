/**
 The wire form of domain names with compression (RFC 1035, section 4.1.4):
 what Message.packDomainName writes and what ResourceRecord.unpackDomainName reads.
 */
module DnsName {
  import opened Bytes

  const DOT: byte := 46
  const BACKSLASH: byte := 92
  const MAX_LABEL_SIZE := 63
  const MASK_POINTER := 0xC0
  /** Offsets have 14 bits in a pointer. */
  const POINTER_LIMIT := 0x4000

  datatype Error =
    | LabelSizeLimit
    | MissingQuestion
    | InvalidQuestion
    | IPv4Length

  /**
   What a reader does with a packet. `Undefined` stands for what has no result in the source: an index
   outside the packet, a chain of compression pointers that never ends, or a record type that is not modelled.
   */
  datatype Outcome<+T> = Ok(value: T) | Err(error: Error) | Undefined

  /** Offsets at which a name, or a suffix of one, was already written. */
  type Table = map<bytes, u16>

  /** Index of the first dot, or the length of the name if there is none. */
  function Dot(name: bytes): (i: nat)
    ensures i <= |name|
    ensures i < |name| ==> name[i] == DOT
    ensures forall j :: 0 <= j < i ==> name[j] != DOT
  {
    DotFrom(name, 0)
  }

  function DotFrom(name: bytes, j: nat): (i: nat)
    requires j <= |name|
    ensures j <= i <= |name|
    ensures i < |name| ==> name[i] == DOT
    ensures forall m :: j <= m < i ==> name[m] != DOT
    decreases |name| - j
  {
    if j == |name| || name[j] == DOT then j else DotFrom(name, j + 1)
  }

  /** A non-empty list of labels of 1 to 63 bytes without escapes, joined by dots, with no dot at the end. */
  predicate ValidName(name: bytes)
    decreases |name|
  {
    var i := Dot(name);
    && 1 <= i <= MAX_LABEL_SIZE
    && BACKSLASH !in name[..i]
    && (i < |name| ==> ValidName(name[i + 1..]))
  }

  /** The two bytes of a pointer: the mask 0xC0 is or-ed into the high byte. */
  function Pointer(off: u16): (r: bytes)
    ensures |r| == 2
  {
    [MASK_POINTER + off / 0x100 % 0x40, off % 0x100]
  }

  predicate IsPointer(b: byte) {
    b >= MASK_POINTER
  }

  function Target(hi: byte, lo: byte): (t: nat)
    ensures t < POINTER_LIMIT
  {
    hi as int % 0x40 * 0x100 + lo
  }

  /** The bytes written for a name at offset `off`, and the table with the suffixes seen on the way. */
  function EncodeName(t: Table, off: nat, name: bytes, compress: bool): (bytes, Table)
    decreases |name|
  {
    if compress && name in t then
      (Pointer(t[name]), t)
    else
      var i := Dot(name);
      var t1 := t[name := off % 0x1_0000];
      var part := [i % 0x100] + name[..i];
      if i == |name| then
        (part + [0], t1)
      else
        var r := EncodeName(t1, off + 1 + i, name[i + 1..], compress);
        (part + r.0, r.1)
  }

  /** Every pointer written for the name is to an offset that its 14 bits can hold. */
  predicate Short(t: Table, off: nat, name: bytes, compress: bool)
    decreases |name|
  {
    if compress && name in t then t[name] < POINTER_LIMIT
    else
      var i := Dot(name);
      i < |name| ==> Short(t[name := off % 0x1_0000], off + 1 + i, name[i + 1..], compress)
  }

  lemma {:induction false} ShortUncompressed(t: Table, off: nat, name: bytes)
    ensures Short(t, off, name, false)
    decreases |name|
  {
    var i := Dot(name);
    if i < |name| {
      ShortUncompressed(t[name := off % 0x1_0000], off + 1 + i, name[i + 1..]);
    }
  }

  /** Pointers into the packet can be followed: it has no offsets that are too long, or none of them is pointed at. */
  predicate Reach(p: bytes, short: bool) {
    |p| <= POINTER_LIMIT || (|p| <= 0x1_0000 && short)
  }

  /** Name read so far, offset of the second byte of the first pointer (0 if none), and the lower-cased packet. */
  datatype NameRead = NameRead(out: bytes, off: nat, packet: bytes)

  function AppendLabel(out: bytes, part: bytes): bytes {
    (if out == [] then [] else out + [DOT]) + part
  }

  /** One call of the reader: it finishes, or calls itself with new arguments. */
  datatype Step = Done(result: Outcome<NameRead>) | More(p: bytes, x: nat, out: bytes, off: nat)

  function ReadStep(p: bytes, x: nat, out: bytes, off: nat): (r: Step)
    ensures r.More? ==> |r.p| == |p|
    ensures r.Done? && r.result.Ok? ==> |r.result.value.packet| == |p|
  {
    if x >= |p| then Done(Err(LabelSizeLimit))
    else if p[x] == 0 then Done(Ok(NameRead(out, off, p)))
    else if IsPointer(p[x]) then
      if x + 1 >= |p| then Done(Undefined)
      else More(p, Target(p[x], p[x + 1]), out, if off == 0 then x + 1 else off)
    else if p[x] > MAX_LABEL_SIZE then Done(Err(LabelSizeLimit))
    else if x + 1 + p[x] as int > |p| then Done(Undefined)
    else
      var end := x + 1 + p[x] as int;
      var part := Lower(p[x + 1..end]);
      More(Overwrite(p, x + 1, part), end, AppendLabel(out, part), off)
  }

  /**
   Reads the name at x. Labels are lower-cased in the packet itself. `depth` bounds the calls: a chain longer than
   the packet visits an offset twice.
   */
  function ReadName(p: bytes, x: nat, out: bytes, off: nat, depth: nat): (r: Outcome<NameRead>)
    ensures r.Ok? ==> |r.value.packet| == |p|
    decreases depth
  {
    if depth == 0 then Undefined
    else
      match ReadStep(p, x, out, off)
      case Done(result) => result
      case More(p', x', out', off') => ReadName(p', x', out', off', depth - 1)
  }

  predicate LabelAt(p: bytes, x: nat, hi: nat, part: bytes) {
    && 1 <= |part| <= MAX_LABEL_SIZE
    && x + 1 + |part| < hi <= |p|
    && p[x] == |part|
    && p[x + 1..x + 1 + |part|] == part
  }

  /**
   `name` is written at x, its own bytes end by `hi`, and any pointer in it leads strictly before `lo`, to a place
   where the rest of the name is written under the same rule.
   */
  ghost predicate Segment(p: bytes, lo: nat, x: nat, hi: nat, name: bytes)
    decreases |name|, x
  {
    && lo <= x && x + 2 <= hi <= |p|
    && if IsPointer(p[x]) then
         var t := Target(p[x], p[x + 1]);
         t < lo && Segment(p, t, t, lo, name)
       else
         var i := Dot(name);
         && LabelAt(p, x, hi, name[..i])
         && if i == |name| then p[x + 1 + i] == 0 else Segment(p, lo, x + 1 + i, hi, name[i + 1..])
  }

  /** Offset of the second pointer byte in the segment at x, 0 if it has no pointer. */
  ghost function PointerOff(p: bytes, x: nat, name: bytes): nat
    decreases |name|
  {
    if x < |p| && IsPointer(p[x]) then x + 1
    else
      var i := Dot(name);
      if i == |name| then 0 else PointerOff(p, x + 1 + i, name[i + 1..])
  }

  /** Where the bytes of the name at x end, computed the way ResourceRecord.unpack does. */
  function NameEnd(x: nat, off: nat, nameLen: nat): nat {
    if off > 0 then off + 1 else if nameLen == 0 then x + 1 else x + nameLen + 2
  }

  lemma {:induction false} SegmentWiden(p: bytes, lo: nat, lo': nat, x: nat, hi: nat, hi': nat, name: bytes)
    requires Segment(p, lo, x, hi, name)
    requires lo <= lo' <= x && hi <= hi' <= |p|
    ensures Segment(p, lo', x, hi', name)
    decreases |name|, x
  {
    if IsPointer(p[x]) {
      var t := Target(p[x], p[x + 1]);
      SegmentWiden(p, t, t, t, lo, lo', name);
    } else {
      var i := Dot(name);
      if i < |name| {
        SegmentWiden(p, lo, lo', x + 1 + i, hi, hi', name[i + 1..]);
      }
    }
  }

  /** A segment is read back as its name, in at most `hi - x + lo` calls, and leaves a lower-case packet alone. */
  lemma {:induction false} ReadSegment(p: bytes, lo: nat, x: nat, hi: nat, name: bytes, out: bytes, off: nat, depth: nat)
    requires Segment(p, lo, x, hi, name)
    requires Lower(name) == name
    requires depth >= hi - x + lo
    ensures ReadName(p, x, out, off, depth)
         == Ok(NameRead(AppendLabel(out, name), if off == 0 then PointerOff(p, x, name) else off, p))
    decreases |name|, x
  {
    hide ReadStep, Target, AppendLabel, Dot, Lower;
    var i := Dot(name);
    if IsPointer(p[x]) {
      var t := Target(p[x], p[x + 1]);
      ReadPointer(p, x, out, off);
      ReadSegment(p, t, t, lo, name, out, if off == 0 then x + 1 else off, depth - 1);
    } else if i < |name| {
      LowerSplit(name, i);
      ReadLabel(p, x, hi, name[..i], out, off);
      LowerSplit(name, i + 1);
      JoinLabels(out, name, i);
      ReadSegment(p, lo, x + 1 + i, hi, name[i + 1..], AppendLabel(out, name[..i]), off, depth - 1);
    } else {
      assert name[..i] == name;
      ReadLabel(p, x, hi, name, out, off);
      ReadEnd(p, x + 1 + i, AppendLabel(out, name), off, depth - 1);
    }
  }

  lemma JoinLabels(out: bytes, name: bytes, i: nat)
    requires 0 < i < |name| && name[i] == DOT
    ensures AppendLabel(AppendLabel(out, name[..i]), name[i + 1..]) == AppendLabel(out, name)
  {
  }

  lemma ReadPointer(p: bytes, x: nat, out: bytes, off: nat)
    requires x + 1 < |p| && IsPointer(p[x])
    ensures ReadStep(p, x, out, off) == More(p, Target(p[x], p[x + 1]), out, if off == 0 then x + 1 else off)
  {
  }

  lemma {:induction false} ReadEnd(p: bytes, x: nat, out: bytes, off: nat, depth: nat)
    requires x < |p| && p[x] == 0 && depth > 0
    ensures ReadName(p, x, out, off, depth) == Ok(NameRead(out, off, p))
  {
  }

  lemma {:induction false} ReadLabel(p: bytes, x: nat, hi: nat, part: bytes, out: bytes, off: nat)
    requires LabelAt(p, x, hi, part) && Lower(part) == part
    ensures ReadStep(p, x, out, off) == More(p, x + 1 + |part|, AppendLabel(out, part), off)
  {
    OverwriteSame(p, x + 1, part);
  }

  /** `name` is written at x and takes exactly the bytes before `end`; its pointers lead before `s`. */
  ghost predicate NameAt(p: bytes, s: nat, x: nat, end: nat, name: bytes) {
    Segment(p, s, x, end, name) && NameEnd(x, PointerOff(p, x, name), |name|) == end
  }

  /** The invariant of the suffix table: an entry no longer than `maxLen` is written at its offset, before `hi`. */
  ghost predicate TableOk(p: bytes, hi: nat, t: Table, maxLen: nat) {
    forall k :: k in t && |k| <= maxLen ==> t[k] < hi && Segment(p, t[k], t[k], hi, k)
  }

  ghost predicate SameAbove(t: Table, t': Table, len: nat) {
    forall k :: k in t' && |k| > len ==> k in t && t'[k] == t[k]
  }

  lemma EntryOk(p: bytes, hi: nat, t: Table, name: bytes)
    requires name in t && TableOk(p, hi, t, |name|)
    ensures t[name] < hi && Segment(p, t[name], t[name], hi, name)
  {
  }

  lemma {:induction false} TableWiden(p: bytes, hi: nat, hi': nat, t: Table, maxLen: nat)
    requires TableOk(p, hi, t, maxLen)
    requires hi <= hi' <= |p|
    ensures TableOk(p, hi', t, maxLen)
  {
    forall k | k in t && |k| <= maxLen ensures Segment(p, t[k], t[k], hi', k) {
      SegmentWiden(p, t[k], t[k], t[k], hi, hi', k);
    }
  }

  lemma TableShorter(p: bytes, hi: nat, t: Table, maxLen: nat, name: bytes, x: u16, m: nat)
    requires TableOk(p, hi, t, maxLen) && m < |name| <= maxLen
    ensures TableOk(p, hi, t[name := x], m)
  {
    hide Segment;
  }

  /** What a reader makes of a pointer: the two high bits of the offset are gone, so it is right exactly without them. */
  lemma PointerExact(off: u16)
    ensures IsPointer(Pointer(off)[0]) && Target(Pointer(off)[0], Pointer(off)[1]) == off % POINTER_LIMIT
    ensures Target(Pointer(off)[0], Pointer(off)[1]) == off <==> off < POINTER_LIMIT
  {
    var h: nat, l: nat := off / 0x100, off % 0x100;
    assert off == h * 0x100 + l;
    assert h == h / 0x40 * 0x40 + h % 0x40;
    assert off == h / 0x40 * POINTER_LIMIT + (h % 0x40 * 0x100 + l);
    Remainder(off, h / 0x40, h % 0x40 * 0x100 + l);
  }

  lemma Remainder(off: nat, q: nat, r: nat)
    requires off == q * POINTER_LIMIT + r && r < POINTER_LIMIT
    ensures off % POINTER_LIMIT == r
  {
  }

  lemma PointerTarget(p: bytes, x: nat, off: u16)
    requires off < POINTER_LIMIT
    requires x + 2 <= |p| && p[x..x + 2] == Pointer(off)
    ensures IsPointer(p[x]) && Target(p[x], p[x + 1]) == off
  {
    hide Pointer;
    PointerExact(off);
    SubSlice(p, x, Pointer(off), 0, 2);
    assert p[x] == p[x..x + 2][0] && p[x + 1] == p[x..x + 2][1];
  }

  /** The bytes of a name found in the table. */
  lemma {:induction false} PointerCorrect(p: bytes, s: nat, x: nat, name: bytes, off: u16)
    requires off < s <= x && Segment(p, off, off, s, name) && off < POINTER_LIMIT
    requires x + 2 <= |p| && p[x..x + 2] == Pointer(off)
    ensures NameAt(p, s, x, x + 2, name)
  {
    hide Dot, Target, Pointer;
    PointerTarget(p, x, off);
  }

  /** The bytes of a last label. */
  lemma {:induction false} LastLabelCorrect(p: bytes, s: nat, x: nat, name: bytes)
    requires ValidName(name) && Dot(name) == |name| && s <= x
    requires x + |name| + 2 <= |p| && p[x..x + |name| + 2] == [|name|] + name + [0]
    ensures NameAt(p, s, x, x + |name| + 2, name)
  {
    hide Dot;
    var e: bytes := [|name|] + name + [0];
    SubSlice(p, x, e, 0, 1);
    SubSlice(p, x, e, 1, 1 + |name|);
    SubSlice(p, x, e, 1 + |name|, |e|);
    assert name[..|name|] == name;
    assert LabelAt(p, x, x + |e|, name);
  }

  /** The bytes of a label followed by the rest of the name. */
  lemma {:induction false} LabelCorrect(p: bytes, s: nat, x: nat, end: nat, name: bytes)
    requires ValidName(name) && s <= x
    requires var i := Dot(name);
      && i < |name|
      && x + 1 + i <= |p| && p[x..x + 1 + i] == [i] + name[..i]
      && NameAt(p, s, x + 1 + i, end, name[i + 1..])
    ensures NameAt(p, s, x, end, name)
  {
    hide Dot;
    var i := Dot(name);
    SubSlice(p, x, [i] + name[..i], 0, 1);
    SubSlice(p, x, [i] + name[..i], 1, 1 + i);
    assert LabelAt(p, x, end, name[..i]);
  }

  /**
   What EncodeName writes at x, as part of a name that began at s, is that name in the finished packet; the table it
   returns is again correct, and entries longer than the name are untouched.
   */
  lemma {:induction false} EncodeNameCorrect(p: bytes, t: Table, s: nat, x: nat, name: bytes, compress: bool)
    requires ValidName(name)
    requires Reach(p, Short(t, x, name, compress))
    requires s <= x && TableOk(p, s, t, |name|)
    requires var e := EncodeName(t, x, name, compress).0; x + |e| <= |p| && p[x..x + |e|] == e
    ensures var (e, t') := EncodeName(t, x, name, compress);
      && NameAt(p, s, x, x + |e|, name)
      && TableOk(p, x + |e|, t', |name|)
      && SameAbove(t, t', |name|)
    decreases |name|
  {
    hide Dot, TableOk, NameAt, Pointer, EncodeName, SameAbove, Segment, Short;
    EncodeNameCases(t, x, name, compress);
    ShortCases(t, x, name, compress);
    if compress && name in t {
      KnownNameCorrect(p, t, s, x, name);
    } else if Dot(name) < |name| {
      EncodeLabel(p, t, s, x, name, compress);
    } else {
      LastLabelCorrect(p, s, x, name);
      LastEntry(p, t, s, x, name, x + |name| + 2);
    }
  }

  lemma ShortCases(t: Table, x: nat, name: bytes, compress: bool)
    ensures compress && name in t ==> Short(t, x, name, compress) == (t[name] < POINTER_LIMIT)
    ensures !(compress && name in t) && Dot(name) < |name| ==>
      Short(t, x, name, compress) == Short(t[name := x % 0x1_0000], x + 1 + Dot(name), name[Dot(name) + 1..], compress)
  {
    hide Dot;
  }

  /** A name that is in the table. */
  lemma KnownNameCorrect(p: bytes, t: Table, s: nat, x: nat, name: bytes)
    requires name in t && Reach(p, t[name] < POINTER_LIMIT) && s <= x && TableOk(p, s, t, |name|)
    requires x + 2 <= |p| && p[x..x + 2] == Pointer(t[name])
    ensures NameAt(p, s, x, x + 2, name) && TableOk(p, x + 2, t, |name|) && SameAbove(t, t, |name|)
  {
    hide Dot, TableOk, NameAt, Pointer, SameAbove, Segment;
    EntryOk(p, s, t, name);
    PointerCorrect(p, s, x, name, t[name]);
    TableWiden(p, s, x + 2, t, |name|);
    SameAboveSelf(t, |name|);
  }

  /** A name of one label, written from x to end. */
  lemma LastEntry(p: bytes, t: Table, s: nat, x: u16, name: bytes, end: nat)
    requires name != [] && s <= x < end <= |p| && NameAt(p, s, x, end, name) && TableOk(p, s, t, |name|)
    ensures TableOk(p, end, t[name := x], |name|) && SameAbove(t, t[name := x], |name|)
  {
    hide TableOk, NameAt, SameAbove, Segment;
    SameAboveSelf(t[name := x], 0);
    TableShorter(p, s, t, |name|, name, x, 0);
    TableWiden(p, s, end, t[name := x], 0);
    EntriesCorrect(p, t, t[name := x], s, x, name, end, 0);
  }

  /** A label with more behind it. */
  lemma {:induction false} EncodeLabel(p: bytes, t: Table, s: nat, x: nat, name: bytes, compress: bool)
    requires ValidName(name) && Dot(name) < |name| && s <= x && TableOk(p, s, t, |name|)
    requires Reach(p, Short(t[name := x % 0x1_0000], x + 1 + Dot(name), name[Dot(name) + 1..], compress))
    requires var i := Dot(name);
      var e := [i] + name[..i] + EncodeName(t[name := x % 0x1_0000], x + 1 + i, name[i + 1..], compress).0;
      x + |e| <= |p| && p[x..x + |e|] == e
    ensures var i := Dot(name);
      var (r, t') := EncodeName(t[name := x % 0x1_0000], x + 1 + i, name[i + 1..], compress);
      var end := x + |[i] + name[..i] + r|;
      NameAt(p, s, x, end, name) && TableOk(p, end, t', |name|) && SameAbove(t, t', |name|)
    decreases |name|, 1
  {
    hide Dot, TableOk, NameAt, EncodeName, SameAbove, Segment, Short;
    var i := Dot(name);
    var r := EncodeName(t[name := x % 0x1_0000], x + 1 + i, name[i + 1..], compress).0;
    SplitSlice(p, x, [i] + name[..i], r, [i] + name[..i] + r);
    EncodeRest(p, t, t[name := x], s, x, name, i, name[i + 1..], compress);
  }

  lemma SameAboveSelf(t: Table, len: nat)
    ensures SameAbove(t, t, len)
  {
  }

  lemma {:induction false} EncodeNameCases(t: Table, x: nat, name: bytes, compress: bool)
    requires ValidName(name)
    ensures compress && name in t ==> EncodeName(t, x, name, compress) == (Pointer(t[name]), t)
    ensures !(compress && name in t) ==>
      var i := Dot(name);
      var t1 := t[name := x % 0x1_0000];
      if i < |name| then
        var r := EncodeName(t1, x + 1 + i, name[i + 1..], compress);
        EncodeName(t, x, name, compress) == ([i] + name[..i] + r.0, r.1)
      else
        EncodeName(t, x, name, compress) == ([|name|] + name + [0], t1)
  {
    hide Dot, Pointer;
    var i := Dot(name);
    if i == |name| {
      assert name[..i] == name;
    }
  }

  lemma SplitSlice(p: bytes, x: nat, a: bytes, b: bytes, ab: bytes)
    requires ab == a + b && x + |ab| <= |p| && p[x..x + |ab|] == ab
    ensures p[x..x + |a|] == a && p[x + |a|..x + |a| + |b|] == b
  {
    SubSlice(p, x, ab, 0, |a|);
    SubSlice(p, x, ab, |a|, |ab|);
    SplitAt(a, b, ab);
  }

  lemma SplitAt(a: bytes, b: bytes, ab: bytes)
    requires ab == a + b
    ensures ab[..|a|] == a && ab[|a|..] == b
  {
  }

  /** The recursive step of EncodeNameCorrect. */
  lemma {:induction false} EncodeRest(p: bytes, t: Table, t1: Table, s: nat, x: u16, name: bytes, i: byte, rest: bytes,
                                      compress: bool)
    requires ValidName(name) && i as int == Dot(name) < |name| && rest == name[i + 1..] && t1 == t[name := x]
    requires s <= x && TableOk(p, s, t, |name|) && Reach(p, Short(t1, x + 1 + i, rest, compress))
    requires x + 1 + i <= |p| && p[x..x + 1 + i] == [i] + name[..i]
    requires var r := EncodeName(t1, x + 1 + i, rest, compress).0;
      x + 1 + i + |r| <= |p| && p[x + 1 + i..x + 1 + i + |r|] == r
    ensures var (r, t') := EncodeName(t1, x + 1 + i, rest, compress);
      var end := x + 1 + i + |r|;
      NameAt(p, s, x, end, name) && TableOk(p, end, t', |name|) && SameAbove(t, t', |name|)
    decreases |name|, 0
  {
    hide Dot, TableOk, NameAt, EncodeName, Short;
    TableShorter(p, s, t, |name|, name, x, |rest|);
    EncodeNameCorrect(p, t1, s, x + 1 + i, rest, compress);
    var (r, t') := EncodeName(t1, x + 1 + i, rest, compress);
    LabelCorrect(p, s, x, x + 1 + i + |r|, name);
    EntriesCorrect(p, t, t', s, x, name, x + 1 + i + |r|, |rest|);
  }

  /** The table step: `name` has its entry now, entries up to `len` are correct, those above are the old ones. */
  lemma {:induction false} EntriesCorrect(p: bytes, t: Table, t': Table, s: nat, x: u16, name: bytes, end: nat, len: nat)
    requires s <= x < end <= |p| && NameAt(p, s, x, end, name)
    requires TableOk(p, s, t, |name|)
    requires len < |name| && TableOk(p, end, t', len) && SameAbove(t[name := x], t', len)
    ensures TableOk(p, end, t', |name|) && SameAbove(t, t', |name|)
  {
    hide Segment;
    SegmentWiden(p, s, x, x, end, end, name);
    TableWiden(p, s, end, t, |name|);
  }

  lemma LowerDot(name: bytes)
    ensures Dot(Lower(name)) == Dot(name)
  {
    var i, j := Dot(name), Dot(Lower(name));
    assert forall k :: 0 <= k < i ==> Lower(name)[k] != DOT;
    assert forall k :: 0 <= k < |name| ==> (Lower(name)[k] == DOT <==> name[k] == DOT);
  }

  /** Lower-casing keeps the shape of a name. */
  lemma {:induction false} LowerValid(name: bytes)
    requires ValidName(name)
    ensures ValidName(Lower(name))
    decreases |name|
  {
    var i := Dot(name);
    LowerDot(name);
    LowerSplit(name, i);
    assert BACKSLASH !in Lower(name)[..i] by {
      assert forall j :: 0 <= j < i ==> LowerByte(name[..i][j]) == BACKSLASH ==> name[..i][j] == BACKSLASH;
    }
    if i < |name| {
      LowerSplit(name, i + 1);
      LowerValid(name[i + 1..]);
    }
  }
}
