/**
 Message (lib/dns/message.go) as an object: packing appends to the packet while advancing `off` and filling the table
 of suffixes, byte by byte; SubTTL overwrites the packed times to live in place.
 */
module DnsPack {
  import opened Bytes
  import opened DnsName
  import opened DnsRecord
  import opened DnsWire

  /** strconv.Atoi of three characters, as a byte: 0 when one of them is not a digit. */
  function DecimalByte(s: bytes): byte
    requires |s| == 3
  {
    if forall i :: 0 <= i < 3 ==> 48 <= s[i] <= 57
    then ((s[0] as int - 48) * 100 + (s[1] as int - 48) * 10 + (s[2] as int - 48)) % 0x100
    else 0
  }

  /**
   Where packDomainName is inside a valid name: the labels before `start` are written as `done`, with table `t`, and
   the label at `start` is being copied.
   */
  ghost predicate Midway(base: bytes, t0: Table, compress: bool, name: bytes, start: nat, x: nat, done: bytes, t: Table) {
    && start <= x <= |name|
    && ValidName(name[start..])
    && x <= start + Dot(name[start..])
    && !(compress && name[start..] in t)
    && var rest := EncodeName(t, |base| + |done|, name[start..], compress);
       EncodeName(t0, |base|, name, compress) == (done + rest.0, rest.1)
  }

  lemma {:induction false} MidwayStart(base: bytes, t0: Table, compress: bool, name: bytes)
    requires ValidName(name) && !(compress && name in t0)
    ensures Midway(base, t0, compress, name, 0, 0, [], t0)
  {
    hide EncodeName, Dot;
    assert name[0..] == name;
    var rest := EncodeName(t0, |base|, name, compress);
    assert [] + rest.0 == rest.0;
  }

  /** At a dot, the label is complete and what follows is a valid name to be packed next. */
  lemma {:induction false} MidwayDot(base: bytes, t0: Table, compress: bool, name: bytes, start: nat, x: nat, done: bytes, t: Table)
    requires Midway(base, t0, compress, name, start, x, done, t)
    requires x < |name| && name[x] == DOT
    ensures var i := x - start;
      var done' := done + ([i] + name[start..x]);
      var t' := t[name[start..] := (|base| + |done|) % 0x1_0000];
      && 1 <= i <= MAX_LABEL_SIZE
      && ValidName(name[x + 1..])
      && var rest := EncodeName(t', |base| + |done'|, name[x + 1..], compress);
         EncodeName(t0, |base|, name, compress) == (done' + rest.0, rest.1)
  {
    hide EncodeName, Dot, MAX_LABEL_SIZE;
    var s := name[start..];
    var i := Dot(s);
    assert x == start + i by {
      assert s[x - start] == DOT;
    }
    assert s[..i] == name[start..x] && s[i + 1..] == name[x + 1..];
    EncodeNameCases(t, |base| + |done|, s, compress);
    var t' := t[s := (|base| + |done|) % 0x1_0000];
    var rest := EncodeName(t', |base| + |done| + 1 + i, name[x + 1..], compress);
    assert done + ([i] + name[start..x] + rest.0) == done + ([i] + name[start..x]) + rest.0;
  }

  lemma {:induction false} MidwayNext(base: bytes, t0: Table, compress: bool, name: bytes, x: nat, done: bytes, t: Table)
    requires x <= |name| && ValidName(name[x..]) && !(compress && name[x..] in t)
    requires var rest := EncodeName(t, |base| + |done|, name[x..], compress);
      EncodeName(t0, |base|, name, compress) == (done + rest.0, rest.1)
    ensures Midway(base, t0, compress, name, x, x, done, t)
  {
    hide EncodeName, Dot;
  }

  /** Inside a label there is no backslash and no dot. */
  lemma {:induction false} MidwayChar(base: bytes, t0: Table, compress: bool, name: bytes, start: nat, x: nat, done: bytes, t: Table)
    requires Midway(base, t0, compress, name, start, x, done, t)
    requires x < |name|
    ensures name[x] != BACKSLASH && x - start <= MAX_LABEL_SIZE
    ensures name[x] != DOT ==> Midway(base, t0, compress, name, start, x + 1, done, t)
  {
    hide EncodeName, Dot;
    var s := name[start..];
    assert s[x - start] == name[x];
    if x < start + Dot(s) {
      assert s[..Dot(s)][x - start] == name[x];
    }
  }

  lemma {:induction false} MidwayEnd(base: bytes, t0: Table, compress: bool, name: bytes, start: nat, done: bytes, t: Table)
    requires Midway(base, t0, compress, name, start, |name|, done, t)
    ensures var i := |name| - start;
      && 1 <= i <= MAX_LABEL_SIZE
      && EncodeName(t0, |base|, name, compress)
         == (done + ([i] + name[start..] + [0]), t[name[start..] := (|base| + |done|) % 0x1_0000])
  {
    hide EncodeName, Dot;
    EncodeNameCases(t, |base| + |done|, name[start..], compress);
  }

  /** What packDomainName was called with. */
  datatype Job = Job(base: bytes, t0: Table, compress: bool, name: bytes)

  /** Where it is: the label being copied, the bytes written for the labels before it, and the table before it. */
  datatype Cursor = Cursor(start: nat, done: bytes, t: Table)

  /** The fields of the message, while name[k.start..x] has been copied behind a reserved length byte. */
  ghost predicate Copying(
    j: Job, k: Cursor, x: nat, count: byte, n: nat, data: bytes, off: nat, table: Table, dname: bytes)
  {
    && Midway(j.base, j.t0, j.compress, j.name, k.start, x, k.done, k.t)
    && count as int == x - k.start && n == |k.done| && dname == j.name[k.start..]
    && off == |j.base| + |k.done| < 0x1_0000
    && data == j.base + k.done + [0] + j.name[k.start..x]
    && table == k.t[dname := off]
  }

  /** Exactly the encoding of the name was appended, and the offset and the result count its bytes. */
  ghost predicate Finished(j: Job, n: nat, data: bytes, off: nat, table: Table) {
    var (e, t) := EncodeName(j.t0, |j.base|, j.name, j.compress);
    data == j.base + e && n == |e| && off == |data| && table == t
  }

  lemma {:induction false} FinishedAtOnce(j: Job)
    requires ValidName(j.name) && j.compress && j.name in j.t0
    ensures Finished(j, 2, j.base + Pointer(j.t0[j.name]), |j.base| + 2, j.t0)
  {
    hide Dot;
    EncodeNameCases(j.t0, |j.base|, j.name, j.compress);
  }

  lemma {:induction false} CopyingStart(j: Job, off: u16)
    requires ValidName(j.name) && !(j.compress && j.name in j.t0) && off == |j.base|
    ensures Copying(j, Cursor(0, [], j.t0), 0, 0, 0, j.base + [0], off, j.t0[j.name := off], j.name)
  {
    hide Midway;
    MidwayStart(j.base, j.t0, j.compress, j.name);
    assert j.name[0..] == j.name;
  }

  lemma {:induction false} CopyingChar(
    j: Job, k: Cursor, x: nat, count: byte, n: nat, data: bytes, off: nat, table: Table, dname: bytes)
    requires Copying(j, k, x, count, n, data, off, table, dname) && x < |j.name|
    ensures j.name[x] != BACKSLASH
    ensures j.name[x] != DOT ==>
      Copying(j, k, x + 1, (count as int + 1) % 0x100, n, data + [j.name[x]], off, table, dname)
  {
    MidwayChar(j.base, j.t0, j.compress, j.name, k.start, x, k.done, k.t);
    hide Midway;
    assert k.start <= x;
    assert j.name[k.start..x + 1] == j.name[k.start..x] + [j.name[x]];
  }

  /** What is written once the length byte of the label is filled in. */
  function NextCursor(j: Job, k: Cursor, x: nat, table: Table): Cursor
    requires k.start <= x < |j.name| && x - k.start < 0x100
  {
    Cursor(x + 1, k.done + ([x - k.start] + j.name[k.start..x]), table)
  }

  lemma {:induction false} CopyingDot(
    j: Job, k: Cursor, x: nat, count: byte, n: nat, data: bytes, off: nat, table: Table, dname: bytes)
    requires Copying(j, k, x, count, n, data, off, table, dname) && x < |j.name| && j.name[x] == DOT
    ensures k.start <= x && 1 <= count <= MAX_LABEL_SIZE && count as int == x - k.start
    ensures var k' := NextCursor(j, k, x, table);
      && off < |data| && data[off := count] == j.base + k'.done
      && off + count as int + 1 == |j.base| + |k'.done| && n + count as int + 1 == |k'.done|
      && ValidName(j.name[x + 1..])
      && var rest := EncodeName(table, |j.base| + |k'.done|, j.name[x + 1..], j.compress);
         EncodeName(j.t0, |j.base|, j.name, j.compress) == (k'.done + rest.0, rest.1)
  {
    hide EncodeName, ValidName, Dot;
    MidwayDot(j.base, j.t0, j.compress, j.name, k.start, x, k.done, k.t);
    hide Midway;
    PatchCount(j.base + k.done, j.name[k.start..x], count);
  }

  /** After a dot, either the rest is in the table and the name is finished, or the next label begins. */
  lemma {:induction false} CopyingNext(
    j: Job, k: Cursor, x: nat, count: byte, n: nat, data: bytes, off: nat, table: Table, dname: bytes)
    requires Copying(j, k, x, count, n, data, off, table, dname) && x < |j.name| && j.name[x] == DOT
    ensures k.start <= x && 1 <= count <= MAX_LABEL_SIZE && count as int == x - k.start
    ensures var k', rest, n' := NextCursor(j, k, x, table), j.name[x + 1..], n + count as int + 1;
      && rest != [] && off < |data|
      && if j.compress && rest in table then
           Finished(j, n' + 2, data[off := count] + Pointer(table[rest]), off + count as int + 3, table)
         else
           off + count as int + 1 < 0x1_0000 ==>
             Copying(j, k', x + 1, 0, n', data[off := count] + [0], off + count as int + 1,
               table[rest := off + count as int + 1], rest)
  {
    hide EncodeName, Dot, Midway;
    CopyingDot(j, k, x, count, n, data, off, table, dname);
    var k' := NextCursor(j, k, x, table);
    var rest := j.name[x + 1..];
    EncodeNameCases(table, |j.base| + |k'.done|, rest, j.compress);
    if !(j.compress && rest in table) {
      MidwayNext(j.base, j.t0, j.compress, j.name, x + 1, k'.done, table);
    }
  }

  lemma {:induction false} CopyingEnd(
    j: Job, k: Cursor, count: byte, n: nat, data: bytes, off: nat, table: Table, dname: bytes)
    requires Copying(j, k, |j.name|, count, n, data, off, table, dname)
    ensures 1 <= count <= MAX_LABEL_SIZE && off < |data| && j.name != []
    ensures Finished(j, n + count as int + 2, data[off := count] + [0], off + count as int + 2, table)
  {
    hide EncodeName;
    MidwayEnd(j.base, j.t0, j.compress, j.name, k.start, k.done, k.t);
    var part := j.name[k.start..|j.name|];
    assert part == j.name[k.start..];
    PatchCount(j.base + k.done, part, count);
  }

  class Message {
    var header: Header
    var question: Question
    var answer: seq<Record>
    var authority: seq<Record>
    var additional: seq<Record>
    /** The slice msg.Packet. */
    const packet: Buffer
    /** Offset of the next byte; a uint16. */
    var off: u16
    var dnameOff: Table
    var dname: bytes

    /** NewMessage */
    constructor ()
      ensures fresh(packet)
      ensures header == FRESH_HEADER && answer == [] && authority == [] && additional == []
      ensures question == Question([], TYPE_A, 1) && packet.data == []
    {
      header := FRESH_HEADER;
      question := Question([], TYPE_A, 1);
      answer, authority, additional := [], [], [];
      packet := new Buffer([]);
      off := 0;
      dnameOff := map[];
      dname := [];
    }

    function Value(): MessageValue
      reads this
    {
      MessageValue(header, question, answer, authority, additional)
    }

    /** The offset never runs ahead of the packet. */
    predicate Behind()
      reads this, packet
    {
      off as int <= |packet.data|
    }

    /** The offset is the length of the packet. */
    predicate InStep()
      reads this, packet
    {
      off as int == |packet.data|
    }

    method Compress() returns (ok: bool)
      modifies this`off, packet
      ensures ok == (dname in dnameOff)
      ensures packet.data == if ok then old(packet.data) + Pointer(dnameOff[dname]) else old(packet.data)
      ensures ok ==> |packet.data| == |old(packet.data)| + 2
      ensures off == if ok then (old(off) as int + 2) % 0x1_0000 else old(off)
    {
      ok := dname in dnameOff;
      if ok {
        var o := dnameOff[dname];
        packet.AppendByte(MASK_POINTER + o / 0x100 % 0x40);
        packet.AppendByte(o % 0x100);
        off := (off as int + 2) % 0x1_0000;
      }
    }

    /** Opens a label: reserves its length byte and records the suffix that begins here. */
    method OpenLabel()
      modifies this`dnameOff, packet
      ensures packet.data == old(packet.data) + [0] && dnameOff == old(dnameOff)[dname := off]
    {
      packet.AppendByte(0);
      dnameOff := dnameOff[dname := off];
    }

    /** Closes a label of `count` bytes: fills in its length byte and moves the offset behind it. */
    method CloseLabel(count: byte) returns (step: byte)
      requires off as int < |packet.data|
      modifies this`off, packet
      ensures step == (count as int + 1) % 0x100
      ensures packet.data == old(packet.data)[old(off) as int := count]
      ensures off == (old(off) as int + step) % 0x1_0000
    {
      packet.data := packet.data[off as int := count];
      step := (count as int + 1) % 0x100;
      off := (off as int + step) % 0x1_0000;
    }

    /** At the dot at x: closes the label, then finishes with a pointer if the rest is known, or opens the next label. */
    method NextLabel(count: byte, name: bytes, x: nat, doCompress: bool) returns (ok: bool, step: byte)
      requires off as int + count as int + 1 <= |packet.data| && x < |name|
      modifies this`off, this`dname, this`dnameOff, packet
      ensures dname == name[x + 1..] && (ok <==> doCompress && dname in old(dnameOff))
      ensures step == (count as int + 1) % 0x100
      ensures packet.data == old(packet.data)[old(off) as int := count]
                             + if ok then Pointer(old(dnameOff)[dname]) else [0]
      ensures |packet.data| == |old(packet.data)| + if ok then 2 else 1
      ensures off as int <= old(off) as int + count as int + if ok then 3 else 1
      ensures count < 0xFF && old(off) as int + count as int + 3 < 0x1_0000 ==>
        off as int == old(off) as int + count as int + if ok then 3 else 1
      ensures count < 0xFF && !ok && old(off) as int + count as int + 1 < 0x1_0000 ==>
        off as int == old(off) as int + count as int + 1
      ensures dnameOff == if ok then old(dnameOff) else old(dnameOff)[dname := off]
    {
      dname := name[x + 1..];
      step := CloseLabel(count);
      ok := false;
      if doCompress {
        ok := Compress();
      }
      if !ok {
        OpenLabel();
      }
    }

    /** Closes the last label and ends the name; the empty name has nothing to close. */
    method CloseName(count: byte, n: nat, name: bytes) returns (n': nat)
      requires off as int + count as int + 1 <= |packet.data|
      modifies this`off, packet
      ensures Behind() && |packet.data| >= |old(packet.data)|
      ensures name != [] ==> |packet.data| == |old(packet.data)| + 1
      ensures count > 0 && name != [] && count as int + 2 + old(off) as int < 0x1_0000 && count < 0xFF ==>
        && n' == n + count as int + 2
        && off as int == old(off) as int + count as int + 2
        && packet.data == old(packet.data)[old(off) as int := count] + [0]
    {
      n' := n;
      if count > 0 {
        var step := CloseLabel(count);
        n' := n' + step;
      }
      if |name| > 0 {
        packet.AppendByte(0);
        off := (off as int + 1) % 0x1_0000;
        n' := n' + 1;
      }
    }

    /** The escape at x: the byte it stands for and where it ends, or `stop` if the name is cut off inside it. */
    method Escape(name: bytes, x: nat) returns (stop: bool, c: byte, x': nat)
      requires x < |name| && name[x] == BACKSLASH
      ensures stop || x < x' < |name|
    {
      stop, c, x' := false, 0, x + 1;
      if x' == |name| {
        stop := true;
      } else {
        c := name[x'];
        if 48 <= c <= 57 {
          if x' + 2 >= |name| {
            stop := true;
          } else {
            c := LowerByte(DecimalByte(name[x'..x' + 3]));
            x' := x' + 2;
          }
        }
      }
    }

    /**
     packDomainName. The caller's bytes are lower-cased in place: `name` is what they are afterwards. For a valid name
     and a packet within 16 bits, exactly the encoding of the name is appended and `off` keeps step.
     */
    method PackDomainName(dname: bytes, doCompress: bool) returns (n: nat, name: bytes)
      requires Behind()
      modifies this`off, this`dname, this`dnameOff, packet
      ensures name == Lower(dname)
      ensures Behind() && |packet.data| >= |old(packet.data)|
      ensures ValidName(dname) && old(InStep()) && |packet.data| < 0x1_0000 ==>
        Finished(Job(old(packet.data), old(dnameOff), doCompress, name), n, packet.data, off, dnameOff)
    {
      hide EncodeName, ValidName, Copying, Pointer, Finished, Lower, Dot;
      name := Lower(dname);
      ghost var j := Job(packet.data, dnameOff, doCompress, name);
      ghost var good := ValidName(dname) && InStep();
      if good {
        LowerValid(dname);
        if doCompress && name in j.t0 {
          FinishedAtOnce(j);
        }
      }
      this.dname := name;
      if doCompress {
        var ok := Compress();
        if ok {
          return 2, name;
        }
      }
      OpenLabel();
      if good {
        CopyingStart(j, off);
      }
      n := PackLabels(name, doCompress, j, good);
    }

    /** The loop of packDomainName, entered with the first label open. */
    method PackLabels(name: bytes, doCompress: bool, ghost j: Job, ghost good: bool) returns (n: nat)
      requires off as int < |packet.data| && |j.base| <= |packet.data| && j.name == name && j.compress == doCompress
      requires good && |packet.data| < 0x1_0000 ==>
        Copying(j, Cursor(0, [], j.t0), 0, 0, 0, packet.data, off, dnameOff, dname)
      modifies this`off, this`dname, this`dnameOff, packet
      ensures Behind() && |packet.data| >= |old(packet.data)|
      ensures good && |packet.data| < 0x1_0000 ==> Finished(j, n, packet.data, off, dnameOff)
    {
      hide EncodeName, Copying, Pointer, Finished;
      n := 0;
      var count: byte := 0;
      ghost var k := Cursor(0, [], j.t0);
      var x := 0;
      while x < |name|
        invariant x <= |name| && off as int + count as int + 1 <= |packet.data| && |packet.data| >= |old(packet.data)|
        invariant good && |packet.data| < 0x1_0000 ==>
          Copying(j, k, x, count, n, packet.data, off, dnameOff, dname)
        decreases |name| - x
      {
        ghost var inside := good && |packet.data| < 0x1_0000;
        if inside {
          CopyingChar(j, k, x, count, n, packet.data, off, dnameOff, dname);
        }
        var c := name[x];

        if c == BACKSLASH {
          var stop, b, x' := Escape(name, x);
          if stop {
            return n;
          }
          packet.AppendByte(b);
          count := (count as int + 1) % 0x100;
          x := x' + 1;
        } else if c == DOT {
          if inside {
            CopyingNext(j, k, x, count, n, packet.data, off, dnameOff, dname);
            k := NextCursor(j, k, x, dnameOff);
          }
          if count > 0 {
            var ok, step := NextLabel(count, name, x, doCompress);
            n := n + step;
            if ok {
              return n + 2;
            }
            count := 0;
            if x + 1 == |name| {
              return n;
            }
          }
          x := x + 1;
        } else {
          packet.AppendByte(c);
          count := (count as int + 1) % 0x100;
          x := x + 1;
        }
      }

      if good && |packet.data| < 0x1_0000 {
        CopyingEnd(j, k, count, n, packet.data, off, dnameOff, dname);
      }
      ghost var end := off as int + count as int + 1;
      n := CloseName(count, n, name);
      assert good && |packet.data| < 0x1_0000 ==> end < 0x1_0000;
    }

    /** Appending fixed fields keeps the offset in step. */
    method Put(part: bytes)
      requires Behind() && |part| < 0x1_0000
      modifies this`off, packet
      ensures packet.data == old(packet.data) + part && Behind()
      ensures old(InStep()) && |packet.data| < 0x1_0000 ==> InStep()
    {
      packet.data := packet.data + part;
      off := (off as int + |part|) % 0x1_0000;
    }

    /** The reserved length slot, then a name, then the length of what follows the slot written back into it. */
    method PackSized(front: bytes, dname: bytes, doCompress: bool) returns (name: bytes)
      requires Behind() && |front| < 0x100
      modifies this`off, this`dname, this`dnameOff, packet
      ensures name == Lower(dname)
      ensures Behind() && |packet.data| >= |old(packet.data)|
      ensures ValidName(dname) && old(InStep()) && |packet.data| < 0x1_0000 ==>
        var e := EncodeName(old(dnameOff), |old(packet.data)| + 2 + |front|, name, doCompress);
        Wrote(old(packet.data), (front + e.0, e.1), packet.data, off, dnameOff)
    {
      hide EncodeName, ValidName, Lower, Be16, Wrote;
      ghost var base := packet.data;
      var slot := off;
      Put([0, 0]);
      Put(front);
      ghost var mid := packet.data;
      ghost var t0 := dnameOff;
      var n;
      n, name := PackDomainName(dname, doCompress);
      packet.WriteUint16(slot as int, (n + |front|) % 0x1_0000);
      if ValidName(dname) && old(InStep()) && |packet.data| < 0x1_0000 {
        SizedWritten(base, front, mid, EncodeName(t0, |mid|, name, doCompress).0, dnameOff, packet.data, off);
      }
    }

    method PackA(address: bytes)
      requires Behind() && |address| == IPV4_SIZE
      modifies this`off, packet
      ensures Behind() && |packet.data| >= |old(packet.data)|
      ensures old(InStep()) && |packet.data| < 0x1_0000 ==>
        Wrote(old(packet.data), (address, dnameOff), packet.data, off, dnameOff)
    {
      hide Be16;
      Put(Be16(IPV4_SIZE));
      Put(address);
    }

    method PackWKS(rd: RData)
      requires Behind() && rd.Wks? && |rd.wksAddress| == IPV4_SIZE
      modifies this`off, packet
      ensures Behind() && |packet.data| >= |old(packet.data)|
      ensures old(InStep()) && |packet.data| < 0x1_0000 ==>
        Wrote(old(packet.data), EncodeRData(dnameOff, 0, rd), packet.data, off, dnameOff)
    {
      hide Be16;
      var n := (5 + |rd.bitmap|) % 0x1_0000;
      Put(Be16(n));
      packet.data := packet.data + rd.wksAddress;
      packet.AppendByte(rd.protocol);
      packet.data := packet.data + rd.bitmap;
      off := (off as int + n) % 0x1_0000;
    }

    method PackMINFO(rmailbox: bytes, emailbox: bytes) returns (rname: bytes, ename: bytes)
      requires Behind()
      modifies this`off, this`dname, this`dnameOff, packet
      ensures rname == Lower(rmailbox) && ename == Lower(emailbox)
      ensures Behind() && |packet.data| >= |old(packet.data)|
      ensures ValidName(rmailbox) && ValidName(emailbox) && old(InStep()) && |packet.data| < 0x1_0000 ==>
        Wrote(old(packet.data), EncodeRData(old(dnameOff), |old(packet.data)| + 2, Minfo(rmailbox, emailbox)),
          packet.data, off, dnameOff)
    {
      hide EncodeName, ValidName, Lower, Be16, Wrote;
      ghost var base := packet.data;
      var slot := off;
      Put([0, 0]);
      ghost var t0 := dnameOff;
      var n;
      n, rname := PackDomainName(rmailbox, true);
      ghost var mid := packet.data;
      ghost var t1 := dnameOff;
      var m;
      m, ename := PackDomainName(emailbox, true);
      packet.WriteUint16(slot as int, (n + m) % 0x1_0000);
      if ValidName(rmailbox) && ValidName(emailbox) && old(InStep()) && |packet.data| < 0x1_0000 {
        var r := EncodeName(t0, |base| + 2, rname, true).0;
        var e := EncodeName(t1, |base| + 2 + |r|, ename, true).0;
        SizedWritten(base, r, mid, e, dnameOff, packet.data, off);
      }
    }

    /** packRData for the modelled types; `rd'` is the data with its names lower-cased in place. */
    method PackRData(rtype: u16, rd: RData) returns (rd': RData)
      requires Behind() && TypeMatches(rtype, rd)
      modifies this`off, this`dname, this`dnameOff, packet
      ensures rd' == LowerRData(rd)
      ensures Behind() && |packet.data| >= |old(packet.data)|
      ensures ValidRData(rd) && old(InStep()) && |packet.data| < 0x1_0000 ==>
        Wrote(old(packet.data), EncodeRData(old(dnameOff), |old(packet.data)| + 2, rd), packet.data, off, dnameOff)
    {
      hide EncodeName, ValidName, Lower, Be16, Wrote;
      match rd
      case A(address) =>
        PackA(address);
        rd' := rd;
      case Host(value) =>
        var name := PackSized([], value, true);
        rd' := Host(name);
        assert [] + EncodeName(old(dnameOff), |old(packet.data)| + 2, name, true).0
            == EncodeName(old(dnameOff), |old(packet.data)| + 2, name, true).0;
      case Mx(preference, exchange) =>
        var name := PackSized(Be16(FromI16(preference)), exchange, true);
        rd' := Mx(preference, name);
      case Minfo(rmailbox, emailbox) =>
        var rname, ename := PackMINFO(rmailbox, emailbox);
        rd' := Minfo(rname, ename);
      case Srv(service, proto, svcName, priority, weight, port, target) =>
        var name := PackSized(Be16(priority) + Be16(weight) + Be16(port), target, false);
        rd' := Srv(service, proto, svcName, priority, weight, port, name);
      case Wks(_, _, _) =>
        PackWKS(rd);
        rd' := rd;
    }

    /** packRR; the record comes back lower-cased, with the offset of its TTL. */
    method PackRR(rr: Record) returns (rr': Record)
      requires Behind() && TypeMatches(rr.rtype, rr.rdata)
      modifies this`off, this`dname, this`dnameOff, packet
      ensures Behind() && |packet.data| >= |old(packet.data)|
      ensures ValidRecord(rr) && old(InStep()) && |packet.data| < 0x1_0000 ==>
        var base, t0 := old(packet.data), old(dnameOff);
        && packet.data == base + EncodeRecord(t0, |base|, rr).0
        && dnameOff == EncodeRecord(t0, |base|, rr).1
        && InStep()
        && rr' == Lowered(rr, OffTTL(t0, |base|, rr))
    {
      hide EncodeName, EncodeRData, ValidName, Lower, Be16, Be32, LowerRData;
      ghost var base, t0 := packet.data, dnameOff;
      var n, name := PackDomainName(rr.name, true);
      Put(Be16(rr.rtype) + Be16(rr.class_));
      var offTTL := off;
      Put(Be32(rr.ttl));
      ghost var mid := packet.data;
      var rd := PackRData(rr.rtype, rr.rdata);
      rr' := rr.(name := name, rdata := rd, offTTL := offTTL as int);
      if ValidRecord(rr) && old(InStep()) && |packet.data| < 0x1_0000 {
        var e := EncodeName(t0, |base|, name, true);
        assert mid == base + e.0 + Fixed(rr);
        var d := EncodeRData(e.1, |base| + |e.0| + 10, rr.rdata).0;
        assert mid + Be16(|d| % 0x1_0000) + d == base + (e.0 + Fixed(rr) + Be16(|d| % 0x1_0000) + d);
      }
    }

    /** One of the three loops of Pack. */
    method PackRRs(rrs: seq<Record>) returns (rrs': seq<Record>)
      requires Behind() && forall i :: 0 <= i < |rrs| ==> TypeMatches(rrs[i].rtype, rrs[i].rdata)
      modifies this`off, this`dname, this`dnameOff, packet
      ensures Behind() && |packet.data| >= |old(packet.data)|
      ensures ValidRecords(rrs) && old(InStep()) && |packet.data| < 0x1_0000 ==>
        InStep() && PackedList(old(packet.data), old(dnameOff), rrs, packet.data, off, dnameOff, rrs')
    {
      hide EncodeRecord, Lowered, OffTTL, ValidRecord, ListSoFar, PackedList;
      rrs' := [];
      ghost var base, t0 := packet.data, dnameOff;
      ghost var good := ValidRecords(rrs) && InStep();
      ListStart(base, t0, rrs);
      for x := 0 to |rrs|
        invariant Behind() && |packet.data| >= |base|
        invariant good && |packet.data| < 0x1_0000 ==>
          InStep() && ListSoFar(base, t0, rrs, x, packet.data, dnameOff, rrs')
      {
        ghost var mid, t, done := packet.data, dnameOff, rrs';
        var rr := PackRR(rrs[x]);
        rrs' := rrs' + [rr];
        if good && |packet.data| < 0x1_0000 {
          ListStep(base, t0, rrs, x, mid, t, done);
        }
      }
      if good && |packet.data| < 0x1_0000 {
        ListEnd(base, t0, rrs, packet.data, dnameOff, rrs');
      }
    }

    method PackQuestion()
      requires Behind()
      modifies this`question, this`off, this`dname, this`dnameOff, packet
      ensures Behind() && |packet.data| >= |old(packet.data)|
      ensures question == old(question).(name := Lower(old(question.name)))
      ensures ValidName(old(question.name)) && old(InStep()) && |packet.data| < 0x1_0000 ==>
        var (n, t) := EncodeName(old(dnameOff), |old(packet.data)|, question.name, false);
        && packet.data == old(packet.data) + (n + Be16(question.qtype) + Be16(question.qclass))
        && InStep() && dnameOff == t
    {
      hide EncodeName, ValidName, Lower, Be16;
      var n, name := PackDomainName(question.name, false);
      question := question.(name := name);
      packet.AppendUint16(question.qtype);
      packet.AppendUint16(question.qclass);
      off := (off as int + 4) % 0x1_0000;
    }

    /** SectionHeader.pack */
    static method PackHeader(h: Header) returns (packet: bytes)
      ensures packet == EncodeHeader(h)
    {
      hide Mask78, Be16;
      packet := Be16(h.id);
      var b0: byte := if h.isQuery then 0 else 0x80;
      var b1: byte := 0;
      OpcodeBits(h.op);
      b0 := b0 + Mask78(h.op as int * 4 % 0x100);
      if h.isRD {
        b0 := b0 + 1;
      }
      if !h.isQuery {
        if h.isAA {
          b0 := b0 + 4;
        }
        if h.isTC {
          b0 := b0 + 2;
        }
        if h.isRA {
          b1 := b1 + 0x80;
        }
        b1 := b1 + h.rcode % 0x10;
      }
      packet := packet + [b0, b1];
      packet := packet + Be16(h.qdCount);
      packet := packet + Be16(h.anCount);
      packet := packet + Be16(h.nsCount);
      packet := packet + Be16(h.arCount);
    }

    /** The records of a response have data of the kind their types announce. */
    predicate Packable()
      reads this
    {
      !header.isQuery ==>
        forall rr :: rr in answer + authority + additional ==> TypeMatches(rr.rtype, rr.rdata)
    }

    /** The three loops of Pack. */
    method PackLists()
      requires Behind() && !header.isQuery && Packable()
      modifies this`answer, this`authority, this`additional, this`off, this`dname, this`dnameOff, packet
      ensures |packet.data| >= |old(packet.data)|
      ensures ValidLists(old(Value())) && old(InStep()) && |packet.data| < 0x1_0000 ==>
        PackedLists(old(Value()), old(packet.data), old(dnameOff), packet.data, Value())
    {
      hide EncodeRecords, PackedRecords, TypeMatches, ValidRecords, PackedList;
      ghost var m, d0, t0 := Value(), packet.data, dnameOff;
      assert forall rr :: rr in answer || rr in authority || rr in additional ==> rr in answer + authority + additional;
      answer := PackRRs(answer);
      ghost var d1, t1, an := packet.data, dnameOff, answer;
      authority := PackRRs(authority);
      ghost var d2, t2, ns := packet.data, dnameOff, authority;
      additional := PackRRs(additional);
      if ValidLists(m) && old(InStep()) && |packet.data| < 0x1_0000 {
        ListsJoin(m, d0, t0, d1, t1, an, d2, t2, ns, packet.data, dnameOff, additional);
      }
    }

    /** Pack: the packet is the encoding of the message, and the message is left in packed form. */
    method Pack()
      requires Packable()
      modifies this, packet
      ensures ValidMessage(old(Value())) && |packet.data| < 0x1_0000 ==>
        && packet.data == EncodeMessage(old(Value()))
        && Value() == PackedMessage(old(Value()))
    {
      hide EncodeName, ValidName, Lower, Be16, EncodeHeader, EncodeLists, PackedRecords, TypeMatches, ValidRecords, PackedLists;
      ghost var m := Value();
      dnameOff := map[];
      packet.data := [];

      header := header.(anCount := |answer| % 0x1_0000);
      header := header.(nsCount := |authority| % 0x1_0000);
      header := header.(arCount := |additional| % 0x1_0000);

      var h := PackHeader(header);
      packet.data := packet.data + h;
      off := HEADER_SIZE;
      PackQuestion();
      ghost var q, d0, t0 := Value(), packet.data, dnameOff;
      if ValidMessage(m) && |packet.data| < 0x1_0000 {
        FrontPacked(m, q, d0, t0);
      }
      if header.isQuery {
        dnameOff := map[];
        return;
      }
      PackLists();
      if ValidMessage(m) && |packet.data| < 0x1_0000 {
        ListsPacked(m, q, d0, t0, packet.data, Value());
      }
      dnameOff := map[];
    }

    /** One of the three loops of SubTTL. */
    method SubRRs(rrs: seq<Record>, n: u32, skipOPT: bool) returns (rrs': seq<Record>)
      requires SlotsInside(rrs, |packet.data|)
      modifies packet
      ensures rrs' == SubTTLs(rrs, n, skipOPT) && SlotsInside(rrs', |old(packet.data)|)
      ensures packet.data == WriteTTLs(old(packet.data), rrs', skipOPT)
    {
      hide Be32, WriteTTLs, Overwrite, SubTTLs, SlotsInside;
      ghost var target := SubTTLs(rrs, n, skipOPT);
      rrs' := rrs;
      assert target[0..] == target;
      SlotsKept(rrs, n, skipOPT, |packet.data|);
      for x := 0 to |rrs|
        invariant |rrs'| == |rrs| && |packet.data| == |old(packet.data)| && SlotsInside(target, |packet.data|)
        invariant forall i :: 0 <= i < |rrs| ==> rrs'[i] == if i < x then target[i] else rrs[i]
        invariant SlotsInside(target[x..], |packet.data|)
        invariant WriteTTLs(packet.data, target[x..], skipOPT) == WriteTTLs(old(packet.data), target, skipOPT)
      {
        WriteStep(packet.data, target, x, skipOPT);
        LoweredAt(rrs, n, skipOPT, x, |packet.data|);
        if skipOPT && rrs'[x].rtype == TYPE_OPT {
          continue;
        }
        if rrs'[x].ttl < n {
          rrs' := rrs'[x := rrs'[x].(ttl := 0)];
        } else {
          rrs' := rrs'[x := rrs'[x].(ttl := rrs'[x].ttl - n)];
        }
        packet.WriteUint32(rrs'[x].offTTL, rrs'[x].ttl);
      }
      WriteNone(packet.data, target[|rrs|..], skipOPT);
      assert rrs' == target;
    }

    /** SubTTL */
    method SubTTL(n: u32)
      requires SlotsInside(answer, |packet.data|) && SlotsInside(authority, |packet.data|)
      requires SlotsInside(additional, |packet.data|)
      modifies this`answer, this`authority, this`additional, packet
      ensures Value() == SubTTLMessage(old(Value()), n)
      ensures SlotsInside(answer, |old(packet.data)|) && SlotsInside(authority, |old(packet.data)|)
      ensures SlotsInside(additional, |old(packet.data)|)
      ensures packet.data == WriteMessageTTLs(old(packet.data), Value())
    {
      hide DnsWire.SubTTLs, WriteTTLs;
      answer := SubRRs(answer, n, false);
      authority := SubRRs(authority, n, false);
      additional := SubRRs(additional, n, true);
    }
  }

  predicate ValidLists(m: MessageValue) {
    ValidRecords(m.answer) && ValidRecords(m.authority) && ValidRecords(m.additional)
  }

  /** The lists of `m` were packed behind d0, and `m'` holds them in packed form. */
  ghost predicate PackedLists(m: MessageValue, d0: bytes, t0: Table, d3: bytes, m': MessageValue) {
    var an := EncodeRecords(t0, |d0|, m.answer);
    var ns := EncodeRecords(an.1, |d0| + |an.0|, m.authority);
    var ar := EncodeRecords(ns.1, |d0| + |an.0| + |ns.0|, m.additional);
    && d3 == d0 + (an.0 + ns.0 + ar.0)
    && m'.answer == PackedRecords(t0, |d0|, m.answer)
    && m'.authority == PackedRecords(an.1, |d0| + |an.0|, m.authority)
    && m'.additional == PackedRecords(ns.1, |d0| + |an.0| + |ns.0|, m.additional)
    && m'.header == m.header && m'.question == m.question
  }

  lemma {:induction false} ListsJoin(
    m: MessageValue, d0: bytes, t0: Table, d1: bytes, t1: Table, an: seq<Record>,
    d2: bytes, t2: Table, ns: seq<Record>, d3: bytes, t3: Table, ar: seq<Record>)
    requires PackedList(d0, t0, m.answer, d1, |d1|, t1, an)
    requires PackedList(d1, t1, m.authority, d2, |d2|, t2, ns)
    requires PackedList(d2, t2, m.additional, d3, |d3|, t3, ar)
    ensures PackedLists(m, d0, t0, d3, m.(answer := an, authority := ns, additional := ar))
  {
    hide EncodeRecords, PackedRecords;
  }

  /** Header and question are packed: what a query is packed as. */
  lemma {:induction false} FrontPacked(m: MessageValue, q: MessageValue, d0: bytes, t0: Table)
    requires q == m.(header := PackedHeader(m), question := m.question.(name := Lower(m.question.name)))
    requires d0 == EncodeHeader(PackedHeader(m)) + EncodeQuestion(m.question)
    requires t0 == EncodeName(map[], HEADER_SIZE, Lower(m.question.name), false).1
    ensures (|d0|, t0) == RecordsStart(m)
    ensures m.header.isQuery ==> d0 == EncodeMessage(m) && q == PackedMessage(m)
  {
    hide EncodeName, Lower, Be16;
    StartAfterQuestion(m);
  }

  lemma {:induction false} ListsPacked(m: MessageValue, q: MessageValue, d0: bytes, t0: Table, d3: bytes, m': MessageValue)
    requires !m.header.isQuery && (|d0|, t0) == RecordsStart(m)
    requires q == m.(header := PackedHeader(m), question := m.question.(name := Lower(m.question.name)))
    requires d0 == EncodeHeader(PackedHeader(m)) + EncodeQuestion(m.question)
    requires PackedLists(q, d0, t0, d3, m')
    ensures d3 == EncodeMessage(m) && m' == PackedMessage(m)
  {
    hide EncodeRecords, PackedRecords, EncodeHeader, EncodeQuestion, EncodeName;
  }

  lemma WriteNone(p: bytes, rrs: seq<Record>, skipOPT: bool)
    requires rrs == []
    ensures WriteTTLs(p, rrs, skipOPT) == p
  {
  }

  lemma SlotsKept(rrs: seq<Record>, n: u32, skipOPT: bool, len: nat)
    requires SlotsInside(rrs, len)
    ensures SlotsInside(SubTTLs(rrs, n, skipOPT), len)
  {
  }

  lemma LoweredAt(rrs: seq<Record>, n: u32, skipOPT: bool, x: nat, len: nat)
    requires x < |rrs| && SlotsInside(rrs, len)
    ensures rrs[x].offTTL + 4 <= len
    ensures SubTTLs(rrs, n, skipOPT)[x] ==
      if skipOPT && rrs[x].rtype == TYPE_OPT then rrs[x]
      else rrs[x].(ttl := if rrs[x].ttl < n then 0 else rrs[x].ttl - n)
  {
  }

  /** One step of the loop of SubTTL. */
  lemma WriteStep(p: bytes, rrs: seq<Record>, x: nat, skipOPT: bool)
    requires SlotsInside(rrs, |p|) && x < |rrs|
    ensures SlotsInside(rrs[x..], |p|) && SlotsInside(rrs[x + 1..], |p|)
    ensures var q := if skipOPT && rrs[x].rtype == TYPE_OPT then p else Overwrite(p, rrs[x].offTTL, Be32(rrs[x].ttl));
      WriteTTLs(p, rrs[x..], skipOPT) == WriteTTLs(q, rrs[x + 1..], skipOPT)
  {
    hide Be32;
    assert rrs[x..][1..] == rrs[x + 1..] && rrs[x..][0] == rrs[x];
  }

  /** A list was packed behind `base`: its bytes, the table, the offset, and the records as packing leaves them. */
  ghost predicate PackedList(
    base: bytes, t0: Table, rrs: seq<Record>, data: bytes, off: nat, table: Table, rrs': seq<Record>)
  {
    && data == base + EncodeRecords(t0, |base|, rrs).0 && table == EncodeRecords(t0, |base|, rrs).1
    && off == |data| && rrs' == PackedRecords(t0, |base|, rrs)
  }

  /** The first x records are packed; what is left continues the encoding of the list. */
  ghost predicate ListSoFar(
    base: bytes, t0: Table, rrs: seq<Record>, x: nat, data: bytes, table: Table, rrs': seq<Record>)
  {
    && x <= |rrs| && |base| <= |data| && data[..|base|] == base
    && var rest := EncodeRecords(table, |data|, rrs[x..]);
    && EncodeRecords(t0, |base|, rrs) == (data[|base|..] + rest.0, rest.1)
    && PackedRecords(t0, |base|, rrs) == rrs' + PackedRecords(table, |data|, rrs[x..])
  }

  lemma {:induction false} ListStart(base: bytes, t0: Table, rrs: seq<Record>)
    ensures ListSoFar(base, t0, rrs, 0, base, t0, [])
  {
    hide EncodeRecords, PackedRecords;
    assert rrs[0..] == rrs;
    assert base[|base|..] + EncodeRecords(t0, |base|, rrs).0 == EncodeRecords(t0, |base|, rrs).0;
    assert [] + PackedRecords(t0, |base|, rrs) == PackedRecords(t0, |base|, rrs);
  }

  lemma {:induction false} ListStep(
    base: bytes, t0: Table, rrs: seq<Record>, x: nat, data: bytes, table: Table, rrs': seq<Record>)
    requires x < |rrs| && ListSoFar(base, t0, rrs, x, data, table, rrs')
    ensures var (e, t) := EncodeRecord(table, |data|, rrs[x]);
      ListSoFar(base, t0, rrs, x + 1, data + e, t, rrs' + [Lowered(rrs[x], OffTTL(table, |data|, rrs[x]))])
  {
    hide EncodeRecord, Lowered, OffTTL;
    var (e, t) := EncodeRecord(table, |data|, rrs[x]);
    var rest := EncodeRecords(t, |data + e|, rrs[x + 1..]);
    assert rrs[x..][1..] == rrs[x + 1..];
    assert data[|base|..] + (e + rest.0) == (data + e)[|base|..] + rest.0;
    var head := Lowered(rrs[x], OffTTL(table, |data|, rrs[x]));
    var tail := PackedRecords(t, |data + e|, rrs[x + 1..]);
    assert rrs' + ([head] + tail) == rrs' + [head] + tail;
  }

  lemma {:induction false} ListEnd(base: bytes, t0: Table, rrs: seq<Record>, data: bytes, table: Table, rrs': seq<Record>)
    requires ListSoFar(base, t0, rrs, |rrs|, data, table, rrs')
    ensures PackedList(base, t0, rrs, data, |data|, table, rrs')
  {
    assert data[|base|..] + [] == data[|base|..];
    assert base + data[|base|..] == data;
    assert rrs' + [] == rrs';
  }

  /** Two length bytes and the data they count were appended, and the offset is in step. */
  ghost predicate Wrote(base: bytes, d: (bytes, Table), data: bytes, off: nat, table: Table) {
    data == base + Be16(|d.0| % 0x1_0000) + d.0 && off == |data| && table == d.1
  }

  lemma SizedWritten(base: bytes, front: bytes, mid: bytes, e: bytes, table: Table, data: bytes, off: nat)
    requires mid == base + [0, 0] + front && off == |data| && |data| == |mid + e|
    requires data == Overwrite(mid + e, |base|, Be16((|e| + |front|) % 0x1_0000))
    ensures Wrote(base, (front + e, table), data, off, table)
  {
    hide Be16;
    assert mid + e == base + [0, 0] + (front + e);
    FillSlot(base, front + e);
  }

  lemma FillSlot(base: bytes, d: bytes)
    ensures Overwrite(base + [0, 0] + d, |base|, Be16(|d| % 0x1_0000)) == base + Be16(|d| % 0x1_0000) + d
  {
    hide Be16;
  }

  /** Filling in the length byte that was reserved in front of a label. */
  lemma PatchCount(front: bytes, part: bytes, count: byte)
    ensures var d := front + [0] + part;
      d[|front| := count] == front + ([count] + part)
  {
  }
}
