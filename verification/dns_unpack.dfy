/**
 Unpacking (lib/dns/resourcerecord.go, lib/dns/sectionquestion.go, Message.Unpack): readers that move an index over
 the packet, lower-case the labels they pass in place, and follow compression pointers.
 */
module DnsUnpack {
  import opened Bytes
  import opened DnsName
  import opened DnsRecord
  import opened DnsWire
  import opened DnsPack

  datatype Option<+T> = None | Some(value: T)

  /** The offset already recorded has no influence on the name that is read. */
  lemma {:induction false} OffIrrelevant(p: bytes, x: nat, out: bytes, off: nat, off': nat, depth: nat)
    ensures var r, r' := ReadName(p, x, out, off, depth), ReadName(p, x, out, off', depth);
      match r
      case Ok(n) => r'.Ok? && r'.value.out == n.out && r'.value.packet == n.packet
      case Err(e) => r' == Err(e)
      case Undefined => r'.Undefined?
    decreases depth
  {
    hide Target, Lower, Overwrite, AppendLabel;
    if depth > 0 {
      var s, s' := ReadStep(p, x, out, off), ReadStep(p, x, out, off');
      if s.More? {
        OffIrrelevant(s.p, s.x, s.out, s.off, s'.off, depth - 1);
      }
    }
  }

  /** Lower-casing bytes x.. of `p` in place, `len` of them so far. */
  ghost predicate LoweredSoFar(p: bytes, q: bytes, x: nat, len: nat) {
    x + len <= |p| && q == Overwrite(p, x, Lower(p[x..x + len]))
  }

  lemma LowerNext(p: bytes, q: bytes, x: nat, len: nat)
    requires LoweredSoFar(p, q, x, len) && x + len < |p|
    ensures |q| == |p| && q[x + len] == p[x + len]
    ensures LoweredSoFar(p, q[x + len := LowerByte(p[x + len])], x, len + 1)
    ensures Lower(p[x..x + len + 1]) == Lower(p[x..x + len]) + [LowerByte(p[x + len])]
  {
  }

  /** Lower-cases `count` bytes of the packet from x on and appends them to `out`: the loop both readers share. */
  method CopyLabel(packet: Buffer, x: nat, count: byte, out: Buffer)
    requires packet != out && x + count as int <= |packet.data|
    modifies packet, out
    ensures packet.data == Overwrite(old(packet.data), x, Lower(old(packet.data)[x..x + count as int]))
    ensures out.data == old(out.data) + Lower(old(packet.data)[x..x + count as int])
  {
    hide Lower, LowerByte, Overwrite, LoweredSoFar;
    ghost var p := packet.data;
    CopyStart(p, x);
    assert out.data + [] == out.data;
    for y := 0 to count as int
      invariant |packet.data| == |p| && LoweredSoFar(p, packet.data, x, y)
      invariant out.data == old(out.data) + Lower(p[x..x + y])
    {
      LowerNext(p, packet.data, x, y);
      UpperTest(packet.data[x + y]);
      if 65 <= packet.data[x + y] <= 90 {
        packet.data := packet.data[x + y := packet.data[x + y] + 32];
      } else {
        SameByte(packet.data, x + y);
      }
      out.AppendByte(packet.data[x + y]);
    }
    CopyEnd(p, packet.data, x, count as int);
  }

  /** The cases of one call of the reader. */
  lemma StepCases(p: bytes, x: nat, out: bytes, off: nat)
    ensures var s := ReadStep(p, x, out, off);
      if x >= |p| then s == Done(Err(LabelSizeLimit))
      else if p[x] == 0 then s == Done(Ok(NameRead(out, off, p)))
      else if p[x] >= MASK_POINTER then
        if x + 1 >= |p| then s == Done(Undefined)
        else s == More(p, p[x] as int % 0x40 * 0x100 + p[x + 1] as int, out, if off == 0 then x + 1 else off)
      else if p[x] as int > MAX_LABEL_SIZE then s == Done(Err(LabelSizeLimit))
      else
        var end := x + 1 + p[x] as int;
        if end > |p| then s == Done(Undefined)
        else
          s == More(Overwrite(p, x + 1, Lower(p[x + 1..end])), end,
                 (if out == [] then out else out + [DOT]) + Lower(p[x + 1..end]), off)
  {
    hide Lower, Overwrite;
  }

  lemma CopyStart(p: bytes, x: nat)
    requires x <= |p|
    ensures LoweredSoFar(p, p, x, 0) && Lower(p[x..x + 0]) == []
  {
  }

  lemma CopyEnd(p: bytes, q: bytes, x: nat, len: nat)
    requires LoweredSoFar(p, q, x, len)
    ensures q == Overwrite(p, x, Lower(p[x..x + len]))
  {
  }

  lemma UpperTest(b: byte)
    ensures LowerByte(b) as int == if 65 <= b <= 90 then b as int + 32 else b as int
  {
  }

  lemma SameByte(p: bytes, i: nat)
    requires i < |p|
    ensures p[i := p[i]] == p
  {
  }

  /** The error a reader returns, if the outcome is an error. */
  function ErrorOf<T>(r: Outcome<T>): Option<Error> {
    if r.Err? then Some(r.error) else None
  }

  class ResourceRecord {
    var name: bytes
    var rtype: u16
    var class_: u16
    var ttl: u32
    var rdlen: u16
    /** The raw bytes of the data. */
    var raw: bytes
    /** The parsed data: the one of Text, WKS, MInfo, MX and SRV that the type selects. */
    var rdata: RData
    var off: nat
    var offTTL: nat

    /** NewResourceRecord */
    constructor ()
      ensures name == [] && raw == [] && off == 0
    {
      name, rtype, class_, ttl, rdlen, raw, rdata, off, offTTL := [], 0, 0, 0, 0, [], Host([]), 0, 0;
    }

    function Value(): Record
      reads this
    {
      Record(name, rtype, class_, ttl, rdata, offTTL)
    }

    /** unpackDomainName: appends the name at x to `out`. */
    method UnpackDomainName(out: Buffer, packet: Buffer, x: nat, ghost depth: nat) returns (err: Option<Error>)
      requires out != packet
      requires !ReadName(packet.data, x, out.data, off, depth).Undefined?
      modifies this`off, out, packet
      ensures var r := ReadName(old(packet.data), x, old(out.data), old(off), depth);
        err == ErrorOf(r) &&
        (r.Ok? ==> out.data == r.value.out && off == r.value.off && packet.data == r.value.packet)
      decreases depth
    {
      hide ReadStep, AppendLabel, Lower, Overwrite;
      StepCases(packet.data, x, out.data, off);
      if x >= |packet.data| {
        return Some(LabelSizeLimit);
      }
      var count := packet.data[x];
      if count == 0 {
        return None;
      }
      if count >= MASK_POINTER {
        var offset := count as int % 0x40 * 0x100 + packet.data[x + 1] as int;
        if off == 0 {
          off := x + 1;
        }
        err := UnpackDomainName(out, packet, offset, depth - 1);
        return err;
      }
      if count as int > MAX_LABEL_SIZE {
        return Some(LabelSizeLimit);
      }
      if |out.data| > 0 {
        out.AppendByte(DOT);
      }
      CopyLabel(packet, x + 1, count, out);
      err := UnpackDomainName(out, packet, x + 1 + count as int, depth - 1);
    }

    /** A name on its own: the buffer starts empty. */
    method UnpackName(packet: Buffer, x: nat) returns (out: bytes, err: Option<Error>)
      requires !ReadName(packet.data, x, [], off, |packet.data| + 1).Undefined?
      modifies this`off, packet
      ensures var r := ReadName(old(packet.data), x, [], old(off), |old(packet.data)| + 1);
        err == ErrorOf(r) &&
        (r.Ok? ==> out == r.value.out && off == r.value.off && packet.data == r.value.packet)
    {
      hide ReadName;
      var b := new Buffer([]);
      err := UnpackDomainName(b, packet, x, |packet.data| + 1);
      out := b.data;
    }

    /** What a reader of the data has done: an error, or the data and the packet of the outcome. */
    predicate DataIs(r: Outcome<DataRead>, err: Option<Error>, data: bytes)
      reads this
    {
      err == ErrorOf(r) && (r.Ok? ==> rdata == r.value.rdata && data == r.value.packet)
    }

    method UnpackHost(packet: Buffer, x: nat) returns (err: Option<Error>)
      requires !ReadHost(packet.data, x).Undefined?
      modifies this`off, this`rdata, packet
      ensures DataIs(ReadHost(old(packet.data), x), err, packet.data)
    {
      hide ReadName;
      OffIrrelevant(packet.data, x, [], 0, off, |packet.data| + 1);
      var value;
      value, err := UnpackName(packet, x);
      rdata := Host(value);
    }

    method UnpackMX(packet: Buffer, x: nat) returns (err: Option<Error>)
      requires !ReadMx(packet.data, x).Undefined?
      modifies this`off, this`rdata, packet
      ensures DataIs(ReadMx(old(packet.data), x), err, packet.data)
    {
      hide ReadName;
      var preference := ReadInt16(packet.data, x);
      off := 0;
      var exchange;
      exchange, err := UnpackName(packet, x + 2);
      rdata := Mx(preference, exchange);
    }

    method UnpackMInfo(packet: Buffer, startIdx: nat) returns (err: Option<Error>)
      requires !ReadMinfo(packet.data, startIdx).Undefined?
      modifies this`off, this`rdata, packet
      ensures DataIs(ReadMinfo(old(packet.data), startIdx), err, packet.data)
    {
      hide ReadName;
      var x := startIdx;
      off := 0;
      var rmailbox;
      rmailbox, err := UnpackName(packet, x);
      if err != None {
        return err;
      }
      if off > 0 {
        x := off + 1;
        off := 0;
      } else {
        x := x + |rmailbox| + 2;
      }
      var emailbox;
      emailbox, err := UnpackName(packet, x);
      rdata := Minfo(rmailbox, emailbox);
    }

    /** The bytes from y up to the next dot, and the index of that dot. */
    static method UntilDot(name: bytes, from: nat) returns (part: bytes, y: nat)
      ensures from > |name| ==> part == [] && y == from
      ensures from <= |name| ==> from <= y <= |name| && part == name[from..y] && Dot(name[from..]) == y - from
    {
      y := from;
      part := [];
      while y < |name| && name[y] != DOT
        invariant from <= |name| ==> from <= y <= |name| && part == name[from..y] && DOT !in part
        invariant from > |name| ==> y == from && part == []
      {
        part := part + [name[y]];
        y := y + 1;
      }
      if from <= |name| {
        assert name[from..][..y - from] == part;
        DotIs(name[from..], y - from);
      }
    }

    /** Splits "service.proto.name" with three loops over one index. */
    static method SplitName(name: bytes) returns (service: bytes, proto: bytes, rest: bytes)
      ensures (service, proto, rest) == SplitService(name)
    {
      hide SplitService;
      var y;
      service, y := UntilDot(name, 0);
      y := y + 1;
      ghost var from := y;
      proto, y := UntilDot(name, y);
      y := y + 1;
      rest := [];
      ghost var from' := y;
      while y < |name|
        invariant from' <= |name| ==> from' <= y <= |name| && rest == name[from'..y]
        invariant from' > |name| ==> y == from' && rest == []
      {
        rest := rest + [name[y]];
        y := y + 1;
      }
      ServiceIs(name, service, from, proto, from', rest);
    }

    method UnpackSRV(packet: Buffer, startIdx: nat) returns (err: Option<Error>)
      requires !ReadSrv(packet.data, name, startIdx).Undefined?
      modifies this`off, this`rdata, packet
      ensures DataIs(ReadSrv(old(packet.data), name, startIdx), err, packet.data)
    {
      hide ReadName, SplitService;
      var x := startIdx;
      var service, proto, svcName := SplitName(name);
      var priority := ReadUint16(packet.data, x);
      x := x + 2;
      var weight := ReadUint16(packet.data, x);
      x := x + 2;
      var port := ReadUint16(packet.data, x);
      x := x + 2;
      OffIrrelevant(packet.data, x, [], 0, off, |packet.data| + 1);
      var target;
      target, err := UnpackName(packet, x);
      rdata := Srv(service, proto, svcName, priority, weight, port, target);
    }

    method UnpackA() returns (err: Option<Error>)
      modifies this`rdata
      ensures err == if rdlen as int != IPV4_SIZE || |raw| != IPV4_SIZE then Some(IPv4Length) else None
      ensures err == None ==> rdata == A(raw)
    {
      if rdlen as int != IPV4_SIZE || |raw| != IPV4_SIZE {
        return Some(IPv4Length);
      }
      rdata := A(raw);
      err := None;
    }

    /** unpackRData for the modelled types. */
    method UnpackRData(packet: Buffer, x: nat) returns (err: Option<Error>)
      requires x + rdlen as int <= |packet.data| && raw == packet.data[x..x + rdlen as int]
      requires !ReadRData(packet.data, rtype, name, x, rdlen as int).Undefined?
      modifies this`off, this`rdata, packet
      ensures DataIs(ReadRData(old(packet.data), rtype, name, x, rdlen as int), err, packet.data)
    {
      hide ReadHost, ReadMx, ReadMinfo, ReadSrv, IsHostType;
      if rtype == TYPE_A {
        err := UnpackA();
      } else if IsHostType(rtype) {
        err := UnpackHost(packet, x);
      } else if rtype == TYPE_WKS {
        var slice := packet.data[x..x + rdlen as int];
        rdata := Wks(slice[0..4], slice[4], slice[5..]);
        err := None;
      } else if rtype == TYPE_MINFO {
        err := UnpackMInfo(packet, x);
      } else if rtype == TYPE_MX {
        err := UnpackMX(packet, x);
      } else {
        err := UnpackSRV(packet, x);
      }
    }

    /** unpack: reads one record from startIdx on and returns the index after it. */
    method Unpack(packet: Buffer, startIdx: nat) returns (x: nat, err: Option<Error>)
      requires name == [] && raw == [] && off == 0
      requires !ReadRecord(packet.data, startIdx).Undefined?
      modifies this, packet
      ensures var r := ReadRecord(old(packet.data), startIdx);
        && err == ErrorOf(r)
        && (r.Ok? ==> Value() == r.value.record && x == r.value.end && packet.data == r.value.packet)
    {
      hide ReadName, ReadAfterName;
      x := startIdx;
      name, err := UnpackName(packet, x);
      if err != None {
        return x, err;
      }
      if off > 0 {
        x := off + 1;
      } else {
        if |name| == 0 {
          x := x + 1;
        } else {
          x := x + |name| + 2;
        }
      }
      x, err := UnpackFields(packet, x);
    }

    /** The part of unpack after the name. */
    method UnpackFields(packet: Buffer, start: nat) returns (x: nat, err: Option<Error>)
      requires raw == [] && !ReadAfterName(packet.data, name, start).Undefined?
      modifies this, packet
      ensures var r := ReadAfterName(old(packet.data), old(name), start);
        && err == ErrorOf(r)
        && (r.Ok? ==> Value() == r.value.record && x == r.value.end && packet.data == r.value.packet)
    {
      hide ReadRData;
      x := start;
      rtype := ReadUint16(packet.data, x);
      x := x + 2;
      class_ := ReadUint16(packet.data, x);
      x := x + 2;
      offTTL := x;
      ttl := ReadUint32(packet.data, x);
      x := x + 4;
      rdlen := ReadUint16(packet.data, x);
      x := x + 2;

      raw := raw + packet.data[x..x + rdlen as int];
      err := UnpackRData(packet, x);
      x := x + rdlen as int;
    }
  }

  lemma ServiceIs(name: bytes, service: bytes, from: nat, proto: bytes, from': nat, rest: bytes)
    requires 0 < from <= |name| + 1 && service == name[0..from - 1] && Dot(name[0..]) == from - 1
    requires if from > |name| then proto == [] && from' == from + 1
      else from < from' <= |name| + 1 && proto == name[from..from' - 1] && Dot(name[from..]) == from' - 1 - from
    requires rest == if from' <= |name| then name[from'..] else []
    ensures SplitService(name) == (service, proto, rest)
  {
    hide Dot;
    assert name[0..] == name && name[..|name|] == name;
    if from <= |name| {
      assert proto == name[from..][..from' - 1 - from];
      assert from' <= |name| ==> rest == name[from..][from' - from..];
    }
  }

  lemma DotIs(name: bytes, y: nat)
    requires y <= |name| && DOT !in name[..y] && (y < |name| ==> name[y] == DOT)
    ensures Dot(name) == y
  {
    assert forall k :: 0 <= k < y ==> name[k] == name[..y][k];
  }

  /** SectionHeader.unpack: flags are raised or lowered in the header that is there. */
  method UnpackHeader(h: Header, packet: bytes) returns (hdr: Header)
    requires |packet| >= HEADER_SIZE
    ensures hdr == ReadHeader(h, packet)
  {
    hide ReadUint16, Mask78;
    var flags, flags1 := packet[2], packet[3];
    var isQuery, isAA, isTC, isRD, isRA := h.isQuery, h.isAA, h.isTC, false, h.isRA;
    if flags >= 0x80 {
      isQuery := false;
    }
    var op := Mask78(flags) / 4;
    if flags / 4 % 2 == 1 {
      isAA := true;
    }
    if flags / 2 % 2 == 1 {
      isTC := true;
    }
    if flags % 2 == 1 {
      isRD := true;
    }
    if flags1 >= 0x80 {
      isRA := true;
    }
    hdr := Header(
      ReadUint16(packet, 0), isQuery, op, isAA, isTC, isRD, isRA, flags1 % 0x10,
      ReadUint16(packet, 4), ReadUint16(packet, 6), ReadUint16(packet, 8), ReadUint16(packet, 10));
  }

  /** SectionQuestion.unpack, on the packet from `base` on. */
  method UnpackQuestion(packet: Buffer, base: nat) returns (q: Question, err: Option<Error>)
    requires base < |packet.data| && !ReadQuestion(packet.data, base).Undefined?
    modifies packet
    ensures var r := ReadQuestion(old(packet.data), base);
      err == ErrorOf(r) && (r.Ok? ==> q == r.value.question && packet.data == r.value.packet)
  {
    hide Lower, Overwrite, ReadLabels;
    q := Question([], 0, 0);
    ghost var target := ReadLabels(packet.data, base + 1, packet.data[base], []);
    var count := packet.data[base];
    var x := base + 1;
    var out := new Buffer([]);
    while true
      invariant |packet.data| == |old(packet.data)| && out != packet
      invariant ReadLabels(packet.data, x, count, out.data) == target
      decreases |packet.data| - x
    {
      LabelsCases(packet.data, x, count, out.data);
      if count == 0 {
        out.AppendByte(DOT);
        count := packet.data[x];
        x := x + 1;
        if x >= |packet.data| {
          return q, Some(InvalidQuestion);
        }
        continue;
      }
      if x + count as int >= |packet.data| {
        return q, Some(InvalidQuestion);
      }
      CopyLabel(packet, x, count, out);
      x := x + count as int;
      count := packet.data[x];
      x := x + 1;
      if count == 0 {
        break;
      }
      if x >= |packet.data| {
        return q, Some(InvalidQuestion);
      }
      out.AppendByte(DOT);
    }
    if x + 4 > |packet.data| {
      return q, Some(InvalidQuestion);
    }
    q := Question(out.data, ReadUint16(packet.data, x), ReadUint16(packet.data, x + 2));
    err := None;
  }

  /** One turn of the loop over the labels of the question. */
  lemma LabelsCases(p: bytes, x: nat, count: byte, out: bytes)
    ensures ReadLabels(p, x, count, out) ==
      if x >= |p| then Undefined
      else if count == 0 then
        if x + 1 >= |p| then Err(InvalidQuestion) else ReadLabels(p, x + 1, p[x], out + [DOT])
      else if x + count as int >= |p| then Err(InvalidQuestion)
      else
        var end: nat := x + count as int;
        var part := Lower(p[x..end]);
        var q := Overwrite(p, x, part);
        if q[end] == 0 then Ok(LabelsRead(out + part, end + 1, q))
        else if end + 1 >= |p| then Err(InvalidQuestion)
        else ReadLabels(q, end + 1, q[end], out + part + [DOT])
  {
    hide Lower, Overwrite;
  }

  /** One of the three loops of Message.Unpack. */
  method UnpackRRs(packet: Buffer, startIdx: nat, count: u16) returns (rrs: seq<Record>, x: nat, err: Option<Error>)
    requires !ReadRecords(packet.data, startIdx, count).Undefined?
    modifies packet
    ensures var r := ReadRecords(old(packet.data), startIdx, count);
      && err == ErrorOf(r)
      && (r.Ok? ==> rrs == r.value.records && x == r.value.end && packet.data == r.value.packet)
  {
    hide ReadRecord;
    x := startIdx;
    rrs := [];
    ghost var target := ReadRecords(packet.data, startIdx, count);
    for i := 0 to count as int
      invariant var r := ReadRecords(packet.data, x, count as int - i);
        match target
        case Ok(t) => r.Ok? && t == r.value.(records := rrs + r.value.records)
        case Err(e) => r == Err(e)
        case Undefined => false
    {
      var rr := new ResourceRecord();
      x, err := rr.Unpack(packet, x);
      if err != None {
        return rrs, x, err;
      }
      rrs := rrs + [rr.Value()];
    }
    err := None;
  }

  /**
   Unpack, into a message without records whose question is still unnamed. It is defined on every packet whose names
   can be followed to an end inside it and whose records are of modelled types.
   */
  method Unpack(msg: Message) returns (err: Option<Error>)
    requires msg.answer == [] && msg.authority == [] && msg.additional == [] && msg.question.name == []
    requires !ReadMessage(msg.header, msg.packet.data).Undefined?
    modifies msg, msg.packet
    ensures var r := ReadMessage(old(msg.header), old(msg.packet.data));
      && err == ErrorOf(r)
      && (r.Ok? ==> msg.Value() == r.value.message && msg.packet.data == r.value.packet)
  {
    hide ReadRecords, ReadQuestion, ReadHeader;
    msg.header := UnpackHeader(msg.header, msg.packet.data);
    if |msg.packet.data| <= HEADER_SIZE {
      return Some(MissingQuestion);
    }
    var question;
    question, err := UnpackQuestion(msg.packet, HEADER_SIZE);
    if err != None {
      return err;
    }
    msg.question := question;

    var x := HEADER_SIZE + QuestionSize(msg.question);
    var rrs;
    rrs, x, err := UnpackRRs(msg.packet, x, msg.header.anCount);
    if err != None {
      return err;
    }
    msg.answer := msg.answer + rrs;

    rrs, x, err := UnpackRRs(msg.packet, x, msg.header.nsCount);
    if err != None {
      return err;
    }
    msg.authority := msg.authority + rrs;

    rrs, x, err := UnpackRRs(msg.packet, x, msg.header.arCount);
    if err != None {
      return err;
    }
    msg.additional := msg.additional + rrs;
  }
}
