/**
 Resource records (RFC 1035, section 4.1.3): what Message.packRR writes and what ResourceRecord.unpack reads.
 */
module DnsRecord {
  import opened Bytes
  import opened DnsName

  const TYPE_A: u16 := 1
  const TYPE_NS: u16 := 2
  const TYPE_CNAME: u16 := 5
  const TYPE_MB: u16 := 7
  const TYPE_MG: u16 := 8
  const TYPE_MR: u16 := 9
  const TYPE_WKS: u16 := 11
  const TYPE_PTR: u16 := 12
  const TYPE_MINFO: u16 := 14
  const TYPE_MX: u16 := 15
  const TYPE_SRV: u16 := 33
  const IPV4_SIZE := 4

  datatype RData =
    | A(address: bytes)
    | Host(value: bytes)
    | Mx(preference: i16, exchange: bytes)
    | Minfo(rmailbox: bytes, emailbox: bytes)
    | Srv(service: bytes, proto: bytes, svcName: bytes, priority: u16, weight: u16, port: u16, target: bytes)
    | Wks(wksAddress: bytes, protocol: byte, bitmap: bytes)

  datatype Record = Record(name: bytes, rtype: u16, class_: u16, ttl: u32, rdata: RData, offTTL: nat)

  /** Types whose data is one domain name. */
  predicate IsHostType(rtype: u16) {
    rtype in {TYPE_NS, TYPE_CNAME, TYPE_MB, TYPE_MG, TYPE_MR, TYPE_PTR}
  }

  /** The data has the kind that the type field announces; the source reads a nil pointer otherwise. */
  predicate TypeMatches(rtype: u16, rd: RData) {
    match rd
    case A(address) => rtype == TYPE_A && |address| == IPV4_SIZE
    case Host(_) => IsHostType(rtype)
    case Mx(_, _) => rtype == TYPE_MX
    case Minfo(_, _) => rtype == TYPE_MINFO
    case Srv(_, _, _, _, _, _, _) => rtype == TYPE_SRV
    case Wks(address, _, _) => rtype == TYPE_WKS && |address| == IPV4_SIZE
  }

  predicate ValidRData(rd: RData) {
    match rd
    case A(_) => true
    case Host(value) => ValidName(value)
    case Mx(_, exchange) => ValidName(exchange)
    case Minfo(rmailbox, emailbox) => ValidName(rmailbox) && ValidName(emailbox)
    case Srv(_, _, _, _, _, _, target) => ValidName(target)
    case Wks(_, _, _) => true
  }

  predicate ValidRecord(rr: Record) {
    ValidName(rr.name) && TypeMatches(rr.rtype, rr.rdata) && ValidRData(rr.rdata)
  }

  // ---------------------------------------------------------------- writing

  /** The data bytes, written from offset `off` on, after the two length bytes. */
  function EncodeRData(t: Table, off: nat, rd: RData): (bytes, Table) {
    match rd
    case A(address) => (address, t)
    case Host(value) => EncodeName(t, off, Lower(value), true)
    case Mx(preference, exchange) =>
      var r := EncodeName(t, off + 2, Lower(exchange), true);
      (Be16(FromI16(preference)) + r.0, r.1)
    case Minfo(rmailbox, emailbox) =>
      var r := EncodeName(t, off, Lower(rmailbox), true);
      var e := EncodeName(r.1, off + |r.0|, Lower(emailbox), true);
      (r.0 + e.0, e.1)
    case Srv(_, _, _, priority, weight, port, target) =>
      var r := EncodeName(t, off + 6, Lower(target), false);
      (Be16(priority) + Be16(weight) + Be16(port) + r.0, r.1)
    case Wks(address, protocol, bitmap) => (address + [protocol] + bitmap, t)
  }

  function Fixed(rr: Record): (r: bytes)
    ensures |r| == 8
  {
    Be16(rr.rtype) + Be16(rr.class_) + Be32(rr.ttl)
  }

  function EncodeRecord(t: Table, off: nat, rr: Record): (bytes, Table) {
    var n := EncodeName(t, off, Lower(rr.name), true);
    var d := EncodeRData(n.1, off + |n.0| + 10, rr.rdata);
    (n.0 + Fixed(rr) + Be16(|d.0| % 0x1_0000) + d.0, d.1)
  }

  function EncodeRecords(t: Table, off: nat, rrs: seq<Record>): (bytes, Table)
    decreases |rrs|
  {
    if rrs == [] then ([], t)
    else
      var r := EncodeRecord(t, off, rrs[0]);
      var rest := EncodeRecords(r.1, off + |r.0|, rrs[1..]);
      (r.0 + rest.0, rest.1)
  }

  /** Every pointer written for the data, or for a record, is to an offset that its 14 bits can hold. */
  predicate ShortRData(t: Table, off: nat, rd: RData) {
    match rd
    case Host(value) => Short(t, off, Lower(value), true)
    case Mx(_, exchange) => Short(t, off + 2, Lower(exchange), true)
    case Minfo(rmailbox, emailbox) =>
      var r := EncodeName(t, off, Lower(rmailbox), true);
      Short(t, off, Lower(rmailbox), true) && Short(r.1, off + |r.0|, Lower(emailbox), true)
    case _ => true
  }

  predicate ShortRecord(t: Table, off: nat, rr: Record) {
    var n := EncodeName(t, off, Lower(rr.name), true);
    Short(t, off, Lower(rr.name), true) && ShortRData(n.1, off + |n.0| + 10, rr.rdata)
  }

  predicate ShortRecords(t: Table, off: nat, rrs: seq<Record>)
    decreases |rrs|
  {
    rrs != [] ==>
      var r := EncodeRecord(t, off, rrs[0]);
      ShortRecord(t, off, rrs[0]) && ShortRecords(r.1, off + |r.0|, rrs[1..])
  }

  // ---------------------------------------------------------------- reading

  /** The parts of "service.proto.name": up to the first dot, up to the second, and what remains. */
  function SplitService(name: bytes): (bytes, bytes, bytes) {
    var i := Dot(name);
    if i == |name| then (name, [], [])
    else
      var rest := name[i + 1..];
      var j := Dot(rest);
      (name[..i], rest[..j], if j == |rest| then [] else rest[j + 1..])
  }

  /** Data read, and the packet with its names lower-cased. */
  datatype DataRead = DataRead(rdata: RData, packet: bytes)

  function ReadHost(p: bytes, x: nat): Outcome<DataRead> {
    match ReadName(p, x, [], 0, |p| + 1)
    case Ok(n) => Ok(DataRead(Host(n.out), n.packet))
    case Err(e) => Err(e)
    case Undefined => Undefined
  }

  function ReadMx(p: bytes, x: nat): Outcome<DataRead> {
    if x + 2 > |p| then Undefined
    else
      match ReadName(p, x + 2, [], 0, |p| + 1)
      case Ok(n) => Ok(DataRead(Mx(ReadInt16(p, x), n.out), n.packet))
      case Err(e) => Err(e)
      case Undefined => Undefined
  }

  /** Unlike the record's own name, an empty first mailbox is stepped over as if it took two bytes. */
  function MailboxEnd(x: nat, off: nat, nameLen: nat): nat {
    if off > 0 then off + 1 else x + nameLen + 2
  }

  function ReadMinfo(p: bytes, x: nat): Outcome<DataRead> {
    match ReadName(p, x, [], 0, |p| + 1)
    case Err(e) => Err(e)
    case Undefined => Undefined
    case Ok(r) =>
      match ReadName(r.packet, MailboxEnd(x, r.off, |r.out|), [], 0, |p| + 1)
      case Ok(e) => Ok(DataRead(Minfo(r.out, e.out), e.packet))
      case Err(e) => Err(e)
      case Undefined => Undefined
  }

  function ReadSrv(p: bytes, name: bytes, x: nat): Outcome<DataRead> {
    if x + 6 > |p| then Undefined
    else
      match ReadName(p, x + 6, [], 0, |p| + 1)
      case Ok(n) =>
        var s := SplitService(name);
        Ok(DataRead(Srv(s.0, s.1, s.2, ReadUint16(p, x), ReadUint16(p, x + 2), ReadUint16(p, x + 4), n.out), n.packet))
      case Err(e) => Err(e)
      case Undefined => Undefined
  }

  function ReadRData(p: bytes, rtype: u16, name: bytes, x: nat, rdlen: nat): Outcome<DataRead>
    requires x + rdlen <= |p|
  {
    var raw := p[x..x + rdlen];
    if rtype == TYPE_A then
      if rdlen != IPV4_SIZE then Err(IPv4Length) else Ok(DataRead(A(raw), p))
    else if IsHostType(rtype) then ReadHost(p, x)
    else if rtype == TYPE_WKS then
      if rdlen < 5 then Undefined else Ok(DataRead(Wks(raw[..4], raw[4], raw[5..]), p))
    else if rtype == TYPE_MINFO then ReadMinfo(p, x)
    else if rtype == TYPE_MX then ReadMx(p, x)
    else if rtype == TYPE_SRV then ReadSrv(p, name, x)
    else Undefined
  }

  /** A record, the offset after it, and the packet with the record's names lower-cased. */
  datatype RecordRead = RecordRead(record: Record, end: nat, packet: bytes)

  function ReadRecord(p: bytes, start: nat): Outcome<RecordRead> {
    match ReadName(p, start, [], 0, |p| + 1)
    case Err(e) => Err(e)
    case Undefined => Undefined
    case Ok(n) => ReadAfterName(n.packet, n.out, NameEnd(start, n.off, |n.out|))
  }

  function ReadAfterName(q: bytes, name: bytes, x: nat): Outcome<RecordRead> {
    if x + 10 > |q| then Undefined
    else
      var rdlen := ReadUint16(q, x + 8);
      if x + 10 + rdlen > |q| then Undefined
      else
        match ReadRData(q, ReadUint16(q, x), name, x + 10, rdlen)
        case Err(e) => Err(e)
        case Undefined => Undefined
        case Ok(d) =>
          Ok(RecordRead(
            Record(name, ReadUint16(q, x), ReadUint16(q, x + 2), ReadUint32(q, x + 4), d.rdata, x + 4),
            x + 10 + rdlen, d.packet))
  }

  datatype RecordsRead = RecordsRead(records: seq<Record>, end: nat, packet: bytes)

  function ReadRecords(p: bytes, start: nat, count: nat): Outcome<RecordsRead>
    decreases count
  {
    if count == 0 then Ok(RecordsRead([], start, p))
    else
      match ReadRecord(p, start)
      case Err(e) => Err(e)
      case Undefined => Undefined
      case Ok(r) =>
        match ReadRecords(r.packet, r.end, count - 1)
        case Err(e) => Err(e)
        case Undefined => Undefined
        case Ok(rest) => Ok(RecordsRead([r.record] + rest.records, rest.end, rest.packet))
  }

  // ---------------------------------------------------------------- round trip

  /** The data as packing leaves it: packDomainName lower-cases the names it is given in place. */
  function LowerRData(rd: RData): RData {
    match rd
    case A(_) => rd
    case Host(value) => Host(Lower(value))
    case Mx(preference, exchange) => Mx(preference, Lower(exchange))
    case Minfo(rmailbox, emailbox) => Minfo(Lower(rmailbox), Lower(emailbox))
    case Srv(service, proto, svcName, priority, weight, port, target) =>
      Srv(service, proto, svcName, priority, weight, port, Lower(target))
    case Wks(_, _, _) => rd
  }

  /** On the wire only the record's name carries the service, protocol and name of an SRV record. */
  function WithService(rd: RData, name: bytes): RData {
    match rd
    case Srv(_, _, _, priority, weight, port, target) =>
      var s := SplitService(name);
      Srv(s.0, s.1, s.2, priority, weight, port, target)
    case _ => rd
  }

  /** The record as packing leaves it, with the offset of its TTL field. */
  function Lowered(rr: Record, offTTL: nat): Record {
    rr.(name := Lower(rr.name), rdata := LowerRData(rr.rdata), offTTL := offTTL)
  }

  /** The record as it is read back. */
  function Normal(rr: Record): Record {
    rr.(rdata := WithService(rr.rdata, rr.name))
  }

  /** Every entry of the table is written at its offset in the finished packet, before `hi`. */
  ghost predicate Sound(p: bytes, hi: nat, t: Table) {
    forall k :: k in t ==> t[k] < hi && Segment(p, t[k], t[k], hi, k)
  }

  lemma {:induction false} SoundAfterName(p: bytes, hi: nat, hi': nat, t: Table, t': Table, len: nat)
    requires Sound(p, hi, t) && hi <= hi' <= |p|
    requires TableOk(p, hi', t', len) && SameAbove(t, t', len)
    ensures Sound(p, hi', t')
  {
    hide Segment;
    forall k | k in t' ensures t'[k] < hi' && Segment(p, t'[k], t'[k], hi', k) {
      if |k| > len {
        SegmentWiden(p, t[k], t[k], t[k], hi, hi', k);
      }
    }
  }

  lemma {:induction false} SoundWiden(p: bytes, hi: nat, hi': nat, t: Table)
    requires Sound(p, hi, t) && hi <= hi' <= |p|
    ensures Sound(p, hi', t)
  {
    hide Segment;
    SoundAfterName(p, hi, hi', t, map[], 0);
    forall k | k in t ensures Segment(p, t[k], t[k], hi', k) {
      SegmentWiden(p, t[k], t[k], t[k], hi, hi', k);
    }
  }

  ghost predicate At(p: bytes, x: nat, part: bytes) {
    x + |part| <= |p| && p[x..x + |part|] == part
  }

  lemma AtParts(p: bytes, x: nat, a: bytes, b: bytes)
    requires At(p, x, a + b)
    ensures At(p, x, a) && At(p, x + |a|, b)
  {
    SubSlice(p, x, a + b, 0, |a|);
    SubSlice(p, x, a + b, |a|, |a| + |b|);
    SplitAt(a, b, a + b);
  }

  /** `x` reads as the name `name` ending at `end`. */
  ghost predicate ReadsName(p: bytes, x: nat, name: bytes, end: nat) {
    var r := ReadName(p, x, [], 0, |p| + 1);
    && r.Ok? && r.value.out == name && r.value.packet == p
    && NameEnd(x, r.value.off, |name|) == MailboxEnd(x, r.value.off, |name|) == end
  }

  /** A written name, wherever it stands, is read back in lower case with its end; the table stays sound. */
  lemma {:induction false} NameRoundTrip(p: bytes, t: Table, x: nat, name: bytes, compress: bool)
    requires ValidName(name) && Reach(p, Short(t, x, Lower(name), compress))
    requires Sound(p, x, t)
    requires At(p, x, EncodeName(t, x, Lower(name), compress).0)
    ensures var (e, t') := EncodeName(t, x, Lower(name), compress);
      ReadsName(p, x, Lower(name), x + |e|) && Sound(p, x + |e|, t')
  {
    hide Short, Segment, EncodeName, ReadName, Lower, PointerOff;
    var n := Lower(name);
    LowerValid(name);
    LowerIdempotent(name);
    EncodeNameCorrect(p, t, x, x, n, compress);
    var (e, t') := EncodeName(t, x, n, compress);
    ReadSegment(p, x, x, x + |e|, n, [], 0, |p| + 1);
    SoundAfterName(p, x, x + |e|, t, t', |n|);
  }

  lemma {:induction false} HostRoundTrip(p: bytes, t: Table, x: nat, rtype: u16, rd: RData, name: bytes)
    requires IsHostType(rtype) && rd.Host? && ValidRData(rd) && Reach(p, ShortRData(t, x, rd)) && Sound(p, x, t)
    requires At(p, x, EncodeRData(t, x, rd).0)
    ensures DataRoundTrips(p, t, x, rtype, rd, name)
  {
    hide Short, EncodeName, ReadName, Lower, Sound;
    NameRoundTrip(p, t, x, rd.value, true);
  }

  lemma {:induction false} MxRoundTrip(p: bytes, t: Table, x: nat, rtype: u16, rd: RData, name: bytes)
    requires rtype == TYPE_MX && rd.Mx? && ValidRData(rd) && Reach(p, ShortRData(t, x, rd)) && Sound(p, x, t)
    requires At(p, x, EncodeRData(t, x, rd).0)
    ensures DataRoundTrips(p, t, x, rtype, rd, name)
  {
    hide Short, EncodeName, ReadName, Lower, Sound, Be16;
    AtParts(p, x, Be16(FromI16(rd.preference)), EncodeName(t, x + 2, Lower(rd.exchange), true).0);
    ReadBack16(p, x, FromI16(rd.preference));
    SoundWiden(p, x, x + 2, t);
    NameRoundTrip(p, t, x + 2, rd.exchange, true);
  }

  lemma {:induction false} MinfoRoundTrip(p: bytes, t: Table, x: nat, rtype: u16, rd: RData, name: bytes)
    requires rtype == TYPE_MINFO && rd.Minfo? && ValidRData(rd) && Reach(p, ShortRData(t, x, rd)) && Sound(p, x, t)
    requires At(p, x, EncodeRData(t, x, rd).0)
    ensures DataRoundTrips(p, t, x, rtype, rd, name)
  {
    hide Short, EncodeName, ReadName, Lower, Sound;
    var (r, t1) := EncodeName(t, x, Lower(rd.rmailbox), true);
    AtParts(p, x, r, EncodeName(t1, x + |r|, Lower(rd.emailbox), true).0);
    NameRoundTrip(p, t, x, rd.rmailbox, true);
    NameRoundTrip(p, t1, x + |r|, rd.emailbox, true);
  }

  lemma ThreeNumbers(p: bytes, x: nat, a: u16, b: u16, c: u16)
    requires At(p, x, Be16(a) + Be16(b) + Be16(c))
    ensures x + 6 <= |p| && ReadUint16(p, x) == a && ReadUint16(p, x + 2) == b && ReadUint16(p, x + 4) == c
  {
    hide Be16, ReadUint16;
    AtParts(p, x, Be16(a) + Be16(b), Be16(c));
    AtParts(p, x, Be16(a), Be16(b));
    ReadBack16(p, x, a);
    ReadBack16(p, x + 2, b);
    ReadBack16(p, x + 4, c);
  }

  lemma ReachOther(p: bytes, short: bool, short': bool)
    requires Reach(p, short) && (short ==> short')
    ensures Reach(p, short')
  {
  }

  lemma {:induction false} SrvRoundTrip(p: bytes, t: Table, x: nat, rtype: u16, rd: RData, name: bytes)
    requires rtype == TYPE_SRV && rd.Srv? && ValidRData(rd) && Reach(p, ShortRData(t, x, rd)) && Sound(p, x, t)
    requires At(p, x, EncodeRData(t, x, rd).0)
    ensures DataRoundTrips(p, t, x, rtype, rd, name)
  {
    hide Short, EncodeName, ReadName, Lower, Sound, Be16, SplitService, Reach;
    var n := EncodeName(t, x + 6, Lower(rd.target), false).0;
    AtParts(p, x, Be16(rd.priority) + Be16(rd.weight) + Be16(rd.port), n);
    ThreeNumbers(p, x, rd.priority, rd.weight, rd.port);
    SoundWiden(p, x, x + 6, t);
    ShortUncompressed(t, x + 6, Lower(rd.target));
    ReachOther(p, ShortRData(t, x, rd), Short(t, x + 6, Lower(rd.target), false));
    NameRoundTrip(p, t, x + 6, rd.target, false);
  }

  ghost predicate DataRoundTrips(p: bytes, t: Table, x: nat, rtype: u16, rd: RData, name: bytes)
    requires At(p, x, EncodeRData(t, x, rd).0)
  {
    var (d, t') := EncodeRData(t, x, rd);
    && ReadRData(p, rtype, name, x, |d|) == Ok(DataRead(WithService(LowerRData(rd), name), p))
    && Sound(p, x + |d|, t')
  }

  lemma {:induction false} WksRoundTrip(p: bytes, t: Table, x: nat, rtype: u16, rd: RData, name: bytes)
    requires TypeMatches(rtype, rd) && (rd.Wks? || rd.A?) && Sound(p, x, t)
    requires At(p, x, EncodeRData(t, x, rd).0)
    ensures DataRoundTrips(p, t, x, rtype, rd, name)
  {
    hide Sound;
    var d := EncodeRData(t, x, rd).0;
    SoundWiden(p, x, x + |d|, t);
    if rd.Wks? {
      assert d[..4] == rd.wksAddress && d[4] == rd.protocol && d[5..] == rd.bitmap;
    }
  }

  lemma {:induction false} RDataRoundTrip(p: bytes, t: Table, x: nat, rtype: u16, rd: RData, name: bytes)
    requires TypeMatches(rtype, rd) && ValidRData(rd) && Reach(p, ShortRData(t, x, rd)) && Sound(p, x, t)
    requires At(p, x, EncodeRData(t, x, rd).0)
    ensures DataRoundTrips(p, t, x, rtype, rd, name)
  {
    hide DataRoundTrips, Sound;
    match rd
    case A(_) => WksRoundTrip(p, t, x, rtype, rd, name);
    case Host(_) => HostRoundTrip(p, t, x, rtype, rd, name);
    case Mx(_, _) => MxRoundTrip(p, t, x, rtype, rd, name);
    case Minfo(_, _) => MinfoRoundTrip(p, t, x, rtype, rd, name);
    case Srv(_, _, _, _, _, _, _) => SrvRoundTrip(p, t, x, rtype, rd, name);
    case Wks(_, _, _) => WksRoundTrip(p, t, x, rtype, rd, name);
  }

  /** The offset of the TTL field of a record written at x. */
  function OffTTL(t: Table, x: nat, rr: Record): nat {
    x + |EncodeName(t, x, Lower(rr.name), true).0| + 4
  }

  lemma FixedFields(p: bytes, x: nat, rr: Record)
    requires At(p, x, Fixed(rr))
    ensures ReadUint16(p, x) == rr.rtype && ReadUint16(p, x + 2) == rr.class_ && ReadUint32(p, x + 4) == rr.ttl
  {
    hide Be16, Be32;
    AtParts(p, x, Be16(rr.rtype) + Be16(rr.class_), Be32(rr.ttl));
    AtParts(p, x, Be16(rr.rtype), Be16(rr.class_));
    ReadBack16(p, x, rr.rtype);
    ReadBack16(p, x + 2, rr.class_);
    ReadBack32(p, x + 4, rr.ttl);
  }

  lemma ReachSize(p: bytes, short: bool)
    requires Reach(p, short)
    ensures |p| <= 0x1_0000
  {
  }

  lemma {:induction false} FieldsRoundTrip(p: bytes, t: Table, y: nat, rr: Record, name: bytes)
    requires TypeMatches(rr.rtype, rr.rdata) && ValidRData(rr.rdata) && Reach(p, ShortRData(t, y + 10, rr.rdata)) && Sound(p, y, t)
    requires var d := EncodeRData(t, y + 10, rr.rdata).0; At(p, y, Fixed(rr) + Be16(|d| % 0x1_0000) + d)
    ensures var (d, t') := EncodeRData(t, y + 10, rr.rdata);
      && ReadAfterName(p, name, y) == Ok(RecordRead(
           Record(name, rr.rtype, rr.class_, rr.ttl, WithService(LowerRData(rr.rdata), name), y + 4), y + 10 + |d|, p))
      && Sound(p, y + 10 + |d|, t')
  {
    hide ShortRData, EncodeRData, ReadRData, Sound, Be16, Fixed, LowerRData, WithService, TypeMatches, ValidRData, Reach;
    ReachSize(p, ShortRData(t, y + 10, rr.rdata));
    var d := EncodeRData(t, y + 10, rr.rdata).0;
    AtParts(p, y, Fixed(rr) + Be16(|d| % 0x1_0000), d);
    AtParts(p, y, Fixed(rr), Be16(|d| % 0x1_0000));
    FixedFields(p, y, rr);
    ReadBack16(p, y + 8, |d|);
    SoundWiden(p, y, y + 10, t);
    RDataRoundTrip(p, t, y + 10, rr.rtype, rr.rdata, name);
  }

  /** A record written at x in the finished packet is read back there, and the reader ends where the writer did. */
  lemma {:induction false} RecordRoundTrip(p: bytes, t: Table, x: nat, rr: Record)
    requires ValidRecord(rr) && Reach(p, ShortRecord(t, x, rr)) && Sound(p, x, t)
    requires At(p, x, EncodeRecord(t, x, rr).0)
    ensures var (e, t') := EncodeRecord(t, x, rr);
      && ReadRecord(p, x) == Ok(RecordRead(Normal(Lowered(rr, OffTTL(t, x, rr))), x + |e|, p))
      && Sound(p, x + |e|, t')
  {
    hide Short, ShortRData, EncodeName, EncodeRData, ReadName, ReadAfterName, Lower, Sound, Be16, Fixed, LowerRData, WithService;
    var (n, t1) := EncodeName(t, x, Lower(rr.name), true);
    var d := EncodeRData(t1, x + |n| + 10, rr.rdata).0;
    var fields := Fixed(rr) + Be16(|d| % 0x1_0000) + d;
    assert n + Fixed(rr) + Be16(|d| % 0x1_0000) + d == n + fields;
    AtParts(p, x, n, fields);
    NameRoundTrip(p, t, x, rr.name, true);
    FieldsRoundTrip(p, t1, x + |n|, rr, Lower(rr.name));
  }

  predicate ValidRecords(rrs: seq<Record>) {
    forall i :: 0 <= i < |rrs| ==> ValidRecord(rrs[i])
  }

  /** The records as packing leaves them: in lower case, each with the offset of its TTL. */
  function PackedRecords(t: Table, off: nat, rrs: seq<Record>): (r: seq<Record>)
    ensures |r| == |rrs|
    decreases |rrs|
  {
    if rrs == [] then []
    else
      var (e, t') := EncodeRecord(t, off, rrs[0]);
      [Lowered(rrs[0], OffTTL(t, off, rrs[0]))] + PackedRecords(t', off + |e|, rrs[1..])
  }

  function NormalRecords(rrs: seq<Record>): (r: seq<Record>)
    ensures |r| == |rrs|
  {
    seq(|rrs|, i requires 0 <= i < |rrs| => Normal(rrs[i]))
  }

  lemma {:induction false} RecordsRoundTrip(p: bytes, t: Table, x: nat, rrs: seq<Record>)
    requires ValidRecords(rrs) && Reach(p, ShortRecords(t, x, rrs)) && x <= |p| && Sound(p, x, t)
    requires At(p, x, EncodeRecords(t, x, rrs).0)
    ensures var (e, t') := EncodeRecords(t, x, rrs);
      && ReadRecords(p, x, |rrs|) == Ok(RecordsRead(NormalRecords(PackedRecords(t, x, rrs)), x + |e|, p))
      && Sound(p, x + |e|, t')
    decreases |rrs|
  {
    hide ShortRecord, EncodeRecord, ReadRecord, Sound, ValidRecord, Normal, Lowered, OffTTL;
    if rrs != [] {
      var (r, t1) := EncodeRecord(t, x, rrs[0]);
      AtParts(p, x, r, EncodeRecords(t1, x + |r|, rrs[1..]).0);
      RecordRoundTrip(p, t, x, rrs[0]);
      RecordsRoundTrip(p, t1, x + |r|, rrs[1..]);
      var head, tail := Lowered(rrs[0], OffTTL(t, x, rrs[0])), PackedRecords(t1, x + |r|, rrs[1..]);
      assert NormalRecords([head] + tail) == [Normal(head)] + NormalRecords(tail);
    }
  }
}
