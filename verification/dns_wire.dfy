/**
 Whole messages (RFC 1035, section 4.1): header, question and three record lists, as Message.Pack writes them and
 Message.Unpack reads them, and the time-to-live fields that Message.SubTTL rewrites inside the packet.
 */
module DnsWire {
  import opened Bytes
  import opened DnsName
  import opened DnsRecord

  const HEADER_SIZE := 12
  const TYPE_OPT: u16 := 41

  datatype Header = Header(
    id: u16, isQuery: bool, op: byte, isAA: bool, isTC: bool, isRD: bool, isRA: bool, rcode: byte,
    qdCount: u16, anCount: u16, nsCount: u16, arCount: u16)

  datatype Question = Question(name: bytes, qtype: u16, qclass: u16)

  datatype MessageValue = MessageValue(
    header: Header, question: Question, answer: seq<Record>, authority: seq<Record>, additional: seq<Record>)

  // ---------------------------------------------------------------- header

  function Bit(b: bool, value: byte): byte {
    if b then value else 0
  }

  /** b & 0x78 */
  function Mask78(b: byte): byte {
    b % 0x80 / 8 * 8
  }

  /** Third byte: response flag, opcode, and the flags AA, TC and RD. */
  function Flags0(h: Header): byte {
    Bit(!h.isQuery, 0x80) + Mask78(h.op as int * 4 % 0x100) + Bit(h.isRD, 1)
    + Bit(!h.isQuery && h.isAA, 4) + Bit(!h.isQuery && h.isTC, 2)
  }

  /** Fourth byte: the flag RA and the response code. */
  function Flags1(h: Header): byte {
    Bit(!h.isQuery && h.isRA, 0x80) + if h.isQuery then 0 else h.rcode % 0x10
  }

  function EncodeHeader(h: Header): (r: bytes)
    ensures |r| == HEADER_SIZE
  {
    Be16(h.id) + [Flags0(h), Flags1(h)] + Be16(h.qdCount) + Be16(h.anCount) + Be16(h.nsCount) + Be16(h.arCount)
  }

  /** Reading into the header `h`: some flags are only ever raised, and IsQuery is only ever lowered. */
  function ReadHeader(h: Header, p: bytes): Header
    requires |p| >= HEADER_SIZE
  {
    Header(
      ReadUint16(p, 0),
      h.isQuery && p[2] < 0x80,
      Mask78(p[2]) / 4,
      h.isAA || p[2] / 4 % 2 == 1,
      h.isTC || p[2] / 2 % 2 == 1,
      p[2] % 2 == 1,
      h.isRA || p[3] >= 0x80,
      p[3] % 0x10,
      ReadUint16(p, 4), ReadUint16(p, 6), ReadUint16(p, 8), ReadUint16(p, 10))
  }

  /** The header of NewMessage. */
  const FRESH_HEADER := Header(0, true, 0, false, false, true, false, 0, 1, 0, 0, 0)

  /** What survives of a header on the wire. */
  function NormalHeader(h: Header): Header {
    h.(op := h.op % 0x20 / 2 * 2,
       isAA := !h.isQuery && h.isAA, isTC := !h.isQuery && h.isTC, isRA := !h.isQuery && h.isRA,
       rcode := if h.isQuery then 0 else h.rcode % 0x10)
  }

  lemma FlagsRoundTrip(h: Header)
    ensures var f := Flags0(h);
      && (f < 0x80 <==> h.isQuery)
      && Mask78(f) / 4 == NormalHeader(h).op
      && (f / 4 % 2 == 1 <==> !h.isQuery && h.isAA)
      && (f / 2 % 2 == 1 <==> !h.isQuery && h.isTC)
      && (f % 2 == 1 <==> h.isRD)
    ensures Flags1(h) >= 0x80 <==> !h.isQuery && h.isRA
    ensures Flags1(h) % 0x10 == NormalHeader(h).rcode
  {
    hide Mask78;
    OpcodeBits(h.op);
    FlagByte(!h.isQuery, h.op % 0x20 / 2, !h.isQuery && h.isAA, !h.isQuery && h.isTC, h.isRD);
  }

  /** (op << 2) & 0x78 keeps bits 1 to 4 of the opcode. */
  lemma OpcodeBits(op: byte)
    ensures Mask78(op as int * 4 % 0x100) as int == op as int % 0x20 / 2 * 8
  {
    var o: nat := op as int;
    ModMod(o * 4);
    OpcodeParts(o);
    ShiftedBits(o / 0x20, o % 0x20 / 2, o % 2);
  }

  lemma OpcodeParts(o: nat)
    requires o < 0x100
    ensures o / 0x20 < 8 && o % 0x20 / 2 < 0x10 && o == o / 0x20 * 0x20 + o % 0x20 / 2 * 2 + o % 2
  {
  }

  lemma Remains(x: nat, q: nat, r: nat)
    requires x == 0x80 * q + r && r < 0x80
    ensures x % 0x80 == r
  {
  }

  lemma ModMod(x: nat)
    ensures x % 0x100 % 0x80 == x % 0x80
  {
    var q, r := x / 0x100, x % 0x100;
    Remains(x, 2 * q + r / 0x80, r % 0x80);
  }

  lemma ShiftedBits(q: nat, m: nat, s: nat)
    requires q < 8 && m < 0x10 && s < 2
    ensures (q * 0x20 + m * 2 + s) * 4 % 0x80 / 8 * 8 == m * 8
  {
    assert (q * 0x20 + m * 2 + s) * 4 % 0x80 == m * 8 + s * 4;
  }

  lemma FlagByte(response: bool, m: nat, aa: bool, tc: bool, rd: bool)
    requires m < 0x10
    ensures var f := Bit(response, 0x80) as int + m * 8 + Bit(rd, 1) as int + Bit(aa, 4) as int + Bit(tc, 2) as int;
      && f < 0x100 && Mask78(f) as int == m * 8
      && (f >= 0x80 <==> response) && (f / 4 % 2 == 1 <==> aa) && (f / 2 % 2 == 1 <==> tc) && (f % 2 == 1 <==> rd)
  {
    FlagBits(Bit(response, 1) as int, m, Bit(aa, 1) as int, Bit(tc, 1) as int, Bit(rd, 1) as int);
  }

  lemma FlagBits(r: nat, m: nat, a: nat, c: nat, d: nat)
    requires r < 2 && m < 0x10 && a < 2 && c < 2 && d < 2
    ensures var f := r * 0x80 + m * 8 + a * 4 + c * 2 + d;
      f < 0x100 && (f >= 0x80 <==> r == 1) && f % 0x80 / 8 == m && f / 4 % 2 == a && f / 2 % 2 == c && f % 2 == d
  {
    var f := r * 0x80 + m * 8 + a * 4 + c * 2 + d;
    Quotient(f, 2, r * 0x40 + m * 4 + a * 2 + c, d);
    Quotient(f, 4, r * 0x20 + m * 2 + a, c * 2 + d);
    Quotient(f, 0x80, r, m * 8 + a * 4 + c * 2 + d);
    Quotient(m * 8 + a * 4 + c * 2 + d, 8, m, a * 4 + c * 2 + d);
    Quotient(r * 0x40 + m * 4 + a * 2 + c, 2, r * 0x20 + m * 2 + a, c);
    Quotient(r * 0x20 + m * 2 + a, 2, r * 0x10 + m, a);
  }

  lemma Quotient(f: nat, k: nat, q: nat, r: nat)
    requires k in {2, 4, 8, 0x80} && f == q * k + r && r < k
    ensures f / k == q && f % k == r
  {
  }

  lemma HeaderRoundTrip(h: Header, p: bytes)
    requires At(p, 0, EncodeHeader(h))
    ensures ReadHeader(FRESH_HEADER, p) == NormalHeader(h)
  {
    hide Flags0, Flags1, NormalHeader, Mask78, Be16;
    var flags := [Flags0(h), Flags1(h)];
    AtParts(p, 0, Be16(h.id) + flags + Be16(h.qdCount) + Be16(h.anCount) + Be16(h.nsCount), Be16(h.arCount));
    AtParts(p, 0, Be16(h.id) + flags + Be16(h.qdCount) + Be16(h.anCount), Be16(h.nsCount));
    AtParts(p, 0, Be16(h.id) + flags + Be16(h.qdCount), Be16(h.anCount));
    AtParts(p, 0, Be16(h.id) + flags, Be16(h.qdCount));
    AtParts(p, 0, Be16(h.id), flags);
    ReadBack16(p, 0, h.id);
    ReadBack16(p, 4, h.qdCount);
    ReadBack16(p, 6, h.anCount);
    ReadBack16(p, 8, h.nsCount);
    ReadBack16(p, 10, h.arCount);
    SubSlice(p, 2, flags, 0, 2);
    SubSlice(p, 2, flags, 1, 2);
    HeaderFields(h, p);
  }

  lemma HeaderFields(h: Header, p: bytes)
    requires |p| >= HEADER_SIZE && p[2] == Flags0(h) && p[3] == Flags1(h)
    requires ReadUint16(p, 0) == h.id && ReadUint16(p, 4) == h.qdCount && ReadUint16(p, 6) == h.anCount
    requires ReadUint16(p, 8) == h.nsCount && ReadUint16(p, 10) == h.arCount
    ensures ReadHeader(FRESH_HEADER, p) == NormalHeader(h)
  {
    hide Flags0, Flags1, Mask78, ReadUint16;
    FlagsRoundTrip(h);
  }

  /** A header comes back unchanged exactly when its opcode is even and fits, its response code fits, and a query
      carries none of the fields that only responses have. */
  lemma HeaderKept(h: Header)
    ensures ReadHeader(FRESH_HEADER, EncodeHeader(h)) == h
       <==> h.op % 2 == 0 && h.op < 0x20 && h.rcode < 0x10
            && (h.isQuery ==> !h.isAA && !h.isTC && !h.isRA && h.rcode == 0)
  {
    hide EncodeHeader, ReadHeader;
    HeaderRoundTrip(h, EncodeHeader(h));
  }

  /** An inverse query (opcode 1) is packed and read back as an ordinary one. */
  lemma InverseQueryLost()
    ensures var h := FRESH_HEADER.(op := 1);
      ReadHeader(FRESH_HEADER, EncodeHeader(h)) == FRESH_HEADER != h
  {
    hide EncodeHeader, ReadHeader;
    var h := FRESH_HEADER.(op := 1);
    HeaderRoundTrip(h, EncodeHeader(h));
  }

  // ---------------------------------------------------------------- question

  datatype LabelsRead = LabelsRead(out: bytes, end: nat, packet: bytes)

  /** The labels of the question from x on, where `count` is the length byte just read. */
  function ReadLabels(p: bytes, x: nat, count: byte, out: bytes): (r: Outcome<LabelsRead>)
    ensures r.Ok? ==> |r.value.packet| == |p|
    decreases |p| - x
  {
    if x >= |p| then Undefined
    else if count == 0 then
      if x + 1 >= |p| then Err(InvalidQuestion) else ReadLabels(p, x + 1, p[x], out + [DOT])
    else if x + count as int >= |p| then Err(InvalidQuestion)
    else
      var end: nat := x + count as int;
      var part := Lower(p[x..end]);
      var q := Overwrite(p, x, part);
      if q[end] == 0 then Ok(LabelsRead(out + part, end + 1, q))
      else if end + 1 >= |p| then Err(InvalidQuestion)
      else ReadLabels(q, end + 1, q[end], out + part + [DOT])
  }

  datatype QuestionRead = QuestionRead(question: Question, packet: bytes)

  function ReadQuestion(p: bytes, x: nat): (r: Outcome<QuestionRead>)
    requires x < |p|
    ensures r.Ok? ==> |r.value.packet| == |p|
  {
    match ReadLabels(p, x + 1, p[x], [])
    case Err(e) => Err(e)
    case Undefined => Undefined
    case Ok(n) =>
      if n.end + 4 > |p| then Err(InvalidQuestion)
      else
        Ok(QuestionRead(Question(n.out, ReadUint16(n.packet, n.end), ReadUint16(n.packet, n.end + 2)), n.packet))
  }

  /** The size of the question as the reader computes it from the name. */
  function QuestionSize(q: Question): nat {
    |q.name| + 6
  }

  function EncodeQuestion(q: Question): bytes {
    EncodeName(map[], HEADER_SIZE, Lower(q.name), false).0 + Be16(q.qtype) + Be16(q.qclass)
  }

  /** An uncompressed name is its labels, and two bytes longer than the name. */
  lemma {:induction false} UncompressedLength(t: Table, x: nat, name: bytes)
    requires ValidName(name)
    ensures |EncodeName(t, x, name, false).0| == |name| + 2
    decreases |name|
  {
    hide Dot;
    EncodeNameCases(t, x, name, false);
    var i := Dot(name);
    if i < |name| {
      UncompressedLength(t[name := x % 0x1_0000], x + 1 + i, name[i + 1..]);
    }
  }

  lemma {:induction false} LabelsRoundTrip(p: bytes, t: Table, x: nat, name: bytes, out: bytes)
    requires ValidName(name) && Lower(name) == name
    requires At(p, x, EncodeName(t, x, name, false).0) && x + |name| + 2 < |p|
    ensures ReadLabels(p, x + 1, p[x], out) == Ok(LabelsRead(out + name, x + |name| + 2, p))
    decreases |name|
  {
    hide Dot, EncodeName, ReadLabels, Lower, ValidName;
    EncodeNameCases(t, x, name, false);
    UncompressedLength(t, x, name);
    var i := Dot(name);
    LowerSplit(name, i);
    if i < |name| {
      LowerSplit(name, i + 1);
      FirstLabel(p, t, x, name);
      LabelsStep(p, x, name[..i], out);
      LabelsRoundTrip(p, t[name := x % 0x1_0000], x + 1 + i, name[i + 1..], out + name[..i] + [DOT]);
      Rejoin(out, name, i);
    } else {
      LastLabel(p, t, x, name);
      LabelsStep(p, x, name, out);
    }
  }

  lemma {:induction false} LastLabel(p: bytes, t: Table, x: nat, name: bytes)
    requires ValidName(name) && Dot(name) == |name| && At(p, x, EncodeName(t, x, name, false).0)
    ensures 0 < |name| < 0x100 && At(p, x, [|name|]) && At(p, x + 1, name) && At(p, x + 1 + |name|, [0])
    ensures p[x + 1 + |name|] == 0
  {
    hide Dot, EncodeName;
    EncodeNameCases(t, x, name, false);
    AtParts(p, x, [|name|] + name, [0]);
    AtParts(p, x, [|name|], name);
    SubSlice(p, x + 1 + |name|, [0], 0, 1);
  }

  /** A label that is not the last, and the name that follows it. */
  lemma {:induction false} FirstLabel(p: bytes, t: Table, x: nat, name: bytes)
    requires ValidName(name) && Dot(name) < |name| && At(p, x, EncodeName(t, x, name, false).0)
    ensures var i, rest := Dot(name), name[Dot(name) + 1..];
      && At(p, x, [i]) && At(p, x + 1, name[..i]) && ValidName(rest) && 0 < i < 0x100
      && At(p, x + 1 + i, EncodeName(t[name := x % 0x1_0000], x + 1 + i, rest, false).0)
      && p[x + 1 + i] != 0
  {
    hide Dot, EncodeName;
    EncodeNameCases(t, x, name, false);
    var i := Dot(name);
    var t1, rest := t[name := x % 0x1_0000], name[i + 1..];
    AtParts(p, x, [i] + name[..i], EncodeName(t1, x + 1 + i, rest, false).0);
    AtParts(p, x, [i], name[..i]);
    FirstByte(p, t1, x + 1 + i, rest);
  }

  lemma Rejoin(out: bytes, name: bytes, i: nat)
    requires i < |name| && name[i] == DOT
    ensures out + name[..i] + [DOT] + name[i + 1..] == out + name
  {
  }

  lemma {:induction false} FirstByte(p: bytes, t: Table, x: nat, name: bytes)
    requires ValidName(name) && At(p, x, EncodeName(t, x, name, false).0)
    ensures |EncodeName(t, x, name, false).0| > 0 && p[x] == Dot(name) > 0
  {
    hide Dot, EncodeName;
    EncodeNameCases(t, x, name, false);
    SubSlice(p, x, EncodeName(t, x, name, false).0, 0, 1);
  }

  lemma {:induction false} LabelsStep(p: bytes, x: nat, part: bytes, out: bytes)
    requires 0 < |part| < 0x100 && Lower(part) == part
    requires At(p, x, [|part|]) && At(p, x + 1, part) && x + 2 + |part| < |p|
    ensures var end := x + 1 + |part|;
      ReadLabels(p, x + 1, p[x], out)
      == if p[end] == 0 then Ok(LabelsRead(out + part, end + 1, p)) else ReadLabels(p, end + 1, p[end], out + part + [DOT])
  {
    OverwriteSame(p, x + 1, part);
    SubSlice(p, x, [|part|], 0, 1);
  }

  lemma {:induction false} QuestionRoundTrip(p: bytes, q: Question)
    requires ValidName(q.name) && |p| <= 0x1_0000
    requires At(p, HEADER_SIZE, EncodeQuestion(q))
    ensures var (n, t) := EncodeName(map[], HEADER_SIZE, Lower(q.name), false);
      && ReadQuestion(p, HEADER_SIZE) == Ok(QuestionRead(q.(name := Lower(q.name)), p))
      && |EncodeQuestion(q)| == QuestionSize(q)
      && Sound(p, HEADER_SIZE + QuestionSize(q), t)
  {
    hide Short, EncodeName, ReadQuestion, Lower, Sound, Be16, ValidName;
    var (n, t) := EncodeName(map[], HEADER_SIZE, Lower(q.name), false);
    LowerValid(q.name);
    UncompressedLength(map[], HEADER_SIZE, Lower(q.name));
    AtParts(p, HEADER_SIZE, n + Be16(q.qtype), Be16(q.qclass));
    AtParts(p, HEADER_SIZE, n, Be16(q.qtype));
    QuestionFields(p, q);
    SoundEmpty(p, HEADER_SIZE);
    ShortUncompressed(map[], HEADER_SIZE, Lower(q.name));
    NameRoundTrip(p, map[], HEADER_SIZE, q.name, false);
    SoundWiden(p, HEADER_SIZE + |n|, HEADER_SIZE + |n| + 4, t);
  }

  lemma {:induction false} QuestionFields(p: bytes, q: Question)
    requires ValidName(q.name)
    requires var n := EncodeName(map[], HEADER_SIZE, Lower(q.name), false).0;
      && |n| == |q.name| + 2 && At(p, HEADER_SIZE, n)
      && At(p, HEADER_SIZE + |n|, Be16(q.qtype)) && At(p, HEADER_SIZE + |n| + 2, Be16(q.qclass))
    ensures ReadQuestion(p, HEADER_SIZE) == Ok(QuestionRead(q.(name := Lower(q.name)), p))
  {
    hide EncodeName, ReadLabels, Lower, Be16, ValidName;
    LowerValid(q.name);
    LowerIdempotent(q.name);
    var y := HEADER_SIZE + |q.name| + 2;
    ReadBack16(p, y, q.qtype);
    ReadBack16(p, y + 2, q.qclass);
    LabelsRoundTrip(p, map[], HEADER_SIZE, Lower(q.name), []);
    assert [] + Lower(q.name) == Lower(q.name);
  }

  lemma SoundEmpty(p: bytes, hi: nat)
    ensures Sound(p, hi, map[])
  {
  }

  // ---------------------------------------------------------------- message

  /** The header as Pack leaves it: counts taken from the lists. */
  function PackedHeader(m: MessageValue): Header {
    m.header.(anCount := |m.answer| % 0x1_0000, nsCount := |m.authority| % 0x1_0000, arCount := |m.additional| % 0x1_0000)
  }

  /** Offset of the first record, and the table at that point. */
  function RecordsStart(m: MessageValue): (nat, Table) {
    var n := EncodeName(map[], HEADER_SIZE, Lower(m.question.name), false);
    (HEADER_SIZE + |n.0| + 4, n.1)
  }

  function EncodeLists(m: MessageValue): bytes {
    if m.header.isQuery then []
    else
      var (x, t) := RecordsStart(m);
      var an := EncodeRecords(t, x, m.answer);
      var ns := EncodeRecords(an.1, x + |an.0|, m.authority);
      var ar := EncodeRecords(ns.1, x + |an.0| + |ns.0|, m.additional);
      an.0 + ns.0 + ar.0
  }

  /** Every pointer of the packed message is to an offset that its 14 bits can hold. */
  predicate ShortLists(m: MessageValue) {
    m.header.isQuery ||
      var (x, t) := RecordsStart(m);
      var an := EncodeRecords(t, x, m.answer);
      var ns := EncodeRecords(an.1, x + |an.0|, m.authority);
      && ShortRecords(t, x, m.answer)
      && ShortRecords(an.1, x + |an.0|, m.authority)
      && ShortRecords(ns.1, x + |an.0| + |ns.0|, m.additional)
  }

  /** The packet is short enough for pointers to reach everything, or its pointers are. */
  predicate InReach(m: MessageValue) {
    Reach(EncodeMessage(m), ShortLists(m))
  }

  function EncodeMessage(m: MessageValue): bytes {
    EncodeHeader(PackedHeader(m)) + EncodeQuestion(m.question) + EncodeLists(m)
  }

  /** The message as Pack leaves it: counts set, names in lower case, offsets of the TTL fields recorded. */
  function PackedMessage(m: MessageValue): MessageValue {
    var question := m.question.(name := Lower(m.question.name));
    if m.header.isQuery then m.(header := PackedHeader(m), question := question)
    else
      var (x, t) := RecordsStart(m);
      var an := EncodeRecords(t, x, m.answer);
      var ns := EncodeRecords(an.1, x + |an.0|, m.authority);
      MessageValue(
        PackedHeader(m), question,
        PackedRecords(t, x, m.answer),
        PackedRecords(an.1, x + |an.0|, m.authority),
        PackedRecords(ns.1, x + |an.0| + |ns.0|, m.additional))
  }

  datatype MessageRead = MessageRead(message: MessageValue, packet: bytes)

  /** Reading into a message whose header is `h` and whose other fields are empty. */
  function ReadMessage(h: Header, p: bytes): Outcome<MessageRead> {
    if |p| < HEADER_SIZE then Undefined
    else if |p| == HEADER_SIZE then Err(MissingQuestion)
    else
      match ReadQuestion(p, HEADER_SIZE)
      case Err(e) => Err(e)
      case Undefined => Undefined
      case Ok(q) => ReadLists(ReadHeader(h, p), q.question, q.packet)
  }

  function ReadLists(header: Header, question: Question, p: bytes): Outcome<MessageRead> {
    match ReadRecords(p, HEADER_SIZE + QuestionSize(question), header.anCount)
    case Err(e) => Err(e)
    case Undefined => Undefined
    case Ok(an) =>
      match ReadRecords(an.packet, an.end, header.nsCount)
      case Err(e) => Err(e)
      case Undefined => Undefined
      case Ok(ns) =>
        match ReadRecords(ns.packet, ns.end, header.arCount)
        case Err(e) => Err(e)
        case Undefined => Undefined
        case Ok(ar) => Ok(MessageRead(MessageValue(header, question, an.records, ns.records, ar.records), ar.packet))
  }

  predicate ValidMessage(m: MessageValue) {
    ValidName(m.question.name) && ValidRecords(m.answer) && ValidRecords(m.authority) && ValidRecords(m.additional)
  }

  /** What survives of a message on the wire. */
  function NormalMessage(m: MessageValue): MessageValue {
    m.(header := NormalHeader(m.header),
       answer := NormalRecords(m.answer),
       authority := NormalRecords(m.authority),
       additional := NormalRecords(m.additional))
  }

  /** What unpacking a packed message gives. */
  function UnpackedMessage(m: MessageValue): MessageValue {
    NormalMessage(PackedMessage(m))
  }

  lemma {:induction false} RecordsLength(t: Table, x: nat, rrs: seq<Record>)
    ensures |EncodeRecords(t, x, rrs).0| >= |rrs|
    decreases |rrs|
  {
    hide EncodeName, EncodeRData, Lower, Fixed, Be16;
    if rrs != [] {
      var r := EncodeRecord(t, x, rrs[0]);
      RecordsLength(r.1, x + |r.0|, rrs[1..]);
    }
  }

  lemma ListsReach(p: bytes, m: MessageValue)
    requires !m.header.isQuery && Reach(p, ShortLists(m)) && At(p, RecordsStart(m).0, EncodeLists(m))
    ensures var (x, t) := RecordsStart(m);
      var (an, t1) := EncodeRecords(t, x, m.answer);
      var (ns, t2) := EncodeRecords(t1, x + |an|, m.authority);
      var ar := EncodeRecords(t2, x + |an| + |ns|, m.additional).0;
      && At(p, x, an) && At(p, x + |an|, ns) && At(p, x + |an| + |ns|, ar)
      && Reach(p, ShortRecords(t, x, m.answer)) && Reach(p, ShortRecords(t1, x + |an|, m.authority))
      && Reach(p, ShortRecords(t2, x + |an| + |ns|, m.additional))
      && |m.answer| < 0x1_0000 && |m.authority| < 0x1_0000 && |m.additional| < 0x1_0000
  {
    hide EncodeRecords, ShortRecords, EncodeName, Lower;
    var (x, t) := RecordsStart(m);
    var (an, t1) := EncodeRecords(t, x, m.answer);
    var (ns, t2) := EncodeRecords(t1, x + |an|, m.authority);
    var ar := EncodeRecords(t2, x + |an| + |ns|, m.additional).0;
    AtParts(p, x, an + ns, ar);
    AtParts(p, x, an, ns);
    RecordsLength(t, x, m.answer);
    RecordsLength(t1, x + |an|, m.authority);
    RecordsLength(t2, x + |an| + |ns|, m.additional);
    assert x >= HEADER_SIZE;
  }

  lemma {:induction false} ListsRoundTrip(p: bytes, m: MessageValue)
    requires ValidMessage(m) && !m.header.isQuery && Reach(p, ShortLists(m))
    requires var (x, t) := RecordsStart(m);
      x == HEADER_SIZE + QuestionSize(m.question) && Sound(p, x, t) && x <= |p| && At(p, x, EncodeLists(m))
    ensures var u := UnpackedMessage(m);
      ReadLists(u.header, u.question, p) == Ok(MessageRead(u, p))
  {
    hide Reach, ShortLists, ShortRecords, EncodeRecords, ReadRecords, PackedRecords, NormalRecords, Sound, ValidRecords;
    hide EncodeName, Lower, EncodeLists, At;
    ListsReach(p, m);
    var (x, t) := RecordsStart(m);
    var (an, t1) := EncodeRecords(t, x, m.answer);
    var (ns, t2) := EncodeRecords(t1, x + |an|, m.authority);
    RecordsRoundTrip(p, t, x, m.answer);
    AtInside(p, x + |an|, ns);
    RecordsRoundTrip(p, t1, x + |an|, m.authority);
    AtInside(p, x + |an| + |ns|, EncodeRecords(t2, x + |an| + |ns|, m.additional).0);
    RecordsRoundTrip(p, t2, x + |an| + |ns|, m.additional);
  }

  lemma AtInside(p: bytes, x: nat, part: bytes)
    requires At(p, x, part)
    ensures x + |part| <= |p|
  {
  }

  /** A query is packed without its records, but with their counts: if there were any, reading fails. */
  lemma {:induction false} QueryRoundTrip(p: bytes, m: MessageValue)
    requires m.header.isQuery && |p| == HEADER_SIZE + QuestionSize(m.question)
    ensures var u := UnpackedMessage(m);
      ReadLists(u.header, u.question, p)
      == if u.header.anCount == u.header.nsCount == u.header.arCount == 0
         then Ok(MessageRead(u.(answer := [], authority := [], additional := []), p)) else Err(LabelSizeLimit)
  {
    hide Lower;
    var x := HEADER_SIZE + QuestionSize(m.question);
    ReadPastEnd(p, x);
  }

  lemma {:induction false} ReadPastEnd(p: bytes, x: nat)
    requires x >= |p|
    ensures ReadRecord(p, x) == Err(LabelSizeLimit)
    ensures forall n: nat {:trigger ReadRecords(p, x, n)} :: n > 0 ==> ReadRecords(p, x, n) == Err(LabelSizeLimit)
  {
    hide ReadAfterName;
  }

  /**
   The round trip: whatever Pack writes for a message with valid names and modelled record types, Unpack reads back as
   the packed message, if the packet has at most 0x4000 bytes, or at most 0x10000 and no pointer leads to 0x4000 or
   behind: every compressed name is expanded again, and the packet is left as it was. The one failure is a query that
   holds records.
   */
  lemma {:induction false} MessageRoundTrip(m: MessageValue)
    requires ValidMessage(m) && InReach(m)
    ensures var p, u := EncodeMessage(m), UnpackedMessage(m);
      ReadMessage(FRESH_HEADER, p)
      == if !m.header.isQuery then Ok(MessageRead(u, p))
         else if u.header.anCount == u.header.nsCount == u.header.arCount == 0
           then Ok(MessageRead(u.(answer := [], authority := [], additional := []), p))
         else Err(LabelSizeLimit)
  {
    hide ShortLists, EncodeHeader, EncodeQuestion, EncodeLists, ReadLists, UnpackedMessage, Sound, ReadHeader, ReadQuestion;
    var p := EncodeMessage(m);
    PacketParts(m);
    HeaderRoundTrip(PackedHeader(m), p);
    QuestionRoundTrip(p, m.question);
    UnpackedShape(m);
    if m.header.isQuery {
      QueryRoundTrip(p, m);
    } else {
      StartAfterQuestion(m);
      ListsRoundTrip(p, m);
    }
  }

  lemma StartAfterQuestion(m: MessageValue)
    ensures RecordsStart(m).0 == HEADER_SIZE + |EncodeQuestion(m.question)|
  {
    hide EncodeName, Lower;
  }

  lemma UnpackedShape(m: MessageValue)
    ensures UnpackedMessage(m).header == NormalHeader(PackedHeader(m))
    ensures UnpackedMessage(m).question == m.question.(name := Lower(m.question.name))
    ensures m.header.isQuery ==> EncodeLists(m) == []
  {
    hide NormalHeader, Lower, EncodeRecords, PackedRecords, NormalRecords;
  }

  lemma PacketParts(m: MessageValue)
    ensures var p, q := EncodeMessage(m), EncodeQuestion(m.question);
      && At(p, 0, EncodeHeader(PackedHeader(m)))
      && At(p, HEADER_SIZE, q)
      && At(p, HEADER_SIZE + |q|, EncodeLists(m))
      && |p| == HEADER_SIZE + |q| + |EncodeLists(m)|
  {
    hide EncodeQuestion, EncodeLists;
    var p, h := EncodeMessage(m), EncodeHeader(PackedHeader(m));
    assert p[..|p|] == p;
    AtParts(p, 0, h + EncodeQuestion(m.question), EncodeLists(m));
    AtParts(p, 0, h, EncodeQuestion(m.question));
  }

  // ---------------------------------------------------------------- time to live

  function SubTTL(ttl: u32, n: u32): u32 {
    if ttl < n then 0 else ttl - n
  }

  /** Every time to live lowered by n, never below zero; a pseudo record in the additional list is left alone. */
  function SubTTLs(rrs: seq<Record>, n: u32, skipOPT: bool): (r: seq<Record>)
    ensures |r| == |rrs|
  {
    seq(|rrs|, i requires 0 <= i < |rrs| =>
      if skipOPT && rrs[i].rtype == TYPE_OPT then rrs[i] else rrs[i].(ttl := SubTTL(rrs[i].ttl, n)))
  }

  function SubTTLMessage(m: MessageValue, n: u32): MessageValue {
    m.(answer := SubTTLs(m.answer, n, false),
       authority := SubTTLs(m.authority, n, false),
       additional := SubTTLs(m.additional, n, true))
  }

  /** Every TTL slot lies inside the packet. */
  predicate SlotsInside(rrs: seq<Record>, len: nat) {
    forall i :: 0 <= i < |rrs| ==> rrs[i].offTTL + 4 <= len
  }

  /** The packet with the records' times to live written into their slots. */
  function WriteTTLs(p: bytes, rrs: seq<Record>, skipOPT: bool): (r: bytes)
    requires SlotsInside(rrs, |p|)
    ensures |r| == |p|
    decreases |rrs|
  {
    if rrs == [] then p
    else
      var rr := rrs[0];
      var q := if skipOPT && rr.rtype == TYPE_OPT then p else Overwrite(p, rr.offTTL, Be32(rr.ttl));
      WriteTTLs(q, rrs[1..], skipOPT)
  }

  /** Records that are on the wire alike except for their times to live. */
  predicate SameButTTL(rrs: seq<Record>, rrs': seq<Record>) {
    && |rrs| == |rrs'|
    && forall i :: 0 <= i < |rrs| ==> rrs'[i] == rrs[i].(ttl := rrs'[i].ttl)
  }

  /** `q` is `p` outside the stretch of `len` bytes at x. */
  ghost predicate SameOutside(p: bytes, q: bytes, x: nat, len: nat) {
    && |p| == |q|
    && forall i :: 0 <= i < |p| && !(x <= i < x + len) ==> q[i] == p[i]
  }

  lemma Slot(p: bytes, x: nat, rr: Record, ttl: u32, before: bytes, after: bytes)
    requires At(p, x, before + Fixed(rr) + after)
    ensures var q := Overwrite(p, x + |before| + 4, Be32(ttl));
      && At(q, x, before + Fixed(rr.(ttl := ttl)) + after)
      && SameOutside(p, q, x, |before| + 8 + |after|)
  {
    hide Be16, Be32;
    var was := before + Fixed(rr) + after;
    var now := before + Fixed(rr.(ttl := ttl)) + after;
    var q := Overwrite(p, x + |before| + 4, Be32(ttl));
    forall i | 0 <= i < |now| ensures q[x..x + |now|][i] == now[i] {
      SubSlice(p, x, was, i, i);
    }
  }

  /** One record: its slot holds exactly its time to live. */
  lemma {:induction false} SlotRewrite(p: bytes, t: Table, x: nat, rr: Record, rr': Record)
    requires rr' == rr.(ttl := rr'.ttl) && rr.offTTL == OffTTL(t, x, rr)
    requires At(p, x, EncodeRecord(t, x, rr).0)
    ensures rr'.offTTL == OffTTL(t, x, rr') && rr'.offTTL + 4 <= |p|
    ensures var (e, t1) := EncodeRecord(t, x, rr);
      var (e', t1') := EncodeRecord(t, x, rr');
      var q := Overwrite(p, rr'.offTTL, Be32(rr'.ttl));
      At(q, x, e') && SameOutside(p, q, x, |e|) && |e'| == |e| && t1' == t1
  {
    hide EncodeName, EncodeRData, Lower, Fixed, Be16, Be32, SameOutside;
    var (e, t1) := EncodeRecord(t, x, rr);
    var (e', t1') := EncodeRecord(t, x, rr');
    var (n, t0) := EncodeName(t, x, Lower(rr.name), true);
    var d := EncodeRData(t0, x + |n| + 10, rr.rdata).0;
    var after := Be16(|d| % 0x1_0000) + d;
    assert e == n + Fixed(rr) + after && e' == n + Fixed(rr') + after;
    Slot(p, x, rr, rr'.ttl, n, after);
  }

  /** The records know where their slots are. */
  predicate SlotsKnown(t: Table, x: nat, rrs: seq<Record>)
    decreases |rrs|
  {
    rrs != [] ==>
      var (e, t') := EncodeRecord(t, x, rrs[0]);
      rrs[0].offTTL == OffTTL(t, x, rrs[0]) && SlotsKnown(t', x + |e|, rrs[1..])
  }

  predicate NoOPT(rrs: seq<Record>) {
    forall i :: 0 <= i < |rrs| ==> rrs[i].rtype != TYPE_OPT
  }

  /** Overwriting the slots of records gives the bytes of the records with the new times to live, and no other change. */
  lemma {:induction false} SlotsRewrite(p: bytes, t: Table, x: nat, rrs: seq<Record>, rrs': seq<Record>, skipOPT: bool)
    requires SameButTTL(rrs, rrs') && At(p, x, EncodeRecords(t, x, rrs).0) && SlotsKnown(t, x, rrs)
    requires NoOPT(rrs)
    ensures SlotsInside(rrs', |p|)
    ensures var (e, t1) := EncodeRecords(t, x, rrs);
      var (e', t1') := EncodeRecords(t, x, rrs');
      var q := WriteTTLs(p, rrs', skipOPT);
      At(q, x, e') && SameOutside(p, q, x, |e|) && |e'| == |e| && t1' == t1
    decreases |rrs|
  {
    hide EncodeRecord, OffTTL, Be32, At, SameOutside, Overwrite, WriteTTLs, SlotsInside;
    if rrs != [] {
      var (e, t1) := EncodeRecord(t, x, rrs[0]);
      var (rest, t2) := EncodeRecords(t1, x + |e|, rrs[1..]);
      AtParts(p, x, e, rest);
      SlotRewrite(p, t, x, rrs[0], rrs'[0]);
      var e' := EncodeRecord(t, x, rrs'[0]).0;
      var q := Overwrite(p, rrs'[0].offTTL, Be32(rrs'[0].ttl));
      AtUnchanged(p, q, x + |e|, rest, x, |e|);
      SlotsRewrite(q, t1, x + |e|, rrs[1..], rrs'[1..], skipOPT);
      WriteFirst(p, rrs', skipOPT);
      var q' := WriteTTLs(q, rrs'[1..], skipOPT);
      AtUnchanged(q, q', x, e', x + |e|, |rest|);
      AtJoin(q', x, e', EncodeRecords(t1, x + |e|, rrs'[1..]).0);
      OutsideJoin(p, q, q', x, |e|, |rest|);
    } else {
      AtNothing(p, x);
      WriteNothing(p, rrs', skipOPT);
    }
  }

  lemma WriteNothing(p: bytes, rrs: seq<Record>, skipOPT: bool)
    requires rrs == []
    ensures SlotsInside(rrs, |p|) && WriteTTLs(p, rrs, skipOPT) == p
  {
  }

  lemma WriteFirst(p: bytes, rrs: seq<Record>, skipOPT: bool)
    requires rrs != [] && rrs[0].offTTL + 4 <= |p| && SlotsInside(rrs[1..], |p|) && rrs[0].rtype != TYPE_OPT
    ensures SlotsInside(rrs, |p|)
    ensures WriteTTLs(p, rrs, skipOPT) == WriteTTLs(Overwrite(p, rrs[0].offTTL, Be32(rrs[0].ttl)), rrs[1..], skipOPT)
  {
    assert forall i :: 1 <= i < |rrs| ==> rrs[i] == rrs[1..][i - 1];
  }

  lemma AtNothing(p: bytes, x: nat)
    ensures At(p, x, []) <==> x <= |p|
    ensures SameOutside(p, p, x, 0)
  {
    assert x <= |p| ==> p[x..x] == [];
  }

  lemma OutsideJoin(p: bytes, q: bytes, r: bytes, x: nat, a: nat, b: nat)
    requires SameOutside(p, q, x, a) && SameOutside(q, r, x + a, b)
    ensures SameOutside(p, r, x, a + b)
  {
  }

  lemma AtUnchanged(p: bytes, q: bytes, x: nat, part: bytes, y: nat, len: nat)
    requires At(p, x, part) && SameOutside(p, q, y, len)
    requires x + |part| <= y || y + len <= x
    ensures At(q, x, part)
  {
    assert q[x..x + |part|] == p[x..x + |part|];
  }

  lemma AtJoin(p: bytes, x: nat, a: bytes, b: bytes)
    requires At(p, x, a) && At(p, x + |a|, b)
    ensures At(p, x, a + b)
  {
    assert p[x..x + |a| + |b|] == p[x..x + |a|] + p[x + |a|..x + |a| + |b|];
  }

  /** The three lists are in the form packing leaves them in, for a message that starts like `m`. */
  predicate Packed(m: MessageValue) {
    PackedMessage(m) == m
  }

  /** All slots of the message, in the order SubTTL visits them. */
  function WriteMessageTTLs(p: bytes, m: MessageValue): (r: bytes)
    requires SlotsInside(m.answer, |p|) && SlotsInside(m.authority, |p|) && SlotsInside(m.additional, |p|)
    ensures |r| == |p|
  {
    WriteTTLs(WriteTTLs(WriteTTLs(p, m.answer, false), m.authority, false), m.additional, true)
  }

  lemma LoweredStable(rr: Record, off: nat)
    ensures Lowered(Lowered(rr, off), off) == Lowered(rr, off)
    ensures Lower(Lowered(rr, off).name) == Lower(rr.name)
  {
    hide Lower;
    LowerIdempotent(rr.name);
    match rr.rdata
    case Host(value) => LowerIdempotent(value);
    case Mx(_, exchange) => LowerIdempotent(exchange);
    case Minfo(rmailbox, emailbox) => LowerIdempotent(rmailbox); LowerIdempotent(emailbox);
    case Srv(_, _, _, _, _, _, target) => LowerIdempotent(target);
    case _ =>
  }

  lemma LoweredRDataEncodes(t: Table, x: nat, rd: RData)
    ensures EncodeRData(t, x, LowerRData(rd)) == EncodeRData(t, x, rd)
  {
    hide Lower, EncodeName;
    match rd
    case Host(value) => LowerIdempotent(value);
    case Mx(_, exchange) => LowerIdempotent(exchange);
    case Minfo(rmailbox, emailbox) => LowerIdempotent(rmailbox); LowerIdempotent(emailbox);
    case Srv(_, _, _, _, _, _, target) => LowerIdempotent(target);
    case _ =>
  }

  lemma LoweredEncodes(t: Table, x: nat, rr: Record, off: nat)
    ensures EncodeRecord(t, x, Lowered(rr, off)) == EncodeRecord(t, x, rr)
    ensures OffTTL(t, x, Lowered(rr, off)) == OffTTL(t, x, rr)
  {
    hide Lower, EncodeName, EncodeRData, LowerRData, Be16;
    LoweredStable(rr, off);
    var (n, t0) := EncodeName(t, x, Lower(rr.name), true);
    LoweredRDataEncodes(t0, x + |n| + 10, rr.rdata);
    assert Fixed(Lowered(rr, off)) == Fixed(rr);
  }

  /** Packing again writes the same bytes and changes nothing. */
  lemma {:induction false} PackedRecordsStable(t: Table, x: nat, rrs: seq<Record>)
    ensures var ns := PackedRecords(t, x, rrs);
      EncodeRecords(t, x, ns) == EncodeRecords(t, x, rrs) && PackedRecords(t, x, ns) == ns
    decreases |rrs|
  {
    hide EncodeRecord, Lowered, OffTTL;
    if rrs != [] {
      var (e, t1) := EncodeRecord(t, x, rrs[0]);
      var off := OffTTL(t, x, rrs[0]);
      var ns := PackedRecords(t, x, rrs);
      LoweredStable(rrs[0], off);
      LoweredEncodes(t, x, rrs[0], off);
      PackedRecordsStable(t1, x + |e|, rrs[1..]);
      assert ns[1..] == PackedRecords(t1, x + |e|, rrs[1..]);
    }
  }

  lemma {:induction false} PackStable(m: MessageValue)
    ensures Packed(PackedMessage(m)) && EncodeMessage(PackedMessage(m)) == EncodeMessage(m)
  {
    hide EncodeRecords, PackedRecords, Lower, EncodeName, EncodeHeader;
    LowerIdempotent(m.question.name);
    if !m.header.isQuery {
      var (x, t) := RecordsStart(m);
      var (an, t1) := EncodeRecords(t, x, m.answer);
      var (ns, t2) := EncodeRecords(t1, x + |an|, m.authority);
      PackedRecordsStable(t, x, m.answer);
      PackedRecordsStable(t1, x + |an|, m.authority);
      PackedRecordsStable(t2, x + |an| + |ns|, m.additional);
    }
  }

  /** Encoding and packing of a list, one record at a time. */
  lemma RecordsCases(t: Table, x: nat, rrs: seq<Record>)
    ensures rrs == [] ==> EncodeRecords(t, x, rrs) == ([], t) && PackedRecords(t, x, rrs) == [] && SlotsKnown(t, x, rrs)
    ensures rrs != [] ==>
      var (e, t1) := EncodeRecord(t, x, rrs[0]);
      var rest := EncodeRecords(t1, x + |e|, rrs[1..]);
      && EncodeRecords(t, x, rrs) == (e + rest.0, rest.1)
      && PackedRecords(t, x, rrs) == [Lowered(rrs[0], OffTTL(t, x, rrs[0]))] + PackedRecords(t1, x + |e|, rrs[1..])
      && SlotsKnown(t, x, rrs) == (rrs[0].offTTL == OffTTL(t, x, rrs[0]) && SlotsKnown(t1, x + |e|, rrs[1..]))
  {
    hide EncodeRecord, Lowered, OffTTL;
  }

  /** Records in packed form know their slots, and times to live play no part in where anything is written. */
  lemma {:induction false} TTLIndependent(t: Table, x: nat, rrs: seq<Record>, rrs': seq<Record>)
    requires SameButTTL(rrs, rrs') && PackedRecords(t, x, rrs) == rrs
    ensures SlotsKnown(t, x, rrs) && PackedRecords(t, x, rrs') == rrs' && |rrs'| == |rrs|
    ensures |EncodeRecords(t, x, rrs').0| == |EncodeRecords(t, x, rrs).0|
    ensures EncodeRecords(t, x, rrs').1 == EncodeRecords(t, x, rrs).1
    decreases |rrs|
  {
    hide EncodeRecord, Lowered, OffTTL, SameButTTL, EncodeRecords, PackedRecords, SlotsKnown;
    SameTail(rrs, rrs');
    RecordsCases(t, x, rrs);
    RecordsCases(t, x, rrs');
    if rrs != [] {
      var (e, t1) := EncodeRecord(t, x, rrs[0]);
      var packed := Lowered(rrs[0], OffTTL(t, x, rrs[0]));
      assert rrs[1..] == PackedRecords(t1, x + |e|, rrs[1..]) && rrs[0] == packed by {
        assert ([packed] + PackedRecords(t1, x + |e|, rrs[1..]))[1..] == PackedRecords(t1, x + |e|, rrs[1..]);
      }
      RecordTTLIndependent(t, x, rrs[0], rrs'[0]);
      TTLIndependent(t1, x + |e|, rrs[1..], rrs'[1..]);
      assert rrs' == [rrs'[0]] + rrs'[1..];
    }
  }

  lemma SameTail(rrs: seq<Record>, rrs': seq<Record>)
    requires SameButTTL(rrs, rrs')
    ensures |rrs| == |rrs'|
    ensures rrs != [] ==> rrs'[0] == rrs[0].(ttl := rrs'[0].ttl) && SameButTTL(rrs[1..], rrs'[1..])
  {
  }

  lemma RecordTTLIndependent(t: Table, x: nat, rr: Record, rr': Record)
    requires rr' == rr.(ttl := rr'.ttl) && rr == Lowered(rr, OffTTL(t, x, rr))
    ensures |EncodeRecord(t, x, rr').0| == |EncodeRecord(t, x, rr).0| && EncodeRecord(t, x, rr').1 == EncodeRecord(t, x, rr).1
    ensures rr' == Lowered(rr', OffTTL(t, x, rr')) && rr.offTTL == OffTTL(t, x, rr) == OffTTL(t, x, rr')
  {
    hide EncodeName, EncodeRData, LowerRData, Lower, Be16, Fixed;
  }

  lemma ValidNoOPT(rrs: seq<Record>)
    requires ValidRecords(rrs)
    ensures NoOPT(rrs)
  {
    hide ValidName, ValidRData;
  }

  /** The slots of three lists written one after the other. */
  lemma {:induction false} ListsRewrite(p: bytes, m: MessageValue, m': MessageValue)
    requires Packed(m) && !m.header.isQuery
    requires NoOPT(m.answer) && NoOPT(m.authority) && NoOPT(m.additional)
    requires m' == m.(answer := m'.answer, authority := m'.authority, additional := m'.additional)
    requires SameButTTL(m.answer, m'.answer) && SameButTTL(m.authority, m'.authority)
    requires SameButTTL(m.additional, m'.additional)
    requires At(p, RecordsStart(m).0, EncodeLists(m))
    ensures Packed(m')
    ensures SlotsInside(m'.answer, |p|) && SlotsInside(m'.authority, |p|) && SlotsInside(m'.additional, |p|)
    ensures var q, x := WriteMessageTTLs(p, m'), RecordsStart(m).0;
      At(q, x, EncodeLists(m')) && |EncodeLists(m')| == |EncodeLists(m)| && SameOutside(p, q, x, |EncodeLists(m)|)
  {
    hide EncodeRecords, PackedRecords, Lower, EncodeName, At, SameOutside, SlotsKnown, WriteTTLs, SameButTTL, NoOPT;
    var (x, t) := RecordsStart(m);
    var (an, t1) := EncodeRecords(t, x, m.answer);
    var (ns, t2) := EncodeRecords(t1, x + |an|, m.authority);
    var (ar, t3) := EncodeRecords(t2, x + |an| + |ns|, m.additional);
    AtParts(p, x, an + ns, ar);
    AtParts(p, x, an, ns);
    TTLIndependent(t, x, m.answer, m'.answer);
    TTLIndependent(t1, x + |an|, m.authority, m'.authority);
    TTLIndependent(t2, x + |an| + |ns|, m.additional, m'.additional);
    SlotsRewrite(p, t, x, m.answer, m'.answer, false);
    var p1 := WriteTTLs(p, m'.answer, false);
    AtUnchanged(p, p1, x + |an|, ns, x, |an|);
    AtUnchanged(p, p1, x + |an| + |ns|, ar, x, |an|);
    SlotsRewrite(p1, t1, x + |an|, m.authority, m'.authority, false);
    var p2 := WriteTTLs(p1, m'.authority, false);
    AtUnchanged(p1, p2, x + |an| + |ns|, ar, x + |an|, |ns|);
    SlotsRewrite(p2, t2, x + |an| + |ns|, m.additional, m'.additional, true);
    ThreeParts(p, p1, p2, WriteTTLs(p2, m'.additional, true), x,
      EncodeRecords(t, x, m'.answer).0, EncodeRecords(t1, x + |an|, m'.authority).0,
      EncodeRecords(t2, x + |an| + |ns|, m'.additional).0);
  }

  /** Three neighbouring stretches rewritten one after the other. */
  lemma ThreeParts(p: bytes, p1: bytes, p2: bytes, p3: bytes, x: nat, a: bytes, b: bytes, c: bytes)
    requires SameOutside(p, p1, x, |a|) && At(p1, x, a)
    requires SameOutside(p1, p2, x + |a|, |b|) && At(p2, x + |a|, b)
    requires SameOutside(p2, p3, x + |a| + |b|, |c|) && At(p3, x + |a| + |b|, c)
    ensures At(p3, x, a + b + c) && SameOutside(p, p3, x, |a| + |b| + |c|)
  {
    hide At, SameOutside;
    AtUnchanged(p1, p2, x, a, x + |a|, |b|);
    AtUnchanged(p2, p3, x, a, x + |a| + |b|, |c|);
    AtUnchanged(p2, p3, x + |a|, b, x + |a| + |b|, |c|);
    AtJoin(p3, x, a, b);
    AtJoin(p3, x, a + b, c);
    OutsideJoin(p, p1, p2, x, |a|, |b|);
    OutsideJoin(p, p2, p3, x, |a| + |b|, |c|);
  }

  /** SubTTL on a packed response: the packet becomes that of the message with the lowered times to live. */
  lemma {:induction false} SubTTLRewrites(m: MessageValue, n: u32)
    requires Packed(m) && !m.header.isQuery
    requires NoOPT(m.answer) && NoOPT(m.authority) && NoOPT(m.additional)
    ensures var m', p := SubTTLMessage(m, n), EncodeMessage(m);
      && Packed(m')
      && SlotsInside(m'.answer, |p|) && SlotsInside(m'.authority, |p|) && SlotsInside(m'.additional, |p|)
      && WriteMessageTTLs(p, m') == EncodeMessage(m')
  {
    hide EncodeLists, EncodeHeader, EncodeQuestion, Packed, RecordsStart, WriteMessageTTLs, NoOPT;
    var m', p := SubTTLMessage(m, n), EncodeMessage(m);
    PacketParts(m);
    PacketParts(m');
    StartAfterQuestion(m);
    SameButTTLs(m, n);
    ListsRewrite(p, m, m');
    var q := WriteMessageTTLs(p, m');
    var x := RecordsStart(m).0;
    var lists := EncodeLists(m');
    var front := EncodeHeader(PackedHeader(m)) + EncodeQuestion(m.question);
    AtJoin(p, 0, EncodeHeader(PackedHeader(m)), EncodeQuestion(m.question));
    AtUnchanged(p, q, 0, front, x, |lists|);
    AtJoin(q, 0, front, lists);
    assert q[0..|q|] == q;
  }

  lemma SameButTTLs(m: MessageValue, n: u32)
    ensures var m' := SubTTLMessage(m, n);
      && SameButTTL(m.answer, m'.answer) && SameButTTL(m.authority, m'.authority)
      && SameButTTL(m.additional, m'.additional)
      && RecordsStart(m') == RecordsStart(m) && PackedHeader(m') == PackedHeader(m)
  {
    hide EncodeName;
  }

  /** Neither packing nor times to live change where pointers lead. */
  lemma ShortLowered(t: Table, x: nat, rr: Record, off: nat, ttl: u32)
    ensures ShortRecord(t, x, Lowered(rr, off).(ttl := ttl)) == ShortRecord(t, x, rr)
  {
    hide Lower, EncodeName, Short;
    LowerIdempotent(rr.name);
    match rr.rdata
    case Host(value) => LowerIdempotent(value);
    case Mx(_, exchange) => LowerIdempotent(exchange);
    case Minfo(rmailbox, emailbox) => LowerIdempotent(rmailbox); LowerIdempotent(emailbox);
    case Srv(_, _, _, _, _, _, target) =>
    case _ =>
  }

  lemma {:induction false} ShortPacked(t: Table, x: nat, rrs: seq<Record>, rrs': seq<Record>)
    requires SameButTTL(PackedRecords(t, x, rrs), rrs')
    ensures ShortRecords(t, x, rrs') == ShortRecords(t, x, rrs)
    decreases |rrs|
  {
    hide EncodeRecord, ShortRecord, Lowered, OffTTL;
    if rrs != [] {
      var (e, t1) := EncodeRecord(t, x, rrs[0]);
      var packed := Lowered(rrs[0], OffTTL(t, x, rrs[0]));
      assert rrs'[0] == packed.(ttl := rrs'[0].ttl);
      ShortLowered(t, x, rrs[0], OffTTL(t, x, rrs[0]), rrs'[0].ttl);
      LoweredStable(rrs[0], OffTTL(t, x, rrs[0]));
      LoweredEncodes(t, x, rrs[0], OffTTL(t, x, rrs[0]));
      RecordTTLIndependent(t, x, packed, rrs'[0]);
      assert PackedRecords(t, x, rrs)[1..] == PackedRecords(t1, x + |e|, rrs[1..]);
      SameTail(PackedRecords(t, x, rrs), rrs');
      ShortPacked(t1, x + |e|, rrs[1..], rrs'[1..]);
    }
  }

  lemma ShortListsKept(m: MessageValue, n: u32)
    requires !m.header.isQuery
    ensures ShortLists(SubTTLMessage(PackedMessage(m), n)) == ShortLists(m)
  {
    hide EncodeRecords, PackedRecords, ShortRecords, Lower, EncodeName, SubTTLs, SameButTTL, SlotsKnown;
    var u := PackedMessage(m);
    var u' := SubTTLMessage(u, n);
    var (x, t) := RecordsStart(m);
    var (an, t1) := EncodeRecords(t, x, m.answer);
    var (ns, t2) := EncodeRecords(t1, x + |an|, m.authority);
    LowerIdempotent(m.question.name);
    assert RecordsStart(u') == RecordsStart(m);
    SameButTTLs(u, n);
    PackedRecordsStable(t, x, m.answer);
    PackedRecordsStable(t1, x + |an|, m.authority);
    ShortPacked(t, x, m.answer, u'.answer);
    ShortPacked(t1, x + |an|, m.authority, u'.authority);
    ShortPacked(t2, x + |an| + |ns|, m.additional, u'.additional);
    TTLIndependent(t, x, u.answer, u'.answer);
    TTLIndependent(t1, x + |an|, u.authority, u'.authority);
  }

  /** A packet with lowered times to live is in reach like the one before. */
  lemma ReachKept(m: MessageValue, n: u32)
    requires InReach(m) && !m.header.isQuery
    requires var u := PackedMessage(m);
      && EncodeMessage(u) == EncodeMessage(m) && |EncodeMessage(SubTTLMessage(u, n))| == |EncodeMessage(u)|
    ensures InReach(SubTTLMessage(PackedMessage(m), n))
  {
    hide ShortLists, EncodeMessage, PackedMessage, SubTTLMessage;
    ShortListsKept(m, n);
  }

  /**
   After SubTTL(n) on a packed response, unpacking the rewritten packet gives the message that unpacking gave before,
   with every time to live lowered by n and floored at zero: the recorded slots overlap nothing else that is read.
   */
  lemma {:induction false} SubTTLRoundTrip(m: MessageValue, n: u32)
    requires ValidMessage(m) && !m.header.isQuery && InReach(m)
    ensures var u' := SubTTLMessage(PackedMessage(m), n);
      var p := EncodeMessage(m);
      && SlotsInside(u'.answer, |p|) && SlotsInside(u'.authority, |p|) && SlotsInside(u'.additional, |p|)
      && var q := WriteMessageTTLs(p, u');
      && ReadMessage(FRESH_HEADER, p) == Ok(MessageRead(UnpackedMessage(m), p))
      && ReadMessage(FRESH_HEADER, q) == Ok(MessageRead(SubTTLMessage(UnpackedMessage(m), n), q))
  {
    hide InReach, EncodeMessage, ReadMessage, ValidMessage, WriteMessageTTLs, PackedMessage, NormalMessage, SubTTLMessage;
    var u := PackedMessage(m);
    PackStable(m);
    PackedValid(m);
    SubTTLRewrites(u, n);
    SubTTLValid(u, n);
    SameLength(u, n);
    ReachKept(m, n);
    MessageRoundTrip(m);
    MessageRoundTrip(SubTTLMessage(u, n));
    SubTTLNormal(u, n);
  }

  /** Lowering the times to live and going over the wire commute. */
  lemma SubTTLNormal(m: MessageValue, n: u32)
    ensures NormalMessage(SubTTLMessage(m, n)) == SubTTLMessage(NormalMessage(m), n)
    ensures SubTTLMessage(m, n).header == m.header
  {
    hide NormalHeader, WithService;
    assert NormalRecords(SubTTLs(m.answer, n, false)) == SubTTLs(NormalRecords(m.answer), n, false);
    assert NormalRecords(SubTTLs(m.authority, n, false)) == SubTTLs(NormalRecords(m.authority), n, false);
    assert NormalRecords(SubTTLs(m.additional, n, true)) == SubTTLs(NormalRecords(m.additional), n, true);
  }

  lemma {:induction false} NormalValid(t: Table, x: nat, rrs: seq<Record>)
    requires ValidRecords(rrs)
    ensures ValidRecords(PackedRecords(t, x, rrs))
    decreases |rrs|
  {
    hide ValidName, EncodeRecord, OffTTL, Lower, SplitService;
    if rrs != [] {
      var (e, t') := EncodeRecord(t, x, rrs[0]);
      RecordStaysValid(rrs[0], OffTTL(t, x, rrs[0]));
      assert ValidRecords(rrs[1..]);
      NormalValid(t', x + |e|, rrs[1..]);
    }
  }

  lemma RecordStaysValid(rr: Record, off: nat)
    requires ValidRecord(rr)
    ensures ValidRecord(Lowered(rr, off))
  {
    hide ValidName, Lower, SplitService;
    LowerValid(rr.name);
    match rr.rdata
    case Host(value) => LowerValid(value);
    case Mx(_, exchange) => LowerValid(exchange);
    case Minfo(rmailbox, emailbox) => LowerValid(rmailbox); LowerValid(emailbox);
    case Srv(_, _, _, _, _, _, target) => LowerValid(target);
    case _ =>
  }

  lemma PackedValid(m: MessageValue)
    requires ValidMessage(m)
    ensures var u := PackedMessage(m);
      ValidMessage(u) && u.header.isQuery == m.header.isQuery && NoOPT(u.answer) && NoOPT(u.authority) && NoOPT(u.additional)
  {
    hide ValidName, EncodeRecords, EncodeName, Lower, PackedRecords, ValidRecords, NoOPT;
    LowerValid(m.question.name);
    if !m.header.isQuery {
      var (x, t) := RecordsStart(m);
      var (an, t1) := EncodeRecords(t, x, m.answer);
      var (ns, t2) := EncodeRecords(t1, x + |an|, m.authority);
      NormalValid(t, x, m.answer);
      NormalValid(t1, x + |an|, m.authority);
      NormalValid(t2, x + |an| + |ns|, m.additional);
    }
    var u := PackedMessage(m);
    ValidNoOPT(u.answer);
    ValidNoOPT(u.authority);
    ValidNoOPT(u.additional);
  }

  lemma SubTTLValid(m: MessageValue, n: u32)
    requires ValidMessage(m)
    ensures ValidMessage(SubTTLMessage(m, n))
  {
    hide ValidName, ValidRData;
  }

  lemma SameLength(m: MessageValue, n: u32)
    requires Packed(m) && !m.header.isQuery
    requires NoOPT(m.answer) && NoOPT(m.authority) && NoOPT(m.additional)
    ensures |EncodeMessage(SubTTLMessage(m, n))| == |EncodeMessage(m)|
  {
    hide EncodeMessage, WriteMessageTTLs, Packed, NoOPT;
    SubTTLRewrites(m, n);
  }

  /** SubTTL(a) then SubTTL(b) is SubTTL(a + b), in the message and in its packet. */
  lemma {:induction false} SubTTLAdds(m: MessageValue, a: u32, b: u32)
    requires Packed(m) && !m.header.isQuery && a as int + b as int < 0x1_0000_0000
    requires NoOPT(m.answer) && NoOPT(m.authority) && NoOPT(m.additional)
    ensures SubTTLMessage(SubTTLMessage(m, a), b) == SubTTLMessage(m, a + b)
    ensures var p, m1, m2 := EncodeMessage(m), SubTTLMessage(m, a), SubTTLMessage(m, a + b);
      && SlotsInside(m1.answer, |p|) && SlotsInside(m1.authority, |p|) && SlotsInside(m1.additional, |p|)
      && SlotsInside(m2.answer, |p|) && SlotsInside(m2.authority, |p|) && SlotsInside(m2.additional, |p|)
      && WriteMessageTTLs(WriteMessageTTLs(p, m1), m2) == WriteMessageTTLs(p, m2)
  {
    hide EncodeMessage, WriteMessageTTLs, Packed;
    var m1 := SubTTLMessage(m, a);
    SubTTLRewrites(m, a);
    SubTTLRewrites(m, a + b);
    assert SubTTLMessage(m1, b) == SubTTLMessage(m, a + b) by {
      assert SubTTLs(SubTTLs(m.answer, a, false), b, false) == SubTTLs(m.answer, a + b, false);
      assert SubTTLs(SubTTLs(m.authority, a, false), b, false) == SubTTLs(m.authority, a + b, false);
      assert SubTTLs(SubTTLs(m.additional, a, true), b, true) == SubTTLs(m.additional, a + b, true);
    }
    SubTTLRewrites(m1, b);
  }

  // ---------------------------------------------------------------- packets that differ in times to live

  lemma SameFixed(rr: Record, rr': Record)
    requires rr' == rr.(ttl := rr'.ttl) && Fixed(rr) == Fixed(rr')
    ensures rr == rr'
  {
    hide Be16, Be32;
    assert Be32(rr.ttl) == Fixed(rr)[4..] && Be32(rr'.ttl) == Fixed(rr')[4..];
    Be32Injective(rr.ttl, rr'.ttl);
  }

  lemma SameRecord(t: Table, x: nat, rr: Record, rr': Record)
    requires rr' == rr.(ttl := rr'.ttl) && EncodeRecord(t, x, rr).0 == EncodeRecord(t, x, rr').0
    ensures rr == rr'
  {
    hide EncodeName, EncodeRData, Lower, Fixed, Be16;
    var e, e' := EncodeRecord(t, x, rr).0, EncodeRecord(t, x, rr').0;
    var n := EncodeName(t, x, Lower(rr.name), true).0;
    assert Fixed(rr) == e[|n|..|n| + 8] && Fixed(rr') == e'[|n|..|n| + 8];
    SameFixed(rr, rr');
  }

  lemma SameHalves(a: bytes, b: bytes, a': bytes, b': bytes)
    requires |a| == |a'| && a + b == a' + b'
    ensures a == a' && b == b'
  {
    assert a == (a + b)[..|a|] && a' == (a' + b')[..|a|];
    assert b == (a + b)[|a|..] && b' == (a' + b')[|a|..];
  }

  /** Packed records that differ only in their times to live have different bytes. */
  lemma {:induction false} SameRecords(t: Table, x: nat, rrs: seq<Record>, rrs': seq<Record>)
    requires SameButTTL(rrs, rrs') && PackedRecords(t, x, rrs) == rrs
    requires EncodeRecords(t, x, rrs).0 == EncodeRecords(t, x, rrs').0
    ensures rrs == rrs'
    decreases |rrs|
  {
    hide EncodeRecord, Lowered, OffTTL, SameButTTL;
    SameTail(rrs, rrs');
    if rrs != [] {
      var (e, t1) := EncodeRecord(t, x, rrs[0]);
      var (e', t1') := EncodeRecord(t, x, rrs'[0]);
      assert rrs[1..] == PackedRecords(t1, x + |e|, rrs[1..]);
      assert rrs[0] == Lowered(rrs[0], OffTTL(t, x, rrs[0]));
      RecordTTLIndependent(t, x, rrs[0], rrs'[0]);
      SameHalves(e, EncodeRecords(t1, x + |e|, rrs[1..]).0, e', EncodeRecords(t1, x + |e|, rrs'[1..]).0);
      SameRecord(t, x, rrs[0], rrs'[0]);
      SameRecords(t1, x + |e|, rrs[1..], rrs'[1..]);
      assert rrs == [rrs[0]] + rrs[1..] && rrs' == [rrs'[0]] + rrs'[1..];
    }
  }

  lemma SameLists(m: MessageValue, m': MessageValue)
    requires Packed(m) && !m.header.isQuery && RecordsStart(m') == RecordsStart(m)
    requires SameButTTL(m.answer, m'.answer) && SameButTTL(m.authority, m'.authority)
    requires SameButTTL(m.additional, m'.additional)
    requires m' == m.(answer := m'.answer, authority := m'.authority, additional := m'.additional)
    requires EncodeLists(m) == EncodeLists(m')
    ensures m == m'
  {
    hide EncodeRecords, PackedRecords, Lower, EncodeName, SameButTTL, SlotsKnown;
    var (x, t) := RecordsStart(m);
    var (an, t1) := EncodeRecords(t, x, m.answer);
    var (ns, t2) := EncodeRecords(t1, x + |an|, m.authority);
    var ar := EncodeRecords(t2, x + |an| + |ns|, m.additional).0;
    TTLIndependent(t, x, m.answer, m'.answer);
    TTLIndependent(t1, x + |an|, m.authority, m'.authority);
    var an' := EncodeRecords(t, x, m'.answer).0;
    var ns' := EncodeRecords(t1, x + |an|, m'.authority).0;
    var ar' := EncodeRecords(t2, x + |an| + |ns|, m'.additional).0;
    SameHalves(an + ns, ar, an' + ns', ar');
    SameHalves(an, ns, an', ns');
    SameRecords(t, x, m.answer, m'.answer);
    SameRecords(t1, x + |an|, m.authority, m'.authority);
    SameRecords(t2, x + |an| + |ns|, m.additional, m'.additional);
  }

  /** Two lowerings of one packed response have the same packet only if they are the same message. */
  lemma SamePacket(m: MessageValue, m': MessageValue)
    requires Packed(m) && !m.header.isQuery
    requires RecordsStart(m') == RecordsStart(m) && PackedHeader(m') == PackedHeader(m)
    requires SameButTTL(m.answer, m'.answer) && SameButTTL(m.authority, m'.authority)
    requires SameButTTL(m.additional, m'.additional)
    requires m' == m.(answer := m'.answer, authority := m'.authority, additional := m'.additional)
    requires EncodeMessage(m) == EncodeMessage(m')
    ensures m == m'
  {
    hide EncodeLists, EncodeQuestion, EncodeHeader, Packed, RecordsStart, PackedHeader, SameButTTL;
    var front := EncodeHeader(PackedHeader(m)) + EncodeQuestion(m.question);
    SameHalves(front, EncodeLists(m), front, EncodeLists(m'));
    SameLists(m, m');
  }

  // ---------------------------------------------------------------- lowering more than once

  predicate NoneAbove(rrs: seq<Record>, n: u32) {
    forall i :: 0 <= i < |rrs| ==> rrs[i].ttl <= n
  }

  /** No time to live of the message is above n. */
  predicate AllOver(m: MessageValue, n: u32) {
    NoneAbove(m.answer, n) && NoneAbove(m.authority, n) && NoneAbove(m.additional, n)
  }

  lemma TTLsTwice(rrs: seq<Record>, a: u32, b: u32, skipOPT: bool)
    requires a <= b && NoOPT(rrs)
    ensures SubTTLs(SubTTLs(rrs, a, skipOPT), b, skipOPT) == SubTTLs(rrs, b, skipOPT) <==> a == 0 || NoneAbove(rrs, b)
  {
    var once, twice := SubTTLs(rrs, b, skipOPT), SubTTLs(SubTTLs(rrs, a, skipOPT), b, skipOPT);
    assert forall i :: 0 <= i < |rrs| ==> once[i] == rrs[i].(ttl := SubTTL(rrs[i].ttl, b));
    assert forall i :: 0 <= i < |rrs| ==> twice[i] == rrs[i].(ttl := SubTTL(SubTTL(rrs[i].ttl, a), b));
    if twice == once {
      forall i | 0 <= i < |rrs| ensures a == 0 || rrs[i].ttl <= b {
        assert twice[i].ttl == once[i].ttl;
      }
    }
  }

  /** Lowering by a and then by all of b is lowering by b only if a is nothing or nothing is left after b. */
  lemma MessageTwice(m: MessageValue, a: u32, b: u32)
    requires a <= b && NoOPT(m.answer) && NoOPT(m.authority) && NoOPT(m.additional)
    ensures SubTTLMessage(SubTTLMessage(m, a), b) == SubTTLMessage(m, b) <==> a == 0 || AllOver(m, b)
  {
    hide SubTTLs, NoneAbove;
    TTLsTwice(m.answer, a, b, false);
    TTLsTwice(m.authority, a, b, false);
    TTLsTwice(m.additional, a, b, true);
  }

  lemma LoweredKeeps(m: MessageValue, n: u32)
    requires NoOPT(m.answer) && NoOPT(m.authority) && NoOPT(m.additional)
    ensures var m' := SubTTLMessage(m, n); NoOPT(m'.answer) && NoOPT(m'.authority) && NoOPT(m'.additional)
  {
  }

  /** In the packets too: lowered by a and then by b, a packed response is as if lowered by b in the same cases only. */
  lemma PacketTwice(m: MessageValue, a: u32, b: u32)
    requires Packed(m) && !m.header.isQuery && a <= b
    requires NoOPT(m.answer) && NoOPT(m.authority) && NoOPT(m.additional)
    ensures EncodeMessage(SubTTLMessage(SubTTLMessage(m, a), b)) == EncodeMessage(SubTTLMessage(m, b))
       <==> a == 0 || AllOver(m, b)
  {
    hide EncodeMessage, Packed, AllOver, NoOPT, WriteMessageTTLs, SlotsInside, SubTTLs, SameButTTL, RecordsStart, PackedHeader;
    var m1 := SubTTLMessage(m, a);
    MessageTwice(m, a, b);
    LoweredKeeps(m, a);
    SubTTLRewrites(m, a);
    SubTTLRewrites(m1, b);
    SubTTLRewrites(m, b);
    var twice, once := SubTTLMessage(m1, b), SubTTLMessage(m, b);
    SameButTTLs(m, a);
    SameButTTLs(m1, b);
    SameButTTLs(m, b);
    if EncodeMessage(twice) == EncodeMessage(once) {
      TwiceSame(m, a, b);
      SamePacket(twice, once);
    }
  }

  lemma TwiceSame(m: MessageValue, a: u32, b: u32)
    ensures var twice, once := SubTTLMessage(SubTTLMessage(m, a), b), SubTTLMessage(m, b);
      && SameButTTL(twice.answer, once.answer) && SameButTTL(twice.authority, once.authority)
      && SameButTTL(twice.additional, once.additional)
      && once == twice.(answer := once.answer, authority := once.authority, additional := once.additional)
  {
  }
}
