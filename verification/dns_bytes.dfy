/**
 Packed messages in the numbers of RFC 1035 (sections 3.2.2, 4.1.1, 4.1.3 and 4.1.4): what the bytes of names, pointers,
 flags and records are, for all of them, and the whole packet of one response.
 */
module DnsBytes {
  import opened Bytes
  import opened DnsName
  import opened DnsRecord
  import opened DnsWire

  /** The number that the bytes stand for, most significant one first. */
  function Number(s: bytes): nat {
    if s == [] then 0 else Number(s[..|s| - 1]) * 256 + s[|s| - 1]
  }

  lemma NumberOf(s: bytes)
    ensures |s| == 1 ==> Number(s) == s[0] as int
    ensures |s| == 2 ==> Number(s) == s[0] as int * 256 + s[1] as int
    ensures |s| == 4 ==> Number(s) == ((s[0] as int * 256 + s[1] as int) * 256 + s[2] as int) * 256 + s[3] as int
  {
    if |s| == 4 {
      assert s[..3][..2] == s[..2] && s[..2][..1] == s[..1] && s[..1][..0] == [];
    } else if |s| == 2 {
      assert s[..1][..0] == [];
    } else if |s| == 1 {
      assert s[..0] == [];
    }
  }

  // ---------------------------------------------------------------- names

  /** A pointer is the offset with the two highest of its 16 bits set, and a length byte has them clear. */
  lemma PointerNumber(off: u16)
    ensures off < 0x4000 ==> Number(Pointer(off)) == 0xC000 + off
    ensures off >= 0x4000 ==> Number(Pointer(off)) == 0xC000 + off % 0x4000
    ensures forall b: byte :: IsPointer(b) <==> b >= 0xC0
    ensures Target(Pointer(off)[0], Pointer(off)[1]) == Number(Pointer(off)) - 0xC000
  {
    NumberOf(Pointer(off));
    PointerExact(off);
  }

  /** One to 63 bytes, none of them a dot or a backslash. */
  type Label = l: bytes | 1 <= |l| <= 63 && 46 !in l && 92 !in l witness [97]

  /** The labels with dots between them. */
  function Dotted(labels: seq<Label>): (r: bytes)
    requires labels != []
    ensures |r| >= |labels[0]|
    ensures |labels| > 1 ==> |r| > |Dotted(labels[1..])|
  {
    if |labels| == 1 then labels[0] else labels[0] + [46] + Dotted(labels[1..])
  }

  /** Each label behind its length. */
  function Counted(labels: seq<Label>): bytes
  {
    if labels == [] then [] else [|labels[0]|] + labels[0] + Counted(labels[1..])
  }

  lemma FirstDot(labels: seq<Label>)
    requires labels != []
    ensures var name, i := Dotted(labels), |labels[0]|;
      && Dot(name) == i <= |name| && name[..i] == labels[0] && (i < |name| <==> |labels| > 1)
      && (|labels| > 1 ==> name[i + 1..] == Dotted(labels[1..]))
  {
    var name, l := Dotted(labels), labels[0];
    if |labels| > 1 {
      var rest := Dotted(labels[1..]);
      assert name == l + [46] + rest && name[|l|] == 46;
      assert forall j :: 0 <= j < |l| ==> name[j] == l[j] && l[j] in l;
    } else {
      assert forall j :: 0 <= j < |l| ==> name[j] == l[j] && l[j] in l;
    }
  }

  lemma {:induction false} DottedValid(labels: seq<Label>)
    requires labels != []
    ensures ValidName(Dotted(labels))
    decreases |labels|
  {
    hide Dot, Dotted;
    FirstDot(labels);
    if |labels| > 1 {
      DottedValid(labels[1..]);
    }
  }

  /** Every suffix of the name is shorter than it. */
  lemma {:induction false} SuffixShorter(labels: seq<Label>, i: nat)
    requires 0 < i < |labels|
    ensures |Dotted(labels[i..])| < |Dotted(labels)|
    decreases |labels|
  {
    if i > 1 {
      SuffixShorter(labels[1..], i - 1);
      assert labels[1..][i - 1..] == labels[i..];
    }
  }

  /**
   What is written for a name: its labels, each behind its length, up to the first suffix that the table knows, and
   then the pointer to that suffix; or all of its labels and a zero byte.
   */
  lemma {:induction false} NameBytes(t: Table, off: nat, labels: seq<Label>, k: nat, compress: bool)
    requires labels != [] && k <= |labels|
    requires compress ==> forall i :: 0 <= i < k ==> Dotted(labels[i..]) !in t
    requires k < |labels| ==> compress && Dotted(labels[k..]) in t
    ensures EncodeName(t, off, Dotted(labels), compress).0 ==
      Counted(labels[..k]) + if k < |labels| then Pointer(t[Dotted(labels[k..])]) else [0]
    decreases |labels|
  {
    hide Dot, Dotted, Pointer, EncodeName, Counted, ValidName;
    var name := Dotted(labels);
    assert labels[0..] == labels;
    DottedValid(labels);
    EncodeNameCases(t, off, name, compress);
    CountedFirst(labels, k);
    if k > 0 {
      FirstDot(labels);
      if |labels| > 1 {
        var t1 := t[name := off % 0x1_0000];
        forall i | compress && 0 <= i < k - 1 ensures Dotted(labels[1..][i..]) !in t1 {
          OtherSuffix(labels, i + 1);
        }
        if k < |labels| {
          OtherSuffix(labels, k);
        }
        NameBytes(t1, off + 1 + |labels[0]|, labels[1..], k - 1, compress);
      }
    }
  }

  lemma CountedFirst(labels: seq<Label>, k: nat)
    requires k <= |labels|
    ensures k == 0 ==> forall s: bytes :: Counted(labels[..k]) + s == s
    ensures k > 0 ==> forall s: bytes ::
      Counted(labels[..k]) + s == [|labels[0]|] + labels[0] + (Counted(labels[1..][..k - 1]) + s)
    ensures k == |labels| == 1 ==> Counted(labels[..k]) == [|labels[0]|] + labels[0]
  {
    if k > 0 {
      assert labels[..k][0] == labels[0] && labels[..k][1..] == labels[1..][..k - 1];
      var a, b := [|labels[0]|] + labels[0], Counted(labels[1..][..k - 1]);
      assert Counted(labels[..k]) == a + b;
      assert forall s: bytes :: a + b + s == a + (b + s);
    }
  }

  lemma OtherSuffix(labels: seq<Label>, i: nat)
    requires 0 < i < |labels|
    ensures labels[1..][i - 1..] == labels[i..] && Dotted(labels[i..]) != Dotted(labels)
  {
    hide Dotted;
    SuffixShorter(labels, i);
  }

  // ---------------------------------------------------------------- header and records

  /** The flags as one number: QR 0x8000, AA 0x0400, TC 0x0200, RD 0x0100, RA 0x0080 and the code in the last four bits. */
  lemma FlagsNumber(h: Header)
    ensures Number([Flags0(h), Flags1(h)]) ==
      (if h.isQuery then 0 else 0x8000) + h.op % 32 / 2 * 0x0800 + (if !h.isQuery && h.isAA then 0x0400 else 0)
      + (if !h.isQuery && h.isTC then 0x0200 else 0) + (if h.isRD then 0x0100 else 0)
      + (if !h.isQuery && h.isRA then 0x0080 else 0) + (if h.isQuery then 0 else h.rcode % 16)
  {
    hide Mask78;
    NumberOf([Flags0(h), Flags1(h)]);
    OpcodeBits(h.op);
  }

  /** The numbers of the record types (section 3.2.2, and RFC 2782 for SRV). */
  lemma TypeNumbers(rtype: u16, rd: RData)
    ensures TypeMatches(rtype, rd) <==>
      match rd
      case A(address) => rtype == 1 && |address| == 4
      case Host(_) => rtype in {2, 5, 7, 8, 9, 12}
      case Mx(_, _) => rtype == 15
      case Minfo(_, _) => rtype == 14
      case Srv(_, _, _, _, _, _, _) => rtype == 33
      case Wks(address, _, _) => rtype == 11 && |address| == 4
  {
  }

  /** The header of a message: identification, flags, and the four counts. */
  lemma HeaderNumbers(h: Header)
    ensures var e := EncodeHeader(h);
      && Number(e[0..2]) == h.id && e[2] == Flags0(h) && e[3] == Flags1(h)
      && Number(e[4..6]) == h.qdCount && Number(e[6..8]) == h.anCount
      && Number(e[8..10]) == h.nsCount && Number(e[10..12]) == h.arCount
  {
    hide Flags0, Flags1;
    var e := EncodeHeader(h);
    Number16(h.id, e[0..2]);
    Number16(h.qdCount, e[4..6]);
    Number16(h.anCount, e[6..8]);
    Number16(h.nsCount, e[8..10]);
    Number16(h.arCount, e[10..12]);
  }

  lemma Number16(v: u16, s: bytes)
    requires |s| == 2 && s[0] == Be16(v)[0] && s[1] == Be16(v)[1]
    ensures Number(s) == v && s == Be16(v)
  {
    NumberOf(s);
  }

  lemma Number32(v: u32, s: bytes)
    requires s == Be32(v)
    ensures Number(s) == v
  {
    NumberOf(s);
  }

  /** A record behind its name: type, class, time to live and length in ten bytes, and then as many bytes of data. */
  lemma RecordNumbers(t: Table, off: nat, rr: Record)
    ensures var n := EncodeName(t, off, Lower(rr.name), true);
      var d := EncodeRData(n.1, off + |n.0| + 10, rr.rdata);
      var f := EncodeRecord(t, off, rr).0[|n.0|..];
      && EncodeRecord(t, off, rr).0[..|n.0|] == n.0 && |f| == 10 + |d.0| && f[10..] == d.0
      && Number(f[0..2]) == rr.rtype && Number(f[2..4]) == rr.class_ && Number(f[4..8]) == rr.ttl
      && (|d.0| < 0x1_0000 ==> Number(f[8..10]) == |d.0|)
  {
    hide EncodeName, EncodeRData, Be16, Be32;
    var n := EncodeName(t, off, Lower(rr.name), true);
    var d := EncodeRData(n.1, off + |n.0| + 10, rr.rdata);
    var e := EncodeRecord(t, off, rr).0;
    var f := e[|n.0|..];
    assert f == Be16(rr.rtype) + Be16(rr.class_) + Be32(rr.ttl) + Be16(|d.0| % 0x1_0000) + d.0;
    Number16(rr.rtype, f[0..2]);
    Number16(rr.class_, f[2..4]);
    assert f[4..8] == Be32(rr.ttl);
    Number32(rr.ttl, f[4..8]);
    Number16(|d.0| % 0x1_0000, f[8..10]);
  }

  // ---------------------------------------------------------------- one response

  const Q: bytes := [113]

  function Address(): Record {
    Record(Q, 1, 1, 300, A([10, 0, 0, 1]), 0)
  }

  function Exchange(): Record {
    Record(Q, 15, 1, 3600, Mx(10, [109, 46, 113]), 0)
  }

  /** The address of "q", asked for as "Q", and its mail exchange "m.q". */
  function Response(): MessageValue {
    MessageValue(
      Header(0x1234, false, 0, true, false, true, true, 3, 1, 0, 0, 0), Question([81], 1, 1), [Address()], [Exchange()], [])
  }

  const AT_QUESTION: Table := map[Q := 12]

  lemma LettersValid()
    ensures Lower(Q) == Q && Dot(Q) == 1 && ValidName(Q)
    ensures Lower([81]) == Q && ValidName([81])
    ensures Lower([109, 46, 113]) == [109, 46, 113] && Dot([109, 46, 113]) == 1 && [109, 46, 113][2..] == Q
    ensures ValidName([109, 46, 113])
  {
    assert Q[..1] == Q;
    var upper: bytes := [81];
    assert Dot(upper) == 1 && upper[..1] == upper;
    var name: bytes := [109, 46, 113];
    assert name[..1] == [109] && name[1] == DOT;
  }

  lemma QuestionBytes()
    ensures EncodeQuestion(Response().question) == [1, 113, 0, 0, 1, 0, 1]
    ensures RecordsStart(Response()) == (19, AT_QUESTION)
  {
    hide Dot, ValidName, Lower;
    LettersValid();
    EncodeNameCases(map[], HEADER_SIZE, Q, false);
    assert map[][Q := 12] == AT_QUESTION;
    assert Be16(1) == [0, 1];
  }

  lemma AddressBytes()
    ensures EncodeRecord(AT_QUESTION, 19, Address()).0 == [0xC0, 0x0C, 0, 1, 0, 1, 0, 0, 0x01, 0x2C, 0, 4, 10, 0, 0, 1]
    ensures EncodeRecord(AT_QUESTION, 19, Address()).1 == AT_QUESTION
  {
    hide Dot, ValidName, Lower;
    LettersValid();
    EncodeNameCases(AT_QUESTION, 19, Q, true);
    assert Pointer(12) == [0xC0, 0x0C];
    assert Fixed(Address()) == [0, 1, 0, 1, 0, 0, 0x01, 0x2C] && Be16(4) == [0, 4];
    assert EncodeName(AT_QUESTION, 19, Lower(Q), true) == ([0xC0, 0x0C], AT_QUESTION);
    assert EncodeRData(AT_QUESTION, 31, Address().rdata) == ([10, 0, 0, 1], AT_QUESTION);
  }

  lemma ExchangeBytes()
    ensures EncodeRecord(AT_QUESTION, 35, Exchange()).0 ==
      [0xC0, 0x0C, 0, 15, 0, 1, 0, 0, 0x0E, 0x10, 0, 6, 0, 10, 1, 109, 0xC0, 0x0C]
  {
    hide Dot, ValidName, Lower;
    LettersValid();
    var name: bytes := [109, 46, 113];
    EncodeNameCases(AT_QUESTION, 35, Q, true);
    EncodeNameCases(AT_QUESTION, 49, name, true);
    assert name !in AT_QUESTION;
    EncodeNameCases(AT_QUESTION[name := 49], 51, Q, true);
    assert name[..1] == [109];
    assert Pointer(12) == [0xC0, 0x0C];
    assert Fixed(Exchange()) == [0, 15, 0, 1, 0, 0, 0x0E, 0x10] && Be16(6) == [0, 6] && Be16(10) == [0, 10];
    assert EncodeRData(AT_QUESTION, 47, Mx(10, name)).0 == [0, 10] + ([1] + [109] + [0xC0, 0x0C]);
  }

  lemma ListBytes()
    ensures EncodeLists(Response()) ==
      [0xC0, 0x0C, 0, 1, 0, 1, 0, 0, 0x01, 0x2C, 0, 4, 10, 0, 0, 1]
      + [0xC0, 0x0C, 0, 15, 0, 1, 0, 0, 0x0E, 0x10, 0, 6, 0, 10, 1, 109, 0xC0, 0x0C]
  {
    hide EncodeRecord, RecordsStart;
    QuestionBytes();
    AddressBytes();
    ExchangeBytes();
    var m := Response();
    assert m.answer[1..] == [] && m.authority[1..] == [];
    RecordsCases(AT_QUESTION, 19, m.answer);
    RecordsCases(AT_QUESTION, 35, m.answer[1..]);
    RecordsCases(AT_QUESTION, 35, m.authority);
    var x := 35 + |EncodeRecord(AT_QUESTION, 35, Exchange()).0|;
    RecordsCases(EncodeRecord(AT_QUESTION, 35, Exchange()).1, x, m.authority[1..]);
    RecordsCases(EncodeRecord(AT_QUESTION, 35, Exchange()).1, x, []);
  }

  lemma HeaderBytes()
    ensures EncodeHeader(PackedHeader(Response())) == [0x12, 0x34, 0x85, 0x83, 0, 1, 0, 1, 0, 1, 0, 0]
  {
    assert Be16(0x1234) == [0x12, 0x34] && Be16(0) == [0, 0] && Be16(1) == [0, 1];
  }

  /** The whole packet: header, question, and two records whose names point to the one in the question. */
  lemma ResponseBytes()
    ensures EncodeMessage(Response()) ==
      [0x12, 0x34, 0x85, 0x83, 0, 1, 0, 1, 0, 1, 0, 0]
      + [1, 113, 0, 0, 1, 0, 1]
      + [0xC0, 0x0C, 0, 1, 0, 1, 0, 0, 0x01, 0x2C, 0, 4, 10, 0, 0, 1]
      + [0xC0, 0x0C, 0, 15, 0, 1, 0, 0, 0x0E, 0x10, 0, 6, 0, 10, 1, 109, 0xC0, 0x0C]
  {
    hide EncodeHeader, EncodeQuestion, EncodeLists;
    HeaderBytes();
    QuestionBytes();
    ListBytes();
  }

  /** And it is read back. */
  lemma ResponseRead()
    ensures ValidMessage(Response())
    ensures var r := ReadMessage(FRESH_HEADER, EncodeMessage(Response()));
      && r.Ok? && r.value.message.question == Question(Q, 1, 1)
      && |r.value.message.answer| == 1 && r.value.message.answer[0] == Address().(offTTL := 25)
      && |r.value.message.authority| == 1 && r.value.message.authority[0] == Exchange().(offTTL := 41)
  {
    hide EncodeMessage, ReadMessage, Lower, Dot, ValidName, EncodeRecord, RecordsStart, NormalHeader, PackedHeader;
    var m := Response();
    LettersValid();
    ResponseBytes();
    MessageRoundTrip(m);
    QuestionBytes();
    AddressBytes();
    assert m.answer[1..] == [] && m.authority[1..] == [];
    RecordsCases(AT_QUESTION, 19, m.answer);
    RecordsCases(AT_QUESTION, 35, m.answer[1..]);
    RecordsCases(AT_QUESTION, 35, m.authority);
    NameAtQuestion(19);
    NameAtQuestion(35);
    assert Lowered(Address(), 25) == Address().(offTTL := 25) && Lowered(Exchange(), 41) == Exchange().(offTTL := 41);
  }

  lemma NameAtQuestion(x: nat)
    ensures EncodeName(AT_QUESTION, x, Lower(Q), true) == (Pointer(12), AT_QUESTION)
  {
    hide Dot, ValidName, Lower, Pointer;
    LettersValid();
    EncodeNameCases(AT_QUESTION, x, Q, true);
  }

  // ---------------------------------------------------------------- kinds of data

  /** The data of the other kinds: names are pointers where they may be compressed, and numbers have two bytes each. */
  lemma KindBytes()
    ensures EncodeRData(AT_QUESTION, 31, Host(Q)).0 == [0xC0, 0x0C]
    ensures EncodeRData(AT_QUESTION, 31, Minfo(Q, Q)).0 == [0xC0, 0x0C, 0xC0, 0x0C]
    ensures EncodeRData(AT_QUESTION, 31, Srv([], [], [], 1, 2, 0x1F90, Q)).0 == [0, 1, 0, 2, 0x1F, 0x90, 1, 113, 0]
    ensures EncodeRData(AT_QUESTION, 31, Wks([10, 0, 0, 1], 6, [0x40])).0 == [10, 0, 0, 1, 6, 0x40]
    ensures EncodeRData(AT_QUESTION, 31, Mx(-1, Q)).0 == [0xFF, 0xFF, 0xC0, 0x0C]
  {
    hide Dot, ValidName, Lower;
    LettersValid();
    NameAtQuestion(31);
    NameAtQuestion(33);
    EncodeNameCases(AT_QUESTION, 37, Q, false);
    assert Pointer(12) == [0xC0, 0x0C];
    assert Be16(1) == [0, 1] && Be16(2) == [0, 2] && Be16(0x1F90) == [0x1F, 0x90] && Be16(0xFFFF) == [0xFF, 0xFF];
  }

  /** A byte between a length and a pointer is neither, wherever it stands. */
  lemma ReservedLabel(p: bytes, x: nat, out: bytes, off: nat)
    requires x < |p| && 64 <= p[x] < 0xC0
    ensures ReadName(p, x, out, off, |p| + 1) == Err(LabelSizeLimit)
  {
  }

  /** SubTTL leaves the pseudo record of type 41 in the additional list alone, and there alone. */
  lemma PseudoKept(m: MessageValue, n: u32, i: nat)
    ensures var r := SubTTLMessage(m, n);
      && (i < |m.additional| ==>
            r.additional[i] == if m.additional[i].rtype == 41 then m.additional[i] else m.additional[i].(ttl := Less(m.additional[i].ttl, n)))
      && (i < |m.answer| ==> r.answer[i] == m.answer[i].(ttl := Less(m.answer[i].ttl, n)))
      && (i < |m.authority| ==> r.authority[i] == m.authority[i].(ttl := Less(m.authority[i].ttl, n)))
      && r.header == m.header && r.question == m.question
      && |r.answer| == |m.answer| && |r.authority| == |m.authority| && |r.additional| == |m.additional|
  {
  }

  function Less(ttl: u32, n: u32): u32 {
    if ttl > n then ttl - n else 0
  }

  /** In the packet only the four bytes of the slots change, and none for a pseudo record of the additional list. */
  lemma {:induction false} OnlySlots(p: bytes, rrs: seq<Record>, skipOPT: bool, j: nat)
    requires SlotsInside(rrs, |p|) && j < |p|
    requires forall i :: 0 <= i < |rrs| ==>
      (skipOPT && rrs[i].rtype == 41) || !(rrs[i].offTTL <= j < rrs[i].offTTL + 4)
    ensures WriteTTLs(p, rrs, skipOPT)[j] == p[j]
    decreases |rrs|
  {
    hide Be32;
    if rrs != [] {
      var q := if skipOPT && rrs[0].rtype == TYPE_OPT then p else Overwrite(p, rrs[0].offTTL, Be32(rrs[0].ttl));
      OnlySlots(q, rrs[1..], skipOPT, j);
    }
  }

  // ---------------------------------------------------------------- reading

  /** Without flags on the wire a header that is read into keeps those that are only raised; with all of them it has all. */
  lemma FlagsRead(h: Header, p: bytes)
    requires |p| >= 12
    ensures var r := ReadHeader(h, p);
      && (p[2] == 0 && p[3] == 0 ==>
            && r.isQuery == h.isQuery && r.isAA == h.isAA && r.isTC == h.isTC && r.isRA == h.isRA
            && !r.isRD && r.op == 0 && r.rcode == 0)
      && (p[2] == 0xFF && p[3] == 0xFF ==>
            !r.isQuery && r.isAA && r.isTC && r.isRA && r.isRD && r.op == 30 && r.rcode == 15)
  {
  }

  /** The owner name of an SRV record is service, protocol and the rest, as far as it has dots. */
  lemma ServiceParts(service: bytes, proto: bytes, name: bytes)
    requires 46 !in service && 46 !in proto
    ensures SplitService(service + [46] + (proto + [46] + name)) == (service, proto, name)
    ensures SplitService(service + [46] + proto) == (service, proto, [])
    ensures SplitService(service) == (service, [], [])
  {
    var two := proto + [46] + name;
    DotBehind(service, [46] + two);
    DotBehind(service, [46] + proto);
    DotBehind(service, []);
    DotBehind(proto, [46] + name);
    DotBehind(proto, []);
    assert service + [46] + two == service + ([46] + two) && service + [46] + proto == service + ([46] + proto);
    assert proto + [46] + name == proto + ([46] + name) && service + [] == service && proto + [] == proto;
    assert (service + ([46] + two))[|service| + 1..] == two && (service + ([46] + proto))[|service| + 1..] == proto;
    assert (proto + ([46] + name))[|proto| + 1..] == name;
  }

  lemma DotBehind(a: bytes, rest: bytes)
    requires 46 !in a && (rest == [] || rest[0] == 46)
    ensures Dot(a + rest) == |a| && (a + rest)[..|a|] == a
  {
    assert forall i :: 0 <= i < |a| ==> (a + rest)[i] == a[i] && a[i] in a;
    assert rest != [] ==> (a + rest)[|a|] == 46;
  }

  /** The root name takes one byte, but as the first mailbox of a MINFO record it is stepped over as if it took two. */
  lemma RootMailbox(p: bytes, x: nat)
    requires x < |p| && p[x] == 0
    ensures ReadName(p, x, [], 0, |p| + 1) == Ok(NameRead([], 0, p)) && NameEnd(x, 0, 0) == x + 1
    ensures ReadMinfo(p, x) ==
      match ReadName(p, x + 2, [], 0, |p| + 1)
      case Ok(e) => Ok(DataRead(Minfo([], e.out), e.packet))
      case Err(e) => Err(e)
      case Undefined => Undefined
  {
    RootRead(p, x);
    hide ReadName;
    assert ReadName(p, x, [], 0, |p| + 1) == Ok(NameRead([], 0, p));
  }

  lemma RootRead(p: bytes, x: nat)
    requires x < |p| && p[x] == 0
    ensures ReadName(p, x, [], 0, |p| + 1) == Ok(NameRead([], 0, p))
  {
  }

  /** A question about the root name is refused, and so is one whose label or type goes beyond the packet. */
  lemma RefusedQuestions()
    ensures ReadQuestion([0, 0, 2, 0, 1], 0) == Err(InvalidQuestion)
    ensures ReadQuestion([5, 113], 0) == Err(InvalidQuestion)
    ensures ReadQuestion([1, 113, 0, 0, 1, 0], 0) == Err(InvalidQuestion)
    ensures ReadQuestion([1, 113, 0, 0, 1, 0, 1], 0) == Ok(QuestionRead(Question(Q, 1, 1), [1, 113, 0, 0, 1, 0, 1]))
  {
    hide Lower;
    LettersValid();
    var p: bytes := [0, 0, 2, 0, 1];
    assert ReadLabels(p, 3, 2, [46, 46]) == Err(InvalidQuestion);
    OneLabel([1, 113, 0, 0, 1, 0]);
    OneLabel([1, 113, 0, 0, 1, 0, 1]);
  }

  lemma OneLabel(p: bytes)
    requires |p| >= 3 && p[0] == 1 && p[1] == 113 && p[2] == 0
    ensures ReadLabels(p, 1, p[0], []) == Ok(LabelsRead(Q, 3, p))
  {
    hide Lower;
    LettersValid();
    assert p[1..2] == Q;
    assert Overwrite(p, 1, Q) == p;
    assert [] + Q == Q;
  }
}
