/**
 A message of more than 0x4000 bytes that Pack writes and Unpack reads back with another name (lib/dns/message.go):
 its last name is written as a pointer to an offset that does not fit into the pointer.
 */
module DnsLimit {
  import opened Bytes
  import opened DnsName
  import opened DnsRecord
  import opened DnsWire

  const Q: bytes := [113]
  const B: bytes := [98]

  /** The offset at which the second name is first written: what a pointer keeps of it is 12, where the question is. */
  const FAR: u16 := 0x400C

  function Filler(): Record {
    Record(Q, TYPE_WKS, 1, 0, Wks([0, 0, 0, 0], 0, seq(FAR - 36, _ => 0)), 0)
  }

  function Address(): Record {
    Record(B, TYPE_A, 1, 0, A([0, 0, 0, 0]), 0)
  }

  function LongMessage(): MessageValue {
    MessageValue(FRESH_HEADER.(isQuery := false), Question(Q, 1, 1), [Filler(), Address(), Address()], [], [])
  }

  const FIRST: Table := map[Q := 12]
  const SECOND: Table := map[Q := 12, B := FAR]

  lemma OneLetter(name: bytes)
    requires |name| == 1 && name[0] !in {DOT, BACKSLASH} && !(65 <= name[0] <= 90)
    ensures Dot(name) == 1 && ValidName(name) && Lower(name) == name
  {
    assert Dot(name) == 1;
    assert name[..1] == name;
  }

  lemma Letters()
    ensures Dot(Q) == 1 && ValidName(Q) && Lower(Q) == Q && Dot(B) == 1 && ValidName(B) && Lower(B) == B
  {
    OneLetter(Q);
    OneLetter(B);
  }

  lemma StartIs()
    ensures RecordsStart(LongMessage()) == (19, FIRST)
  {
    hide Dot, ValidName, Lower;
    Letters();
    EncodeNameCases(map[], HEADER_SIZE, Q, false);
    assert map[][Q := 12] == FIRST;
  }

  /** The three records, one behind the other. */
  lemma RecordsAre()
    ensures var (e1, t1) := EncodeRecord(FIRST, 19, Filler());
      var (e2, t2) := EncodeRecord(FIRST, FAR, Address());
      var (e3, t3) := EncodeRecord(SECOND, FAR + 17, Address());
      && |e1| == FAR - 19 && t1 == FIRST && |e2| == 17 && t2 == SECOND && |e3| == 16
      && e3 == Pointer(FAR) + (Fixed(Address()) + Be16(4) + [0, 0, 0, 0])
  {
    hide Dot, ValidName, Lower, Pointer, Fixed, Be16;
    Letters();
    EncodeNameCases(FIRST, 19, Q, true);
    EncodeNameCases(FIRST, FAR, B, true);
    EncodeNameCases(SECOND, FAR + 17, B, true);
    assert FIRST[B := FAR] == SECOND;
  }

  lemma ListsAre()
    ensures var lists := EncodeLists(LongMessage());
      var (e1, e2, e3) := (EncodeRecord(FIRST, 19, Filler()).0, EncodeRecord(FIRST, FAR, Address()).0,
                           EncodeRecord(SECOND, FAR + 17, Address()).0);
      lists == e1 + (e2 + e3) && |lists| == FAR + 14
  {
    hide EncodeRecord, RecordsStart;
    StartIs();
    RecordsAre();
    var m := LongMessage();
    assert m.answer[1..] == [Address(), Address()] && m.answer[1..][1..] == [Address()] && m.answer[1..][1..][1..] == [];
    RecordsCases(FIRST, 19, m.answer);
    RecordsCases(FIRST, FAR, m.answer[1..]);
    RecordsCases(SECOND, FAR + 17, m.answer[1..][1..]);
    RecordsCases(EncodeRecord(SECOND, FAR + 17, Address()).1, FAR + 33, []);
  }

  lemma MessageIs()
    ensures var m := LongMessage();
      ValidMessage(m) && !m.header.isQuery && |EncodeQuestion(m.question)| == 7 == QuestionSize(m.question)
  {
    hide Dot, ValidName, Lower;
    Letters();
    EncodeNameCases(map[], HEADER_SIZE, Q, false);
    assert ValidRecord(Filler()) && ValidRecord(Address());
  }

  /** Where everything stands in the packet. */
  lemma PacketIs() returns (p: bytes)
    ensures p == EncodeMessage(LongMessage()) && |p| == FAR + 33
    ensures At(p, 0, EncodeHeader(PackedHeader(LongMessage()))) && At(p, HEADER_SIZE, EncodeQuestion(LongMessage().question))
    ensures At(p, 19, EncodeRecord(FIRST, 19, Filler()).0)
    ensures At(p, FAR, EncodeRecord(FIRST, FAR, Address()).0)
    ensures At(p, FAR + 17, EncodeRecord(SECOND, FAR + 17, Address()).0)
  {
    hide EncodeHeader, EncodeQuestion, EncodeLists, EncodeRecord, At, EncodeMessage;
    var m := LongMessage();
    p := EncodeMessage(m);
    PacketParts(m);
    MessageIs();
    ListsAre();
    RecordsAre();
    var e1, e2, e3 := EncodeRecord(FIRST, 19, Filler()).0, EncodeRecord(FIRST, FAR, Address()).0,
      EncodeRecord(SECOND, FAR + 17, Address()).0;
    AtParts(p, 19, e1, e2 + e3);
    AtParts(p, FAR, e2, e3);
  }

  /** The pointer is followed to the name of the question. */
  lemma NameMisread(p: bytes, x: nat)
    requires 19 <= x && x + 2 <= |p| && p[x..x + 2] == Pointer(FAR) && Segment(p, 12, 12, 19, Q)
    ensures ReadName(p, x, [], 0, |p| + 1) == Ok(NameRead(Q, x + 1, p))
  {
    hide Segment, Pointer;
    Letters();
    PointerExact(FAR);
    assert p[x] == p[x..x + 2][0] && p[x + 1] == p[x..x + 2][1];
    ReadPointer(p, x, [], 0);
    ReadSegment(p, 12, 12, 19, Q, [], x + 1, |p|);
    assert AppendLabel([], Q) == Q by {
      assert [] + Q == Q;
    }
  }

  lemma RecordMisread(p: bytes)
    requires |p| == FAR + 33 && Sound(p, FAR + 17, SECOND) && Segment(p, 12, 12, 19, Q)
    requires At(p, FAR + 17, EncodeRecord(SECOND, FAR + 17, Address()).0)
    ensures var r := ReadRecord(p, FAR + 17);
      r.Ok? && r.value.record.name == Q && r.value.end == FAR + 33 && r.value.packet == p
  {
    hide Segment, Pointer, Fixed, Be16, ReadName, ReadAfterName, Sound, EncodeRecord;
    RecordsAre();
    var x := FAR + 17;
    var fields := Fixed(Address()) + Be16(4) + [0, 0, 0, 0];
    AtParts(p, x, Pointer(FAR), fields);
    NameMisread(p, x);
    SoundWiden(p, x, x + 2, SECOND);
    FieldsRoundTrip(p, SECOND, x + 2, Address(), Q);
  }

  lemma StartRead(p: bytes)
    requires |p| == FAR + 33 && At(p, HEADER_SIZE, EncodeQuestion(LongMessage().question))
    ensures ReadQuestion(p, HEADER_SIZE) == Ok(QuestionRead(LongMessage().question, p))
    ensures Sound(p, 19, FIRST) && Segment(p, 12, 12, 19, Q)
  {
    hide Dot, ValidName, Lower, EncodeQuestion, ReadQuestion, Segment;
    Letters();
    MessageIs();
    EncodeNameCases(map[], HEADER_SIZE, Q, false);
    QuestionRoundTrip(p, LongMessage().question);
    assert map[][Q := 12] == FIRST && Q in FIRST;
  }

  lemma TwoRead(p: bytes)
    requires |p| == FAR + 33 && Sound(p, 19, FIRST)
    requires At(p, 19, EncodeRecord(FIRST, 19, Filler()).0) && At(p, FAR, EncodeRecord(FIRST, FAR, Address()).0)
    ensures var r := ReadRecord(p, 19); r.Ok? && r.value.end == FAR && r.value.packet == p
    ensures var r := ReadRecord(p, FAR); r.Ok? && r.value.end == FAR + 17 && r.value.packet == p
    ensures Sound(p, FAR + 17, SECOND)
  {
    hide Dot, Lower, EncodeRecord, ReadRecord, Sound, At, EncodeName;
    MessageIs();
    RecordsAre();
    Letters();
    assert ShortRecord(FIRST, 19, Filler()) && ShortRecord(FIRST, FAR, Address());
    RecordRoundTrip(p, FIRST, 19, Filler());
    RecordRoundTrip(p, FIRST, FAR, Address());
  }

  lemma ThreeRead(p: bytes)
    requires |p| == FAR + 33 && Sound(p, 19, FIRST) && Segment(p, 12, 12, 19, Q)
    requires At(p, 19, EncodeRecord(FIRST, 19, Filler()).0) && At(p, FAR, EncodeRecord(FIRST, FAR, Address()).0)
    requires At(p, FAR + 17, EncodeRecord(SECOND, FAR + 17, Address()).0)
    ensures var r := ReadRecords(p, 19, 3);
      r.Ok? && |r.value.records| == 3 && r.value.records[2].name == Q && r.value.packet == p && r.value.end == FAR + 33
  {
    hide EncodeRecord, ReadRecord, Sound, At, Segment;
    TwoRead(p);
    RecordMisread(p);
    var r3 := ReadRecord(p, FAR + 17);
    assert ReadRecords(p, FAR + 33, 0) == Ok(RecordsRead([], FAR + 33, p));
    assert ReadRecords(p, FAR + 17, 1) == Ok(RecordsRead([r3.value.record] + [], FAR + 33, p));
    assert ReadRecords(p, FAR, 2).Ok?;
  }

  lemma ThirdName()
    ensures var u := UnpackedMessage(LongMessage()); |u.answer| == 3 && u.answer[2].name == B
  {
    hide EncodeRecord, RecordsStart, Lower, OffTTL, Dot, ValidName;
    Letters();
    StartIs();
    RecordsAre();
    var m := LongMessage();
    assert m.answer[1..] == [Address(), Address()] && m.answer[1..][1..] == [Address()];
    RecordsCases(FIRST, 19, m.answer);
    RecordsCases(FIRST, FAR, m.answer[1..]);
    RecordsCases(SECOND, FAR + 17, m.answer[1..][1..]);
  }

  lemma PointerTooFar()
    ensures !ShortLists(LongMessage())
  {
    hide EncodeRecord, EncodeRecords, RecordsStart, Lower, Dot, ValidName, EncodeName;
    Letters();
    StartIs();
    RecordsAre();
    var m := LongMessage();
    assert m.answer[1..] == [Address(), Address()] && m.answer[1..][1..] == [Address()];
    assert !ShortRecord(SECOND, FAR + 17, Address());
    assert !ShortRecords(SECOND, FAR + 17, m.answer[1..][1..]);
    assert !ShortRecords(FIRST, FAR, m.answer[1..]);
  }

  /** The message is longer than 0x4000 bytes, and its third record, written for the name "b", is read back with "q". */
  lemma LongMessageMisread()
    ensures var m := LongMessage();
      var r := ReadMessage(FRESH_HEADER, EncodeMessage(m));
      && ValidMessage(m) && |EncodeMessage(m)| == 0x402D && !InReach(m)
      && |UnpackedMessage(m).answer| == 3 && UnpackedMessage(m).answer[2].name == B
      && r.Ok? && |r.value.message.answer| == 3 && r.value.message.answer[2].name == Q
  {
    hide EncodeMessage, EncodeHeader, EncodeQuestion, EncodeRecord, Sound, Segment, ReadHeader, ReadQuestion;
    hide ReadRecords, UnpackedMessage, ShortLists, At;
    var m := LongMessage();
    var p := PacketIs();
    MessageIs();
    HeaderRoundTrip(PackedHeader(m), p);
    StartRead(p);
    ThreeRead(p);
    ThirdName();
    PointerTooFar();
    assert ReadRecords(p, FAR + 33, 0) == Ok(RecordsRead([], FAR + 33, p)) by {
      NoRecords(p, FAR + 33);
    }
  }

  lemma NoRecords(p: bytes, x: nat)
    ensures ReadRecords(p, x, 0) == Ok(RecordsRead([], x, p))
  {
  }
}
