/**
 The WebSocket wire in the numbers of RFC 6455 (sections 5.2, 5.3 and 5.7): what the first bytes of a packet mean, and
 what a new client calls its handlers with when given packets byte by byte.
 */
module WsBytes {
  import opened Bytes
  import opened WsFrame
  import opened WsSplit
  import opened WsClient

  // ---------------------------------------------------------------- the header

  /** The first byte is FIN 0x80, the reserved bits 0x40, 0x20 and 0x10, and the opcode in the last four bits. */
  lemma FirstByte(p: bytes)
    requires p != []
    ensures var g := ReadFirst(FRESH_FRAME, p).frame;
      && g.fin in {0, 0x80} && g.rsv1 in {0, 0x40} && g.rsv2 in {0, 0x20} && g.rsv3 in {0, 0x10} && g.opcode < 16
      && p[0] as int == g.fin as int + g.rsv1 as int + g.rsv2 as int + g.rsv3 as int + g.opcode as int
  {
    Binary(p[0]);
  }

  lemma Binary(b: byte)
    ensures b as int == Flag(b, 0x80) as int + Flag(b, 0x40) as int + Flag(b, 0x20) as int + Flag(b, 0x10) as int + b as int % 16
  {
    var h: nat := b as int / 16;
    assert b as int == 16 * h + b as int % 16;
    assert b as int / 32 == h / 2 && b as int / 64 == h / 4 && b as int / 128 == h / 8;
    Nibble(h);
  }

  lemma Nibble(h: nat)
    requires h < 16
    ensures h == h / 8 % 2 * 8 + h / 4 % 2 * 4 + h / 2 % 2 * 2 + h % 2
  {
  }

  /** What unpack knows after the first two bytes stays as it is. */
  lemma HeaderKept(p: bytes)
    requires |p| >= 2
    ensures var g, s := UnpackFrame(FRESH_FRAME, p).0, ReadFirst(FRESH_FRAME, p).frame;
      && g.fin == s.fin && g.rsv1 == s.rsv1 && g.rsv2 == s.rsv2 && g.rsv3 == s.rsv3 && g.opcode == s.opcode
      && g.masked == if p[1] >= 0x80 then 0x80 else 0
  {
    hide Mask, CloseCode, FromBigEndian;
    var s := ReadFirst(FRESH_FRAME, p);
    var t := ReadSecond(s.frame, s.rest);
    BodyKeeps(t.frame, t.rest);
    assert p[1] / 0x80 % 2 == 1 <==> p[1] >= 0x80;
  }

  lemma BodyKeeps(f: FrameValue, p: bytes)
    requires |f.chopped| >= 2 && Readable(f)
    ensures var g := ReadBody(f, p).0;
      && g.fin == f.fin && g.rsv1 == f.rsv1 && g.rsv2 == f.rsv2 && g.rsv3 == f.rsv3 && g.opcode == f.opcode
      && g.masked == f.masked
  {
    hide Mask, CloseCode, FromBigEndian;
    ReadLengthReadable(f, p);
    var s := ReadLength(f, p);
    if s.Continue? {
      ReadMaskReadable(s.frame, s.rest);
    }
  }

  /** Up to 125 bytes the length is the second byte; 126 announces two bytes more, and 127 eight. */
  lemma LengthBytes(masked: byte, size: nat)
    requires masked in {0, 0x80} && size < Pow256(8)
    ensures size <= 125 ==> EncodeLength(masked, size) == [masked + size]
    ensures 125 < size < 0x1_0000 ==> EncodeLength(masked, size) == [masked + 126, size / 256, size % 256]
    ensures size >= 0x1_0000 ==> EncodeLength(masked, size) == [masked + 127] + BigEndian(size, 8)
    ensures size == 0x1_0000 ==> EncodeLength(masked, size) == [masked + 127, 0, 0, 0, 0, 0, 1, 0, 0]
  {
    TwoBytes(size);
    if size == 0x1_0000 {
      SixtyFourK();
    }
  }

  lemma TwoBytes(size: nat)
    ensures size < 0x1_0000 ==> BigEndian(size, 2) == [size / 256, size % 256]
  {
    assert BigEndian(size / 256 / 256, 0) == [];
    assert size < 0x1_0000 ==> size / 256 < 256;
  }

  lemma SixtyFourK()
    ensures BigEndian(0x1_0000, 8) == [0, 0, 0, 0, 0, 1, 0, 0]
  {
    assert BigEndian(0, 0) == [];
    assert BigEndian(0, 1) == [0];
    assert BigEndian(0, 3) == [0, 0, 0];
    assert BigEndian(0, 5) == [0, 0, 0, 0, 0];
    assert BigEndian(1, 6) == [0, 0, 0, 0, 0, 1];
    assert BigEndian(0x100, 7) == [0, 0, 0, 0, 0, 1, 0];
  }

  /** The number with these bits, the lowest first. */
  function Value(bits: seq<bool>): nat {
    if bits == [] then 0 else (if bits[0] then 1 else 0) + 2 * Value(bits[1..])
  }

  function Bits(a: nat, n: nat): (bits: seq<bool>)
    ensures |bits| == n
  {
    if n == 0 then [] else [a % 2 == 1] + Bits(a / 2, n - 1)
  }

  lemma {:induction false} BitsOf(a: nat, n: nat)
    requires a < Pow2(n)
    ensures Value(Bits(a, n)) == a
  {
    if n > 0 {
      BitsOf(a / 2, n - 1);
      assert Bits(a, n)[1..] == Bits(a / 2, n - 1);
    }
  }

  function Differ(x: seq<bool>, y: seq<bool>): seq<bool>
    requires |x| == |y|
  {
    seq(|x|, i requires 0 <= i < |x| => x[i] != y[i])
  }

  /** An exclusive or has the bits that are set in one of the two and not in the other. */
  lemma {:induction false} XorIsDiffer(x: seq<bool>, y: seq<bool>)
    requires |x| == |y|
    ensures XorBits(Value(x), Value(y), |x|) == Value(Differ(x, y))
    decreases |x|
  {
    hide XorBits;
    XorStep(Value(x), Value(y), |x|);
    if x != [] {
      LastBit(Value(x), if x[0] then 1 else 0, Value(x[1..]));
      LastBit(Value(y), if y[0] then 1 else 0, Value(y[1..]));
      XorIsDiffer(x[1..], y[1..]);
      assert Differ(x, y)[1..] == Differ(x[1..], y[1..]);
    }
  }

  // ---------------------------------------------------------------- packets and what they make the client call

  /** The code of a closing frame: the first two bytes, 1000 without any, and 1002 if there is only one. */
  function CodeOf(payload: bytes): u16 {
    if payload == [] then 1000 else if |payload| == 1 then 1002 else payload[0] as int * 256 + payload[1] as int
  }

  /** A frame of at most 125 bytes, as it is read. */
  function Small(fin: byte, opcode: byte, payload: bytes): FrameValue {
    FrameValue(fin, 0, 0, 0, opcode, 0, if opcode == 8 then CodeOf(payload) else 0, |payload|, [], payload, [], true)
  }

  function SmallBytes(fin: byte, opcode: byte, payload: bytes): (p: bytes)
    requires fin in {0, 0x80} && opcode < 16 && |payload| <= 125
    ensures p != []
  {
    [fin + opcode, |payload|] + payload
  }

  lemma SmallFrame(fin: byte, opcode: byte, payload: bytes)
    requires fin in {0, 0x80} && opcode < 16 && |payload| <= 125
    ensures UnpackFrame(FRESH_FRAME, SmallBytes(fin, opcode, payload)) == (Small(fin, opcode, payload), [])
  {
    hide UnpackFrame, Pow256, EncodeLength;
    var f := FRESH_FRAME.(fin := fin, opcode := opcode, payload := payload);
    EightBytes();
    LengthBytes(0, |payload|);
    FrameRoundTrip(f, []);
    assert EncodeFrame(f) + [] == SmallBytes(fin, opcode, payload);
  }

  lemma EightBytes()
    ensures Pow256(8) > 0x1_0000
  {
    assert Pow256(5) > 0;
  }

  /** What the client calls when a frame arrives that is final, unmasked and without reserved bits, and whether it stops. */
  function Calls(h: Handlers, log: seq<Event>, f: FrameValue): (seq<Event>, bool) {
    match f.opcode as int
    case 1 => if h.utf8(f.payload) then Handed(h, log, Text(f)) else ([InvalidData], true)
    case 2 => Handed(h, log, Bin(f))
    case 8 => ([Close(f)], true)
    case 9 => ([Ping(f)], false)
    case 10 => (if h.hasPong then [Pong(f)] else [], false)
    case n => if n < 8 then ([BadRequest], true) else if h.hasRsvControl then ([RsvControl(f)], false) else ([Close(f)], true)
  }

  function Handed(h: Handlers, log: seq<Event>, e: Event): (seq<Event>, bool) {
    if h.accepts(log, e) then ([e], false) else ([e, BadRequest], true)
  }

  /**
   The numbers of section 5.2: a packet of one frame with opcode 1 is handed to the text handler, if it is UTF-8, and
   with 2 to the binary one; 8 closes, 9 is a ping and 10 a pong; 0 and 3 to 7 are refused, 11 to 15 are reserved.
   */
  lemma OneFrame(h: Handlers, log: seq<Event>, opcode: byte, payload: bytes)
    requires opcode < 16 && |payload| <= 125
    ensures var f := Small(0x80, opcode, payload);
      var r, c := Run(h, State(None, None, log), [SmallBytes(0x80, opcode, payload)]), Calls(h, log, f);
      r.state.log == log + c.0 && r.closing == c.1 && r.state.frames == None && r.state.frame == None
  {
    hide UnpackFrame, SmallBytes, Feed, HandleFrame;
    var st, p, f := State(None, None, log), SmallBytes(0x80, opcode, payload), Small(0x80, opcode, payload);
    OnePacket(h, st, 0x80, opcode, payload);
    var packets: seq<bytes> := [p];
    FrameCalls(h, log, f);
    var r := HandleFrame(h, st, f);
    assert packets[1..] == [] && Run(h, r.state, []) == WsClient.Outcome(r.state, false);
  }

  lemma FrameCalls(h: Handlers, log: seq<Event>, f: FrameValue)
    requires f == Small(0x80, f.opcode, f.payload) && f.opcode < 16 && |f.payload| <= 125
    ensures var r, c := HandleFrame(h, State(None, None, log), f), Calls(h, log, f);
      r.state == State(None, None, log + c.0) && r.closing == c.1
  {
    assert log + [] == log;
  }

  /** A packet of one frame is that frame, handled. */
  lemma OnePacket(h: Handlers, st: State, fin: byte, opcode: byte, payload: bytes)
    requires StateOk(st) && st.frame == None && fin in {0, 0x80} && opcode < 16 && |payload| <= 125
    ensures Serve(h, st, SmallBytes(fin, opcode, payload)) == HandleFrame(h, st, Small(fin, opcode, payload))
  {
    hide UnpackFrame, HandleFrame;
    var p, f := SmallBytes(fin, opcode, payload), Small(fin, opcode, payload);
    SmallFrame(fin, opcode, payload);
    assert UnpackAll([]) == [];
    assert UnpackAll(p) == [f] + [];
    HandleFrameOk(h, st, f);
    var r := HandleFrame(h, st, f);
    assert HandleFrames(h, r.state, []) == WsClient.Outcome(r.state, false);
    assert [f][1..] == [] && HandleRaw(h, st, p) == HandleFrames(h, st, [f]);
  }

  /** A message in two fragments, with a ping between them: one event, with the first opcode and both payloads. */
  lemma TwoFragments(h: Handlers, opcode: byte, a: bytes, b: bytes)
    requires opcode in {1, 2} && |a| <= 125 && |b| <= 125
    ensures var ping, f := Small(0x80, 9, []), Small(0, opcode, a).(payload := a + b);
      var r := Run(h, State(None, None, []), [SmallBytes(0, opcode, a), SmallBytes(0x80, 9, []), SmallBytes(0x80, 0, b)]);
      var c := Calls(h, [Ping(ping)], f);
      r.state.log == [Ping(ping)] + c.0 && r.closing == c.1 && r.state.frames == None && r.state.frame == None
  {
    hide UnpackFrame, SmallBytes, Feed, HandleFrame, Serve;
    var st, first, ping, last := State(None, None, []), Small(0, opcode, a), Small(0x80, 9, []), Small(0x80, 0, b);
    var st1, st2 := st.(frames := Some([first])), State(None, Some([first]), [Ping(ping)]);
    OnePacket(h, st, 0, opcode, a);
    OnePacket(h, st1, 0x80, 9, []);
    OnePacket(h, st2, 0x80, 0, b);
    FragmentSteps(h, opcode, a, b);
    var r := HandleFrame(h, st2, last);
    HandleFrameOk(h, st2, last);
    var packets: seq<bytes> := [SmallBytes(0, opcode, a), SmallBytes(0x80, 9, []), SmallBytes(0x80, 0, b)];
    assert packets[1..] == [SmallBytes(0x80, 9, []), SmallBytes(0x80, 0, b)] && packets[1..][1..] == [SmallBytes(0x80, 0, b)];
    assert |packets[1..][1..][1..]| == 0;
    assert Run(h, r.state, []) == WsClient.Outcome(r.state, false);
    assert Run(h, st2, packets[1..][1..]) == r;
    assert Run(h, st1, packets[1..]) == r;
  }

  lemma FragmentSteps(h: Handlers, opcode: byte, a: bytes, b: bytes)
    requires opcode in {1, 2} && |a| <= 125 && |b| <= 125
    ensures var first, ping, last := Small(0, opcode, a), Small(0x80, 9, []), Small(0x80, 0, b);
      var st1, st2 := State(None, Some([first]), []), State(None, Some([first]), [Ping(ping)]);
      var r, c := HandleFrame(h, st2, last), Calls(h, [Ping(ping)], first.(payload := a + b));
      && HandleFrame(h, State(None, None, []), first) == WsClient.Outcome(st1, false)
      && HandleFrame(h, st1, ping) == WsClient.Outcome(st2, false)
      && r.state == State(None, None, [Ping(ping)] + c.0) && r.closing == c.1
  {
    var first, last := Small(0, opcode, a), Small(0x80, 0, b);
    var frames := [first];
    assert frames[1..] == [] && Payloads([]) == [] && a + [] + b == a + b;
    assert Joined(frames, last) == first.(payload := a + b);
    assert [] + [first] == [first];
  }

  // ---------------------------------------------------------------- the examples of section 5.7

  const HELLO: bytes := [0x48, 0x65, 0x6C, 0x6C, 0x6F]

  /** A new client given the unmasked text message of the standard calls its text handler with "Hello". */
  lemma HelloText(h: Handlers)
    requires h.utf8(HELLO) && h.accepts([], Text(Small(0x80, 1, HELLO)))
    ensures Run(h, State(None, None, []), [[0x81, 0x05, 0x48, 0x65, 0x6C, 0x6C, 0x6F]])
         == WsClient.Outcome(State(None, None, [Text(Small(0x80, 1, HELLO))]), false)
  {
    hide Run;
    OneFrame(h, [], 1, HELLO);
    assert SmallBytes(0x80, 1, HELLO) == [0x81, 0x05, 0x48, 0x65, 0x6C, 0x6C, 0x6F];
    var e := [Text(Small(0x80, 1, HELLO))];
    assert [] + e == e;
  }

  /** The masked one is read as "Hello" too. */
  lemma HelloMasked()
    ensures var r := UnpackFrame(FRESH_FRAME, [0x81, 0x85, 0x37, 0xFA, 0x21, 0x3D, 0x7F, 0x9F, 0x4D, 0x51, 0x58]);
      r.0.isComplete && r.0.opcode == 1 && r.0.fin == 0x80 && r.0.masked == 0x80 && r.0.payload == HELLO && r.1 == []
  {
    hide UnpackFrame, Pow256, EncodeLength, Mask;
    var key: bytes := [0x37, 0xFA, 0x21, 0x3D];
    var f := FRESH_FRAME.(fin := 0x80, opcode := 1, masked := 0x80, maskKey := key, payload := HELLO);
    EightBytes();
    LengthBytes(0x80, 5);
    MaskedHello();
    FrameRoundTrip(f, []);
    assert EncodeFrame(f) + [] == [0x81, 0x85, 0x37, 0xFA, 0x21, 0x3D, 0x7F, 0x9F, 0x4D, 0x51, 0x58];
  }

  lemma MaskedHello()
    ensures Mask(HELLO, [0x37, 0xFA, 0x21, 0x3D], 0) == [0x7F, 0x9F, 0x4D, 0x51, 0x58]
  {
    hide Xor;
    var t, o := true, false;
    XorOf([o, o, o, t, o, o, t, o], [t, t, t, o, t, t, o, o], 0x48, 0x37, 0x7F);
    XorOf([t, o, t, o, o, t, t, o], [o, t, o, t, t, t, t, t], 0x65, 0xFA, 0x9F);
    XorOf([o, o, t, t, o, t, t, o], [t, o, o, o, o, t, o, o], 0x6C, 0x21, 0x4D);
    XorOf([o, o, t, t, o, t, t, o], [t, o, t, t, t, t, o, o], 0x6C, 0x3D, 0x51);
    XorOf([t, t, t, t, o, t, t, o], [t, t, t, o, t, t, o, o], 0x6F, 0x37, 0x58);
  }

  lemma XorOf(x: seq<bool>, y: seq<bool>, a: byte, b: byte, c: byte)
    requires |x| == |y| == 8 && Octet(x) == a as int && Octet(y) == b as int && Octet(Differ(x, y)) == c as int
    ensures Xor(a, b) == c
  {
    hide XorBits;
    OctetValue(x);
    OctetValue(y);
    OctetValue(Differ(x, y));
    XorIsDiffer(x, y);
  }

  function Octet(x: seq<bool>): nat
    requires |x| == 8
  {
    (if x[0] then 1 else 0) + (if x[1] then 2 else 0) + (if x[2] then 4 else 0) + (if x[3] then 8 else 0)
    + (if x[4] then 16 else 0) + (if x[5] then 32 else 0) + (if x[6] then 64 else 0) + (if x[7] then 128 else 0)
  }

  lemma OctetValue(x: seq<bool>)
    requires |x| == 8
    ensures Value(x) == Octet(x)
  {
    var a := x[4..];
    assert Value(a) == (if a[0] then 1 else 0) + 2 * Value(a[1..]) && a[1..] == x[5..];
    assert Value(x[5..]) == (if x[5] then 1 else 0) + 2 * Value(x[6..]) && x[5..][1..] == x[6..];
    assert Value(x[6..]) == (if x[6] then 1 else 0) + 2 * Value(x[7..]) && x[6..][1..] == x[7..];
    assert Value(x[7..]) == (if x[7] then 1 else 0) && x[7..][1..] == [];
    assert Value(x[3..]) == (if x[3] then 1 else 0) + 2 * Value(a) && x[3..][1..] == a;
    assert Value(x[2..]) == (if x[2] then 1 else 0) + 2 * Value(x[3..]) && x[2..][1..] == x[3..];
    assert Value(x[1..]) == (if x[1] then 1 else 0) + 2 * Value(x[2..]) && x[1..][1..] == x[2..];
  }
}
