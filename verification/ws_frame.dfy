/**
 The WebSocket frame (RFC 6455, sections 5.2 and 5.3): how Frame.pack lays a frame out, and how Frame.unpack reads one
 from a stream that may be cut anywhere. A frame that is not complete is resumed with the next packet.
 */
module WsFrame {
  import opened Bytes

  const FIN: byte := 0x80
  const MASKED: byte := 0x80
  const SMALL := 125
  const MEDIUM := 126
  const LARGE := 127

  const OP_CONT: byte := 0
  const OP_TEXT: byte := 1
  const OP_BIN: byte := 2
  const OP_CLOSE: byte := 8
  const OP_PING: byte := 9
  const OP_PONG: byte := 10

  const STATUS_NORMAL: u16 := 1000
  const STATUS_BAD_REQUEST: u16 := 1002

  /** The fields of a frame. */
  datatype FrameValue = FrameValue(
    fin: byte, rsv1: byte, rsv2: byte, rsv3: byte, opcode: byte, masked: byte, closeCode: u16,
    len: nat, maskKey: bytes, payload: bytes, chopped: bytes, isComplete: bool)

  const FRESH_FRAME := FrameValue(0, 0, 0, 0, 0, 0, 0, 0, [], [], [], false)

  // ---------------------------------------------------------------- bits and big-endian numbers

  /** Exclusive or of the low n bits. */
  function XorBits(a: nat, b: nat, n: nat): (r: nat) {
    if n == 0 then 0 else (a % 2 + b % 2) % 2 + 2 * XorBits(a / 2, b / 2, n - 1)
  }

  function Pow2(n: nat): nat {
    if n == 0 then 1 else 2 * Pow2(n - 1)
  }

  lemma {:induction false} XorBound(a: nat, b: nat, n: nat)
    ensures XorBits(a, b, n) < Pow2(n)
  {
    if n > 0 {
      XorBound(a / 2, b / 2, n - 1);
    }
  }

  /** a ^ b */
  function Xor(a: byte, b: byte): byte {
    XorBound(a, b, 8);
    assert Pow2(8) == 0x100 by {
      assert Pow2(4) == 16 && Pow2(8) == 2 * (2 * (2 * (2 * Pow2(4))));
    }
    XorBits(a, b, 8)
  }

  lemma {:induction false} XorBitsTwice(a: nat, b: nat, n: nat)
    requires a < Pow2(n)
    ensures XorBits(XorBits(a, b, n), b, n) == a
  {
    hide XorBits;
    XorStep(a, b, n);
    if n > 0 {
      var x := XorBits(a, b, n);
      var h, d := XorBits(a / 2, b / 2, n - 1), (a % 2 + b % 2) % 2;
      LastBit(x, d, h);
      XorStep(x, b, n);
      SameBit(a % 2, b % 2);
      XorBitsTwice(a / 2, b / 2, n - 1);
    }
  }

  lemma XorStep(a: nat, b: nat, n: nat)
    ensures n == 0 ==> XorBits(a, b, n) == 0
    ensures n > 0 ==> XorBits(a, b, n) == (a % 2 + b % 2) % 2 + 2 * XorBits(a / 2, b / 2, n - 1)
  {
  }

  lemma LastBit(x: nat, d: nat, h: nat)
    requires x == d + 2 * h && d < 2
    ensures x / 2 == h && x % 2 == d
  {
  }

  lemma SameBit(a: nat, b: nat)
    requires a < 2 && b < 2
    ensures ((a + b) % 2 + b) % 2 == a
  {
  }

  lemma XorTwice(a: byte, b: byte)
    ensures Xor(Xor(a, b), b) == a
  {
    assert Pow2(4) == 16 && Pow2(8) == 2 * (2 * (2 * (2 * Pow2(4))));
    XorBitsTwice(a, b, 8);
  }

  /** The n bytes of v, most significant first. */
  function BigEndian(v: nat, n: nat): (r: bytes)
    ensures |r| == n
  {
    if n == 0 then [] else BigEndian(v / 0x100, n - 1) + [v % 0x100]
  }

  function FromBigEndian(s: bytes): nat {
    if s == [] then 0 else FromBigEndian(s[..|s| - 1]) * 0x100 + s[|s| - 1]
  }

  lemma {:induction false} BigEndianRoundTrip(v: nat, n: nat)
    requires v < Pow256(n)
    ensures FromBigEndian(BigEndian(v, n)) == v
  {
    if n > 0 {
      BigEndianRoundTrip(v / 0x100, n - 1);
      assert BigEndian(v, n)[..n - 1] == BigEndian(v / 0x100, n - 1);
    }
  }

  function Pow256(n: nat): nat {
    if n == 0 then 1 else 0x100 * Pow256(n - 1)
  }

  // ---------------------------------------------------------------- masking

  /** `s` with the byte at index i combined with byte (offset + i) of the repeated key. */
  function Mask(s: bytes, key: bytes, offset: nat): (r: bytes)
    requires |key| == 4
    ensures |r| == |s|
  {
    seq(|s|, i requires 0 <= i < |s| => Xor(s[i], key[(offset + i) % 4]))
  }

  /** Masking undoes itself at every offset. */
  lemma MaskTwice(s: bytes, key: bytes, offset: nat)
    requires |key| == 4
    ensures Mask(Mask(s, key, offset), key, offset) == s
  {
    hide Xor;
    forall i | 0 <= i < |s| ensures Mask(Mask(s, key, offset), key, offset)[i] == s[i] {
      XorTwice(s[i], key[(offset + i) % 4]);
    }
  }

  /** A payload that is masked in two pieces is masked as one. */
  lemma MaskSplit(a: bytes, b: bytes, key: bytes, offset: nat)
    requires |key| == 4
    ensures Mask(a + b, key, offset) == Mask(a, key, offset) + Mask(b, key, offset + |a|)
  {
    hide Xor;
  }

  // ---------------------------------------------------------------- writing

  /** The 7-bit length and the extended length. */
  function EncodeLength(masked: byte, size: nat): bytes
    requires masked in {0, MASKED}
  {
    if size > 0xFFFF then [masked + LARGE] + BigEndian(size, 8)
    else if size > SMALL then [masked + MEDIUM] + BigEndian(size, 2)
    else [masked + size]
  }

  /** A frame as the wire carries it: flags that only have their own bit, a 4-byte key exactly when masked. */
  predicate Packable(f: FrameValue) {
    && f.fin in {0, FIN} && f.masked in {0, MASKED} && f.opcode < 0x10
    && (f.masked == MASKED ==> |f.maskKey| == 4)
    && |f.payload| < Pow256(8)
  }

  function EncodeFrame(f: FrameValue): bytes
    requires Packable(f)
  {
    [f.fin + f.opcode] + EncodeLength(f.masked, |f.payload|)
    + if f.masked == MASKED then f.maskKey + Mask(f.payload, f.maskKey, 0) else f.payload
  }

  // ---------------------------------------------------------------- reading

  /** What one stage of unpack does: it returns because the packet is used up, or goes on with the rest. */
  datatype Stage = Return(frame: FrameValue) | Continue(frame: FrameValue, rest: bytes)

  function Flag(b: byte, bit: byte): byte
    requires bit in {0x10, 0x20, 0x40, 0x80}
  {
    if b / bit % 2 == 1 then bit else 0
  }

  function ReadFirst(f: FrameValue, p: bytes): Stage
    requires |f.chopped| == 0 ==> p != []
  {
    if |f.chopped| == 0 then
      var f' := f.(fin := Flag(p[0], 0x80), rsv1 := Flag(p[0], 0x40), rsv2 := Flag(p[0], 0x20), rsv3 := Flag(p[0], 0x10),
                   opcode := p[0] % 0x10, chopped := [p[0]]);
      if |p| == 1 then Return(f') else Continue(f', p[1..])
    else Continue(f, p)
  }

  function ReadSecond(f: FrameValue, p: bytes): Stage
    requires |f.chopped| == 1 ==> p != []
  {
    if |f.chopped| == 1 then
      Continue(f.(masked := Flag(p[0], 0x80), len := p[0] as int % 0x80, chopped := f.chopped + [p[0]]), p[1..])
    else Continue(f, p)
  }

  /** The extended length up to `size` bytes of header in all. */
  function ReadExtended(f: FrameValue, p: bytes, size: nat): Stage
    requires 2 <= |f.chopped| < size
  {
    var exp: nat := size - |f.chopped|;
    if |p| < exp then Return(f.(chopped := f.chopped + p))
    else
      var chopped := f.chopped + p[..exp];
      Continue(f.(chopped := chopped, len := FromBigEndian(chopped[2..size])), p[exp..])
  }

  function ReadLength(f: FrameValue, p: bytes): Stage
    requires |f.chopped| >= 2
  {
    if f.len == LARGE && |f.chopped| < 10 then ReadExtended(f, p, 10)
    else if f.len == MEDIUM && |f.chopped| < 4 then ReadExtended(f, p, 4)
    else Continue(f, p)
  }

  function ReadMask(f: FrameValue, p: bytes): Stage
    requires |f.maskKey| <= 4
  {
    if f.masked == MASKED && |f.maskKey| != 4 then
      if p == [] then Return(f)
      else
        var exp := 4 - |f.maskKey|;
        if |p| < exp then Return(f.(maskKey := f.maskKey + p))
        else Continue(f.(maskKey := f.maskKey + p[..exp]), p[exp..])
    else Continue(f, p)
  }

  function CloseCode(f: FrameValue): u16 {
    if f.opcode != OP_CLOSE then f.closeCode
    else if |f.payload| == 0 then STATUS_NORMAL
    else if |f.payload| == 1 then STATUS_BAD_REQUEST
    else ReadUint16(f.payload, 0)
  }

  function Completed(f: FrameValue): FrameValue {
    f.(closeCode := CloseCode(f), isComplete := true, chopped := [])
  }

  function ReadPayload(f: FrameValue, p: bytes): (FrameValue, bytes)
    requires |f.payload| <= f.len && (f.masked == MASKED ==> |f.maskKey| == 4)
  {
    if f.len == 0 then (Completed(f), p)
    else if p == [] then (f, [])
    else
      var exp := if |p| < f.len - |f.payload| then |p| else f.len - |f.payload|;
      var part := if f.masked == MASKED then Mask(p[..exp], f.maskKey, |f.payload|) else p[..exp];
      var f' := f.(payload := f.payload + part);
      (if |f'.payload| == f.len then Completed(f') else f', p[exp..])
  }

  /** What lets unpack go on with a frame: no later part is longer than it can be before its header is read. */
  predicate Readable(f: FrameValue) {
    && |f.maskKey| <= 4 && |f.payload| <= f.len
    && (|f.chopped| < 2 ==> f.len == 0 && f.maskKey == [])
    && (f.masked == MASKED && |f.maskKey| < 4 ==> f.payload == [])
    && (f.len == LARGE && 2 <= |f.chopped| < 10 ==>
          f.payload == [] || (|f.chopped| >= 4 && f.chopped[2..4] == [0, LARGE]))
    && (f.len == MEDIUM && 2 <= |f.chopped| < 4 ==> f.payload == [])
  }

  lemma ReadMaskReadable(f: FrameValue, p: bytes)
    requires |f.maskKey| <= 4 && |f.payload| <= f.len
    ensures var s := ReadMask(f, p);
      s.Continue? ==>
        && |s.rest| <= |p| && |s.frame.payload| <= s.frame.len
        && (s.frame.masked == MASKED ==> |s.frame.maskKey| == 4)
  {
  }

  /** The stages from the extended length on. */
  function ReadBody(f: FrameValue, p: bytes): (r: (FrameValue, bytes))
    requires |f.chopped| >= 2 && Readable(f)
    ensures |r.1| <= |p|
  {
    match ReadLength(f, p)
    case Return(g) => (g, [])
    case Continue(g, q) =>
      ReadLengthReadable(f, p);
      ReadMaskReadable(g, q);
      match ReadMask(g, q)
      case Return(h) => (h, [])
      case Continue(h, r) => ReadPayload(h, r)
  }

  /** unpack: the frame after reading from a non-empty packet, and the rest of the packet. */
  function UnpackFrame(f: FrameValue, p: bytes): (r: (FrameValue, bytes))
    requires Readable(f) && p != []
    ensures |r.1| < |p| || |f.chopped| >= 2
    ensures |r.1| <= |p|
  {
    match ReadFirst(f, p)
    case Return(g) => (g, [])
    case Continue(g, q) =>
      var s := ReadSecond(g, q);
      ReadBody(s.frame, s.rest)
  }

  lemma LargeNumber(s: bytes)
    requires |s| == 8 && s[..2] == [0, LARGE]
    ensures FromBigEndian(s) >= LARGE * Pow256(6)
    ensures Pow256(6) >= 0x1_0000
  {
    assert FromBigEndian([0, LARGE]) == LARGE by {
      assert [0, LARGE][..1] == [0] && [0][..0] == [];
    }
    LeadingBytes(s[..2], s[2..]);
    assert s == s[..2] + s[2..];
    assert Pow256(6) == 0x100 * (0x100 * Pow256(4));
    PowPositive(4);
  }

  lemma {:induction false} PowPositive(n: nat)
    ensures Pow256(n) >= 1
  {
    if n > 0 {
      PowPositive(n - 1);
    }
  }

  lemma {:induction false} LeadingBytes(a: bytes, b: bytes)
    ensures FromBigEndian(a + b) >= FromBigEndian(a) * Pow256(|b|)
    decreases |b|
  {
    if b == [] {
      assert a + b == a;
    } else {
      var b' := b[..|b| - 1];
      LeadingBytes(a, b');
      assert (a + b)[..|a + b| - 1] == a + b';
      var x, y := FromBigEndian(a), Pow256(|b'|);
      assert FromBigEndian(a + b) == FromBigEndian(a + b') * 0x100 + b[|b| - 1] as int;
      ScaleUp(x, y, FromBigEndian(a + b'), b[|b| - 1] as int);
      assert Pow256(|b|) == 0x100 * y;
    }
  }

  lemma ScaleUp(x: nat, y: nat, v: nat, d: nat)
    requires v >= x * y
    ensures v * 0x100 + d >= x * (0x100 * y)
  {
    assert x * (0x100 * y) == x * y * 0x100;
  }

  lemma ReadLengthReadable(f: FrameValue, p: bytes)
    requires |f.chopped| >= 2 && Readable(f)
    ensures var s := ReadLength(f, p);
      && Readable(s.frame) && |s.frame.chopped| >= 2 && s.frame.payload == f.payload
      && s.frame == f.(chopped := s.frame.chopped, len := s.frame.len)
      && (s.Continue? ==> |s.rest| <= |p|)
  {
    if f.len == LARGE && |f.chopped| < 10 && |p| >= 10 - |f.chopped| {
      var chopped := f.chopped + p[..10 - |f.chopped|];
      if f.payload != [] {
        assert chopped[2] == f.chopped[2] && chopped[3] == f.chopped[3];
        assert [chopped[2], chopped[3]] == f.chopped[2..4];
        assert chopped[2..10][..2] == [chopped[2], chopped[3]];
        LargeNumber(chopped[2..10]);
      }
    }
  }
}
