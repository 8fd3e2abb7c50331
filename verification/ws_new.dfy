/**
 Making frames (lib/websocket/frame.go, NewFrame and newControlFrame): what the other side reads from the packet, and
 whether it accepts it.
 */
module WsNew {
  import opened Bytes
  import opened WsClient
  import opened WsFrame
  import opened WsObjects
  import opened WsSplit

  /** The packet is one frame that the other side reads whole, unfragmented, with this opcode and payload. */
  ghost predicate Carries(packet: bytes, opcode: byte, isMasked: bool, payload: bytes) {
    packet != [] &&
    var r := UnpackFrame(FRESH_FRAME, packet);
    && r.1 == []
    && r.0.isComplete && r.0.fin == FIN && r.0.opcode == opcode && r.0.payload == payload && r.0.len == |payload|
    && (r.0.masked == MASKED <==> isMasked)
    && r.0.rsv1 == 0 && r.0.rsv2 == 0 && r.0.rsv3 == 0
  }

  /** NewFrame; the key of a masked frame is random. */
  method NewFrame(opcode: byte, isMasked: bool, payload: bytes, random: bytes) returns (packet: bytes)
    requires opcode < 0x10 && |random| == 4 && |payload| < Pow256(8)
    ensures Carries(packet, opcode, isMasked, payload)
  {
    hide EncodeFrame, UnpackFrame, Pow256;
    var f := new Frame(FIN, opcode, if isMasked then MASKED else 0, payload);
    var out := f.Pack(random);
    packet := out[..];
    FrameRoundTrip(f.Value(), []);
    assert packet + [] == packet;
  }

  /** newControlFrame: a payload of more than 125 bytes is cut, so the other side always accepts the frame. */
  method NewControlFrame(opcode: byte, isMasked: bool, payload: bytes, random: bytes) returns (packet: bytes)
    requires opcode < 0x10 && |random| == 4 && |payload| < Pow256(8)
    ensures Carries(packet, opcode, isMasked, if |payload| > SMALL then payload[..SMALL] else payload)
    ensures Accepted(packet, isMasked)
  {
    hide Carries, Accepted, Pow256;
    var body := payload;
    if |body| > SMALL {
      body := body[..SMALL];
    }
    packet := NewFrame(opcode, isMasked, body, random);
    AcceptedExactly(packet, opcode, isMasked, body);
  }

  /** isValid, without extensions. */
  ghost predicate Accepted(packet: bytes, isMasked: bool) {
    packet != [] && IsValid(UnpackFrame(FRESH_FRAME, packet).0, isMasked, false, false, false)
  }

  /** A frame made by NewFrame is valid for the other side exactly if it is no control frame or its payload is short. */
  lemma AcceptedExactly(packet: bytes, opcode: byte, isMasked: bool, payload: bytes)
    requires Carries(packet, opcode, isMasked, payload)
    ensures Accepted(packet, isMasked) <==> opcode < OP_CLOSE || |payload| <= SMALL
  {
    hide UnpackFrame;
  }

  /** NewFrameClose: code 0 stands for the normal one, and the code comes first in the payload. */
  method NewFrameClose(isMasked: bool, code: u16, payload: bytes, random: bytes) returns (packet: bytes)
    requires |random| == 4 && |payload| + 2 < Pow256(8)
    ensures Accepted(packet, isMasked)
    ensures var body := Be16(if code == 0 then STATUS_NORMAL else code) + payload;
      Carries(packet, OP_CLOSE, isMasked, if |body| > SMALL then body[..SMALL] else body)
  {
    var c := code;
    if c == 0 {
      c := STATUS_NORMAL;
    }
    packet := NewControlFrame(OP_CLOSE, isMasked, Be16(c) + payload, random);
  }
}
