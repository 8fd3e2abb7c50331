/**
 The WebSocket types as objects: a Frame fills its own fields while it is read and lays itself out in a buffer, Frames
 merges fragments into the first of them, and a Client moves frames between the two.
 */
module WsObjects {
  import opened Bytes
  import opened WsFrame
  import opened WsSplit
  import opened WsClient

  class Frame {
    var fin: byte
    var rsv1: byte
    var rsv2: byte
    var rsv3: byte
    var opcode: byte
    var masked: byte
    var closeCode: u16
    var len: nat
    var maskKey: bytes
    var payload: bytes
    var chopped: bytes
    var isComplete: bool

    /** &Frame{} with some fields given. */
    constructor (fin: byte, opcode: byte, masked: byte, payload: bytes)
      ensures Value() == FRESH_FRAME.(fin := fin, opcode := opcode, masked := masked, payload := payload)
    {
      this.fin, rsv1, rsv2, rsv3, this.opcode, this.masked, closeCode := fin, 0, 0, 0, opcode, masked, 0;
      len, maskKey, this.payload, chopped, isComplete := 0, [], payload, [], false;
    }

    function Value(): FrameValue
      reads this
    {
      FrameValue(fin, rsv1, rsv2, rsv3, opcode, masked, closeCode, len, maskKey, payload, chopped, isComplete)
    }

    /**
     pack: lays the frame out in a new buffer, index by index. The length field becomes the 7-bit length; a masked frame
     without a key gets the random one.
     */
    method Pack(random: bytes) returns (out: array<byte>)
      requires fin in {0, FIN} && masked in {0, MASKED} && opcode < 0x10
      requires |random| == 4 && |payload| < Pow256(8)
      modifies this`len, this`maskKey
      ensures maskKey == if masked == MASKED && |old(maskKey)| != 4 then random else old(maskKey)
      ensures len == if |payload| > 0xFFFF then LARGE else if |payload| > SMALL then MEDIUM else |payload|
      ensures fresh(out) && Packable(Value()) && out[..] == EncodeFrame(Value())
    {
      hide Xor, BigEndian, Pow256, Mask, EncodeLength, Overwrite, EncodeFrame;
      var headerSize := SetLen();
      out := new byte[headerSize + |payload|];
      var x := PackHeader(out);
      if masked == MASKED {
        if |maskKey| != 4 {
          maskKey := random;
        }
        PackMasked(out, x);
      } else {
        Put(out, x, payload);
        assert out[..x + |payload|] == out[..];
      }
      EncodedIs(Value());
    }

    /** The marker of the length, and how many bytes there are before the payload. */
    method SetLen() returns (headerSize: nat)
      requires masked in {0, MASKED}
      modifies this`len
      ensures len == if |payload| > 0xFFFF then LARGE else if |payload| > SMALL then MEDIUM else |payload|
      ensures headerSize == 1 + |EncodeLength(masked, |payload|)| + if masked == MASKED then 4 else 0
    {
      hide EncodeLength;
      LengthSize(masked, |payload|);
      headerSize := 2;
      var payloadSize := |payload|;
      if payloadSize > 0xFFFF {
        len := LARGE;
        headerSize := headerSize + 8;
      } else if payloadSize > SMALL {
        len := MEDIUM;
        headerSize := headerSize + 2;
      } else {
        len := payloadSize;
      }
      if masked == MASKED {
        headerSize := headerSize + 4;
      }
    }

    /** The first bytes of the buffer: flags and lengths. */
    method PackHeader(out: array<byte>) returns (x: nat)
      requires fin in {0, FIN} && masked in {0, MASKED} && opcode < 0x10
      requires len == if |payload| > 0xFFFF then LARGE else if |payload| > SMALL then MEDIUM else |payload|
      requires |EncodeLength(masked, |payload|)| + 1 <= out.Length
      modifies out
      ensures x <= out.Length && out[..x] == [fin + opcode] + EncodeLength(masked, |payload|)
    {
      hide BigEndian, Overwrite;
      x := 0;
      out[x] := fin + opcode;
      x := x + 1;
      out[x] := masked + len;
      x := x + 1;
      assert out[..x] == [fin + opcode] + [masked + len];
      if len == LARGE {
        Put(out, x, BigEndian(|payload|, 8));
        x := x + 8;
      } else if len == MEDIUM {
        Put(out, x, BigEndian(|payload|, 2));
        x := x + 2;
      }
    }

    /** The key and the masked payload, up to the end of the buffer. */
    method PackMasked(out: array<byte>, start: nat)
      requires |maskKey| == 4 && start + 4 + |payload| == out.Length
      modifies out
      ensures out[..] == old(out[..start]) + maskKey + Mask(payload, maskKey, 0)
    {
      hide Xor;
      var x := start;
      ghost var head, body := out[..start], Mask(payload, maskKey, 0);
      Put(out, x, maskKey);
      x := x + 4;
      for y := 0 to |payload|
        invariant x == start + 4 + y
        invariant out[..x] == head + maskKey + body[..y]
      {
        assert body[..y + 1] == body[..y] + [body[y]];
        out[x] := Xor(payload[y], maskKey[y % 4]);
        assert out[..x + 1] == out[..x] + [out[x]];
        x := x + 1;
      }
      assert body[..|payload|] == body && out[..x] == out[..];
    }

    /** unpack: reads what the packet holds of the frame and returns the rest of it. */
    method Unpack(packet: bytes) returns (rest: bytes)
      requires Readable(Value()) && packet != []
      modifies this
      ensures (Value(), rest) == UnpackFrame(old(Value()), packet)
    {
      hide ReadFirst, ReadSecond, ReadLength, ReadMask, ReadPayload;
      var done;
      done, rest := UnpackFirst(packet);
      if done {
        return [];
      }
      rest := UnpackSecond(rest);
      rest := UnpackBody(rest);
    }

    /** The first byte of a frame, unless it was read before. */
    method UnpackFirst(packet: bytes) returns (done: bool, rest: bytes)
      requires Readable(Value()) && packet != []
      modifies this
      ensures ReadFirst(old(Value()), packet) == if done then Return(Value()) else Continue(Value(), rest)
      ensures !done ==> |chopped| == 1 ==> rest != []
      ensures !done ==> |chopped| >= 1 && Readable(Value())
    {
      hide ReadFirst;
      done, rest := false, packet;
      FirstStage(Value(), packet);
      FirstReadable(Value(), packet);
      if |chopped| == 0 {
        fin := Flag(rest[0], 0x80);
        rsv1 := Flag(rest[0], 0x40);
        rsv2 := Flag(rest[0], 0x20);
        rsv3 := Flag(rest[0], 0x10);
        opcode := rest[0] % 0x10;
        chopped := chopped + [rest[0]];
        rest := rest[1..];
        if |rest| == 0 {
          return true, [];
        }
      }
    }

    /** The second byte, unless it was read before. */
    method UnpackSecond(packet: bytes) returns (rest: bytes)
      requires Readable(Value()) && |chopped| >= 1 && (|chopped| == 1 ==> packet != [])
      modifies this
      ensures ReadSecond(old(Value()), packet) == Continue(Value(), rest)
      ensures Readable(Value()) && |chopped| >= 2
    {
      hide ReadSecond;
      rest := packet;
      SecondStage(Value(), packet);
      SecondReadable(Value(), packet);
      if |chopped| == 1 {
        masked := Flag(rest[0], 0x80);
        len := rest[0] as int % 0x80;
        chopped := chopped + [rest[0]];
        rest := rest[1..];
      }
    }

    /** unpack from the extended length on. */
    method UnpackBody(packet: bytes) returns (rest: bytes)
      requires Readable(Value()) && |chopped| >= 2
      modifies this
      ensures (Value(), rest) == ReadBody(old(Value()), packet)
    {
      hide ReadLength, ReadMask, ReadPayload;
      ReadLengthReadable(Value(), packet);
      var done;
      done, rest := UnpackLength(packet);
      if done {
        return [];
      }
      done, rest := UnpackMask(rest);
      if done {
        return [];
      }
      rest := UnpackPayload(rest);
    }

    /** The extended length, as far as the packet holds it. */
    method UnpackLength(packet: bytes) returns (done: bool, rest: bytes)
      requires |chopped| >= 2
      modifies this`chopped, this`len
      ensures ReadLength(old(Value()), packet) == if done then Return(Value()) else Continue(Value(), rest)
    {
      hide FromBigEndian;
      done, rest := false, packet;
      if len == LARGE {
        if |chopped| < 10 {
          var exp := 10 - |chopped|;
          if |rest| < exp {
            chopped := chopped + rest;
            return true, [];
          }
          chopped := chopped + rest[..exp];
          len := FromBigEndian(chopped[2..10]);
          rest := rest[exp..];
        }
      } else if len == MEDIUM {
        if |chopped| < 4 {
          var exp := 4 - |chopped|;
          if |rest| < exp {
            chopped := chopped + rest;
            return true, [];
          }
          chopped := chopped + rest[..exp];
          len := FromBigEndian(chopped[2..4]);
          rest := rest[exp..];
        }
      }
    }

    /** The masking key, as far as the packet holds it. */
    method UnpackMask(packet: bytes) returns (done: bool, rest: bytes)
      requires |maskKey| <= 4
      modifies this`maskKey
      ensures ReadMask(old(Value()), packet) == if done then Return(Value()) else Continue(Value(), rest)
      ensures !done && masked == MASKED ==> |maskKey| == 4
    {
      done, rest := false, packet;
      if masked == MASKED && |maskKey| != 4 {
        if |rest| == 0 {
          return true, [];
        }
        var exp := 4 - |maskKey|;
        if |rest| < exp {
          maskKey := maskKey + rest;
          return true, [];
        }
        maskKey := maskKey + rest[..exp];
        rest := rest[exp..];
      }
    }

    /** unpack once length and key are known; the packet is unmasked in place before it is taken over. */
    method UnpackPayload(packet: bytes) returns (rest: bytes)
      requires |payload| <= len && (masked == MASKED ==> |maskKey| == 4)
      modifies this`payload, this`closeCode, this`isComplete, this`chopped
      ensures (Value(), rest) == ReadPayload(old(Value()), packet)
    {
      hide Mask;
      rest := packet;
      if len == 0 {
        if opcode == OP_CLOSE {
          closeCode := STATUS_NORMAL;
        }
        isComplete := true;
        chopped := [];
        return rest;
      }
      if |rest| == 0 {
        return [];
      }
      var exp := len - |payload|;
      if |rest| < exp {
        exp := |rest|;
      }
      if masked == MASKED {
        rest := Unmask(rest, exp);
      }
      payload := payload + rest[..exp];
      rest := rest[exp..];
      if |payload| == len {
        if opcode == OP_CLOSE {
          if |payload| == 1 {
            closeCode := STATUS_BAD_REQUEST;
          } else {
            closeCode := ReadUint16(payload, 0);
          }
        }
        isComplete := true;
        chopped := [];
      }
    }

    method Unmask(packet: bytes, exp: nat) returns (rest: bytes)
      requires exp <= |packet| && |maskKey| == 4
      ensures |rest| == |packet|
      ensures rest[..exp] == Mask(packet[..exp], maskKey, |payload|) && rest[exp..] == packet[exp..]
    {
      hide Xor, Mask;
      rest := packet;
      var start: nat := |payload| % 4;
      ghost var clear := Mask(packet[..exp], maskKey, |payload|);
      for x := 0 to exp
        invariant |rest| == |packet| && start % 4 == (|payload| + x) % 4
        invariant forall i :: 0 <= i < |rest| ==> rest[i] == if i < x then clear[i] else packet[i]
      {
        MaskAt(packet[..exp], maskKey, |payload|, x);
        NextKey(start, |payload| + x);
        rest := rest[x := Xor(rest[x], maskKey[start % 4])];
        start := start + 1;
      }
    }
  }

  lemma MaskAt(s: bytes, key: bytes, offset: nat, i: nat)
    requires |key| == 4 && i < |s|
    ensures Mask(s, key, offset)[i] == Xor(s[i], key[(offset + i) % 4])
  {
  }

  lemma NextKey(a: nat, b: nat)
    requires a % 4 == b % 4
    ensures (a + 1) % 4 == (b + 1) % 4
  {
  }

  /** The values of a list of frames. */
  function Values(v: seq<Frame>): (r: seq<FrameValue>)
    reads v
    ensures |r| == |v| && forall i :: 0 <= i < |v| ==> r[i] == v[i].Value()
  {
    seq(|v|, i requires 0 <= i < |v| reads v => v[i].Value())
  }

  class Frames {
    var v: seq<Frame>

    constructor ()
      ensures v == []
    {
      v := [];
    }

    /** Append: a nil frame is ignored. */
    method Append(f: Frame?)
      modifies this
      ensures v == if f == null then old(v) else old(v) + [f]
    {
      if f != null {
        v := v + [f];
      }
    }

    /** fin: merges the later fragments and the last frame into the first one and returns it. */
    method Fin(last: Frame?) returns (frame: Frame)
      requires v != [] && last != v[0] && forall i :: 1 <= i < |v| ==> v[i] != v[0]
      modifies v[0]
      ensures frame == v[0]
      ensures var all := old(Values(v));
        frame.Value() == all[0].(payload :=
          all[0].payload + Payloads(all[1..]) + if last == null then [] else old(last.payload))
    {
      hide Payloads;
      frame := v[0];
      ghost var all := Values(v);
      ghost var first := frame.payload;
      var x := 1;
      assert first + Payloads(all[1..]) == frame.payload + Payloads(all[x..]);
      while x < |v|
        invariant 1 <= x <= |v|
        invariant forall i :: 1 <= i < |v| ==> v[i].Value() == all[i]
        invariant last != null ==> last.payload == old(last.payload)
        invariant frame.Value() == all[0].(payload := frame.payload)
        invariant first + Payloads(all[1..]) == frame.payload + Payloads(all[x..])
      {
        PayloadsStep(all, x);
        if v[x].opcode == OP_CLOSE {
          break;
        }
        if v[x].opcode == OP_PING || v[x].opcode == OP_PONG {
          x := x + 1;
          continue;
        }
        ghost var before := frame.payload;
        frame.payload := frame.payload + v[x].payload;
        assert before + (all[x].payload + Payloads(all[x + 1..])) == frame.payload + Payloads(all[x + 1..]);
        x := x + 1;
      }
      PayloadsNone(all, x);
      assert frame.payload + [] == frame.payload;
      if last != null {
        frame.payload := frame.payload + last.payload;
      }
    }
  }

  lemma PayloadsStep(all: seq<FrameValue>, x: nat)
    requires x < |all|
    ensures Payloads(all[x..]) ==
      if all[x].opcode == OP_CLOSE then []
      else (if all[x].opcode in {OP_PING, OP_PONG} then [] else all[x].payload) + Payloads(all[x + 1..])
    ensures all[x].opcode in {OP_PING, OP_PONG} ==> Payloads(all[x..]) == Payloads(all[x + 1..])
  {
    assert all[x..][1..] == all[x + 1..];
  }

  lemma PayloadsNone(all: seq<FrameValue>, x: nat)
    requires x <= |all|
    ensures x == |all| ==> Payloads(all[x..]) == []
  {
  }

  /** Unpack of a packet: as many frames as it holds; no frames for an empty packet. */
  method Unpack(packet: bytes) returns (frames: Frames?)
    ensures packet == [] <==> frames == null
    ensures frames != null ==> fresh(frames) && (forall f :: f in frames.v ==> fresh(f))
    ensures frames != null ==> Distinct(frames.v) && Values(frames.v) == UnpackAll(packet)
  {
    hide UnpackFrame;
    if |packet| == 0 {
      return null;
    }
    frames := new Frames();
    ghost var done := [];
    var rest := packet;
    while |rest| > 0
      invariant fresh(frames) && forall f :: f in frames.v ==> fresh(f)
      invariant Distinct(frames.v) && |frames.v| == |done|
      invariant forall i :: 0 <= i < |done| ==> frames.v[i].Value() == done[i]
      invariant done + UnpackAll(rest) == UnpackAll(packet)
      decreases |rest|
    {
      FreshReadable();
      var f := new Frame(0, 0, 0, []);
      assert f !in frames.v;
      rest, done := UnpackNext(f, rest, done, packet);
      frames.Append(f);
    }
    assert done + [] == done;
    assert Values(frames.v) == done;
  }

  lemma UnpackAllStep(p: bytes)
    requires p != []
    ensures Readable(FRESH_FRAME)
    ensures var r := UnpackFrame(FRESH_FRAME, p); |r.1| < |p| && UnpackAll(p) == [r.0] + UnpackAll(r.1)
  {
    hide UnpackFrame;
    FreshReadable();
  }

  /** One step of Unpack: a fresh frame takes what it needs of the packet. */
  method UnpackNext(f: Frame, packet: bytes, ghost done: seq<FrameValue>, ghost all: bytes)
    returns (rest: bytes, ghost done': seq<FrameValue>)
    requires f.Value() == FRESH_FRAME && packet != [] && done + UnpackAll(packet) == UnpackAll(all)
    modifies f
    ensures done' == done + [f.Value()] && done' + UnpackAll(rest) == UnpackAll(all)
    ensures |rest| < |packet|
  {
    hide UnpackFrame, UnpackAll;
    FreshReadable();
    UnpackAllStep(packet);
    rest := f.Unpack(packet);
    done' := done + [f.Value()];
    assert done + ([f.Value()] + UnpackAll(rest)) == done' + UnpackAll(rest);
  }

  class Client {
    const handlers: Handlers
    /** The frame being read, and the fragments of the message being collected. */
    var frame: Frame?
    var frames: Frames?
    /** What the handlers were called with, and what was sent on a violation. */
    var log: seq<Event>
    /** The frames and lists that belong to the connection. */
    ghost var repr: set<object>

    constructor (handlers: Handlers)
      ensures this.handlers == handlers && Valid() && State() == WsClient.State(None, None, []) && repr == {}
    {
      this.handlers := handlers;
      frame, frames, log, repr := null, null, [], {};
    }

    /** The fragments are different frames, and none of them is the frame being read. */
    ghost predicate Valid()
      reads this, repr
    {
      && this !in repr
      && (frame != null ==> frame in repr)
      && (frames != null ==>
            && frames in repr && frames.v != [] && Distinct(frames.v)
            && forall i :: 0 <= i < |frames.v| ==> frames.v[i] in repr && frames.v[i] != frame)
    }

    ghost function State(): WsClient.State
      reads this, repr
      requires Valid()
    {
      WsClient.State(
        if frame == null then None else Some(frame.Value()),
        if frames == null then None else Some(Values(frames.v)),
        log)
    }

    method HandleBadRequest()
      modifies this`log
      ensures log == old(log) + [BadRequest]
    {
      log := log + [BadRequest];
    }

    /** handleFragment */
    method HandleFragment(f: Frame) returns (isInvalid: bool)
      requires Valid() && f !in repr
      modifies this`frame, this`frames, this`log, this`repr, repr
      ensures Valid() && fresh(repr - old(repr) - {f})
      ensures WsClient.Outcome(State(), isInvalid) == WsClient.HandleFragment(handlers, old(State()), old(f.Value()))
    {
      hide Joined;
      if frames == null {
        if f.opcode == OP_CONT {
          HandleBadRequest();
          return true;
        }
      } else if f.opcode != OP_CONT {
        HandleBadRequest();
        return true;
      }

      if f.fin == 0 {
        if |f.payload| < f.len {
          frame, repr := f, repr + {f};
        } else {
          Collect(f);
        }
        return false;
      }

      if frame == null && |f.payload| < f.len {
        frame, repr := f, repr + {f};
        return false;
      }
      isInvalid := Finish(f);
    }

    /** One more fragment of the message. */
    method Collect(f: Frame)
      requires Valid() && f !in repr
      modifies this`frame, this`frames, this`repr, repr
      ensures Valid() && fresh(repr - old(repr) - {f})
      ensures State() == WsClient.State(None,
        Some((if old(State()).frames.None? then [] else old(State()).frames.value) + [old(f.Value())]), old(log))
    {
      frame := null;
      if frames == null {
        frames := new Frames();
        repr := repr + {frames};
      }
      assert Values(frames.v) == if old(State()).frames.None? then [] else old(State()).frames.value;
      AppendFragment(f);
    }

    method AppendFragment(f: Frame)
      requires this !in repr && frames != null && frames in repr && f !in repr && frame == null && Distinct(frames.v)
      requires forall i :: 0 <= i < |frames.v| ==> frames.v[i] in repr
      modifies this`repr, frames
      ensures Valid() && repr == old(repr) + {f} && Values(frames.v) == old(Values(frames.v)) + [old(f.Value())]
      ensures State() == WsClient.State(None, Some(Values(frames.v)), old(log))
    {
      frames.Append(f);
      repr := repr + {f};
      assert Values(frames.v) == old(Values(frames.v)) + [f.Value()];
    }

    /** The last frame of the message. */
    method Finish(last: Frame) returns (isInvalid: bool)
      requires Valid() && last !in repr
      modifies this`frame, this`frames, this`log, repr
      ensures frame == null && frames == null && Valid()
      ensures WsClient.Outcome(State(), isInvalid) ==
        WsClient.Deliver(handlers, old(State()),
          if old(frames) == null then old(last.Value()) else Joined(old(State()).frames.value, old(last.Value())))
    {
      var f := last;
      if frames != null {
        f := frames.Fin(last);
      }
      frame := null;
      frames := null;
      isInvalid := Deliver(f);
    }

    /** The end of handleFragment: the complete message goes to its handler. */
    method Deliver(f: Frame) returns (isInvalid: bool)
      requires Valid() && frame == null && frames == null
      modifies this`log
      ensures Valid()
      ensures WsClient.Outcome(State(), isInvalid) == WsClient.Deliver(handlers, old(State()), f.Value())
    {
      if f.opcode == OP_TEXT {
        if !handlers.utf8(f.payload) {
          log := log + [InvalidData];
          return true;
        }
      }
      var e := if f.opcode == OP_TEXT then Text(f.Value()) else Bin(f.Value());
      var ok := handlers.accepts(log, e);
      log := log + [e];
      if !ok {
        HandleBadRequest();
        return true;
      }
      isInvalid := false;
    }

    /** handleFrame */
    method HandleFrame(f: Frame) returns (isClosing: bool)
      requires Valid() && f !in repr
      modifies this`frame, this`frames, this`log, this`repr, repr
      ensures Valid() && fresh(repr - old(repr) - {f})
      ensures StateOk(old(State()))
      ensures WsClient.Outcome(State(), isClosing) == WsClient.HandleFrame(handlers, old(State()), old(f.Value()))
    {
      hide WsClient.HandleFragment;
      if !IsValid(f.Value(), false, handlers.allowRsv1, handlers.allowRsv2, handlers.allowRsv3) {
        HandleBadRequest();
        return true;
      }
      if f.opcode <= OP_BIN {
        isClosing := HandleFragment(f);
        return isClosing;
      } else if f.opcode < OP_CLOSE {
        HandleBadRequest();
        return true;
      } else if f.opcode == OP_CLOSE {
        log := log + [Close(f.Value())];
        return true;
      } else if f.opcode == OP_PING {
        log := log + [Ping(f.Value())];
      } else if f.opcode == OP_PONG {
        if handlers.hasPong {
          log := log + [Pong(f.Value())];
        }
      } else {
        if handlers.hasRsvControl {
          log := log + [RsvControl(f.Value())];
        } else {
          log := log + [Close(f.Value())];
          return true;
        }
      }
      isClosing := false;
    }

    /** One frame of a packet: kept if it is incomplete, handled otherwise. */
    method Take(f: Frame) returns (isClosing: bool)
      requires Valid() && f !in repr
      modifies this`frame, this`frames, this`log, this`repr, repr
      ensures Valid() && fresh(repr - old(repr) - {f})
      ensures StateOk(old(State())) && StateOk(State())
      ensures WsClient.Outcome(State(), isClosing) == TakeFrame(handlers, old(State()), old(f.Value()))
    {
      hide WsClient.HandleFrame;
      if !f.isComplete {
        frame, repr := f, repr + {f};
        isClosing := false;
      } else {
        HandleFrameOk(handlers, State(), f.Value());
        isClosing := HandleFrame(f);
      }
    }

    /** handleRaw: all frames of the packet are read first, then handled one by one. */
    method HandleRaw(packet: bytes) returns (isClosing: bool)
      requires Valid()
      modifies this`frame, this`frames, this`log, this`repr, repr
      ensures Valid() && fresh(repr - old(repr))
      ensures StateOk(old(State()))
      ensures WsClient.Outcome(State(), isClosing) == WsClient.HandleRaw(handlers, old(State()), packet)
    {
      hide UnpackAll, HandleFrames, TakeFrame;
      var fs := Unpack(packet);
      NoFrames();
      if fs == null {
        TakeStep(handlers, State(), [], 0);
        return false;
      }
      ghost var v, all := fs.v, Values(fs.v);
      ghost var target := HandleFrames(handlers, State(), all);
      assert all[0..] == all;
      forall i | 0 <= i < |v| ensures fresh(v[i]) && v[i] !in repr {
        assert v[i] in v && fresh(v[i]);
      }
      for x := 0 to |fs.v|
        invariant fs.v == v && fs !in repr && Valid() && fresh(repr - old(repr))
        invariant forall i :: x <= i < |v| ==> fresh(v[i]) && v[i] !in repr && v[i].Value() == all[i]
        invariant StateOk(State()) && HandleFrames(handlers, State(), all[x..]) == target
      {
        TakeStep(handlers, State(), all, x);
        isClosing := Take(fs.v[x]);
        if isClosing {
          return true;
        }
      }
      TakeStep(handlers, State(), all, |v|);
      isClosing := false;
    }

    /** One round of the loop of serve. */
    method Serve(packet: bytes) returns (isClosing: bool)
      requires Valid() && Resumable(State()) && packet != []
      modifies this`frame, this`frames, this`log, this`repr, repr
      ensures Valid() && fresh(repr - old(repr))
      ensures StateOk(old(State()))
      ensures WsClient.Outcome(State(), isClosing) == WsClient.Serve(handlers, old(State()), packet)
    {
      hide WsClient.HandleRaw, WsClient.HandleFrame, UnpackFrame;
      var rest := packet;
      if frame != null {
        ghost var before := State();
        rest := frame.Unpack(rest);
        assert State() == before.(frame := Some(frame.Value()));
        if frame.isComplete {
          var f := frame;
          frame, repr := null, repr - {frame};
          assert State() == before.(frame := None);
          isClosing := HandleFrame(f);
          if isClosing {
            return true;
          }
        }
        if |rest| == 0 {
          return false;
        }
      }
      isClosing := HandleRaw(rest);
    }

    /** The loop of serve over the packets that arrive; an empty one ends it. */
    method ServeAll(packets: seq<bytes>) returns (isClosing: bool)
      requires Valid() && StateOk(State()) && Resumable(State())
      modifies this`frame, this`frames, this`log, this`repr, repr
      ensures Valid() && fresh(repr - old(repr))
      ensures WsClient.Outcome(State(), isClosing) == WsClient.Run(handlers, old(State()), packets)
    {
      hide WsClient.Serve, Feed, Resumable;
      ghost var target := WsClient.Run(handlers, State(), packets);
      assert packets[0..] == packets;
      for x := 0 to |packets|
        invariant Valid() && fresh(repr - old(repr)) && StateOk(State()) && Resumable(State())
        invariant WsClient.Run(handlers, State(), packets[x..]) == target
      {
        assert packets[x..][1..] == packets[x + 1..];
        if |packets[x]| == 0 {
          return true;
        }
        ServeIsFeed(handlers, State(), packets[x]);
        FeedKeeps(handlers, State(), packets[x]);
        isClosing := Serve(packets[x]);
        if isClosing {
          return true;
        }
      }
      isClosing := false;
    }
  }

  /** One round of the loop of handleRaw. */
  function TakeFrame(h: Handlers, st: WsClient.State, f: FrameValue): WsClient.Outcome
    requires StateOk(st)
  {
    if f.isComplete then WsClient.HandleFrame(h, st, f) else WsClient.Outcome(st.(frame := Some(f)), false)
  }

  lemma TakeStep(h: Handlers, st: WsClient.State, all: seq<FrameValue>, x: nat)
    requires StateOk(st) && x <= |all|
    ensures x == |all| ==> HandleFrames(h, st, all[x..]) == WsClient.Outcome(st, false)
    ensures all == [] ==> HandleFrames(h, st, all) == WsClient.Outcome(st, false)
    ensures x < |all| ==>
      var r := TakeFrame(h, st, all[x]);
      StateOk(r.state) &&
      HandleFrames(h, st, all[x..]) == if r.closing then r else HandleFrames(h, r.state, all[x + 1..])
  {
    hide WsClient.HandleFrame;
    if x < |all| {
      HandleFrameOk(h, st, all[x]);
      assert all[x..][1..] == all[x + 1..];
    }
  }

  lemma NoFrames()
    ensures UnpackAll([]) == []
  {
  }

  predicate Distinct(v: seq<Frame>) {
    forall i, j :: 0 <= i < j < |v| ==> v[i] != v[j]
  }

  lemma EncodedIs(f: FrameValue)
    requires Packable(f)
    ensures var head := [f.fin + f.opcode] + EncodeLength(f.masked, |f.payload|);
      EncodeFrame(f) == if f.masked == MASKED then head + f.maskKey + Mask(f.payload, f.maskKey, 0) else head + f.payload
  {
    hide Mask, EncodeLength;
    var head := [f.fin + f.opcode] + EncodeLength(f.masked, |f.payload|);
    if f.masked == MASKED {
      var body := Mask(f.payload, f.maskKey, 0);
      assert head + f.maskKey + body == head + (f.maskKey + body);
    }
  }

  lemma LengthSize(masked: byte, size: nat)
    requires masked in {0, MASKED}
    ensures |EncodeLength(masked, size)| == if size > 0xFFFF then 9 else if size > SMALL then 3 else 1
  {
  }

  lemma FirstStage(f: FrameValue, p: bytes)
    requires Readable(f) && p != []
    ensures ReadFirst(f, p) ==
      if |f.chopped| != 0 then Continue(f, p)
      else
        var g := f.(fin := Flag(p[0], 0x80), rsv1 := Flag(p[0], 0x40), rsv2 := Flag(p[0], 0x20),
          rsv3 := Flag(p[0], 0x10), opcode := p[0] % 0x10, chopped := f.chopped + [p[0]]);
        if |p| == 1 then Return(g) else Continue(g, p[1..])
  {
    assert |f.chopped| == 0 ==> f.chopped + [p[0]] == [p[0]];
  }

  lemma FirstReadable(f: FrameValue, p: bytes)
    requires Readable(f) && p != []
    ensures var s := ReadFirst(f, p);
      s.Continue? ==> |s.frame.chopped| >= 1 && Readable(s.frame) && (|s.frame.chopped| == 1 ==> s.rest != [])
  {
  }

  lemma SecondReadable(f: FrameValue, p: bytes)
    requires Readable(f) && |f.chopped| >= 1 && (|f.chopped| == 1 ==> p != [])
    ensures var s := ReadSecond(f, p); s.Continue? && |s.frame.chopped| >= 2 && Readable(s.frame)
  {
  }

  lemma SecondStage(f: FrameValue, p: bytes)
    requires |f.chopped| == 1 ==> p != []
    ensures ReadSecond(f, p) ==
      if |f.chopped| != 1 then Continue(f, p)
      else Continue(f.(masked := Flag(p[0], 0x80), len := p[0] as int % 0x80, chopped := f.chopped + [p[0]]), p[1..])
  {
  }

  /** copy(out[x:], part) */
  method Put(out: array<byte>, x: nat, part: bytes)
    requires x + |part| <= out.Length
    modifies out
    ensures out[..] == Overwrite(old(out[..]), x, part)
    ensures out[..x + |part|] == old(out[..x]) + part
  {
    for i := 0 to |part|
      invariant forall j :: 0 <= j < out.Length ==> out[j] == if x <= j < x + i then part[j - x] else old(out[j])
    {
      out[x + i] := part[i];
    }
  }
}
