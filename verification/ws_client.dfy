/**
 The client side of a WebSocket connection: Client.handleFragment, handleFrame, handleRaw and the loop of serve, as
 steps on the frame being read, the fragments collected so far and a log of what the handlers were called with.
 */
module WsClient {
  import opened Bytes
  import opened WsFrame
  import opened WsSplit

  datatype Option<+T> = None | Some(value: T)

  datatype Event =
    | Text(frame: FrameValue)
    | Bin(frame: FrameValue)
    | Ping(frame: FrameValue)
    | Pong(frame: FrameValue)
    | Close(frame: FrameValue)
    | RsvControl(frame: FrameValue)
    | BadRequest
    | InvalidData

  /**
   The configuration of a client. `utf8` stands for utf8.Valid; `accepts` says whether HandleText or HandleBin returns
   no error for an event, given everything that was handled before.
   */
  datatype Handlers = Handlers(
    allowRsv1: bool, allowRsv2: bool, allowRsv3: bool, hasPong: bool, hasRsvControl: bool,
    utf8: bytes -> bool, accepts: (seq<Event>, Event) -> bool)

  datatype State = State(frame: Option<FrameValue>, frames: Option<seq<FrameValue>>, log: seq<Event>)

  /** The state after a step, and whether the client stops. */
  datatype Outcome = Outcome(state: State, closing: bool)

  /** isValid(false, ...): frames from a server are unmasked, and control frames are short and whole. */
  predicate IsValid(f: FrameValue, isMasked: bool, rsv1: bool, rsv2: bool, rsv3: bool) {
    && (f.masked == MASKED <==> isMasked)
    && (f.rsv1 > 0 ==> rsv1) && (f.rsv2 > 0 ==> rsv2) && (f.rsv3 > 0 ==> rsv3)
    && (f.opcode >= OP_CLOSE ==> f.fin != 0 && f.len <= SMALL)
  }

  /** Frames.fin: the first frame with the payloads of the later ones and of the last, skipping PING and PONG and
      ending at a CLOSE. */
  function Joined(frames: seq<FrameValue>, last: FrameValue): FrameValue
    requires frames != []
  {
    frames[0].(payload := frames[0].payload + Payloads(frames[1..]) + last.payload)
  }

  function Payloads(frames: seq<FrameValue>): bytes {
    if frames == [] || frames[0].opcode == OP_CLOSE then []
    else (if frames[0].opcode in {OP_PING, OP_PONG} then [] else frames[0].payload) + Payloads(frames[1..])
  }

  /** The message is complete: its frame goes to the text or the binary handler. */
  function Deliver(h: Handlers, st: State, f: FrameValue): Outcome {
    var st' := st.(frame := None, frames := None);
    if f.opcode == OP_TEXT && !h.utf8(f.payload) then
      Outcome(st'.(log := st.log + [InvalidData]), true)
    else
      var e := if f.opcode == OP_TEXT then Text(f) else Bin(f);
      if h.accepts(st.log, e) then Outcome(st'.(log := st.log + [e]), false)
      else Outcome(st'.(log := st.log + [e, BadRequest]), true)
  }

  function HandleFragment(h: Handlers, st: State, f: FrameValue): Outcome
    requires st.frames.Some? ==> st.frames.value != []
  {
    if st.frames.None? == (f.opcode == OP_CONT) then
      Outcome(st.(log := st.log + [BadRequest]), true)
    else if f.fin == 0 then
      if |f.payload| < f.len then Outcome(st.(frame := Some(f)), false)
      else
        var frames := if st.frames.None? then [] else st.frames.value;
        Outcome(st.(frame := None, frames := Some(frames + [f])), false)
    else if st.frame.None? && |f.payload| < f.len then
      Outcome(st.(frame := Some(f)), false)
    else
      Deliver(h, st, if st.frames.Some? then Joined(st.frames.value, f) else f)
  }

  function HandleFrame(h: Handlers, st: State, f: FrameValue): Outcome
    requires st.frames.Some? ==> st.frames.value != []
  {
    if !IsValid(f, false, h.allowRsv1, h.allowRsv2, h.allowRsv3) then
      Outcome(st.(log := st.log + [BadRequest]), true)
    else if f.opcode <= OP_BIN then HandleFragment(h, st, f)
    else if f.opcode < OP_CLOSE then Outcome(st.(log := st.log + [BadRequest]), true)
    else if f.opcode == OP_CLOSE then Outcome(st.(log := st.log + [Close(f)]), true)
    else if f.opcode == OP_PING then Outcome(st.(log := st.log + [Ping(f)]), false)
    else if f.opcode == OP_PONG then
      Outcome(if h.hasPong then st.(log := st.log + [Pong(f)]) else st, false)
    else if h.hasRsvControl then Outcome(st.(log := st.log + [RsvControl(f)]), false)
    else Outcome(st.(log := st.log + [Close(f)]), true)
  }

  /** What every step keeps: collected fragments are never an empty list. */
  predicate StateOk(st: State) {
    st.frames.Some? ==> st.frames.value != []
  }

  /** A frame as unpack completes it. */
  predicate Whole(f: FrameValue) {
    f.isComplete && |f.payload| == f.len
  }

  lemma HandleFrameOk(h: Handlers, st: State, f: FrameValue)
    requires StateOk(st)
    ensures StateOk(HandleFrame(h, st, f).state)
    ensures Whole(f) && st.frame == None ==> HandleFrame(h, st, f).state.frame == None
  {
  }

  /** The loop of handleRaw over the frames of one packet. */
  function HandleFrames(h: Handlers, st: State, fs: seq<FrameValue>): Outcome
    requires StateOk(st)
    decreases |fs|
  {
    if fs == [] then Outcome(st, false)
    else if !fs[0].isComplete then HandleFrames(h, st.(frame := Some(fs[0])), fs[1..])
    else
      HandleFrameOk(h, st, fs[0]);
      var r := HandleFrame(h, st, fs[0]);
      if r.closing then r else HandleFrames(h, r.state, fs[1..])
  }

  function HandleRaw(h: Handlers, st: State, p: bytes): Outcome
    requires StateOk(st)
  {
    HandleFrames(h, st, UnpackAll(p))
  }

  /** The frame in progress, if there is one, can be resumed. */
  predicate Resumable(st: State) {
    st.frame.Some? ==> Readable(st.frame.value) && !st.frame.value.isComplete
  }

  /** One packet in the loop of serve. */
  function Serve(h: Handlers, st: State, p: bytes): Outcome
    requires StateOk(st) && Resumable(st) && p != []
  {
    if st.frame.None? then HandleRaw(h, st, p)
    else
      var (f, rest) := UnpackFrame(st.frame.value, p);
      if f.isComplete then
        HandleFrameOk(h, st.(frame := None), f);
        var r := HandleFrame(h, st.(frame := None), f);
        if r.closing || rest == [] then r else HandleRaw(h, r.state, rest)
      else
        var st' := st.(frame := Some(f));
        if rest == [] then Outcome(st', false) else HandleRaw(h, st', rest)
  }

  // ---------------------------------------------------------------- one stream, frame by frame

  /** The reference: read one frame, handle it, go on with the rest of the stream. */
  function Feed(h: Handlers, st: State, s: bytes): Outcome
    requires StateOk(st) && Resumable(st)
    decreases |s|, if st.frame.Some? then 1 else 0
  {
    if s == [] then Outcome(st, false)
    else
      var f := if st.frame.Some? then st.frame.value else FRESH_FRAME;
      var (g, rest) := UnpackFrame(f, s);
      if !g.isComplete then Outcome(st.(frame := Some(g)), false)
      else
        var st0 := st.(frame := None);
        HandleFrameOk(h, st0, g);
        var r := HandleFrame(h, st0, g);
        if r.closing then r else Feed(h, r.state.(frame := None), rest)
  }

  // ---------------------------------------------------------------- a packet is handled like a stream

  /** Complete means that the payload is all there; incomplete, that the packet is used up. */
  lemma UnpackReadable(f: FrameValue, p: bytes)
    requires Readable(f) && !f.isComplete && p != []
    ensures var (g, r) := UnpackFrame(f, p);
      (g.isComplete ==> Whole(g)) && (!g.isComplete ==> r == [] && Readable(g))
  {
    hide ReadBody;
    var s := ReadFirst(f, p);
    if s.Continue? {
      var t := ReadSecond(s.frame, s.rest);
      BodyReadable(t.frame, t.rest);
    }
  }

  lemma BodyReadable(f: FrameValue, p: bytes)
    requires Readable(f) && !f.isComplete && |f.chopped| >= 2
    ensures var (g, r) := ReadBody(f, p);
      (g.isComplete ==> Whole(g)) && (!g.isComplete ==> r == [] && Readable(g))
  {
    hide ReadMask, ReadPayload;
    ReadLengthReadable(f, p);
    var s := ReadLength(f, p);
    if s.Continue? {
      if s.frame.len == LARGE && |s.frame.chopped| < 10 {
        Sixteen(s.frame.chopped[2..4]);
      }
      RestReadable(s.frame, s.rest);
    }
  }

  /** The length is known here: what still reads as a pending length is 127 in 16 bits. */
  lemma RestReadable(f: FrameValue, p: bytes)
    requires Readable(f) && !f.isComplete && |f.chopped| >= 2
    requires f.len == LARGE && |f.chopped| < 10 ==> |f.chopped| >= 4 && f.chopped[2..4] == [0, LARGE]
    requires f.len == MEDIUM ==> |f.chopped| >= 4
    ensures var s := ReadMask(f, p);
      && Readable(s.frame)
      && (s.Return? ==> !s.frame.isComplete)
      && (s.Continue? ==>
            && (s.frame.masked == MASKED ==> |s.frame.maskKey| == 4)
            && var (g, r) := ReadPayload(s.frame, s.rest);
               (g.isComplete ==> Whole(g)) && (!g.isComplete ==> r == [] && Readable(g)))
  {
    hide Mask, CloseCode;
  }

  lemma {:induction false} HandleRawIsFeed(h: Handlers, st: State, p: bytes)
    requires StateOk(st) && st.frame == None
    ensures HandleRaw(h, st, p) == Feed(h, st, p)
    decreases |p|
  {
    hide UnpackFrame, HandleFrame;
    if p != [] {
      FreshHonest();
      UnpackReadable(FRESH_FRAME, p);
      var (g, rest) := UnpackFrame(FRESH_FRAME, p);
      if g.isComplete {
        HandleFrameOk(h, st, g);
        var r := HandleFrame(h, st, g);
        if !r.closing {
          HandleRawIsFeed(h, r.state, rest);
        }
      } else {
        assert UnpackAll(rest) == [];
        assert HandleFrames(h, st.(frame := Some(g)), []) == Outcome(st.(frame := Some(g)), false);
      }
    }
  }

  /** Parsing a packet to its end before handling its frames is the same as handling each frame as it is read. */
  lemma {:induction false} ServeIsFeed(h: Handlers, st: State, p: bytes)
    requires StateOk(st) && Resumable(st) && p != []
    ensures Serve(h, st, p) == Feed(h, st, p)
  {
    hide UnpackFrame, HandleFrame, HandleRaw;
    if st.frame.Some? {
      UnpackReadable(st.frame.value, p);
      var (g, rest) := UnpackFrame(st.frame.value, p);
      if g.isComplete {
        var st0 := st.(frame := None);
        HandleFrameOk(h, st0, g);
        var r := HandleFrame(h, st0, g);
        if !r.closing {
          HandleRawIsFeed(h, r.state, rest);
        }
      }
    } else {
      HandleRawIsFeed(h, st, p);
    }
  }

  // ---------------------------------------------------------------- cutting the stream

  /** The frame in progress reads on as if it had not been cut. */
  predicate Steady(st: State) {
    StateOk(st) && (st.frame.Some? ==> InProgress(st.frame.value) && !Rereads(st.frame.value))
  }

  lemma SteadyResumable(st: State)
    requires Steady(st)
    ensures Resumable(st) && StateOk(st)
  {
    if st.frame.Some? {
      HonestReadable(st.frame.value);
    }
  }

  /** The frame that the next byte belongs to. */
  function Current(st: State): FrameValue {
    if st.frame.Some? then st.frame.value else FRESH_FRAME
  }

  lemma CurrentSteady(st: State)
    requires Steady(st)
    ensures InProgress(Current(st)) && !Rereads(Current(st)) && Readable(Current(st)) && !Current(st).isComplete
  {
    FreshHonest();
    HonestReadable(Current(st));
  }

  /** A stream in two pieces is a stream, unless the cut falls into a frame whose length is read again. */
  lemma {:induction false} FeedSplits(h: Handlers, st: State, a: bytes, b: bytes)
    requires Steady(st) && b != []
    ensures StateOk(st) && Resumable(st)
    ensures var r := Feed(h, st, a);
      && StateOk(r.state)
      && (r.closing ==> Feed(h, st, a + b) == r)
      && (!r.closing ==> r.state.frame.Some? ==> InProgress(r.state.frame.value))
      && (!r.closing && Steady(r.state) ==> Resumable(r.state) && Feed(h, st, a + b) == Feed(h, r.state, b))
    decreases |a|, if st.frame.Some? then 1 else 0
  {
    hide UnpackFrame, HandleFrame, Honest, InProgress, Rereads;
    SteadyResumable(st);
    CurrentSteady(st);
    if a == [] {
      assert a + b == b;
    } else {
      var f := Current(st);
      UnpackSplits(f, a, b);
      UnpackReadable(f, a);
      var (g, rest) := UnpackFrame(f, a);
      assert a + b != [];
      if g.isComplete {
        var st0 := st.(frame := None);
        HandleFrameOk(h, st0, g);
        var r := HandleFrame(h, st0, g);
        if !r.closing {
          FeedSplits(h, r.state, rest, b);
        }
      } else {
        if Steady(st.(frame := Some(g))) {
          ResumedFeed(h, st, g, a + b, b);
        }
      }
    }
  }

  /** A frame resumed with the rest of the stream goes on as the uncut frame does. */
  lemma {:induction false} ResumedFeed(h: Handlers, st: State, g: FrameValue, s: bytes, b: bytes)
    requires Steady(st) && Steady(st.(frame := Some(g))) && s != [] && b != []
    requires Readable(Current(st)) && Readable(g)
    ensures StateOk(st) && Resumable(st) && Resumable(st.(frame := Some(g)))
    ensures UnpackFrame(Current(st), s) == UnpackFrame(g, b) ==> Feed(h, st, s) == Feed(h, st.(frame := Some(g)), b)
  {
    hide UnpackFrame, HandleFrame, Honest, InProgress, Rereads;
    SteadyResumable(st);
    SteadyResumable(st.(frame := Some(g)));
  }

  /** No frame of the stream has a 16-bit length of exactly 127, as far as the client reads it. */
  predicate Clean(h: Handlers, st: State, s: bytes)
    requires StateOk(st) && Resumable(st)
    decreases |s|, if st.frame.Some? then 1 else 0
  {
    s == [] ||
    var f := Current(st);
    && !Sixteen127(f.chopped + s)
    && var (g, rest) := UnpackFrame(f, s);
       g.isComplete ==>
         var st0 := st.(frame := None);
         HandleFrameOk(h, st0, g);
         var r := HandleFrame(h, st0, g);
         !r.closing ==> Clean(h, r.state.(frame := None), rest)
  }

  /** A clean stream stays clean, and its frames are never read again, wherever it is cut. */
  lemma {:induction false} CleanSplits(h: Handlers, st: State, a: bytes, b: bytes)
    requires Steady(st) && b != []
    requires StateOk(st) && Resumable(st) && Clean(h, st, a + b)
    ensures var r := Feed(h, st, a);
      !r.closing ==> Steady(r.state) && Resumable(r.state) && Clean(h, r.state, b)
    decreases |a|, if st.frame.Some? then 1 else 0
  {
    hide UnpackFrame, HandleFrame, Honest, InProgress, Rereads, Sixteen127, HeaderOf;
    CurrentSteady(st);
    if a == [] {
      assert a + b == b;
    } else {
      var f := Current(st);
      UnpackSplits(f, a, b);
      UnpackReadable(f, a);
      var (g, rest) := UnpackFrame(f, a);
      assert a + b != [];
      if g.isComplete {
        var st0 := st.(frame := None);
        HandleFrameOk(h, st0, g);
        var r := HandleFrame(h, st0, g);
        if !r.closing {
          assert r.state.(frame := None) == r.state;
          CleanSplits(h, r.state, rest, b);
        }
      } else {
        HeaderKnown(f, a);
        RereadHeader(g, f.chopped + a);
        assert f.chopped + a + b == f.chopped + (a + b);
        Prefix127(f.chopped + a, b);
        var st1 := st.(frame := Some(g));
        SteadyResumable(st1);
        ResumedClean(h, st, g, a + b, b);
      }
    }
  }

  lemma Prefix127(s: bytes, b: bytes)
    ensures Sixteen127(s) ==> Sixteen127(s + b)
  {
  }

  lemma {:induction false} ResumedClean(h: Handlers, st: State, g: FrameValue, s: bytes, b: bytes)
    requires Steady(st) && Steady(st.(frame := Some(g))) && s != [] && b != []
    requires StateOk(st) && Resumable(st) && Resumable(st.(frame := Some(g)))
    ensures UnpackFrame(Current(st), s) == UnpackFrame(g, b) && Clean(h, st, s) && !Sixteen127(g.chopped + b) ==>
      Clean(h, st.(frame := Some(g)), b)
  {
    hide UnpackFrame, HandleFrame, Honest, InProgress, Rereads, Sixteen127;
  }

  /**
   Exactly where a stream may be cut: for a second piece of up to 126 * 2^48 bytes, the outcome is that of the uncut
   stream if and only if the frame being read at the cut does not have a 16-bit length of 127.
   */
  lemma {:induction false} CutExact(h: Handlers, st: State, a: bytes, b: bytes)
    requires Steady(st) && StateOk(st) && Resumable(st)
    requires b != [] && |b| <= 126 * Pow256(6) && !Feed(h, st, a).closing
    ensures var r := Feed(h, st, a);
      && StateOk(r.state) && Resumable(r.state)
      && (Feed(h, st, a + b) == Feed(h, r.state, b)
          <==> !(r.state.frame.Some? && Rereads(r.state.frame.value)))
  {
    hide Feed, UnpackFrame, Honest, Rereads, Pow256;
    FeedSplits(h, st, a, b);
    FeedKeeps(h, st, a);
    var r := Feed(h, st, a);
    if r.state.frame.Some? && Rereads(r.state.frame.value) {
      var g := r.state.frame.value;
      RereadStuck(g, b);
      FeedOnce(h, r.state, b);
      FeedSplits(h, st, a + b, b);
    }
  }

  lemma {:induction false} FeedOnce(h: Handlers, st: State, p: bytes)
    requires StateOk(st) && Resumable(st) && st.frame.Some? && p != []
    requires !UnpackFrame(st.frame.value, p).0.isComplete
    ensures Feed(h, st, p) == Outcome(st.(frame := Some(UnpackFrame(st.frame.value, p).0)), false)
  {
    hide UnpackFrame, HandleFrame;
  }

  /** The loop of serve over the packets that arrive. */
  function Run(h: Handlers, st: State, packets: seq<bytes>): Outcome
    requires StateOk(st) && Resumable(st)
    decreases |packets|
  {
    if packets == [] then Outcome(st, false)
    else if packets[0] == [] then Outcome(st, true)
    else
      ServeIsFeed(h, st, packets[0]);
      var r := Serve(h, st, packets[0]);
      FeedKeeps(h, st, packets[0]);
      if r.closing then r else Run(h, r.state, packets[1..])
  }

  lemma {:induction false} FeedKeeps(h: Handlers, st: State, s: bytes)
    requires StateOk(st) && Resumable(st)
    ensures var r := Feed(h, st, s);
      StateOk(r.state) && (!r.closing ==> Resumable(r.state))
    decreases |s|, if st.frame.Some? then 1 else 0
  {
    hide UnpackFrame, HandleFrame, Readable;
    if s != [] {
      FreshReadable();
      UnpackReadable(Current(st), s);
      var (g, rest) := UnpackFrame(Current(st), s);
      if g.isComplete {
        var st0 := st.(frame := None);
        HandleFrameOk(h, st0, g);
        var r := HandleFrame(h, st0, g);
        if !r.closing {
          FeedKeeps(h, r.state.(frame := None), rest);
        }
      }
    }
  }

  lemma FreshReadable()
    ensures Readable(FRESH_FRAME)
  {
  }

  function Flatten(packets: seq<bytes>): bytes {
    if packets == [] then [] else packets[0] + Flatten(packets[1..])
  }

  /**
   However a stream is cut into non-empty packets, the client handles the same events and ends in the same state,
   closed or not, as when the stream arrives in one piece; the stream may have no 16-bit length of exactly 127.
   */
  lemma {:induction false} RunAnyCut(h: Handlers, st: State, packets: seq<bytes>)
    requires Steady(st) && StateOk(st) && Resumable(st)
    requires packets != [] && forall i :: 0 <= i < |packets| ==> packets[i] != []
    requires Clean(h, st, Flatten(packets))
    ensures Run(h, st, packets) == Run(h, st, [Flatten(packets)])
    decreases |packets|
  {
    hide Serve, Feed, Clean, Steady;
    var a, rest := packets[0], packets[1..];
    var b := Flatten(rest);
    ServeIsFeed(h, st, a);
    ServeIsFeed(h, st, a + b);
    FeedKeeps(h, st, a);
    FeedKeeps(h, st, a + b);
    var r := Feed(h, st, a);
    if rest != [] {
      assert rest[0] != [];
      assert b != [];
      CleanSplits(h, st, a, b);
      FeedSplits(h, st, a, b);
      if !r.closing {
        assert forall i :: 0 <= i < |rest| ==> rest[i] == packets[i + 1];
        RunAnyCut(h, r.state, rest);
        ServeIsFeed(h, r.state, b);
        FeedKeeps(h, r.state, b);
        OnePacket(h, r.state, b);
      }
    } else {
      assert a + b == a;
    }
    OnePacket(h, st, a + b);
  }

  lemma {:induction false} OnePacket(h: Handlers, st: State, p: bytes)
    requires StateOk(st) && Resumable(st) && p != []
    ensures Run(h, st, [p]) == Feed(h, st, p)
  {
    hide Serve, Feed;
    ServeIsFeed(h, st, p);
    FeedKeeps(h, st, p);
    var r := Feed(h, st, p);
    assert [p][1..] == [];
    if !r.closing {
      assert Run(h, r.state, []) == Outcome(r.state, false);
    }
  }
}
