/**
 Fragmentation (RFC 6455, section 5.4): which frames may follow which, and what a sequence of complete frames, with
 control frames in between, makes the client deliver. Stated on the sequence as a whole, not on the client's state.
 */
module WsOrder {
  import opened Bytes
  import opened WsFrame
  import opened WsClient

  /** Data frames have the opcodes 0 (continuation), 1 (text) and 2 (binary). */
  predicate IsData(f: FrameValue) {
    f.opcode <= 2
  }

  /** Section 5.2: from a server, unmasked and without flags of unknown extensions; control frames are short and whole. */
  predicate Proper(h: Handlers, f: FrameValue) {
    && f.masked != 0x80
    && (f.rsv1 > 0 ==> h.allowRsv1) && (f.rsv2 > 0 ==> h.allowRsv2) && (f.rsv3 > 0 ==> h.allowRsv3)
    && (f.opcode >= 8 ==> f.fin != 0 && f.len <= 125)
  }

  /** A message is open before frame i: the last data frame before it was not final. */
  ghost predicate Open(fs: seq<FrameValue>, i: nat)
    requires i <= |fs|
  {
    exists j :: 0 <= j < i && IsData(fs[j]) && fs[j].fin == 0 && forall k :: j < k < i ==> !IsData(fs[k])
  }

  /** Section 5.4: a data frame continues a message exactly when one is open. */
  ghost predicate InOrder(fs: seq<FrameValue>, i: nat)
    requires i < |fs|
  {
    IsData(fs[i]) ==> (fs[i].opcode == 0 <==> Open(fs, i))
  }

  /** Where the message that is under way before frame i began. */
  function Start(fs: seq<FrameValue>, i: nat): (s: nat)
    requires i <= |fs|
    ensures s <= i
  {
    if i == 0 then 0
    else if IsData(fs[i - 1]) && fs[i - 1].opcode != 0 then i - 1
    else Start(fs, i - 1)
  }

  function DataFrames(fs: seq<FrameValue>): (r: seq<FrameValue>)
    ensures forall f :: f in r ==> IsData(f)
  {
    if fs == [] then []
    else DataFrames(fs[..|fs| - 1]) + if IsData(fs[|fs| - 1]) then [fs[|fs| - 1]] else []
  }

  function Concat(fs: seq<FrameValue>): bytes {
    if fs == [] then [] else Concat(fs[..|fs| - 1]) + fs[|fs| - 1].payload
  }

  /** The data frames of the message that is under way before frame i. */
  function Fragments(fs: seq<FrameValue>, i: nat): seq<FrameValue>
    requires i <= |fs|
  {
    DataFrames(fs[Start(fs, i)..i])
  }

  /** The message that frame i ends: the first fragment with the payloads of all of them. */
  function Message(fs: seq<FrameValue>, i: nat): FrameValue
    requires i < |fs| && IsData(fs[i])
  {
    var m := Fragments(fs, i + 1);
    LastFragment(fs, i);
    m[0].(payload := Concat(m))
  }

  function Delivery(f: FrameValue): Event {
    if f.opcode == 1 then Text(f) else Bin(f)
  }

  /** What frame i makes the client call. */
  function EventsAt(h: Handlers, fs: seq<FrameValue>, i: nat): seq<Event>
    requires i < |fs|
  {
    var f := fs[i];
    if IsData(f) then if f.fin != 0 then [Delivery(Message(fs, i))] else []
    else if f.opcode == 9 then [Ping(f)]
    else if f.opcode == 10 then if h.hasPong then [Pong(f)] else []
    else [RsvControl(f)]
  }

  function Events(h: Handlers, fs: seq<FrameValue>, n: nat): seq<Event>
    requires n <= |fs|
  {
    if n == 0 then [] else Events(h, fs, n - 1) + EventsAt(h, fs, n - 1)
  }

  /** The client must stop at frame i. */
  ghost predicate Stops(h: Handlers, log: seq<Event>, fs: seq<FrameValue>, i: nat)
    requires i < |fs|
  {
    var f := fs[i];
    || !Proper(h, f)
    || 2 < f.opcode <= 8
    || (f.opcode > 10 && !h.hasRsvControl)
    || !InOrder(fs, i)
    || (IsData(f) && f.fin != 0 && Rejected(h, log + Events(h, fs, i), Message(fs, i)))
  }

  /** A message that is not text although it says so, or that its handler refuses. */
  predicate Rejected(h: Handlers, log: seq<Event>, f: FrameValue) {
    || (f.opcode == 1 && !h.utf8(f.payload))
    || !h.accepts(log, Delivery(f))
  }

  /** What the client does last. */
  ghost function StopEvents(h: Handlers, log: seq<Event>, fs: seq<FrameValue>, i: nat): seq<Event>
    requires i < |fs|
  {
    var f := fs[i];
    if !Proper(h, f) || 2 < f.opcode < 8 || !InOrder(fs, i) then
      [BadRequest]
    else if f.opcode >= 8 then [Close(f)]
    else if Message(fs, i).opcode == 1 && !h.utf8(Message(fs, i).payload) then [InvalidData]
    else [Delivery(Message(fs, i)), BadRequest]
  }

  // ---------------------------------------------------------------- proofs

  lemma LastFragment(fs: seq<FrameValue>, i: nat)
    requires i < |fs|
    ensures IsData(fs[i]) && fs[i].opcode != 0 ==> Fragments(fs, i + 1) == [fs[i]]
    ensures IsData(fs[i]) && fs[i].opcode == 0 ==> Fragments(fs, i + 1) == Fragments(fs, i) + [fs[i]]
    ensures !IsData(fs[i]) ==> Fragments(fs, i + 1) == Fragments(fs, i)
  {
    var s := Start(fs, i + 1);
    var part := fs[s..i + 1];
    assert part[..|part| - 1] == fs[s..i] && part[|part| - 1] == fs[i];
    if IsData(fs[i]) && fs[i].opcode != 0 {
      assert DataFrames(fs[s..i]) == [];
    }
  }

  lemma OpenStep(fs: seq<FrameValue>, i: nat)
    requires i < |fs|
    ensures Open(fs, i + 1) <==> if IsData(fs[i]) then fs[i].fin == 0 else Open(fs, i)
  {
    if IsData(fs[i]) {
      if Open(fs, i + 1) {
        var j :| 0 <= j < i + 1 && IsData(fs[j]) && fs[j].fin == 0 && forall k :: j < k < i + 1 ==> !IsData(fs[k]);
        assert j == i;
      } else {
        assert fs[i].fin != 0;
      }
    } else {
      if Open(fs, i) {
        var j :| 0 <= j < i && IsData(fs[j]) && fs[j].fin == 0 && forall k :: j < k < i ==> !IsData(fs[k]);
        assert IsData(fs[j]) && forall k :: j < k < i + 1 ==> !IsData(fs[k]);
      }
      if Open(fs, i + 1) {
        var j :| 0 <= j < i + 1 && IsData(fs[j]) && fs[j].fin == 0 && forall k :: j < k < i + 1 ==> !IsData(fs[k]);
        assert j < i;
      }
    }
  }

  lemma {:induction false} JoinedIsConcat(frames: seq<FrameValue>, last: FrameValue)
    requires frames != [] && forall f :: f in frames ==> IsData(f)
    ensures Joined(frames, last) == frames[0].(payload := Concat(frames + [last]))
  {
    assert (frames + [last])[..|frames|] == frames;
    assert frames == [frames[0]] + frames[1..];
    ConcatFirst(frames);
    PayloadsOfData(frames[1..]);
  }

  lemma {:induction false} PayloadsOfData(frames: seq<FrameValue>)
    requires forall f :: f in frames ==> IsData(f)
    ensures Payloads(frames) == Concat(frames)
    decreases |frames|
  {
    if frames != [] {
      assert IsData(frames[0]);
      ConcatFirst(frames);
      PayloadsOfData(frames[1..]);
    }
  }

  lemma {:induction false} ConcatFirst(frames: seq<FrameValue>)
    requires frames != []
    ensures Concat(frames) == frames[0].payload + Concat(frames[1..])
    decreases |frames|
  {
    var n := |frames| - 1;
    if n > 0 {
      ConcatFirst(frames[..n]);
      assert frames[..n][1..] == frames[1..][..n - 1];
      assert frames[0].payload + (Concat(frames[1..][..n - 1]) + frames[n].payload)
          == frames[0].payload + Concat(frames[1..][..n - 1]) + frames[n].payload;
    }
  }

  /** The client's state when frame i arrives. */
  ghost function StateAt(h: Handlers, log: seq<Event>, fs: seq<FrameValue>, i: nat): State
    requires i <= |fs|
  {
    State(None, if Open(fs, i) then Some(Fragments(fs, i)) else None, log + Events(h, fs, i))
  }

  /** An open message has a fragment. */
  lemma {:induction false} OpenFragments(fs: seq<FrameValue>, i: nat)
    requires i <= |fs| && Open(fs, i)
    requires forall k :: 0 <= k < i ==> InOrder(fs, k)
    ensures Fragments(fs, i) != []
  {
    hide Open, Fragments;
    if i > 0 {
      OpenStep(fs, i - 1);
      LastFragment(fs, i - 1);
      if !IsData(fs[i - 1]) {
        OpenFragments(fs, i - 1);
      }
    } else {
      NotOpen(fs);
    }
  }

  lemma NotOpen(fs: seq<FrameValue>)
    ensures !Open(fs, 0)
  {
  }

  /** One frame, either way. */
  lemma {:induction false} FrameStep(h: Handlers, log: seq<Event>, fs: seq<FrameValue>, i: nat)
    requires i < |fs| && Whole(fs[i])
    requires forall k :: 0 <= k < i ==> InOrder(fs, k)
    ensures StateOk(StateAt(h, log, fs, i))
    ensures !Stops(h, log, fs, i) ==>
      HandleFrame(h, StateAt(h, log, fs, i), fs[i]) == WsClient.Outcome(StateAt(h, log, fs, i + 1), false)
    ensures Stops(h, log, fs, i) ==>
      var r := HandleFrame(h, StateAt(h, log, fs, i), fs[i]);
      r.closing && r.state.log == log + Events(h, fs, i) + StopEvents(h, log, fs, i)
  {
    hide Open, Start, Fragments, Concat, Joined, Events, Proper, IsValid;
    ProperIsValid(h, fs[i]);
    var st, f := StateAt(h, log, fs, i), fs[i];
    OpenStep(fs, i);
    LastFragment(fs, i);
    EventsNext(h, log, fs, i);
    if Open(fs, i) {
      OpenFragments(fs, i);
      FragmentsAreData(fs, i);
      JoinedIsConcat(Fragments(fs, i), f);
    }
    SingleConcat(f);
    assert [] + [f] == [f];
    assert f.(payload := f.payload) == f;
  }

  lemma ProperIsValid(h: Handlers, f: FrameValue)
    ensures Proper(h, f) == IsValid(f, false, h.allowRsv1, h.allowRsv2, h.allowRsv3)
  {
  }

  lemma EventsNext(h: Handlers, log: seq<Event>, fs: seq<FrameValue>, i: nat)
    requires i < |fs|
    ensures log + Events(h, fs, i + 1) == log + Events(h, fs, i) + EventsAt(h, fs, i)
    ensures EventsAt(h, fs, i) == [] ==> log + Events(h, fs, i + 1) == log + Events(h, fs, i)
  {
    hide EventsAt;
  }

  lemma FragmentsAreData(fs: seq<FrameValue>, i: nat)
    requires i <= |fs|
    ensures forall f :: f in Fragments(fs, i) ==> IsData(f)
  {
  }

  lemma SingleConcat(f: FrameValue)
    ensures Concat([f]) == f.payload
  {
    assert [f][..0] == [];
  }

  /**
   As long as no frame makes it stop, the client has delivered every message that ended, once, with the opcode of its
   first fragment and the payloads of all its fragments, and every control frame, in order; and it holds exactly the
   fragments of the message that is still open.
   */
  lemma {:induction false} Delivered(h: Handlers, log: seq<Event>, fs: seq<FrameValue>, i: nat)
    requires i <= |fs| && forall k :: 0 <= k < |fs| ==> Whole(fs[k])
    requires forall k :: 0 <= k < i ==> !Stops(h, log, fs, k)
    ensures StateOk(StateAt(h, log, fs, i))
    ensures HandleFrames(h, State(None, None, log), fs) == HandleFrames(h, StateAt(h, log, fs, i), fs[i..])
    decreases i
  {
    hide HandleFrame, Open, Events, Fragments, Rejected;
    if i == 0 {
      NothingOpen(h, log, fs);
      assert fs[0..] == fs;
    } else {
      Delivered(h, log, fs, i - 1);
      StillInOrder(h, log, fs, i);
      FrameStep(h, log, fs, i - 1);
      assert fs[i - 1..][0] == fs[i - 1] && fs[i - 1..][1..] == fs[i..];
      HandleFrameOk(h, StateAt(h, log, fs, i - 1), fs[i - 1]);
    }
  }

  lemma StillInOrder(h: Handlers, log: seq<Event>, fs: seq<FrameValue>, i: nat)
    requires i <= |fs| && forall k :: 0 <= k < i ==> !Stops(h, log, fs, k)
    ensures forall k :: 0 <= k < i ==> InOrder(fs, k)
  {
    hide InOrder, Rejected, Proper;
    forall k | 0 <= k < i ensures InOrder(fs, k) {
      assert !Stops(h, log, fs, k);
    }
  }

  lemma NothingOpen(h: Handlers, log: seq<Event>, fs: seq<FrameValue>)
    ensures StateAt(h, log, fs, 0) == State(None, None, log)
  {
    assert log + [] == log;
  }

  /** The client stops at the first frame that breaks the rules, and nothing after it is handled. */
  lemma {:induction false} StopsAtFirst(h: Handlers, log: seq<Event>, fs: seq<FrameValue>, i: nat)
    requires i < |fs| && forall k :: 0 <= k < |fs| ==> Whole(fs[k])
    requires forall k :: 0 <= k < i ==> !Stops(h, log, fs, k)
    requires Stops(h, log, fs, i)
    ensures var r := HandleFrames(h, State(None, None, log), fs);
      r.closing && r.state.log == log + Events(h, fs, i) + StopEvents(h, log, fs, i)
  {
    hide HandleFrame, Open, Events, Fragments, Rejected, StopEvents;
    Delivered(h, log, fs, i);
    StillInOrder(h, log, fs, i);
    FrameStep(h, log, fs, i);
    assert fs[i..][0] == fs[i];
  }

  /** The client reads a sequence to its end if and only if no frame makes it stop. */
  lemma {:induction false} ReadsToTheEnd(h: Handlers, log: seq<Event>, fs: seq<FrameValue>)
    requires forall k :: 0 <= k < |fs| ==> Whole(fs[k])
    ensures var r := HandleFrames(h, State(None, None, log), fs);
      && (!r.closing <==> forall i :: 0 <= i < |fs| ==> !Stops(h, log, fs, i))
      && (!r.closing ==> r.state == StateAt(h, log, fs, |fs|))
  {
    hide HandleFrame, Open, Events, Fragments, Rejected, Stops, StopEvents;
    if i :| 0 <= i < |fs| && Stops(h, log, fs, i) {
      var j := FirstStop(h, log, fs, i);
      StopsAtFirst(h, log, fs, j);
    } else {
      Delivered(h, log, fs, |fs|);
    }
  }

  lemma {:induction false} FirstStop(h: Handlers, log: seq<Event>, fs: seq<FrameValue>, i: nat) returns (j: nat)
    requires i < |fs| && Stops(h, log, fs, i)
    ensures j <= i && Stops(h, log, fs, j) && forall k :: 0 <= k < j ==> !Stops(h, log, fs, k)
    decreases i
  {
    hide Stops;
    j := i;
    if k :| 0 <= k < i && Stops(h, log, fs, k) {
      j := FirstStop(h, log, fs, k);
    }
  }
}
