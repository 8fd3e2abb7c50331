/**
 Resuming a frame: reading a packet in two pieces gives what reading it at once gives, except after one header. A
 16-bit extended length of exactly 127, once read, is taken for the marker of a 64-bit length by the next call.
 */
module WsSplit {
  import opened Bytes
  import opened WsFrame

  /** The 7-bit length of the header read so far. */
  function Marker(f: FrameValue): nat
    requires |f.chopped| >= 2
  {
    f.chopped[1] as int % 0x80
  }

  /** The extended length is still being read. */
  predicate LengthPending(f: FrameValue) {
    |f.chopped| >= 2 && ((Marker(f) == LARGE && |f.chopped| < 10) || (Marker(f) == MEDIUM && |f.chopped| < 4))
  }

  /** The length field is what the header bytes say. */
  predicate Honest(f: FrameValue) {
    && Readable(f) && !f.isComplete
    && (|f.chopped| >= 2 ==>
          && (LengthPending(f) ==> f.len == Marker(f) && f.payload == [] && f.maskKey == [])
          && (!LengthPending(f) && Marker(f) == LARGE ==> |f.chopped| == 10 && f.len == FromBigEndian(f.chopped[2..10]))
          && (!LengthPending(f) && Marker(f) == MEDIUM ==> |f.chopped| == 4 && f.len == FromBigEndian(f.chopped[2..4]))
          && (Marker(f) < MEDIUM ==> |f.chopped| == 2 && f.len == Marker(f)))
  }

  /** The frame whose length the next call reads again. */
  predicate Rereads(f: FrameValue) {
    |f.chopped| == 4 && Marker(f) == MEDIUM && f.len == LARGE
  }

  /** A header of exactly 127 in 16 bits, at the start of `s`. */
  predicate Sixteen127(s: bytes) {
    |s| >= 4 && s[1] as int % 0x80 == MEDIUM && s[2] == 0 && s[3] == 127
  }

  lemma FreshHonest()
    ensures Honest(FRESH_FRAME) && !Rereads(FRESH_FRAME)
  {
  }

  // ---------------------------------------------------------------- one stage at a time

  lemma FirstSplits(f: FrameValue, a: bytes, b: bytes)
    requires Honest(f) && a != [] && b != []
    ensures var s := ReadFirst(f, a);
      && Honest(s.frame) && (|f.chopped| > 0 ==> s == Continue(f, a)) && |s.frame.chopped| >= 1
      && ReadFirst(f, a + b) == (if s.Return? then Continue(s.frame, b) else Continue(s.frame, s.rest + b))
      && (s.Continue? ==> s.rest != []) && (s.Return? ==> |s.frame.chopped| == 1)
  {
    assert (a + b)[0] == a[0] && (a + b)[1..] == a[1..] + b;
  }

  lemma SecondSplits(f: FrameValue, a: bytes, b: bytes)
    requires Honest(f) && |f.chopped| >= 1 && (|f.chopped| == 1 ==> a != [])
    ensures var s := ReadSecond(f, a);
      && s.Continue? && |s.frame.chopped| >= 2 && Honest(s.frame)
      && ReadSecond(f, a + b) == Continue(s.frame, s.rest + b)
      && (|f.chopped| >= 2 ==> s == Continue(f, a))
  {
    assert a != [] ==> (a + b)[0] == a[0] && (a + b)[1..] == a[1..] + b;
  }

  lemma ExtendedSplits(f: FrameValue, a: bytes, b: bytes, size: nat)
    requires 2 <= |f.chopped| < size
    ensures var s := ReadExtended(f, a, size);
      if s.Return? then ReadExtended(f, a + b, size) == ReadExtended(s.frame, b, size)
      else ReadExtended(f, a + b, size) == Continue(s.frame, s.rest + b)
  {
    var exp := size - |f.chopped|;
    if |a| < exp {
      assert f.chopped + a + b == f.chopped + (a + b);
      if |a + b| >= exp {
        assert f.chopped + (a + b)[..exp] == f.chopped + a + b[..exp - |a|];
      }
    } else {
      assert (a + b)[..exp] == a[..exp] && (a + b)[exp..] == a[exp..] + b;
    }
  }

  lemma LengthHonest(f: FrameValue, p: bytes)
    requires Honest(f) && |f.chopped| >= 2 && !Rereads(f)
    ensures var s := ReadLength(f, p);
      && Honest(s.frame) && |s.frame.chopped| >= 2 && Marker(s.frame) == Marker(f)
      && (s.Return? <==> LengthPending(s.frame)) && (s.Return? ==> !Rereads(s.frame))
      && (!LengthPending(f) ==> s == Continue(f, p))
      && s.frame == f.(chopped := s.frame.chopped, len := s.frame.len)
  {
    ReadLengthReadable(f, p);
    hide FromBigEndian;
  }

  lemma LengthSplits(f: FrameValue, a: bytes, b: bytes)
    requires Honest(f) && |f.chopped| >= 2 && !Rereads(f)
    ensures var s := ReadLength(f, a);
      if s.Return? then ReadLength(f, a + b) == ReadLength(s.frame, b)
      else ReadLength(f, a + b) == Continue(s.frame, s.rest + b)
  {
    LengthHonest(f, a);
    if LengthPending(f) {
      ExtendedSplits(f, a, b, if Marker(f) == LARGE then 10 else 4);
    }
  }

  /** Once the length is known, a later call goes straight on, unless it reads the length again. */
  lemma LengthSkips(f: FrameValue, p: bytes)
    requires Honest(f) && |f.chopped| >= 2 && !LengthPending(f) && !Rereads(f)
    ensures ReadLength(f, p) == Continue(f, p)
  {
    LengthHonest(f, p);
  }

  lemma MaskSplits(f: FrameValue, a: bytes, b: bytes)
    requires |f.maskKey| <= 4
    ensures var s := ReadMask(f, a);
      && |s.frame.maskKey| <= 4 && s.frame == f.(maskKey := s.frame.maskKey)
      && if s.Return? then ReadMask(f, a + b) == ReadMask(s.frame, b) || b == []
         else ReadMask(f, a + b) == Continue(s.frame, s.rest + b)
              && (forall q :: ReadMask(s.frame, q) == Continue(s.frame, q))
  {
    var exp := 4 - |f.maskKey|;
    if f.masked == MASKED && |f.maskKey| != 4 && b != [] {
      if a == [] {
        assert a + b == b;
      } else if |a| < exp {
        assert f.maskKey + a + b == f.maskKey + (a + b);
        if |a + b| >= exp {
          assert f.maskKey + (a + b)[..exp] == f.maskKey + a + b[..exp - |a|];
        }
      } else {
        assert (a + b)[..exp] == a[..exp] && (a + b)[exp..] == a[exp..] + b;
      }
    } else if f.masked == MASKED && |f.maskKey| != 4 {
      assert a + b == a;
      assert forall r: bytes :: r + b == r;
    }
  }

  lemma PayloadSplits(f: FrameValue, a: bytes, b: bytes)
    requires |f.payload| <= f.len && (f.masked == MASKED ==> |f.maskKey| == 4) && !f.isComplete && b != []
    requires f.len > 0 ==> |f.payload| < f.len
    ensures var (g, r) := ReadPayload(f, a);
      && |g.payload| <= g.len && g == f.(payload := g.payload, closeCode := g.closeCode, isComplete := g.isComplete, chopped := g.chopped)
      && (g.isComplete ==> |g.payload| == g.len && ReadPayload(f, a + b) == (g, r + b))
      && (!g.isComplete ==> r == [] && g.len > 0 && |g.payload| < g.len && g.chopped == f.chopped
                            && ReadPayload(f, a + b) == ReadPayload(g, b))
  {
    hide Mask, CloseCode;
    if f.len > 0 && a != [] {
      var need := f.len - |f.payload|;
      if |a| < need {
        var e := if |b| < need - |a| then |b| else need - |a|;
        assert (a + b)[..|a| + e] == a + b[..e] && (a + b)[|a| + e..] == b[e..];
        assert a[..|a|] == a;
        if f.masked == MASKED {
          MaskSplit(a, b[..e], f.maskKey, |f.payload|);
        }
        var g := ReadPayload(f, a).0;
        assert f.payload + (Part(f, a) + Part(g, b[..e])) == f.payload + Part(f, a) + Part(g, b[..e]);
      } else {
        assert (a + b)[..need] == a[..need] && (a + b)[need..] == a[need..] + b;
      }
    } else if f.len > 0 {
      assert a + b == b;
    }
  }

  /** The unmasked bytes of a piece of the payload. */
  function Part(f: FrameValue, s: bytes): bytes
    requires f.masked == MASKED ==> |f.maskKey| == 4
  {
    if f.masked == MASKED then Mask(s, f.maskKey, |f.payload|) else s
  }

  // ---------------------------------------------------------------- all stages

  /** A frame between two packets. */
  predicate InProgress(f: FrameValue) {
    Honest(f) && (f.len > 0 ==> |f.payload| < f.len)
  }

  lemma LengthInProgress(f: FrameValue, p: bytes)
    requires InProgress(f) && |f.chopped| >= 2 && !Rereads(f)
    ensures InProgress(ReadLength(f, p).frame)
  {
    hide FromBigEndian;
    LengthHonest(f, p);
  }

  lemma BodySplits(f: FrameValue, a: bytes, b: bytes)
    requires InProgress(f) && |f.chopped| >= 2 && !Rereads(f) && b != []
    ensures var (g, r) := ReadBody(f, a);
      && (g.isComplete ==> |g.payload| == g.len && ReadBody(f, a + b) == (g, r + b))
      && (!g.isComplete ==> r == [] && |g.chopped| >= 2 && InProgress(g))
      && (!g.isComplete && !Rereads(g) ==> ReadBody(f, a + b) == ReadBody(g, b))
  {
    hide ReadLength, ReadMask, ReadPayload, Honest, LengthPending;
    LengthSplits(f, a, b);
    LengthHonest(f, a);
    LengthInProgress(f, a);
    var s := ReadLength(f, a);
    if s.Continue? {
      HonestReadable(s.frame);
      MaskSplits(s.frame, s.rest, b);
      var m := ReadMask(s.frame, s.rest);
      MaskInProgress(s.frame, s.rest);
      HonestReadable(m.frame);
      if m.Continue? {
        PayloadSplits(m.frame, m.rest, b);
        var (g, r) := ReadPayload(m.frame, m.rest);
        if !g.isComplete {
          PayloadInProgress(m.frame, m.rest);
          HonestReadable(g);
          if !Rereads(g) {
            LengthSkips(g, b);
            MaskDone(g, b);
          }
        }
      } else if !Rereads(m.frame) {
        LengthSkips(m.frame, b);
      }
    } else {
      HonestReadable(s.frame);
    }
  }

  lemma HonestReadable(f: FrameValue)
    requires InProgress(f)
    ensures Readable(f) && !f.isComplete && (f.len > 0 ==> |f.payload| < f.len)
  {
    hide FromBigEndian;
  }

  lemma MaskInProgress(f: FrameValue, p: bytes)
    requires InProgress(f) && |f.chopped| >= 2 && !LengthPending(f)
    ensures var s := ReadMask(f, p);
      && InProgress(s.frame) && !LengthPending(s.frame) && s.frame.chopped == f.chopped && (Rereads(s.frame) <==> Rereads(f))
      && (s.Continue? && f.masked == MASKED ==> |s.frame.maskKey| == 4)
  {
    hide FromBigEndian;
  }

  lemma PayloadInProgress(f: FrameValue, p: bytes)
    requires InProgress(f) && |f.chopped| >= 2 && !LengthPending(f) && (f.masked == MASKED ==> |f.maskKey| == 4)
    requires !ReadPayload(f, p).0.isComplete
    ensures var g := ReadPayload(f, p).0;
      && InProgress(g) && !LengthPending(g) && g == f.(payload := g.payload) && (Rereads(g) <==> Rereads(f))
  {
    hide FromBigEndian, Mask;
    if Rereads(f) {
      Sixteen(f.chopped[2..4]);
    }
  }

  lemma MaskDone(f: FrameValue, p: bytes)
    requires f.masked == MASKED ==> |f.maskKey| == 4
    requires |f.maskKey| <= 4
    ensures ReadMask(f, p) == Continue(f, p)
  {
  }

  /** Reading a packet in two pieces: complete after the first, or resumed with the second. */
  lemma UnpackSplits(f: FrameValue, a: bytes, b: bytes)
    requires InProgress(f) && !Rereads(f) && a != [] && b != []
    ensures var (g, r) := UnpackFrame(f, a);
      && (g.isComplete ==> |g.payload| == g.len && UnpackFrame(f, a + b) == (g, r + b))
      && (!g.isComplete ==> r == [] && InProgress(g))
      && (!g.isComplete && !Rereads(g) ==> UnpackFrame(f, a + b) == UnpackFrame(g, b))
  {
    hide ReadFirst, ReadSecond, ReadBody, Honest;
    HonestReadable(f);
    FirstSplits(f, a, b);
    FirstInProgress(f, a);
    var s := ReadFirst(f, a);
    if s.Continue? {
      SecondSplits(s.frame, s.rest, b);
      SecondInProgress(s.frame, s.rest);
      var t := ReadSecond(s.frame, s.rest);
      BodySplits(t.frame, t.rest, b);
      var g := ReadBody(t.frame, t.rest).0;
      if !g.isComplete {
        SkipsHeader(g, b);
      }
    } else {
      FirstSplits(s.frame, b, b);
    }
  }

  /** A frame whose first two bytes are read goes on with the extended length. */
  lemma SkipsHeader(f: FrameValue, p: bytes)
    requires InProgress(f) && |f.chopped| >= 2 && p != []
    ensures Readable(f) && UnpackFrame(f, p) == ReadBody(f, p)
  {
    hide ReadBody, FromBigEndian;
  }

  lemma FirstInProgress(f: FrameValue, p: bytes)
    requires InProgress(f) && !Rereads(f) && p != []
    ensures InProgress(ReadFirst(f, p).frame) && !Rereads(ReadFirst(f, p).frame)
  {
    hide FromBigEndian;
  }

  lemma SecondInProgress(f: FrameValue, p: bytes)
    requires InProgress(f) && !Rereads(f) && |f.chopped| >= 1 && p != []
    ensures InProgress(ReadSecond(f, p).frame) && !Rereads(ReadSecond(f, p).frame)
  {
    hide FromBigEndian;
  }

  /** Once a 127 in 16 bits is taken for the 64-bit marker, header bytes or length differ from those of one piece. */
  lemma RereadDiffers(f: FrameValue, p: bytes)
    requires InProgress(f) && Rereads(f) && p != []
    ensures var g := UnpackFrame(f, p).0;
      |g.chopped| > 4 || g.len > LARGE
  {
    hide ReadMask, ReadPayload;
    SkipsHeader(f, p);
    var s := ReadLength(f, p);
    if s.Continue? {
      var chopped := s.frame.chopped;
      assert chopped[..4] == f.chopped;
      assert f.chopped[2..4] == [0, LARGE] by {
        Sixteen(f.chopped[2..4]);
      }
      assert chopped[2..10][..2] == f.chopped[2..4];
      LargeNumber(chopped[2..10]);
      LengthKept(s.frame, s.rest);
    }
  }

  lemma Sixteen(s: bytes)
    requires |s| == 2 && FromBigEndian(s) == LARGE
    ensures s == [0, LARGE]
  {
    assert FromBigEndian(s) == FromBigEndian(s[..1]) * 0x100 + s[1] as int;
    assert s[..1][..0] == [] && FromBigEndian(s[..1]) == s[0] as int;
  }

  /** Far fewer bytes than the length that is then read: the frame stays unfinished, in a state no uncut frame is in. */
  lemma RereadStuck(f: FrameValue, p: bytes)
    requires InProgress(f) && Rereads(f) && p != [] && |p| <= 126 * Pow256(6)
    ensures var g := UnpackFrame(f, p).0;
      !g.isComplete && !InProgress(g)
  {
    hide ReadMask, ReadPayload;
    SkipsHeader(f, p);
    Sixteen(f.chopped[2..4]);
    var s := ReadLength(f, p);
    if s.Continue? {
      var chopped := s.frame.chopped;
      assert chopped[..4] == f.chopped;
      assert chopped[2..10][..2] == f.chopped[2..4];
      assert chopped[1] == chopped[..4][1];
      LargeNumber(chopped[2..10]);
      StuckTail(s.frame, s.rest);
    } else {
      assert s.frame.chopped[1] == f.chopped[1];
    }
  }

  lemma StuckTail(f: FrameValue, p: bytes)
    requires Readable(f) && !f.isComplete && |f.payload| + |p| < f.len && |f.chopped| == 10 && Marker(f) == MEDIUM
    ensures var s := ReadMask(f, p);
      && (s.Return? ==> !s.frame.isComplete && !Honest(s.frame))
      && |s.frame.maskKey| <= 4 && |s.frame.payload| <= s.frame.len
      && (s.Continue? ==>
            && (s.frame.masked == MASKED ==> |s.frame.maskKey| == 4)
            && var g := ReadPayload(s.frame, s.rest).0; !g.isComplete && !Honest(g))
  {
    hide ReadMask, ReadPayload;
    ReadMaskReadable(f, p);
    MaskKeeps(f, p);
    var s := ReadMask(f, p);
    if s.Continue? {
      PayloadKeeps(s.frame, s.rest);
    }
  }

  lemma MaskKeeps(f: FrameValue, p: bytes)
    requires |f.maskKey| <= 4
    ensures var s := ReadMask(f, p);
      s.frame == f.(maskKey := s.frame.maskKey) && |s.frame.maskKey| <= 4 && (s.Continue? ==> |s.rest| <= |p|)
  {
  }

  lemma PayloadKeeps(f: FrameValue, p: bytes)
    requires |f.payload| <= f.len && (f.masked == MASKED ==> |f.maskKey| == 4)
    ensures var g := ReadPayload(f, p).0;
      && g.len == f.len
      && (!f.isComplete && |f.payload| + |p| < f.len ==> g.chopped == f.chopped && !g.isComplete)
  {
    hide Mask, CloseCode;
  }

  /** The stages after the length leave it alone. */
  lemma LengthKept(f: FrameValue, p: bytes)
    requires Readable(f)
    ensures var s := ReadMask(f, p);
      && s.frame.len == f.len && |s.frame.maskKey| <= 4 && |s.frame.payload| <= s.frame.len
      && (s.Continue? ==> (s.frame.masked == MASKED ==> |s.frame.maskKey| == 4)
                          && ReadPayload(s.frame, s.rest).0.len == f.len)
  {
    hide ReadMask, ReadPayload;
    ReadMaskReadable(f, p);
    MaskKeeps(f, p);
    var s := ReadMask(f, p);
    if s.Continue? {
      PayloadKeeps(s.frame, s.rest);
    }
  }

  /** Reading at once never leaves a 16-bit length longer than it is or a header longer than four bytes. */
  lemma AtOnceKeepsLength(f: FrameValue, a: bytes, b: bytes)
    requires InProgress(f) && !Rereads(f) && a != [] && b != []
    ensures var g, h := UnpackFrame(f, a).0, UnpackFrame(f, a + b).0;
      !g.isComplete && Rereads(g) ==> h.len == LARGE && |h.chopped| <= 4
  {
    hide ReadFirst, ReadSecond, ReadBody, Honest;
    HonestReadable(f);
    FirstSplits(f, a, b);
    FirstInProgress(f, a);
    var s := ReadFirst(f, a);
    if s.Continue? {
      SecondSplits(s.frame, s.rest, b);
      SecondInProgress(s.frame, s.rest);
      var t := ReadSecond(s.frame, s.rest);
      BodyKeepsLength(t.frame, t.rest, b);
    }
  }

  lemma BodyKeepsLength(f: FrameValue, a: bytes, b: bytes)
    requires InProgress(f) && |f.chopped| >= 2 && !Rereads(f) && b != []
    ensures var g, h := ReadBody(f, a).0, ReadBody(f, a + b).0;
      !g.isComplete && Rereads(g) ==> h.len == LARGE && |h.chopped| <= 4
  {
    hide ReadLength, ReadMask, ReadPayload, Honest, LengthPending;
    LengthSplits(f, a, b);
    LengthHonest(f, a);
    LengthInProgress(f, a);
    var s := ReadLength(f, a);
    HonestReadable(s.frame);
    if s.Continue? {
      HeaderKept(s.frame, s.rest);
      HeaderKept(s.frame, s.rest + b);
    }
  }

  lemma HeaderKept(f: FrameValue, p: bytes)
    requires Readable(f)
    ensures var s := ReadMask(f, p);
      && s.frame.len == f.len && s.frame.chopped == f.chopped && |s.frame.maskKey| <= 4 && |s.frame.payload| <= s.frame.len
      && (s.Continue? ==>
            && (s.frame.masked == MASKED ==> |s.frame.maskKey| == 4)
            && var g := ReadPayload(s.frame, s.rest).0; g.len == f.len && g.chopped in {f.chopped, []})
  {
    hide Mask, CloseCode;
  }

  /**
   Exactly when resuming is harmless: for a frame that the first piece leaves incomplete, reading on with the second
   piece is the same as reading both at once if and only if no 16-bit length of 127 has just been read.
   */
  lemma SplitExact(f: FrameValue, a: bytes, b: bytes)
    requires InProgress(f) && !Rereads(f) && a != [] && b != []
    ensures var g := UnpackFrame(f, a).0;
      !g.isComplete ==> Readable(g) && (UnpackFrame(g, b) == UnpackFrame(f, a + b) <==> !Rereads(g))
  {
    hide UnpackFrame, Honest;
    HonestReadable(f);
    UnpackSplits(f, a, b);
    var g := UnpackFrame(f, a).0;
    if !g.isComplete {
      HonestReadable(g);
      if Rereads(g) {
        RereadDiffers(g, b);
        AtOnceKeepsLength(f, a, b);
      }
    }
  }

  /** The header of a text frame of 127 bytes, cut off right behind its length. */
  lemma RereadHappens()
    ensures var g := UnpackFrame(FRESH_FRAME, [0x81, MEDIUM, 0, LARGE]).0;
      !g.isComplete && InProgress(g) && Rereads(g)
  {
    hide FromBigEndian;
    var p: bytes := [0x81, MEDIUM, 0, LARGE];
    assert p[1..] == [MEDIUM, 0, LARGE] && p[1..][1..] == [0, LARGE];
    var s := ReadFirst(FRESH_FRAME, p);
    var t := ReadSecond(s.frame, s.rest);
    var u := ReadLength(t.frame, t.rest);
    assert u.frame.chopped == p && p[2..4] == [0, LARGE];
    LargeIs();
  }

  lemma LargeIs()
    ensures FromBigEndian([0, LARGE]) == LARGE
  {
    assert [0, LARGE][..1] == [0] && [0][..0] == [];
    assert FromBigEndian([0, LARGE]) == FromBigEndian([0]) * 0x100 + LARGE;
  }

  /** The header kept in an unfinished frame is what the stream began with; while it is unfinished, it is all of it. */
  predicate HeaderOf(g: FrameValue, s: bytes) {
    && |g.chopped| <= |s| && g.chopped == s[..|g.chopped|]
    && (|g.chopped| < 2 || LengthPending(g) ==> g.chopped == s)
  }

  lemma HeaderKnown(f: FrameValue, p: bytes)
    requires InProgress(f) && !Rereads(f) && p != []
    ensures Readable(f)
    ensures var g := UnpackFrame(f, p).0; !g.isComplete ==> HeaderOf(g, f.chopped + p)
  {
    hide ReadBody, Honest;
    HonestReadable(f);
    FirstSplits(f, p, p);
    FirstInProgress(f, p);
    var s := ReadFirst(f, p);
    if s.Continue? {
      SecondSplits(s.frame, s.rest, p);
      SecondInProgress(s.frame, s.rest);
      var t := ReadSecond(s.frame, s.rest);
      assert t.frame.chopped + t.rest == f.chopped + p;
      BodyHeader(t.frame, t.rest);
    }
  }

  lemma BodyHeader(f: FrameValue, p: bytes)
    requires InProgress(f) && |f.chopped| >= 2 && !Rereads(f)
    ensures Readable(f)
    ensures var g := ReadBody(f, p).0; !g.isComplete ==> HeaderOf(g, f.chopped + p)
  {
    hide ReadMask, ReadPayload, Honest, FromBigEndian;
    HonestReadable(f);
    LengthHonest(f, p);
    LengthInProgress(f, p);
    var s := ReadLength(f, p);
    assert s.frame.chopped == (f.chopped + p)[..|s.frame.chopped|];
    if s.Continue? {
      HonestReadable(s.frame);
      HeaderKept(s.frame, s.rest);
      StillHeader(s.frame, s.rest);
    }
  }

  /** The stages after the length do not touch an unfinished header. */
  lemma StillHeader(f: FrameValue, p: bytes)
    requires Readable(f) && |f.chopped| >= 2 && !f.isComplete
    ensures var s := ReadMask(f, p);
      && |s.frame.maskKey| <= 4 && |s.frame.payload| <= s.frame.len && s.frame.chopped == f.chopped
      && (s.Continue? ==>
            && (s.frame.masked == MASKED ==> |s.frame.maskKey| == 4)
            && var g := ReadPayload(s.frame, s.rest).0; !g.isComplete ==> g.chopped == f.chopped)
  {
    hide Mask, CloseCode;
  }

  /** Only a header that says so is read again. */
  lemma RereadHeader(g: FrameValue, s: bytes)
    requires HeaderOf(g, s) && InProgress(g)
    ensures Rereads(g) ==> Sixteen127(s)
    ensures forall b: bytes :: Sixteen127(g.chopped + b) ==> Sixteen127(s + b)
  {
    hide FromBigEndian;
    if Rereads(g) {
      Sixteen(g.chopped[2..4]);
      assert s[..4][2..4] == [0, LARGE] && s[1] == s[..4][1];
    }
    forall b: bytes | Sixteen127(g.chopped + b) ensures Sixteen127(s + b) {
      if g.chopped != s {
        assert (g.chopped + b)[1] == g.chopped[1] == s[1];
        assert |g.chopped| == 4;
        assert forall i :: 0 <= i < 4 ==> g.chopped[i] == s[i];
      }
    }
  }

  // ---------------------------------------------------------------- round trip

  /** A packed frame as it is read back. */
  function Decoded(f: FrameValue): FrameValue
    requires Packable(f)
  {
    Completed(FrameValue(f.fin, 0, 0, 0, f.opcode, f.masked, 0, |f.payload|,
      if f.masked == MASKED then f.maskKey else [], f.payload, [], false))
  }

  /** Header, length in whichever of the three classes, key and payload of a packed frame are read back. */
  lemma FrameRoundTrip(f: FrameValue, rest: bytes)
    requires Packable(f)
    ensures EncodeFrame(f) != [] && UnpackFrame(FRESH_FRAME, EncodeFrame(f) + rest) == (Decoded(f), rest)
  {
    hide Mask, EncodeLength, ReadBody, ReadFirst, ReadSecond, Pow256;
    var tail := if f.masked == MASKED then f.maskKey + Mask(f.payload, f.maskKey, 0) else f.payload;
    var size := EncodeLength(f.masked, |f.payload|);
    var p := EncodeFrame(f) + rest;
    assert p == [f.fin + f.opcode] + (size + (tail + rest));
    LengthShape(f);
    FirstRead(f, size + (tail + rest));
    SecondRead(f, size, tail + rest);
    var h := Header(f);
    assert [size[0]] + (size[1..] + (tail + rest)) == size + (tail + rest);
    LengthRead(f, tail + rest);
    TailRead(f, rest);
  }

  /** The frame after its first two bytes. */
  function Header(f: FrameValue): FrameValue
    requires Packable(f)
  {
    var b := EncodeLength(f.masked, |f.payload|)[0];
    FRESH_FRAME.(fin := f.fin, opcode := f.opcode, masked := f.masked, len := b as int % 0x80,
                chopped := [f.fin + f.opcode, b])
  }

  lemma LengthShape(f: FrameValue)
    requires Packable(f)
    ensures var size := EncodeLength(f.masked, |f.payload|);
      && |size| == (if |f.payload| > 0xFFFF then 9 else if |f.payload| > SMALL then 3 else 1)
      && size[0] == f.masked + (if |f.payload| > 0xFFFF then LARGE else if |f.payload| > SMALL then MEDIUM else |f.payload|)
      && Flag(size[0], 0x80) == f.masked && size[0] as int % 0x80 == size[0] as int - f.masked as int
  {
  }

  lemma FirstRead(f: FrameValue, p: bytes)
    requires Packable(f) && p != []
    ensures ReadFirst(FRESH_FRAME, [f.fin + f.opcode] + p)
         == Continue(FRESH_FRAME.(fin := f.fin, opcode := f.opcode, chopped := [f.fin + f.opcode]), p)
  {
    var b: byte := f.fin + f.opcode;
    FirstBits(f.fin, f.opcode);
    assert ([b] + p)[1..] == p;
  }

  lemma FirstBits(fin: byte, opcode: byte)
    requires fin in {0, FIN} && opcode < 0x10
    ensures var b: byte := fin + opcode;
      && Flag(b, 0x80) == fin && Flag(b, 0x40) == 0 && Flag(b, 0x20) == 0 && Flag(b, 0x10) == 0 && b % 0x10 == opcode
  {
  }

  lemma SecondRead(f: FrameValue, size: bytes, p: bytes)
    requires Packable(f) && size == EncodeLength(f.masked, |f.payload|) && size != []
    ensures ReadSecond(FRESH_FRAME.(fin := f.fin, opcode := f.opcode, chopped := [f.fin + f.opcode]), size + p)
         == Continue(Header(f), size[1..] + p)
  {
    hide EncodeLength;
    LengthShape(f);
    assert (size + p)[1..] == size[1..] + p && (size + p)[0] == size[0];
  }

  lemma LengthRead(f: FrameValue, p: bytes)
    requires Packable(f)
    ensures var size := EncodeLength(f.masked, |f.payload|);
      |size| >= 1 &&
      ReadLength(Header(f), size[1..] + p)
      == Continue(Header(f).(len := |f.payload|, chopped := [f.fin + f.opcode] + size), p)
  {
    hide Pow256, FromBigEndian, BigEndian;
    LengthShape(f);
    var size := EncodeLength(f.masked, |f.payload|);
    var n := |f.payload|;
    if n > SMALL {
      var k := if n > 0xFFFF then 8 else 2;
      assert size[1..] == BigEndian(n, k);
      var q := size[1..] + p;
      assert q[..k] == BigEndian(n, k) && q[k..] == p;
      var chopped: bytes := [f.fin + f.opcode, size[0]] + q[..k];
      assert chopped[2..2 + k] == BigEndian(n, k);
      assert chopped == [f.fin + f.opcode] + size;
      assert n < Pow256(k) by {
        SmallPow();
      }
      BigEndianRoundTrip(n, k);
    } else {
      assert size[1..] == [] && [] + p == p;
      assert [f.fin + f.opcode, size[0]] == [f.fin + f.opcode] + size;
    }
  }

  lemma SmallPow()
    ensures Pow256(2) == 0x1_0000
  {
    assert Pow256(2) == 0x100 * (0x100 * Pow256(0));
  }

  lemma TailRead(f: FrameValue, rest: bytes)
    requires Packable(f)
    ensures var size := EncodeLength(f.masked, |f.payload|);
      var tail := if f.masked == MASKED then f.maskKey + Mask(f.payload, f.maskKey, 0) else f.payload;
      |size| >= 1 && Readable(Header(f)) &&
      ReadBody(Header(f), size[1..] + (tail + rest)) == (Decoded(f), rest)
  {
    hide Mask, EncodeLength, FromBigEndian, Pow256;
    LengthShape(f);
    var size := EncodeLength(f.masked, |f.payload|);
    var body := if f.masked == MASKED then Mask(f.payload, f.maskKey, 0) else f.payload;
    var key := if f.masked == MASKED then f.maskKey else [];
    LengthRead(f, key + (body + rest));
    TailParts(f, rest);
    var g := Header(f).(len := |f.payload|, chopped := [f.fin + f.opcode] + size);
    KeyRead(g, key, body + rest);
    PayloadRead(g.(maskKey := key), f.payload, rest);
  }

  lemma TailParts(f: FrameValue, rest: bytes)
    requires Packable(f)
    ensures var tail := if f.masked == MASKED then f.maskKey + Mask(f.payload, f.maskKey, 0) else f.payload;
      var body := if f.masked == MASKED then Mask(f.payload, f.maskKey, 0) else f.payload;
      var key := if f.masked == MASKED then f.maskKey else [];
      tail + rest == key + (body + rest)
  {
    hide Mask, Pow256;
  }

  lemma KeyRead(g: FrameValue, key: bytes, p: bytes)
    requires g.maskKey == [] && |key| == if g.masked == MASKED then 4 else 0
    ensures ReadMask(g, key + p) == Continue(g.(maskKey := key), p)
  {
    assert [] + p == p && [] + key == key;
    assert (key + p)[..|key|] == key && (key + p)[|key|..] == p;
  }

  lemma PayloadRead(g: FrameValue, payload: bytes, rest: bytes)
    requires g.payload == [] && g.len == |payload| && |g.maskKey| == if g.masked == MASKED then 4 else 0
    ensures var body := if g.masked == MASKED then Mask(payload, g.maskKey, 0) else payload;
      ReadPayload(g, body + rest) == (Completed(g.(payload := payload)), rest)
  {
    hide Mask, CloseCode;
    var body := if g.masked == MASKED then Mask(payload, g.maskKey, 0) else payload;
    assert (body + rest)[..|body|] == body && (body + rest)[|body|..] == rest;
    if g.masked == MASKED {
      MaskTwice(payload, g.maskKey, 0);
    }
    assert [] + payload == payload;
    if payload == [] {
      assert body + rest == rest && g.(payload := payload) == g;
    }
  }

  // ---------------------------------------------------------------- streams of frames

  /** Unpack of a whole packet: the frames in it, of which only the last can be incomplete. */
  function UnpackAll(p: bytes): (fs: seq<FrameValue>)
    decreases |p|
  {
    if p == [] then []
    else
      var r := UnpackFrame(FRESH_FRAME, p);
      [r.0] + UnpackAll(r.1)
  }

  function EncodeAll(fs: seq<FrameValue>): bytes
    requires forall f :: f in fs ==> Packable(f)
  {
    if fs == [] then [] else EncodeFrame(fs[0]) + EncodeAll(fs[1..])
  }

  /** The frames of a concatenation are read back one by one, all complete. */
  lemma {:induction false} StreamRoundTrip(fs: seq<FrameValue>)
    requires forall f :: f in fs ==> Packable(f)
    ensures var gs := UnpackAll(EncodeAll(fs));
      && |gs| == |fs|
      && forall i :: 0 <= i < |fs| ==>
           gs[i] == Decoded(fs[i]) && gs[i].isComplete && gs[i].fin == fs[i].fin && gs[i].opcode == fs[i].opcode
           && gs[i].payload == fs[i].payload && gs[i].masked == fs[i].masked
    decreases |fs|
  {
    hide UnpackFrame, EncodeFrame, CloseCode;
    if fs != [] {
      FrameRoundTrip(fs[0], EncodeAll(fs[1..]));
      StreamRoundTrip(fs[1..]);
    }
  }
}
