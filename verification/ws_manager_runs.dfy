/**
 What a WebSocket server has stored of an unfinished message of a connection (lib/websocket/clientmanager.go), after any
 run of calls, said of the list of calls alone.
 */
module WsManagerRuns {
  import WsClient
  import opened WsFrame
  import opened WsManager

  /** The calls that decide which fragments are stored: all for the connection, except those that set its frame. */
  predicate ForFrames(op: Op, conn: int) {
    op.conn == conn && !op.SetFrame?
  }

  /** What such a call leaves: only one that sets fragments leaves any. */
  function FramesLeft(op: Op): WsClient.Option<seq<FrameValue>> {
    if op.SetFrames? then op.frames else WsClient.None
  }

  /** The number of the last call that decides, or -1. */
  function LastForFrames(ops: seq<Op>, conn: int): (j: int)
    ensures -1 <= j < |ops| && (j >= 0 ==> ForFrames(ops[j], conn))
    ensures forall i :: j < i < |ops| ==> !ForFrames(ops[i], conn)
    decreases |ops|
  {
    var n := |ops| - 1;
    if ops == [] then -1 else if ForFrames(ops[n], conn) then n else LastForFrames(ops[..n], conn)
  }

  /** The fragments after these calls on a server that had `was`: those that the last call that decides left. */
  function FramesAfter(was: WsClient.Option<seq<FrameValue>>, ops: seq<Op>, conn: int): WsClient.Option<seq<FrameValue>> {
    var j := LastForFrames(ops, conn);
    if j < 0 then was else FramesLeft(ops[j])
  }

  /** The calls that decide which frame is stored: the end of a message does if there are fragments. */
  predicate ForFrame(was: WsClient.Option<seq<FrameValue>>, ops: seq<Op>, conn: int, j: nat)
    requires j < |ops|
  {
    && ops[j].conn == conn && !ops[j].SetFrames?
    && (ops[j].Fin? ==> FramesAfter(was, ops[..j], conn) != WsClient.None)
  }

  function FrameLeft(op: Op): WsClient.Option<FrameValue> {
    if op.SetFrame? then op.frame else WsClient.None
  }

  /** The number of the last call that decides, or -1. */
  function LastForFrame(was: WsClient.Option<seq<FrameValue>>, ops: seq<Op>, conn: int, n: nat): (j: int)
    requires n <= |ops|
    ensures -1 <= j < n && (j >= 0 ==> ForFrame(was, ops, conn, j))
    ensures forall i :: j < i < n ==> !ForFrame(was, ops, conn, i)
  {
    if n == 0 then -1 else if ForFrame(was, ops, conn, n - 1) then n - 1 else LastForFrame(was, ops, conn, n - 1)
  }

  function Entry<T>(m: map<int, T>, conn: int): WsClient.Option<T> {
    if conn in m then WsClient.Some(m[conn]) else WsClient.None
  }

  // ---------------------------------------------------------------- proofs

  lemma {:induction false} RunSnoc(m: Manager, ops: seq<Op>, op: Op)
    ensures Run(m, ops + [op]) == Step(Run(m, ops), op)
    decreases |ops|
  {
    hide Step;
    if ops == [] {
      assert ops + [op] == [op] && [op][1..] == [];
    } else {
      assert (ops + [op])[0] == ops[0] && (ops + [op])[1..] == ops[1..] + [op];
      RunSnoc(Step(m, ops[0]), ops[1..], op);
    }
  }

  /** One call, seen from one connection. */
  lemma StepEntries(m: Manager, op: Op, conn: int)
    ensures Entry(Step(m, op).frames, conn) == if ForFrames(op, conn) then FramesLeft(op) else Entry(m.frames, conn)
    ensures Entry(Step(m, op).frame, conn) ==
      if op.conn == conn && !op.SetFrames? && (op.Fin? ==> conn in m.frames) then FrameLeft(op) else Entry(m.frame, conn)
  {
    hide Lists.Without;
  }

  /** After every run the fragments of a connection are those that the last call about them left. */
  lemma {:induction false} StoredFrames(m: Manager, ops: seq<Op>, conn: int)
    ensures Entry(Run(m, ops).frames, conn) == FramesAfter(Entry(m.frames, conn), ops, conn)
    decreases |ops|
  {
    hide Step, Run, ForFrames, FramesLeft, Entry;
    if ops == [] {
      NothingRun(m);
    } else {
      var n := |ops| - 1;
      assert ops[..n] + [ops[n]] == ops;
      RunSnoc(m, ops[..n], ops[n]);
      StepEntries(Run(m, ops[..n]), ops[n], conn);
      StoredFrames(m, ops[..n], conn);
    }
  }

  lemma NothingRun(m: Manager)
    ensures Run(m, []) == m
  {
  }

  /** And its frame in progress is the one that the last call about it left. */
  lemma {:induction false} StoredFrame(m: Manager, ops: seq<Op>, conn: int)
    ensures var was := Entry(m.frames, conn);
      var j := LastForFrame(was, ops, conn, |ops|);
      Entry(Run(m, ops).frame, conn) == if j < 0 then Entry(m.frame, conn) else FrameLeft(ops[j])
    decreases |ops|
  {
    hide Step, Run, ForFrame, FrameLeft, FramesAfter;
    var was := Entry(m.frames, conn);
    if ops == [] {
      NothingRun(m);
    } else {
      var n := |ops| - 1;
      assert ops[..n] + [ops[n]] == ops;
      RunSnoc(m, ops[..n], ops[n]);
      StepEntries(Run(m, ops[..n]), ops[n], conn);
      StoredFrames(m, ops[..n], conn);
      StoredFrame(m, ops[..n], conn);
      Prefix(was, ops, conn, n);
      DecidedNow(was, ops, conn);
    }
  }

  lemma DecidedNow(was: WsClient.Option<seq<FrameValue>>, ops: seq<Op>, conn: int)
    requires ops != []
    ensures var n := |ops| - 1;
      ForFrame(was, ops, conn, n) <==>
        ops[n].conn == conn && !ops[n].SetFrames? && (ops[n].Fin? ==> FramesAfter(was, ops[..n], conn) != WsClient.None)
  {
    hide FramesAfter;
  }

  /** The call that decides is the same without the later ones. */
  lemma {:induction false} Prefix(was: WsClient.Option<seq<FrameValue>>, ops: seq<Op>, conn: int, n: nat)
    requires n < |ops|
    ensures LastForFrame(was, ops, conn, n) == LastForFrame(was, ops[..|ops| - 1], conn, n)
    decreases n
  {
    hide FramesAfter;
    if n > 0 {
      var m := |ops| - 1;
      assert ops[..m][n - 1] == ops[n - 1] && ops[..m][..n - 1] == ops[..n - 1];
      Prefix(was, ops, conn, n - 1);
    }
  }

  /** After the end of a message nothing is stored of its fragments, and of its frame only what was there without any. */
  lemma AfterFin(m: Manager, ops: seq<Op>, conn: int)
    ensures var before, r := Run(m, ops), Run(m, ops + [Fin(conn)]);
      && conn !in r.frames && (conn in r.frame <==> conn in before.frame && conn !in before.frames)
  {
    hide Run;
    RunSnoc(m, ops, Fin(conn));
  }

  /** So a message that ends twice is merged once: the second end finds no fragments. */
  lemma MergedOnce(conn: int, f: FrameValue)
    ensures var r := Run(NOBODY, [SetFrames(conn, WsClient.Some([f])), Fin(conn)]);
      conn !in r.frames && conn !in r.frame
  {
    hide Run;
    RunSnoc(NOBODY, [SetFrames(conn, WsClient.Some([f]))], Fin(conn));
    assert [SetFrames(conn, WsClient.Some([f]))] + [Fin(conn)] == [SetFrames(conn, WsClient.Some([f])), Fin(conn)];
    RunSnoc(NOBODY, [], SetFrames(conn, WsClient.Some([f])));
    assert [] + [SetFrames(conn, WsClient.Some([f]))] == [SetFrames(conn, WsClient.Some([f]))];
    NothingRun(NOBODY);
  }

  /** Calls for other connections change neither. */
  lemma OthersKeep(m: Manager, ops: seq<Op>, conn: int)
    requires forall i :: 0 <= i < |ops| ==> ops[i].conn != conn
    ensures Entry(Run(m, ops).frames, conn) == Entry(m.frames, conn) && Entry(Run(m, ops).frame, conn) == Entry(m.frame, conn)
  {
    hide Run, Entry;
    StoredFrames(m, ops, conn);
    StoredFrame(m, ops, conn);
  }
}
