/**
 The connections of a WebSocket server (lib/websocket/clientmanager.go): five structures that must agree about which
 connections there are and to which user each of them belongs.
 */
module WsManager {
  import IntsSort
  import opened Lists
  import opened WsClient
  import opened WsFrame

  /** A connection's context, of which only the user ID matters; 0 stands for no user. */
  datatype Context = Context(uid: nat)

  datatype Manager = Manager(
    all: seq<int>, conns: map<nat, seq<int>>, ctx: map<int, Context>,
    frame: map<int, FrameValue>, frames: map<int, seq<FrameValue>>)

  const NOBODY := Manager([], map[], map[], map[], map[])

  /** The second half of add, after the lock was given back between remove and it. */
  function Inserted(m: Manager, ctx: Context, conn: int): Manager {
    var before := if ctx.uid in m.conns then m.conns[ctx.uid] else [];
    m.(all := if conn in m.all then m.all else m.all + [conn],
       ctx := m.ctx[conn := ctx],
       conns := if ctx.uid > 0 then m.conns[ctx.uid := before + [conn]] else m.conns)
  }

  /** The lists by user without a connection; a list that becomes empty goes. */
  function Unlisted(conns: map<nat, seq<int>>, uid: nat, conn: int): map<nat, seq<int>> {
    if uid == 0 || uid !in conns then conns
    else if Without(conns[uid], conn) == [] then conns - {uid}
    else conns[uid := Without(conns[uid], conn)]
  }

  function Removed(m: Manager, conn: int): Manager {
    Manager(Without(m.all, conn),
      if conn in m.ctx then Unlisted(m.conns, m.ctx[conn].uid, conn) else m.conns,
      m.ctx - {conn}, m.frame - {conn}, m.frames - {conn})
  }

  function Added(m: Manager, ctx: Context, conn: int): Manager {
    Inserted(Removed(m, conn), ctx, conn)
  }

  function FrameSet(m: Manager, conn: int, f: Option<FrameValue>): Manager {
    m.(frame := if f == None then m.frame - {conn} else m.frame[conn := f.value])
  }

  function FramesSet(m: Manager, conn: int, f: Option<seq<FrameValue>>): Manager {
    m.(frames := if f == None then m.frames - {conn} else m.frames[conn := f.value])
  }

  function Finished(m: Manager, conn: int): Manager {
    if conn in m.frames then m.(frame := m.frame - {conn}, frames := m.frames - {conn}) else m
  }

  // ---------------------------------------------------------------- the structures agree

  /** The connections of a user, in the order they came. */
  function Of(all: seq<int>, ctx: map<int, Context>, uid: nat): seq<int> {
    if all == [] then []
    else (if all[0] in ctx && ctx[all[0]].uid == uid then [all[0]] else []) + Of(all[1..], ctx, uid)
  }

  /**
   Every connection is listed once and has a context, and each user with connections, and no other, has the list of
   them in the order they came.
   */
  ghost predicate Agree(m: Manager) {
    && NoDup(m.all)
    && (forall c :: c in m.all <==> c in m.ctx)
    && (forall u: nat :: u in m.conns <==> u > 0 && Of(m.all, m.ctx, u) != [])
    && (forall u :: u in m.conns ==> m.conns[u] == Of(m.all, m.ctx, u))
  }

  lemma {:induction false} OfMembers(all: seq<int>, ctx: map<int, Context>, uid: nat)
    requires NoDup(all)
    ensures NoDup(Of(all, ctx, uid))
    ensures forall c :: c in Of(all, ctx, uid) <==> c in all && c in ctx && ctx[c].uid == uid
  {
    if all != [] {
      OfMembers(all[1..], ctx, uid);
      assert forall c :: c in all <==> c == all[0] || c in all[1..];
      assert all[0] !in all[1..];
      ConsNoDup(all[0], Of(all[1..], ctx, uid));
    }
  }

  lemma {:induction false} OfSnoc(all: seq<int>, ctx: map<int, Context>, uid: nat, conn: int, more: Context)
    requires conn !in all
    ensures Of(all + [conn], ctx[conn := more], uid) == Of(all, ctx, uid) + if more.uid == uid then [conn] else []
  {
    if all == [] {
      assert [conn][1..] == [];
      assert all + [conn] == [conn];
    } else {
      assert (all + [conn])[0] == all[0] && (all + [conn])[1..] == all[1..] + [conn];
      OfSnoc(all[1..], ctx, uid, conn, more);
    }
  }

  /** Without a connection, each user's list is without it. */
  lemma {:induction false} OfWithout(all: seq<int>, ctx: map<int, Context>, uid: nat, conn: int)
    requires NoDup(all)
    ensures Of(Without(all, conn), ctx - {conn}, uid)
         == if conn in ctx && ctx[conn].uid == uid then Without(Of(all, ctx, uid), conn) else Of(all, ctx, uid)
  {
    if all != [] {
      var a, rest := all[0], all[1..];
      OfWithout(rest, ctx, uid, conn);
      assert all == [a] + rest;
      OfCons(a, rest, ctx, uid);
      if a == conn {
        OfOther(rest, ctx, uid, conn);
        assert Without(all, conn) == rest;
      } else {
        OfCons(a, Without(rest, conn), ctx - {conn}, uid);
      }
    }
  }

  lemma OfCons(a: int, rest: seq<int>, ctx: map<int, Context>, uid: nat)
    ensures Of([a] + rest, ctx, uid)
         == if a in ctx && ctx[a].uid == uid then [a] + Of(rest, ctx, uid) else Of(rest, ctx, uid)
    ensures forall c ::
      Without([a] + Of(rest, ctx, uid), c) == if a == c then Of(rest, ctx, uid) else [a] + Without(Of(rest, ctx, uid), c)
  {
    assert ([a] + rest)[1..] == rest;
    assert [] + Of(rest, ctx, uid) == Of(rest, ctx, uid);
    assert ([a] + Of(rest, ctx, uid))[1..] == Of(rest, ctx, uid);
  }

  lemma {:induction false} OfOther(all: seq<int>, ctx: map<int, Context>, uid: nat, conn: int)
    requires conn !in all
    ensures Of(all, ctx - {conn}, uid) == Of(all, ctx, uid)
  {
    if all != [] {
      OfOther(all[1..], ctx, uid, conn);
    }
  }

  /** Afterwards the connection is in none of the structures. */
  ghost predicate Gone(m: Manager, conn: int) {
    && conn !in m.all && conn !in m.ctx && conn !in m.frame && conn !in m.frames
    && forall u :: u in m.conns ==> conn !in m.conns[u]
  }

  lemma RemovedConns(m: Manager, conn: int, u: nat)
    requires Agree(m)
    ensures var r := Removed(m, conn);
      && (u in r.conns <==> u > 0 && Of(r.all, r.ctx, u) != [])
      && (u in r.conns ==> r.conns[u] == Of(r.all, r.ctx, u))
  {
    hide Of;
    OfWithout(m.all, m.ctx, u, conn);
    assert Without<int>([], conn) == [];
  }

  lemma RemovedAgree(m: Manager, conn: int)
    requires Agree(m)
    ensures Agree(Removed(m, conn)) && Gone(Removed(m, conn), conn)
  {
    hide Of, Without;
    var r := Removed(m, conn);
    WithoutFacts(m.all, conn);
    forall u: nat ensures u in r.conns <==> u > 0 && Of(r.all, r.ctx, u) != [] {
      RemovedConns(m, conn, u);
    }
    forall u | u in r.conns ensures r.conns[u] == Of(r.all, r.ctx, u) && conn !in r.conns[u] {
      RemovedConns(m, conn, u);
      OfMembers(r.all, r.ctx, u);
    }
  }

  lemma InsertedAgree(m: Manager, ctx: Context, conn: int)
    requires Agree(m) && conn !in m.ctx
    ensures Agree(Inserted(m, ctx, conn))
  {
    hide Of;
    var r := Inserted(m, ctx, conn);
    forall u: nat ensures (u in r.conns <==> u > 0 && Of(r.all, r.ctx, u) != []) && (u in r.conns ==> r.conns[u] == Of(r.all, r.ctx, u)) {
      OfSnoc(m.all, m.ctx, u, conn, ctx);
    }
  }

  lemma AddedAgree(m: Manager, ctx: Context, conn: int)
    requires Agree(m)
    ensures Agree(Added(m, ctx, conn))
  {
    RemovedAgree(m, conn);
    InsertedAgree(Removed(m, conn), ctx, conn);
  }

  // ---------------------------------------------------------------- runs

  datatype Op =
    | Add(ctx: Context, conn: int)
    | Drop(conn: int)
    | SetFrame(conn: int, frame: Option<FrameValue>)
    | SetFrames(conn: int, frames: Option<seq<FrameValue>>)
    | Fin(conn: int)

  function Step(m: Manager, op: Op): Manager {
    match op
    case Add(ctx, conn) => Added(m, ctx, conn)
    case Drop(conn) => Removed(m, conn)
    case SetFrame(conn, f) => FrameSet(m, conn, f)
    case SetFrames(conn, f) => FramesSet(m, conn, f)
    case Fin(conn) => Finished(m, conn)
  }

  function Run(m: Manager, ops: seq<Op>): Manager
    decreases |ops|
  {
    if ops == [] then m else Run(Step(m, ops[0]), ops[1..])
  }

  lemma StepAgree(m: Manager, op: Op)
    requires Agree(m)
    ensures Agree(Step(m, op))
  {
    match op
    case Add(ctx, conn) => AddedAgree(m, ctx, conn);
    case Drop(conn) => RemovedAgree(m, conn);
    case SetFrame(conn, f) =>
    case SetFrames(conn, f) =>
    case Fin(conn) =>
  }

  /** The structures agree after every run. */
  lemma {:induction false} RunAgrees(m: Manager, ops: seq<Op>)
    requires Agree(m)
    ensures Agree(Run(m, ops))
    decreases |ops|
  {
    hide Agree, Step;
    if ops != [] {
      StepAgree(m, ops[0]);
      RunAgrees(Step(m, ops[0]), ops[1..]);
    }
  }

  /** A removed connection stays out of all structures until a call for it comes. */
  lemma {:induction false} StaysGone(m: Manager, ops: seq<Op>, conn: int)
    requires Agree(m) && Gone(m, conn)
    requires forall i :: 0 <= i < |ops| ==> ops[i].conn != conn
    ensures Gone(Run(m, ops), conn)
    decreases |ops|
  {
    hide Agree, Step, Gone;
    if ops != [] {
      StepAgree(m, ops[0]);
      StepGone(m, ops[0], conn);
      StaysGone(Step(m, ops[0]), ops[1..], conn);
    }
  }

  lemma StepGone(m: Manager, op: Op, conn: int)
    requires Agree(m) && Gone(m, conn) && op.conn != conn
    ensures Gone(Step(m, op), conn)
  {
    hide Of;
    StepAgree(m, op);
    var r := Step(m, op);
    WithoutFacts(m.all, op.conn);
    forall u | u in r.conns ensures conn !in r.conns[u] {
      OfMembers(r.all, r.ctx, u);
    }
  }

  /** The list of a user holds exactly the connections with that user's context. */
  lemma ConnsExact(m: Manager, uid: nat, conn: int)
    requires Agree(m) && uid > 0
    ensures (uid in m.conns && conn in m.conns[uid]) <==> (conn in m.ctx && m.ctx[conn].uid == uid)
    ensures uid in m.conns ==> m.conns[uid] != [] && NoDup(m.conns[uid])
  {
    OfMembers(m.all, m.ctx, uid);
  }

  // ---------------------------------------------------------------- the gap in add

  /** The same without the order of the lists. */
  ghost predicate Inverse(m: Manager) {
    && NoDup(m.all)
    && (forall c :: c in m.all <==> c in m.ctx)
    && (forall u: nat :: u in m.conns ==> u > 0 && m.conns[u] != [] && NoDup(m.conns[u]))
    && (forall u: nat, c :: u > 0 ==> (Has(m, u, c) <==> c in m.ctx && m.ctx[c].uid == u))
  }

  ghost predicate Has(m: Manager, u: nat, c: int) {
    u in m.conns && c in m.conns[u]
  }

  lemma AgreeInverse(m: Manager)
    requires Agree(m)
    ensures Inverse(m)
  {
    hide Of;
    forall u: nat, c | u > 0 ensures Has(m, u, c) <==> c in m.ctx && m.ctx[c].uid == u {
      ConnsExact(m, u, c);
    }
    forall u: nat | u in m.conns ensures u > 0 && m.conns[u] != [] && NoDup(m.conns[u]) {
      ConnsExact(m, u, 0);
    }
  }

  /**
   Between the two halves of add the lock is free. If the connection came back meanwhile, with a user, then the second
   half leaves it in a list where it does not belong, or twice in one: it is right exactly otherwise.
   */
  lemma InsertExact(m: Manager, ctx: Context, conn: int)
    requires Inverse(m)
    ensures Inverse(Inserted(m, ctx, conn)) <==> conn !in m.ctx || m.ctx[conn].uid == 0
  {
    if conn in m.ctx && m.ctx[conn].uid > 0 {
      InsertBreaks(m, ctx, conn);
    } else {
      InsertKeeps(m, ctx, conn);
    }
  }

  /** What other calls do between the two halves does no harm as long as they are about other connections. */
  lemma AddAmongOthers(m: Manager, ctx: Context, conn: int, ops: seq<Op>)
    requires Agree(m) && forall i :: 0 <= i < |ops| ==> ops[i].conn != conn
    ensures Agree(Inserted(Run(Removed(m, conn), ops), ctx, conn))
  {
    hide Agree, Removed, Inserted;
    RemovedAgree(m, conn);
    RunAgrees(Removed(m, conn), ops);
    StaysGone(Removed(m, conn), ops, conn);
    InsertedAgree(Run(Removed(m, conn), ops), ctx, conn);
  }

  /**
   Two calls of add for one connection, the second one between the two halves of the first: the connection is listed
   rightly exactly if the second call had no user.
   */
  lemma TwoAdds(m: Manager, first: Context, second: Context, conn: int)
    requires Agree(m)
    ensures Inverse(Inserted(Added(Removed(m, conn), second, conn), first, conn)) <==> second.uid == 0
  {
    RemovedAgree(m, conn);
    AddedAgree(Removed(m, conn), second, conn);
    AgreeInverse(Added(Removed(m, conn), second, conn));
    InsertExact(Added(Removed(m, conn), second, conn), first, conn);
  }

  /** So user 1 connecting twice at once, on a server without connections, is listed wrongly. */
  lemma TwiceAtOnce(conn: int)
    ensures !Inverse(Inserted(Run(Removed(NOBODY, conn), [Add(Context(1), conn)]), Context(1), conn))
  {
    hide Agree, Inverse, Inserted, Removed;
    NobodyAgrees();
    TwoAdds(NOBODY, Context(1), Context(1), conn);
    var ops := [Add(Context(1), conn)];
    assert ops[1..] == [];
    assert Run(Removed(NOBODY, conn), ops) == Run(Step(Removed(NOBODY, conn), ops[0]), []);
  }

  lemma NobodyAgrees()
    ensures Agree(NOBODY)
  {
  }

  lemma InsertBreaks(m: Manager, ctx: Context, conn: int)
    requires Inverse(m) && conn in m.ctx && m.ctx[conn].uid > 0
    ensures !Inverse(Inserted(m, ctx, conn))
  {
    var r, u := Inserted(m, ctx, conn), m.ctx[conn].uid;
    assert Has(m, u, conn);
    if ctx.uid == u {
      var i :| 0 <= i < |m.conns[u]| && m.conns[u][i] == conn;
      assert r.conns[u][i] == r.conns[u][|m.conns[u]|];
    } else {
      assert Has(r, u, conn);
    }
  }

  lemma InsertKeeps(m: Manager, ctx: Context, conn: int)
    requires Inverse(m) && (conn !in m.ctx || m.ctx[conn].uid == 0)
    ensures Inverse(Inserted(m, ctx, conn))
  {
    var r := Inserted(m, ctx, conn);
    forall u: nat, c | u > 0 ensures Has(r, u, c) <==> c in r.ctx && r.ctx[c].uid == u {
      assert Has(m, u, c) <==> c in m.ctx && m.ctx[c].uid == u;
    }
    forall u: nat | u in r.conns ensures u > 0 && r.conns[u] != [] && NoDup(r.conns[u]) {
      assert !Has(m, u, conn);
    }
  }

  // ---------------------------------------------------------------- the object

  /** ints.IsExist */
  method IsExist(d: seq<int>, v: int) returns (found: bool)
    ensures found == (v in d)
  {
    for x := 0 to |d|
      invariant v !in d[..x]
    {
      if d[x] == v {
        return true;
      }
    }
    return false;
  }

  class ClientManager {
    var all: seq<int>
    var conns: map<nat, seq<int>>
    var ctx: map<int, Context>
    var frame: map<int, FrameValue>
    var frames: map<int, seq<FrameValue>>

    ghost function Value(): Manager
      reads this
    {
      Manager(all, conns, ctx, frame, frames)
    }

    constructor ()
      ensures Value() == NOBODY && Agree(Value())
    {
      all, conns, ctx, frame, frames := [], map[], map[], map[], map[];
    }

    method Add(context: Context, conn: int)
      modifies this
      ensures Value() == Added(old(Value()), context, conn)
    {
      Remove(conn);
      Insert(context, conn);
    }

    /** The second critical section of add. */
    method Insert(context: Context, conn: int)
      modifies this
      ensures Value() == Inserted(old(Value()), context, conn)
    {
      var known := IsExist(all, conn);
      if !known {
        all := all + [conn];
      }
      ctx := ctx[conn := context];
      if context.uid > 0 {
        var list: seq<int> := [];
        if context.uid in conns {
          list := conns[context.uid];
        }
        list := list + [conn];
        conns := conns[context.uid := list];
      }
    }

    method Remove(conn: int)
      modifies this
      ensures Value() == Removed(old(Value()), conn)
    {
      hide Without;
      frame := frame - {conn};
      frames := frames - {conn};
      var found;
      all, found := IntsSort.Remove(all, conn);
      if conn in ctx {
        var uid := ctx[conn].uid;
        ctx := ctx - {conn};
        if uid > 0 && uid in conns {
          var list := conns[uid];
          list, found := IntsSort.Remove(list, conn);
          if |list| == 0 {
            conns := conns - {uid};
          } else {
            conns := conns[uid := list];
          }
        }
      } else {
        assert ctx - {conn} == ctx;
      }
    }

    method SetFrame(conn: int, f: Option<FrameValue>)
      modifies this
      ensures Value() == FrameSet(old(Value()), conn, f)
    {
      if f == None {
        frame := frame - {conn};
      } else {
        frame := frame[conn := f.value];
      }
    }

    method SetFrames(conn: int, f: Option<seq<FrameValue>>)
      modifies this
      ensures Value() == FramesSet(old(Value()), conn, f)
    {
      if f == None {
        frames := frames - {conn};
      } else {
        frames := frames[conn := f.value];
      }
    }

    /** finFrames: the collected fragments and the last one as one frame; nothing is kept for the connection. */
    method FinFrames(conn: int, last: FrameValue) returns (f: FrameValue)
      requires conn in frames ==> frames[conn] != []
      modifies this
      ensures Value() == Finished(old(Value()), conn)
      ensures f == if conn in old(frames) then Joined(old(frames)[conn], last) else last
    {
      if conn !in frames {
        return last;
      }
      f := Joined(frames[conn], last);
      frames := frames - {conn};
      frame := frame - {conn};
    }
  }
}
