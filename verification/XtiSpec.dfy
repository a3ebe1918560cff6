/** What a TLI endpoint of per-svr4/xti.c does, as a machine over a queue of Transport Provider Interface
    messages, and what its runs keep. */
module XtiSpec {

  type Byte = x: int | 0 <= x < 256

  const T_CONN_REQ := 0
  const T_BIND_REQ := 6
  const T_UNBIND_REQ := 7
  const T_CONN_IND := 11
  const T_CONN_CON := 12
  const T_DISCON_IND := 13
  const T_BIND_ACK := 17
  const T_ERROR_ACK := 18
  const T_OK_ACK := 19

  const TS_UNBND := 0
  const TS_IDLE := 3
  const TS_WRES_CIND := 7
  const TS_DATA_XFER := 9

  const TACCES := 3
  const TNOADDR := 5
  const TOUTSTATE := 6
  const TSYSERR := 8

  const EACCES := 13
  const EINVAL := 22
  const EADDRINUSE := 98
  const EADDRNOTAVAIL := 99

  const MSG_HIPRI := 1

  // ---------------------------------------------------------------------------------------------
  // The bytes of the messages

  function Long(x: int): (r: seq<Byte>)
    ensures |r| == 4
  {
    var u := x % 0x1_0000_0000;
    [u % 256, u / 256 % 256, u / 65536 % 256, u / 16777216]
  }

  function OkAck(prim: int): seq<Byte> { Long(T_OK_ACK) + Long(prim) }

  function ErrorAck(prim: int, tli: int, unix: int): seq<Byte> {
    Long(T_ERROR_ACK) + Long(prim) + Long(tli) + Long(unix)
  }

  function DisconInd(reason: int): seq<Byte> { Long(T_DISCON_IND) + Long(reason) + Long(0) }

  function ConnInd(fd: int, addr: seq<Byte>): seq<Byte> {
    Long(T_CONN_IND) + Long(|addr|) + Long(24) + Long(0) + Long(0) + Long(fd) + addr
  }

  /** The caller's control part with another primitive number in it. */
  function Retyped(prim: int, ctl: seq<Byte>): seq<Byte>
    requires |ctl| >= 4
  {
    Long(prim) + ctl[4..]
  }

  /** How a failed bind is reported: some errors have a number of their own and no system error with it. */
  function BindError(error: int): int {
    if error == -EINVAL then TOUTSTATE
    else if error == -EACCES then TACCES
    else if error == -EADDRNOTAVAIL || error == -EADDRINUSE then TNOADDR
    else TSYSERR
  }

  function BindErrno(error: int): int { if BindError(error) == TSYSERR then -error else 0 }

  // ---------------------------------------------------------------------------------------------
  // The machine

  /** length is what is left to read of a message. */
  datatype Msg = Msg(pri: int, data: seq<Byte>, length: int)

  function NewMsg(pri: int, data: seq<Byte>): Msg { Msg(pri, data, |data|) }

  datatype View = View(state: int, offset: nat, queue: seq<Msg>)

  /** Requests, with what the system calls made for them answer, and reads. address says whether a bind
      request names one; accepted is the descriptor of a new connection, negative if there is none. */
  datatype Op =
    | BindReq(ctl: seq<Byte>, address: bool, bound: int, backlog: nat)
    | ConnReq(ctl: seq<Byte>, connected: int)
    | UnbindReq
    | Incoming(stream: bool, accepted: int, addr: seq<Byte>)
    | Get(room: nat)
    | Discard
  {
    predicate Valid() { (BindReq? || ConnReq?) ==> |ctl| >= 4 }
    predicate Reads() { Get? || Discard? }
  }

  /** What a request puts before and behind the queue, and the state it leads to. */
  datatype Reply = Reply(front: seq<Msg>, back: seq<Msg>, state: int)

  /** How an errno of the real system is numbered in the emulated one. */
  type Errors = int -> int

  function Acked(prim: int): seq<Msg> { [NewMsg(MSG_HIPRI, OkAck(prim))] }

  function Refused(prim: int, tli: int, unix: int): seq<Msg> { [NewMsg(MSG_HIPRI, ErrorAck(prim, tli, unix))] }

  function Respond(state: int, op: Op, iabi: Errors): Reply
    requires op.Valid() && !op.Reads()
  {
    match op
    case BindReq(ctl, address, bound, backlog) =>
      if state != TS_UNBND then Reply(Refused(T_BIND_REQ, TOUTSTATE, iabi(0)), [], state)
      else if address && bound != 0 then
        Reply(Refused(T_BIND_REQ, BindError(bound), iabi(BindErrno(bound))), [], state)
      else
        Reply(Acked(T_BIND_REQ), [NewMsg(MSG_HIPRI, Retyped(T_BIND_ACK, ctl))],
              if !address then TS_UNBND else if backlog != 0 then TS_WRES_CIND else TS_IDLE)
    case ConnReq(ctl, connected) =>
      if state != TS_UNBND && state != TS_IDLE then Reply(Refused(T_CONN_REQ, TOUTSTATE, iabi(0)), [], state)
      else if connected == 0 then Reply(Acked(T_CONN_REQ), [NewMsg(0, Retyped(T_CONN_CON, ctl))], TS_DATA_XFER)
      else Reply(Acked(T_CONN_REQ), [NewMsg(0, DisconInd(iabi(-connected)))], state)
    case UnbindReq => Reply(Acked(T_UNBIND_REQ), [], TS_UNBND)
    case Incoming(stream, accepted, addr) =>
      Reply(if stream && state == TS_WRES_CIND && accepted >= 0 then [NewMsg(0, ConnInd(accepted, addr))] else [],
            [], state)
  }

  function Apply(v: View, r: Reply): View { View(r.state, v.offset, r.front + v.queue + r.back) }

  function Drop(v: View): View
    requires v.queue != []
  {
    View(v.state, 0, v.queue[1..])
  }

  /** A byte handed to the caller: one of the message, or whatever memory holds behind it. */
  datatype Cell = Own(b: Byte) | Foreign

  function Cells(data: seq<Byte>): (r: seq<Cell>)
    ensures |r| == |data| && forall i :: 0 <= i < |data| ==> r[i] == Own(data[i])
  {
    seq(|data|, i requires 0 <= i < |data| => Own(data[i]))
  }

  /** The l bytes copied to the caller. If a message was put before one partly read the copy starts at the
      wrong place and may run past the message. */
  function Copied(m: Msg, offset: nat, l: int): (r: seq<Cell>)
    ensures |r| == if l < 0 then 0 else l
    ensures forall i :: 0 <= i < |r| ==> r[i] == if offset + i < |m.data| then Own(m.data[offset + i]) else Foreign
  {
    seq(if l < 0 then 0 else l, i requires 0 <= i => if offset + i < |m.data| then Own(m.data[offset + i]) else Foreign)
  }

  function Taken(m: Msg, room: nat): int { if room <= m.length then room else m.length }

  /** Up to room bytes of the front message; it leaves the queue with its last byte. */
  function Deliver(v: View, room: nat): (View, seq<Cell>)
    requires v.queue != []
  {
    var m := v.queue[0];
    var l := Taken(m, room);
    (if m.length - l != 0 && 0 <= l
     then View(v.state, v.offset + l, [m.(length := m.length - l)] + v.queue[1..])
     else Drop(v),
     Copied(m, v.offset, l))
  }

  function Step(v: View, op: Op, iabi: Errors): (View, seq<Cell>)
    requires op.Valid()
  {
    match op
    case Get(room) => if v.queue == [] then (v, []) else Deliver(v, room)
    case Discard => (if v.queue == [] then v else Drop(v), [])
    case _ => (Apply(v, Respond(v.state, op, iabi)), [])
  }

  // ---------------------------------------------------------------------------------------------
  // What one step keeps

  /** length and offset agree with the messages: offset counts the bytes of the front message only. */
  ghost predicate Whole(v: View) {
    && (v.queue == [] ==> v.offset == 0)
    && (v.queue != [] ==> v.offset + v.queue[0].length == |v.queue[0].data|)
    && (forall i :: 0 <= i < |v.queue| ==> v.queue[i].length >= 0)
    && (forall i :: 1 <= i < |v.queue| ==> v.queue[i].length == |v.queue[i].data|)
  }

  /** The step puts no message before one that is partly read. */
  predicate Clean(v: View, op: Op, iabi: Errors)
    requires op.Valid()
  {
    op.Reads() || v.offset == 0 || Respond(v.state, op, iabi).front == []
  }

  /** What a request puts into the queue is unread, and it puts nothing behind an empty queue without
      putting something before it. */
  lemma RepliesAreNew(state: int, op: Op, iabi: Errors)
    requires op.Valid() && !op.Reads()
    ensures var r := Respond(state, op, iabi);
            && |r.front| <= 1 && |r.back| <= 1 && (r.back != [] ==> r.front != [])
            && (forall m :: m in r.front + r.back ==> m.length == |m.data|)
            && (forall m :: m in r.front + r.back ==> 1 <= |m.data|)
  {
  }

  /** Exactly the steps that put a message before one partly read destroy the agreement. */
  lemma WholeIff(v: View, op: Op, iabi: Errors)
    requires op.Valid() && Whole(v)
    ensures Whole(Step(v, op, iabi).0) <==> Clean(v, op, iabi)
  {
    if !op.Reads() {
      hide Respond;
      RepliesAreNew(v.state, op, iabi);
      var r := Respond(v.state, op, iabi);
      WholeReply(v, r);
    }
  }

  lemma WholeReply(v: View, r: Reply)
    requires Whole(v) && |r.front| <= 1 && |r.back| <= 1 && (r.back != [] ==> r.front != [])
    requires forall m :: m in r.front + r.back ==> m.length == |m.data|
    ensures Whole(Apply(v, r)) <==> v.offset == 0 || r.front == []
  {
  }

  function Prim(op: Op): int
    requires op.BindReq? || op.ConnReq? || op.UnbindReq?
  {
    match op
    case BindReq(_, _, _, _) => T_BIND_REQ
    case ConnReq(_, _) => T_CONN_REQ
    case _ => T_UNBIND_REQ
  }

  /** The message acknowledges a request for prim, or refuses it. */
  ghost predicate IsAck(m: Msg, prim: int) {
    |m.data| >= 8 && m.data[4..8] == Long(prim) && (m.data[..4] == Long(T_OK_ACK) || m.data[..4] == Long(T_ERROR_ACK))
  }

  lemma OkAckIsAck(prim: int)
    ensures IsAck(NewMsg(MSG_HIPRI, OkAck(prim)), prim)
  {
  }

  lemma ErrorAckIsAck(prim: int, tli: int, unix: int)
    ensures IsAck(NewMsg(MSG_HIPRI, ErrorAck(prim, tli, unix)), prim)
  {
  }

  /** Every request is answered by one acknowledgement of its own primitive at the very front, and a
      message behind the queue, which is not an acknowledgement, comes exactly with a granted one. */
  lemma OneAckInFront(v: View, op: Op, iabi: Errors)
    requires op.Valid() && (op.BindReq? || op.ConnReq? || op.UnbindReq?)
    ensures var r, v' := Respond(v.state, op, iabi), Step(v, op, iabi).0;
            && |v'.queue| == 1 + |v.queue| + |r.back| && v'.queue[1..1 + |v.queue|] == v.queue
            && v'.queue[0].pri == MSG_HIPRI && IsAck(v'.queue[0], Prim(op))
            && (r.back != [] ==> v'.queue[0].data == OkAck(Prim(op)) && v'.queue[1 + |v.queue|] == r.back[0])
            && (r.back == [] && !op.UnbindReq? ==> v'.queue[0].data != OkAck(Prim(op)) && v'.state == v.state)
  {
    hide IsAck, Retyped, DisconInd;
    var r := Respond(v.state, op, iabi);
    OkAckIsAck(Prim(op));
    if op.BindReq? {
      ErrorAckIsAck(T_BIND_REQ, TOUTSTATE, iabi(0));
      ErrorAckIsAck(T_BIND_REQ, BindError(op.bound), iabi(BindErrno(op.bound)));
    } else if op.ConnReq? {
      ErrorAckIsAck(T_CONN_REQ, TOUTSTATE, iabi(0));
    }
    assert r.front + v.queue + r.back == r.front + (v.queue + r.back);
  }

  // ---------------------------------------------------------------------------------------------
  // What whole runs keep

  /** A message that left the queue, what was handed to the caller as its bytes, and whether it was read to
      its end or discarded. */
  datatype Gone = Gone(data: seq<Byte>, got: seq<Cell>, read: bool) {
    ghost predicate Delivered() { read && got == Cells(data) }
  }

  /** gots is what was handed over so far of each message of the queue; put counts the messages put into the
      queue. */
  datatype History = History(v: View, gots: seq<seq<Cell>>, gone: seq<Gone>, put: multiset<seq<Byte>>) {
    ghost predicate Tracked() { |gots| == |v.queue| }
  }

  function Datas(q: seq<Msg>): multiset<seq<Byte>> {
    if q == [] then multiset{} else multiset{q[0].data} + Datas(q[1..])
  }

  function GoneDatas(g: seq<Gone>): multiset<seq<Byte>> {
    if g == [] then multiset{} else GoneDatas(g[..|g| - 1]) + multiset{g[|g| - 1].data}
  }

  ghost function Extend(h: History, op: Op, iabi: Errors): (r: History)
    requires op.Valid() && h.Tracked()
    ensures r.Tracked()
  {
    var (v', bytes) := Step(h.v, op, iabi);
    if !op.Reads() then
      var r := Respond(h.v.state, op, iabi);
      History(v', seq(|r.front|, _ => []) + h.gots + seq(|r.back|, _ => []), h.gone,
              h.put + Datas(r.front) + Datas(r.back))
    else if |v'.queue| < |h.v.queue| then
      History(v', h.gots[1..], h.gone + [Gone(h.v.queue[0].data, h.gots[0] + bytes, op.Get?)], h.put)
    else History(v', if h.gots == [] then [] else h.gots[0 := h.gots[0] + bytes], h.gone, h.put)
  }

  ghost function RunFrom(h: History, ops: seq<Op>, iabi: Errors): (r: History)
    requires h.Tracked() && forall i :: 0 <= i < |ops| ==> ops[i].Valid()
    ensures r.Tracked()
  {
    if ops == [] then h else Extend(RunFrom(h, ops[..|ops| - 1], iabi), ops[|ops| - 1], iabi)
  }

  /** No step of the run puts a message before one that is partly read. */
  ghost predicate CleanRun(h: History, ops: seq<Op>, iabi: Errors)
    requires h.Tracked() && forall i :: 0 <= i < |ops| ==> ops[i].Valid()
  {
    forall n :: 0 <= n < |ops| ==> Clean(RunFrom(h, ops[..n], iabi).v, ops[n], iabi)
  }

  /** Every message put is still queued or has left, once. */
  ghost predicate Conserved(h: History) { h.put == GoneDatas(h.gone) + Datas(h.v.queue) }

  /** Of each message that left, all of it was handed over if it was read, else its beginning, and of each
      queued one its beginning. */
  ghost predicate Faithful(h: History) {
    && h.Tracked()
    && (forall i :: 0 <= i < |h.gone| ==>
          if h.gone[i].read then h.gone[i].Delivered() else h.gone[i].got <= Cells(h.gone[i].data))
    && (forall i :: 0 <= i < |h.gots| ==> h.gots[i] <= Cells(h.v.queue[i].data))
  }

  /** Faithful, and what is left of each message agrees with length and offset. */
  ghost predicate InStep(h: History) {
    && Faithful(h) && Whole(h.v)
    && (h.gots != [] ==> |h.gots[0]| == h.v.offset)
    && (forall i :: 1 <= i < |h.gots| ==> h.gots[i] == [])
  }

  lemma {:induction false} DatasConcat(a: seq<Msg>, b: seq<Msg>)
    ensures Datas(a + b) == Datas(a) + Datas(b)
    decreases |a|
  {
    if a == [] {
      assert a + b == b;
    } else {
      assert (a + b)[1..] == a[1..] + b;
      DatasConcat(a[1..], b);
    }
  }

  lemma GoneMore(g: seq<Gone>, x: Gone)
    ensures GoneDatas(g + [x]) == GoneDatas(g) + multiset{x.data}
  {
  }

  lemma ExtendConserves(h: History, op: Op, iabi: Errors)
    requires op.Valid() && h.Tracked() && Conserved(h)
    ensures Conserved(Extend(h, op, iabi))
  {
    hide Respond, GoneDatas;
    var q, h' := h.v.queue, Extend(h, op, iabi);
    if !op.Reads() {
      hide Datas;
      var r := Respond(h.v.state, op, iabi);
      DatasConcat(r.front + q, r.back);
      DatasConcat(r.front, q);
    } else if q != [] {
      ReadConserves(h, op, iabi);
    }
  }

  lemma ReadConserves(h: History, op: Op, iabi: Errors)
    requires op.Reads() && h.Tracked() && Conserved(h) && h.v.queue != []
    ensures Conserved(Extend(h, op, iabi))
  {
    hide GoneDatas, Copied, Taken;
    var q, h' := h.v.queue, Extend(h, op, iabi);
    if |h'.v.queue| < |q| {
      GoneMore(h.gone, h'.gone[|h.gone|]);
    } else {
      assert h'.v.queue[1..] == q[1..];
    }
  }

  lemma DeliverInStep(h: History, room: nat, iabi: Errors)
    requires InStep(h) && h.v.queue != []
    ensures InStep(Extend(h, Get(room), iabi))
  {
    var m := h.v.queue[0];
    var l := Taken(m, room);
    assert h.gots[0] + Copied(m, h.v.offset, l) == Cells(m.data)[..h.v.offset + l];
    assert Cells(m.data)[..|m.data|] == Cells(m.data);
    WholeIff(h.v, Get(room), iabi);
  }

  lemma ExtendInStep(h: History, op: Op, iabi: Errors)
    requires op.Valid() && InStep(h) && Clean(h.v, op, iabi)
    ensures InStep(Extend(h, op, iabi))
  {
    match op
    case Get(room) =>
      if h.v.queue != [] {
        DeliverInStep(h, room, iabi);
      }
    case Discard =>
    case _ => ReplyInStep(h, op, iabi);
  }

  lemma ReplyInStep(h: History, op: Op, iabi: Errors)
    requires op.Valid() && !op.Reads() && h.Tracked() && InStep(h) && Clean(h.v, op, iabi)
    ensures InStep(Extend(h, op, iabi))
  {
    hide Respond, Datas, Cells, Gone.Delivered, Faithful;
    WholeIff(h.v, op, iabi);
    var r, h' := Respond(h.v.state, op, iabi), Extend(h, op, iabi);
    RepliesAreNew(h.v.state, op, iabi);
    hide Whole;
    if r.front == [] {
      assert r.front + h.v.queue + r.back == h.v.queue;
      assert h'.gots == h.gots;
      FaithfulStays(h, h');
    } else {
      NothingRead(h);
      assert forall i :: 0 <= i < |h'.gots| ==> h'.gots[i] == [];
      FaithfulStays(h, h');
    }
  }

  lemma NothingRead(h: History)
    requires InStep(h) && h.v.offset == 0
    ensures forall i :: 0 <= i < |h.gots| ==> h.gots[i] == []
  {
  }

  lemma FaithfulStays(h: History, h': History)
    requires Faithful(h) && h'.Tracked() && h'.gone == h.gone
    requires (h'.gots == h.gots && h'.v.queue == h.v.queue) || forall i :: 0 <= i < |h'.gots| ==> h'.gots[i] == []
    ensures Faithful(h')
  {
  }

  /** In every run each message put into the queue is still there or has left it exactly once, whatever is
      put where. */
  lemma {:induction false} RunConserves(h: History, ops: seq<Op>, iabi: Errors)
    requires h.Tracked() && Conserved(h) && forall i :: 0 <= i < |ops| ==> ops[i].Valid()
    ensures Conserved(RunFrom(h, ops, iabi))
    decreases |ops|
  {
    hide Conserved, Extend;
    if ops != [] {
      RunConserves(h, ops[..|ops| - 1], iabi);
      ExtendConserves(RunFrom(h, ops[..|ops| - 1], iabi), ops[|ops| - 1], iabi);
    }
  }

  /** In every run that puts no message before one partly read, the fragments delivered of each message
      that was read to its end are together that message. */
  lemma {:induction false} CleanRunIsFaithful(h: History, ops: seq<Op>, iabi: Errors)
    requires InStep(h) && (forall i :: 0 <= i < |ops| ==> ops[i].Valid()) && CleanRun(h, ops, iabi)
    ensures InStep(RunFrom(h, ops, iabi)) && Faithful(RunFrom(h, ops, iabi))
    decreases |ops|
  {
    if ops != [] {
      hide InStep, Extend, Clean;
      var n := |ops| - 1;
      assert CleanRun(h, ops[..n], iabi) by {
        assert forall k :: 0 <= k < n ==> ops[..n][..k] == ops[..k];
      }
      CleanRunIsFaithful(h, ops[..n], iabi);
      ExtendInStep(RunFrom(h, ops[..n], iabi), ops[n], iabi);
    }
    FaithfulToo(RunFrom(h, ops, iabi));
  }

  lemma FaithfulToo(h: History)
    ensures InStep(h) ==> Faithful(h)
  {
  }

  // ---------------------------------------------------------------------------------------------
  // What a run that is not clean comes to

  /** Of every queued message something is left to read. */
  ghost predicate Unread(v: View) { forall i :: 0 <= i < |v.queue| ==> 1 <= v.queue[i].length <= |v.queue[i].data| }

  /** Reading the front message to its end would run past it. */
  ghost predicate Skewed(v: View) { v.queue != [] && v.offset + v.queue[0].length > |v.queue[0].data| }

  /** Some message was discarded, or not handed over as it was put. */
  ghost predicate Spoilt(h: History) { exists i :: 0 <= i < |h.gone| && !h.gone[i].Delivered() }

  lemma ExtendUnread(h: History, op: Op, iabi: Errors)
    requires op.Valid() && h.Tracked() && Unread(h.v)
    ensures Unread(Extend(h, op, iabi).v)
  {
    if !op.Reads() {
      hide Respond, Datas;
      var r := Respond(h.v.state, op, iabi);
      RepliesAreNew(h.v.state, op, iabi);
      var q := r.front + h.v.queue + r.back;
      forall i | 0 <= i < |q| ensures 1 <= q[i].length <= |q[i].data| {
        assert q[i] in r.front + r.back || q[i] in h.v.queue;
      }
    }
  }

  /** A message put before one partly read is skewed. */
  lemma UncleanSkews(h: History, op: Op, iabi: Errors)
    requires op.Valid() && h.Tracked() && !Clean(h.v, op, iabi)
    ensures Skewed(Extend(h, op, iabi).v)
  {
    hide Respond, Datas;
    var r := Respond(h.v.state, op, iabi);
    RepliesAreNew(h.v.state, op, iabi);
    assert (r.front + h.v.queue + r.back)[0] == r.front[0] && r.front[0] in r.front + r.back;
  }

  /** A skewed message stays skewed, or another one is put before it and is, until one is read past its end
      or discarded; and what is spoilt stays so. */
  lemma SkewStays(h: History, op: Op, iabi: Errors)
    requires op.Valid() && h.Tracked() && Unread(h.v) && (Spoilt(h) || Skewed(h.v))
    ensures var h' := Extend(h, op, iabi); Spoilt(h') || Skewed(h'.v)
  {
    var h' := Extend(h, op, iabi);
    if Spoilt(h) {
      var i :| 0 <= i < |h.gone| && !h.gone[i].Delivered();
      assert h'.gone[i] == h.gone[i];
    } else if !op.Reads() {
      ReplySkews(h, op, iabi);
    } else {
      ReadSkews(h, op, iabi);
    }
  }

  lemma ReplySkews(h: History, op: Op, iabi: Errors)
    requires op.Valid() && !op.Reads() && h.Tracked() && Unread(h.v) && Skewed(h.v)
    ensures Skewed(Extend(h, op, iabi).v)
  {
    hide Respond, Datas;
    var r := Respond(h.v.state, op, iabi);
    RepliesAreNew(h.v.state, op, iabi);
    if r.front == [] {
      assert r.front + h.v.queue + r.back == h.v.queue;
    } else {
      UncleanSkews(h, op, iabi);
    }
  }

  lemma ReadSkews(h: History, op: Op, iabi: Errors)
    requires op.Reads() && h.Tracked() && Unread(h.v) && Skewed(h.v)
    ensures var h' := Extend(h, op, iabi); Spoilt(h') || Skewed(h'.v)
  {
    var h', m := Extend(h, op, iabi), h.v.queue[0];
    if |h'.v.queue| < |h.v.queue| {
      var g := h'.gone[|h.gone|];
      if op.Get? {
        assert g.got[|g.got| - 1] == Foreign;
      }
      assert !g.Delivered();
    }
  }

  lemma {:induction false} UncleanRunFrom(h: History, ops: seq<Op>, k: nat, iabi: Errors)
    requires h.Tracked() && Unread(h.v) && (forall i :: 0 <= i < |ops| ==> ops[i].Valid())
    requires k < |ops| && !Clean(RunFrom(h, ops[..k], iabi).v, ops[k], iabi)
    ensures var h' := RunFrom(h, ops, iabi); Spoilt(h') || Skewed(h'.v)
    decreases |ops|
  {
    hide Extend, Clean, Spoilt, Skewed;
    var n := |ops| - 1;
    var before := RunFrom(h, ops[..n], iabi);
    if k == n {
      UncleanSkews(before, ops[n], iabi);
    } else {
      assert ops[..n][..k] == ops[..k];
      UncleanRunFrom(h, ops[..n], k, iabi);
      RunUnread(h, ops[..n], iabi);
      SkewStays(before, ops[n], iabi);
    }
  }

  lemma {:induction false} RunUnread(h: History, ops: seq<Op>, iabi: Errors)
    requires h.Tracked() && Unread(h.v) && (forall i :: 0 <= i < |ops| ==> ops[i].Valid())
    ensures Unread(RunFrom(h, ops, iabi).v)
    decreases |ops|
  {
    hide Extend, Unread;
    if ops != [] {
      RunUnread(h, ops[..|ops| - 1], iabi);
      ExtendUnread(RunFrom(h, ops[..|ops| - 1], iabi), ops[|ops| - 1], iabi);
    }
  }

  /** After a run that is not clean, whatever else it did, some message was discarded or came out wrong, or
      the next one will run past its end. */
  lemma UncleanRunGoesWrong(h: History, ops: seq<Op>, iabi: Errors)
    requires h.Tracked() && Unread(h.v) && (forall i :: 0 <= i < |ops| ==> ops[i].Valid()) && !CleanRun(h, ops, iabi)
    ensures var h' := RunFrom(h, ops, iabi); Spoilt(h') || Skewed(h'.v)
  {
    hide Extend, Clean, Spoilt, Skewed;
    var k :| 0 <= k < |ops| && !Clean(RunFrom(h, ops[..k], iabi).v, ops[k], iabi);
    UncleanRunFrom(h, ops, k, iabi);
  }

  /** A run in which every message is read to its end hands over every message as it was put if and only if
      it puts no message before one that is partly read. */
  lemma DeliveredIffClean(h: History, ops: seq<Op>, iabi: Errors)
    requires InStep(h) && Unread(h.v) && forall i :: 0 <= i < |ops| ==> ops[i].Valid()
    requires var h' := RunFrom(h, ops, iabi);
             h'.v.queue == [] && forall i :: 0 <= i < |h'.gone| ==> h'.gone[i].read
    ensures var h' := RunFrom(h, ops, iabi);
            (forall i :: 0 <= i < |h'.gone| ==> h'.gone[i].got == Cells(h'.gone[i].data)) <==> CleanRun(h, ops, iabi)
  {
    hide RunFrom, CleanRun;
    if CleanRun(h, ops, iabi) {
      CleanRunIsFaithful(h, ops, iabi);
    } else {
      UncleanRunGoesWrong(h, ops, iabi);
    }
  }

  lemma RunMore(h: History, ops: seq<Op>, op: Op, iabi: Errors)
    requires h.Tracked() && op.Valid() && forall i :: 0 <= i < |ops| ==> ops[i].Valid()
    ensures RunFrom(h, ops + [op], iabi) == Extend(RunFrom(h, ops, iabi), op, iabi)
  {
    assert (ops + [op])[..|ops|] == ops;
  }

  /** A read of half of an answer that starts at the given offset. */
  lemma HalfRead(v: View, offset: nat, length: int)
    requires v.queue != [] && v.offset == offset && v.queue[0].length == length >= 4
    ensures var m := v.queue[0];
            && Deliver(v, 4).1 == Copied(m, offset, 4)
            && Deliver(v, 4).0 == if length == 4 then Drop(v)
                                  else View(v.state, offset + 4, [m.(length := length - 4)] + v.queue[1..])
  {
  }

  /** An endpoint on which nothing has happened yet. */
  ghost function Fresh(): History { History(View(TS_UNBND, 0, []), [], [], multiset{}) }

  ghost function HalfReadOps(): seq<Op> { [UnbindReq, Get(4), UnbindReq, Get(4), Get(4)] }

  lemma HalfReadStates(iabi: Errors) returns (h3: History)
    ensures h3 == Extend(Extend(Extend(Fresh(), UnbindReq, iabi), Get(4), iabi), UnbindReq, iabi)
    ensures Extend(Extend(Fresh(), UnbindReq, iabi), Get(4), iabi).v.offset == 4
    ensures var m := NewMsg(MSG_HIPRI, OkAck(T_UNBIND_REQ));
            && h3.v.offset == 4 && |h3.v.queue| == 2 && h3.v.queue[0] == m && h3.gots[0] == [] && h3.gone == []
  {
    hide OkAck, Datas, Copied;
    assert |OkAck(T_UNBIND_REQ)| == 8 by { AckLength(T_UNBIND_REQ); }
    var h1 := Extend(Fresh(), UnbindReq, iabi);
    HalfRead(h1.v, 0, 8);
    var h2 := Extend(h1, Get(4), iabi);
    h3 := Extend(h2, UnbindReq, iabi);
  }

  lemma AckLength(prim: int)
    ensures |OkAck(prim)| == 8
  {
  }

  /** Two unbind requests, the first answer being half read when the second comes: of the second answer
      the caller gets its second half, and then what is behind it. */
  lemma HalfReadAnswer(iabi: Errors)
    ensures var h, ack := RunFrom(Fresh(), HalfReadOps(), iabi), OkAck(T_UNBIND_REQ);
            && !CleanRun(Fresh(), HalfReadOps(), iabi)
            && |h.gone| == 1 && h.gone[0].read && h.gone[0].data == ack
            && h.gone[0].got == Cells(ack[4..]) + [Foreign, Foreign, Foreign, Foreign]
  {
    hide OkAck, Extend, RunFrom, Clean, Cells;
    HalfReadRun(iabi);
    var h3 := HalfReadStates(iabi);
    AckLength(T_UNBIND_REQ);
    HalfReadRest(h3, iabi);
    UnbindIsUnclean(RunFrom(Fresh(), HalfReadOps()[..2], iabi).v, iabi);
    assert !Clean(RunFrom(Fresh(), HalfReadOps()[..2], iabi).v, HalfReadOps()[2], iabi);
  }

  lemma UnbindIsUnclean(v: View, iabi: Errors)
    requires v.offset > 0
    ensures !Clean(v, UnbindReq, iabi)
  {
  }

  lemma HalfReadRun(iabi: Errors)
    ensures var h2 := Extend(Extend(Fresh(), UnbindReq, iabi), Get(4), iabi);
            && RunFrom(Fresh(), HalfReadOps()[..2], iabi) == h2
            && RunFrom(Fresh(), HalfReadOps(), iabi) ==
                 Extend(Extend(Extend(h2, UnbindReq, iabi), Get(4), iabi), Get(4), iabi)
  {
    hide Extend;
    var ops := HalfReadOps();
    assert RunFrom(Fresh(), [], iabi) == Fresh();
    assert ops[..0] == [] && ops[..1] == ops[..0] + [ops[0]] && ops[..2] == ops[..1] + [ops[1]];
    assert ops[..3] == ops[..2] + [ops[2]] && ops[..4] == ops[..3] + [ops[3]] && ops == ops[..4] + [ops[4]];
    hide RunFrom;
    RunMore(Fresh(), ops[..0], ops[0], iabi);
    RunMore(Fresh(), ops[..1], ops[1], iabi);
    RunMore(Fresh(), ops[..2], ops[2], iabi);
    RunMore(Fresh(), ops[..3], ops[3], iabi);
    RunMore(Fresh(), ops[..4], ops[4], iabi);
  }

  lemma HalfReadRest(h: History, iabi: Errors)
    requires h.Tracked() && h.v.offset == 4 && |h.v.queue| == 2 && h.gots[0] == [] && h.gone == []
    requires h.v.queue[0].length == |h.v.queue[0].data| == 8
    ensures var h', data := Extend(Extend(h, Get(4), iabi), Get(4), iabi), h.v.queue[0].data;
            && |h'.gone| == 1 && h'.gone[0].read && h'.gone[0].data == data
            && h'.gone[0].got == Cells(data[4..]) + [Foreign, Foreign, Foreign, Foreign]
  {
    HalfRead(h.v, 4, 8);
    var h1 := Extend(h, Get(4), iabi);
    HalfRead(h1.v, 8, 4);
  }
}
