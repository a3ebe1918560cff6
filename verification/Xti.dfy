/** The TLI endpoint of per-svr4/xti.c: the message queue as a linked list, and the endpoint state. Sockets,
    poll and memory are an environment that always has memory. */
module Xti {
  import opened XtiSpec

  class Message {
    const pri: int
    const data: seq<Byte>
    var length: int
    var next: Message?

    constructor (pri: int, data: seq<Byte>, next: Message?)
      ensures this.pri == pri && this.data == data && length == |data| && this.next == next
    {
      this.pri, this.data, this.length, this.next := pri, data, |data|, next;
    }
  }

  /** The values of the messages of a queue. */
  ghost function Values(q: seq<Message>): seq<Msg>
    reads q
  {
    seq(|q|, i requires 0 <= i < |q| reads q => Msg(q[i].pri, q[i].data, q[i].length))
  }

  class Endpoint {
    var state: int
    var offset: nat
    var pfirst: Message?
    var plast: Message?
    const iabi: Errors
    ghost var queue: seq<Message>

    /** pfirst, the next fields and plast are the list of the messages of queue. */
    ghost predicate Valid()
      reads this`pfirst, this`plast, this`queue, queue
    {
      && (forall i, j :: 0 <= i < j < |queue| ==> queue[i] != queue[j])
      && (queue == [] ==> pfirst == null && plast == null)
      && (queue != [] ==> pfirst == queue[0] && plast == queue[|queue| - 1] && queue[|queue| - 1].next == null)
      && (forall i :: 0 <= i < |queue| - 1 ==> queue[i].next == queue[i + 1])
      && (forall i :: 0 <= i < |queue| ==> queue[i].length >= 0)
    }

    ghost function Now(): View
      reads this`state, this`offset, this`queue, queue
    {
      View(state, offset, Values(queue))
    }

    constructor (iabi: Errors, state: int)
      ensures Valid() && queue == [] && Now() == View(state, 0, []) && this.iabi == iabi
    {
      this.iabi, this.state := iabi, state;
      offset, pfirst, plast, queue := 0, null, null, [];
    }

    /** A new message at the front of the list, as timod_ok, timod_error and timod_update_socket link it. */
    method PushFront(pri: int, data: seq<Byte>)
      requires Valid()
      modifies this`pfirst, this`plast, this`queue
      ensures Valid() && |queue| == |old(queue)| + 1 && queue[1..] == old(queue) && fresh(queue[0])
      ensures Values(queue) == [NewMsg(pri, data)] + old(Values(queue))
    {
      var it := new Message(pri, data, pfirst);
      pfirst := it;
      if plast == null {
        plast := it;
      }
      queue := [it] + queue;
    }

    /** A new message at the back of a list that is not empty. */
    method PushBack(pri: int, data: seq<Byte>)
      requires Valid() && queue != []
      modifies this`plast, this`queue, plast`next
      ensures Valid() && |queue| == |old(queue)| + 1 && queue[..|old(queue)|] == old(queue)
      ensures fresh(queue[|old(queue)|])
      ensures Values(queue) == old(Values(queue)) + [NewMsg(pri, data)]
    {
      var it := new Message(pri, data, null);
      plast.next := it;
      plast := it;
      queue := queue + [it];
    }

    method TimodOk(prim: int)
      requires Valid()
      modifies this`pfirst, this`plast, this`queue
      ensures Valid() && Values(queue) == Acked(prim) + old(Values(queue))
      ensures forall m :: m in queue ==> m in old(queue) || fresh(m)
      ensures queue != []
    {
      PushFront(MSG_HIPRI, OkAck(prim));
    }

    method TimodError(prim: int, terr: int, uerr: int)
      requires Valid()
      modifies this`pfirst, this`plast, this`queue
      ensures Valid() && Values(queue) == Refused(prim, terr, iabi(uerr)) + old(Values(queue))
      ensures forall m :: m in queue ==> m in old(queue) || fresh(m)
    {
      PushFront(MSG_HIPRI, ErrorAck(prim, terr, iabi(uerr)));
    }

    /** An acknowledgement at the front and a confirmation at the back. */
    method Confirm(prim: int, pri: int, data: seq<Byte>)
      requires Valid()
      modifies this`pfirst, this`plast, this`queue, queue
      ensures Valid() && Values(queue) == Acked(prim) + old(Values(queue)) + [NewMsg(pri, data)]
      ensures forall m :: m in queue ==> m in old(queue) || fresh(m)
    {
      TimodOk(prim);
      Ends();
      PushBack(pri, data);
    }

    lemma Ends()
      requires Valid()
      ensures pfirst == null <==> queue == []
      ensures queue != [] ==> pfirst == queue[0] && plast != null && plast in queue
    {
    }

    /** The T_BIND_REQ case of do_putmsg; bound is what the bind system call answers. */
    method Bind(ctl: seq<Byte>, address: bool, bound: int, backlog: nat)
      requires Valid() && |ctl| >= 4
      modifies this`state, this`pfirst, this`plast, this`queue, queue
      ensures Valid() && Now() == Apply(old(Now()), Respond(old(state), BindReq(ctl, address, bound, backlog), iabi))
      ensures forall m :: m in queue ==> m in old(queue) || fresh(m)
    {
      hide Valid, Values, OkAck, ErrorAck, Retyped;
      if state != TS_UNBND {
        TimodError(T_BIND_REQ, TOUTSTATE, 0);
        return;
      }
      var error := 0;
      if address {
        error := bound;
        if error == 0 {
          state := if backlog != 0 then TS_WRES_CIND else TS_IDLE;
        }
      }
      if error == 0 {
        Confirm(T_BIND_REQ, MSG_HIPRI, Retyped(T_BIND_ACK, ctl));
        return;
      }
      TimodError(T_BIND_REQ, BindError(error), BindErrno(error));
    }

    /** The T_CONN_REQ case; connected is what the connect system call answers. */
    method Connect(ctl: seq<Byte>, connected: int)
      requires Valid() && |ctl| >= 4
      modifies this`state, this`pfirst, this`plast, this`queue, queue
      ensures Valid() && Now() == Apply(old(Now()), Respond(old(state), ConnReq(ctl, connected), iabi))
      ensures forall m :: m in queue ==> m in old(queue) || fresh(m)
    {
      hide Valid, Values, OkAck, ErrorAck, Retyped, DisconInd;
      if state != TS_UNBND && state != TS_IDLE {
        TimodError(T_CONN_REQ, TOUTSTATE, 0);
        return;
      }
      if connected == 0 {
        state := TS_DATA_XFER;
        Confirm(T_CONN_REQ, 0, Retyped(T_CONN_CON, ctl));
      } else {
        Confirm(T_CONN_REQ, 0, DisconInd(iabi(-connected)));
      }
    }

    /** The T_UNBIND_REQ case: always granted. */
    method Unbind()
      requires Valid()
      modifies this`state, this`pfirst, this`plast, this`queue
      ensures Valid() && Now() == Apply(old(Now()), Respond(old(state), UnbindReq, iabi))
      ensures forall m :: m in queue ==> m in old(queue) || fresh(m)
    {
      hide Valid, Values, OkAck;
      state := TS_UNBND;
      TimodOk(T_UNBIND_REQ);
    }

    /** timod_update_socket; accepted is the descriptor of a new connection, negative if there is none. */
    method UpdateSocket(stream: bool, accepted: int, addr: seq<Byte>)
      requires Valid()
      modifies this`pfirst, this`plast, this`queue
      ensures Valid() && Now() == Apply(old(Now()), Respond(old(state), Incoming(stream, accepted, addr), iabi))
      ensures forall m :: m in queue ==> m in old(queue) || fresh(m)
    {
      hide Valid, Values, ConnInd;
      if !stream || state != TS_WRES_CIND {
        return;
      }
      if accepted < 0 {
        return;
      }
      PushFront(0, ConnInd(accepted, addr));
    }

    /** Takes the front message off the list. */
    method Remove()
      requires Valid() && queue != []
      modifies this`offset, this`pfirst, this`plast, this`queue
      ensures Valid() && queue == old(queue)[1..] && Now() == Drop(old(Now()))
    {
      pfirst := pfirst.next;
      if pfirst == null {
        plast := null;
      }
      queue := queue[1..];
      offset := 0;
    }

    /** The control part of do_getmsg when a message is queued: up to room bytes of it. */
    method GetControl(room: nat) returns (bytes: seq<Cell>, more: bool)
      requires Valid() && queue != []
      modifies this`offset, this`pfirst, this`plast, this`queue, pfirst`length
      ensures Valid() && (Now(), bytes) == Deliver(old(Now()), room)
      ensures queue == if more then old(queue) else old(queue)[1..]
    {
      hide Copied;
      ghost var v := Now();
      var front := pfirst;
      assert v.queue[0] == Msg(front.pri, front.data, front.length);
      var l := if room <= front.length then room else front.length;
      bytes := Copied(Msg(front.pri, front.data, front.length), offset, l);
      front.length := front.length - l;
      assert Values(queue) == [v.queue[0].(length := front.length)] + v.queue[1..];
      if front.length != 0 {
        offset := offset + l;
        assert Values(queue) == [v.queue[0].(length := front.length)] + v.queue[1..];
        return bytes, true;
      }
      assert Drop(Now()) == Drop(v);
      Remove();
      more := false;
    }

    /** Reading a message to its end, with any room of at least one byte at each call: the fragments
        together are the message. */
    method ReadMessage(rooms: nat -> nat) returns (bytes: seq<Cell>)
      requires Valid() && Whole(Now()) && queue != [] && offset == 0
      requires forall i :: rooms(i) >= 1
      modifies this`offset, this`pfirst, this`plast, this`queue, pfirst`length
      ensures Valid() && Whole(Now()) && queue == old(queue)[1..] && bytes == Cells(old(queue)[0].data)
    {
      hide Valid, Whole, Values, Deliver, Cells;
      var more := true;
      bytes := [];
      ghost var front, q, data := queue[0], queue, queue[0].data;
      var i := 0;
      ValuesAt(queue);
      Ends();
      while more
        invariant Valid() && Whole(Now()) && (more ==> queue == q && offset <= |data| && bytes == Cells(data)[..offset])
        invariant !more ==> queue == q[1..] && bytes == Cells(data)
        decreases more, |data| - offset
      {
        ValuesAt(queue);
        Ends();
        ghost var v := Now();
        var fragment;
        fragment, more := GetControl(rooms(i));
        ValuesAt(queue);
        DeliversMore(v, rooms(i));
        bytes := bytes + fragment;
        i := i + 1;
      }
    }

    /** A whole run of requests, deliveries and discards does what the machine over the queue does; out is
        what was delivered at each read. */
    method Run(ops: seq<Op>, ghost h0: History) returns (out: seq<seq<Cell>>, ghost h: History)
      requires Valid() && h0.v == Now() && h0.Tracked() && forall i :: 0 <= i < |ops| ==> ops[i].Valid()
      modifies this`state, this`offset, this`pfirst, this`plast, this`queue, queue
      ensures Valid() && h == RunFrom(h0, ops, iabi) && Now() == h.v && |out| == |ops|
      ensures forall i :: 0 <= i < |ops| ==> out[i] == Step(RunFrom(h0, ops[..i], iabi).v, ops[i], iabi).1
    {
      hide Valid, Values, Now, Step, Extend, RunFrom;
      out, h := [], h0;
      RunStarts(h0, ops, iabi);
      for i := 0 to |ops|
        invariant Valid() && h == RunFrom(h0, ops[..i], iabi) && Now() == h.v
        invariant |out| == i && forall k :: 0 <= k < i ==> out[k] == Step(RunFrom(h0, ops[..k], iabi).v, ops[k], iabi).1
        invariant forall k :: 0 <= k < |queue| ==> queue[k] in old(queue) || fresh(queue[k])
      {
        ghost var q := queue;
        RunGoesOn(h0, ops, i, iabi);
        var bytes := One(ops[i]);
        out := out + [bytes];
        h := Extend(h, ops[i], iabi);
        forall k | 0 <= k < |queue| ensures queue[k] in old(queue) || fresh(queue[k]) {
          assert queue[k] in queue;
          if queue[k] in q {
            var j :| 0 <= j < |q| && q[j] == queue[k];
          }
        }
      }
      assert ops[..|ops|] == ops;
    }

    method One(op: Op) returns (bytes: seq<Cell>)
      requires Valid() && op.Valid()
      modifies this`state, this`offset, this`pfirst, this`plast, this`queue, queue
      ensures Valid() && (Now(), bytes) == Step(old(Now()), op, iabi)
      ensures forall m :: m in queue ==> m in old(queue) || fresh(m)
    {
      hide Valid, Values, Respond, Apply, Deliver, Drop;
      bytes := [];
      Ends();
      ValuesAt(queue);
      match op {
        case BindReq(ctl, address, bound, backlog) => Bind(ctl, address, bound, backlog);
        case ConnReq(ctl, connected) => Connect(ctl, connected);
        case UnbindReq => Unbind();
        case Incoming(stream, accepted, addr) => UpdateSocket(stream, accepted, addr);
        case Get(room) => {
          if pfirst != null {
            var more;
            bytes, more := GetControl(room);
          }
        }
        case Discard => {
          if pfirst != null {
            Remove();
          }
        }
      }
    }
  }

  lemma RunStarts(h: History, ops: seq<Op>, iabi: Errors)
    requires h.Tracked() && forall i :: 0 <= i < |ops| ==> ops[i].Valid()
    ensures RunFrom(h, ops[..0], iabi) == h
  {
  }

  lemma RunGoesOn(h: History, ops: seq<Op>, i: nat, iabi: Errors)
    requires h.Tracked() && i < |ops| && forall i :: 0 <= i < |ops| ==> ops[i].Valid()
    ensures var h' := RunFrom(h, ops[..i], iabi);
            RunFrom(h, ops[..i + 1], iabi) == Extend(h', ops[i], iabi)
            && Extend(h', ops[i], iabi).v == Step(h'.v, ops[i], iabi).0
  {
    assert ops[..i + 1][..i] == ops[..i];
    hide Step, Respond;
  }

  lemma ValuesAt(q: seq<Message>)
    ensures |Values(q)| == |q| && (q != [] ==> Values(q)[0].data == q[0].data)
  {
  }

  /** A delivery with some room, from a message partly read: its next bytes, until it is read. */
  lemma DeliversMore(v: View, room: nat)
    requires Whole(v) && v.queue != [] && room >= 1
    ensures var (v', bytes) := Deliver(v, room);
            var data := v.queue[0].data;
            && Whole(v') && v.offset <= |data|
            && (|v'.queue| == |v.queue| ==>
                  v.offset < v'.offset <= |data| && Cells(data)[..v.offset] + bytes == Cells(data)[..v'.offset])
            && (|v'.queue| != |v.queue| ==> Cells(data)[..v.offset] + bytes == Cells(data))
  {
    var m := v.queue[0];
    var l := Taken(m, room);
    assert Cells(m.data)[..v.offset] + Copied(m, v.offset, l) == Cells(m.data)[..v.offset + l];
    assert Cells(m.data)[..|m.data|] == Cells(m.data);
  }
}
