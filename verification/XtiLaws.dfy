/** What a caller makes of the messages of a TLI endpoint: the words they are made of, and how bind, connect,
    unbind and incoming connections follow on each other. */
module XtiLaws {
  import opened XtiSpec

  /** The 32-bit word at i, low byte first, as the program reads it. */
  function WordAt(d: seq<Byte>, i: nat): nat
    requires i + 4 <= |d|
  {
    (d[i] as nat) + 256 * (d[i + 1] as nat) + 65536 * (d[i + 2] as nat) + 16777216 * (d[i + 3] as nat)
  }

  lemma LongReads(x: int)
    ensures WordAt(Long(x), 0) == x % 0x1_0000_0000
  {
    var u := x % 0x1_0000_0000;
    assert u / 65536 == u / 256 / 256 && u / 16777216 == u / 65536 / 256;
  }

  lemma LongAt(d: seq<Byte>, i: nat, x: int)
    requires i + 4 <= |d| && d[i..i + 4] == Long(x)
    ensures WordAt(d, i) == x % 0x1_0000_0000
  {
    hide Long;
    LongReads(x);
    var w := d[i..i + 4];
    assert w[0] == d[i] && w[1] == d[i + 1] && w[2] == d[i + 2] && w[3] == d[i + 3];
  }

  /** An acknowledgement is the words 19 and the primitive; a refusal 18, the primitive and both errors. */
  lemma AnswersRead(prim: int, tli: int, unix: int)
    ensures var d := OkAck(prim); |d| == 8 && WordAt(d, 0) == 19 && WordAt(d, 4) == prim % 0x1_0000_0000
    ensures var d := ErrorAck(prim, tli, unix);
            && |d| == 16 && WordAt(d, 0) == 18 && WordAt(d, 4) == prim % 0x1_0000_0000
            && WordAt(d, 8) == tli % 0x1_0000_0000 && WordAt(d, 12) == unix % 0x1_0000_0000
  {
    hide Long, WordAt;
    var d, e := OkAck(prim), ErrorAck(prim, tli, unix);
    assert d[0..4] == Long(19) && d[4..8] == Long(prim);
    LongAt(d, 0, 19);
    LongAt(d, 4, prim);
    assert e[0..4] == Long(18) && e[4..8] == Long(prim) && e[8..12] == Long(tli) && e[12..16] == Long(unix);
    LongAt(e, 0, 18);
    LongAt(e, 4, prim);
    LongAt(e, 8, tli);
    LongAt(e, 12, unix);
  }

  /** A disconnection is the words 13, the reason and 0; a connection indication 11, the length of the address
      and its place behind the six words, 0, 0, the descriptor, and the address. */
  lemma IndicationsRead(reason: int, fd: int, addr: seq<Byte>)
    ensures var d := DisconInd(reason);
            |d| == 12 && WordAt(d, 0) == 13 && WordAt(d, 4) == reason % 0x1_0000_0000 && WordAt(d, 8) == 0
    ensures var d := ConnInd(fd, addr);
            && |d| == 24 + |addr| && WordAt(d, 0) == 11 && WordAt(d, 4) == |addr| % 0x1_0000_0000
            && WordAt(d, 8) == 24 && WordAt(d, 20) == fd % 0x1_0000_0000 && d[24..] == addr
  {
    hide Long, WordAt;
    var d, e := DisconInd(reason), ConnInd(fd, addr);
    assert d[0..4] == Long(13) && d[4..8] == Long(reason) && d[8..12] == Long(0);
    LongAt(d, 0, 13);
    LongAt(d, 4, reason);
    LongAt(d, 8, 0);
    assert e[0..4] == Long(11) && e[4..8] == Long(|addr|) && e[8..12] == Long(24) && e[20..24] == Long(fd);
    LongAt(e, 0, 11);
    LongAt(e, 4, |addr|);
    LongAt(e, 8, 24);
    LongAt(e, 20, fd);
  }

  /** A confirmation is the request with another first word. */
  lemma RetypedReads(prim: int, ctl: seq<Byte>)
    requires |ctl| >= 4
    ensures var d := Retyped(prim, ctl);
            |d| == |ctl| && WordAt(d, 0) == prim % 0x1_0000_0000 && d[4..] == ctl[4..]
  {
    hide Long, WordAt;
    var d := Retyped(prim, ctl);
    assert d[0..4] == Long(prim);
    LongAt(d, 0, prim);
  }

  /** How a bind that the system refuses is reported: EINVAL as the wrong state (6), EACCES as no permission
      (3), an address that cannot be had as a bad address (5), all without a system error, and every other
      error as a system error (8) with its number in the emulated system. */
  lemma RefusedBind(v: View, ctl: seq<Byte>, bound: int, backlog: nat, iabi: Errors)
    requires v.state == 0 && |ctl| >= 4 && bound != 0
    ensures var w := Step(v, BindReq(ctl, true, bound, backlog), iabi).0;
            && w.state == 0 && |w.queue| == 1 + |v.queue| && w.queue[1..] == v.queue
            && var d := w.queue[0].data;
            && |d| == 16 && WordAt(d, 0) == 18 && WordAt(d, 4) == 6
            && WordAt(d, 8) == (if bound == -22 then 6 else if bound == -13 then 3
                                else if bound == -98 || bound == -99 then 5 else 8)
            && WordAt(d, 12) == iabi(if bound in {-22, -13, -98, -99} then 0 else -bound) % 0x1_0000_0000
  {
    hide WordAt, ErrorAck;
    AnswersRead(T_BIND_REQ, BindError(bound), iabi(BindErrno(bound)));
    var r := Refused(T_BIND_REQ, BindError(bound), iabi(BindErrno(bound)));
    assert (r + v.queue + [])[1..] == v.queue;
  }

  // ---------------------------------------------------------------------------------------------
  // One request after another

  /** A bind is granted exactly to an unbound endpoint whose address, if one is named, the system grants. */
  lemma BindGranted(v: View, ctl: seq<Byte>, address: bool, bound: int, backlog: nat, iabi: Errors)
    requires |ctl| >= 4
    ensures var w := Step(v, BindReq(ctl, address, bound, backlog), iabi).0;
            && (|w.queue| == |v.queue| + 2 <==> v.state == 0 && (!address || bound == 0))
            && (|w.queue| == |v.queue| + 2 || (|w.queue| == |v.queue| + 1 && w.state == v.state))
  {
  }

  /** An endpoint bound to an address with a backlog listens: it takes connections and can neither connect nor
      be bound again. */
  lemma BoundToListen(v: View, ctl: seq<Byte>, backlog: nat, fd: nat, addr: seq<Byte>, iabi: Errors)
    requires v.state == 0 && |ctl| >= 4 && backlog > 0
    ensures var w := Step(v, BindReq(ctl, true, 0, backlog), iabi).0;
            var x := Step(w, Incoming(true, fd, addr), iabi).0;
            && |x.queue| == |w.queue| + 1 && x.queue[0].data == ConnInd(fd, addr) && x.state == w.state
            && Step(w, ConnReq(ctl, 0), iabi).0.state == w.state
            && |Step(w, ConnReq(ctl, 0), iabi).0.queue| == |w.queue| + 1
            && |Step(w, BindReq(ctl, true, 0, backlog), iabi).0.queue| == |w.queue| + 1
  {
    hide ConnInd, OkAck, ErrorAck, Retyped;
  }

  /** One bound to an address without a backlog can connect and then transfers data; it takes no connections,
      and neither it nor a connected one can be bound again before it is unbound. */
  lemma BoundToConnect(v: View, ctl: seq<Byte>, fd: nat, addr: seq<Byte>, iabi: Errors)
    requires v.state == 0 && |ctl| >= 4
    ensures var w := Step(v, BindReq(ctl, true, 0, 0), iabi).0;
            var x := Step(w, ConnReq(ctl, 0), iabi).0;
            var y := Step(x, UnbindReq, iabi).0;
            && Step(w, Incoming(true, fd, addr), iabi).0 == w
            && |x.queue| == |w.queue| + 2 && x.state == 9
            && |Step(w, BindReq(ctl, true, 0, 0), iabi).0.queue| == |w.queue| + 1
            && |Step(x, BindReq(ctl, true, 0, 0), iabi).0.queue| == |x.queue| + 1
            && |Step(y, BindReq(ctl, true, 0, 0), iabi).0.queue| == |y.queue| + 2
  {
    hide ConnInd, OkAck, ErrorAck, Retyped;
    var w := Step(v, BindReq(ctl, true, 0, 0), iabi).0;
    assert [] + w.queue + [] == w.queue;
  }

  /** A failed connection leaves the state and is told by a disconnection behind the acknowledgement. */
  lemma FailedConnect(v: View, ctl: seq<Byte>, error: int, iabi: Errors)
    requires |ctl| >= 4 && error != 0 && (v.state == 0 || v.state == 3)
    ensures var w := Step(v, ConnReq(ctl, error), iabi).0;
            && w.state == v.state && |w.queue| == |v.queue| + 2 && w.queue[0].data == OkAck(0)
            && w.queue[|w.queue| - 1].data == DisconInd(iabi(-error))
  {
    hide OkAck, DisconInd;
  }

  /** A read hands over as many bytes as there is room for, or all that are left. */
  lemma DeliverLength(v: View, room: nat)
    requires v.queue != [] && v.queue[0].length >= 0
    ensures var m := v.queue[0];
            |Deliver(v, room).1| == if room < m.length then room else m.length
  {
  }
}
