/** x286/emu_memory.c: the data segments of a 286 program, grown and shrunk by brk and brkctl and
    bounded by the stack that shares the near segment. */
module Segments286 {

  const MAX_SEGMENTS := 256
  const BR_ARGSEG := 1
  const BR_NEWSEG := 2
  const BR_IMPSEG := 3

  function ULong(x: int): nat { x % 0x1_0000_0000 }
  function UShort(x: int): nat { x % 0x10000 }

  /** 32-bit signed arithmetic. */
  type Int32 = x: int | -0x8000_0000 <= x < 0x8000_0000
  function Long(x: int): Int32 { (x + 0x8000_0000) % 0x1_0000_0000 - 0x8000_0000 }

  lemma LongIsItself(x: int)
    ensures -0x8000_0000 <= x < 0x8000_0000 ==> Long(x) == x
    ensures -0x8000_0001 <= x < -0x8000_0000 ==> Long(x) == 0x7fff_ffff
  {
  }

  /** The requests brkctl was written for: growing is all BR_IMPSEG can do, and an increment that is its own
      negative passes the test for shrinking too far. */
  predicate Known(cmd: int, incr: int) {
    || (cmd == BR_ARGSEG && incr != -0x8000_0000)
    || cmd == BR_NEWSEG
    || (cmd == BR_IMPSEG && incr >= 0)
  }

  /** A selector and an offset, or failure. */
  datatype Answer = Fail | Far(sel: nat, off: int)

  class Segments {
    const baseDesc: nat
    const ldata: bool
    const initStk: nat
    const stkSize: nat
    var lastDesc: nat
    /** limit is the highest offset in use, one less than the size; rlimit is how far it may go. */
    const limit: array<int>
    const rlimit: array<int>

    ghost predicate Shaped() {
      limit.Length == rlimit.Length == MAX_SEGMENTS && limit != rlimit && initStk <= 0xffff && stkSize < 0x1_0000_0000
    }

    ghost predicate Valid()
      reads this, limit, rlimit
    {
      && Shaped() && baseDesc <= lastDesc < MAX_SEGMENTS
      && (forall s :: baseDesc <= s <= lastDesc ==> -1 <= limit[s] <= rlimit[s] <= 0xffff)
    }

    /** The near segment cannot grow into the initial stack. */
    ghost predicate BelowStack()
      reads this, rlimit
    {
      Shaped() && baseDesc < MAX_SEGMENTS && rlimit[baseDesc] < initStk
    }

    /** ldt_init and the limits that main sets; limits are those of the descriptors, which lie within 64K. */
    constructor (baseDesc: nat, lastDesc: nat, ldata: bool, limits: seq<int>, limitStk: nat, initStk: nat, stkSize: nat)
      requires baseDesc <= lastDesc < MAX_SEGMENTS == |limits| && initStk <= 0xffff && stkSize < 0x1_0000_0000
      requires forall s :: 0 <= s < |limits| ==> 0 <= limits[s] <= 0xffff
      ensures Shaped() && this.baseDesc == baseDesc && this.lastDesc == lastDesc && this.initStk == initStk
      ensures limit[baseDesc] == limitStk + 1 - limitStk % 2 && rlimit[baseDesc] == UShort(initStk - stkSize - 1)
      ensures forall s :: baseDesc < s <= lastDesc ==> 0 <= limit[s] <= rlimit[s] <= 0xffff
      ensures fresh(limit) && fresh(rlimit)
    {
      this.baseDesc, this.lastDesc, this.ldata := baseDesc, lastDesc, ldata;
      this.initStk, this.stkSize := initStk, stkSize;
      var l := new int[MAX_SEGMENTS](i requires 0 <= i < |limits| => limits[i]);
      var r := new int[MAX_SEGMENTS](i requires 0 <= i < |limits| => BlockEnd(limits[i]));
      l[baseDesc] := limitStk + 1 - limitStk % 2;
      r[baseDesc] := UShort(initStk - stkSize - 1);
      limit, rlimit := l, r;
    }

    /** emu_stkgro: the lowest offset the stack will need. */
    method StkGro(required: nat) returns (ok: bool)
      requires Valid() && required <= 0xffff
      modifies rlimit
      ensures Valid() && (ok <==> limit[baseDesc] < required < initStk)
      ensures forall s :: 0 <= s < MAX_SEGMENTS && s != baseDesc ==> rlimit[s] == old(rlimit[s])
      ensures var room := ok && required <= ULong(initStk - stkSize);
              && rlimit[baseDesc] == (if room then UShort(required - 1) else old(rlimit[baseDesc]))
              && (BelowStack() <==> if room then required != 0 else old(BelowStack()))
    {
      if required <= limit[baseDesc] || required >= initStk {
        return false;
      }
      if required <= ULong(initStk - stkSize) {
        rlimit[baseDesc] := UShort(required - 1);
      }
      ok := true;
    }

    /** The part of int_brkctl that makes a new, empty segment. */
    method AddSegment(memory: bool) returns (added: bool)
      requires Valid()
      modifies this`lastDesc, limit, rlimit
      ensures Valid() && (added <==> memory && old(lastDesc) < MAX_SEGMENTS - 1)
      ensures lastDesc == old(lastDesc) + if added then 1 else 0
      ensures limit[..] == if added then old(limit[..])[lastDesc := -1] else old(limit[..])
      ensures rlimit[..] == if added then old(rlimit[..])[lastDesc := 0xffff] else old(rlimit[..])
    {
      var seg := lastDesc + 1;
      if seg > MAX_SEGMENTS - 1 || !memory {
        return false;
      }
      lastDesc := seg;
      limit[seg], rlimit[seg] := -1, 0xffff;
      added := true;
    }

    /** The part of int_brkctl that checks the request and picks, or makes, the segment to change. */
    method PickSegment(cmd: int, incr: Int32, seg0: nat, memory: bool) returns (r: Answer, seg: nat)
      requires Valid() && (cmd == BR_ARGSEG || cmd == BR_NEWSEG || cmd == BR_IMPSEG || seg0 < MAX_SEGMENTS)
      modifies this`lastDesc, limit, rlimit
      ensures Valid() && rlimit[baseDesc] == old(rlimit[baseDesc])
      ensures r.Fail? ==> lastDesc == old(lastDesc) && limit[..] == old(limit[..]) && rlimit[..] == old(rlimit[..])
      ensures lastDesc == old(lastDesc) ==> limit[..] == old(limit[..]) && rlimit[..] == old(rlimit[..])
      ensures lastDesc != old(lastDesc) ==>
                && lastDesc == old(lastDesc) + 1 && seg == lastDesc && limit[seg] == -1 && rlimit[seg] == 0xffff
                && limit[..] == old(limit[..])[seg := -1]
                && r.Far? && 0 <= incr <= 0x10000 && (cmd == BR_NEWSEG || cmd == BR_IMPSEG)
      ensures r.Far? ==> seg < MAX_SEGMENTS && incr <= 0x10000
      ensures r.Far? && lastDesc == old(lastDesc) ==> seg == if cmd == BR_IMPSEG then lastDesc else seg0
      ensures r.Far? && incr > 0 && Known(cmd, incr) ==> r == Far(8 * seg + 7, limit[seg] + 1)
      ensures r.Far? && incr < 0 && Known(cmd, incr) ==> r == Far(8 * seg + 7, limit[seg] + incr + 1)
      ensures r.Far? && Known(cmd, incr) ==> baseDesc <= seg <= lastDesc && -1 <= limit[seg] + incr <= rlimit[seg]
      ensures cmd == BR_ARGSEG ==>
                (r.Far? <==> && baseDesc <= seg0 <= lastDesc && incr <= 0x10000 && !(incr == 0 && limit[seg0] == -1)
                             && (incr == -0x8000_0000 || -1 <= limit[seg0] + incr <= rlimit[seg0]))
      ensures Known(cmd, incr) ==> r == Expected(old(State()), cmd, incr, seg0, memory)
    {
      seg := seg0;
      if cmd == BR_ARGSEG && (seg0 < baseDesc || seg0 > lastDesc) {
        return Fail, seg;
      }
      if incr > 0x10000 || (cmd == BR_NEWSEG && incr < 0)
         || (cmd == BR_ARGSEG && incr < 0 && Long(-(incr as int)) > limit[seg0] + 1)
      {
        return Fail, seg;
      }
      seg := if cmd == BR_IMPSEG then lastDesc else seg0;
      if incr >= 0 {
        if cmd == BR_ARGSEG && ULong(limit[seg] + incr) > rlimit[seg] {
          return Fail, seg;
        }
        if cmd == BR_NEWSEG || (cmd == BR_IMPSEG && limit[seg] + incr > rlimit[seg]) {
          if !ldata && lastDesc == baseDesc && cmd == BR_IMPSEG {
            return Fail, seg;
          }
          var added := AddSegment(memory);
          if !added {
            return Fail, seg;
          }
          seg := lastDesc;
          r := Far(8 * seg + 7, 0);
        } else if limit[seg] == 0xffff {
          r := Far(8 * (seg + 1) + 7, 0);
        } else {
          r := Far(8 * seg + 7, limit[seg] + 1);
        }
      } else {
        r := Far(8 * seg + 7, ULong(limit[seg] + incr + 1));
      }
    }

    /** int_brkctl; memory says whether malloc has 64K for a new segment. */
    method IntBrkctl(cmd: int, incr: Int32, seg0: nat, memory: bool) returns (r: Answer)
      requires Valid() && (cmd == BR_ARGSEG || cmd == BR_NEWSEG || cmd == BR_IMPSEG || seg0 < MAX_SEGMENTS)
      modifies this`lastDesc, limit, rlimit
      ensures rlimit[baseDesc] == old(rlimit[baseDesc])
      ensures Known(cmd, incr) || r.Fail? ==> Valid()
      ensures cmd == BR_ARGSEG && r.Far? ==> baseDesc <= seg0 <= old(lastDesc)
      ensures !Known(cmd, incr) && r.Far? ==>
                var s := if cmd == BR_IMPSEG then lastDesc else seg0;
                Valid() <==> baseDesc <= s <= lastDesc && s < MAX_SEGMENTS ==>
                  -1 <= Long(old(limit[s]) + incr) <= old(rlimit[s])
      ensures cmd == BR_ARGSEG && incr == -0x8000_0000 ==>
                (r.Far? <==> baseDesc <= seg0 <= old(lastDesc)) && (r.Far? ==> !Valid())
      ensures cmd == BR_ARGSEG && incr != -0x8000_0000 ==>
                && lastDesc == old(lastDesc) && rlimit[..] == old(rlimit[..])
                && (r.Far? <==> && baseDesc <= seg0 <= lastDesc && incr <= 0x10000
                                && -1 <= old(limit[seg0]) + incr <= rlimit[seg0]
                                && !(incr == 0 && old(limit[seg0]) == -1))
                && (r.Far? ==> limit[..] == old(limit[..])[seg0 := old(limit[seg0]) + incr])
      ensures r.Fail? ==> lastDesc == old(lastDesc) && limit[..] == old(limit[..]) && rlimit[..] == old(rlimit[..])
      ensures Known(cmd, incr) ==> r == Expected(old(State()), cmd, incr, seg0, memory)
      ensures old(lastDesc) <= lastDesc <= old(lastDesc) + 1
      ensures Known(cmd, incr) && r.Far? ==> Changed(old(State()), State(), r, incr)
    {
      hide Long, ULong, Expected, Changed;
      ghost var s0 := State();
      var seg;
      r, seg := PickSegment(cmd, incr, seg0, memory);
      if r.Far? {
        LongIsItself(limit[seg] + incr);
        limit[seg] := Long(limit[seg] + incr);
        if Known(cmd, incr) {
          Resized(s0, State(), seg, incr, r);
        }
      }
    }

    /** emu_brk: make off the first unused offset of segment seg. */
    method Brk(seg: nat, off: nat, memory: bool) returns (ok: bool)
      requires Valid() && off <= 0xffff
      modifies this`lastDesc, limit, rlimit
      ensures Valid() && lastDesc == old(lastDesc) && rlimit[baseDesc] == old(rlimit[baseDesc])
      ensures ok <==> baseDesc <= seg <= old(lastDesc) && off <= old(rlimit[seg]) + 1
                      && !(off == 0 && old(limit[seg]) == -1)
      ensures limit[..] == if ok then old(limit[..])[seg := off - 1] else old(limit[..])
    {
      if seg >= MAX_SEGMENTS {
        return false;
      }
      var r := IntBrkctl(BR_ARGSEG, Long(off - limit[seg] - 1), seg, memory);
      ok := r.Far?;
    }

    ghost function State(): Snapshot
      reads this, limit, rlimit
    {
      Snapshot(baseDesc, ldata, lastDesc, limit[..], rlimit[..])
    }

    /** Everything the program may use. */
    ghost function Held(): iset<(int, int)>
      reads this, limit, rlimit
    {
      State().Bytes()
    }

    /** One call. */
    method One(op: Op) returns (r: Answer)
      requires Valid() && op.InScope()
      modifies this`lastDesc, limit, rlimit
      ensures Valid() && old(lastDesc) <= lastDesc && (old(BelowStack()) ==> BelowStack())
      ensures Answered(op, r, old(State()), old(Held()), Held())
    {
      r := Fail;
      match op {
        case Grow(cmd, incr, seg, memory) =>
          ghost var s0 := State();
          r := IntBrkctl(cmd, incr, seg, memory);
          if r.Far? {
            ChangedRange(s0, State(), r, incr);
          }
        case SetBrk(seg, off, memory) =>
          var _ := Brk(seg, off, memory);
        case Stack(required) =>
          var _ := StkGro(required);
      }
    }

    /** A whole run of calls within the requests brkctl was written for, from any set-up that main lets
        through; held is what the program may use before and after each of them. */
    method Run(ops: seq<Op>)
      returns (answers: seq<Answer>, ghost held: seq<iset<(int, int)>>, ghost states: seq<Snapshot>)
      requires Valid() && forall i :: 0 <= i < |ops| ==> ops[i].InScope()
      modifies this`lastDesc, limit, rlimit
      ensures Valid() && old(lastDesc) <= lastDesc && |answers| == |ops|
      ensures |held| == |states| == |ops| + 1 && states[0] == old(State()) && states[|ops|] == State()
      ensures held[0] == old(Held()) && held[|ops|] == Held()
      ensures forall i :: 0 <= i < |ops| ==> Answered(ops[i], answers[i], states[i], held[i], held[i + 1])
      ensures old(BelowStack()) ==> BelowStack()
    {
      hide Answered, Held, State;
      answers, held, states := [], [Held()], [State()];
      for i := 0 to |ops|
        invariant Valid() && old(lastDesc) <= lastDesc && |answers| == i && |held| == |states| == i + 1
        invariant states[0] == old(State()) && states[i] == State()
        invariant held[0] == old(Held()) && held[i] == Held() && (old(BelowStack()) ==> BelowStack())
        invariant forall k :: 0 <= k < i ==> Answered(ops[k], answers[k], states[k], held[k], held[k + 1])
      {
        var r := One(ops[i]);
        answers, held, states := answers + [r], held + [Held()], states + [State()];
      }
    }
  }

  /** The far range of n bytes from an answer on. */
  ghost function Range(r: Answer, n: int): iset<(int, int)>
    requires r.Far?
  {
    iset p: (int, int) | p.0 == r.sel / 8 && r.off <= p.1 < r.off + n
  }

  datatype Snapshot = Snapshot(base: nat, ldata: bool, last: nat, limit: seq<int>, rlimit: seq<int>) {
    /** The bytes in use: up to the limit of each segment. */
    ghost predicate Holds(s: int, off: int) {
      base <= s <= last && s < |limit| && 0 <= off <= limit[s]
    }

    ghost function Bytes(): iset<(int, int)> { iset p: (int, int) | Holds(p.0, p.1) }

    ghost predicate Sane() {
      |limit| == |rlimit| == MAX_SEGMENTS && last < MAX_SEGMENTS
    }

    /** The place after all that is in use of segment k. */
    ghost function After(k: nat): Answer
      requires k < |limit|
    {
      if limit[k] == 0xffff then Far(8 * (k + 1) + 7, 0) else Far(8 * k + 7, limit[k] + 1)
    }
  }

  /** The bytes from the answer on are new and all that is, if n is positive, and else were in use and are all
      that is not any more. */
  ghost predicate Changed(s0: Snapshot, s1: Snapshot, r: Answer, n: int)
    requires r.Far?
  {
    var seg := r.sel / 8;
    if n > 0 then
      && (forall k :: r.off <= k < r.off + n ==> s1.Holds(seg, k) && !s0.Holds(seg, k))
      && (forall s, k :: s1.Holds(s, k) <==> s0.Holds(s, k) || (s == seg && r.off <= k < r.off + n))
    else
      && (forall s, k :: s1.Holds(s, k) <==> s0.Holds(s, k) && !(s == seg && r.off <= k < r.off - n))
      && (forall k :: r.off <= k < r.off - n ==> s0.Holds(seg, k))
  }

  /** Segment seg, which may be new, was made larger or smaller by n bytes. */
  lemma Resized(s0: Snapshot, s1: Snapshot, seg: nat, n: int, r: Answer)
    requires s0.Sane() && s1.Sane() && s1.base == s0.base && s1.base <= seg <= s1.last
    requires s1.last == s0.last || (s1.last == s0.last + 1 && seg == s1.last)
    requires forall k :: 0 <= k < MAX_SEGMENTS && k != seg ==> s1.limit[k] == s0.limit[k]
    requires s1.limit[seg] == n + (if seg <= s0.last then s0.limit[seg] else -1) >= -1
    requires seg <= s0.last ==> s0.limit[seg] >= -1
    requires r.Far? && (n != 0 ==> r == Far(8 * seg + 7, s1.limit[seg] + 1 - if n > 0 then n else 0))
    ensures Changed(s0, s1, r, n)
  {
  }

  lemma ChangedRange(s0: Snapshot, s1: Snapshot, r: Answer, n: int)
    requires r.Far? && Changed(s0, s1, r, n)
    ensures n > 0 ==> s0.Bytes() !! Range(r, n) && s1.Bytes() == s0.Bytes() + Range(r, n)
    ensures n <= 0 ==> Range(r, -n) <= s0.Bytes() && s1.Bytes() == s0.Bytes() - Range(r, -n)
  {
  }

  /** The answer to a request in scope. */
  ghost function Expected(s: Snapshot, cmd: int, incr: int, seg: nat, memory: bool): Answer {
    if !s.Sane() || incr > 0x10000 then Fail
    else
      var another := if memory && s.last < MAX_SEGMENTS - 1 then Far(8 * (s.last + 1) + 7, 0) else Fail;
      if cmd == BR_NEWSEG then if incr >= 0 then another else Fail
      else if cmd == BR_IMPSEG then
        if s.limit[s.last] + incr <= s.rlimit[s.last] then s.After(s.last)
        else if s.ldata || s.last != s.base then another else Fail
      else if !(s.base <= seg <= s.last && -1 <= s.limit[seg] + incr <= s.rlimit[seg]) then Fail
      else if incr == 0 && s.limit[seg] == -1 then Fail
      else if incr < 0 then Far(8 * seg + 7, s.limit[seg] + incr + 1)
      else s.After(seg)
  }

  /** When a new segment is made, and when the last one is extended. */
  lemma ExpectedIs(s: Snapshot, incr: Int32, seg: nat, memory: bool)
    requires s.Sane()
    ensures var made := Far(8 * (s.last + 1) + 7, 0);
            var r := Expected(s, BR_NEWSEG, incr, seg, memory);
            && (r == made <==> 0 <= incr <= 0x10000 && memory && s.last < 255)
            && (r != made ==> r == Fail)
    ensures var made, last := Far(8 * (s.last + 1) + 7, 0), s.limit[s.last];
            var r := Expected(s, BR_IMPSEG, incr, seg, memory);
            && (r == Fail <==> incr > 0x10000
                               || (last + incr > s.rlimit[s.last]
                                   && (!memory || s.last == 255 || (!s.ldata && s.last == s.base))))
            && (incr <= 0x10000 && last + incr <= s.rlimit[s.last] && last < 0xffff ==>
                  r == Far(8 * s.last + 7, last + 1))
            && (r != Fail && last + incr > s.rlimit[s.last] ==> r == made)
  {
  }

  /** A request is granted exactly when it should be. A grow adds exactly the range it returns, none of which
      was in use, and a shrinking brkctl takes away exactly the range from the place it returns on; one that
      fails, or makes room for the stack, changes nothing. */
  ghost predicate Answered(op: Op, r: Answer, s: Snapshot, before: iset<(int, int)>, after: iset<(int, int)>) {
    match op
    case Grow(cmd, incr, seg, memory) =>
      && r == Expected(s, cmd, incr, seg, memory)
      && if r.Fail? then after == before
         else if incr > 0 then before !! Range(r, incr) && after == before + Range(r, incr)
         else Range(r, -(incr as int)) <= before && after == before - Range(r, -(incr as int))
    case SetBrk(seg, off, _) =>
      if s.Sane() && s.base <= seg <= s.last && off <= s.rlimit[seg] + 1 && !(off == 0 && s.limit[seg] == -1)
      then after == (iset p | p in before && p.0 != seg) + Range(Far(8 * seg, 0), off)
      else after == before
    case Stack(_) => after == before
  }

  /** The last offset of the 4K block that x is in; none for an empty descriptor. */
  function BlockEnd(x: int): int { if x == 0 then 0 else x - x % 4096 + 4095 }

  /** The end of main's set-up: nothing if the program exits because there is no room for the stack. */
  method Setup(baseDesc: nat, lastDesc: nat, ldata: bool, limits: seq<int>, limitStk: nat, initStk: nat, stkSize: nat)
    returns (s: Segments?)
    requires baseDesc <= lastDesc < MAX_SEGMENTS == |limits| && initStk <= 0xffff && stkSize < 0x1_0000_0000
    requires forall i :: 0 <= i < |limits| ==> 0 <= limits[i] <= 0xffff
    ensures s == null <==> UShort(initStk - stkSize - 1) < limitStk + 1 - limitStk % 2
    ensures s != null ==> fresh(s) && fresh(s.limit) && fresh(s.rlimit) && s.Valid()
    ensures s != null ==>
              && s.baseDesc == baseDesc && s.initStk == initStk
              && s.rlimit[baseDesc] == UShort(initStk - stkSize - 1)
    ensures s != null ==> (s.BelowStack() <==> stkSize % 0x10000 < initStk)
  {
    var made := new Segments(baseDesc, lastDesc, ldata, limits, limitStk, initStk, stkSize);
    if made.rlimit[baseDesc] < made.limit[baseDesc] {
      return null;
    }
    s := made;
    RoomForStack(initStk, stkSize);
  }

  /** The 16-bit difference is below the stack if and only if the stack size, to 16 bits, is. */
  lemma RoomForStack(initStk: nat, stkSize: nat)
    requires initStk <= 0xffff
    ensures UShort(initStk - stkSize - 1) < initStk <==> stkSize % 0x10000 < initStk
  {
  }

  /** A stack larger than what is below the frame passes the test for stack space: the near segment may then
      grow over the frame. */
  method StackTooLarge(limits: seq<int>) returns (s: Segments?)
    requires |limits| == MAX_SEGMENTS && forall i :: 0 <= i < |limits| ==> 0 <= limits[i] <= 0xffff
    ensures s != null && s.Valid() && !s.BelowStack() && s.rlimit[s.baseDesc] == 0xefff && s.initStk == 0x8000
  {
    s := Setup(0, 0, false, limits, 0x100, 0x8000, 0x9000);
  }

  datatype Op =
    | Grow(cmd: int, incr: Int32, seg: nat, memory: bool)
    | SetBrk(seg: nat, off: nat, memory: bool)
    | Stack(required: nat)
  {
    predicate InScope() {
      match this
      case Grow(cmd, incr, _, _) => Known(cmd, incr)
      case SetBrk(_, off, _) => off <= 0xffff
      case Stack(required) => 0 < required <= 0xffff
    }
  }
}
