/** The search loop of ibcs_malloc as single steps, to tell exactly when it never ends: coalescing can
    absorb the very block the loop waits to see again. */
module HeapScan {
  import opened Heap

  /** Where the loop is: about to look at a block, coalescing it, leaving it, or done. */
  datatype At = Look(p: nat) | Merge(p: nat) | Leave(p: nat) | FoundFree(p: nat) | GivenUp

  datatype State = State(m: Memory, at: At)

  function Step(s: State, start: nat, w: nat): State {
    match s.at
    case Look(p) => s.(at := if Busy(s.m, p) then Leave(p) else Merge(p))
    case Merge(p) =>
      if !Busy(s.m, Next(s.m, p)) then s.(m := s.m[p := Word(s.m, Next(s.m, p))])
      else s.(at := if Next(s.m, p) - p >= w then FoundFree(p) else Leave(p))
    case Leave(p) => s.(at := if Next(s.m, p) == start then GivenUp else Look(Next(s.m, p)))
    case FoundFree(p) => s
    case GivenUp => s
  }

  function Run(s: State, start: nat, w: nat, n: nat): State {
    if n == 0 then s else Step(Run(s, start, w, n - 1), start, w)
  }

  predicate Over(at: At) { at.FoundFree? || at.GivenUp? }

  /** start is free, and so is the block before it unless start was absorbed already. */
  ghost predicate Lost(bs: Blocks, live: set<nat>, first: nat, last: nat, start: nat) {
    && start !in live && start != first && start != last
    && (start in bs ==> exists q :: q in bs && q !in live && bs[q] == start)
  }

  /** The loop is on its way, nothing fits, and start will not be seen again. */
  ghost predicate Stuck(s: State, bs: Blocks, live: set<nat>, first: nat, last: nat, start: nat, w: nat) {
    && Tiled(s.m, bs, live, first, last) && Lost(bs, live, first, last, start)
    && (forall a: nat :: !Fits(bs, live, first, last, a, w))
    && match s.at
       case Look(p) => p in bs || p == last
       case Merge(p) => p in bs && p !in live
       case Leave(p) => p == last || (p in bs && (p in live || bs[p] in live || bs[p] == last))
       case _ => false
  }

  /** The block after a free, fully coalesced block, or after a live one, is not start. */
  lemma StartIsNotNext(m: Memory, bs: Blocks, live: set<nat>, first: nat, last: nat, start: nat, p: nat)
    requires Tiled(m, bs, live, first, last) && Lost(bs, live, first, last, start)
    requires p in bs && (p in live || bs[p] in live || bs[p] == last)
    ensures bs[p] != start
  {
    assert Leads(bs, last, p);
  }

  lemma AbsorbKeepsLost(m: Memory, bs: Blocks, live: set<nat>, first: nat, last: nat, start: nat, p: nat)
    requires Tiled(m, bs, live, first, last) && Lost(bs, live, first, last, start)
    requires p in bs && p !in live && bs[p] in bs && bs[p] !in live
    ensures Lost((bs - {bs[p]})[p := bs[bs[p]]], live, first, last, start)
  {
  }

  lemma StuckStep(s: State, bs: Blocks, live: set<nat>, first: nat, last: nat, start: nat, w: nat) returns (bs': Blocks)
    requires Stuck(s, bs, live, first, last, start, w)
    ensures Stuck(Step(s, start, w), bs', live, first, last, start, w)
  {
    hide Shape, Flags, Lost, LiveKept, Merged;
    bs' := bs;
    var p := s.at.p;
    NextBlock(s.m, bs, live, first, last, p);
    NothingChanged(s.m, bs, live, first, last, p);
    match s.at
    case Look(_) =>
    case Leave(_) =>
      if p in bs {
        StartIsNotNext(s.m, bs, live, first, last, start, p);
      } else {
        assert Next(s.m, p) == first;
        FirstIsNotStart(s.m, bs, live, first, last, start);
      }
    case Merge(_) =>
      NextBlock(s.m, bs, live, first, last, bs[p]);
      if !Busy(s.m, bs[p]) {
        Absorb(s.m, bs, s.m, bs, live, first, last, p);
        AbsorbKeepsLost(s.m, bs, live, first, last, start, p);
        bs' := (bs - {bs[p]})[p := bs[bs[p]]];
        EndsKept(s.m, bs, Step(s, start, w).m, bs', live, first, last, start, w);
      } else if bs[p] - p >= w {
        FreeBlockFits(s.m, bs, live, first, last, p, w);
      }
  }

  lemma FirstIsNotStart(m: Memory, bs: Blocks, live: set<nat>, first: nat, last: nat, start: nat)
    requires Tiled(m, bs, live, first, last) && Lost(bs, live, first, last, start)
    ensures first != start && first in bs
  {
  }

  lemma FreeBlockFits(m: Memory, bs: Blocks, live: set<nat>, first: nat, last: nat, p: nat, w: nat)
    requires Tiled(m, bs, live, first, last) && p in bs && p !in live && bs[p] - p >= w
    ensures Fits(bs, live, first, last, p, w)
  {
  }

  lemma {:induction false} StuckForever(s: State, bs: Blocks, live: set<nat>, first: nat, last: nat,
                                        start: nat, w: nat, n: nat) returns (bs': Blocks)
    requires Stuck(s, bs, live, first, last, start, w)
    ensures Stuck(Run(s, start, w, n), bs', live, first, last, start, w)
  {
    bs' := bs;
    if n > 0 {
      bs' := StuckForever(s, bs, live, first, last, start, w, n - 1);
      bs' := StuckStep(Run(s, start, w, n - 1), bs', live, first, last, start, w);
    }
  }

  /** When start is a free block after a free block and no run of free blocks is large enough, the
      loop takes steps for ever: it neither finds a block nor gives up. */
  lemma ScanNeverEnds(m: Memory, bs: Blocks, live: set<nat>, first: nat, last: nat, start: nat, w: nat, n: nat)
    requires Tiled(m, bs, live, first, last) && start in bs
    requires !Ends(bs, live, first, last, start, w)
    ensures !Over(Run(State(m, Look(start)), start, w, n).at)
  {
    var q := BlockBefore(m, bs, live, first, last, start);
    assert Lost(bs, live, first, last, start);
    var bs' := StuckForever(State(m, Look(start)), bs, live, first, last, start, w, n);
  }

  lemma BlockBefore(m: Memory, bs: Blocks, live: set<nat>, first: nat, last: nat, h: nat) returns (q: nat)
    requires Tiled(m, bs, live, first, last) && h in bs && h != first
    ensures q in bs && bs[q] == h
  {
    q := BlockOf(m, bs, live, first, last, h - 1);
    assert Leads(bs, last, q);
  }

  /** Two allocations, both freed in the order they were made, and the next large one never returns. */
  method TwoFreesThenHang(brk: nat) returns (h: Allocator)
    requires brk >= 1
    ensures fresh(h) && h.Valid() && h.mallocP in h.bs
    ensures !Ends(h.bs, h.live, h.first, h.last, h.mallocP, Units(100))
  {
    hide Shape, Flags, Fits, NoneEarlier, Ends;
    h := new Allocator(brk);
    var a := h.Malloc(8);
    StartsAtFirst(h.bs, h.live, h.first, h.last, Units(8));
    ghost var p, q := a - 1, h.last;
    OneBlockIsFull(h.mem, h.bs, h.live, p, q);
    var b := h.Malloc(8);
    h.Free(a);
    h.Free(b);
    TwoBlocks(h.mem, h.bs, h.live, p, q, h.last);
  }

  lemma StartsAtFirst(bs: Blocks, live: set<nat>, first: nat, last: nat, w: nat)
    ensures Ends(bs, live, first, last, first, w)
  {
  }

  lemma OneBlockIsFull(m: Memory, bs: Blocks, live: set<nat>, p: nat, last: nat)
    requires Tiled(m, bs, live, p, last) && p in live && bs[p] == last
    ensures forall x: nat, w: nat :: w >= 1 ==> !Fits(bs, live, p, last, x, w)
  {
  }

  lemma TwoBlocks(m: Memory, bs: Blocks, live: set<nat>, p: nat, q: nat, last: nat)
    requires Tiled(m, bs, live, p, last) && live == {} && p < q && q in bs && last == p + 6
    ensures !Ends(bs, live, p, last, q, Units(100))
  {
  }
}
