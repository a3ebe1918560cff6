/** The allocator of ibcs/ibcs-lib.c: a next-fit malloc over one circular list of block headers in
    address order. Addresses count header-sized (4 byte) words. */
module Heap {

  type Memory = map<nat, int>

  // ---------------------------------------------------------------------------------------------
  // Headers: the byte address of the next header, with the busy flag in the low bit

  function Word(m: Memory, a: nat): int { if a in m then m[a] else 0 }
  function Next(m: Memory, a: nat): nat { var w := Word(m, a); if w < 0 then 0 else w / 4 }
  predicate Busy(m: Memory, a: nat) { Word(m, a) % 2 == 1 }
  function Header(next: nat, busy: bool): int { 4 * next + if busy then 1 else 0 }

  lemma HeaderReads(m: Memory, a: nat, next: nat, busy: bool)
    requires Word(m, a) == Header(next, busy)
    ensures Next(m, a) == next && (Busy(m, a) <==> busy)
  {
  }

  /** Bytes wanted to words, one being for the header; size_t is 32 bits wide. */
  function Units(bytes: nat): (w: nat)
    requires bytes < 0x1_0000_0000
    ensures 1 <= w
    ensures 4 * (w - 1) >= bytes <==> bytes <= 0xffff_fffc
  {
    (bytes + 3) % 0x1_0000_0000 / 4 + 1
  }

  // ---------------------------------------------------------------------------------------------
  // The shape of the heap

  /** The blocks of a heap: for each header but the end marker the address of the next header. */
  type Blocks = map<nat, nat>

  /** The headers ascend from first to last without overlap or gap, those in live being flagged busy;
      the end marker at last is busy and leads back to first. */
  ghost predicate Tiled(m: Memory, bs: Blocks, live: set<nat>, first: nat, last: nat) {
    Shape(bs, first, last) && Flags(m, bs, live) && Word(m, last) == Header(first, true)
  }

  ghost predicate Shape(bs: Blocks, first: nat, last: nat) {
    && first in bs
    && (forall h :: h in bs ==> first <= h < bs[h] <= last)
    && (forall h :: Leads(bs, last, h))
    && (forall g, h :: g in bs && h in bs && g < h ==> bs[g] <= h)
  }

  /** The block at h, if there is one, is followed by another block or by the end marker. */
  ghost predicate Leads(bs: Blocks, last: nat, h: nat) {
    h in bs ==> bs[h] in bs || bs[h] == last
  }

  ghost predicate Flags(m: Memory, bs: Blocks, live: set<nat>) {
    && (forall h :: h in live ==> h in bs)
    && (forall h :: h in bs ==> Word(m, h) == Header(bs[h], h in live))
  }

  /** The w words from a lie within the heap and outside every live block. */
  ghost predicate Fits(bs: Blocks, live: set<nat>, first: nat, last: nat, a: nat, w: nat)
  {
    first <= a && a + w <= last && forall h :: h in live && h in bs ==> bs[h] <= a || a + w <= h
  }

  /** The live blocks keep their extent, and no header or payload word of theirs differs. */
  ghost predicate LiveKept(m: Memory, bs: Blocks, live: set<nat>, m': Memory, bs': Blocks)
  {
    && (forall h :: h in live ==> h in bs && h in bs' && bs'[h] == bs[h])
    && (forall h, a :: h in live && h in bs && h <= a < bs[h] ==> Word(m', a) == Word(m, a))
  }

  /** Live blocks lie within the heap and do not overlap. */
  lemma LiveBlocksDisjoint(m: Memory, bs: Blocks, live: set<nat>, first: nat, last: nat, g: nat, h: nat)
    requires Tiled(m, bs, live, first, last) && g in live && h in live && g != h
    ensures g in bs && h in bs && first <= g < bs[g] <= last && (bs[g] <= h || bs[h] <= g)
  {
  }

  /** Every word of the heap is in a block. */
  lemma BlockOf(m: Memory, bs: Blocks, live: set<nat>, first: nat, last: nat, a: nat) returns (h: nat)
    requires Tiled(m, bs, live, first, last) && first <= a < last
    ensures h in bs && h <= a < bs[h]
  {
    h := first;
    while bs[h] <= a
      invariant h in bs && h <= a
      decreases a - h
    {
      assert Leads(bs, last, h);
      h := bs[h];
    }
  }

  /** A block at h that is busy, or is free, was coalesced and is still too small. */
  ghost predicate Settled(bs: Blocks, live: set<nat>, last: nat, h: nat, w: nat) {
    h in bs && h !in live ==> (bs[h] in live || bs[h] == last) && bs[h] < h + w
  }

  /** Nothing fits from inside a settled block. */
  lemma SettledHoldsNothing(m: Memory, bs: Blocks, live: set<nat>, first: nat, last: nat, h: nat, a: nat, w: nat)
    requires Tiled(m, bs, live, first, last) && w >= 1
    requires h in bs && h <= a < bs[h] && Settled(bs, live, last, h, w)
    ensures !Fits(bs, live, first, last, a, w)
  {
  }

  // ---------------------------------------------------------------------------------------------
  // The four things that happen to the list

  /** Following the next field of a header, which may be the end marker's. */
  lemma NextBlock(m: Memory, bs: Blocks, live: set<nat>, first: nat, last: nat, h: nat)
    requires Tiled(m, bs, live, first, last) && (h in bs || h == last)
    ensures Busy(m, h) <==> h in live || h == last
    ensures if h in bs then Next(m, h) == bs[h] && h < bs[h] <= last && (bs[h] in bs || bs[h] == last)
            else Next(m, h) == first
  {
    if h in bs {
      assert Leads(bs, last, h);
      HeaderReads(m, h, bs[h], h in live);
    } else {
      HeaderReads(m, h, first, true);
    }
  }

  lemma NothingChanged(m: Memory, bs: Blocks, live: set<nat>, first: nat, last: nat, h: nat)
    requires Tiled(m, bs, live, first, last)
    ensures LiveKept(m, bs, live, m, bs) && (h in bs ==> Merged(bs, h, bs))
  {
  }

  lemma LiveKeptTwice(m0: Memory, b0: Blocks, m1: Memory, b1: Blocks, m2: Memory, b2: Blocks, live: set<nat>)
    requires LiveKept(m0, b0, live, m1, b1) && LiveKept(m1, b1, live, m2, b2)
    ensures LiveKept(m0, b0, live, m2, b2)
  {
  }

  /** A free block takes in the free block after it. */
  lemma AbsorbShape(bs: Blocks, first: nat, last: nat, h: nat)
    requires Shape(bs, first, last) && h in bs && bs[h] in bs
    ensures Shape((bs - {bs[h]})[h := bs[bs[h]]], first, last)
  {
    var n := bs[h];
    var bs' := (bs - {n})[h := bs[n]];
    assert Leads(bs, last, n);
    forall g ensures Leads(bs', last, g) {
      assert Leads(bs, last, g);
    }
  }

  lemma AbsorbFlags(m: Memory, bs: Blocks, live: set<nat>, h: nat)
    requires Flags(m, bs, live) && h in bs && bs[h] in bs && h !in live && bs[h] !in live
    ensures Flags(m[h := Word(m, bs[h])], (bs - {bs[h]})[h := bs[bs[h]]], live)
  {
  }

  /** bs' is bs with the blocks right after h merged into it. */
  ghost predicate Merged(bs: Blocks, h: nat, bs': Blocks) {
    && h in bs' && h in bs && bs[h] <= bs'[h]
    && (forall g :: g in bs' ==> g in bs && (g != h ==> bs'[g] == bs[g] && (g < h || bs'[h] <= g)))
    && (forall g :: g in bs && (g < h || bs'[h] <= g) ==> g in bs')
  }

  lemma Absorb(m0: Memory, bs0: Blocks, m: Memory, bs: Blocks, live: set<nat>, first: nat, last: nat, h: nat)
    requires Tiled(m, bs, live, first, last) && h in bs && h !in live && bs[h] in bs && bs[h] !in live
    requires LiveKept(m0, bs0, live, m, bs) && Merged(bs0, h, bs)
    ensures var n := bs[h];
            var m', bs' := m[h := Word(m, n)], (bs - {n})[h := bs[n]];
            && Tiled(m', bs', live, first, last) && Merged(bs0, h, bs') && LiveKept(m0, bs0, live, m', bs')
            && bs'[h] > bs[h]
  {
    AbsorbShape(bs, first, last, h);
    AbsorbFlags(m, bs, live, h);
  }

  /** Splitting block h after w words. */
  lemma SplitShape(bs: Blocks, first: nat, last: nat, h: nat, w: nat)
    requires Shape(bs, first, last) && h in bs && w >= 1 && h + w < bs[h]
    ensures Shape(bs[h + w := bs[h]][h := h + w], first, last)
  {
    var bs' := bs[h + w := bs[h]][h := h + w];
    assert Leads(bs, last, h);
    forall g ensures Leads(bs', last, g) {
      assert Leads(bs, last, g);
    }
  }

  lemma GrowShape(bs: Blocks, first: nat, last: nat, w: nat)
    requires Shape(bs, first, last) && w >= 1
    ensures Shape(bs[last := last + w], first, last + w) && last !in bs
  {
    var bs', last' := bs[last := last + w], last + w;
    forall g ensures Leads(bs', last', g) {
      assert Leads(bs, last, g);
    }
  }

  lemma SplitFlags(m: Memory, bs: Blocks, live: set<nat>, first: nat, last: nat, h: nat, w: nat)
    requires Tiled(m, bs, live, first, last) && h in bs && h !in live && w >= 1 && h + w < bs[h]
    ensures Flags(m[h + w := Word(m, h)][h := Header(h + w, false)], bs[h + w := bs[h]][h := h + w], live)
  {
  }

  /** Splitting the free block h changes nothing for the live blocks. */
  lemma Split(m: Memory, bs: Blocks, live: set<nat>, first: nat, last: nat, h: nat, w: nat)
    requires Tiled(m, bs, live, first, last) && h in bs && h !in live && w >= 1 && h + w < bs[h]
    ensures var m', bs' := m[h + w := Word(m, h)][h := Header(h + w, false)], bs[h + w := bs[h]][h := h + w];
            Tiled(m', bs', live, first, last) && LiveKept(m, bs, live, m', bs')
  {
    SplitShape(bs, first, last, h, w);
    SplitFlags(m, bs, live, first, last, h, w);
  }

  /** Flagging the free block h busy. */
  lemma Claim(m: Memory, bs: Blocks, live: set<nat>, first: nat, last: nat, h: nat)
    requires Tiled(m, bs, live, first, last) && h in bs && h !in live
    ensures Word(m, h) == Header(bs[h], false)
    ensures Tiled(m[h := Word(m, h) + 1], bs, live + {h}, first, last)
    ensures LiveKept(m, bs, live, m[h := Word(m, h) + 1], bs)
    ensures Fits(bs, live, first, last, h, bs[h] - h)
  {
  }

  /** The end marker becomes a live block and a new end marker follows it. */
  lemma Grow(m: Memory, bs: Blocks, live: set<nat>, first: nat, last: nat, w: nat)
    requires Tiled(m, bs, live, first, last) && w >= 1
    ensures var n := last + w;
            var m', bs' := m[last := Header(n, true)][n := Header(first, true)], bs[last := n];
            && Tiled(m', bs', live + {last}, first, n) && LiveKept(m, bs, live, m', bs')
            && last !in bs && last !in live
  {
    GrowShape(bs, first, last, w);
  }

  /** The heap after the very first allocation: one live block and the end marker. */
  lemma FirstBlock(m: Memory, m': Memory, p: nat, n: nat)
    requires p < n && Word(m', p) == Header(n, true) && Word(m', n) == Header(p, true)
    ensures Tiled(m', map[p := n], {p}, p, n) && LiveKept(m, map[], {}, m', map[p := n])
  {
  }

  /** Clearing the busy bit of a live block. */
  lemma Release(m: Memory, bs: Blocks, live: set<nat>, first: nat, last: nat, h: nat)
    requires Tiled(m, bs, live, first, last) && h in live
    ensures first <= h && h in bs
    ensures var m' := m[h := Word(m, h) - 1];
            Tiled(m', bs, live - {h}, first, last) && LiveKept(m, bs, live - {h}, m', bs)
  {
  }

  // ---------------------------------------------------------------------------------------------
  // The scan

  /** Every block the scan from start has left behind, on its way to h, is settled. */
  ghost predicate Scanned(bs: Blocks, live: set<nat>, last: nat, start: nat, wrapped: bool, h: nat, w: nat) {
    forall g :: g in bs && LeftBehind(start, wrapped, h, g) ==> Settled(bs, live, last, g, w)
  }

  ghost predicate LeftBehind(start: nat, wrapped: bool, h: nat, g: nat) {
    if wrapped then start <= g || g < h else start <= g < h
  }

  /** The scan from start can only end: start is not absorbed by a block before it, or w words fit. */
  ghost predicate Ends(bs: Blocks, live: set<nat>, first: nat, last: nat, start: nat, w: nat)
  {
    || start in live || start == first || start == last
    || (exists q :: q in live && q in bs && bs[q] == start)
    || (exists a :: Fits(bs, live, first, last, a, w))
  }

  /** start is in use, or is not the end of a free block: no block before it can absorb it. */
  ghost predicate Anchored(bs: Blocks, live: set<nat>, first: nat, last: nat, start: nat) {
    || start in live || start == first || start == last
    || (exists q :: q in live && q in bs && bs[q] == start)
  }

  lemma AnchoredEnds(bs: Blocks, live: set<nat>, first: nat, last: nat, start: nat, w: nat)
    requires Anchored(bs, live, first, last, start)
    ensures Ends(bs, live, first, last, start, w)
  {
  }

  /** The block after one in use cannot be absorbed. */
  lemma AfterLiveIsAnchored(bs: Blocks, live: set<nat>, first: nat, last: nat, p: nat)
    requires p in live && p in bs
    ensures Anchored(bs, live, first, last, bs[p])
  {
  }

  /** A start that ended a search in vain is still anchored when the heap has grown. */
  lemma AnchoredStays(m: Memory, bs: Blocks, live: set<nat>, m': Memory, bs': Blocks, p: nat,
                      first: nat, last: nat, last': nat, start: nat, w: nat)
    requires Ends(bs, live, first, last, start, w) && forall a: nat :: !Fits(bs, live, first, last, a, w)
    requires LiveKept(m, bs, live, m', bs') && p == last
    ensures Anchored(bs', live + {p}, first, last', start)
  {
    hide Fits;
    if q :| q in live && q in bs && bs[q] == start {
      assert q in live + {p} && q in bs' && bs'[q] == start;
    }
  }

  /** Nothing fits in the part of the heap left behind. */
  lemma ScannedHoldsNothing(m: Memory, bs: Blocks, live: set<nat>, first: nat, last: nat,
                            start: nat, wrapped: bool, h: nat, a: nat, w: nat)
    requires Tiled(m, bs, live, first, last) && w >= 1 && Scanned(bs, live, last, start, wrapped, h, w)
    requires start in bs || start == last || (wrapped && h > start)
    requires LeftBehind(start, wrapped, h, a)
    ensures !Fits(bs, live, first, last, a, w)
  {
    if Fits(bs, live, first, last, a, w) {
      var g := BlockOf(m, bs, live, first, last, a);
      SettledHoldsNothing(m, bs, live, first, last, g, a, w);
    }
  }

  lemma ScannedMore(bs: Blocks, bs': Blocks, live: set<nat>, last: nat, start: nat, wrapped: bool, h: nat, w: nat)
    requires Scanned(bs, live, last, start, wrapped, h, w) && Merged(bs, h, bs') && Settled(bs', live, last, h, w)
    ensures Scanned(bs', live, last, start, wrapped, bs'[h], w)
  {
  }

  /** The scan cannot run past its start. */
  lemma StartIsNotPassed(m: Memory, bs: Blocks, live: set<nat>, first: nat, last: nat, start: nat, h: nat, w: nat)
    requires Tiled(m, bs, live, first, last) && h in bs && h < start <= last && w >= 1
    requires Scanned(bs, live, last, start, true, bs[h], w) && Ends(bs, live, first, last, start, w)
    ensures bs[h] <= start
  {
    if a :| bs[h] > start && Fits(bs, live, first, last, a, w) {
      ScannedHoldsNothing(m, bs, live, first, last, start, true, bs[h], a, w);
    }
  }

  lemma EndsKept(m: Memory, bs: Blocks, m': Memory, bs': Blocks, live: set<nat>,
                 first: nat, last: nat, start: nat, w: nat)
    requires LiveKept(m, bs, live, m', bs')
    ensures Ends(bs, live, first, last, start, w) <==> Ends(bs', live, first, last, start, w)
    ensures forall a :: Fits(bs, live, first, last, a, w) <==> Fits(bs', live, first, last, a, w)
  {
    forall a ensures Fits(bs, live, first, last, a, w) <==> Fits(bs', live, first, last, a, w) {
    }
  }

  /** In the order of the scan from start, no fit comes before h. */
  ghost predicate NoneEarlier(bs: Blocks, live: set<nat>, first: nat, last: nat, start: nat, h: nat, w: nat) {
    forall a: nat :: Fits(bs, live, first, last, a, w) ==>
      if start <= h then a < start || h <= a else h <= a < start
  }

  /** What the loop of the scan knows when it looks at h. */
  ghost predicate Scanning(m0: Memory, bs0: Blocks, m: Memory, bs: Blocks, live: set<nat>, first: nat, last: nat,
                           start: nat, h: nat, w: nat)
  {
    && Tiled(m, bs, live, first, last) && LiveKept(m0, bs0, live, m, bs)
    && Ends(bs, live, first, last, start, w)
    && Scanned(bs, live, last, start, h < start, h, w)
    && (h in bs || h == last) && (start in bs || start == last)
  }

  lemma ScanStarts(m: Memory, bs: Blocks, live: set<nat>, first: nat, last: nat, start: nat, w: nat)
    requires Tiled(m, bs, live, first, last) && Ends(bs, live, first, last, start, w)
    requires start in bs || start == last
    ensures Scanning(m, bs, m, bs, live, first, last, start, start, w)
  {
  }

  lemma FoundFirst(m0: Memory, bs0: Blocks, m: Memory, bs: Blocks, live: set<nat>, first: nat, last: nat,
                   start: nat, h: nat, w: nat)
    requires Scanning(m0, bs0, m, bs, live, first, last, start, h, w) && w >= 1
    ensures NoneEarlier(bs0, live, first, last, start, h, w)
  {
    hide Shape, Flags, Scanned, Settled, Ends;
    forall a: nat | Fits(bs0, live, first, last, a, w)
      ensures if start <= h then a < start || h <= a else h <= a < start
    {
      assert Fits(bs, live, first, last, a, w);
      if LeftBehind(start, h < start, h, a) {
        ScannedHoldsNothing(m, bs, live, first, last, start, h < start, h, a, w);
      }
    }
  }

  /** From a block that is settled now the scan goes on to the next block, or is over. */
  lemma ScanGoesOn(m0: Memory, bs0: Blocks, m: Memory, bs: Blocks, m': Memory, bs': Blocks, live: set<nat>,
                   first: nat, last: nat, start: nat, h: nat, w: nat)
    requires Scanning(m0, bs0, m, bs, live, first, last, start, h, w) && h in bs && w >= 1
    requires Tiled(m', bs', live, first, last) && LiveKept(m, bs, live, m', bs') && Merged(bs, h, bs')
    requires Settled(bs', live, last, h, w)
    ensures h < start ==> bs'[h] <= start
    ensures bs'[h] != start ==> Scanning(m0, bs0, m', bs', live, first, last, start, bs'[h], w)
    ensures bs'[h] == start ==> forall a: nat :: !Fits(bs0, live, first, last, a, w)
  {
    EndsKept(m, bs, m', bs', live, first, last, start, w);
    ScannedMore(bs, bs', live, last, start, h < start, h, w);
    if h < start {
      StartIsNotPassed(m', bs', live, first, last, start, h, w);
    }
    assert Leads(bs', last, h);
    if bs'[h] == start {
      forall a: nat ensures !Fits(bs0, live, first, last, a, w) {
        if Fits(bs0, live, first, last, a, w) {
          assert Fits(bs', live, first, last, a, w);
          ScannedHoldsNothing(m', bs', live, first, last, start, true, bs'[h], a, w);
        }
      }
    }
  }

  /** From the end marker the scan wraps round to the first block, or is over. */
  lemma ScanWraps(m0: Memory, bs0: Blocks, m: Memory, bs: Blocks, live: set<nat>, first: nat, last: nat,
                  start: nat, w: nat)
    requires Scanning(m0, bs0, m, bs, live, first, last, start, last, w) && w >= 1
    ensures start <= last
    ensures first != start ==> Scanning(m0, bs0, m, bs, live, first, last, start, first, w) && first < start
    ensures first == start ==> forall a: nat :: !Fits(bs0, live, first, last, a, w)
  {
    if first == start {
      forall a: nat ensures !Fits(bs0, live, first, last, a, w) {
        if Fits(bs0, live, first, last, a, w) {
          assert Fits(bs, live, first, last, a, w);
          ScannedHoldsNothing(m, bs, live, first, last, start, false, last, a, w);
        }
      }
    }
  }

  // ---------------------------------------------------------------------------------------------
  // The operations

  class Allocator {
    var mem: Memory
    /** The break: the first word the process does not have. */
    var brk: nat
    var first: nat
    var last: nat
    var mallocP: nat
    ghost var bs: Blocks
    ghost var live: set<nat>

    ghost predicate Valid()
      reads this
    {
      && brk >= 1
      && if mallocP == 0 then bs == map[] && live == {}
         else Tiled(mem, bs, live, first, last) && brk == last + 1 && first >= 1
              && (mallocP in bs || mallocP == last)
    }

    constructor (brk: nat)
      requires brk >= 1
      ensures Valid() && live == {} && this.brk == brk && mallocP == 0
    {
      this.brk := brk;
      mem, first, last, mallocP := map[], 0, 0, 0;
      bs, live := map[], {};
    }

    /** The inner loop: the free block h takes in all the free blocks that follow it. */
    method Coalesce(h: nat)
      requires Tiled(mem, bs, live, first, last) && h in bs && h !in live
      modifies this`mem, this`bs
      ensures Tiled(mem, bs, live, first, last) && LiveKept(old(mem), old(bs), live, mem, bs)
      ensures h in bs && Merged(old(bs), h, bs) && (bs[h] in live || bs[h] == last)
    {
      hide Shape, Flags, LiveKept;
      NothingChanged(mem, bs, live, first, last, h);
      while !Busy(mem, Next(mem, h))
        invariant Tiled(mem, bs, live, first, last) && LiveKept(old(mem), old(bs), live, mem, bs)
        invariant Merged(old(bs), h, bs)
        decreases last - bs[h]
      {
        ghost var n := bs[h];
        NextBlock(mem, bs, live, first, last, h);
        NextBlock(mem, bs, live, first, last, n);
        Absorb(old(mem), old(bs), mem, bs, live, first, last, h);
        mem := mem[h := Word(mem, Next(mem, h))];
        bs := (bs - {n})[h := bs[n]];
      }
      NextBlock(mem, bs, live, first, last, h);
      NextBlock(mem, bs, live, first, last, bs[h]);
    }

    /** The search of ibcs_malloc for a free block of w words, from the block after the one it last
        allocated or freed; found is false once it is back where it started. */
    method Scan(w: nat) returns (found: bool, h: nat)
      requires Tiled(mem, bs, live, first, last) && (mallocP in bs || mallocP == last)
      requires w >= 1 && Ends(bs, live, first, last, mallocP, w)
      modifies this`mem, this`bs
      ensures Tiled(mem, bs, live, first, last) && LiveKept(old(mem), old(bs), live, mem, bs)
      ensures found ==> h in bs && h !in live && h + w <= bs[h]
      ensures found ==> NoneEarlier(old(bs), live, first, last, mallocP, h, w)
      ensures !found ==> mallocP in bs || mallocP == last
      ensures !found ==> forall a: nat :: !Fits(old(bs), live, first, last, a, w)
    {
      hide Shape, Flags, LiveKept, Scanned, Merged, Ends, Fits, NoneEarlier;
      h := mallocP;
      ScanStarts(mem, bs, live, first, last, mallocP, w);
      while true
        invariant Scanning(old(mem), old(bs), mem, bs, live, first, last, mallocP, h, w)
        decreases mallocP <= h, last - h
      {
        ghost var m, b := mem, bs;
        NextBlock(m, b, live, first, last, h);
        NothingChanged(m, b, live, first, last, h);
        if !Busy(mem, h) {
          Coalesce(h);
          LiveKeptTwice(old(mem), old(bs), m, b, mem, bs, live);
          NextBlock(mem, bs, live, first, last, h);
          if Next(mem, h) - h >= w {
            FoundFirst(old(mem), old(bs), m, b, live, first, last, mallocP, h, w);
            return true, h;
          }
        }
        if h in bs {
          ScanGoesOn(old(mem), old(bs), m, b, mem, bs, live, first, last, mallocP, h, w);
        } else {
          ScanWraps(old(mem), old(bs), mem, bs, live, first, last, mallocP, w);
        }
        h := Next(mem, h);
        if h == mallocP {
          return false, h;
        }
      }
    }

    /** The brk system call moving the break to a; it always succeeds here. */
    method Brk(a: nat) returns (r: nat)
      requires a >= brk
      modifies this`brk
      ensures r == a == brk
    {
      brk := a;
      r := a;
    }

    /** The tail of the search: w words of the free block p, split off if it is larger. */
    method Take(p: nat, w: nat)
      requires Tiled(mem, bs, live, first, last) && p in bs && p !in live && w >= 1 && p + w <= bs[p]
      modifies this`mem, this`mallocP, this`bs, this`live
      ensures Tiled(mem, bs, live, first, last) && LiveKept(old(mem), old(bs), old(live), mem, bs)
      ensures live == old(live) + {p} && p in bs && bs[p] == p + w
      ensures Fits(old(bs), old(live), first, last, p, w)
      ensures mallocP == p + w && (mallocP in bs || mallocP == last)
    {
      hide Shape, Flags, LiveKept, Fits;
      NextBlock(mem, bs, live, first, last, p);
      NothingChanged(mem, bs, live, first, last, p);
      var size := Next(mem, p) - p;
      if size > w {
        Split(mem, bs, live, first, last, p, w);
        mem := mem[p + w := Word(mem, p)];
        mem := mem[p := Header(p + w, false)];
        bs := bs[p + w := bs[p]][p := p + w];
        EndsKept(old(mem), old(bs), mem, bs, live, first, last, 0, w);
      }
      NextBlock(mem, bs, live, first, last, p);
      mallocP := Next(mem, p);
      Claim(mem, bs, live, first, last, p);
      ghost var m := mem;
      mem := mem[p := Word(mem, p) + 1];
      LiveKeptTwice(old(mem), old(bs), m, bs, mem, bs, live);
      live := live + {p};
    }

    /** The end of ibcs_malloc: a new block of w words at the end of the heap. */
    method Extend(w: nat) returns (p: nat)
      requires w >= 1 && brk >= 1
      requires mallocP != 0 ==> Tiled(mem, bs, live, first, last) && brk == last + 1 && first >= 1
      requires mallocP == 0 ==> bs == map[] && live == {}
      modifies this`mem, this`brk, this`first, this`last, this`mallocP, this`bs, this`live
      ensures Tiled(mem, bs, live, first, last) && LiveKept(old(mem), old(bs), old(live), mem, bs)
      ensures live == old(live) + {p} && p !in old(live) && p in bs && bs[p] == p + w == last && brk == last + 1
      ensures first >= 1 && mallocP >= 1
      ensures old(mallocP) != 0 ==> p == old(last) && first == old(first) && mallocP == old(mallocP)
                                    && bs.Keys == old(bs).Keys + {p}
      ensures old(mallocP) == 0 ==> p == first == mallocP == old(brk)
    {
      hide Shape, Flags, LiveKept;
      if mallocP == 0 {
        p := brk;
        first, last, mallocP := p, p, p;
      } else {
        p := brk;
      }
      if last + 1 == p {
        p := last;
      }
      ghost var m, b := mem, bs;
      var n := Brk(p + w + 1);
      n := n - 1;
      mem := mem[last := Header(n, true)];
      mem := mem[p := Header(n, true)];
      mem := mem[n := Header(first, true)];
      bs := bs[p := n];
      assert mem == m[p := Header(n, true)][n := Header(first, true)];
      if old(mallocP) == 0 {
        FirstBlock(m, mem, p, n);
        assert bs == map[p := n] && live + {p} == {p};
      } else {
        Grow(m, b, live, first, last, w);
      }
      last := n;
      live := live + {p};
    }

    /** ibcs_malloc: the word address of a payload of at least the wanted number of bytes. The next search
        starts at the block after it, or where this one started if the heap had to grow, and whatever is
        asked for next, that search ends. */
    method Malloc(wanted: nat) returns (r: nat)
      requires Valid() && wanted < 0x1_0000_0000
      requires mallocP != 0 ==> Ends(bs, live, first, last, mallocP, Units(wanted))
      modifies this
      ensures Valid() && mallocP != 0 && r >= 1 && Anchored(bs, live, first, last, mallocP)
      ensures r - 1 !in old(live) && live == old(live) + {r - 1}
      ensures r - 1 in bs && bs[r - 1] == r - 1 + Units(wanted)
      ensures LiveKept(old(mem), old(bs), old(live), mem, bs)
      ensures old(mallocP) != 0 ==>
                && first == old(first)
                && if exists a: nat :: Fits(old(bs), old(live), first, old(last), a, Units(wanted))
                   then && last == old(last) && brk == old(brk)
                        && Fits(old(bs), old(live), first, last, r - 1, Units(wanted))
                        && NoneEarlier(old(bs), old(live), first, last, old(mallocP), r - 1, Units(wanted))
                        && mallocP == r - 1 + Units(wanted)
                   else r == old(brk) && last == old(last) + Units(wanted) && mallocP == old(mallocP)
      ensures old(mallocP) == 0 ==>
                r == old(brk) + 1 && first == mallocP == old(brk) && last == first + Units(wanted)
    {
      hide Shape, Flags, LiveKept, Fits, Ends, NoneEarlier;
      var w := Units(wanted);
      if mallocP != 0 {
        var found, h := Scan(w);
        ghost var m, b := mem, bs;
        EndsKept(old(mem), old(bs), m, b, live, first, last, 0, w);
        if found {
          Take(h, w);
          LiveKeptTwice(old(mem), old(bs), m, b, mem, bs, old(live));
          AfterLiveIsAnchored(bs, live, first, last, h);
          return h + 1;
        }
        ghost var oldLast := last;
        var p := Extend(w);
        LiveKeptTwice(old(mem), old(bs), m, b, mem, bs, old(live));
        AnchoredStays(old(mem), old(bs), old(live), mem, bs, p, first, oldLast, last, mallocP, w);
        return p + 1;
      }
      var p := Extend(w);
      return p + 1;
    }

    /** ibcs_free of a payload that is still allocated. */
    method Free(blk: nat)
      requires Valid() && blk >= 1 && blk - 1 in live
      modifies this`mem, this`mallocP, this`live
      ensures Valid() && live == old(live) - {blk - 1} && mallocP == blk - 1
      ensures LiveKept(old(mem), bs, live, mem, bs)
    {
      hide Shape, Flags, LiveKept;
      var p := blk - 1;
      Release(mem, bs, live, first, last, p);
      mem := mem[p := Word(mem, p) - 1];
      mallocP := p;
      live := live - {p};
    }
  }

  /** Next fit, over two calls. The second search starts at the block right after the one the first call
      took, or where the first search started if the heap had to grow, and gets the first place from there
      on, round the heap, at which its block fits. It always returns. */
  method TwoCalls(h: Allocator, a: nat, b: nat)
    returns (r: nat, q: nat, ghost start: nat, ghost bs: Blocks, ghost live: set<nat>, ghost last: nat)
    requires h.Valid() && h.mallocP != 0 && a < 0x1_0000_0000 && b < 0x1_0000_0000
    requires Ends(h.bs, h.live, h.first, h.last, h.mallocP, Units(a))
    modifies h
    ensures h.Valid() && h.first == old(h.first) && r >= 1 && q >= 1
    ensures live == old(h.live) + {r - 1} && r - 1 in bs && bs[r - 1] == r - 1 + Units(a)
    ensures if exists x: nat :: Fits(old(h.bs), old(h.live), h.first, old(h.last), x, Units(a))
            then start == r - 1 + Units(a) && last == old(h.last)
            else start == old(h.mallocP) && r == old(h.brk)
    ensures if exists x: nat :: Fits(bs, live, h.first, last, x, Units(b))
            then && Fits(bs, live, h.first, last, q - 1, Units(b))
                 && NoneEarlier(bs, live, h.first, last, start, q - 1, Units(b))
                 && h.mallocP == q - 1 + Units(b)
            else q == last + 1 && h.mallocP == start
  {
    hide Fits, NoneEarlier, Tiled, Ends, Anchored, LiveKept;
    r := h.Malloc(a);
    start, bs, live, last := h.mallocP, h.bs, h.live, h.last;
    AnchoredEnds(bs, live, h.first, last, start, Units(b));
    q := h.Malloc(b);
  }
}
