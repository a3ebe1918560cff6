/** How a call of short_inode_map comes never to return: two evictions past a shared home slot. */
module ShortInodeHang {
  import opened LruRing
  import opened HashChains
  import opened ShortInode

  /** si and nx are the two slots of one chain. */
  ghost predicate PairChain(t: Table, si: Slot, nx: Slot) {
    && si != nx && t[si].Used() && t[nx].Used()
    && t[si].hashNext == t[si].hashPrev == nx && t[nx].hashNext == t[nx].hashPrev == si
  }

  ghost predicate LoneChain(t: Table, h: Slot) {
    t[h].Used() && t[h].hashNext == t[h].hashPrev == h
  }

  /** Once the home slot si is evicted, nx still names si as the slot before it. */
  lemma FirstEviction(t: Table, si: Slot, nx: Slot, h: Slot, ino: Ino)
    requires PairChain(t, si, nx) && LoneChain(t, h) && h != si && h != nx
    requires SHORT_INODE_UNMAPPED < ino != SHORT_INODE_UNUSED
    ensures var t' := AllocOldest(t, si, si, ino);
            && t'[si].ino == ino && t'[si].hashNext == t'[si].hashPrev == si
            && t'[nx].ino == t[nx].ino && t'[nx].hashNext == nx && t'[nx].hashPrev == si
            && LoneChain(t', h) && t'[h].ino == t[h].ino
  {
  }

  /** Taking nx off its chain then writes the link of si, which leads to a chain that si is not on. */
  lemma SecondEviction(t: Table, si: Slot, nx: Slot, h: Slot, ino: Ino)
    requires si != nx && h != si && h != nx && t[si].Used() && t[nx].Used() && LoneChain(t, h)
    requires t[nx].hashNext == nx && t[nx].hashPrev == si && SHORT_INODE_UNMAPPED < ino != SHORT_INODE_UNUSED
    ensures var t' := AllocOldest(t, h, nx, ino);
            && t'[si].hashNext == nx && t'[nx].hashNext == h && t'[h].hashNext == nx
            && t'[si].ino == t[si].ino && t'[nx].ino == ino && t'[h].ino == t[h].ino
  {
  }

  /** A walk that enters a cycle it did not start from. */
  lemma {:induction false} WalkGoesRound(t: Table, si: Slot, nx: Slot, h: Slot, n: nat)
    requires t[si].hashNext == nx && t[nx].hashNext == h && t[h].hashNext == nx && 1 <= n
    ensures WalkAt(HashNexts(t), si, n) == nx || WalkAt(HashNexts(t), si, n) == h
  {
    if n > 1 {
      WalkGoesRound(t, si, nx, h, n - 1);
    } else {
      assert WalkAt(HashNexts(t), si, 0) == si;
    }
  }

  lemma RoundNeverReturns(t: Table, nx: Slot, h: Slot, ino: Ino)
    requires var si := HashVal(ino);
             && t[si].hashNext == nx && t[nx].hashNext == h && t[h].hashNext == nx && si != nx && si != h
             && t[si].Used() && t[si].ino != ino && t[nx].ino != ino && t[h].ino != ino
    ensures !CallReturns(t, ino)
  {
    hide HashVal;
    forall n | 1 <= n ensures !WalkStops(t, ino, n) {
      WalkGoesRound(t, HashVal(ino), nx, h, n);
    }
  }

  /** Evicting the home slot si of a chain of two, and then the other slot of that chain for an inode whose
      home is elsewhere, leaves a table in which no call for a further inode with the home si returns. */
  lemma TwoEvictionsHang(t: Table, si: Slot, nx: Slot, h: Slot, i1: Ino, i2: Ino, i3: Ino)
    requires PairChain(t, si, nx) && LoneChain(t, h) && h != si && h != nx
    requires SHORT_INODE_UNMAPPED < i1 != SHORT_INODE_UNUSED && SHORT_INODE_UNMAPPED < i2 != SHORT_INODE_UNUSED
    requires HashVal(i3) == si && i3 != i1 && i3 != i2 && i3 != t[h].ino
    ensures !CallReturns(AllocOldest(AllocOldest(t, si, si, i1), h, nx, i2), i3)
  {
    hide AllocOldest, HashVal;
    FirstEviction(t, si, nx, h, i1);
    var t1 := AllocOldest(t, si, si, i1);
    SecondEviction(t1, si, nx, h, i2);
    RoundNeverReturns(AllocOldest(t1, h, nx, i2), nx, h, i3);
  }

  // ---------------------------------------------------------------------------------------------
  // A run that gets there

  lemma Homes()
    ensures HashVal(3) == HashVal(0x1_0002) == HashVal(0x2_0001) == HashVal(0x3_0000) == 0 && HashVal(0x1_0004) == 2
  {
    assert Xor(2, 1) == Xor(1, 2) == Xor(0, 3) == 3 && Xor(4, 1) == 5;
  }

  /** The order k, k + 1, ... round to k - 1. */
  ghost predicate Rotated(order: seq<nat>, k: nat) {
    && |order| == SHORT_INODE_MAX
    && forall j :: 0 <= j < SHORT_INODE_MAX ==>
         order[j] == if j + k < SHORT_INODE_MAX then j + k else j + k - SHORT_INODE_MAX
  }

  lemma RotatesOn(order: seq<nat>, pos: seq<nat>, order': seq<nat>, pos': seq<nat>, k: nat, si: Slot)
    requires Rotated(order, k) && Permutation(order, pos) && k < SHORT_INODE_MAX && si == order[0]
    requires Moved(order, pos, order', pos', si)
    ensures Rotated(order', k + 1)
  {
    assert pos[order[0]] == 0;
  }

  lemma FieldsKept(t: Table, t': Table)
    requires SameButRing(t, t')
    ensures forall i: Slot :: t'[i].hashNext == t[i].hashNext && t'[i].hashPrev == t[i].hashPrev
    ensures forall i: Slot :: (t'[i].Used() <==> t[i].Used()) && (t[i].Used() ==> t'[i].ino == t[i].ino)
  {
    forall i: Slot ensures t'[i].hashNext == t[i].hashNext && t'[i].hashPrev == t[i].hashPrev {
      assert HashNexts(t')[i] == t'[i].hashNext && HashPrevs(t')[i] == t'[i].hashPrev;
      assert HashNexts(t)[i] == t[i].hashNext && HashPrevs(t)[i] == t[i].hashPrev;
    }
  }

  /** The first inode, at its home slot 0. */
  ghost predicate One(t: Table) {
    LoneChain(t, 0) && t[0].ino == 3 && forall i: Slot :: i >= 1 ==> !t[i].Used()
  }

  /** A second inode of the same home at slot 1, and the inodes 5, 6, ... at their homes below slot k. */
  ghost predicate Filled(t: Table, k: nat) {
    && PairChain(t, 0, 1) && t[0].ino == 3 && t[1].ino == 0x1_0002
    && (k > 2 ==> LoneChain(t, 2) && t[2].ino == 5)
    && (forall i: Slot :: i >= k ==> !t[i].Used())
    && (forall i: Slot :: 2 <= i < k ==> t[i].Used() && t[i].ino <= 0xffff)
  }

  lemma MapsOne(t: Table, t': Table)
    requires (forall i: Slot :: !t[i].Used()) && SameButRing(AllocHome(t, 0, 3), t')
    ensures One(t')
  {
    hide SameButRing;
    FieldsKept(AllocHome(t, 0, 3), t');
  }

  lemma MapsTwo(t: Table, t': Table)
    requires One(t) && SameButRing(AllocOldest(t, 0, 1, 0x1_0002), t')
    ensures Filled(t', 2)
  {
    hide SameButRing;
    var a := AllocOldest(t, 0, 1, 0x1_0002);
    FieldsKept(a, t');
    hide AllocOldest;
    TwoAllocated(t);
  }

  lemma TwoAllocated(t: Table)
    requires One(t)
    ensures Filled(AllocOldest(t, 0, 1, 0x1_0002), 2)
  {
  }

  lemma Fills(t: Table, t': Table, k: Slot)
    requires Filled(t, k) && k >= 2 && SameButRing(AllocHome(t, k, k + 3), t')
    ensures Filled(t', k + 1)
  {
    hide SameButRing;
    var a := AllocHome(t, k, k + 3);
    FieldsKept(a, t');
  }

  /** Slot 0 alone but still named by slot 1, and slot 2 alone. */
  ghost predicate Broken(t: Table) {
    && t[0].ino == 0x2_0001 && t[1].ino == 0x1_0002 && t[2].ino == 5 && LoneChain(t, 2)
    && t[1].hashNext == 1 && t[1].hashPrev == 0
    && forall i: Slot :: t[i].Used() && t[i].ino != 0x1_0004 && t[i].ino != 0x3_0000
  }

  lemma Breaks(t: Table, t': Table)
    requires Filled(t, SHORT_INODE_MAX) && SameButRing(AllocOldest(t, 0, 0, 0x2_0001), t')
    ensures Broken(t')
  {
    hide SameButRing;
    var a := AllocOldest(t, 0, 0, 0x2_0001);
    FieldsKept(a, t');
    FirstEviction(t, 0, 1, 2, 0x2_0001);
    AllocOldestKeepsRing(t, 0, 0, 0x2_0001);
    hide AllocOldest;
  }

  lemma Hangs(t: Table, t': Table)
    requires Broken(t) && SameButRing(AllocOldest(t, 2, 1, 0x1_0004), t')
    ensures !CallReturns(t', 0x3_0000)
  {
    var a := AllocOldest(t, 2, 1, 0x1_0004);
    SecondEviction(t, 0, 1, 2, 0x1_0004);
    hide AllocOldest;
    FieldsKept(a, t');
    hide SameButRing;
    Homes();
    hide HashVal;
    RoundNeverReturns(t', 1, 2, 0x3_0000);
  }

  lemma StopsAt(t: Table, ino: Ino, n: nat)
    requires 1 <= n && WalkAt(HashNexts(t), HashVal(ino), n) == HashVal(ino)
    ensures CallReturns(t, ino)
  {
    assert WalkStops(t, ino, n);
  }

  lemma LoneReturns(t: Table, ino: Ino)
    requires LoneChain(t, HashVal(ino))
    ensures CallReturns(t, ino)
  {
    hide HashVal;
    assert WalkAt(HashNexts(t), HashVal(ino), 0) == HashVal(ino);
    StopsAt(t, ino, 1);
  }

  lemma PairReturns(t: Table, nx: Slot, ino: Ino)
    requires PairChain(t, HashVal(ino), nx)
    ensures CallReturns(t, ino)
  {
    hide HashVal;
    assert WalkAt(HashNexts(t), HashVal(ino), 0) == HashVal(ino);
    assert WalkAt(HashNexts(t), HashVal(ino), 1) == nx;
    StopsAt(t, ino, 2);
  }

  /** The call for an inode whose home slot is unused. */
  method MapHome(m: ShortInodeMap, ino: Ino, ghost k: nat)
    requires m.Valid() && SHORT_INODE_UNMAPPED < ino && !m.table[HashVal(ino)].Used()
    requires Rotated(m.order, k) && k < SHORT_INODE_MAX && HashVal(ino) == k
    modifies m, m.table
    ensures m.Valid() && m.table == old(m.table) && Rotated(m.order, k + 1)
    ensures SameButRing(AllocHome(old(m.table[..]), HashVal(ino), ino), m.table[..])
  {
    hide HashVal, Ring, Moved, Rotated, Rehashed, UnusedFirst, AllocHome, SameButRing;
    ghost var o, p := m.order, m.pos;
    RingIsPermutation(LruNexts(m.table[..]), LruPrevs(m.table[..]), o, p);
    var returned, r := m.Map(ino);
    FirstOf(o, k);
    RotatesOn(o, p, m.order, m.pos, k, SlotOf(r));
  }

  lemma FirstOf(order: seq<nat>, k: nat)
    requires Rotated(order, k)
    ensures |order| == SHORT_INODE_MAX && (k < SHORT_INODE_MAX ==> order[0] == k)
  {
  }

  /** The call for an inode that no slot holds and whose home slot is in use. */
  method MapOldest(m: ShortInodeMap, ino: Ino, ghost k: nat)
    requires m.Valid() && SHORT_INODE_UNMAPPED < ino && m.table[HashVal(ino)].Used() && CallReturns(m.table[..], ino)
    requires Rotated(m.order, k) && k < SHORT_INODE_MAX && forall i: Slot :: m.table[i].ino != ino
    modifies m, m.table
    ensures m.Valid() && m.table == old(m.table) && Rotated(m.order, k + 1)
    ensures SameButRing(AllocOldest(old(m.table[..]), HashVal(ino), k, ino), m.table[..])
  {
    hide HashVal, Ring, Moved, Rotated, Rehashed, UnusedFirst, AllocOldest, SameButRing, CallReturns;
    ghost var o, p := m.order, m.pos;
    RingIsPermutation(LruNexts(m.table[..]), LruPrevs(m.table[..]), o, p);
    var returned, r := m.Map(ino);
    FirstOf(o, k);
    RotatesOn(o, p, m.order, m.pos, k, SlotOf(r));
  }

  lemma RotatedRound(order: seq<nat>)
    requires Rotated(order, SHORT_INODE_MAX)
    ensures Rotated(order, 0)
  {
  }

  /** Inodes 3 and 0x10002 have slot 0 as home. With the table filled by 5, 6, ..., two more inodes evict
      slots 0 and 1, and after that the call for 0x30000 never returns. */
  method HangingRun() returns (m: ShortInodeMap)
    ensures fresh(m) && m.Valid() && !CallReturns(m.table[..], 0x3_0000)
  {
    hide HashVal, Rotated, SameButRing, AllocHome, AllocOldest, CallReturns, Ring, Filled, Broken;
    Homes();
    m := new ShortInodeMap();
    StartsRotated(m.order);
    ghost var t: Table := m.table[..];
    MapHome(m, 3, 0);
    MapsOne(t, m.table[..]);
    t := m.table[..];
    LoneReturns(t, 0x1_0002);
    MapOldest(m, 0x1_0002, 1);
    MapsTwo(t, m.table[..]);
    for k := 2 to SHORT_INODE_MAX
      invariant fresh(m) && fresh(m.table) && m.Valid() && Filled(m.table[..], k) && Rotated(m.order, k)
    {
      t := m.table[..];
      HomeIsFree(t, k);
      MapHome(m, k + 3, k);
      Fills(t, m.table[..], k);
    }
    RotatedRound(m.order);
    t := m.table[..];
    Evictable(t);
    MapOldest(m, 0x2_0001, 0);
    Breaks(t, m.table[..]);
    t := m.table[..];
    EvictableAgain(t);
    MapOldest(m, 0x1_0004, 1);
    Hangs(t, m.table[..]);
  }

  lemma StartsRotated(order: seq<nat>)
    requires order == seq(SHORT_INODE_MAX, i => i)
    ensures Rotated(order, 0)
  {
  }

  lemma HomeIsFree(t: Table, k: Slot)
    requires Filled(t, k)
    ensures HashVal(k + 3) == k && !t[k].Used()
  {
    HashValIdentity(k + 3);
  }

  lemma Evictable(t: Table)
    requires Filled(t, SHORT_INODE_MAX)
    ensures HashVal(0x2_0001) == 0 && t[0].Used() && CallReturns(t, 0x2_0001) && forall i: Slot :: t[i].ino != 0x2_0001
  {
    Homes();
    hide HashVal;
    PairReturns(t, 1, 0x2_0001);
    hide CallReturns;
  }

  lemma EvictableAgain(t: Table)
    requires Broken(t)
    ensures HashVal(0x1_0004) == 2 && t[2].Used() && CallReturns(t, 0x1_0004) && forall i: Slot :: t[i].ino != 0x1_0004
  {
    Homes();
    hide HashVal;
    LoneReturns(t, 0x1_0004);
    hide CallReturns;
  }
}
