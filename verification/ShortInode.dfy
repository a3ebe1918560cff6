/** ibcs/short-inode.c: 32-bit inodes mapped to 16-bit ones through one table that is at once a
    coalesced hash table and a lazily initialised LRU ring. */
module ShortInode {
  import opened LruRing
  import opened HashChains

  type Ino = x: int | 0 <= x < 0x1_0000_0000

  const SHORT_INODE_UNMAPPED := 2
  const SHORT_INODE_MAX := 0x10000 - (SHORT_INODE_UNMAPPED + 1)
  const SHORT_INODE_UNUSED: Ino := 0xffff_ffff
  const ENOENT := 2

  /** An index of the table; the link fields only ever hold these. */
  type Slot = x: int | 0 <= x < SHORT_INODE_MAX

  datatype Element = Element(ino: Ino, lruPrev: Slot, lruNext: Slot, hashPrev: Slot, hashNext: Slot) {
    predicate Used() { ino != 0 && ino != SHORT_INODE_UNUSED }
  }

  const ZERO := Element(0, 0, 0, 0, 0)

  /** The contents of the table. */
  type Table = t: seq<Element> | |t| == SHORT_INODE_MAX witness seq(SHORT_INODE_MAX, _ => ZERO)

  // ---------------------------------------------------------------------------------------------
  // Hash value

  /** Exclusive or, bit by bit. */
  function Xor(a: nat, b: nat): nat {
    if a == 0 && b == 0 then 0 else (a + b) % 2 + 2 * Xor(a / 2, b / 2)
  }

  lemma {:induction false} XorZero(a: nat)
    ensures Xor(a, 0) == a
  {
    if a > 0 {
      XorZero(a / 2);
    }
  }

  function HashVal(ino: Ino): (r: Slot) {
    var low := ino % 0x10000;
    var h := if ino > SHORT_INODE_MAX then Xor(low, ino / 0x10000) else low;
    (h + SHORT_INODE_MAX - SHORT_INODE_UNMAPPED - 1) % SHORT_INODE_MAX
  }

  /** Bit i of a number. */
  predicate Bit(x: nat, i: nat) {
    if i == 0 then x % 2 == 1 else Bit(x / 2, i - 1)
  }

  function Pow2(n: nat): nat { if n == 0 then 1 else 2 * Pow2(n - 1) }

  /** A bit is set exactly if it is set in one of the two numbers. */
  lemma {:induction false} XorBit(a: nat, b: nat, i: nat)
    ensures Bit(Xor(a, b), i) <==> (Bit(a, i) != Bit(b, i))
    decreases i
  {
    assert Xor(a, b) % 2 == (a + b) % 2 && Xor(a, b) / 2 == Xor(a / 2, b / 2);
    if i > 0 {
      XorBit(a / 2, b / 2, i - 1);
    }
  }

  lemma {:induction false} XorBelow(a: nat, b: nat, n: nat)
    requires a < Pow2(n) && b < Pow2(n)
    ensures Xor(a, b) < Pow2(n)
    decreases n
  {
    if n > 0 {
      XorBelow(a / 2, b / 2, n - 1);
    }
  }

  /** The low bits of a number determine it. */
  lemma {:induction false} BitsDetermine(a: nat, b: nat, n: nat)
    requires a < Pow2(n) && b < Pow2(n) && forall i :: 0 <= i < n ==> (Bit(a, i) <==> Bit(b, i))
    ensures a == b
    decreases n
  {
    if n > 0 {
      forall i | 0 <= i < n - 1 ensures Bit(a / 2, i) <==> Bit(b / 2, i) {
        assert Bit(a, i + 1) <==> Bit(b, i + 1);
      }
      BitsDetermine(a / 2, b / 2, n - 1);
      assert Bit(a, 0) <==> Bit(b, 0);
    }
  }

  /** What is left of x without its n low bits, and those bits. */
  function Half(x: nat, n: nat): nat { if n == 0 then x else Half(x / 2, n - 1) }
  function Low(x: nat, n: nat): nat { if n == 0 then 0 else x % 2 + 2 * Low(x / 2, n - 1) }

  lemma {:induction false} HighBit(x: nat, n: nat, i: nat)
    ensures Bit(x, n + i) <==> Bit(Half(x, n), i)
    decreases n
  {
    if n > 0 {
      HighBit(x / 2, n - 1, i);
    }
  }

  lemma {:induction false} LowBit(x: nat, n: nat, i: nat)
    requires i < n
    ensures Bit(Low(x, n), i) <==> Bit(x, i)
    decreases n
  {
    assert Low(x, n) % 2 == x % 2 && Low(x, n) / 2 == Low(x / 2, n - 1);
    if i > 0 {
      LowBit(x / 2, n - 1, i - 1);
    }
  }

  lemma {:induction false} LowAndHalf(x: nat, n: nat)
    ensures Low(x, n) < Pow2(n) && x == Low(x, n) + Pow2(n) * Half(x, n)
    decreases n
  {
    if n > 0 {
      LowAndHalf(x / 2, n - 1);
      var p, h := Pow2(n - 1), Half(x / 2, n - 1);
      assert 2 * (p * h) == (2 * p) * h;
    }
  }

  lemma Halves(x: nat)
    ensures Low(x, 16) == x % 0x1_0000 && Half(x, 16) == x / 0x1_0000
  {
    LowAndHalf(x, 16);
    PowersOfTwo();
    hide Low, Half, Pow2;
    var q, r := Half(x, 16), Low(x, 16);
    assert x == 0x1_0000 * q + r && 0 <= r < 0x1_0000;
  }

  /** The 16 bits of h are those in which the two halves of the inode differ. */
  ghost predicate HalvesDiffer(ino: Ino, h: nat) {
    h <= 0xffff && forall i :: 0 <= i < 16 ==> (Bit(h, i) <==> (Bit(ino, i) != Bit(ino, 16 + i)))
  }

  /** The number that stands for h: h itself, except that 0, 1 and 2 are never given away. */
  function NumberFor(h: nat): (r: nat)
    requires h <= 0xffff
    ensures SHORT_INODE_UNMAPPED < r <= 0xffff
  {
    if h > SHORT_INODE_UNMAPPED then h else h + SHORT_INODE_MAX
  }

  lemma PowersOfTwo()
    ensures Pow2(16) == 0x1_0000
  {
    assert Pow2(4) == 16 && Pow2(8) == 256;
  }

  /** The home of an inode is the slot of the number that the exclusive or of its halves gives. */
  lemma HomeIs(ino: Ino, h: nat)
    requires HalvesDiffer(ino, h)
    ensures HashVal(ino) + SHORT_INODE_UNMAPPED + 1 == NumberFor(h)
  {
    hide Xor, Bit, Pow2;
    var low, high := ino % 0x1_0000, ino / 0x1_0000;
    var x := Xor(low, high);
    PowersOfTwo();
    XorOfHalves(ino);
    forall i | 0 <= i < 16 ensures Bit(h, i) <==> Bit(x, i) {
      assert Bit(x, i) <==> (Bit(ino, i) != Bit(ino, 16 + i));
    }
    BitsDetermine(h, x, 16);
    XorZero(low);
  }

  /** There is such an h. */
  lemma XorOfHalves(ino: Ino)
    ensures HalvesDiffer(ino, Xor(ino % 0x1_0000, ino / 0x1_0000))
  {
    hide Xor, Bit, Pow2, Low, Half;
    var low, high := ino % 0x1_0000, ino / 0x1_0000;
    PowersOfTwo();
    Halves(ino);
    XorBelow(low, high, 16);
    forall i | 0 <= i < 16 ensures Bit(Xor(low, high), i) <==> (Bit(ino, i) != Bit(ino, 16 + i)) {
      XorBit(low, high, i);
      LowBit(ino, 16, i);
      HighBit(ino, 16, i);
    }
  }

  /** An inode that already fits 16 bits and is not special has its own number as home. */
  lemma HashValIdentity(ino: Ino)
    requires SHORT_INODE_UNMAPPED < ino <= 0xffff
    ensures HashVal(ino) + SHORT_INODE_UNMAPPED + 1 == ino
  {
    hide Xor;
    XorZero(ino);
    assert ino % 0x10000 == ino && ino / 0x10000 == 0;
    var n := ino - SHORT_INODE_UNMAPPED - 1;
    assert (n + SHORT_INODE_MAX) % SHORT_INODE_MAX == n;
  }

  // ---------------------------------------------------------------------------------------------
  // Reading the table: an untouched (all zero) entry stands between its index neighbours

  function After(i: Slot): Slot { (i + 1) % SHORT_INODE_MAX }
  function Before(i: Slot): Slot { (i + SHORT_INODE_MAX - 1) % SHORT_INODE_MAX }

  ghost function LruNexts(t: Table): (r: seq<nat>)
    ensures |r| == SHORT_INODE_MAX && forall i :: 0 <= i < |r| ==> r[i] < SHORT_INODE_MAX
  {
    seq(SHORT_INODE_MAX, i requires 0 <= i < SHORT_INODE_MAX => if t[i].ino == 0 then After(i) else t[i].lruNext)
  }

  ghost function LruPrevs(t: Table): (r: seq<nat>)
    ensures |r| == SHORT_INODE_MAX && forall i :: 0 <= i < |r| ==> r[i] < SHORT_INODE_MAX
  {
    seq(SHORT_INODE_MAX, i requires 0 <= i < SHORT_INODE_MAX => if t[i].ino == 0 then Before(i) else t[i].lruPrev)
  }

  ghost function HashNexts(t: Table): (r: seq<nat>)
    ensures |r| == SHORT_INODE_MAX && forall i :: 0 <= i < |r| ==> r[i] < SHORT_INODE_MAX
  {
    seq(SHORT_INODE_MAX, i requires 0 <= i < SHORT_INODE_MAX => t[i].hashNext)
  }

  ghost function HashPrevs(t: Table): (r: seq<nat>)
    ensures |r| == SHORT_INODE_MAX && forall i :: 0 <= i < |r| ==> r[i] < SHORT_INODE_MAX
  {
    seq(SHORT_INODE_MAX, i requires 0 <= i < SHORT_INODE_MAX => t[i].hashPrev)
  }

  ghost predicate SameLru(t: Table, t': Table) {
    LruNexts(t') == LruNexts(t) && LruPrevs(t') == LruPrevs(t)
  }

  ghost predicate SameHash(t: Table, t': Table) {
    HashNexts(t') == HashNexts(t) && HashPrevs(t') == HashPrevs(t)
  }

  /** Nothing but lazy initialisation happened to the inode fields of slots other than those in s. */
  ghost predicate SameInos(t: Table, t': Table, s: set<Slot>) {
    forall i: Slot :: i !in s ==> t'[i].ino == t[i].ino || (t[i].ino == 0 && t'[i].ino == SHORT_INODE_UNUSED)
  }

  // ---------------------------------------------------------------------------------------------
  // The table updates, as functions

  function LazyInited(t: Table, i: Slot): Table {
    if t[i].ino != 0 then t
    else t[i := Element(SHORT_INODE_UNUSED, Before(i), After(i), t[i].hashPrev, t[i].hashNext)]
  }

  function LruJoined(t: Table, prev: Slot, next: Slot): Table {
    var t1 := LazyInited(LazyInited(t, prev), next);
    var t2 := t1[prev := t1[prev].(lruNext := next)];
    t2[next := t2[next].(lruPrev := prev)]
  }

  function HashJoined(t: Table, prev: Slot, next: Slot): Table {
    var t1 := t[prev := t[prev].(hashNext := next)];
    t1[next := t1[next].(hashPrev := prev)]
  }

  /** Lazy initialisation is invisible to a reader of the ring. */
  lemma LazyInitedKeeps(t: Table, i: Slot)
    ensures var t' := LazyInited(t, i);
            SameLru(t, t') && SameHash(t, t') && SameInos(t, t', {}) && t'[i].ino != 0
  {
  }

  lemma LruJoinedLinks(t: Table, prev: Slot, next: Slot)
    ensures var t' := LruJoined(t, prev, next);
            && LruNexts(t') == LruNexts(t)[prev := next]
            && LruPrevs(t') == LruPrevs(t)[next := prev]
            && SameHash(t, t') && SameInos(t, t', {})
  {
  }

  lemma HashJoinedLinks(t: Table, prev: Slot, next: Slot)
    ensures var t' := HashJoined(t, prev, next);
            && HashNexts(t') == HashNexts(t)[prev := next]
            && HashPrevs(t') == HashPrevs(t)[next := prev]
            && SameLru(t, t') && (forall i: Slot :: t'[i].ino == t[i].ino)
  {
  }

  lemma SetInoKeeps(t: Table, i: Slot, ino: Ino)
    requires t[i].ino != 0 && ino != 0
    ensures var t' := t[i := t[i].(ino := ino)];
            SameLru(t, t') && SameHash(t, t') && SameInos(t, t', {i})
  {
  }

  // ---------------------------------------------------------------------------------------------
  // What the hash side of the table keeps

  /** The hash links of the slots in use are exactly the links of the chains ch. */
  ghost predicate ChainsOk(t: Table, ch: Chains) {
    && Linked(HashNexts(t), HashPrevs(t), ch)
    && forall i: Slot :: t[i].Used() <==> ch.On(i)
  }

  /** The table holds exactly the inodes of m, each once and at its slot. */
  ghost predicate Registered(t: Table, m: map<Ino, Slot>) {
    && (forall i: Slot :: t[i].Used() ==> t[i].ino in m && m[t[i].ino] == i)
    && (forall a :: a in m ==> a > SHORT_INODE_UNMAPPED && t[m[a]].ino == a && t[m[a]].Used())
  }

  /** Every inode of m is on the chain that runs through its home slot. */
  ghost predicate Housed(ch: Chains, m: map<Ino, Slot>) {
    forall a :: a in m ==> ch.On(m[a]) && ch.On(HashVal(a)) && ch.cid[HashVal(a)] == ch.cid[m[a]]
  }

  /** The table agrees with the map m from inodes to slots. */
  ghost predicate AgreesWith(t: Table, ch: Chains, m: map<Ino, Slot>) {
    ChainsOk(t, ch) && Registered(t, m) && Housed(ch, m)
  }

  ghost predicate IsOrder(order: seq<nat>) {
    |order| == SHORT_INODE_MAX && forall k :: 0 <= k < |order| ==> order[k] < SHORT_INODE_MAX
  }

  /** The first slots of the order are the unused ones. */
  ghost predicate UnusedFirst(t: Table, order: seq<nat>)
    requires IsOrder(order)
  {
    forall j, k :: 0 <= j < k < |order| && t[order[j]].Used() ==> t[order[k]].Used()
  }

  /** The home slot given to an inode. */
  function AllocHome(t: Table, si: Slot, ino: Ino): Table {
    var t1 := LazyInited(t, si);
    var t2: Table := t1[si := t1[si].(ino := ino)];
    HashJoined(t2, si, si)
  }

  function HashFreed(t: Table, i: Slot): Table {
    if t[i].Used() then HashJoined(t, t[i].hashPrev, t[i].hashNext) else t
  }

  /** Slot i taken from whoever had it and put on the chain of slot si, just after si. */
  function AllocOldest(t: Table, si: Slot, i: Slot, ino: Ino): Table {
    var t1 := HashFreed(LazyInited(t, i), i);
    var t2 := HashJoined(HashJoined(t1, i, t1[si].hashNext), si, i);
    t2[i := t2[i].(ino := ino)]
  }

  lemma AllocHomeKeepsChains(t: Table, ch: Chains, si: Slot, ino: Ino)
    requires !t[si].Used() && ino > SHORT_INODE_UNMAPPED
    ensures var t' := AllocHome(t, si, ino);
            && SameLru(t, t') && SameInos(t, t', {si}) && t'[si].ino == ino
            && (ino != SHORT_INODE_UNUSED && ChainsOk(t, ch) ==> ChainsOk(t', ch.AddAlone(si)))
  {
    LazyInitedKeeps(t, si);
    var t1 := LazyInited(t, si);
    SetInoKeeps(t1, si, ino);
    HashJoinedLinks(t1[si := t1[si].(ino := ino)], si, si);
    if ino != SHORT_INODE_UNUSED && ChainsOk(t, ch) {
      AddAloneLinks(HashNexts(t), HashPrevs(t), ch, si);
    }
  }

  lemma RegisteredMore(t: Table, m: map<Ino, Slot>, t': Table, ino: Ino, i: Slot)
    requires Registered(t, m) && ino !in m && !t[i].Used()
    requires SHORT_INODE_UNMAPPED < ino != SHORT_INODE_UNUSED
    requires SameInos(t, t', {i}) && t'[i].ino == ino
    ensures Registered(t', m[ino := i])
  {
  }

  lemma HousedMore(ch: Chains, m: map<Ino, Slot>, ch': Chains, ino: Ino, i: Slot)
    requires Housed(ch, m)
    requires forall x: Slot :: ch.On(x) ==> ch'.On(x) && ch'.cid[x] == ch.cid[x]
    requires ch'.On(i) && ch'.On(HashVal(ino)) && ch'.cid[HashVal(ino)] == ch'.cid[i]
    ensures Housed(ch', m[ino := i])
  {
  }

  lemma AllocHomeKeepsMap(t: Table, ch: Chains, m: map<Ino, Slot>, ino: Ino)
    requires AgreesWith(t, ch, m) && SHORT_INODE_UNMAPPED < ino != SHORT_INODE_UNUSED
    requires !t[HashVal(ino)].Used()
    ensures ino !in m
    ensures AgreesWith(AllocHome(t, HashVal(ino), ino), ch.AddAlone(HashVal(ino)), m[ino := HashVal(ino)])
  {
    var si := HashVal(ino);
    AllocHomeKeepsChains(t, ch, si, ino);
    RegisteredMore(t, m, AllocHome(t, si, ino), ino, si);
    HousedMore(ch, m, ch.AddAlone(si), ino, si);
  }

  lemma AllocOldestKeepsRing(t: Table, si: Slot, i: Slot, ino: Ino)
    requires ino > SHORT_INODE_UNMAPPED
    ensures var t' := AllocOldest(t, si, i, ino);
            SameLru(t, t') && SameInos(t, t', {i}) && t'[i].ino == ino
  {
    LazyInitedKeeps(t, i);
    var t0 := LazyInited(t, i);
    HashJoinedLinks(t0, t0[i].hashPrev, t0[i].hashNext);
    var t1 := HashFreed(t0, i);
    HashJoinedLinks(t1, i, t1[si].hashNext);
    var t2 := HashJoined(t1, i, t1[si].hashNext);
    HashJoinedLinks(t2, si, i);
    SetInoKeeps(HashJoined(t2, si, i), i, ino);
  }

  lemma AllocOldestLinks(t: Table, si: Slot, i: Slot, ino: Ino)
    requires ino > SHORT_INODE_UNMAPPED
    ensures var t1, t' := HashFreed(LazyInited(t, i), i), AllocOldest(t, si, i, ino);
            && HashNexts(t') == HashNexts(t1)[i := t1[si].hashNext][si := i]
            && HashPrevs(t') == HashPrevs(t1)[t1[si].hashNext := i][i := si]
  {
  }

  /** The chains after slot i was taken off its chain, if it was on one, and put after slot si. */
  ghost function Regrouped(ch: Chains, si: Slot, i: Slot): Chains
    requires ch.Coherent() && |ch.cid| == SHORT_INODE_MAX && ch.On(si) && si != i
  {
    if ch.On(i) then RemoveCoherent(ch, i); ch.Remove(i).InsertAfter(si, i) else ch.InsertAfter(si, i)
  }

  lemma HashFreedChains(t: Table, ch: Chains, i: Slot)
    requires ChainsOk(t, ch)
    ensures var t' := HashFreed(t, i);
            && Linked(HashNexts(t'), HashPrevs(t'), if t[i].Used() then ch.Remove(i) else ch)
            && forall x: Slot :: t'[x].ino == t[x].ino
  {
    if t[i].Used() {
      HashJoinedLinks(t, t[i].hashPrev, t[i].hashNext);
      RemoveLinks(HashNexts(t), HashPrevs(t), ch, i);
    }
  }

  lemma AllocOldestLinked(t: Table, ch: Chains, si: Slot, i: Slot, ino: Ino)
    requires ChainsOk(t, ch) && t[si].Used() && si != i && ino > SHORT_INODE_UNMAPPED
    ensures var t' := AllocOldest(t, si, i, ino); Linked(HashNexts(t'), HashPrevs(t'), Regrouped(ch, si, i))
  {
    var t0 := LazyInited(t, i);
    LazyInitedKeeps(t, i);
    assert ChainsOk(t0, ch);
    HashFreedChains(t0, ch, i);
    var t1, ch1 := HashFreed(t0, i), if t0[i].Used() then ch.Remove(i) else ch;
    assert HashNexts(t1)[si] == t1[si].hashNext;
    InsertAfterLinks(HashNexts(t1), HashPrevs(t1), ch1, si, i);
    AllocOldestLinks(t, si, i, ino);
  }

  lemma AllocOldestKeepsChains(t: Table, ch: Chains, si: Slot, i: Slot, ino: Ino)
    requires ChainsOk(t, ch) && t[si].Used() && si != i
    requires SHORT_INODE_UNMAPPED < ino != SHORT_INODE_UNUSED
    ensures ChainsOk(AllocOldest(t, si, i, ino), Regrouped(ch, si, i))
  {
    AllocOldestLinked(t, ch, si, i, ino);
    AllocOldestKeepsRing(t, si, i, ino);
  }

  lemma RegroupedKeepsLists(ch: Chains, si: Slot, i: Slot)
    requires ch.Coherent() && |ch.cid| == SHORT_INODE_MAX && ch.On(si) && !ch.On(i)
    ensures var ch' := Regrouped(ch, si, i);
            && (forall x: Slot :: ch.On(x) ==> ch'.On(x) && ch'.cid[x] == ch.cid[x])
            && ch'.On(i) && ch'.cid[i] == ch'.cid[si]
  {
  }

  lemma AllocOldestKeepsMap(t: Table, ch: Chains, m: map<Ino, Slot>, i: Slot, ino: Ino)
    requires AgreesWith(t, ch, m) && SHORT_INODE_UNMAPPED < ino != SHORT_INODE_UNUSED && ino !in m
    requires t[HashVal(ino)].Used() && !t[i].Used()
    ensures AgreesWith(AllocOldest(t, HashVal(ino), i, ino), Regrouped(ch, HashVal(ino), i), m[ino := i])
  {
    var si := HashVal(ino);
    AllocOldestKeepsChains(t, ch, si, i, ino);
    assert Registered(AllocOldest(t, si, i, ino), m[ino := i]) by {
      AllocOldestKeepsRing(t, si, i, ino);
      RegisteredMore(t, m, AllocOldest(t, si, i, ino), ino, i);
    }
    assert Housed(Regrouped(ch, si, i), m[ino := i]) by {
      RegroupedKeepsLists(ch, si, i);
      HousedMore(ch, m, Regrouped(ch, si, i), ino, i);
    }
  }

  // ---------------------------------------------------------------------------------------------
  // The walk along the chain of an inode

  /** The walk for ino leaves its do-while loop after n steps or before. */
  ghost predicate WalkStops(t: Table, ino: Ino, n: nat) {
    var x := WalkAt(HashNexts(t), HashVal(ino), n);
    x == HashVal(ino) || t[x].ino == ino
  }

  /** A call for ino returns: it needs no walk, or its walk stops. */
  ghost predicate CallReturns(t: Table, ino: Ino) {
    t[HashVal(ino)].Used() && t[HashVal(ino)].ino != ino ==> exists n :: 1 <= n && WalkStops(t, ino, n)
  }

  /** A walk that has not stopped after as many steps as there are slots never stops. */
  lemma WalkBound(t: Table, ino: Ino)
    requires t[HashVal(ino)].Used() && t[HashVal(ino)].ino != ino
    requires forall j :: 1 <= j <= SHORT_INODE_MAX ==> !WalkStops(t, ino, j)
    ensures !CallReturns(t, ino)
  {
    hide WalkAt, HashVal, HashNexts;
    forall n | 1 <= n ensures !WalkStops(t, ino, n) {
      forall j | 1 <= j <= SHORT_INODE_MAX ensures WalkAt(HashNexts(t), HashVal(ino), j) != HashVal(ino) {
        assert !WalkStops(t, ino, j);
      }
      var k := MeetsNothingNew(HashNexts(t), HashVal(ino), n);
      assert !WalkStops(t, ino, k);
    }
  }

  /** While the chains are well linked every walk ends. */
  lemma ChainsReturn(t: Table, ch: Chains, ino: Ino)
    requires ChainsOk(t, ch)
    ensures CallReturns(t, ino)
  {
    var first := HashVal(ino);
    if ch.On(first) {
      var n := |ch.ListOf(first)|;
      FirstReturn(HashNexts(t), HashPrevs(t), ch, first, n);
      assert WalkStops(t, ino, n);
    }
  }

  lemma ChainMeets(t: Table, ch: Chains, ino: Ino, i: Slot, n: nat)
    requires Linked(HashNexts(t), HashPrevs(t), ch) && 1 <= n
    requires ch.On(HashVal(ino)) && ch.On(i) && ch.cid[i] == ch.cid[HashVal(ino)] && i != HashVal(ino)
    requires WalkAt(HashNexts(t), HashVal(ino), n) == HashVal(ino) && t[i].ino == ino
    ensures exists j :: 1 <= j < n && WalkStops(t, ino, j)
  {
    var j := FullTurnMeetsAll(HashNexts(t), HashPrevs(t), ch, HashVal(ino), i, n);
    assert WalkStops(t, ino, j);
  }

  /** A walk that comes back to its start met no slot holding ino, so ino is not in the map. */
  lemma WalkIsComplete(t: Table, ch: Chains, m: map<Ino, Slot>, ino: Ino, n: nat)
    requires AgreesWith(t, ch, m) && t[HashVal(ino)].ino != ino && 1 <= n
    requires forall j :: 1 <= j < n ==> !WalkStops(t, ino, j)
    requires WalkAt(HashNexts(t), HashVal(ino), n) == HashVal(ino)
    ensures ino !in m
  {
    if ino in m {
      ChainMeets(t, ch, ino, m[ino], n);
    }
  }

  /** The table after slot si was used, first being the oldest slot before. */
  function Used(t: Table, first: Slot, si: Slot): (r: (Table, Slot)) {
    var o := if si == first then t[si].lruNext else first;
    var t1 := LazyInited(LruJoined(t, t[si].lruPrev, t[si].lruNext), o);
    (LruJoined(LruJoined(t1, t1[o].lruPrev, si), si, o), o)
  }

  lemma UsedIsTouched(t: Table, first: Slot, si: Slot)
    requires t[si].ino != 0
    ensures var (t', o) := Used(t, first, si);
            && Touched(LruNexts(t), LruPrevs(t), first, si, o, LruNexts(t'), LruPrevs(t'))
            && SameHash(t, t') && SameInos(t, t', {}) && t'[si].ino == t[si].ino
  {
    var (t', o) := Used(t, first, si);
    assert LruNexts(t)[si] == t[si].lruNext && LruPrevs(t)[si] == t[si].lruPrev;
    LruJoinedLinks(t, t[si].lruPrev, t[si].lruNext);
    var t0 := LruJoined(t, t[si].lruPrev, t[si].lruNext);
    LazyInitedKeeps(t0, o);
    var t1 := LazyInited(t0, o);
    assert LruPrevs(t1)[o] == t1[o].lruPrev;
    LruJoinedLinks(t1, t1[o].lruPrev, si);
    LruJoinedLinks(LruJoined(t1, t1[o].lruPrev, si), si, o);
  }

  lemma UsedMovesToEnd(t: Table, order: seq<nat>, pos: seq<nat>, si: Slot)
    requires |order| == SHORT_INODE_MAX && Ring(LruNexts(t), LruPrevs(t), order, pos) && t[si].ino != 0
    ensures var (t', o) := Used(t, order[0], si);
            && Ring(LruNexts(t'), LruPrevs(t'), MoveToEnd(order, pos[si]), MovedPositions(pos, pos[si]))
            && MoveToEnd(order, pos[si])[0] == o
            && SameHash(t, t') && SameInos(t, t', {}) && t'[si].ino == t[si].ino
  {
    var (t', o) := Used(t, order[0], si);
    UsedIsTouched(t, order[0], si);
    TouchMovesToEnd(LruNexts(t), LruPrevs(t), order, pos, si, o, LruNexts(t'), LruPrevs(t'));
  }

  lemma ZeroTableIsValid(t: Table, order: seq<nat>)
    requires forall i: Slot :: t[i] == ZERO
    requires order == seq(SHORT_INODE_MAX, i => i)
    ensures Ring(LruNexts(t), LruPrevs(t), order, order) && UnusedFirst(t, order)
  {
    assert Permutation(order, order);
    forall k | 0 <= k < SHORT_INODE_MAX
      ensures LruNexts(t)[k] == Succ(k, SHORT_INODE_MAX) && LruPrevs(t)[k] == Pred(k, SHORT_INODE_MAX)
    {
      assert t[k] == ZERO;
    }
  }

  // ---------------------------------------------------------------------------------------------
  // Evicting a slot in use

  /** Taking the home slot itself away from its old inode keeps the chains only if it was alone. */
  lemma EvictingLoneHomeKeepsChains(t: Table, ch: Chains, si: Slot, ino: Ino)
    requires ChainsOk(t, ch) && t[si].Used() && t[si].hashNext == si
    requires SHORT_INODE_UNMAPPED < ino != SHORT_INODE_UNUSED
    ensures ChainsOk(AllocOldest(t, si, si, ino), ch)
  {
  }

  /** ... and otherwise leaves links that belong to no chains at all. */
  lemma EvictingSharedHomeBreaksChains(t: Table, ch: Chains, si: Slot, ino: Ino, ch': Chains)
    requires ChainsOk(t, ch) && t[si].Used() && t[si].hashNext != si
    requires SHORT_INODE_UNMAPPED < ino != SHORT_INODE_UNUSED
    ensures !ChainsOk(AllocOldest(t, si, si, ino), ch')
  {
    var t', next := AllocOldest(t, si, si, ino), t[si].hashNext;
    assert HashNexts(t)[si] == next;
    PrevUndoesNext(HashNexts(t), HashPrevs(t), ch, si);
    AllocOldestKeepsRing(t, si, si, ino);
    assert t'[next].Used();
    AllocOldestLinks(t, si, si, ino);
    assert t'[next].hashPrev == si && t'[si].hashNext == si;
    if ChainsOk(t', ch') {
      PrevUndoesNext(HashNexts(t'), HashPrevs(t'), ch', next);
    }
  }

  // ---------------------------------------------------------------------------------------------
  // Counting

  lemma {:induction false} InosOfFirstSlots(t: Table, m: map<Ino, Slot>, n: nat) returns (s: set<Ino>)
    requires Registered(t, m) && n <= SHORT_INODE_MAX && forall i :: 0 <= i < n ==> t[i].Used()
    ensures s <= m.Keys && |s| == n && forall a :: a in s ==> m[a] < n
  {
    if n == 0 {
      s := {};
    } else {
      s := InosOfFirstSlots(t, m, n - 1);
      assert m[t[n - 1].ino] == n - 1;
      s := s + {t[n - 1].ino};
    }
  }

  lemma FullTableCount(t: Table, m: map<Ino, Slot>)
    requires Registered(t, m) && forall i: Slot :: t[i].Used()
    ensures |m| >= SHORT_INODE_MAX
  {
    var s := InosOfFirstSlots(t, m, SHORT_INODE_MAX);
    assert m.Keys == s + (m.Keys - s);
    assert |m.Keys| == |m|;
  }

  /** While fewer inodes are mapped than there are slots, the oldest slot is an unused one. */
  lemma OldestIsUnused(t: Table, m: map<Ino, Slot>, order: seq<nat>, pos: seq<nat>)
    requires Registered(t, m) && |m| < SHORT_INODE_MAX
    requires |order| == SHORT_INODE_MAX && Permutation(order, pos) && UnusedFirst(t, order)
    ensures !t[order[0]].Used()
  {
    if t[order[0]].Used() {
      forall i: Slot ensures t[i].Used() {
        assert order[pos[i]] == i;
      }
      FullTableCount(t, m);
    }
  }

  /** Only the slot just used changes its state of use, and it goes to the end. */
  lemma UnusedStayFirst(t: Table, t': Table, order: seq<nat>, pos: seq<nat>, si: Slot)
    requires |order| == SHORT_INODE_MAX && Permutation(order, pos) && UnusedFirst(t, order)
    requires SameInos(t, t', {si}) && t'[si].Used()
    ensures Permutation(MoveToEnd(order, pos[si]), MovedPositions(pos, pos[si]))
    ensures UnusedFirst(t', MoveToEnd(order, pos[si]))
  {
  }

  /** Lazy initialisation elsewhere does not touch the hash side. */
  lemma HashSideKept(t: Table, t': Table, ch: Chains, m: map<Ino, Slot>)
    requires SameHash(t, t') && SameInos(t, t', {})
    ensures ChainsOk(t, ch) <==> ChainsOk(t', ch)
    ensures AgreesWith(t, ch, m) <==> AgreesWith(t', ch, m)
  {
    hide Linked, HashNexts, HashPrevs, Housed;
    UsedKept(t, t');
    hide SameInos;
    RegisteredKept(t, t', m);
    RegisteredKept(t', t, m);
    hide Registered;
  }

  lemma UsedKept(t: Table, t': Table)
    requires SameInos(t, t', {})
    ensures forall i: Slot :: (t[i].Used() <==> t'[i].Used()) && (t[i].Used() ==> t'[i].ino == t[i].ino)
  {
  }

  lemma RegisteredKept(t: Table, t': Table, m: map<Ino, Slot>)
    requires forall i: Slot :: (t[i].Used() <==> t'[i].Used()) && (t[i].Used() ==> t'[i].ino == t[i].ino)
    ensures Registered(t, m) ==> Registered(t', m)
  {
  }

  // ---------------------------------------------------------------------------------------------
  // The module's state and its operations

  class ShortInodeMap {
    var table: array?<Element>
    var oldest: Slot
    /** The LRU order, oldest slot first, and its inverse. */
    ghost var order: seq<nat>
    ghost var pos: seq<nat>
    /** The hash chains and the agreed map, as long as they are kept. */
    ghost var chains: Chains
    ghost var numbers: map<Ino, Slot>

    ghost predicate Valid()
      reads this, table
    {
      && table != null && table.Length == SHORT_INODE_MAX
      && |order| == SHORT_INODE_MAX
      && Ring(LruNexts(table[..]), LruPrevs(table[..]), order, pos)
      && order[0] == oldest
    }

    /** short_inode_construct, given that the allocated memory is all zero. */
    constructor ()
      ensures Valid() && fresh(table)
      ensures forall i: Slot :: table[i] == ZERO
      ensures order == seq(SHORT_INODE_MAX, i => i)
      ensures numbers == map[] && Agreed()
    {
      table := new Element[SHORT_INODE_MAX](_ => ZERO);
      oldest := 0;
      order := seq(SHORT_INODE_MAX, i => i);
      pos := seq(SHORT_INODE_MAX, i => i);
      chains := Chains([], seq(SHORT_INODE_MAX, _ => -1), seq(SHORT_INODE_MAX, _ => 0));
      numbers := map[];
      new;
      ZeroTableIsValid(table[..], order);
    }

    method LazyInit(entry: Slot)
      requires table != null && table.Length == SHORT_INODE_MAX
      modifies table
      ensures table[..] == LazyInited(old(table[..]), entry)
    {
      if table[entry].ino != 0 {
        return;
      }
      table[entry] := table[entry].(ino := SHORT_INODE_UNUSED);
      table[entry] := table[entry].(lruPrev := (entry + SHORT_INODE_MAX - 1) % SHORT_INODE_MAX);
      table[entry] := table[entry].(lruNext := (entry + 1) % SHORT_INODE_MAX);
    }

    method LruJoin(prev: Slot, next: Slot)
      requires table != null && table.Length == SHORT_INODE_MAX
      modifies table
      ensures table[..] == LruJoined(old(table[..]), prev, next)
    {
      LazyInit(prev);
      LazyInit(next);
      table[prev] := table[prev].(lruNext := next);
      table[next] := table[next].(lruPrev := prev);
    }

    method HashJoin(prev: Slot, next: Slot)
      requires table != null && table.Length == SHORT_INODE_MAX
      modifies table
      ensures table[..] == HashJoined(old(table[..]), prev, next)
    {
      table[prev] := table[prev].(hashNext := next);
      table[next] := table[next].(hashPrev := prev);
    }

    method HashFree(i: Slot)
      requires table != null && table.Length == SHORT_INODE_MAX
      modifies table
      ensures table[..] == HashFreed(old(table[..]), i)
    {
      if table[i].Used() {
        HashJoin(table[i].hashPrev, table[i].hashNext);
      }
    }

    method LruFree(i: Slot)
      requires table != null && table.Length == SHORT_INODE_MAX && table[i].ino != 0
      modifies this`oldest, table
      ensures oldest == if i == old(oldest) then old(table[i].lruNext) else old(oldest)
      ensures table[..] == LruJoined(old(table[..]), old(table[i].lruPrev), old(table[i].lruNext))
    {
      if i == oldest {
        oldest := table[i].lruNext;
      }
      LruJoin(table[i].lruPrev, table[i].lruNext);
    }

    /** The end of short_inode_map: slot si becomes the most recently used one. */
    method Touch(si: Slot)
      requires Valid() && table[si].ino != 0
      modifies this`oldest, this`order, this`pos, table
      ensures Valid() && Moved(old(order), old(pos), order, pos, si)
      ensures SameHash(old(table[..]), table[..]) && SameInos(old(table[..]), table[..], {})
      ensures table[si].ino == old(table[si].ino)
    {
      ghost var t: Table := table[..];
      LruFree(si);
      LazyInit(oldest);
      LruJoin(table[oldest].lruPrev, si);
      LruJoin(si, oldest);
      assert (table[..], oldest) == Used(t, order[0], si);
      UsedMovesToEnd(t, order, pos, si);
      order, pos := MoveToEnd(order, pos[si]), MovedPositions(pos, pos[si]);
    }

    /** The do-while loop of short_inode_map: along the chain from the home slot of ino until the
        slot of ino or the home slot again. Steps are counted so that a loop that would go on for ever
        can be told: it is given up exactly if no number of steps ends it. */
    method Walk(ino: Ino) returns (ends: bool, si: Slot, n: nat)
      requires table != null && table.Length == SHORT_INODE_MAX
      requires table[HashVal(ino)].Used() && table[HashVal(ino)].ino != ino
      ensures ends <==> CallReturns(table[..], ino)
      ensures ends ==> 1 <= n && si == WalkAt(HashNexts(table[..]), HashVal(ino), n) && WalkStops(table[..], ino, n)
      ensures ends ==> forall j :: 1 <= j < n ==> !WalkStops(table[..], ino, j)
    {
      hide HashVal;
      var first := HashVal(ino);
      ghost var t: Table := table[..];
      si := table[first].hashNext;
      n := 1;
      assert si == HashNexts(t)[WalkAt(HashNexts(t), first, 0)];
      while si != first && table[si].ino != ino
        invariant 1 <= n <= SHORT_INODE_MAX && si == WalkAt(HashNexts(t), first, n)
        invariant forall j :: 1 <= j < n ==> !WalkStops(t, ino, j)
        decreases SHORT_INODE_MAX - n
      {
        assert !WalkStops(t, ino, n);
        if n == SHORT_INODE_MAX {
          WalkBound(t, ino);
          return false, si, n;
        }
        si := table[si].hashNext;
        n := n + 1;
      }
      assert WalkStops(t, ino, n);
      ends := true;
    }

    method AllocateHome(si: Slot, ino: Ino)
      requires table != null && table.Length == SHORT_INODE_MAX
      modifies table
      ensures table[..] == AllocHome(old(table[..]), si, ino)
    {
      LazyInit(si);
      table[si] := table[si].(ino := ino);
      HashJoin(si, si);
    }

    method AllocateOldest(si: Slot, ino: Ino) returns (newNode: Slot)
      requires table != null && table.Length == SHORT_INODE_MAX
      modifies table
      ensures newNode == oldest && table[..] == AllocOldest(old(table[..]), si, newNode, ino)
    {
      newNode := oldest;
      LazyInit(newNode);
      HashFree(newNode);
      HashJoin(newNode, table[si].hashNext);
      HashJoin(si, newNode);
      table[newNode] := table[newNode].(ino := ino);
    }

    /** The first part of short_inode_map: find or allocate the slot of ino. */
    method Lookup(ino: Ino) returns (ends: bool, si: Slot)
      requires Valid() && ino > SHORT_INODE_UNMAPPED
      modifies this`chains, this`numbers, table
      ensures ends <==> CallReturns(old(table[..]), ino)
      ensures !ends ==> table[..] == old(table[..]) && chains == old(chains) && numbers == old(numbers)
      ensures ends ==> Found(old(table[..]), table[..], ino, oldest, si) && SameLru(old(table[..]), table[..])
      ensures ends ==> Allocates(old(table[..]), table[..], ino, oldest, si)
      ensures ends && ino != SHORT_INODE_UNUSED ==>
                Rehashed(old(table[..]), old(chains), old(numbers), table[..], chains, numbers, ino, si)
    {
      hide WalkStops, SameLru, Found, Rehashed, HashVal;
      ghost var t: Table := table[..];
      ends, si := true, HashVal(ino);
      if !table[si].Used() {
        AllocateHome(si, ino);
        HomeAllocated(t, chains, numbers, ino, oldest);
        chains := ChainsAfter(t, chains, ino, si);
      } else {
        var n: nat;
        if table[si].ino != ino {
          ends, si, n := Walk(ino);
          if !ends {
            return;
          }
          StoppedAt(t, ino, n);
        }
        if table[si].ino != ino {
          si := AllocateOldest(si, ino);
          OldestAllocated(t, chains, numbers, ino, si, n);
          chains := ChainsAfter(t, chains, ino, si);
        } else {
          InoPresent(t, chains, numbers, ino, oldest, si);
        }
      }
      numbers := numbers[ino := si];
    }

    /** short_inode_map; returned is false if the call never returns. */
    method Map(ino: Ino) returns (returned: bool, r: Ino)
      requires table != null ==> Valid()
      modifies this, table
      ensures table == old(table)
      ensures table != null && ino > SHORT_INODE_UNMAPPED && HomeUnused(old(table[..]), ino) ==> returned
      ensures returned <==> table == null || ino <= SHORT_INODE_UNMAPPED || CallReturns(old(table[..]), ino)
      ensures table == null ==> r == if ino % 0x10000 != 0 then ino else 0x1_0000_0000 - ENOENT
      ensures table != null && ino <= SHORT_INODE_UNMAPPED ==> r == ino
      ensures table != null && (ino <= SHORT_INODE_UNMAPPED || !returned) ==>
                && table[..] == old(table[..]) && oldest == old(oldest) && order == old(order) && pos == old(pos)
                && chains == old(chains) && numbers == old(numbers)
      ensures table != null && ino > SHORT_INODE_UNMAPPED && returned ==>
                && SHORT_INODE_UNMAPPED < r <= 0xffff && Valid()
                && Moved(old(order), old(pos), order, pos, SlotOf(r))
                && Found(old(table[..]), table[..], ino, old(oldest), SlotOf(r))
                && Allocates(old(table[..]), table[..], ino, old(oldest), SlotOf(r))
                && ByHalves(old(table[..]), ino, r)
                && (ino != SHORT_INODE_UNUSED ==>
                      && Rehashed(old(table[..]), old(chains), old(numbers), table[..], chains, numbers, ino, SlotOf(r))
                      && (old(UnusedFirst(table[..], order)) ==> UnusedFirst(table[..], order)))
    {
      if table == null {
        return true, if ino % 0x10000 != 0 then ino else 0x1_0000_0000 - ENOENT;
      }
      if ino <= SHORT_INODE_UNMAPPED {
        return true, ino;
      }
      hide Found, Rehashed, UnusedFirst, Ring, SameInos, SameHash, LruNexts, LruPrevs, Moved, IsOrder, CallReturns;
      hide Allocates;
      ghost var t: Table := table[..];
      var si;
      returned, si := Lookup(ino);
      if !returned {
        r := 0;
        UnusedHomeReturns(t, ino);
        return;
      }
      ghost var t1: Table := table[..];
      assert t1[si].ino == ino by { FoundHolds(t, t1, ino, oldest, si); }
      Touch(si);
      AllocatesKept(t, t1, table[..], ino, old(oldest), si);
      RehashedKept(t, old(chains), old(numbers), t1, table[..], chains, numbers, ino, si);
      TouchKeepsFound(t, t1, table[..], old(order), old(pos), order, pos, ino, old(oldest), si);
      r := si + SHORT_INODE_UNMAPPED + 1;
      assert SlotOf(r) == si;
      HomeNumber(t, table[..], ino, old(oldest), r);
    }

    /** No inode was lost yet: the table agrees with the map of everything mapped so far. */
    ghost predicate Agreed()
      reads this, table
    {
      Valid() && AgreesWith(table[..], chains, numbers) && UnusedFirst(table[..], order)
    }

    method MapAgreed(a: Ino) returns (r: Ino)
      requires Agreed() && a != SHORT_INODE_UNUSED
      requires a <= SHORT_INODE_UNMAPPED || a in numbers || |numbers| < SHORT_INODE_MAX
      modifies this, table
      ensures table == old(table) && Agreed()
      ensures Extends(old(numbers), a, numbers) && r == NumberOf(numbers, a)
    {
      hide Linked, Ring, Housed, Registered, UnusedFirst, Found, Moved;
      ghost var t: Table := table[..];
      if a <= SHORT_INODE_UNMAPPED {
        SpecialIsItself(t, numbers, a);
        var _, number := Map(a);
        r := number;
      } else {
        ChainsReturn(t, chains, a);
        var _, number := Map(a);
        r := number;
        StaysAgreed(t, old(chains), old(numbers), table[..], chains, numbers, old(order), old(pos), a, SlotOf(r));
      }
    }

    /** Any run of calls, evictions included, up to one that never returns. Read from the oldest slot, the
        links give the list that starts as the order before the run and has each used slot moved to its
        end in turn. */
    method MapMany(inos: seq<Ino>) returns (out: seq<Ino>)
      requires Valid()
      modifies this, table
      ensures table == old(table) && Valid() && |out| <= |inos|
      ensures |out| < |inos| ==> inos[|out|] > SHORT_INODE_UNMAPPED && !CallReturns(table[..], inos[|out|])
      ensures forall i :: 0 <= i < |out| ==>
                if inos[i] <= SHORT_INODE_UNMAPPED then out[i] == inos[i] else SHORT_INODE_UNMAPPED < out[i] <= 0xffff
      ensures ReadRing(LruNexts(table[..]), oldest, SHORT_INODE_MAX) == order == UsedInTurn(old(order), out)
    {
      hide Ring, Moved, Found, Allocates, Rehashed, CallReturns, UnusedFirst;
      hide UsedInTurn, Permutation, LruNexts, LruPrevs, ToEnd, ReadRing;
      out := [];
      UsedInTurnNone(order);
      for i := 0 to |inos|
        invariant table == old(table) && Valid() && |out| == i && order == UsedInTurn(old(order), out)
        invariant forall k :: 0 <= k < i ==>
                    if inos[k] <= SHORT_INODE_UNMAPPED then out[k] == inos[k]
                    else SHORT_INODE_UNMAPPED < out[k] <= 0xffff
      {
        ghost var o, p := order, pos;
        RingIsPermutation(LruNexts(table[..]), LruPrevs(table[..]), order, pos);
        var returned, r := Map(inos[i]);
        if !returned {
          OldestReads(table[..], order, pos);
          return;
        }
        UsedInTurnMore(old(order), out, r);
        if inos[i] > SHORT_INODE_UNMAPPED {
          MovedIsToEnd(o, p, order, pos, SlotOf(r));
        }
        out := out + [r];
      }
      OldestReads(table[..], order, pos);
    }

    /** A whole run of calls. If all inodes ever mapped are among no more than the number of slots,
        every call returns the number the agreed map has at the end of the run, and two calls return
        the same number exactly if they asked for the same inode. */
    method MapAll(inos: seq<Ino>, ghost all: set<Ino>) returns (out: seq<Ino>)
      requires Agreed() && numbers.Keys <= all && |all| <= SHORT_INODE_MAX
      requires SHORT_INODE_UNUSED !in inos
      requires forall i :: 0 <= i < |inos| && inos[i] > SHORT_INODE_UNMAPPED ==> inos[i] in all
      modifies this, table
      ensures table == old(table) && Agreed()
      ensures |out| == |inos| && forall i :: 0 <= i < |inos| ==> out[i] == NumberOf(numbers, inos[i])
      ensures forall i, j :: 0 <= i < |inos| && 0 <= j < |inos| ==> (out[i] == out[j] <==> inos[i] == inos[j])
    {
      hide Linked, Ring, Housed, Registered, UnusedFirst;
      out := [];
      for k := 0 to |inos|
        invariant table == old(table) && Agreed() && numbers.Keys <= all
        invariant |out| == k && forall i :: 0 <= i < k ==> Numbered(numbers, inos[i], out[i])
      {
        if inos[k] > SHORT_INODE_UNMAPPED && inos[k] !in numbers {
          RoomForNext(numbers, all, inos[k]);
        }
        ghost var m := numbers;
        var r := MapAgreed(inos[k]);
        forall i | 0 <= i < k ensures Numbered(numbers, inos[i], out[i]) {
          assert Numbered(m, inos[i], out[i]);
        }
        out := out + [r];
      }
      forall i, j | 0 <= i < |inos| && 0 <= j < |inos| ensures out[i] == out[j] <==> inos[i] == inos[j] {
        assert Numbered(numbers, inos[i], out[i]) && Numbered(numbers, inos[j], out[j]);
        NumbersDistinct(table[..], numbers, inos[i], inos[j]);
      }
    }
  }

  lemma RingIsPermutation(next: seq<nat>, prev: seq<nat>, order: seq<nat>, pos: seq<nat>)
    requires Ring(next, prev, order, pos)
    ensures Permutation(order, pos)
  {
  }

  lemma OldestReads(t: Table, order: seq<nat>, pos: seq<nat>)
    requires |order| == SHORT_INODE_MAX && Ring(LruNexts(t), LruPrevs(t), order, pos)
    ensures order[0] < SHORT_INODE_MAX && ReadRing(LruNexts(t), order[0], SHORT_INODE_MAX) == order
  {
    ReadRingIsOrder(LruNexts(t), LruPrevs(t), order, pos, 0);
    assert order[0..] == order;
  }

  /** The order after the slots of the given numbers were used one after the other. */
  ghost function UsedInTurn(order: seq<nat>, numbers: seq<Ino>): seq<nat> {
    if numbers == [] then order
    else
      var o, r := UsedInTurn(order, numbers[..|numbers| - 1]), numbers[|numbers| - 1];
      if SHORT_INODE_UNMAPPED < r <= 0xffff then ToEnd(o, SlotOf(r)) else o
  }

  lemma UsedInTurnNone(order: seq<nat>)
    ensures UsedInTurn(order, []) == order
  {
  }

  lemma UsedInTurnMore(order: seq<nat>, numbers: seq<Ino>, r: Ino)
    ensures UsedInTurn(order, numbers + [r]) ==
              var o := UsedInTurn(order, numbers);
              if SHORT_INODE_UNMAPPED < r <= 0xffff then ToEnd(o, SlotOf(r)) else o
  {
    assert (numbers + [r])[..|numbers|] == numbers;
  }

  lemma MovedIsToEnd(order: seq<nat>, pos: seq<nat>, order': seq<nat>, pos': seq<nat>, si: Slot)
    requires Permutation(order, pos) && |order| == SHORT_INODE_MAX && Moved(order, pos, order', pos', si)
    ensures order' == ToEnd(order, si)
  {
    assert order[pos[si]] == si;
  }

  /** The slot a returned number stands for. */
  function SlotOf(r: Ino): Slot
    requires SHORT_INODE_UNMAPPED < r <= 0xffff
  {
    r - SHORT_INODE_UNMAPPED - 1
  }

  /** Slot si became the newest one of the order. */
  ghost predicate Moved(order: seq<nat>, pos: seq<nat>, order': seq<nat>, pos': seq<nat>, si: Slot) {
    && si < |pos| && pos[si] < |order| && pos[si] < |pos|
    && order' == MoveToEnd(order, pos[si]) && pos' == MovedPositions(pos, pos[si])
  }

  ghost function NumberOf(m: map<Ino, Slot>, a: Ino): Ino {
    if a in m then m[a] + SHORT_INODE_UNMAPPED + 1 else a
  }

  /** m' is m, to which a was added unless it is never mapped. */
  ghost predicate Extends(m: map<Ino, Slot>, a: Ino, m': map<Ino, Slot>) {
    && (forall b :: b in m ==> b in m' && m'[b] == m[b])
    && (forall b :: b in m' ==> b in m || b == a)
    && (a in m' <==> a > SHORT_INODE_UNMAPPED)
  }

  /** r is what an inode of the agreed map, or a special inode, is called. */
  ghost predicate Numbered(m: map<Ino, Slot>, a: Ino, r: Ino) {
    (a in m <==> a > SHORT_INODE_UNMAPPED) && r == NumberOf(m, a)
  }

  lemma NumbersDistinct(t: Table, m: map<Ino, Slot>, a: Ino, b: Ino)
    requires Registered(t, m) && Numbered(m, a, NumberOf(m, a)) && Numbered(m, b, NumberOf(m, b))
    ensures NumberOf(m, a) == NumberOf(m, b) <==> a == b
  {
  }

  lemma SpecialIsItself(t: Table, m: map<Ino, Slot>, a: Ino)
    requires Registered(t, m) && a <= SHORT_INODE_UNMAPPED
    ensures NumberOf(m, a) == a && Extends(m, a, m)
  {
  }

  lemma NothingEvicted(t: Table, t': Table, m: map<Ino, Slot>, order: seq<nat>, pos: seq<nat>, a: Ino, si: Slot)
    requires |order| == SHORT_INODE_MAX && Permutation(order, pos) && UnusedFirst(t, order)
    requires Registered(t, m) && (a in m ==> m[a] == si) && (a in m || |m| < SHORT_INODE_MAX)
    requires Found(t, t', a, order[0], si)
    ensures !Evicted(t, a, si)
  {
    if a !in m {
      OldestIsUnused(t, m, order, pos);
    }
  }

  /** As long as a slot is unused, mapping one more inode evicts nothing and the agreement goes on. */
  lemma StaysAgreed(t: Table, ch: Chains, m: map<Ino, Slot>, t': Table, ch': Chains, m': map<Ino, Slot>,
                    order: seq<nat>, pos: seq<nat>, a: Ino, si: Slot)
    requires |order| == SHORT_INODE_MAX && Ring(LruNexts(t), LruPrevs(t), order, pos) && UnusedFirst(t, order)
    requires AgreesWith(t, ch, m) && a > SHORT_INODE_UNMAPPED && (a in m || |m| < SHORT_INODE_MAX)
    requires Found(t, t', a, order[0], si) && Rehashed(t, ch, m, t', ch', m', a, si)
    ensures AgreesWith(t', ch', m') && Extends(m, a, m') && NumberOf(m', a) == si + SHORT_INODE_UNMAPPED + 1
  {
    NothingEvicted(t, t', m, order, pos, a, si);
  }

  lemma RoomForNext(m: map<Ino, Slot>, all: set<Ino>, a: Ino)
    requires m.Keys <= all && |all| <= SHORT_INODE_MAX && a in all && a !in m
    ensures |m| < SHORT_INODE_MAX
  {
    SubsetSize(m.Keys + {a}, all);
    assert |m.Keys| == |m|;
  }

  // ---------------------------------------------------------------------------------------------
  // What finding or allocating a slot does

  /** A slot in use lost its inode to ino. */
  ghost predicate Evicted(t: Table, ino: Ino, si: Slot) {
    t[si].Used() && t[si].ino != ino
  }

  /** si holds ino now and no other slot changed hands; if si was taken from another inode it was the
      oldest slot, and the home slot of ino is si itself when that was unused. */
  ghost predicate Found(t: Table, t': Table, ino: Ino, oldest: Slot, si: Slot) {
    && SameInos(t, t', {si}) && t'[si].ino == ino
    && (Evicted(t, ino, si) ==> si == oldest && t[HashVal(ino)].Used())
    && (!t[HashVal(ino)].Used() ==> si == HashVal(ino))
  }

  /** The chains are kept, unless the home slot of ino was evicted while others shared its chain; then
      no chains describe the links. An inode of the agreed map is found at its slot; the map is kept, and
      extended by ino, if nothing was evicted. */
  ghost predicate Rehashed(t: Table, ch: Chains, m: map<Ino, Slot>,
                           t': Table, ch': Chains, m': map<Ino, Slot>, ino: Ino, si: Slot)
  {
    && (ChainsOk(t, ch) ==>
          if Evicted(t, ino, si) && si == HashVal(ino) && t[si].hashNext != si
          then forall c :: !ChainsOk(t', c)
          else ChainsOk(t', ch'))
    && (AgreesWith(t, ch, m) && ino in m ==> m[ino] == si)
    && (AgreesWith(t, ch, m) && !Evicted(t, ino, si) ==> AgreesWith(t', ch', m') && m' == m[ino := si])
  }

  /** The tables differ in nothing but links of the ring and lazy initialisation. */
  ghost predicate SameButRing(t: Table, t': Table) { SameHash(t, t') && SameInos(t, t', {}) }

  /** Apart from the ring, t' is t with si allocated to ino, unless si held ino already. */
  ghost predicate Allocates(t: Table, t': Table, ino: Ino, oldest: Slot, si: Slot) {
    if !t[HashVal(ino)].Used() then SameButRing(AllocHome(t, HashVal(ino), ino), t')
    else
      || (t[si].ino == ino && SameButRing(t, t'))
      || (si == oldest && SameButRing(AllocOldest(t, HashVal(ino), oldest, ino), t'))
  }

  lemma SameButRingTwice(t0: Table, t1: Table, t2: Table)
    requires SameButRing(t0, t1) && SameButRing(t1, t2)
    ensures SameButRing(t0, t2)
  {
  }

  lemma AllocatesKept(t: Table, t1: Table, t2: Table, ino: Ino, oldest: Slot, si: Slot)
    requires Allocates(t, t1, ino, oldest, si) && SameButRing(t1, t2)
    ensures Allocates(t, t2, ino, oldest, si)
  {
    hide SameButRing;
    forall t0: Table | SameButRing(t0, t1) ensures SameButRing(t0, t2) {
      SameButRingTwice(t0, t1, t2);
    }
  }

  lemma StoppedAt(t: Table, ino: Ino, n: nat)
    requires WalkStops(t, ino, n)
    ensures var x := WalkAt(HashNexts(t), HashVal(ino), n); t[x].ino == ino || x == HashVal(ino)
  {
  }

  /** The chains after slot si was allocated to ino. */
  ghost function ChainsAfter(t: Table, ch: Chains, ino: Ino, si: Slot): Chains {
    var home := HashVal(ino);
    if !ChainsOk(t, ch) then ch
    else if !t[home].Used() then ch.AddAlone(si)
    else if si == home then ch
    else Regrouped(ch, home, si)
  }

  lemma RegisteredAlready(t: Table, m: map<Ino, Slot>, ino: Ino, si: Slot)
    requires Registered(t, m) && t[si].ino == ino && t[si].Used()
    ensures ino in m && m[ino] == si && m[ino := si] == m
  {
  }

  lemma InoPresent(t: Table, ch: Chains, m: map<Ino, Slot>, ino: Ino, oldest: Slot, si: Slot)
    requires t[si].ino == ino > SHORT_INODE_UNMAPPED && t[HashVal(ino)].Used()
    ensures Found(t, t, ino, oldest, si) && SameLru(t, t)
    ensures ino != SHORT_INODE_UNUSED ==> Rehashed(t, ch, m, t, ch, m[ino := si], ino, si)
  {
    if Registered(t, m) && ino != SHORT_INODE_UNUSED {
      RegisteredAlready(t, m, ino, si);
    }
  }

  lemma RehashedKept(t: Table, ch: Chains, m: map<Ino, Slot>, t1: Table, t2: Table,
                     ch': Chains, m': map<Ino, Slot>, ino: Ino, si: Slot)
    requires SameHash(t1, t2) && SameInos(t1, t2, {})
    ensures Rehashed(t, ch, m, t1, ch', m', ino, si) ==> Rehashed(t, ch, m, t2, ch', m', ino, si)
  {
    forall c ensures ChainsOk(t1, c) <==> ChainsOk(t2, c) {
      HashSideKept(t1, t2, c, m');
    }
    HashSideKept(t1, t2, ch', m');
  }

  lemma FoundHolds(t: Table, t': Table, ino: Ino, oldest: Slot, si: Slot)
    requires Found(t, t', ino, oldest, si)
    ensures t'[si].ino == ino
  {
  }

  /** What the search found is not undone when the slot is moved to the end of the ring. */
  lemma TouchKeepsFound(t: Table, t1: Table, t2: Table, order: seq<nat>, pos: seq<nat>,
                        order': seq<nat>, pos': seq<nat>, ino: Ino, oldest: Slot, si: Slot)
    requires Found(t, t1, ino, oldest, si) && SameInos(t1, t2, {}) && t2[si].ino == t1[si].ino
    requires |order| == SHORT_INODE_MAX && Ring(LruNexts(t), LruPrevs(t), order, pos)
    requires Moved(order, pos, order', pos', si)
    ensures Found(t, t2, ino, oldest, si)
    ensures ino != 0 && ino != SHORT_INODE_UNUSED && UnusedFirst(t, order) ==>
              IsOrder(order') && UnusedFirst(t2, order')
  {
    if ino != 0 && ino != SHORT_INODE_UNUSED && UnusedFirst(t, order) {
      UnusedStayFirst(t, t2, order, pos, si);
    }
  }

  /** A slot in use is taken from its inode only when all slots are in use, and only if it is the
      least recently used one. */
  lemma EvictionMeansFull(t: Table, t': Table, order: seq<nat>, pos: seq<nat>, ino: Ino, si: Slot)
    requires |order| == SHORT_INODE_MAX && Permutation(order, pos) && UnusedFirst(t, order)
    requires Found(t, t', ino, order[0], si) && Evicted(t, ino, si)
    ensures si == order[0] && forall i: Slot :: t[i].Used()
  {
    forall i: Slot ensures t[i].Used() {
      assert order[pos[i]] == i;
    }
  }

  /** The slot whose number the exclusive or of the halves of the inode gives is unused. */
  ghost predicate HomeUnused(t: Table, ino: Ino) {
    exists h: nat :: HalvesDiffer(ino, h) && !t[SlotOf(NumberFor(h))].Used()
  }

  /** If the slot for the number that the exclusive or of the halves gives is unused, that is the number. */
  ghost predicate ByHalves(t: Table, ino: Ino, r: Ino) {
    forall h: nat :: HalvesDiffer(ino, h) && !t[SlotOf(NumberFor(h))].Used() ==> r == NumberFor(h)
  }

  lemma UnusedHomeReturns(t: Table, ino: Ino)
    ensures HomeUnused(t, ino) ==> CallReturns(t, ino)
  {
    hide HashVal, Bit;
    forall h: nat | HalvesDiffer(ino, h) && !t[SlotOf(NumberFor(h))].Used() ensures !t[HashVal(ino)].Used() {
      HomeIs(ino, h);
    }
  }

  lemma HomeNumber(t: Table, t': Table, ino: Ino, oldest: Slot, r: Ino)
    requires SHORT_INODE_UNMAPPED < r <= 0xffff && Found(t, t', ino, oldest, SlotOf(r))
    ensures ByHalves(t, ino, r)
  {
    hide HashVal, Bit;
    forall h: nat | HalvesDiffer(ino, h) && !t[SlotOf(NumberFor(h))].Used() ensures r == NumberFor(h) {
      HomeIs(ino, h);
    }
  }

  /** An inode in 3..65535 whose home slot is unused is given its own number. */
  lemma SmallInodeKeepsItsNumber(t: Table, t': Table, ino: Ino, oldest: Slot, r: Ino)
    requires SHORT_INODE_UNMAPPED < ino <= 0xffff && SHORT_INODE_UNMAPPED < r <= 0xffff
    requires Found(t, t', ino, oldest, SlotOf(r)) && !t[HashVal(ino)].Used()
    ensures r == ino
  {
    HashValIdentity(ino);
  }

  lemma HomeAllocated(t: Table, ch: Chains, m: map<Ino, Slot>, ino: Ino, oldest: Slot)
    requires !t[HashVal(ino)].Used() && ino > SHORT_INODE_UNMAPPED
    ensures var si, t' := HashVal(ino), AllocHome(t, HashVal(ino), ino);
            && Found(t, t', ino, oldest, si) && SameLru(t, t')
            && (ino != SHORT_INODE_UNUSED ==>
                  Rehashed(t, ch, m, t', ChainsAfter(t, ch, ino, si), m[ino := si], ino, si))
  {
    AllocHomeKeepsChains(t, ch, HashVal(ino), ino);
    if ino != SHORT_INODE_UNUSED && AgreesWith(t, ch, m) {
      AllocHomeKeepsMap(t, ch, m, ino);
    }
  }

  lemma OldestAllocated(t: Table, ch: Chains, m: map<Ino, Slot>, ino: Ino, i: Slot, n: nat)
    requires t[HashVal(ino)].Used() && t[HashVal(ino)].ino != ino && ino > SHORT_INODE_UNMAPPED && 1 <= n
    requires forall j :: 1 <= j < n ==> !WalkStops(t, ino, j)
    requires WalkAt(HashNexts(t), HashVal(ino), n) == HashVal(ino)
    ensures var t' := AllocOldest(t, HashVal(ino), i, ino);
            && Found(t, t', ino, i, i) && SameLru(t, t')
            && (ino != SHORT_INODE_UNUSED ==>
                  Rehashed(t, ch, m, t', ChainsAfter(t, ch, ino, i), m[ino := i], ino, i))
  {
    var home := HashVal(ino);
    AllocOldestKeepsRing(t, home, i, ino);
    if ino != SHORT_INODE_UNUSED && ChainsOk(t, ch) {
      if i == home && t[i].hashNext != i {
        forall c ensures !ChainsOk(AllocOldest(t, home, i, ino), c) {
          EvictingSharedHomeBreaksChains(t, ch, home, ino, c);
        }
      } else if i == home {
        EvictingLoneHomeKeepsChains(t, ch, home, ino);
      } else {
        AllocOldestKeepsChains(t, ch, home, i, ino);
      }
      if AgreesWith(t, ch, m) {
        WalkIsComplete(t, ch, m, ino, n);
        if !Evicted(t, ino, i) {
          AllocOldestKeepsMap(t, ch, m, i, ino);
        }
      }
    }
  }
}
