/** The least-recently-used ring of ibcs/short-inode.c, on its own: a doubly linked cycle held
    in two link sequences, and the "move to the end" order it stands for. */
module LruRing {

  /** The position after k on a cycle of n positions. */
  function Succ(k: nat, n: nat): (r: nat)
    requires k < n
    ensures r < n
  {
    if k + 1 == n then 0 else k + 1
  }

  /** The position before k on a cycle of n positions. */
  function Pred(k: nat, n: nat): (r: nat)
    requires k < n
    ensures r < n && Succ(r, n) == k
  {
    if k == 0 then n - 1 else k - 1
  }

  /** The abstract operation: the element at position k becomes the newest one. */
  function MoveToEnd(order: seq<nat>, k: nat): (r: seq<nat>)
    requires k < |order|
  {
    order[..k] + order[k + 1..] + [order[k]]
  }

  /** Where s is in the order, or the length of the order. */
  function Place(order: seq<nat>, s: nat): (k: nat)
    ensures k <= |order| && (k < |order| ==> order[k] == s) && forall j :: 0 <= j < k ==> order[j] != s
  {
    if order == [] || order[0] == s then 0 else 1 + Place(order[1..], s)
  }

  /** The list with s moved to its end. */
  function ToEnd(order: seq<nat>, s: nat): seq<nat> {
    if Place(order, s) < |order| then MoveToEnd(order, Place(order, s)) else order
  }

  /** Where each slot is after the element at position k moved to the end. */
  function MovedPositions(pos: seq<nat>, k: nat): (r: seq<nat>)
    requires k < |pos|
  {
    seq(|pos|, i requires 0 <= i < |pos| =>
      if pos[i] < k then pos[i] else if pos[i] == k then |pos| - 1 else pos[i] - 1)
  }

  /** order is a permutation of 0..n-1 and pos is its inverse. */
  ghost predicate Permutation(order: seq<nat>, pos: seq<nat>) {
    && |order| == |pos|
    && (forall k :: 0 <= k < |order| ==> order[k] < |order| && pos[order[k]] == k)
    && (forall i :: 0 <= i < |pos| ==> pos[i] < |order| && order[pos[i]] == i)
  }

  /** The links run once round all slots in the given order, prev being the inverse of next. */
  ghost predicate Ring(next: seq<nat>, prev: seq<nat>, order: seq<nat>, pos: seq<nat>) {
    && |next| == |prev| == |order|
    && Permutation(order, pos)
    && (forall k :: 0 <= k < |order| ==> next[order[k]] == order[Succ(k, |order|)])
    && (forall k :: 0 <= k < |order| ==> prev[order[k]] == order[Pred(k, |order|)])
  }

  /** Moving to the end keeps a permutation a permutation. */
  lemma MoveToEndPermutes(order: seq<nat>, pos: seq<nat>, k: nat)
    requires Permutation(order, pos) && k < |order|
    ensures Permutation(MoveToEnd(order, k), MovedPositions(pos, k))
  {
  }

  /** The link updates made by unlinking slot i and linking it in again before the oldest slot. */
  function UnlinkNext(next: seq<nat>, prev: seq<nat>, i: nat): seq<nat>
    requires i < |next| == |prev| && prev[i] < |next|
  {
    next[prev[i] := next[i]]
  }

  function UnlinkPrev(next: seq<nat>, prev: seq<nat>, i: nat): seq<nat>
    requires i < |next| == |prev| && next[i] < |next|
  {
    prev[next[i] := prev[i]]
  }

  /** next' and prev' are the links after slot i was used: unlinked from its neighbours, then linked
      in between the newest slot and the oldest slot of what is left. */
  ghost predicate Touched(next: seq<nat>, prev: seq<nat>, first: nat, i: nat,
                          oldest: nat, next': seq<nat>, prev': seq<nat>)
  {
    && i < |next| == |prev| && next[i] < |next| && prev[i] < |next|
    && oldest == (if i == first then next[i] else first) && oldest < |next|
    && var newest := UnlinkPrev(next, prev, i)[oldest];
    && newest < |next|
    && next' == UnlinkNext(next, prev, i)[newest := i][i := oldest]
    && prev' == UnlinkPrev(next, prev, i)[i := newest][oldest := i]
  }

  /** Neighbours in the new order, other than at its end, are neighbours in the ring without i. */
  lemma UnlinkedStep(next: seq<nat>, prev: seq<nat>, order: seq<nat>, pos: seq<nat>, k: nat, j: nat)
    requires Ring(next, prev, order, pos) && |order| >= 2 && k < |order| && j < |order| - 2
    ensures var o := MoveToEnd(order, k);
            && UnlinkNext(next, prev, order[k])[o[j]] == o[j + 1]
            && UnlinkPrev(next, prev, order[k])[o[j + 1]] == o[j]
  {
  }

  /** The slots a use links i to are the last two of the new order and its first. */
  lemma TouchedSeam(next: seq<nat>, prev: seq<nat>, order: seq<nat>, pos: seq<nat>,
                    i: nat, oldest: nat, next': seq<nat>, prev': seq<nat>)
    requires Ring(next, prev, order, pos) && |order| >= 2 && i < |order|
    requires Touched(next, prev, order[0], i, oldest, next', prev')
    ensures var o := MoveToEnd(order, pos[i]);
            |o| == |order| && o[0] == oldest && o[|o| - 1] == i
            && UnlinkPrev(next, prev, i)[oldest] == o[|o| - 2]
  {
  }

  lemma TouchedStep(next: seq<nat>, prev: seq<nat>, order: seq<nat>, pos: seq<nat>,
                    i: nat, oldest: nat, next': seq<nat>, prev': seq<nat>, j: nat)
    requires Ring(next, prev, order, pos) && |order| >= 2 && i < |order| && j < |order|
    requires Touched(next, prev, order[0], i, oldest, next', prev')
    requires Permutation(MoveToEnd(order, pos[i]), MovedPositions(pos, pos[i]))
    ensures var o := MoveToEnd(order, pos[i]);
            |o| == |order| && next'[o[j]] == o[Succ(j, |o|)] && prev'[o[Succ(j, |o|)]] == o[j]
  {
    TouchedSeam(next, prev, order, pos, i, oldest, next', prev');
    var o := MoveToEnd(order, pos[i]);
    if j < |o| - 2 {
      UnlinkedStep(next, prev, order, pos, pos[i], j);
      assert o[j] != o[|o| - 1] && o[j] != o[|o| - 2] && o[j + 1] != o[0] && o[j + 1] != o[|o| - 1];
    }
  }

  /** The six link writes of one use of slot i leave a ring whose order is the old one with i moved
      to the end, whichever of the neighbours, the oldest slot and the newest slot coincide. */
  lemma TouchMovesToEnd(next: seq<nat>, prev: seq<nat>, order: seq<nat>, pos: seq<nat>,
                        i: nat, oldest: nat, next': seq<nat>, prev': seq<nat>)
    requires Ring(next, prev, order, pos) && |order| >= 2 && i < |order|
    requires Touched(next, prev, order[0], i, oldest, next', prev')
    ensures Ring(next', prev', MoveToEnd(order, pos[i]), MovedPositions(pos, pos[i]))
    ensures MoveToEnd(order, pos[i])[0] == oldest
  {
    var o := MoveToEnd(order, pos[i]);
    MoveToEndPermutes(order, pos, pos[i]);
    TouchedSeam(next, prev, order, pos, i, oldest, next', prev');
    forall j | 0 <= j < |o| ensures next'[o[j]] == o[Succ(j, |o|)] && prev'[o[j]] == o[Pred(j, |o|)] {
      TouchedStep(next, prev, order, pos, i, oldest, next', prev', j);
      TouchedStep(next, prev, order, pos, i, oldest, next', prev', Pred(j, |o|));
    }
  }

  /** The first n slots met when following next from start. */
  function ReadRing(next: seq<nat>, start: nat, n: nat): (r: seq<nat>)
    requires start < |next| && forall i :: 0 <= i < |next| ==> next[i] < |next|
    decreases n
  {
    if n == 0 then [] else [start] + ReadRing(next, next[start], n - 1)
  }

  /** Reading the links from the k-th slot of the order meets exactly the rest of the order. */
  lemma {:induction false} ReadRingIsOrder(next: seq<nat>, prev: seq<nat>, order: seq<nat>, pos: seq<nat>, k: nat)
    requires Ring(next, prev, order, pos) && k < |order|
    requires forall i :: 0 <= i < |next| ==> next[i] < |next|
    ensures ReadRing(next, order[k], |order| - k) == order[k..]
    decreases |order| - k
  {
    if k + 1 < |order| {
      ReadRingIsOrder(next, prev, order, pos, k + 1);
    } else {
      assert ReadRing(next, next[order[k]], 0) == [];
    }
    assert order[k..] == [order[k]] + order[k + 1..];
  }
}
