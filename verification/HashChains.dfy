/** The hash chains of ibcs/short-inode.c: circular doubly linked lists threaded through the slots
    of one table, chains of different hash values being allowed to merge. */
module HashChains {
  import opened LruRing

  /** The chains as lists. cid[i] is the list slot i is on (-1 when it is on none), cpos[i] its place. */
  datatype Chains = Chains(lists: seq<seq<nat>>, cid: seq<int>, cpos: seq<nat>) {
    ghost predicate On(i: nat) { i < |cid| && 0 <= cid[i] }

    /** lists, cid and cpos describe the same partition of the slots that are on a chain. */
    ghost predicate Coherent() {
      && |cid| == |cpos|
      && (forall i :: 0 <= i < |cid| && 0 <= cid[i] ==>
            cid[i] < |lists| && cpos[i] < |lists[cid[i]]| && lists[cid[i]][cpos[i]] == i)
      && (forall c, k :: 0 <= c < |lists| && 0 <= k < |lists[c]| ==>
            lists[c][k] < |cid| && cid[lists[c][k]] == c && cpos[lists[c][k]] == k)
    }

    ghost function ListOf(i: nat): seq<nat>
      requires Coherent() && On(i)
    {
      lists[cid[i]]
    }

    ghost function After(i: nat): nat
      requires Coherent() && On(i)
    {
      ListOf(i)[Succ(cpos[i], |ListOf(i)|)]
    }

    ghost function Before(i: nat): nat
      requires Coherent() && On(i)
    {
      ListOf(i)[Pred(cpos[i], |ListOf(i)|)]
    }

    /** A new chain holding slot i alone. */
    ghost function AddAlone(i: nat): Chains
      requires |cid| == |cpos| && i < |cid|
    {
      Chains(lists + [[i]], cid[i := |lists|], cpos[i := 0])
    }

    /** Slot i put on the chain of slot s, just after it. */
    ghost function InsertAfter(s: nat, i: nat): Chains
      requires Coherent() && On(s) && i < |cid|
    {
      var c, p := cid[s], cpos[s];
      Chains(lists[c := lists[c][..p + 1] + [i] + lists[c][p + 1..]],
             cid[i := c],
             seq(|cpos|, x requires 0 <= x < |cpos| =>
               if x == i then p + 1 else if cid[x] == c && cpos[x] > p then cpos[x] + 1 else cpos[x]))
    }

    /** Slot i taken off its chain. */
    ghost function Remove(i: nat): Chains
      requires Coherent() && On(i)
    {
      var c, p := cid[i], cpos[i];
      Chains(lists[c := lists[c][..p] + lists[c][p + 1..]],
             cid[i := -1],
             seq(|cpos|, x requires 0 <= x < |cpos| =>
               if cid[x] == c && cpos[x] > p then cpos[x] - 1 else cpos[x]))
    }
  }

  /** The link fields of every slot on a chain name its neighbours on that chain, both ways round. */
  ghost predicate Linked(next: seq<nat>, prev: seq<nat>, ch: Chains) {
    && |next| == |prev| == |ch.cid|
    && ch.Coherent()
    && (forall i :: 0 <= i < |next| && ch.On(i) ==> next[i] == ch.After(i) && prev[i] == ch.Before(i))
  }

  lemma AddAloneLinks(next: seq<nat>, prev: seq<nat>, ch: Chains, i: nat)
    requires Linked(next, prev, ch) && i < |next| && !ch.On(i)
    ensures Linked(next[i := i], prev[i := i], ch.AddAlone(i))
  {
  }

  lemma InsertAfterCoherent(ch: Chains, s: nat, i: nat)
    requires ch.Coherent() && ch.On(s) && i < |ch.cid| && !ch.On(i)
    ensures ch.InsertAfter(s, i).Coherent()
  {
    var ch', c, p := ch.InsertAfter(s, i), ch.cid[s], ch.cpos[s];
    forall d, k | 0 <= d < |ch'.lists| && 0 <= k < |ch'.lists[d]|
      ensures ch'.lists[d][k] < |ch'.cid| && ch'.cid[ch'.lists[d][k]] == d && ch'.cpos[ch'.lists[d][k]] == k
    {
      if d == c {
        assert ch'.lists[d][k] == if k <= p then ch.lists[c][k] else if k == p + 1 then i else ch.lists[c][k - 1];
      }
    }
  }

  lemma InsertedListAt(ch: Chains, s: nat, i: nat, k: nat)
    requires ch.Coherent() && ch.On(s) && i < |ch.cid| && k <= |ch.ListOf(s)|
    ensures var l, l', p := ch.ListOf(s), ch.InsertAfter(s, i).lists[ch.cid[s]], ch.cpos[s];
            |l'| == |l| + 1 && l'[k] == if k <= p then l[k] else if k == p + 1 then i else l[k - 1]
  {
  }

  lemma InsertedAfter(ch: Chains, s: nat, i: nat, x: nat)
    requires ch.Coherent() && ch.On(s) && i < |ch.cid| && !ch.On(i) && (x == i || ch.On(x))
    requires ch.InsertAfter(s, i).Coherent()
    ensures ch.InsertAfter(s, i).After(x) == if x == i then ch.After(s) else if x == s then i else ch.After(x)
  {
  }

  lemma InsertedBefore(ch: Chains, s: nat, i: nat, x: nat)
    requires ch.Coherent() && ch.On(s) && i < |ch.cid| && !ch.On(i) && (x == i || ch.On(x))
    requires ch.InsertAfter(s, i).Coherent()
    ensures ch.InsertAfter(s, i).Before(x) == if x == i then s else if x == ch.After(s) then i else ch.Before(x)
  {
    var ch', l := ch.InsertAfter(s, i), ch.ListOf(s);
    InsertedListAt(ch, s, i, 0);
    if x == i {
      InsertedListAt(ch, s, i, ch.cpos[s]);
    } else if ch.cid[x] == ch.cid[s] {
      assert l[ch.cpos[x]] == x;
      assert ch.cpos[ch.After(s)] == Succ(ch.cpos[s], |l|);
      InsertedListAt(ch, s, i, Pred(ch'.cpos[x], |l| + 1));
    } else {
      assert ch.cid[ch.After(s)] == ch.cid[s];
    }
  }

  /** Insertion changes the neighbours of i, of s and of the slot that followed s, and no others:
      joining i after s, by the four link writes of the source, gives the chain with i inserted. */
  lemma InsertAfterLinks(next: seq<nat>, prev: seq<nat>, ch: Chains, s: nat, i: nat)
    requires Linked(next, prev, ch) && ch.On(s) && i < |next| && !ch.On(i)
    requires next[s] < |next|
    ensures Linked(next[i := next[s]][s := i], prev[next[s] := i][i := s], ch.InsertAfter(s, i))
  {
    var ch' := ch.InsertAfter(s, i);
    InsertAfterCoherent(ch, s, i);
    var next', prev' := next[i := next[s]][s := i], prev[next[s] := i][i := s];
    forall x | 0 <= x < |next| && ch'.On(x) ensures next'[x] == ch'.After(x) && prev'[x] == ch'.Before(x) {
      InsertedAfter(ch, s, i, x);
      InsertedBefore(ch, s, i, x);
    }
  }

  lemma RemoveCoherent(ch: Chains, i: nat)
    requires ch.Coherent() && ch.On(i)
    ensures ch.Remove(i).Coherent()
  {
    var ch', c, p := ch.Remove(i), ch.cid[i], ch.cpos[i];
    forall d, k | 0 <= d < |ch'.lists| && 0 <= k < |ch'.lists[d]|
      ensures ch'.lists[d][k] < |ch'.cid| && ch'.cid[ch'.lists[d][k]] == d && ch'.cpos[ch'.lists[d][k]] == k
    {
      if d == c {
        assert ch'.lists[d][k] == if k < p then ch.lists[c][k] else ch.lists[c][k + 1];
      }
    }
  }

  lemma RemovedListAt(ch: Chains, i: nat, k: nat)
    requires ch.Coherent() && ch.On(i) && k < |ch.ListOf(i)| - 1
    ensures var l, l' := ch.ListOf(i), ch.Remove(i).lists[ch.cid[i]];
            |l'| == |l| - 1 && l'[k] == if k < ch.cpos[i] then l[k] else l[k + 1]
  {
  }

  lemma RemovedAfter(ch: Chains, i: nat, x: nat)
    requires ch.Coherent() && ch.On(i) && ch.On(x) && x != i
    requires ch.Remove(i).Coherent()
    ensures ch.Remove(i).After(x) == if x == ch.Before(i) then ch.After(i) else ch.After(x)
  {
  }

  lemma RemovedBefore(ch: Chains, i: nat, x: nat)
    requires ch.Coherent() && ch.On(i) && ch.On(x) && x != i
    requires ch.Remove(i).Coherent()
    ensures ch.Remove(i).Before(x) == if x == ch.After(i) then ch.Before(i) else ch.Before(x)
  {
    var ch', l := ch.Remove(i), ch.ListOf(i);
    if ch.cid[x] == ch.cid[i] {
      assert l[ch.cpos[x]] == x && l[ch.cpos[i]] == i;
      assert ch.cpos[ch.After(i)] == Succ(ch.cpos[i], |l|);
      RemovedListAt(ch, i, Pred(ch'.cpos[x], |l| - 1));
    } else {
      assert ch.cid[ch.After(i)] == ch.cid[i];
    }
  }

  /** Joining the neighbours of i takes i off its chain. */
  lemma RemoveLinks(next: seq<nat>, prev: seq<nat>, ch: Chains, i: nat)
    requires Linked(next, prev, ch) && ch.On(i) && next[i] < |next| && prev[i] < |next|
    ensures Linked(next[prev[i] := next[i]], prev[next[i] := prev[i]], ch.Remove(i))
  {
    var ch' := ch.Remove(i);
    RemoveCoherent(ch, i);
    var next', prev' := next[prev[i] := next[i]], prev[next[i] := prev[i]];
    forall x | 0 <= x < |next| && ch'.On(x) ensures next'[x] == ch'.After(x) && prev'[x] == ch'.Before(x) {
      RemovedAfter(ch, i, x);
      RemovedBefore(ch, i, x);
    }
  }

  /** On linked chains prev undoes next. */
  lemma PrevUndoesNext(next: seq<nat>, prev: seq<nat>, ch: Chains, i: nat)
    requires Linked(next, prev, ch) && ch.On(i)
    ensures next[i] < |next| && ch.On(next[i]) && prev[next[i]] == i
    ensures prev[i] < |next| && ch.On(prev[i]) && next[prev[i]] == i
  {
  }

  /** Where a walk along next is after j steps. */
  ghost function WalkAt(next: seq<nat>, first: nat, j: nat): (r: nat)
    requires first < |next| && forall i :: 0 <= i < |next| ==> next[i] < |next|
    ensures r < |next|
  {
    if j == 0 then first else next[WalkAt(next, first, j - 1)]
  }

  /** The place j steps on from place p of a cycle of n places. */
  function Rotate(p: nat, j: nat, n: nat): (r: nat)
    requires p < n && j <= n
    ensures r < n
  {
    if p + j < n then p + j else p + j - n
  }

  lemma {:induction false} WalkFollowsChain(next: seq<nat>, prev: seq<nat>, ch: Chains, first: nat, j: nat)
    requires Linked(next, prev, ch) && ch.On(first) && j <= |ch.ListOf(first)|
    requires forall i :: 0 <= i < |next| ==> next[i] < |next|
    ensures var l := ch.ListOf(first); WalkAt(next, first, j) == l[Rotate(ch.cpos[first], j, |l|)]
  {
    if j > 0 {
      WalkFollowsChain(next, prev, ch, first, j - 1);
      var l := ch.ListOf(first);
      var x := l[Rotate(ch.cpos[first], j - 1, |l|)];
      assert ch.On(x) && ch.ListOf(x) == l;
    }
  }

  /** A walk is back at its start for the first time after exactly one turn of the chain. */
  lemma FirstReturn(next: seq<nat>, prev: seq<nat>, ch: Chains, first: nat, j: nat)
    requires Linked(next, prev, ch) && ch.On(first) && 1 <= j <= |ch.ListOf(first)|
    requires forall i :: 0 <= i < |next| ==> next[i] < |next|
    ensures WalkAt(next, first, j) == first <==> j == |ch.ListOf(first)|
  {
    WalkFollowsChain(next, prev, ch, first, j);
  }

  /** Every slot of the chain is met within one turn. */
  lemma WalkMeets(next: seq<nat>, prev: seq<nat>, ch: Chains, first: nat, i: nat) returns (j: nat)
    requires Linked(next, prev, ch) && ch.On(first) && ch.On(i) && ch.cid[i] == ch.cid[first]
    requires forall x :: 0 <= x < |next| ==> next[x] < |next|
    ensures 1 <= j <= |ch.ListOf(first)| && WalkAt(next, first, j) == i
  {
    var p, q, n := ch.cpos[first], ch.cpos[i], |ch.ListOf(first)|;
    j := if q > p then q - p else q + n - p;
    WalkFollowsChain(next, prev, ch, first, j);
  }

  /** A walk that is back at its start for the first time has met every other slot of the chain. */
  lemma FullTurnMeetsAll(next: seq<nat>, prev: seq<nat>, ch: Chains, first: nat, i: nat, n: nat) returns (j: nat)
    requires Linked(next, prev, ch) && ch.On(first) && ch.On(i) && ch.cid[i] == ch.cid[first] && i != first
    requires forall x :: 0 <= x < |next| ==> next[x] < |next|
    requires 1 <= n && WalkAt(next, first, n) == first
    ensures 1 <= j < n && WalkAt(next, first, j) == i
  {
    j := WalkMeets(next, prev, ch, first, i);
    if n <= j {
      FirstReturn(next, prev, ch, first, n);
    }
  }

  // ---------------------------------------------------------------------------------------------
  // Walks along links that need not be chains

  /** The slots a walk meets in its first n steps. */
  ghost function Met(next: seq<nat>, first: nat, n: nat): set<nat>
    requires first < |next| && forall i :: 0 <= i < |next| ==> next[i] < |next|
  {
    if n == 0 then {} else Met(next, first, n - 1) + {WalkAt(next, first, n)}
  }

  lemma {:induction false} MetAt(next: seq<nat>, first: nat, n: nat, x: nat)
    requires first < |next| && forall i :: 0 <= i < |next| ==> next[i] < |next|
    requires x in Met(next, first, n)
    ensures x < |next| && exists j :: 1 <= j <= n && WalkAt(next, first, j) == x
  {
    if x != WalkAt(next, first, n) {
      MetAt(next, first, n - 1, x);
    }
  }

  ghost function Upto(n: nat): (r: set<nat>)
    ensures |r| == n && forall x: nat :: x in r <==> x < n
  {
    if n == 0 then {} else Upto(n - 1) + {n - 1}
  }

  lemma {:induction false} MetCount(next: seq<nat>, first: nat, n: nat)
    requires first < |next| && forall i :: 0 <= i < |next| ==> next[i] < |next|
    requires forall i, j :: 1 <= i < j <= n ==> WalkAt(next, first, i) != WalkAt(next, first, j)
    ensures |Met(next, first, n)| == n
  {
    if n > 0 {
      MetCount(next, first, n - 1);
      if WalkAt(next, first, n) in Met(next, first, n - 1) {
        MetAt(next, first, n - 1, WalkAt(next, first, n));
      }
    }
  }

  /** A walk that is not back within as many steps as there are slots has met some slot twice. */
  lemma Repeats(next: seq<nat>, first: nat) returns (i: nat, j: nat)
    requires first < |next| && forall x :: 0 <= x < |next| ==> next[x] < |next|
    requires forall k :: 1 <= k <= |next| ==> WalkAt(next, first, k) != first
    ensures 1 <= i < j <= |next| && WalkAt(next, first, i) == WalkAt(next, first, j)
  {
    hide WalkAt, Met;
    var n := |next|;
    if forall a, b :: 1 <= a < b <= n ==> WalkAt(next, first, a) != WalkAt(next, first, b) {
      MetCount(next, first, n);
      forall x | x in Met(next, first, n) ensures x in Upto(n) - {first} {
        MetAt(next, first, n, x);
      }
      SubsetSize(Met(next, first, n), Upto(n) - {first});
      assert false;
    }
    i, j :| 1 <= i < j <= n && WalkAt(next, first, i) == WalkAt(next, first, j);
  }

  lemma SubsetSize<T>(a: set<T>, b: set<T>)
    requires a <= b
    ensures |a| <= |b|
  {
    assert b == a + (b - a);
  }

  lemma {:induction false} GoesRound(next: seq<nat>, first: nat, i: nat, j: nat, n: nat)
    requires first < |next| && forall x :: 0 <= x < |next| ==> next[x] < |next|
    requires i < j <= n && WalkAt(next, first, i) == WalkAt(next, first, j)
    ensures WalkAt(next, first, n) == WalkAt(next, first, n - (j - i))
  {
    if n > j {
      GoesRound(next, first, i, j, n - 1);
    }
  }

  /** Whatever such a walk meets it meets within as many steps as there are slots. */
  lemma {:induction false} MeetsNothingNew(next: seq<nat>, first: nat, n: nat) returns (k: nat)
    requires first < |next| && forall x :: 0 <= x < |next| ==> next[x] < |next|
    requires forall j :: 1 <= j <= |next| ==> WalkAt(next, first, j) != first
    requires n >= 1
    ensures 1 <= k <= |next| && WalkAt(next, first, k) == WalkAt(next, first, n)
    decreases n
  {
    k := n;
    if n > |next| {
      var i, j := Repeats(next, first);
      GoesRound(next, first, i, j, n);
      k := MeetsNothingNew(next, first, n - (j - i));
    }
  }
}
