/** The emulated break: init_brk, do_brk and linux26_brk of ibcs/linux26-compat.c, with abi_brk of
    per-svr4/misc.c on top. mmap and mremap succeed. */
module Break {

  const PAGE := 4096
  const ENOMEM := 12
  /** Breaks lie below the last page of the 32-bit address space. */
  const TOP := 0x1_0000_0000 - PAGE

  function ULong(x: int): nat { x % 0x1_0000_0000 }

  /** PAGE_ALIGN, in 32-bit arithmetic. */
  function PageAlign(x: int): (r: nat)
    ensures 0 <= x <= TOP ==> x <= r < x + PAGE && r % PAGE == 0
  {
    ULong(x + PAGE - 1) / PAGE * PAGE
  }

  function PageMask(x: nat): nat { x / PAGE * PAGE }

  lemma PageAlignMonotone(x: nat, y: nat)
    requires x <= y <= TOP
    ensures PageAlign(x) <= PageAlign(y)
    ensures PageAlign(x) == x <==> x % PAGE == 0
  {
  }

  // ---------------------------------------------------------------------------------------------
  // What abi_brk grants

  /** The break a request is compared with: the start, if the recorded break was lowered to it. */
  function From(brk: nat, startBrk: nat, newBrk: nat): nat {
    if startBrk < newBrk < brk then startBrk else brk
  }

  /** The recorded break after a request: the new one only if it is granted and in another page than the one it
      was compared with. */
  function Recorded(brk: nat, startBrk: nat, min: nat, newBrk: nat): nat {
    var from := From(brk, startBrk, newBrk);
    if newBrk >= min && PageAlign(newBrk) != PageAlign(from) then newBrk else from
  }

  predicate Grants(brk: nat, startBrk: nat, min: nat, newBrk: nat) {
    PageAlign(newBrk) == PageAlign(From(brk, startBrk, newBrk)) || newBrk >= min
  }

  lemma AboveStart(addr: nat, from: nat)
    requires addr < from <= TOP
    ensures addr < PageAlign(from)
  {
  }

  function Min3(a: int, b: int, c: int): int {
    if a <= b && a <= c then a else if b <= c then b else c
  }

  /** A request below the mapped heap would be granted: the break itself is below it, or the page that ends
      at it is that of the break and reaches below the start of the heap, or the same for the start. */
  predicate Leaks(brk: nat, startBrk: nat, addr: nat) {
    || 1 <= brk < addr
    || (brk >= 1 && PageAlign(brk) - PAGE < Min3(startBrk, brk - 1, addr - 1))
    || (startBrk < PageAlign(startBrk) && startBrk + 1 < brk && startBrk + 1 < addr)
  }

  /** The request that is granted though it is below the heap. */
  function LeakedBreak(brk: nat, startBrk: nat, addr: nat): int {
    if 1 <= brk < addr then brk
    else if brk >= 1 && PageAlign(brk) - PAGE < Min3(startBrk, brk - 1, addr - 1) then Min3(startBrk, brk - 1, addr - 1)
    else startBrk + 1
  }

  /** All that a call could grant lies at or above the start of the mapped heap if and only if nothing
      leaks. */
  lemma GrantedAboveIff(brk: nat, startBrk: nat, addr: nat, min: nat)
    requires brk <= TOP && startBrk <= TOP && addr % PAGE == 0 && addr <= min <= TOP
    ensures (forall n :: 1 <= n <= TOP && Grants(brk, startBrk, min, n) ==> addr <= n) <==> !Leaks(brk, startBrk, addr)
  {
    if Leaks(brk, startBrk, addr) {
      LeakIsGranted(brk, startBrk, addr, min);
    } else {
      forall n | 1 <= n <= TOP && Grants(brk, startBrk, min, n) ensures addr <= n {
        SamePage(n, From(brk, startBrk, n), addr);
      }
    }
  }

  lemma SamePage(n: nat, from: nat, addr: nat)
    requires n <= TOP && from <= TOP && addr % PAGE == 0
    ensures PageAlign(n) == PageAlign(from) && addr < PageAlign(from) ==> addr <= n
    ensures PageAlign(n) == PageAlign(from) ==> PageAlign(from) - PAGE < n <= PageAlign(from)
    ensures PageAlign(from) - PAGE < n <= PageAlign(from) ==> PageAlign(n) == PageAlign(from)
  {
  }

  lemma LeakIsGranted(brk: nat, startBrk: nat, addr: nat, min: nat)
    requires brk <= TOP && startBrk <= TOP && addr % PAGE == 0 && addr <= min <= TOP && Leaks(brk, startBrk, addr)
    ensures var n := LeakedBreak(brk, startBrk, addr); 1 <= n < addr && Grants(brk, startBrk, min, n)
  {
    var n := LeakedBreak(brk, startBrk, addr);
    SamePage(n, From(brk, startBrk, n), addr);
  }

  /** A new mapping starts at the page after an unaligned break, and yet the page before it is granted. */
  method GrantedBelowHeap() returns (mm: Mm, r: int)
    ensures mm.addr == 0x2000 && r == 0 && fresh(mm) && mm.Valid() && 0x1500 < mm.addr
  {
    mm := new Mm.NewMapping(0x1001, 0x1001);
    r := mm.AbiBrk(0x1500);
  }

  class Mm {
    var brk: nat
    const startBrk: nat
    /** The heap's mapping: where it starts, where it ends, and the lowest break allowed. */
    const addr: nat
    const min: nat
    var max: nat

    ghost predicate Valid()
      reads this
    {
      && brk <= TOP && startBrk <= TOP && addr <= min <= TOP && addr % PAGE == 0
      && max % PAGE == 0 && addr < max <= TOP
      && PageAlign(brk) <= max
    }

    /** init_brk when the highest mapping is the .bss, which the heap then extends; the break may be its
        end. */
    constructor FromBss(brk: nat, startBrk: nat, bssAddr: nat, bssLen: nat)
      requires startBrk <= TOP && 0 < bssLen && bssAddr <= brk <= bssAddr + bssLen <= TOP
      ensures Valid() && this.brk == brk && min == brk && addr == PageMask(bssAddr) && this.startBrk == startBrk
    {
      this.brk, this.startBrk := brk, startBrk;
      addr, max, min := PageMask(bssAddr), PageAlign(bssAddr + bssLen), brk;
      PageAlignMonotone(brk, bssAddr + bssLen);
    }

    /** init_brk with a new mapping of one page. */
    constructor NewMapping(brk: nat, startBrk: nat)
      requires startBrk <= TOP && brk <= TOP - 2 * PAGE
      ensures Valid() && this.brk == brk && min == addr == PageAlign(brk) && this.startBrk == startBrk
    {
      this.brk, this.startBrk := brk, startBrk;
      addr, max, min := PageAlign(brk), PageAlign(brk) + PAGE, PageAlign(brk);
    }

    /** do_brk; the result says whether it succeeded. */
    method DoBrk(at: nat, len: int) returns (ok: bool)
      requires Valid() && 0 <= at + len <= TOP && PageAlign(at + len) <= TOP - PAGE
      modifies this`max
      ensures ok <==> PageAlign(at + len) >= min || PageAlign(at + len) == old(max)
      ensures max % PAGE == 0 && addr < max <= TOP
      ensures ok ==> PageAlign(at + len) <= max
      ensures ok ==> max == if PageAlign(at + len) == min != old(max) then min + PAGE else PageAlign(at + len)
      ensures !ok ==> max == old(max)
    {
      var end := PageAlign(at + len);
      if end != max {
        if end < min {
          return false;
        }
        if end == min {
          end := PageAlign(min + 1);
        }
        max := end;
      }
      ok := true;
    }

    /** linux26_brk: the new break, or a negative error number. */
    method Linux26Brk(newBrk: nat) returns (r: int)
      requires Valid() && newBrk <= TOP - 2 * PAGE
      modifies this`brk, this`max
      ensures Valid()
      ensures newBrk < min ==> r == -ENOMEM && brk == old(brk) && max == old(max)
      ensures newBrk >= min ==> r == newBrk == brk && addr <= newBrk <= max
      ensures newBrk >= min && PageAlign(newBrk) == PageAlign(old(brk)) ==> max == old(max)
      ensures newBrk >= min && PageAlign(newBrk) != PageAlign(old(brk)) ==>
                max == if PageAlign(newBrk) == min != old(max) then min + PAGE else PageAlign(newBrk)
    {
      if newBrk < min {
        return -ENOMEM;
      }
      var newPage: int, oldPage: int := PageAlign(newBrk), PageAlign(brk);
      PageAlignMonotone(newPage, newPage);
      if newPage != oldPage {
        var ok := DoBrk(oldPage, newPage - oldPage);
        if !ok {
          return -ENOMEM;
        }
      }
      brk := newBrk;
      r := newBrk;
    }

    /** abi_brk: 0, a negative error number, or the recorded break when asked for break 0. It may lower
        the recorded break to the start before it looks at the request. */
    method AbiBrk(newBrk: nat) returns (r: int)
      requires Valid() && newBrk <= TOP - 2 * PAGE
      modifies this`brk, this`max
      ensures Valid()
      ensures newBrk == 0 ==> r == brk == old(brk) && max == old(max)
      ensures newBrk != 0 ==> r == 0 || r == -ENOMEM
      ensures newBrk != 0 ==> (r == 0 <==> Grants(old(brk), startBrk, min, newBrk))
      ensures newBrk != 0 && r == 0 ==> newBrk <= PageAlign(newBrk) <= max && PageAlign(brk) == PageAlign(newBrk)
      ensures newBrk != 0 && r == 0 && addr < PageAlign(From(old(brk), startBrk, newBrk)) ==> addr <= newBrk
      ensures r == -ENOMEM ==> max == old(max) && brk <= old(brk)
      ensures newBrk != 0 ==> brk == Recorded(old(brk), startBrk, min, newBrk)
      ensures PageAlign(brk) == PageAlign(From(old(brk), startBrk, newBrk)) ==> max == old(max)
      ensures PageAlign(brk) != PageAlign(From(old(brk), startBrk, newBrk)) ==>
                max == if PageAlign(newBrk) == min != old(max) then min + PAGE else PageAlign(newBrk)
    {
      assert PageAlign(-ENOMEM) == 0;
      SamePage(newBrk, From(brk, startBrk, newBrk), addr);
      hide PageAlign;
      if brk > newBrk && newBrk > startBrk {
        PageAlignMonotone(startBrk, brk);
        brk := startBrk;
      }
      var newPage := PageAlign(newBrk);
      if newBrk == 0 {
        return brk;
      }
      var oldPage := PageAlign(brk);
      if newPage != oldPage {
        var sysbrk := Linux26Brk(newBrk);
        if PageAlign(sysbrk) != newPage {
          return -ENOMEM;
        }
      }
      r := 0;
    }

    ghost function Now(): Snapshot
      reads this
    {
      Snapshot(brk, max)
    }

    ghost predicate Answered(request: nat, answer: int, before: Snapshot, after: Snapshot) {
      Right(startBrk, addr, min, request, answer, before, after)
    }

    method One(request: nat) returns (answer: int)
      requires Valid() && request <= TOP - 2 * PAGE
      modifies this`brk, this`max
      ensures Valid() && Now().Mapped() && Answered(request, answer, old(Now()), Now())
      ensures brk == old(brk) || brk == startBrk || brk >= min
    {
      answer := AbiBrk(request);
    }

    /** A whole run of break calls, whatever is asked for; trace holds the state before and after each.
        If break, start and minimum are above the start of the mapping, every break granted in the run lies
        in the mapped heap. */
    method Run(requests: seq<nat>) returns (answers: seq<int>, ghost trace: seq<Snapshot>)
      requires Valid() && forall i :: 0 <= i < |requests| ==> requests[i] <= TOP - 2 * PAGE
      modifies this`brk, this`max
      ensures Valid() && |answers| == |requests| && |trace| == |requests| + 1
      ensures trace[0] == old(Now()) && trace[|requests|] == Now()
      ensures forall i :: 0 <= i < |trace| ==> trace[i].Mapped()
      ensures forall i :: 0 <= i < |requests| ==> Answered(requests[i], answers[i], trace[i], trace[i + 1])
      ensures addr < min && addr < startBrk && addr < old(brk) ==>
                forall i :: 0 <= i < |requests| && requests[i] != 0 && answers[i] == 0 ==> addr <= requests[i]
    {
      assert Now().Mapped();
      hide Right, PageAlign, Snapshot.Mapped;
      answers, trace := [], [Now()];
      for i := 0 to |requests|
        invariant Valid() && |answers| == i && |trace| == i + 1 && trace[0] == old(Now()) && trace[i] == Now()
        invariant forall k :: 0 <= k <= i ==> trace[k].Mapped()
        invariant forall k :: 0 <= k < i ==> Answered(requests[k], answers[k], trace[k], trace[k + 1])
        invariant addr < min && addr < startBrk && addr < old(brk) ==>
                    && addr < brk
                    && forall k :: 0 <= k < i && requests[k] != 0 && answers[k] == 0 ==> addr <= requests[k]
      {
        ghost var before := Now();
        var r := One(requests[i]);
        if addr < min && addr < startBrk && addr < before.brk {
          InHeap(startBrk, addr, min, requests[i], r, before, Now());
        }
        answers, trace := answers + [r], trace + [Now()];
      }
    }
  }

  datatype Snapshot = Snapshot(brk: nat, max: nat) {
    /** The mapped end is page aligned and the recorded break, rounded up, is not above it. */
    ghost predicate Mapped() { max % PAGE == 0 && PageAlign(brk) <= max }
  }

  /** The answer is the one specified. A granted break is not above the mapped end and its page is the
      recorded one; if the page it is compared with is above the start of the mapping, it is in the mapped
      heap. A refused one leaves the mapping alone, though the recorded break may have been lowered; asking
      for break 0 changes nothing. */
  ghost predicate Right(startBrk: nat, addr: nat, min: nat, request: nat, answer: int,
                        before: Snapshot, after: Snapshot)
  {
    && (request == 0 ==> answer == before.brk && after == before)
    && (request != 0 ==> answer == 0 || answer == -ENOMEM)
    && (request != 0 ==> (answer == 0 <==> Grants(before.brk, startBrk, min, request)))
    && (request != 0 && answer == 0 ==> request <= after.max && PageAlign(after.brk) == PageAlign(request))
    && (request != 0 && answer == 0 && addr < PageAlign(From(before.brk, startBrk, request)) ==> addr <= request)
    && (answer == -ENOMEM ==> after.max == before.max && after.brk <= before.brk)
    && (request != 0 ==> after.brk == Recorded(before.brk, startBrk, min, request))
  }

  lemma InHeap(startBrk: nat, addr: nat, min: nat, request: nat, answer: int, before: Snapshot, after: Snapshot)
    requires Right(startBrk, addr, min, request, answer, before, after)
    requires addr < startBrk <= TOP && addr < before.brk <= TOP
    ensures request != 0 && answer == 0 ==> addr <= request
  {
    AboveStart(addr, From(before.brk, startBrk, request));
  }
}
