/** set_frame of x286/x286emul.c: the start-up stack of a 286 program, built from the top of its data
    segment downwards: strings, then pointers, then the argument count. */
module SetFrame {

  type Byte = x: int | 0 <= x < 256
  type Str = seq<Byte>

  const SEGMENT := 0x10000

  /** A C string: no null inside. */
  predicate IsString(s: Str) { 0 !in s }

  // ---------------------------------------------------------------------------------------------
  // Where things go

  /** Bytes an environment string takes: its null counted and rounded up to even. */
  function EnvSize(s: Str): nat { (|s| + 2) / 2 * 2 }
  function ArgSize(s: Str): nat { |s| + 1 }

  /** The address reached after placing the first n strings of a list below top. */
  function EnvTop(top: int, ss: seq<Str>, n: nat): int
    requires n <= |ss|
  {
    if n == 0 then top else EnvTop(top, ss, n - 1) - EnvSize(ss[n - 1])
  }

  function ArgTop(top: int, ss: seq<Str>, n: nat): int
    requires n <= |ss|
  {
    if n == 0 then top else ArgTop(top, ss, n - 1) - ArgSize(ss[n - 1])
  }

  /** A near pointer is an offset; a far one an offset and a segment. */
  function PtrSize(far: bool): nat { if far then 4 else 2 }
  function Ptrs(far: bool, n: nat): nat { if far then 4 * n else 2 * n }

  /** The bottom of the strings, and the offset of the whole frame. */
  function StringsEnd(argv: seq<Str>, envp: seq<Str>): int {
    ArgTop(EnvTop(SEGMENT, envp, |envp|), argv, |argv|)
  }

  function EnvNull(argv: seq<Str>, envp: seq<Str>): int {
    var z := StringsEnd(argv, envp) - 4;
    z - z % 2
  }

  function FrameStart(argv: seq<Str>, envp: seq<Str>, far: bool): int {
    EnvNull(argv, envp) - Ptrs(far, |envp|) - PtrSize(far) - Ptrs(far, |argv|) - 2
  }

  predicate Fits(argv: seq<Str>, envp: seq<Str>, far: bool) {
    && FrameStart(argv, envp, far) >= 0
    && (forall i :: 0 <= i < |argv| ==> IsString(argv[i])) && (forall i :: 0 <= i < |envp| ==> IsString(envp[i]))
  }

  // ---------------------------------------------------------------------------------------------
  // Reading a frame back, as the 286 program does

  function Word(m: seq<Byte>, a: nat): int
    requires a + 1 < |m|
  {
    (m[a] as int) + 256 * (m[a + 1] as int)
  }

  /** The string from address a up to its null, or to the end of the segment. */
  function ReadString(m: seq<Byte>, a: nat): Str
    decreases |m| - a
  {
    if a >= |m| || m[a] == 0 then [] else [m[a]] + ReadString(m, a + 1)
  }

  /** The strings named by the pointers from address a up to the null pointer; nothing if a far pointer
      names another segment than ds or the table runs off the segment. */
  function ReadTable(m: seq<Byte>, a: nat, far: bool, ds: int): (r: (bool, seq<Str>))
    decreases |m| - a
  {
    if a + PtrSize(far) > |m| then (false, [])
    else if Word(m, a) == 0 && (far ==> Word(m, a + 2) == 0) then (true, [])
    else if far && Word(m, a + 2) != ds then (false, [])
    else
      var (ok, rest) := ReadTable(m, a + PtrSize(far), far, ds);
      (ok, [ReadString(m, Word(m, a))] + rest)
  }

  // ---------------------------------------------------------------------------------------------
  // Facts about memory

  ghost predicate StringAt(m: seq<Byte>, a: int, s: Str) {
    && 0 <= a && a + |s| < |m|
    && (forall k :: 0 <= k < |s| ==> m[a + k] == s[k]) && m[a + |s|] == 0
  }

  ghost predicate PointerAt(m: seq<Byte>, a: int, off: int, far: bool, ds: int) {
    && 0 <= a && a + PtrSize(far) <= |m| && Word(m, a) == off && (far ==> Word(m, a + 2) == ds)
  }

  /** Nothing at lo or above differs. */
  ghost predicate SameAbove(m: seq<Byte>, m': seq<Byte>, lo: int) {
    |m'| == |m| && forall x :: 0 <= x < |m| && lo <= x ==> m'[x] == m[x]
  }

  lemma {:induction false} ReadStringAt(m: seq<Byte>, a: nat, s: Str)
    requires StringAt(m, a, s) && IsString(s)
    ensures ReadString(m, a) == s
    decreases |s|
  {
    if s != [] {
      assert m[a] == s[0];
      assert StringAt(m, a + 1, s[1..]) by {
        forall k | 0 <= k < |s[1..]| ensures m[a + 1 + k] == s[1..][k] {
          assert m[a + (k + 1)] == s[k + 1];
        }
      }
      ReadStringAt(m, a + 1, s[1..]);
      assert s == [s[0]] + s[1..];
    } else {
      assert m[a + 0] == 0;
    }
  }

  /** The head of a table: its first pointer names a string. */
  lemma ReadHead(m: seq<Byte>, a: nat, far: bool, ds: int, s: Str, addr: int)
    requires addr > 0 && IsString(s) && StringAt(m, addr, s) && PointerAt(m, a, addr, far, ds)
    ensures var (ok, rest) := ReadTable(m, a + PtrSize(far), far, ds); ReadTable(m, a, far, ds) == (ok, [s] + rest)
  {
    hide ReadString, StringAt, IsString;
    ReadStringAt(m, addr, s);
  }

  lemma ReadNull(m: seq<Byte>, a: nat, far: bool, ds: int)
    requires PointerAt(m, a, 0, far, 0)
    ensures ReadTable(m, a, far, ds) == (true, [])
  {
  }

  lemma PtrsNext(far: bool, i: nat)
    ensures Ptrs(far, i + 1) == PtrSize(far) + Ptrs(far, i) && Ptrs(far, 0) == 0
  {
  }

  /** A table of pointers to given strings, ended by a null pointer, reads back as those strings. */
  lemma {:induction false} ReadTableAt(m: seq<Byte>, a: nat, far: bool, ds: int, ss: seq<Str>, addrs: seq<int>)
    requires |addrs| == |ss|
    requires forall i :: 0 <= i < |ss| ==> addrs[i] > 0 && IsString(ss[i]) && StringAt(m, addrs[i], ss[i])
    requires forall i :: 0 <= i < |ss| ==> PointerAt(m, a + Ptrs(far, i), addrs[i], far, ds)
    requires PointerAt(m, a + Ptrs(far, |ss|), 0, far, 0)
    ensures ReadTable(m, a, far, ds) == (true, ss)
    decreases |ss|
  {
    hide ReadTable, PointerAt, StringAt, IsString, Ptrs, PtrSize;
    PtrsNext(far, 0);
    if ss == [] {
      ReadNull(m, a, far, ds);
    } else {
      var a' := a + PtrSize(far);
      assert PointerAt(m, a + Ptrs(far, 0), addrs[0], far, ds);
      ReadHead(m, a, far, ds, ss[0], addrs[0]);
      PtrsNext(far, |ss| - 1);
      forall i | 0 <= i < |ss| - 1 ensures PointerAt(m, a' + Ptrs(far, i), addrs[1..][i], far, ds) {
        PtrsNext(far, i);
        assert PointerAt(m, a + Ptrs(far, i + 1), addrs[i + 1], far, ds);
      }
      ReadTableAt(m, a', far, ds, ss[1..], addrs[1..]);
      assert ss == [ss[0]] + ss[1..];
    }
  }

  lemma {:induction false} EnvTopOrder(top: int, ss: seq<Str>, i: nat, n: nat)
    requires i <= n <= |ss|
    ensures EnvTop(top, ss, n) + 2 * (n - i) <= EnvTop(top, ss, i) <= top
    ensures (top - EnvTop(top, ss, n)) % 2 == 0
  {
    hide EnvSize;
    if n > 0 {
      EnvSizeIsEven(ss[n - 1]);
      EnvTopOrder(top, ss, if i < n then i else n - 1, n - 1);
    }
  }

  lemma EnvSizeIsEven(s: Str)
    ensures EnvSize(s) >= 2 && EnvSize(s) % 2 == 0
  {
  }

  lemma {:induction false} ArgTopOrder(top: int, ss: seq<Str>, i: nat, n: nat)
    requires i <= n <= |ss|
    ensures ArgTop(top, ss, n) + (n - i) <= ArgTop(top, ss, i) <= top
  {
    if i < n {
      ArgTopOrder(top, ss, i, n - 1);
    } else if n > 0 {
      ArgTopOrder(top, ss, n - 1, n - 1);
    }
  }

  // ---------------------------------------------------------------------------------------------
  // Tables of strings and pointers in memory

  ghost predicate EnvPlaced(m: seq<Byte>, ss: seq<Str>, n: nat)
    requires n <= |ss|
  {
    forall j :: 0 <= j < n ==> StringAt(m, EnvTop(SEGMENT, ss, j + 1), ss[j])
  }

  ghost predicate ArgPlaced(m: seq<Byte>, top: int, ss: seq<Str>, n: nat)
    requires n <= |ss|
  {
    forall j :: 0 <= j < n ==> StringAt(m, ArgTop(top, ss, j + 1), ss[j])
  }

  lemma EnvPlacedKept(m: seq<Byte>, m': seq<Byte>, ss: seq<Str>, n: nat)
    requires n <= |ss| && EnvPlaced(m, ss, n) && SameAbove(m, m', EnvTop(SEGMENT, ss, n))
    ensures EnvPlaced(m', ss, n)
  {
    forall j | 0 <= j < n ensures StringAt(m', EnvTop(SEGMENT, ss, j + 1), ss[j]) {
      EnvTopOrder(SEGMENT, ss, j + 1, n);
      assert StringAt(m, EnvTop(SEGMENT, ss, j + 1), ss[j]);
    }
  }

  lemma ArgPlacedKept(m: seq<Byte>, m': seq<Byte>, top: int, ss: seq<Str>, n: nat)
    requires n <= |ss| && ArgPlaced(m, top, ss, n) && SameAbove(m, m', ArgTop(top, ss, n))
    ensures ArgPlaced(m', top, ss, n)
  {
    forall j | 0 <= j < n ensures StringAt(m', ArgTop(top, ss, j + 1), ss[j]) {
      ArgTopOrder(top, ss, j + 1, n);
      assert StringAt(m, ArgTop(top, ss, j + 1), ss[j]);
    }
  }

  // ---------------------------------------------------------------------------------------------
  // The code

  /** strcpy to address a. */
  method WriteString(mem: array<Byte>, a: nat, s: Str)
    requires a + |s| < mem.Length
    modifies mem
    ensures StringAt(mem[..], a, s) && SameAbove(old(mem[..]), mem[..], a + |s| + 1)
  {
    var i := 0;
    while i < |s|
      invariant i <= |s| && forall k :: 0 <= k < i ==> mem[a + k] == s[k]
      invariant forall x :: a + |s| < x < mem.Length ==> mem[x] == old(mem[x])
    {
      mem[a + i] := s[i];
      i := i + 1;
    }
    mem[a + i] := 0;
  }

  method PlaceEnv(mem: array<Byte>, envp: seq<Str>) returns (sp: nat)
    requires mem.Length == SEGMENT && EnvTop(SEGMENT, envp, |envp|) >= 0
    modifies mem
    ensures sp == EnvTop(SEGMENT, envp, |envp|) && EnvPlaced(mem[..], envp, |envp|)
  {
    sp := SEGMENT;
    var envc := 0;
    while envc < |envp|
      invariant envc <= |envp| && sp == EnvTop(SEGMENT, envp, envc)
      invariant EnvPlaced(mem[..], envp, envc)
    {
      EnvTopOrder(SEGMENT, envp, envc + 1, |envp|);
      ghost var m := mem[..];
      sp := sp - (|envp[envc]| + 2) / 2 * 2;
      WriteString(mem, sp, envp[envc]);
      EnvPlacedKept(m, mem[..], envp, envc);
      envc := envc + 1;
    }
  }

  method PlaceArgs(mem: array<Byte>, top: nat, argv: seq<Str>) returns (sp: nat)
    requires mem.Length == SEGMENT && top <= SEGMENT && ArgTop(top, argv, |argv|) >= 0
    modifies mem
    ensures sp == ArgTop(top, argv, |argv|) && ArgPlaced(mem[..], top, argv, |argv|)
    ensures SameAbove(old(mem[..]), mem[..], top)
  {
    sp := top;
    var argc := 0;
    while argc < |argv|
      invariant argc <= |argv| && sp == ArgTop(top, argv, argc)
      invariant ArgPlaced(mem[..], top, argv, argc) && SameAbove(old(mem[..]), mem[..], top)
    {
      ArgTopOrder(top, argv, argc + 1, |argv|);
      ArgTopOrder(top, argv, 0, argc);
      ghost var m := mem[..];
      sp := sp - (|argv[argc]| + 1);
      WriteString(mem, sp, argv[argc]);
      ArgPlacedKept(m, mem[..], top, argv, argc);
      argc := argc + 1;
    }
  }

  method PushZeros(mem: array<Byte>, sp0: nat, n: nat) returns (sp: nat)
    requires n <= sp0 <= mem.Length
    modifies mem
    ensures sp == sp0 - n && (forall x :: sp <= x < sp0 ==> mem[x] == 0)
    ensures SameAbove(old(mem[..]), mem[..], sp0)
  {
    sp := sp0;
    while sp > sp0 - n
      invariant sp0 - n <= sp <= sp0 && forall x :: sp <= x < sp0 ==> mem[x] == 0
      invariant forall x :: sp0 <= x < mem.Length ==> mem[x] == old(mem[x])
    {
      sp := sp - 1;
      mem[sp] := 0;
    }
  }

  method WriteWord(mem: array<Byte>, a: nat, w: int)
    requires a + 1 < mem.Length && 0 <= w < 0x10000
    modifies mem
    ensures Word(mem[..], a) == w && SameAbove(old(mem[..]), mem[..], a + 2)
  {
    mem[a] := w % 256;
    mem[a + 1] := w / 256;
  }

  /** One pointer below sp0: the segment first if it is far, then the offset. */
  method PushPointer(mem: array<Byte>, sp0: nat, off: int, far: bool, ds: int) returns (sp: nat)
    requires PtrSize(far) <= sp0 <= mem.Length && 0 <= off < 0x10000 && 0 <= ds < 0x10000
    modifies mem
    ensures sp == sp0 - PtrSize(far) && PointerAt(mem[..], sp, off, far, ds)
    ensures SameAbove(old(mem[..]), mem[..], sp0)
  {
    sp := sp0 - 2;
    if far {
      WriteWord(mem, sp, ds);
      sp := sp - 2;
    }
    WriteWord(mem, sp, off);
  }

  /** The pointers from number i on are in memory, the first of them at a. */
  ghost predicate PointersFrom(m: seq<Byte>, a: int, addrs: seq<int>, i: nat, far: bool, ds: int) {
    forall j :: i <= j < |addrs| ==> PointerAt(m, a + Ptrs(far, j - i), addrs[j], far, ds)
  }

  lemma PointersKept(m: seq<Byte>, m': seq<Byte>, a: int, addrs: seq<int>, i: nat, far: bool, ds: int)
    requires PointersFrom(m, a, addrs, i, far, ds) && SameAbove(m, m', a)
    ensures PointersFrom(m', a, addrs, i, far, ds)
  {
  }

  lemma PointersMore(m: seq<Byte>, m': seq<Byte>, a: int, addrs: seq<int>, i: nat, far: bool, ds: int)
    requires i + 1 <= |addrs| && PointersFrom(m, a, addrs, i + 1, far, ds) && SameAbove(m, m', a)
    requires PointerAt(m', a - PtrSize(far), addrs[i], far, ds)
    ensures PointersFrom(m', a - PtrSize(far), addrs, i, far, ds)
  {
  }

  ghost function EnvAddrs(envp: seq<Str>): seq<int> {
    seq(|envp|, i requires 0 <= i < |envp| => EnvTop(SEGMENT, envp, i + 1))
  }

  ghost function ArgAddrs(top: int, argv: seq<Str>): seq<int> {
    seq(|argv|, i requires 0 <= i < |argv| => ArgTop(top, argv, i + 1))
  }

  /** while (*p++); */
  method SkipString(mem: array<Byte>, a: nat, ghost s: Str) returns (r: nat)
    requires StringAt(mem[..], a, s) && IsString(s)
    ensures r == a + |s| + 1
  {
    r := a;
    ghost var n := 0;
    assert mem[..][a + n] == mem[r];
    while mem[r] != 0
      invariant n <= |s| && r == a + n && (n == |s| || mem[r] == s[n])
      decreases |s| - n
    {
      r, n := r + 1, n + 1;
      assert mem[..][a + n] == mem[r];
    }
    r := r + 1;
  }

  /** Past the null of string i and up to an even address is the string placed before it. */
  lemma NextEnvString(envp: seq<Str>, i: nat)
    requires i < |envp|
    ensures (EnvTop(SEGMENT, envp, i + 1) + |envp[i]| + 2) / 2 * 2 == EnvTop(SEGMENT, envp, i)
  {
    EnvTopOrder(SEGMENT, envp, 0, i + 1);
  }

  method PushEnvPointers(mem: array<Byte>, sp0: nat, envp: seq<Str>, far: bool, ds: int) returns (sp: nat)
    requires mem.Length == SEGMENT && EnvPlaced(mem[..], envp, |envp|) && 0 <= ds < 0x10000
    requires forall i :: 0 <= i < |envp| ==> IsString(envp[i])
    requires Ptrs(far, |envp|) <= sp0 <= EnvTop(SEGMENT, envp, |envp|)
    modifies mem
    ensures sp == sp0 - Ptrs(far, |envp|) && SameAbove(old(mem[..]), mem[..], sp0)
    ensures PointersFrom(mem[..], sp, EnvAddrs(envp), 0, far, ds)
  {
    hide EnvPlaced, PointersFrom, SameAbove, EnvTop, PointerAt;
    sp := sp0;
    var i := |envp|;
    var ep: nat := EnvTop(SEGMENT, envp, |envp|);
    NoPointers(mem[..], sp0, EnvAddrs(envp), far, ds);
    while i > 0
      invariant 0 <= i <= |envp| && sp == sp0 - Ptrs(far, |envp| - i) && ep == EnvTop(SEGMENT, envp, i)
      invariant SameAbove(old(mem[..]), mem[..], sp0)
      invariant PointersFrom(mem[..], sp, EnvAddrs(envp), i, far, ds)
    {
      i := i - 1;
      ghost var m := mem[..];
      EnvTopOrder(SEGMENT, envp, 0, i + 1);
      EnvTopOrder(SEGMENT, envp, i + 1, |envp|);
      sp := PushPointer(mem, sp, ep, far, ds);
      SameAboveTwice(old(mem[..]), m, mem[..], sp0, sp + PtrSize(far));
      PointersMore(m, mem[..], sp + PtrSize(far), EnvAddrs(envp), i, far, ds);
      EnvStillThere(old(mem[..]), mem[..], envp, i, sp0);
      NextEnvString(envp, i);
      ep := SkipString(mem, ep, envp[i]);
      ep := (ep + 1) / 2 * 2;
    }
  }

  lemma NoPointers(m: seq<Byte>, a: int, addrs: seq<int>, far: bool, ds: int)
    ensures PointersFrom(m, a, addrs, |addrs|, far, ds) && SameAbove(m, m, a)
  {
  }

  lemma EnvStillThere(m: seq<Byte>, m': seq<Byte>, envp: seq<Str>, i: nat, lo: int)
    requires EnvPlaced(m, envp, |envp|) && SameAbove(m, m', lo) && i < |envp| && lo <= EnvTop(SEGMENT, envp, |envp|)
    ensures StringAt(m', EnvTop(SEGMENT, envp, i + 1), envp[i])
  {
    EnvTopOrder(SEGMENT, envp, i + 1, |envp|);
    assert StringAt(m, EnvTop(SEGMENT, envp, i + 1), envp[i]);
  }

  lemma ArgStillThere(m: seq<Byte>, m': seq<Byte>, top: int, argv: seq<Str>, i: nat, lo: int)
    requires ArgPlaced(m, top, argv, |argv|) && SameAbove(m, m', lo) && i < |argv| && lo <= ArgTop(top, argv, |argv|)
    ensures StringAt(m', ArgTop(top, argv, i + 1), argv[i])
  {
    ArgTopOrder(top, argv, i + 1, |argv|);
    assert StringAt(m, ArgTop(top, argv, i + 1), argv[i]);
  }

  lemma SameAboveTwice(m0: seq<Byte>, m1: seq<Byte>, m2: seq<Byte>, lo: int, lo': int)
    requires SameAbove(m0, m1, lo) && SameAbove(m1, m2, lo') && lo' <= lo
    ensures SameAbove(m0, m2, lo)
  {
  }

  method PushArgPointers(mem: array<Byte>, sp0: nat, top: nat, argv: seq<Str>, far: bool, ds: int) returns (sp: nat)
    requires mem.Length == SEGMENT && ArgPlaced(mem[..], top, argv, |argv|) && 0 <= ds < 0x10000
    requires forall i :: 0 <= i < |argv| ==> IsString(argv[i])
    requires Ptrs(far, |argv|) <= sp0 <= ArgTop(top, argv, |argv|) && top <= SEGMENT
    modifies mem
    ensures sp == sp0 - Ptrs(far, |argv|) && SameAbove(old(mem[..]), mem[..], sp0)
    ensures PointersFrom(mem[..], sp, ArgAddrs(top, argv), 0, far, ds)
  {
    hide ArgPlaced, PointersFrom, SameAbove;
    sp := sp0;
    var i := |argv|;
    var ap: nat := ArgTop(top, argv, |argv|);
    NoPointers(mem[..], sp0, ArgAddrs(top, argv), far, ds);
    while i > 0
      invariant 0 <= i <= |argv| && sp == sp0 - Ptrs(far, |argv| - i) && ap == ArgTop(top, argv, i)
      invariant SameAbove(old(mem[..]), mem[..], sp0)
      invariant PointersFrom(mem[..], sp, ArgAddrs(top, argv), i, far, ds)
    {
      i := i - 1;
      ghost var m := mem[..];
      ArgTopOrder(top, argv, 0, i + 1);
      ArgTopOrder(top, argv, i + 1, |argv|);
      sp := PushPointer(mem, sp, ap, far, ds);
      SameAboveTwice(old(mem[..]), m, mem[..], sp0, sp + PtrSize(far));
      PointersMore(m, mem[..], sp + PtrSize(far), ArgAddrs(top, argv), i, far, ds);
      ArgStillThere(old(mem[..]), mem[..], top, argv, i, sp0);
      ap := SkipString(mem, ap, argv[i]);
    }
  }

  lemma TableReads(m: seq<Byte>, a: nat, far: bool, ds: int, ss: seq<Str>, addrs: seq<int>)
    requires |addrs| == |ss| && PointersFrom(m, a, addrs, 0, far, ds)
    requires forall i :: 0 <= i < |ss| ==> addrs[i] > 0 && IsString(ss[i]) && StringAt(m, addrs[i], ss[i])
    requires PointerAt(m, a + Ptrs(far, |ss|), 0, far, 0)
    ensures ReadTable(m, a, far, ds) == (true, ss)
  {
    forall i | 0 <= i < |ss| ensures PointerAt(m, a + Ptrs(far, i), addrs[i], far, ds) {
      assert PointerAt(m, a + Ptrs(far, i - 0), addrs[i], far, ds);
    }
    ReadTableAt(m, a, far, ds, ss, addrs);
  }

  lemma NullKept(m: seq<Byte>, m': seq<Byte>, a: nat, far: bool, n: nat)
    requires PointerAt(m, a + Ptrs(far, n), 0, far, 0) && SameAbove(m, m', a)
    ensures PointerAt(m', a + Ptrs(far, n), 0, far, 0)
  {
  }

  lemma EnvTableReads(m0: seq<Byte>, m1: seq<Byte>, m: seq<Byte>, a: nat, lo: int, far: bool, ds: int, envp: seq<Str>)
    requires EnvPlaced(m0, envp, |envp|) && SameAbove(m0, m, lo) && 0 < lo <= EnvTop(SEGMENT, envp, |envp|)
    requires forall i :: 0 <= i < |envp| ==> IsString(envp[i])
    requires PointersFrom(m1, a, EnvAddrs(envp), 0, far, ds) && PointerAt(m1, a + Ptrs(far, |envp|), 0, far, 0)
    requires SameAbove(m1, m, a)
    ensures ReadTable(m, a, far, ds) == (true, envp)
  {
    hide PointerAt, StringAt, IsString, EnvPlaced, SameAbove, ReadTable, EnvTop;
    PointersKept(m1, m, a, EnvAddrs(envp), 0, far, ds);
    NullKept(m1, m, a, far, |envp|);
    hide PointersFrom, Ptrs;
    forall i | 0 <= i < |envp| ensures EnvAddrs(envp)[i] > 0 && StringAt(m, EnvAddrs(envp)[i], envp[i]) {
      EnvTopOrder(SEGMENT, envp, i + 1, |envp|);
      EnvStillThere(m0, m, envp, i, lo);
    }
    TableReads(m, a, far, ds, envp, EnvAddrs(envp));
  }

  lemma ArgTableReads(m0: seq<Byte>, m1: seq<Byte>, m: seq<Byte>, a: nat, lo: int, far: bool, ds: int,
                      top: int, argv: seq<Str>)
    requires ArgPlaced(m0, top, argv, |argv|) && SameAbove(m0, m, lo) && 0 < lo <= ArgTop(top, argv, |argv|)
    requires forall i :: 0 <= i < |argv| ==> IsString(argv[i])
    requires PointersFrom(m1, a, ArgAddrs(top, argv), 0, far, ds) && PointerAt(m1, a + Ptrs(far, |argv|), 0, far, 0)
    requires SameAbove(m1, m, a)
    ensures ReadTable(m, a, far, ds) == (true, argv)
  {
    hide PointerAt, StringAt, IsString, ArgPlaced, SameAbove, ReadTable, ArgTop;
    PointersKept(m1, m, a, ArgAddrs(top, argv), 0, far, ds);
    NullKept(m1, m, a, far, |argv|);
    hide PointersFrom, Ptrs;
    forall i | 0 <= i < |argv| ensures ArgAddrs(top, argv)[i] > 0 && StringAt(m, ArgAddrs(top, argv)[i], argv[i]) {
      ArgTopOrder(top, argv, i + 1, |argv|);
      ArgStillThere(m0, m, top, argv, i, lo);
    }
    TableReads(m, a, far, ds, argv, ArgAddrs(top, argv));
  }

  lemma ZerosAreNull(m: seq<Byte>, a: nat, far: bool)
    requires a + PtrSize(far) <= |m| && forall x :: a <= x < a + PtrSize(far) ==> m[x] == 0
    ensures PointerAt(m, a, 0, far, 0)
  {
  }

  /** The null pointer between the two tables. */
  method PushNull(mem: array<Byte>, sp0: nat, far: bool) returns (sp: nat)
    requires PtrSize(far) <= sp0 <= mem.Length
    modifies mem
    ensures sp == sp0 - PtrSize(far) && PointerAt(mem[..], sp, 0, far, 0)
    ensures SameAbove(old(mem[..]), mem[..], sp0)
  {
    sp := sp0;
    if far {
      sp := PushZeros(mem, sp, 2);
    }
    ghost var m := mem[..];
    sp := PushZeros(mem, sp, 2);
    if far {
      ZerosStay(m, mem[..], sp + 2, sp + 4);
    }
    ZerosAreNull(mem[..], sp, far);
  }

  /** The four null bytes, or five to get to an even address, above the environment pointers. */
  method PushEnvNull(mem: array<Byte>, sp0: nat, far: bool) returns (sp: nat)
    requires 4 <= sp0 <= mem.Length
    modifies mem
    ensures sp == sp0 - 4 - (sp0 - 4) % 2 && PointerAt(mem[..], sp, 0, far, 0)
    ensures SameAbove(old(mem[..]), mem[..], sp0)
  {
    sp := PushZeros(mem, sp0, 4);
    ghost var m := mem[..];
    if sp % 2 == 1 {
      sp := PushZeros(mem, sp, 1);
      ZerosStay(m, mem[..], sp + 1, sp + 5);
    }
    ZerosAreNull(mem[..], sp, far);
  }

  /** set_frame for a segment at an even address, with the whole 64K as its size. The frame reads back
      as exactly the arguments and the environment, in order, with near and with far pointers. */
  method SetFrame(mem: array<Byte>, argv: seq<Str>, envp: seq<Str>, far: bool, ds: int) returns (sp: nat)
    requires mem.Length == SEGMENT && Fits(argv, envp, far) && 0 <= ds < 0x10000
    modifies mem
    ensures sp == FrameStart(argv, envp, far) && sp % 2 == 0 && sp + 1 < mem.Length
    ensures Word(mem[..], sp) == |argv|
    ensures ReadTable(mem[..], sp + 2, far, ds) == (true, argv)
    ensures ReadTable(mem[..], sp + 2 + Ptrs(far, |argv|) + PtrSize(far), far, ds) == (true, envp)
  {
    hide EnvPlaced, ArgPlaced, PointersFrom, SameAbove, ReadTable, PointerAt, EnvTop, ArgTop, Word;
    hide IsString, EnvAddrs, ArgAddrs;
    EnvAbove(argv, envp);
    var ep := PlaceEnv(mem, envp);
    ghost var mEnv := mem[..];
    sp := PlaceArgs(mem, ep, argv);
    ghost var lo, mStr := sp, mem[..];
    sp := PushEnvNull(mem, sp, far);
    ghost var nul, mNul := sp, mem[..];
    SameAboveTwice(mEnv, mStr, mNul, ep, lo);
    EnvPlacedKept(mEnv, mNul, envp, |envp|);
    sp := PushEnvPointers(mem, sp, envp, far, ds);
    ghost var envTab, mEnvP := sp, mem[..];
    PointerKept(mNul, mEnvP, nul, 0, far, 0, nul);
    sp := PushNull(mem, sp, far);
    ghost var argNul, m0 := sp, mem[..];
    SameAboveTwice(mStr, mNul, mEnvP, lo, nul);
    SameAboveTwice(mStr, mEnvP, m0, lo, envTab);
    ArgPlacedKept(mStr, m0, ep, argv, |argv|);
    sp := PushArgPointers(mem, sp, ep, argv, far, ds);
    ghost var argTab, mArgP := sp, mem[..];
    PointerKept(m0, mArgP, argNul, 0, far, 0, argNul);
    sp := sp - 2;
    WriteWord(mem, sp, |argv|);
    SameAboveTwice(m0, mArgP, mem[..], argNul, argTab);
    SameAboveTwice(mEnvP, m0, mem[..], envTab, argNul);
    SameAboveTwice(mStr, m0, mem[..], lo, argNul);
    SameAboveTwice(mEnv, mStr, mem[..], ep, lo);
    EnvTableReads(mEnv, mEnvP, mem[..], envTab, ep, far, ds, envp);
    ArgTableReads(mStr, mArgP, mem[..], argTab, lo, far, ds, ep, argv);
  }

  lemma PointerKept(m: seq<Byte>, m': seq<Byte>, a: int, off: int, far: bool, ds: int, lo: int)
    requires PointerAt(m, a, off, far, ds) && SameAbove(m, m', lo) && lo <= a
    ensures PointerAt(m', a, off, far, ds)
  {
  }

  lemma ZerosStay(m: seq<Byte>, m': seq<Byte>, a: nat, b: nat)
    requires SameAbove(m, m', a) && b <= |m| && forall x :: a <= x < b ==> m[x] == 0
    ensures forall x :: a <= x < b ==> m'[x] == 0
  {
  }

  lemma EnvAbove(argv: seq<Str>, envp: seq<Str>)
    ensures StringsEnd(argv, envp) <= EnvTop(SEGMENT, envp, |envp|) <= SEGMENT
  {
    EnvTopOrder(SEGMENT, envp, 0, |envp|);
    ArgTopOrder(EnvTop(SEGMENT, envp, |envp|), argv, 0, |argv|);
  }
}
