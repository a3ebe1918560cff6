/** normalise_path of ibcs/filemap.c: one pass over the source path, writing the normal form into a
    buffer of bounded size and backing up in it for "..". */
module Path {
  import opened Chars
  import opened PathSpec

  datatype Result<+T> = Ok(value: T) | Err(errno: int)

  const ENAMETOOLONG := -36
  const ERANGE := -34

  // ---------------------------------------------------------------------------------------------
  // What is in the buffer

  /** Each component of the stack with a slash after it. */
  function Slashed(stack: seq<string>): string {
    if stack == [] then "" else Slashed(stack[..|stack| - 1]) + stack[|stack| - 1] + "/"
  }

  function Buffered(abs: bool, stack: seq<string>): string {
    (if abs then "/" else "") + Slashed(stack)
  }

  /** Components a buffer can hold. The lowest one may be empty: a working directory of "/" leaves
      "//" in the buffer. */
  ghost predicate Holdable(abs: bool, stack: seq<string>) {
    && (forall k :: 0 <= k < |stack| ==> '/' !in stack[k] && (stack[k] == "" ==> abs && k == 0))
    && (abs ==> forall k :: 0 <= k < |stack| ==> stack[k] != "..")
  }

  lemma PushHoldable(abs: bool, stack: seq<string>, c: string)
    requires Holdable(abs, stack) && '/' !in c
    ensures Holdable(abs, Push(abs, stack, c))
  {
  }

  lemma SlashedPush(stack: seq<string>, c: string)
    ensures Slashed(stack + [c]) == Slashed(stack) + c + "/"
  {
  }

  /** The test of the source for "the previous component is ..". */
  predicate EndsDotDot(b: string) {
    || |b| == 0
    || (|b| == 3 && b[1] == '.' && b[0] == '.')
    || (|b| >= 4 && b[|b| - 2] == '.' && b[|b| - 3] == '.' && b[|b| - 4] == '/')
  }

  lemma SlashedEnd(stack: seq<string>)
    requires stack != []
    ensures Slashed(stack) == Slashed(stack[..|stack| - 1]) + stack[|stack| - 1] + "/"
    ensures |stack| >= 2 ==> var pre := Slashed(stack[..|stack| - 1]); pre != "" && pre[|pre| - 1] == '/'
  {
  }

  lemma EndsDotDotIsKeeps(abs: bool, stack: seq<string>)
    requires Holdable(abs, stack)
    ensures EndsDotDot(Buffered(abs, stack)) <==> Keeps(abs, stack)
    ensures |Buffered(abs, stack)| == 1 <==> abs && stack == []
  {
    if stack != [] {
      SlashedEnd(stack);
      var b, c := Buffered(abs, stack), stack[|stack| - 1];
      var pre := Buffered(abs, stack[..|stack| - 1]);
      assert b == pre + c + "/";
      assert pre == "" || pre[|pre| - 1] == '/';
      if |c| >= 1 {
        assert b[|b| - 2] == c[|c| - 1];
      }
      if |c| >= 2 {
        assert b[|b| - 3] == c[|c| - 2];
      }
      if |c| >= 3 {
        assert b[|b| - 4] == c[|c| - 3];
      }
    }
  }

  // ---------------------------------------------------------------------------------------------
  // The fold, with the limits of a buffer of the given size

  function Build(abs: bool, stack: seq<string>, cs: seq<string>, size: nat): Result<seq<string>>
    decreases |cs|
  {
    if cs == [] then Ok(stack)
    else if Overflows(abs, stack, cs, size) then Err(ENAMETOOLONG)
    else Build(abs, Push(abs, stack, cs[0]), cs[1..], size)
  }

  /** The next component does not fit: with its slash, if one follows, the buffer would be full. */
  predicate Overflows(abs: bool, stack: seq<string>, cs: seq<string>, size: nat)
    requires cs != []
  {
    var used := |Buffered(abs, stack)|;
    if cs[0] == "" || cs[0] == "." then false
    else if cs[0] == ".." then Keeps(abs, stack) && used + 3 >= size
    else used + |cs[0]| + (if |cs| > 1 then 1 else 0) >= size
  }

  /** A result that is not cut short is the unbounded fold. */
  lemma {:induction false} BuildIsResolve(abs: bool, stack: seq<string>, cs: seq<string>, size: nat)
    requires Build(abs, stack, cs, size).Ok?
    ensures Build(abs, stack, cs, size).value == Resolve(abs, stack, cs)
    decreases |cs|
  {
    if cs != [] {
      BuildIsResolve(abs, Push(abs, stack, cs[0]), cs[1..], size);
    }
  }

  lemma SlashedPop(stack: seq<string>)
    requires stack != []
    ensures |Slashed(stack)| == |Slashed(stack[..|stack| - 1])| + |stack[|stack| - 1]| + 1
  {
  }

  /** A buffer with room for what is there, the rest of the source and a little more is never full. */
  lemma {:induction false} BuildHasRoom(abs: bool, stack: seq<string>, s: string, size: nat)
    requires |Buffered(abs, stack)| + |s| + 2 <= size
    ensures Build(abs, stack, Split(s), size).Ok?
    decreases |s|
  {
    var k := FirstSlash(s);
    SplitFirst(s, k);
    var cs, stack' := Split(s), Push(abs, stack, s[..k]);
    if stack' == stack + [s[..k]] {
      SlashedPush(stack, s[..k]);
    } else if stack' != stack {
      SlashedPop(stack);
    }
    if k < |s| {
      assert cs[1..] == Split(s[k + 1..]);
      BuildHasRoom(abs, stack', s[k + 1..], size);
    } else {
      assert cs[1..] == [];
    }
  }

  function FirstSlash(s: string): (k: nat)
    ensures k <= |s| && '/' !in s[..k] && (k < |s| ==> s[k] == '/')
  {
    if s == "" || s[0] == '/' then 0
    else
      var k := 1 + FirstSlash(s[1..]);
      assert s[..k] == [s[0]] + s[1..][..k - 1];
      k
  }

  // ---------------------------------------------------------------------------------------------
  // The code

  /** The copying loop: one component, with the slash after it if there is one. */
  method CopyComponent(dst: array<char>, d0: nat, src: string, s0: nat) returns (r: Result<(nat, nat)>)
    requires d0 < dst.Length && s0 < |src| && NUL !in src && src[s0] != '/'
    modifies dst
    ensures var k := FirstSlash(src[s0..]);
            var n := if s0 + k < |src| then k + 1 else k;
            && (r.Err? <==> d0 + n >= dst.Length)
            && (r.Err? ==> r.errno == ENAMETOOLONG)
            && (r.Ok? ==> r.value == (d0 + n, s0 + n) && dst[..d0 + n] == old(dst[..d0]) + src[s0..s0 + n])
  {
    var d, s := d0, s0;
    ghost var k := FirstSlash(src[s0..]);
    ghost var n := if s0 + k < |src| then k + 1 else k;
    assert forall j :: 0 <= j < k ==> src[s0..][..k][j] == src[s0 + j];
    while true
      invariant s0 <= s <= s0 + k && d == d0 + (s - s0) && d < dst.Length
      invariant dst[..d] == old(dst[..d0]) + src[s0..s]
      decreases s0 + k - s
    {
      dst[d] := At(src, s);
      if dst[d] == NUL {
        return Ok((d, s));
      }
      assert s < |src| && src[s0..s + 1] == src[s0..s] + [src[s]];
      if d + 1 >= dst.Length {
        return Err(ENAMETOOLONG);
      }
      if src[s] == '/' {
        return Ok((d + 1, s + 1));
      }
      d, s := d + 1, s + 1;
    }
  }

  /** The loop that erases the last component and its slash. */
  method EraseComponent(dst: array<char>, d0: nat, ghost pre: string, ghost c: string) returns (d: nat)
    requires d0 <= dst.Length && dst[..d0] == pre + c + "/" && '/' !in c
    requires pre == "" || pre[|pre| - 1] == '/'
    ensures d < d0 && dst[..d] == pre
  {
    forall j | |pre| <= j < d0 - 1 ensures dst[j] != '/' {
      assert dst[j] == dst[..d0][j] == c[j - |pre|];
    }
    assert pre != "" ==> dst[..d0][|pre| - 1] == '/';
    d := d0 - 1;
    while d > 0 && dst[d - 1] != '/'
      invariant |pre| <= d < d0
    {
      d := d - 1;
    }
    assert dst[..d] == dst[..d0][..d];
  }

  lemma LastComponent(abs: bool, stack: seq<string>)
    requires stack != []
    ensures var pre := Buffered(abs, stack[..|stack| - 1]);
            && Buffered(abs, stack) == pre + stack[|stack| - 1] + "/"
            && (pre == "" || pre[|pre| - 1] == '/')
  {
  }

  /** What the buffer holds when all components have been read: closed means that the last one was
      copied without a slash after it. */
  ghost predicate Read(b: string, abs: bool, stack: seq<string>, closed: bool) {
    if closed then stack != [] && b + "/" == Buffered(abs, stack) && b != "" && b[|b| - 1] != '/'
    else b == Buffered(abs, stack)
  }

  lemma {:induction false} SlashedConcat(a: seq<string>, b: seq<string>)
    ensures Slashed(a + b) == Slashed(a) + Slashed(b)
  {
    if b == [] {
      assert a + b == a;
    } else {
      var b', c := b[..|b| - 1], b[|b| - 1];
      SlashedConcat(a, b');
      SlashedPush(b', c);
      SlashedPush(a + b', c);
      hide Slashed;
      assert a + b == (a + b') + [c] && b == b' + [c];
    }
  }

  lemma {:induction false} SlashedSplit(x: string)
    ensures Slashed(Split(x)) == x + "/"
    decreases |x|
  {
    hide Slashed, Split;
    var k := FirstSlash(x);
    SplitFirst(x, k);
    SlashedOne(x[..k]);
    if k < |x| {
      SlashedSplit(x[k + 1..]);
      SlashedConcat([x[..k]], Split(x[k + 1..]));
      assert x == x[..k] + "/" + x[k + 1..];
    } else {
      assert x[..k] == x && [x] + [] == [x];
    }
  }

  lemma SlashedOne(c: string)
    ensures Slashed([c]) == c + "/"
  {
    assert Slashed([c]) == Slashed([]) + c + "/";
  }

  lemma {:induction false} SlashedIsJoin(stack: seq<string>)
    requires stack != []
    ensures Slashed(stack) == Join(stack) + "/"
  {
    if |stack| > 1 {
      SlashedIsJoin(stack[..|stack| - 1]);
    }
  }

  /** A working directory as the kernel reports it: absolute, and with no ".." in it. */
  ghost predicate GoodCwd(c: string) {
    IsAbs(c) && NUL !in c && Holdable(true, Split(c[1..]))
  }

  function Finish(abs: bool, r: Result<seq<string>>): Result<string> {
    match r
    case Ok(stack) => Ok(Show(abs, stack))
    case Err(e) => Err(e)
  }

  /** What normalise_path must leave in a buffer of the given size. */
  function Target(src: string, isAbs: bool, cwd: Result<string>, size: nat): Result<string> {
    if IsAbs(src) then Finish(true, Build(true, [], Split(src[1..]), size))
    else if !isAbs then Finish(false, Build(false, [], Split(src), size))
    else
      match cwd
      case Err(e) => Err(e)
      case Ok(c) =>
        if |c| + 1 > size then Err(ERANGE)
        else if |c| + 2 >= size || c == "" then Err(ENAMETOOLONG)
        else Finish(true, Build(true, Split(c[1..]), Split(src), size))
  }

  function PathLength(r: Result<string>): Result<nat> {
    match r
    case Ok(path) => Ok(|path| + 1)
    case Err(e) => Err(e)
  }

  /** The getcwd system call: the name and its null, and the position of the null. */
  method Getcwd(dst: array<char>, cwd: string) returns (d: nat)
    requires |cwd| < dst.Length
    modifies dst
    ensures d == |cwd| && dst[..d] == cwd
  {
    d := 0;
    while d < |cwd|
      invariant d <= |cwd| && dst[..d] == cwd[..d]
    {
      dst[d] := cwd[d];
      d := d + 1;
    }
    dst[d] := NUL;
  }

  /** The end of normalise_path: drop a final slash, or write "." for nothing at all. */
  function Stripped(b: string): string {
    if b == "" then "." else if |b| != 1 && b[|b| - 1] == '/' then b[..|b| - 1] else b
  }

  method Terminate(dst: array<char>, d0: nat) returns (n: nat)
    requires d0 < dst.Length && 2 <= dst.Length
    modifies dst
    ensures n <= dst.Length && dst[..n] == Stripped(old(dst[..d0])) + [NUL]
  {
    var d := d0;
    if d == 0 {
      dst[d] := '.';
      d := d + 1;
    } else if d != 1 && dst[d - 1] == '/' {
      d := d - 1;
    }
    dst[d] := NUL;
    n := d + 1;
  }

  lemma StrippedIsShow(b: string, abs: bool, stack: seq<string>, closed: bool)
    requires Holdable(abs, stack) && Read(b, abs, stack, closed)
    ensures Stripped(b) == Show(abs, stack)
  {
    if stack == [] {
      assert b == if abs then "/" else "";
    } else {
      BufferedIsShow(abs, stack);
      EndsDotDotIsKeeps(abs, stack);
      hide Holdable, Show, Buffered;
      if closed {
        SameBeforeSlash(b, Show(abs, stack));
      } else {
        SameBeforeSlash(b[..|b| - 1], Show(abs, stack));
      }
    }
  }

  lemma BufferedIsShow(abs: bool, stack: seq<string>)
    requires stack != []
    ensures Buffered(abs, stack) == Show(abs, stack) + "/"
  {
    SlashedIsJoin(stack);
    hide Slashed, Join;
    assert abs ==> "/" + (Join(stack) + "/") == "/" + Join(stack) + "/";
  }

  lemma SameBeforeSlash(x: string, y: string)
    ensures x + "/" == y + "/" ==> x == y
  {
    if x + "/" == y + "/" {
      assert x == (x + "/")[..|x|] && y == (y + "/")[..|y|];
    }
  }

  /** The value the fold has still to reach from here. */
  ghost function Ahead(abs: bool, stack: seq<string>, src: string, s: nat, size: nat, closed: bool): Result<seq<string>>
    requires s <= |src|
  {
    if closed then Ok(stack) else Build(abs, stack, Split(src[s..]), size)
  }

  /** One component further on; n is its length, with its slash if it has one. */
  lemma AheadStep(abs: bool, stack: seq<string>, src: string, s: nat, size: nat, k: nat, n: nat, closed: bool)
    requires s < |src| && k == FirstSlash(src[s..]) && n == (if s + k < |src| then k + 1 else k)
    requires closed ==> s + n == |src|
    ensures s + n <= |src|
    ensures Ahead(abs, stack, src, s, size, false) ==
              if Overflows(abs, stack, Split(src[s..]), size) then Err(ENAMETOOLONG)
              else Ahead(abs, Push(abs, stack, src[s..s + k]), src, s + n, size, closed)
    ensures Split(src[s..])[0] == src[s..s + k] && (|Split(src[s..])| > 1 <==> n == k + 1)
    ensures Split(src[s..])[0] == src[s..s + k] && '/' !in src[s..s + k]
  {
    var t := src[s..];
    SplitFirst(t, k);
    assert t[..k] == src[s..s + k];
    var c := src[s..s + k];
    if k < |t| {
      assert Split(t)[1..] == Split(t[k + 1..]) && t[k + 1..] == src[s + n..];
    } else {
      assert Split(t)[1..] == [] && src[s + n..] == "" && Split("") == [""];
    }
    if closed || k == |t| {
      var stack' := Push(abs, stack, c);
      assert src[s + n..] == "";
      assert Build(abs, stack', [""], size) == Build(abs, stack', [], size);
    }
  }

  /** The "/.." part of the loop. */
  method DotDot(dst: array<char>, d0: nat, src: string, s: nat, ghost abs: bool, ghost stack: seq<string>)
    returns (r: Result<nat>)
    requires d0 < dst.Length && Holdable(abs, stack) && dst[..d0] == Buffered(abs, stack)
    requires s + 2 <= |src| && At(src, s) == At(src, s + 1) == '.' && (At(src, s + 2) == '/' || s + 2 == |src|)
    modifies dst
    ensures r.Err? <==> Keeps(abs, stack) && d0 + 3 >= dst.Length
    ensures r.Err? ==> r.errno == ENAMETOOLONG
    ensures r.Ok? ==> r.value < dst.Length
    ensures r.Ok? ==> Read(dst[..r.value], abs, Push(abs, stack, ".."), Keeps(abs, stack) && s + 2 == |src|)
  {
    hide Buffered, Holdable;
    var d := d0;
    ghost var b := dst[..d0];
    EndsDotDotIsKeeps(abs, stack);
    assert d0 >= 2 ==> dst[d0 - 2] == b[d0 - 2];
    assert d0 >= 3 ==> dst[d0 - 3] == b[d0 - 3];
    assert d0 >= 4 ==> dst[d0 - 4] == b[d0 - 4];
    if d == 0 || (d == 3 && dst[d - 2] == '.' && dst[d - 3] == '.') ||
       (d >= 4 && dst[d - 2] == '.' && dst[d - 3] == '.' && dst[d - 4] == '/')
    {
      if d + 3 >= dst.Length {
        return Err(ENAMETOOLONG);
      }
      dst[d] := src[s];
      dst[d + 1] := src[s + 1];
      d := d + 2;
      assert dst[..d] == b + "..";
      if At(src, s + 2) != NUL {
        dst[d] := '/';
        d := d + 1;
        assert dst[..d] == b + ".." + "/";
      }
      PushDotDot(abs, stack);
    } else if d != 1 {
      LastComponent(abs, stack);
      LastHasNoSlash(abs, stack);
      d := EraseComponent(dst, d, Buffered(abs, stack[..|stack| - 1]), stack[|stack| - 1]);
    }
    r := Ok(d);
  }

  lemma PushDotDot(abs: bool, stack: seq<string>)
    ensures Buffered(abs, stack + [".."]) == Buffered(abs, stack) + ".." + "/"
    ensures Buffered(abs, stack + [".."]) == (Buffered(abs, stack) + "..") + "/"
  {
  }

  lemma LastHasNoSlash(abs: bool, stack: seq<string>)
    requires Holdable(abs, stack) && stack != []
    ensures '/' !in stack[|stack| - 1]
  {
  }

  /** A component that is kept as it is. */
  predicate Named(c: string) { c != "" && c != "." && c != ".." }

  /** What a copied component leaves in the buffer. */
  lemma NamedIsPushed(b: string, abs: bool, stack: seq<string>, c: string, closed: bool)
    requires Named(c) && '/' !in c && b == Buffered(abs, stack) + c + (if closed then "" else "/")
    ensures Push(abs, stack, c) == stack + [c] && Read(b, abs, stack + [c], closed)
  {
  }

  /** After one component: what the buffer holds, and what the fold has still to reach. */
  ghost predicate Onward(dst: seq<char>, abs: bool, stack: seq<string>, stack': seq<string>, src: string, s0: nat,
                         d: nat, s: nat, closed: bool)
    requires s0 <= |src|
  {
    && s0 < s <= |src| && d < |dst| && (closed ==> s == |src|)
    && Holdable(abs, stack') && Read(dst[..d], abs, stack', closed)
    && Ahead(abs, stack, src, s0, |dst|, false) == Ahead(abs, stack', src, s, |dst|, closed)
  }

  /** The "/.." branch of the loop. */
  method NextDotDot(dst: array<char>, d0: nat, src: string, s0: nat, ghost abs: bool, ghost stack: seq<string>)
    returns (r: Result<nat>, s: nat, ghost stack': seq<string>, ghost closed: bool)
    requires d0 < dst.Length && s0 + 1 < |src| && NUL !in src
    requires Holdable(abs, stack) && dst[..d0] == Buffered(abs, stack)
    requires src[s0] == src[s0 + 1] == '.' && (At(src, s0 + 2) == '/' || At(src, s0 + 2) == NUL)
    modifies dst
    ensures r.Err? ==> r.errno == ENAMETOOLONG && Ahead(abs, stack, src, s0, dst.Length, false) == Err(ENAMETOOLONG)
    ensures r.Ok? ==> Onward(dst[..], abs, stack, stack', src, s0, r.value, s, closed)
  {
    hide Buffered, Holdable, Build, Split, Push, Keeps, Read, Ahead;
    s := if At(src, s0 + 2) == NUL then s0 + 2 else s0 + 3;
    ghost var k, n := FirstSlash(src[s0..]), s - s0;
    DotDotHere(src, s0, k);
    stack', closed := Push(abs, stack, ".."), Keeps(abs, stack) && s0 + 2 == |src|;
    PushHoldable(abs, stack, "..");
    AheadStep(abs, stack, src, s0, dst.Length, k, n, closed);
    r := DotDot(dst, d0, src, s0, abs, stack);
    if r.Ok? {
      assert dst[..][..r.value] == dst[..r.value];
    }
  }

  /** The copying branch of the loop. */
  method NextNamed(dst: array<char>, d0: nat, src: string, s0: nat, ghost abs: bool, ghost stack: seq<string>)
    returns (r: Result<nat>, s: nat, ghost stack': seq<string>, ghost closed: bool)
    requires d0 < dst.Length && s0 < |src| && NUL !in src && src[s0] != '/'
    requires Holdable(abs, stack) && dst[..d0] == Buffered(abs, stack)
    requires !(src[s0] == '.' && (At(src, s0 + 1) == '/' || At(src, s0 + 1) == NUL))
    requires !(src[s0] == '.' && At(src, s0 + 1) == '.' && (At(src, s0 + 2) == '/' || At(src, s0 + 2) == NUL))
    modifies dst
    ensures r.Err? ==> r.errno == ENAMETOOLONG && Ahead(abs, stack, src, s0, dst.Length, false) == Err(ENAMETOOLONG)
    ensures r.Ok? ==> Onward(dst[..], abs, stack, stack', src, s0, r.value, s, closed)
  {
    hide Buffered, Holdable, Build, Split, Push, Keeps, Read, Ahead;
    ghost var k := FirstSlash(src[s0..]);
    NamedHere(src, s0, k);
    ghost var c, b := src[s0..s0 + k], dst[..d0];
    s, closed := s0, s0 + k == |src|;
    AheadStep(abs, stack, src, s0, dst.Length, k, if closed then k else k + 1, closed);
    stack' := Push(abs, stack, c);
    PushHoldable(abs, stack, c);
    var res := CopyComponent(dst, d0, src, s0);
    if res.Err? {
      r := Err(res.errno);
      return;
    }
    s := res.value.1;
    assert src[s0..s] == c + if closed then "" else "/";
    assert b + (c + if closed then "" else "/") == b + c + if closed then "" else "/";
    NamedIsPushed(dst[..res.value.0], abs, stack, c, closed);
    assert dst[..][..res.value.0] == dst[..res.value.0];
    r := Ok(res.value.0);
  }

  /** The branches that skip an empty component or ".". */
  lemma Skipped(dst: seq<char>, d: nat, abs: bool, stack: seq<string>, src: string, s0: nat, s: nat)
    requires d < |dst| && s0 < |src| && NUL !in src && Holdable(abs, stack) && dst[..d] == Buffered(abs, stack)
    requires src[s0] == '/' || (src[s0] == '.' && (At(src, s0 + 1) == '/' || At(src, s0 + 1) == NUL))
    requires s == s0 + if src[s0] != '/' && At(src, s0 + 1) == '/' then 2 else 1
    ensures Onward(dst, abs, stack, stack, src, s0, d, s, false)
  {
    hide Buffered, Holdable, Build, Split, Push, Keeps, Ahead;
    var k := FirstSlash(src[s0..]);
    EmptyOrDot(abs, stack, src, s0, k);
    AheadStep(abs, stack, src, s0, |dst|, k, s - s0, false);
  }

  /** The main loop, from a buffer that holds the components of stack. */
  method Components(dst: array<char>, d0: nat, src: string, s0: nat, ghost abs: bool, ghost stack0: seq<string>)
    returns (r: Result<nat>)
    requires d0 < dst.Length && s0 <= |src| && NUL !in src
    requires Holdable(abs, stack0) && dst[..d0] == Buffered(abs, stack0)
    modifies dst
    ensures var result := Build(abs, stack0, Split(src[s0..]), dst.Length);
            && (r.Err? <==> result.Err?)
            && (r.Err? ==> r.errno == result.errno)
            && (r.Ok? ==> r.value < dst.Length && Stripped(dst[..r.value]) == Show(abs, result.value))
  {
    hide Buffered, Holdable, Build, Split, Stripped, Show, Read, Ahead;
    AheadStarts(abs, stack0, src, s0, dst.Length);
    ReadOpen(dst[..d0], abs, stack0);
    var s: nat, d: nat := s0, d0;
    ghost var stack, closed := stack0, false;
    while s < |src|
      invariant s <= |src| && d < dst.Length && (closed ==> s == |src|)
      invariant Holdable(abs, stack) && Read(dst[..d], abs, stack, closed)
      invariant Ahead(abs, stack0, src, s0, dst.Length, false) == Ahead(abs, stack, src, s, dst.Length, closed)
      decreases |src| - s
    {
      ReadOpen(dst[..d], abs, stack);
      assert dst[..][..d] == dst[..d];
      if src[s] == '/' {
        Skipped(dst[..], d, abs, stack, src, s, s + 1);
        s := s + 1;
      } else if src[s] == '.' && At(src, s + 1) == '/' {
        Skipped(dst[..], d, abs, stack, src, s, s + 2);
        s := s + 2;
      } else if src[s] == '.' && At(src, s + 1) == NUL {
        Skipped(dst[..], d, abs, stack, src, s, s + 1);
        s := s + 1;
      } else {
        var res;
        if src[s] == '.' && At(src, s + 1) == '.' && (At(src, s + 2) == '/' || At(src, s + 2) == NUL) {
          res, s, stack, closed := NextDotDot(dst, d, src, s, abs, stack);
        } else {
          res, s, stack, closed := NextNamed(dst, d, src, s, abs, stack);
        }
        if res.Err? {
          return res;
        }
        d := res.value;
        assert dst[..][..d] == dst[..d];
      }
    }
    AheadEnds(abs, stack, src, dst.Length, closed);
    StrippedIsShow(dst[..d], abs, stack, closed);
    r := Ok(d);
  }

  lemma AheadStarts(abs: bool, stack: seq<string>, src: string, s: nat, size: nat)
    requires s <= |src|
    ensures Ahead(abs, stack, src, s, size, false) == Build(abs, stack, Split(src[s..]), size)
  {
  }

  lemma ReadOpen(b: string, abs: bool, stack: seq<string>)
    ensures Read(b, abs, stack, false) <==> b == Buffered(abs, stack)
  {
  }

  lemma AheadEnds(abs: bool, stack: seq<string>, src: string, size: nat, closed: bool)
    ensures Ahead(abs, stack, src, |src|, size, closed) == Ok(stack)
  {
    assert src[|src|..] == "" && Split("") == [""];
    assert Build(abs, stack, [""], size) == Build(abs, stack, [], size);
  }

  lemma EmptyOrDot(abs: bool, stack: seq<string>, src: string, s: nat, k: nat)
    requires s < |src| && k == FirstSlash(src[s..]) && NUL !in src
    requires src[s] == '/' || (src[s] == '.' && (At(src, s + 1) == '/' || At(src, s + 1) == NUL))
    ensures Push(abs, stack, src[s..s + k]) == stack && k == if src[s] == '/' then 0 else 1
    ensures src[s..s + k] == "" || src[s..s + k] == "."
  {
  }

  lemma DotDotHere(src: string, s: nat, k: nat)
    requires s + 1 < |src| && k == FirstSlash(src[s..]) && NUL !in src
    requires src[s] == src[s + 1] == '.' && (At(src, s + 2) == '/' || At(src, s + 2) == NUL)
    ensures k == 2 && src[s..s + 2] == ".."
  {
  }

  lemma NamedHere(src: string, s: nat, k: nat)
    requires s < |src| && k == FirstSlash(src[s..]) && src[s] != '/'
    requires !(src[s] == '.' && (At(src, s + 1) == '/' || At(src, s + 1) == NUL))
    requires !(src[s] == '.' && At(src, s + 1) == '.' && (At(src, s + 2) == '/' || At(src, s + 2) == NUL))
    ensures Named(src[s..s + k]) && s + k <= |src|
  {
  }

  /** normalise_path. cwd is what the getcwd system call answers. */
  method NormalisePath(dst: array<char>, src: string, isAbs: bool, cwd: Result<string>) returns (r: Result<nat>)
    requires dst.Length >= 2 && NUL !in src
    requires cwd.Ok? ==> GoodCwd(cwd.value)
    modifies dst
    ensures r == PathLength(Target(src, isAbs, cwd, dst.Length))
    ensures r.Ok? ==> r.value <= dst.Length
    ensures r.Ok? ==> dst[..r.value] == Target(src, isAbs, cwd, dst.Length).value + [NUL]
    ensures r.Ok? && (IsAbs(src) || !isAbs) ==> dst[..r.value] == Normal(src) + [NUL]
  {
    hide Buffered, Slashed, Build, Split, Stripped, Show;
    var s: nat, d: nat := 0, 0;
    ghost var abs, stack := false, [];
    assert src[0..] == src;
    if At(src, 0) == '/' {
      dst[0] := src[0];
      s, d, abs := 1, 1, true;
      assert dst[..d] == "/";
    } else if isAbs {
      if cwd.Err? {
        return Err(cwd.errno);
      }
      if |cwd.value| + 1 > dst.Length {
        return Err(ERANGE);
      }
      d := Getcwd(dst, cwd.value);
      if d + 2 >= dst.Length {
        return Err(ENAMETOOLONG);
      }
      dst[d] := '/';
      d := d + 1;
      abs, stack := true, Split(cwd.value[1..]);
      assert dst[..d] == cwd.value + "/";
      CwdBuffered(cwd.value);
    }
    NothingBuffered();
    var res := Components(dst, d, src, s, abs, stack);
    if res.Err? {
      return Err(res.errno);
    }
    var n := Terminate(dst, res.value);
    r := Ok(n);
    if IsAbs(src) || !isAbs {
      TargetIsNormal(src, isAbs, cwd, dst.Length);
    }
  }

  /** A successful call that needs no working directory leaves the normal form of the path. */
  lemma TargetIsNormal(src: string, isAbs: bool, cwd: Result<string>, size: nat)
    requires (IsAbs(src) || !isAbs) && Target(src, isAbs, cwd, size).Ok?
    ensures Target(src, isAbs, cwd, size).value == Normal(src)
  {
    BuildIsResolve(IsAbs(src), [], Split(if IsAbs(src) then src[1..] else src), size);
  }

  lemma CwdBuffered(c: string)
    requires IsAbs(c)
    ensures Buffered(true, Split(c[1..])) == c + "/"
  {
    SlashedSplit(c[1..]);
    assert c == "/" + c[1..];
  }

  lemma NothingBuffered()
    ensures Buffered(true, []) == "/" && Buffered(false, []) == ""
  {
  }
}
