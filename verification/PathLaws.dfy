/** What normalise_path gives its callers: every success is the normal form of the path, taken from
    the working directory where one is needed. */
module PathLaws {
  import opened PathSpec
  import opened Path

  lemma {:induction false} SplitConcat(a: string, b: string)
    ensures Split(a + "/" + b) == Split(a) + Split(b)
    decreases |a|
  {
    hide Split;
    var k, s := FirstSlash(a), a + "/" + b;
    assert s[..k] == a[..k];
    SplitFirst(a, k);
    SplitFirst(s, k);
    if k < |a| {
      SplitConcat(a[k + 1..], b);
      assert s[k + 1..] == a[k + 1..] + "/" + b;
    } else {
      assert s[k + 1..] == b;
    }
  }

  lemma {:induction false} ResolveConcat(abs: bool, stack: seq<string>, a: seq<string>, b: seq<string>)
    ensures Resolve(abs, stack, a + b) == Resolve(abs, Resolve(abs, stack, a), b)
    decreases |a|
  {
    if a == [] {
      assert a + b == b;
    } else {
      assert (a + b)[1..] == a[1..] + b;
      ResolveConcat(abs, Push(abs, stack, a[0]), a[1..], b);
    }
  }

  // ---------------------------------------------------------------------------------------------
  // What normalising does, on strings

  /** What the components of s leave. */
  function Left(s: string): seq<string> {
    Resolve(IsAbs(s), [], Split(if IsAbs(s) then s[1..] else s))
  }

  lemma NormalConcat(s: string, t: string)
    requires s != ""
    ensures IsAbs(s + "/" + t) <==> IsAbs(s)
    ensures Left(s + "/" + t) == Resolve(IsAbs(s), Left(s), Split(t))
  {
    hide Split, Resolve;
    var p := s + "/" + t;
    if IsAbs(s) {
      assert p[1..] == s[1..] + "/" + t;
      SplitConcat(s[1..], t);
      ResolveConcat(true, [], Split(s[1..]), Split(t));
    } else {
      SplitConcat(s, t);
      ResolveConcat(false, [], Split(s), Split(t));
    }
  }

  /** Components that leave any stack as it was may be left out, at the end of a path or inside it. */
  lemma LeftOut(s: string, x: string, t: string)
    requires s != "" && forall stack :: Resolve(IsAbs(s), stack, Split(x)) == stack
    ensures Normal(s + "/" + x) == Normal(s)
    ensures Normal(s + "/" + x + "/" + t) == Normal(s + "/" + t)
  {
    hide Split, Resolve;
    NormalConcat(s, x);
    NormalConcat(s, t);
    var p := x + "/" + t;
    assert s + "/" + x + "/" + t == s + "/" + p;
    NormalConcat(s, p);
    SplitConcat(x, t);
    ResolveConcat(IsAbs(s), Left(s), Split(x), Split(t));
  }

  lemma OneComponent(c: string)
    requires '/' !in c
    ensures Split(c) == [c]
  {
    SplitFirst(c, |c|);
    assert c[..|c|] == c;
  }

  lemma NamePopped(abs: bool, stack: seq<string>, c: string)
    requires c != "" && c != "." && c != ".."
    ensures Resolve(abs, stack, [c, ".."]) == stack
  {
    assert Push(abs, stack, c) == stack + [c];
    assert Push(abs, stack + [c], "..") == stack;
    assert [c, ".."][1..] == [".."] && [".."][1..] == [];
    assert Resolve(abs, stack, [c, ".."]) == Resolve(abs, stack + [c], [".."]) == Resolve(abs, stack, []);
  }

  /** ".." cancels the name before it, and nothing else. */
  lemma DotDotCancels(s: string, c: string, t: string)
    requires s != "" && '/' !in c && c != "" && c != "." && c != ".."
    ensures Normal(s + "/" + c + "/..") == Normal(s)
    ensures Normal(s + "/" + c + "/../" + t) == Normal(s + "/" + t)
  {
    var x := c + "/" + "..";
    OneComponent(c);
    OneComponent("..");
    SplitConcat(c, "..");
    assert Split(x) == [c, ".."];
    forall stack ensures Resolve(IsAbs(s), stack, Split(x)) == stack {
      NamePopped(IsAbs(s), stack, c);
    }
    LeftOut(s, x, t);
    assert s + "/" + x == s + "/" + c + "/..";
    assert s + "/" + x + "/" + t == s + "/" + c + "/../" + t;
  }

  lemma NothingPushed(abs: bool, stack: seq<string>, c: string)
    requires c == "" || c == "."
    ensures Resolve(abs, stack, Split(c)) == stack
  {
    OneComponent(c);
    assert [c][1..] == [];
    assert Resolve(abs, stack, [c]) == Resolve(abs, stack, []);
  }

  /** "." and repeated slashes mean nothing. */
  lemma DotsAndSlashesGo(s: string, t: string)
    requires s != ""
    ensures Normal(s + "/.") == Normal(s) && Normal(s + "/./" + t) == Normal(s + "/" + t)
    ensures Normal(s + "/") == Normal(s) && Normal(s + "//" + t) == Normal(s + "/" + t)
  {
    hide Split, Resolve, Normal;
    DotGoes(s, t);
    EmptyGoes(s, t);
  }

  lemma DotGoes(s: string, t: string)
    requires s != ""
    ensures Normal(s + "/.") == Normal(s) && Normal(s + "/./" + t) == Normal(s + "/" + t)
  {
    hide Split, Resolve, Normal;
    forall stack ensures Resolve(IsAbs(s), stack, Split(".")) == stack {
      NothingPushed(IsAbs(s), stack, ".");
    }
    LeftOut(s, ".", t);
    assert s + "/" + "." == s + "/.";
    assert s + "/" + "." + "/" + t == s + "/./" + t;
  }

  lemma EmptyGoes(s: string, t: string)
    requires s != ""
    ensures Normal(s + "/") == Normal(s) && Normal(s + "//" + t) == Normal(s + "/" + t)
  {
    hide Split, Resolve, Normal;
    forall stack ensures Resolve(IsAbs(s), stack, Split("")) == stack {
      NothingPushed(IsAbs(s), stack, "");
    }
    LeftOut(s, "", t);
    assert s + "/" + "" == s + "/";
    assert s + "/" + "" + "/" + t == s + "//" + t;
  }

  /** There is nothing above the root. */
  lemma RootIsTop(t: string)
    ensures Normal("/..") == "/" && Normal("/../" + t) == Normal("/" + t)
  {
    OneComponent("..");
    assert "/.."[1..] == "..";
    assert Resolve(true, [], [".."]) == Resolve(true, [], []) == [];
    var p := "/../" + t;
    assert p[1..] == ".." + "/" + t && ("/" + t)[1..] == t;
    SplitConcat("..", t);
    ResolveConcat(true, [], [".."], Split(t));
  }

  /** Names all stay, and so do leading ".." of a relative path. */
  lemma NamesStay(abs: bool, ups: nat, cs: seq<string>)
    requires forall k :: 0 <= k < |cs| ==> '/' !in cs[k] && cs[k] != "" && cs[k] != "." && cs[k] != ".."
    requires (abs ==> ups == 0) && ups + |cs| > 0
    ensures var path := (if abs then "/" else "") + Join(seq(ups, _ => "..") + cs); Normal(path) == path
  {
    var stack: seq<string> := seq(ups, _ => "..") + cs;
    hide Join, Normal;
    NamesResolved(abs, ups, cs);
    hide Resolved;
    ShowIsNormal(abs, stack);
    assert "" + Join(stack) == Join(stack);
  }

  lemma NamesResolved(abs: bool, ups: nat, cs: seq<string>)
    requires forall k :: 0 <= k < |cs| ==> '/' !in cs[k] && cs[k] != "" && cs[k] != "." && cs[k] != ".."
    requires abs ==> ups == 0
    ensures Resolved(abs, seq(ups, _ => "..") + cs)
  {
    var stack: seq<string> := seq(ups, _ => "..") + cs;
    assert forall k :: 0 <= k < |stack| ==> stack[k] == if k < ups then ".." else cs[k - ups];
  }

  // ---------------------------------------------------------------------------------------------
  // From a working directory

  /** From a working directory in normal form other than the root a relative path is normalised as
      if it had been written after it. */
  lemma RelativeToCwd(src: string, c: string, size: nat)
    requires !IsAbs(src) && IsAbs(c) && Resolved(true, Split(c[1..])) && Target(src, true, Ok(c), size).Ok?
    ensures Target(src, true, Ok(c), size).value == Normal(c + "/" + src)
  {
    var dir := Split(c[1..]);
    BuildIsResolve(true, dir, Split(src), size);
    assert (c + "/" + src)[1..] == c[1..] + "/" + src;
    SplitConcat(c[1..], src);
    ResolveAgain(true, [], dir);
    assert [] + dir == dir;
    ResolveConcat(true, [], dir, Split(src));
  }

  /** From the root every plain name comes out with two slashes before it. */
  lemma RootCwdDoublesSlash(name: string, size: nat)
    requires Named(name) && '/' !in name && size >= |name| + 4
    ensures Target(name, true, Ok("/"), size) == Ok("//" + name)
    ensures Normal("/" + "/" + name) == "/" + name
  {
    SplitFirst(name, |name|);
    assert name[..|name|] == name && Split(name) == [name];
    RootTarget(name, size);
    RootNormal(name);
  }

  lemma RootTarget(name: string, size: nat)
    requires Named(name) && '/' !in name && size >= |name| + 4 && Split(name) == [name]
    ensures Target(name, true, Ok("/"), size) == Ok("//" + name)
  {
    hide Split, Build, Join, Named;
    assert !IsAbs(name);
    RootBuild(name, size);
    RootJoin(name);
    EmptySplit();
    assert "/"[1..] == "";
    assert "/" + ("/" + name) == "//" + name;
  }

  lemma EmptySplit()
    ensures Split("") == [""]
  {
  }

  lemma RootBuild(name: string, size: nat)
    requires Named(name) && size >= |name| + 4
    ensures Build(true, [""], [name], size) == Ok(["", name])
  {
    assert Slashed([""]) == Slashed([]) + "" + "/";
    assert |Buffered(true, [""])| == 2;
    assert [""] + [name] == ["", name];
    assert [name][1..] == [];
    assert Build(true, [""], [name], size) == Build(true, ["", name], [], size);
  }

  lemma RootJoin(name: string)
    ensures Join(["", name]) == "/" + name
  {
  }

  lemma RootNormal(name: string)
    requires Named(name) && '/' !in name && Split(name) == [name]
    ensures Normal("/" + "/" + name) == "/" + name
  {
    assert ("/" + "/" + name)[1..] == "/" + name && ("/" + name)[1..] == name;
    assert Split("/" + name) == ["", name];
    assert ["", name][1..] == [name];
    assert Resolve(true, [], ["", name]) == Resolve(true, [], [name]) == Resolve(true, [name], []);
  }

  /** Whether every relative path is normalised as written after the working directory. */
  ghost predicate RespectsCwd(c: string) {
    forall src, size: nat :: !IsAbs(src) && Target(src, true, Ok(c), size).Ok? ==>
      Target(src, true, Ok(c), size).value == Normal(c + "/" + src)
  }

  /** Of the working directories the kernel can report, exactly the root breaks the law. */
  lemma CwdLaw(c: string)
    requires c == "/" || (IsAbs(c) && Resolved(true, Split(c[1..])))
    ensures RespectsCwd(c) <==> c != "/"
  {
    if c == "/" {
      RootCwdDoublesSlash("x", 8);
      var t := Target("x", true, Ok(c), 8);
      assert t.value != Normal(c + "/" + "x");
    } else {
      forall src, size: nat | !IsAbs(src) && Target(src, true, Ok(c), size).Ok?
        ensures Target(src, true, Ok(c), size).value == Normal(c + "/" + src)
      {
        RelativeToCwd(src, c, size);
      }
    }
  }

  /** The returned length, null included, is always greater than 1. */
  lemma LengthAboveOne(src: string, isAbs: bool, cwd: Result<string>, size: nat)
    requires Target(src, isAbs, cwd, size).Ok?
    ensures PathLength(Target(src, isAbs, cwd, size)).value > 1
  {
    if !IsAbs(src) && !isAbs {
      BuildIsResolve(false, [], Split(src), size);
      SplitHasNoSlash(src);
      ResolveResolved(false, [], Split(src));
      var stack := Resolve(false, [], Split(src));
      if stack != [] {
        JoinStart(stack);
      }
    }
  }

  /** A buffer two longer than the path, with its root slash counted, is always enough. */
  lemma RoomForPath(src: string, cwd: Result<string>, size: nat)
    requires size >= |src| + 2
    ensures Target(src, false, cwd, size).Ok?
  {
    NothingBuffered();
    BuildHasRoom(IsAbs(src), [], if IsAbs(src) then src[1..] else src, size);
  }

  /** The same with the working directory in front. */
  lemma RoomFromCwd(src: string, c: string, size: nat)
    requires !IsAbs(src) && IsAbs(c) && size >= |c| + |src| + 3
    ensures Target(src, true, Ok(c), size).Ok?
  {
    hide Split, Build, Buffered;
    CwdBuffered(c);
    BuildHasRoom(true, Split(c[1..]), src, size);
  }

  predicate Name(c: string) { c != "" && c != "." && c != ".." && '/' !in c }

  /** The length of names with slashes between them. */
  function LengthOf(cs: seq<string>): nat {
    if cs == [] then 0 else if |cs| == 1 then |cs[0]| else |cs[0]| + 1 + LengthOf(cs[1..])
  }

  /** Names fit exactly if there is room for all of them and one more. */
  lemma {:induction false} BuildNames(abs: bool, stack: seq<string>, cs: seq<string>, size: nat)
    requires cs != [] && forall k :: 0 <= k < |cs| ==> Name(cs[k])
    ensures Build(abs, stack, cs, size).Ok? <==> |Buffered(abs, stack)| + LengthOf(cs) < size
    ensures Build(abs, stack, cs, size).Err? ==> Build(abs, stack, cs, size).errno == ENAMETOOLONG
    decreases |cs|
  {
    hide Buffered;
    assert Push(abs, stack, cs[0]) == stack + [cs[0]];
    BufferedPush(abs, stack, cs[0]);
    if |cs| > 1 {
      BuildNames(abs, stack + [cs[0]], cs[1..], size);
    } else {
      assert cs[1..] == [];
    }
  }

  lemma BufferedPush(abs: bool, stack: seq<string>, c: string)
    ensures |Buffered(abs, stack + [c])| == |Buffered(abs, stack)| + |c| + 1
  {
    SlashedPush(stack, c);
  }

  lemma {:induction false} JoinLength(cs: seq<string>)
    ensures |Join(cs)| == LengthOf(cs)
    decreases |cs|
  {
    if |cs| > 1 {
      JoinLength(cs[1..]);
      JoinFront(cs);
    }
  }

  lemma {:induction false} JoinFront(cs: seq<string>)
    requires |cs| > 1
    ensures Join(cs) == cs[0] + "/" + Join(cs[1..])
    decreases |cs|
  {
    var n := |cs| - 1;
    if n > 1 {
      JoinFront(cs[..n]);
      assert cs[..n][1..] == cs[1..][..n - 1];
    } else {
      assert cs[..n] == [cs[0]] && cs[1..] == [cs[1]];
    }
  }

  /** A path of names is accepted exactly if the buffer holds it and its null, and refused as too long else. */
  lemma NamesFit(abs: bool, cs: seq<string>, cwd: Result<string>, size: nat)
    requires cs != [] && forall k :: 0 <= k < |cs| ==> Name(cs[k])
    ensures var path := (if abs then "/" else "") + Join(cs);
            Target(path, false, cwd, size) == if |path| + 1 <= size then Ok(path) else Err(ENAMETOOLONG)
  {
    var path := (if abs then "/" else "") + Join(cs);
    JoinLength(cs);
    JoinStart(cs);
    SplitJoin(cs);
    NothingBuffered();
    BuildNames(abs, [], cs, size);
    NamesStay(abs, 0, cs);
    assert seq(0, _ => "..") + cs == cs;
    hide Split, Join, Build, Normal;
    assert IsAbs(path) <==> abs;
    assert (if abs then path[1..] else path) == Join(cs);
    if |path| + 1 <= size {
      TargetIsNormal(path, false, cwd, size);
    }
  }

  /** A call fails only as the getcwd system call does, with ERANGE exactly if the working directory is what
      does not fit, or because the path is too long. */
  lemma ErrorsAre(src: string, isAbs: bool, cwd: Result<string>, size: nat)
    requires Target(src, isAbs, cwd, size).Err?
    ensures var e := Target(src, isAbs, cwd, size).errno;
            && (e != -36 ==> !IsAbs(src) && isAbs)
            && (!IsAbs(src) && isAbs && cwd.Err? ==> e == cwd.errno)
            && ((IsAbs(src) || !isAbs || cwd.Ok?) ==> e == -36 || e == -34)
            && (!IsAbs(src) && isAbs && cwd.Ok? ==> (e == -34 <==> |cwd.value| + 1 > size))
  {
    hide Split;
    BuildFails(IsAbs(src), [], Split(if IsAbs(src) then src[1..] else src), size);
    if !IsAbs(src) && isAbs && cwd.Ok? && cwd.value != "" {
      BuildFails(true, Split(cwd.value[1..]), Split(src), size);
    }
  }

  lemma {:induction false} BuildFails(abs: bool, stack: seq<string>, cs: seq<string>, size: nat)
    ensures Build(abs, stack, cs, size).Err? ==> Build(abs, stack, cs, size).errno == ENAMETOOLONG
    decreases |cs|
  {
    if cs != [] {
      BuildFails(abs, Push(abs, stack, cs[0]), cs[1..], size);
    }
  }
}
