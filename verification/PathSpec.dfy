/** What a normalised path is: the components of a path folded through a stack. */
module PathSpec {

  /** The components between the slashes of s; empty ones included. */
  function Split(s: string): (r: seq<string>)
    ensures |r| >= 1
  {
    if s == "" then [""]
    else
      var r := Split(s[1..]);
      if s[0] == '/' then [""] + r else [[s[0]] + r[0]] + r[1..]
  }

  function Join(cs: seq<string>): string {
    if cs == [] then "" else if |cs| == 1 then cs[0] else Join(cs[..|cs| - 1]) + "/" + cs[|cs| - 1]
  }

  /** ".." stays when there is nothing it can cancel: at the start of a relative path or after "..". */
  predicate Keeps(abs: bool, stack: seq<string>) {
    if stack == [] then !abs else stack[|stack| - 1] == ".."
  }

  function Push(abs: bool, stack: seq<string>, c: string): seq<string> {
    if c == "" || c == "." then stack
    else if c != ".." || Keeps(abs, stack) then stack + [c]
    else if stack == [] then stack
    else stack[..|stack| - 1]
  }

  function Resolve(abs: bool, stack: seq<string>, cs: seq<string>): seq<string>
    decreases |cs|
  {
    if cs == [] then stack else Resolve(abs, Push(abs, stack, cs[0]), cs[1..])
  }

  function Show(abs: bool, stack: seq<string>): string {
    if abs then "/" + Join(stack) else if stack == [] then "." else Join(stack)
  }

  predicate IsAbs(s: string) { s != "" && s[0] == '/' }

  /** The normal form of a path that need not be made absolute. */
  function Normal(s: string): string {
    Show(IsAbs(s), Resolve(IsAbs(s), [], Split(if IsAbs(s) then s[1..] else s)))
  }

  // ---------------------------------------------------------------------------------------------
  // Normal forms

  predicate Plain(c: string) { c != "" && c != "." && '/' !in c }

  /** Components that are already resolved: ".." only as a leading run of a relative path. */
  ghost predicate Resolved(abs: bool, stack: seq<string>) {
    && (forall k :: 0 <= k < |stack| ==> Plain(stack[k]))
    && (forall k :: 0 <= k < |stack| && stack[k] == ".." ==> !abs && (k == 0 || stack[k - 1] == ".."))
  }

  lemma {:induction false} SplitHasNoSlash(s: string)
    ensures forall k :: 0 <= k < |Split(s)| ==> '/' !in Split(s)[k]
  {
    if s != "" {
      SplitHasNoSlash(s[1..]);
    }
  }

  lemma PushResolved(abs: bool, stack: seq<string>, c: string)
    requires Resolved(abs, stack) && '/' !in c
    ensures Resolved(abs, Push(abs, stack, c))
  {
  }

  lemma {:induction false} ResolveResolved(abs: bool, stack: seq<string>, cs: seq<string>)
    requires Resolved(abs, stack) && forall k :: 0 <= k < |cs| ==> '/' !in cs[k]
    ensures Resolved(abs, Resolve(abs, stack, cs))
    decreases |cs|
  {
    if cs != [] {
      PushResolved(abs, stack, cs[0]);
      ResolveResolved(abs, Push(abs, stack, cs[0]), cs[1..]);
    }
  }

  /** Resolving what is resolved changes nothing. */
  lemma {:induction false} ResolveAgain(abs: bool, stack: seq<string>, cs: seq<string>)
    requires Resolved(abs, stack + cs)
    ensures Resolve(abs, stack, cs) == stack + cs
    decreases |cs|
  {
    if cs == [] {
      assert stack + cs == stack;
    } else {
      var c := (stack + cs)[|stack|];
      assert c == cs[0] && Plain(c);
      if c == ".." && stack != [] {
        assert (stack + cs)[|stack| - 1] == "..";
      }
      assert (stack + [c]) + cs[1..] == stack + cs;
      ResolveAgain(abs, stack + [c], cs[1..]);
    }
  }

  /** The first component runs up to the first slash. */
  lemma {:induction false} SplitFirst(s: string, k: nat)
    requires k <= |s| && '/' !in s[..k] && (k < |s| ==> s[k] == '/')
    ensures Split(s) == [s[..k]] + if k < |s| then Split(s[k + 1..]) else []
  {
    if k > 0 {
      assert s[1..][..k - 1] == s[1..k];
      assert forall j :: 0 <= j < k - 1 ==> s[1..k][j] == s[..k][j + 1];
      SplitFirst(s[1..], k - 1);
      assert s[..k] == [s[0]] + s[1..k];
      if k < |s| {
        assert s[1..][k..] == s[k + 1..];
      }
    }
  }

  lemma {:induction false} SplitAppend(a: string, b: string)
    requires '/' !in b
    ensures Split(a + "/" + b) == Split(a) + [b]
  {
    if a == "" {
      SplitFirst(b, |b|);
      assert ("/" + b)[1..] == b;
      assert a + "/" + b == "/" + b;
      assert b[..|b|] == b;
    } else {
      SplitAppend(a[1..], b);
      assert (a + "/" + b)[1..] == a[1..] + "/" + b;
    }
  }

  /** Splitting undoes joining. */
  lemma {:induction false} SplitJoin(cs: seq<string>)
    requires cs != [] && forall k :: 0 <= k < |cs| ==> '/' !in cs[k]
    ensures Split(Join(cs)) == cs
  {
    if |cs| == 1 {
      SplitFirst(cs[0], |cs[0]|);
      assert cs[0][..|cs[0]|] == cs[0];
    } else {
      SplitJoin(cs[..|cs| - 1]);
      SplitAppend(Join(cs[..|cs| - 1]), cs[|cs| - 1]);
    }
  }

  lemma {:induction false} JoinStart(cs: seq<string>)
    requires cs != [] && Plain(cs[0])
    ensures Join(cs) != "" && Join(cs)[0] == cs[0][0]
  {
    if |cs| > 1 {
      JoinStart(cs[..|cs| - 1]);
    }
  }

  lemma ShowIsNormal(abs: bool, stack: seq<string>)
    requires Resolved(abs, stack)
    ensures Normal(Show(abs, stack)) == Show(abs, stack)
  {
    var s := Show(abs, stack);
    if stack != [] {
      JoinStart(stack);
      SplitJoin(stack);
      assert s == if abs then "/" + Join(stack) else Join(stack);
      assert IsAbs(s) <==> abs;
      assert (if IsAbs(s) then s[1..] else s) == Join(stack);
      ResolveAgain(abs, [], stack);
      assert [] + stack == stack;
    } else if abs {
      assert s[1..] == "";
      assert Resolve(true, [], [""]) == Resolve(true, [], []);
    } else {
      SplitFirst(".", 1);
      assert "."[..1] == ".";
      assert Split(".") == ["."];
      assert Resolve(false, [], ["."]) == Resolve(false, [], []);
    }
  }

  /** Normalising twice is normalising once. */
  lemma NormalIdempotent(s: string)
    ensures Normal(Normal(s)) == Normal(s)
  {
    var t := if IsAbs(s) then s[1..] else s;
    SplitHasNoSlash(t);
    ResolveResolved(IsAbs(s), [], Split(t));
    ShowIsNormal(IsAbs(s), Resolve(IsAbs(s), [], Split(t)));
  }
}
