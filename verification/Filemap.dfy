/** filemap_map of ibcs/filemap.c: the first rule that matches the normalised path rewrites it inside
    the caller's buffer. */
module Filemap {
  import opened Chars
  import opened PathSpec
  import opened Path

  datatype Rule = Rule(from: string, to: string) {
    /** What the parser accepts: both paths absolute, both or neither ending with a slash. */
    predicate Valid() {
      && IsAbs(from) && IsAbs(to) && NUL !in from && NUL !in to
      && (from[|from| - 1] == '/' <==> to[|to| - 1] == '/')
    }

    predicate IsDir() { from != "" && from[|from| - 1] == '/' }

    predicate Matches(path: string) { path == from || (IsDir() && from <= path) }

    function Rewrite(path: string): string
      requires Matches(path)
    {
      if IsDir() then to + path[|from|..] else to
    }
  }

  /** What a rule does to a path, in their characters: a rule for one file applies to its own path only, a
      rule for a directory to what its path is the beginning of, and what follows is kept. */
  ghost predicate Applies(rule: Rule, path: string, out: string) {
    if rule.from == "" || rule.from[|rule.from| - 1] != '/' then path == rule.from && out == rule.to
    else exists t :: path == rule.from + t && out == rule.to + t
  }

  lemma AppliesIff(rule: Rule, path: string)
    ensures rule.Matches(path) ==> Applies(rule, path, rule.Rewrite(path))
    ensures forall out :: Applies(rule, path, out) ==> rule.Matches(path) && out == rule.Rewrite(path)
  {
    if rule.IsDir() {
      if rule.Matches(path) {
        var t := path[|rule.from|..];
        assert path == rule.from + t && rule.Rewrite(path) == rule.to + t;
      }
      forall out | Applies(rule, path, out) ensures rule.Matches(path) && out == rule.Rewrite(path) {
        var t :| path == rule.from + t && out == rule.to + t;
        assert path[|rule.from|..] == t;
      }
    }
  }

  /** The index of the first rule that matches, or the number of rules. */
  function FirstMatch(rules: seq<Rule>, path: string): (i: nat)
    ensures i <= |rules| && (i < |rules| ==> rules[i].Matches(path))
    ensures forall j :: 0 <= j < i ==> !rules[j].Matches(path)
  {
    if rules == [] || rules[0].Matches(path) then 0
    else
      var i := 1 + FirstMatch(rules[1..], path);
      assert forall j :: 0 < j < i ==> rules[j] == rules[1..][j - 1];
      i
  }

  /** The buffer holds the string s, null terminated. */
  ghost predicate Contains(dst: array<char>, s: string)
    reads dst
  {
    |s| < dst.Length && dst[..|s|] == s && dst[|s|] == NUL && NUL !in s
  }

  /** The comparison loop and the two tests after it. */
  method Match(dst: array<char>, rule: Rule, ghost path: string) returns (found: bool)
    requires Contains(dst, path) && rule.Valid()
    ensures found == rule.Matches(path)
  {
    var n := 0;
    while At(rule.from, n) != NUL && At(rule.from, n) == dst[n]
      invariant n <= |rule.from| && n <= |path| && rule.from[..n] == path[..n]
      decreases |rule.from| - n
    {
      assert dst[n] == if n < |path| then dst[..|path|][n] else NUL;
      n := n + 1;
    }
    assert dst[n] == if n < |path| then dst[..|path|][n] else NUL;
    assert n == |rule.from| ==> rule.from[..n] == rule.from;
    assert n == |path| ==> path[..n] == path;
    if At(rule.from, n) == dst[n] {
      return true;
    }
    if At(rule.from, n) == NUL && rule.from[n - 1] == '/' {
      assert rule.from <= path;
      return true;
    }
    found := false;
  }

  /** Making room for a longer directory name: the tail moves right by pad, its end first. */
  method ShiftRight(dst: array<char>, from: nat, len: nat, pad: nat)
    requires from <= len && len + pad < dst.Length
    modifies dst
    ensures dst[from + pad..len + pad + 1] == old(dst[from..len + 1])
  {
    var d := len + 1;
    while d > from
      invariant from <= d <= len + 1
      invariant forall i :: 0 <= i < d ==> dst[i] == old(dst[i])
      invariant forall i :: d <= i <= len ==> dst[i + pad] == old(dst[i])
    {
      d := d - 1;
      dst[d + pad] := dst[d];
    }
  }

  /** Closing the gap after a shorter directory name: the tail moves left by pad, up to its null. */
  method ShiftLeft(dst: array<char>, at: nat, pad: nat, ghost tail: string)
    requires pad >= 1 && at + pad + |tail| < dst.Length && NUL !in tail
    requires dst[at + pad..at + pad + |tail|] == tail && dst[at + pad + |tail|] == NUL
    modifies dst
    ensures dst[at..at + |tail| + 1] == tail + [NUL]
  {
    var d := at;
    forall i | 0 <= i < |tail| ensures dst[at + pad + i] == tail[i] {
      assert dst[at + pad..at + pad + |tail|][i] == tail[i];
    }
    while true
      invariant at <= d <= at + |tail|
      invariant forall i :: d + pad <= i < dst.Length ==> dst[i] == old(dst[i])
      invariant forall i :: 0 <= i < d - at ==> dst[at + i] == tail[i]
      decreases at + |tail| - d
    {
      dst[d] := dst[d + pad];
      if dst[d] == NUL {
        return;
      }
      d := d + 1;
    }
  }

  /** strcpy or memcpy of s to the front of the buffer. */
  method Copy(dst: array<char>, s: string)
    requires |s| <= dst.Length
    modifies dst
    ensures dst[..|s|] == s && forall i :: |s| <= i < dst.Length ==> dst[i] == old(dst[i])
  {
    var i := 0;
    while i < |s|
      invariant i <= |s| && dst[..i] == s[..i]
      invariant forall j :: i <= j < dst.Length ==> dst[j] == old(dst[j])
    {
      dst[i] := s[i];
      i := i + 1;
    }
  }

  /** The buffer holds the null terminated string tail from index i on. */
  ghost predicate TailAt(dst: array<char>, i: nat, tail: string)
    reads dst
  {
    i + |tail| < dst.Length && dst[i..i + |tail|] == tail && dst[i + |tail|] == NUL
  }

  /** The tail of the path, after the first fromLen characters, is moved to index toLen. */
  method MoveTail(dst: array<char>, fromLen: nat, toLen: nat, ghost path: string) returns (fits: bool)
    requires Contains(dst, path) && fromLen <= |path|
    modifies dst
    ensures fits <==> toLen <= fromLen || |path| - fromLen + toLen < dst.Length
    ensures fits ==> TailAt(dst, toLen, path[fromLen..])
    ensures !fits ==> dst[..] == old(dst[..])
  {
    ghost var tail := path[fromLen..];
    assert dst[fromLen..|path|] == dst[..|path|][fromLen..] == tail;
    if toLen > fromLen {
      var len := Strlen(dst, path);
      if len + (toLen - fromLen) + 1 > dst.Length {
        return false;
      }
      ShiftRight(dst, fromLen, len, toLen - fromLen);
      ghost var moved := dst[toLen..toLen + |tail| + 1];
      assert moved[..|tail|] == tail && moved[|tail|] == NUL;
    } else if toLen < fromLen {
      ShiftLeft(dst, toLen, fromLen - toLen, tail);
      ghost var moved := dst[toLen..toLen + |tail| + 1];
      assert moved[..|tail|] == tail && moved[|tail|] == NUL;
    }
    fits := true;
  }

  /** The part of filemap_map after a rule was found. */
  method Apply(dst: array<char>, rule: Rule, ghost path: string) returns (ret: int)
    requires Contains(dst, path) && rule.Valid() && rule.Matches(path)
    requires !rule.IsDir() ==> |rule.to| < dst.Length
    modifies dst
    ensures var out := rule.Rewrite(path);
            if |out| < dst.Length then ret == |out| + 1 && Contains(dst, out)
            else ret == ENAMETOOLONG && dst[..] == old(dst[..])
  {
    if rule.from[|rule.from| - 1] != '/' {
      Copy(dst, rule.to);
      dst[|rule.to|] := NUL;
      return |rule.to| + 1;
    }
    ghost var tail := path[|rule.from|..];
    var fits := MoveTail(dst, |rule.from|, |rule.to|, path);
    if !fits {
      return ENAMETOOLONG;
    }
    label moved:
    Copy(dst, rule.to);
    ghost var out := rule.to + tail;
    assert dst[|rule.to|..|out|] == tail by {
      assert dst[|rule.to|..|out|] == old@moved(dst[|rule.to|..|out|]);
    }
    assert dst[..|out|] == dst[..|rule.to|] + dst[|rule.to|..|out|];
    var n := Strlen(dst, out);
    ret := n + 1;
  }

  method Strlen(dst: array<char>, ghost s: string) returns (n: nat)
    requires Contains(dst, s)
    ensures n == |s|
  {
    assert forall i :: 0 <= i < |s| ==> dst[i] == dst[..|s|][i];
    n := 0;
    while dst[n] != NUL
      invariant n <= |s|
      decreases |s| - n
    {
      n := n + 1;
    }
  }

  lemma FirstMatchIs(rules: seq<Rule>, path: string, i: nat)
    requires i <= |rules| && (i < |rules| ==> rules[i].Matches(path))
    requires forall j :: 0 <= j < i ==> !rules[j].Matches(path)
    ensures FirstMatch(rules, path) == i
  {
  }

  lemma ResultContained(dst: array<char>, p: string)
    requires |p| < dst.Length && dst[..|p| + 1] == p + [NUL] && NUL !in p
    ensures Contains(dst, p)
  {
  }

  // ---------------------------------------------------------------------------------------------
  // Normalising brings in no null characters

  ghost predicate NoNul(cs: seq<string>) {
    forall k :: 0 <= k < |cs| ==> NUL !in cs[k]
  }

  lemma {:induction false} SplitNoNul(s: string)
    requires NUL !in s
    ensures NoNul(Split(s))
  {
    if s != "" {
      SplitNoNul(s[1..]);
    }
  }

  lemma {:induction false} BuildNoNul(abs: bool, stack: seq<string>, cs: seq<string>, size: nat)
    requires NoNul(stack) && NoNul(cs)
    ensures Build(abs, stack, cs, size).Ok? ==> NoNul(Build(abs, stack, cs, size).value)
    decreases |cs|
  {
    if cs != [] {
      BuildNoNul(abs, Push(abs, stack, cs[0]), cs[1..], size);
    }
  }

  lemma {:induction false} JoinNoNul(cs: seq<string>)
    requires NoNul(cs)
    ensures NUL !in Join(cs)
  {
    if |cs| > 1 {
      JoinNoNul(cs[..|cs| - 1]);
    }
  }

  lemma TargetHasNoNul(src: string, cwd: Result<string>, size: nat)
    requires NUL !in src && (cwd.Ok? ==> NUL !in cwd.value) && Target(src, true, cwd, size).Ok?
    ensures NUL !in Target(src, true, cwd, size).value
  {
    var stack, t := [], src;
    if IsAbs(src) {
      t := src[1..];
    } else {
      stack := Split(cwd.value[1..]);
      SplitNoNul(cwd.value[1..]);
    }
    SplitNoNul(t);
    BuildNoNul(true, stack, Split(t), size);
    JoinNoNul(Build(true, stack, Split(t), size).value);
  }
}
