/** filemap_map of ibcs/filemap.c over the list that filemap_parse leaves in its buffer. */
module FilemapRun {
  import opened Chars
  import opened Path
  import opened Filemap
  import opened FilemapText
  import opened FilemapParse

  /** What the call must leave in dst and answer: the first rule that matches the normalised path applied to
      it, nothing if there is none. */
  ghost predicate Mapped(rules: seq<Rule>, t: Result<string>, dst: array<char>, ret: int)
    reads dst
  {
    match t
    case Err(_) => ret == 0
    case Ok(p) =>
      var i := FirstMatch(rules, p);
      if i == |rules| then ret == 0 && Contains(dst, p)
      else
        var out := rules[i].Rewrite(p);
        if |out| < dst.Length then ret == |out| + 1 && Contains(dst, out)
        else ret == ENAMETOOLONG && Contains(dst, p)
  }

  /** If the rule that applies is one for a single file, its target fits: the code copies it without looking. */
  predicate TargetFits(rules: seq<Rule>, t: Result<string>, size: nat) {
    t.Ok? ==>
      var i := FirstMatch(rules, t.value);
      i < |rules| && !rules[i].IsDir() ==> |rules[i].to| < size
  }

  /** The rule of the record at i. */
  function RuleAt(b: seq<char>, i: nat): Rule
    requires i + 6 <= |b|
  {
    Rule(CString(b, i + UShort(b, i)), CString(b, i + UShort(b, i + 2)))
  }

  lemma ListSplits(b: seq<char>, i: nat)
    requires WellLinked(b, i)
    ensures i + 6 <= |b|
    ensures var next := UShort(b, i + 4);
            && ReadList(b, i) == [RuleAt(b, i)] + (if next == 0 then [] else ReadList(b, i + next))
            && (next != 0 ==> WellLinked(b, i + next))
  {
    hide CString;
  }

  /** The loop over the list: the record of the first rule that matches, or null. */
  method FindRule(dst: array<char>, map0: array<char>, head: nat, ghost p: string, ghost rules: seq<Rule>)
    returns (r: Pointer)
    requires Contains(dst, p) && WellLinked(map0[..], head) && ReadList(map0[..], head) == rules
    requires forall i :: 0 <= i < |rules| ==> rules[i].Valid()
    ensures r == Null <==> FirstMatch(rules, p) == |rules|
    ensures r != Null ==> r.at + 6 <= map0.Length && RuleAt(map0[..], r.at) == rules[FirstMatch(rules, p)]
  {
    hide ReadList, WellLinked, RuleAt, UShort, Rule.Valid, Rule.Matches, FirstMatch;
    ghost var m, i := map0[..], 0;
    var at := head;
    assert rules[0..] == rules;
    while true
      invariant i <= |rules| && WellLinked(m, at) && ReadList(m, at) == rules[i..]
      invariant forall j :: 0 <= j < i ==> !rules[j].Matches(p)
      decreases |rules| - i
    {
      ListSplits(m, at);
      var next := UShort(map0[..], at + 4);
      assert rules[i..][0] == rules[i] && rules[i..][1..] == rules[i + 1..];
      var found := Match(dst, RuleAt(map0[..], at), p);
      if found {
        FirstMatchIs(rules, p, i);
        return Ref(at);
      }
      if next == 0 {
        assert i + 1 == |rules|;
        FirstMatchIs(rules, p, i + 1);
        return Null;
      }
      at := at + next;
      i := i + 1;
    }
  }

  /** filemap_map; head is the filemap pointer into the buffer of the parsed file. */
  method FilemapMap(dst: array<char>, path: string, cwd: Result<string>, map0: array<char>, head: Pointer,
                    ghost rules: seq<Rule>)
    returns (ret: int)
    requires dst != map0 && dst.Length >= 2 && NUL !in path && (cwd.Ok? ==> GoodCwd(cwd.value))
    requires Holds(map0[..], head, rules) && forall i :: 0 <= i < |rules| ==> rules[i].Valid()
    requires TargetFits(rules, Target(path, true, cwd, dst.Length), dst.Length)
    modifies dst
    ensures Mapped(rules, Target(path, true, cwd, dst.Length), dst, ret)
    ensures var t := Target(path, true, cwd, dst.Length); t.Ok? ==> ByCharacters(rules, t.value, dst, ret)
  {
    hide Target, Rule.Valid, Rule.Matches, Rule.Rewrite, ReadList, WellLinked, RuleAt;
    ghost var m := map0[..];
    var r := NormalisePath(dst, path, true, cwd);
    if r.Err? {
      return 0;
    }
    ghost var p := Target(path, true, cwd, dst.Length).value;
    TargetHasNoNul(path, cwd, dst.Length);
    ResultContained(dst, p);
    ret := 0;
    if head != Null {
      var found := FindRule(dst, map0, head.at, p, rules);
      if found != Null {
        ret := Apply(dst, RuleAt(map0[..], found.at), p);
        assert ret == ENAMETOOLONG ==> Contains(dst, p);
      }
    }
    InCharacters(rules, p, dst, ret);
  }

  /** The same in characters: the answer is 0 if and only if no rule applies to the path; else it comes from
      a rule that applies while none before it does, and what it makes of the path is in dst if it fits. */
  ghost predicate ByCharacters(rules: seq<Rule>, p: string, dst: array<char>, ret: int)
    reads dst
  {
    && (ret == 0 <==> forall i, out :: 0 <= i < |rules| ==> !Applies(rules[i], p, out))
    && (ret == 0 ==> Contains(dst, p))
    && (ret != 0 ==>
          exists i, out ::
            && 0 <= i < |rules| && Applies(rules[i], p, out)
            && (forall j, o :: 0 <= j < i ==> !Applies(rules[j], p, o))
            && if |out| < dst.Length then ret == |out| + 1 && Contains(dst, out)
               else ret == ENAMETOOLONG && Contains(dst, p))
  }

  lemma InCharacters(rules: seq<Rule>, p: string, dst: array<char>, ret: int)
    requires Mapped(rules, Ok(p), dst, ret)
    ensures ByCharacters(rules, p, dst, ret)
  {
    hide Applies, Contains, Rule.Matches, Rule.Rewrite;
    forall i | 0 <= i < |rules| ensures (exists out :: Applies(rules[i], p, out)) <==> rules[i].Matches(p) {
      AppliesIff(rules[i], p);
    }
    var i := FirstMatch(rules, p);
    if i < |rules| {
      AppliesIff(rules[i], p);
      var out := rules[i].Rewrite(p);
      assert Applies(rules[i], p, out);
      forall j, o | 0 <= j < i ensures !Applies(rules[j], p, o) {
        AppliesIff(rules[j], p);
      }
    }
  }

  lemma {:induction false} ParsedRulesAreValid(text: string, b: nat, n: nat)
    requires b <= |text| && NUL !in text
    ensures var r := ParseFrom(text, b, n); r.Rules? ==> forall i :: 0 <= i < |r.rules| ==> r.rules[i].Valid()
    decreases |text| - b
  {
    hide ParseLine, RuleOf, LineEnd, Rule.Valid;
    var e := LineEnd(text, b);
    if ParseLine(text[b..e]).Map? {
      RuleIsValid(text[b..e]);
    }
    if e < |text| {
      ParsedRulesAreValid(text, e + 1, n + 1);
    }
  }

  /** The two together: a path is mapped by the rules that the text of the file means. badLine is the number of
      a line that cannot be parsed, which ends the program. */
  method MapWithFile(dst: array<char>, path: string, cwd: Result<string>, file: string) returns (badLine: nat, ret: int)
    requires dst.Length >= 2 && NUL !in path && (cwd.Ok? ==> GoodCwd(cwd.value))
    requires var parsed := ParseText(CString(file, 0));
             parsed.Rules? ==>
               OffsetsFit(CString(file, 0)) && TargetFits(parsed.rules, Target(path, true, cwd, dst.Length), dst.Length)
    modifies dst
    ensures var parsed := ParseText(CString(file, 0));
            match parsed
            case BadLine(n) => badLine == n > 0
            case Rules(rules) =>
              var t := Target(path, true, cwd, dst.Length);
              badLine == 0 && Mapped(rules, t, dst, ret) && (t.Ok? ==> ByCharacters(rules, t.value, dst, ret))
  {
    hide ParseText, Target, Mapped, ByCharacters, TargetFits, Holds, OffsetsFit, CString;
    ghost var text := CString(file, 0);
    var head, map0;
    badLine, head, map0 := LoadFile(file);
    if badLine > 0 {
      return badLine, 0;
    }
    TextRulesAreValid(file);
    ret := FilemapMap(dst, path, cwd, map0, head, ParseText(text).rules);
  }

  lemma TextRulesAreValid(file: string)
    ensures var r := ParseText(CString(file, 0)); r.Rules? ==> forall i :: 0 <= i < |r.rules| ==> r.rules[i].Valid()
  {
    hide Rule.Valid, ParseFrom;
    CStringIs(file, 0);
    ParsedRulesAreValid(CString(file, 0), 0, 1);
  }
}
