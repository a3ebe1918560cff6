/** The grammar of a file map, character by character: exactly which lines mean a rule, which mean nothing, and
    which line of a text is reported when one is neither. */
module FilemapGrammar {
  import opened Chars
  import opened Filemap
  import opened FilemapText

  /** Spaces and tabs only. */
  predicate Gap(s: string, i: nat, j: nat)
    requires i <= j <= |s|
  {
    forall k :: i <= k < j ==> s[k] == ' ' || s[k] == '\t'
  }

  /** An arrow with a space or a tab on either side. */
  predicate Separator(s: string, c: nat) {
    && 1 <= c && c + 3 < |s| && s[c] == '-' && s[c + 1] == '-' && s[c + 2] == '>'
    && (s[c - 1] == ' ' || s[c - 1] == '\t') && (s[c + 3] == ' ' || s[c + 3] == '\t')
  }

  /** The parts of a line that means a rule: a gap, the keyword, a gap, the first path from f to fe, a gap, the
      first arrow at c, a gap, the second path from t to te, and spaces, tabs and carriage returns. Both paths
      begin with a slash, and both or neither end with one. */
  predicate Parts(s: string, k: nat, f: nat, fe: nat, c: nat, t: nat, te: nat) {
    && k + 10 <= f < fe < c && c + 3 < t < te <= |s|
    && Gap(s, 0, k) && s[k..k + 10] == "prefixmap:" && Gap(s, k + 10, f)
    && s[f] == '/' && s[fe - 1] != ' ' && s[fe - 1] != '\t' && Gap(s, fe, c)
    && Separator(s, c) && (forall j :: f <= j < c ==> !Separator(s, j)) && Gap(s, c + 3, t)
    && s[t] == '/' && s[te - 1] != ' ' && s[te - 1] != '\t' && s[te - 1] != '\r'
    && (forall j :: te <= j < |s| ==> s[j] == ' ' || s[j] == '\t' || s[j] == '\r')
    && (s[fe - 1] == '/' <==> s[te - 1] == '/')
  }

  lemma SkipBlanksIs(s: string, i: nat, r: nat)
    requires i <= r <= |s| && Gap(s, i, r) && (r < |s| ==> s[r] != ' ' && s[r] != '\t')
    ensures SkipBlanks(s, i) == r
  {
  }

  lemma SkipBlanksGap(s: string, i: nat)
    requires i <= |s|
    ensures var r := SkipBlanks(s, i); i <= r <= |s| && Gap(s, i, r) && (r < |s| ==> s[r] != ' ' && s[r] != '\t')
  {
  }

  lemma SeparatorIsArrow(s: string, c: nat)
    ensures Separator(s, c) <==> ArrowAt(s, c)
  {
  }

  lemma TrimIs(s: string, e: nat, r: nat, cr: bool)
    requires r <= e <= |s| && (r > 0 ==> !Trailing(s[r - 1], cr)) && forall j :: r <= j < e ==> Trailing(s[j], cr)
    ensures TrimEnd(s, e, cr) == r
  {
  }

  /** A line with these parts means that rule. */
  lemma PartsParse(s: string, k: nat, f: nat, fe: nat, c: nat, t: nat, te: nat)
    requires Parts(s, k, f, fe, c, t, te)
    ensures ParseLine(s) == Map(k, f, fe, t, te)
  {
    hide SkipBlanks, TrimEnd, FindArrow;
    SkipBlanksIs(s, 0, k) by { assert s[k] == s[k..k + 10][0]; }
    SkipBlanksIs(s, k + 10, f);
    SeparatorsFound(s, f, c);
    TrimIs(s, c, fe, false);
    SkipBlanksIs(s, c + 4, t);
    TrimIs(s, |s|, te, true);
    assert s[k] == s[k..k + 10][0];
  }

  lemma SeparatorsFound(s: string, f: nat, c: nat)
    requires f <= c <= |s| && Separator(s, c) && forall j :: f <= j < c ==> !Separator(s, j)
    ensures FindArrow(s, f) == c
  {
    forall j ensures Separator(s, j) <==> ArrowAt(s, j) {
      SeparatorIsArrow(s, j);
    }
    FirstArrowFound(s, f, c);
  }

  /** How the searches of the parser found the places of a line that means a rule. */
  lemma PlacesOf(s: string)
    requires ParseLine(s).Map?
    ensures var m := ParseLine(s);
            && m.at == SkipBlanks(s, 0) && m.at + 10 <= |s| && s[m.at..m.at + 10] == KEYWORD
            && m.f == SkipBlanks(s, m.at + 10) < |s| && s[m.f] == '/' && m == ParsePaths(s, m.at, m.f)
  {
    hide SkipBlanks, ParsePaths;
  }

  lemma PathPlaces(s: string, k: nat, f: nat)
    requires f < |s| && s[f] == '/' && ParsePaths(s, k, f).Map?
    ensures var m, c := ParsePaths(s, k, f), FindArrow(s, f);
            && c < |s| && c + 4 <= |s| && m.fe == TrimEnd(s, c, false) > f
            && m.t == SkipBlanks(s, c + 4) < |s| && s[m.t] == '/' && m.te == TrimEnd(s, |s|, true) > m.t
            && (s[m.fe - 1] == '/' <==> s[m.te - 1] == '/')
  {
    hide SkipBlanks, TrimEnd, FindArrow;
  }

  /** A line that means a rule has these parts. */
  lemma ParsedHasParts(s: string) returns (c: nat)
    requires ParseLine(s).Map?
    ensures var m := ParseLine(s); Parts(s, m.at, m.f, m.fe, c, m.t, m.te)
  {
    hide ParseLine, ParsePaths, SkipBlanks, TrimEnd, FindArrow, ArrowAt, Separator;
    PlacesOf(s);
    var m := ParseLine(s);
    PathPlaces(s, m.at, m.f);
    SkipBlanksGap(s, 0);
    SkipBlanksGap(s, m.at + 10);
    c := FindArrow(s, m.f);
    SkipBlanksGap(s, c + 4);
    SeparatorAt(s, m.f, c);
    TrimGap(s, c, m.fe);
    TrimTail(s, m.te);
    SeparatorGap(s, c);
  }

  lemma SeparatorGap(s: string, c: nat)
    requires Separator(s, c)
    ensures 1 <= c && c + 4 <= |s| && Gap(s, c - 1, c) && Gap(s, c + 3, c + 4)
  {
  }

  lemma TrimGap(s: string, c: nat, r: nat)
    requires c <= |s| && r == TrimEnd(s, c, false) && r > 0
    ensures r <= c && Gap(s, r, c) && s[r - 1] != ' ' && s[r - 1] != '\t'
  {
    hide TrimEnd;
  }

  lemma TrimTail(s: string, r: nat)
    requires r == TrimEnd(s, |s|, true) && r > 0
    ensures r <= |s| && s[r - 1] != ' ' && s[r - 1] != '\t' && s[r - 1] != '\r'
    ensures forall j :: r <= j < |s| ==> s[j] == ' ' || s[j] == '\t' || s[j] == '\r'
  {
    hide TrimEnd;
  }

  lemma SeparatorAt(s: string, f: nat, c: nat)
    requires f <= |s| && c == FindArrow(s, f) && c < |s|
    ensures Separator(s, c) && forall j :: f <= j < c ==> !Separator(s, j)
  {
    forall j ensures Separator(s, j) <==> ArrowAt(s, j) {
      SeparatorIsArrow(s, j);
    }
  }

  /** A line means a rule with its paths at these places if and only if it has the parts. */
  lemma RuleIff(s: string, k: nat, f: nat, fe: nat, t: nat, te: nat)
    ensures ParseLine(s) == Map(k, f, fe, t, te) <==> exists c :: Parts(s, k, f, fe, c, t, te)
  {
    hide ParseLine, Parts;
    if ParseLine(s) == Map(k, f, fe, t, te) {
      var c := ParsedHasParts(s);
      assert Parts(s, k, f, fe, c, t, te);
    }
    if c :| Parts(s, k, f, fe, c, t, te) {
      PartsParse(s, k, f, fe, c, t, te);
    }
  }

  /** A line means nothing if and only if it is blank or its first character that is not is '#'. */
  lemma NothingIff(s: string)
    ensures ParseLine(s).Skip? <==> exists k :: 0 <= k <= |s| && Gap(s, 0, k) && (k == |s| || s[k] == '#')
  {
    hide SkipBlanks;
    SkipBlanksGap(s, 0);
    if k :| 0 <= k <= |s| && Gap(s, 0, k) && (k == |s| || s[k] == '#') {
      SkipBlanksIs(s, 0, k);
    }
  }

  /** An empty line of a file with carriage returns is an error, though a rule may end with one. */
  lemma ReturnAloneIsBad()
    ensures ParseLine("\r").Bad?
    ensures ParseLine("#\r").Skip? && ParseLine("prefixmap: /a --> /b\r") == Map(0, 11, 13, 18, 20)
  {
    SkipBlanksIs("\r", 0, 0);
    SkipBlanksIs("#\r", 0, 0);
    var s := "prefixmap: /a --> /b\r";
    assert s[0..10] == "prefixmap:";
    PartsParse(s, 0, 11, 13, 14, 18, 20);
  }

  // ---------------------------------------------------------------------------------------------
  // The number of a bad line

  /** Printed items, then a line that is bad, then whatever follows it. */
  function WithBad(items: seq<Item>, bad: string, rest: string): string { Print(items) + bad + rest }

  lemma WithBadNext(items: seq<Item>, bad: string, rest: string)
    ensures items == [] ==> WithBad(items, bad, rest) == bad + rest
    ensures items != [] ==> WithBad(items, bad, rest) == PrintItem(items[0]) + "\n" + WithBad(items[1..], bad, rest)
  {
    hide PrintItem;
    if items != [] {
      var t, p := PrintItem(items[0]) + "\n", Print(items[1..]);
      assert t + p + bad + rest == t + (p + bad + rest);
    }
  }

  lemma {:induction false} FirstBadFrom(pre: string, items: seq<Item>, bad: string, rest: string, n: nat)
    requires (forall k :: 0 <= k < |items| ==> GoodItem(items[k])) && '\n' !in bad && ParseLine(bad).Bad?
    requires rest == "" || rest[0] == '\n'
    ensures ParseFrom(pre + WithBad(items, bad, rest), |pre|, n) == BadLine(n + |items|)
    decreases |items|
  {
    hide ParseLine, RuleOf, LineEnd, PrintItem, GoodItem, WithBad, ParseFrom;
    WithBadNext(items, bad, rest);
    var s, b := pre + WithBad(items, bad, rest), |pre|;
    if items == [] {
      BadHere(s, b, b + |bad|, bad, rest, n);
    } else {
      var t := PrintItem(items[0]);
      var e := b + |t|;
      ItemParses(items[0]);
      GoodHere(pre, t, WithBad(items[1..], bad, rest), n);
      assert s == (pre + t + "\n") + WithBad(items[1..], bad, rest);
      FirstBadFrom(pre + t + "\n", items[1..], bad, rest, n + 1);
    }
  }

  lemma BadHere(s: string, b: nat, e: nat, bad: string, rest: string, n: nat)
    requires b <= e <= |s| && e == b + |bad| && s[b..] == bad + rest && (rest == "" || rest[0] == '\n')
    requires '\n' !in bad && ParseLine(bad).Bad?
    ensures ParseFrom(s, b, n) == BadLine(n)
  {
    hide ParseLine, RuleOf, LineEnd;
    assert s[b..e] == s[b..][..|bad|] == bad;
    assert e < |s| ==> s[e] == s[b..][|bad|];
    LineEndsAt(s, b, e);
  }

  lemma GoodHere(pre: string, t: string, after: string, n: nat)
    requires '\n' !in t && !ParseLine(t).Bad?
    ensures var s := (pre + t + "\n") + after;
            ParseFrom(s, |pre + t + "\n"|, n + 1).BadLine? ==>
              ParseFrom(s, |pre|, n) == ParseFrom(s, |pre + t + "\n"|, n + 1)
  {
    hide ParseLine, RuleOf, LineEnd;
    var s, b := (pre + t + "\n") + after, |pre|;
    var e := b + |t|;
    assert s[b..e] == t && s[e] == '\n';
    LineEndsAt(s, b, e);
  }

  lemma LineEndsAt(s: string, b: nat, e: nat)
    requires b <= e <= |s| && '\n' !in s[b..e] && (e < |s| ==> s[e] == '\n')
    ensures LineEnd(s, b) == e
  {
    var e' := LineEnd(s, b);
    assert forall j :: b <= j < e ==> s[b..e][j - b] == s[j];
    assert forall j :: b <= j < e' ==> s[b..e'][j - b] == s[j];
  }

  /** After any rules, comments and blank lines, a line that is no line of a map is reported by its number,
      counted from 1, whatever follows. */
  lemma FirstBadLine(items: seq<Item>, bad: string, rest: string)
    requires (forall k :: 0 <= k < |items| ==> GoodItem(items[k])) && '\n' !in bad && ParseLine(bad).Bad?
    requires rest == "" || rest[0] == '\n'
    ensures ParseText(WithBad(items, bad, rest)) == BadLine(1 + |items|)
  {
    hide ParseLine, GoodItem, WithBad, ParseFrom;
    FirstBadFrom("", items, bad, rest, 1);
    assert "" + WithBad(items, bad, rest) == WithBad(items, bad, rest);
  }
}
