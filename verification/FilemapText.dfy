/** The text of a file map (ibcs/filemap.c): what each line means, and that a printed map means the rules
    it was printed from. */
module FilemapText {
  import opened Chars
  import opened PathSpec
  import opened Path
  import opened Filemap

  const KEYWORD := "prefixmap:"

  predicate Blank(c: char) { c == ' ' || c == '\t' }

  function SkipBlanks(s: string, i: nat): (r: nat)
    ensures i <= r && (i <= |s| ==> r <= |s|) && (r < |s| ==> !Blank(s[r]))
    ensures forall j :: i <= j < r && j < |s| ==> Blank(s[j])
    decreases |s| - i
  {
    if i < |s| && Blank(s[i]) then SkipBlanks(s, i + 1) else i
  }

  /** An arrow with a blank on either side at c. */
  predicate ArrowAt(s: string, c: nat) {
    1 <= c && c + 3 < |s| && s[c] == '-' && s[c + 1] == '-' && s[c + 2] == '>' && Blank(s[c - 1]) && Blank(s[c + 3])
  }

  /** The first such arrow at or after i, or the length of s. */
  function FindArrow(s: string, i: nat): (c: nat)
    requires i <= |s|
    ensures i <= c <= |s| && (c < |s| ==> ArrowAt(s, c))
    ensures forall j :: i <= j < c ==> !ArrowAt(s, j)
    decreases |s| - i
  {
    if i == |s| || ArrowAt(s, i) then i else FindArrow(s, i + 1)
  }

  predicate Trailing(c: char, cr: bool) { Blank(c) || (cr && c == '\r') }

  /** The end of s[..e] without trailing blanks, and carriage returns if cr. */
  function TrimEnd(s: string, e: nat, cr: bool): (r: nat)
    requires e <= |s|
    ensures r <= e && (r > 0 ==> !Trailing(s[r - 1], cr)) && forall j :: r <= j < e ==> Trailing(s[j], cr)
  {
    if e > 0 && Trailing(s[e - 1], cr) then TrimEnd(s, e - 1, cr) else e
  }

  /** at, f, fe, t and te are where the keyword and the two paths are in the line. */
  datatype Line = Skip | Bad | Map(at: nat, f: nat, fe: nat, t: nat, te: nat)

  /** The paths of a line whose keyword is at k, the first path starting at f. */
  function ParsePaths(s: string, k: nat, f: nat): (r: Line)
    requires f < |s| && s[f] == '/'
    ensures r.Map? ==> r.at == k && r.f == f < r.fe && r.fe + 5 <= r.t < r.te <= |s| && s[r.t] == '/'
    ensures !r.Skip?
  {
    var c := FindArrow(s, f);
    if c == |s| then Bad
    else
      var fe, t := TrimEnd(s, c, false), SkipBlanks(s, c + 4);
      if t == |s| || s[t] != '/' then Bad
      else
        var te := TrimEnd(s, |s|, true);
        if (s[fe - 1] == '/') != (s[te - 1] == '/') then Bad else Map(k, f, fe, t, te)
  }

  function ParseLine(s: string): (r: Line)
    ensures r.Map? ==> r.at + 10 <= r.f < r.fe && r.fe + 5 <= r.t < r.te <= |s| && s[r.f] == '/' && s[r.t] == '/'
  {
    var k := SkipBlanks(s, 0);
    if k == |s| || s[k] == '#' then Skip
    else if !(k + 10 <= |s| && s[k..k + 10] == KEYWORD) then Bad
    else
      var f := SkipBlanks(s, k + 10);
      if f == |s| || s[f] != '/' then Bad else ParsePaths(s, k, f)
  }

  function RuleOf(s: string): Rule
    requires ParseLine(s).Map?
  {
    var m := ParseLine(s);
    Rule(s[m.f..m.fe], s[m.t..m.te])
  }

  /** Where the line that starts at b ends: at its newline or at the end of the text. */
  function LineEnd(s: string, b: nat): (e: nat)
    requires b <= |s|
    ensures b <= e <= |s| && '\n' !in s[b..e] && (e < |s| ==> s[e] == '\n')
    decreases |s| - b
  {
    if b == |s| || s[b] == '\n' then b
    else
      var e := LineEnd(s, b + 1);
      assert s[b..e] == [s[b]] + s[b + 1..e];
      e
  }

  /** The rules of a text, in order, or the number of its first bad line. */
  datatype Parsed = Rules(rules: seq<Rule>) | BadLine(n: nat)

  function ParseFrom(s: string, b: nat, n: nat): Parsed
    requires b <= |s|
    decreases |s| - b
  {
    var e := LineEnd(s, b);
    var line := s[b..e];
    if ParseLine(line).Bad? then BadLine(n)
    else
      var rest := if e == |s| then Rules([]) else ParseFrom(s, e + 1, n + 1);
      if ParseLine(line).Skip? || rest.BadLine? then rest else Rules([RuleOf(line)] + rest.rules)
  }

  function ParseText(s: string): Parsed { ParseFrom(s, 0, 1) }

  lemma RuleIsValid(s: string)
    requires ParseLine(s).Map? && NUL !in s
    ensures RuleOf(s).Valid()
  {
    hide ParseLine;
    var m := ParseLine(s);
    SlashesAgree(s);
    SliceEnds(s, m.f, m.fe);
    SliceEnds(s, m.t, m.te);
  }

  lemma SliceEnds(s: string, i: nat, j: nat)
    requires i < j <= |s| && NUL !in s
    ensures var t := s[i..j]; t != "" && t[0] == s[i] && t[|t| - 1] == s[j - 1] && NUL !in t
  {
  }

  lemma SlashesAgree(s: string)
    requires ParseLine(s).Map?
    ensures s[ParseLine(s).fe - 1] == '/' <==> s[ParseLine(s).te - 1] == '/'
  {
  }

  // ---------------------------------------------------------------------------------------------
  // Printing

  datatype Item = Comment(text: string) | Empty(blanks: string) | Entry(rule: Rule)

  /** A rule that the format can carry: no newline in it, no blank at the end of a path, no carriage return
      at the end of the second, and no arrow in the first that would be taken for the separator. */
  ghost predicate Printable(r: Rule) {
    && r.Valid() && '\n' !in r.from && '\n' !in r.to
    && !Blank(r.from[|r.from| - 1]) && !Trailing(r.to[|r.to| - 1], true)
    && forall c :: 0 <= c <= |r.from| ==> !ArrowAt(r.from + " ", c)
  }

  ghost predicate GoodItem(i: Item) {
    match i
    case Comment(text) => '\n' !in text
    case Empty(blanks) => forall k :: 0 <= k < |blanks| ==> Blank(blanks[k])
    case Entry(rule) => Printable(rule)
  }

  function PrintItem(i: Item): string {
    match i
    case Comment(text) => "#" + text
    case Empty(blanks) => blanks
    case Entry(r) => "prefixmap: " + r.from + " --> " + r.to
  }

  function Print(items: seq<Item>): string {
    if items == [] then "" else PrintItem(items[0]) + "\n" + Print(items[1..])
  }

  function RulesIn(items: seq<Item>): seq<Rule> {
    if items == [] then [] else (if items[0].Entry? then [items[0].rule] else []) + RulesIn(items[1..])
  }

  /** In a printed rule the separator is the first arrow. */
  lemma FirstArrow(r: Rule, s: string, c: nat)
    requires Printable(r) && s == "prefixmap: " + r.from + " --> " + r.to && c == 12 + |r.from|
    ensures ArrowAt(s, c) && forall j :: 11 <= j < c ==> !ArrowAt(s, j)
  {
    var n := |r.from|;
    assert s[11..c] == r.from + " ";
    assert s[c] == '-' && s[c + 1] == '-' && s[c + 2] == '>' && s[c - 1] == ' ' && s[c + 3] == ' ';
    forall j | 11 <= j < c ensures !ArrowAt(s, j) {
      if ArrowAt(s, j) {
        assert s[c - 1] == ' ';
        assert j + 3 < c;
        var q, fs := j - 11, r.from + " ";
        assert forall k :: 0 <= k < |fs| ==> fs[k] == s[11 + k];
        assert s[11] == '/';
        assert ArrowAt(fs, q);
      }
    }
  }

  /** Where everything is in a printed rule. */
  lemma EntryShape(r: Rule, s: string, c: nat)
    requires Printable(r) && s == "prefixmap: " + r.from + " --> " + r.to && c == 12 + |r.from|
    ensures |s| == c + 4 + |r.to| && s[0] == 'p' && s[0..10] == KEYWORD && s[10] == ' ' && s[11] == '/'
    ensures s[c - 2] == r.from[|r.from| - 1] && s[c - 1] == ' ' && s[c + 4] == '/'
    ensures s[|s| - 1] == r.to[|r.to| - 1]
    ensures s[11..c - 1] == r.from && s[c + 4..|s|] == r.to
  {
  }

  /** How the searches of the parser end, put together. */
  lemma ParseLineIs(s: string, f: nat, c: nat, fe: nat, t: nat, te: nat)
    requires 10 <= f < c <= |s| && s[0] == 'p' && s[0..10] == KEYWORD
    requires SkipBlanks(s, 10) == f && f < |s| && s[f] == '/'
    requires FindArrow(s, f) == c && c + 4 <= |s| && TrimEnd(s, c, false) == fe
    requires SkipBlanks(s, c + 4) == t && t < |s| && s[t] == '/'
    requires TrimEnd(s, |s|, true) == te && 0 < fe && 0 < te && (s[fe - 1] == '/' <==> s[te - 1] == '/')
    ensures ParseLine(s) == Map(0, f, fe, t, te)
  {
    assert SkipBlanks(s, 0) == 0;
    hide FindArrow, TrimEnd, SkipBlanks;
    ParsePathsIs(s, f, c, fe, t, te);
    hide ParsePaths;
  }

  lemma ParsePathsIs(s: string, f: nat, c: nat, fe: nat, t: nat, te: nat)
    requires f < c <= |s| && s[f] == '/'
    requires FindArrow(s, f) == c && c + 4 <= |s| && TrimEnd(s, c, false) == fe
    requires SkipBlanks(s, c + 4) == t && t < |s| && s[t] == '/'
    requires TrimEnd(s, |s|, true) == te && 0 < fe && 0 < te && (s[fe - 1] == '/' <==> s[te - 1] == '/')
    ensures ParsePaths(s, 0, f) == Map(0, f, fe, t, te)
  {
  }

  /** A printed rule parses to itself. */
  lemma EntryParses(r: Rule)
    requires Printable(r)
    ensures var s := PrintItem(Entry(r)); ParseLine(s).Map? && RuleOf(s) == r
  {
    var s := PrintItem(Entry(r));
    var c := 12 + |r.from|;
    FirstArrow(r, s, c);
    EntryShape(r, s, c);
    ShapeParses(r, s, c);
  }

  lemma ShapeParses(r: Rule, s: string, c: nat)
    requires r.Valid() && !Blank(r.from[|r.from| - 1]) && !Trailing(r.to[|r.to| - 1], true)
    requires 13 <= c && |s| == c + 4 + |r.to| && s[0] == 'p' && s[0..10] == KEYWORD && s[10] == ' ' && s[11] == '/'
    requires s[c - 2] == r.from[|r.from| - 1] && s[c - 1] == ' ' && s[c + 4] == '/'
    requires s[|s| - 1] == r.to[|r.to| - 1] && s[11..c - 1] == r.from && s[c + 4..|s|] == r.to
    requires ArrowAt(s, c) && forall j :: 11 <= j < c ==> !ArrowAt(s, j)
    ensures ParseLine(s).Map? && RuleOf(s) == r
  {
    hide ParseLine, ArrowAt, FindArrow;
    FirstArrowFound(s, 11, c);
    assert SkipBlanks(s, 10) == SkipBlanks(s, 11) == 11;
    assert TrimEnd(s, c, false) == TrimEnd(s, c - 1, false) == c - 1;
    ParseLineIs(s, 11, c, c - 1, c + 4, |s|);
  }

  lemma FirstArrowFound(s: string, i: nat, c: nat)
    requires i <= c <= |s| && ArrowAt(s, c) && forall j :: i <= j < c ==> !ArrowAt(s, j)
    ensures FindArrow(s, i) == c && c + 4 <= |s|
  {
  }

  lemma CommentParses(s: string)
    requires s != "" && s[0] == '#'
    ensures ParseLine(s).Skip?
  {
  }

  lemma BlanksParse(s: string)
    requires forall k :: 0 <= k < |s| ==> Blank(s[k])
    ensures ParseLine(s).Skip? && '\n' !in s
  {
  }

  lemma ItemParses(i: Item)
    requires GoodItem(i)
    ensures '\n' !in PrintItem(i)
    ensures if i.Entry? then ParseLine(PrintItem(i)).Map? && RuleOf(PrintItem(i)) == i.rule
            else ParseLine(PrintItem(i)).Skip?
  {
    hide ParseLine, RuleOf;
    match i
    case Comment(text) => CommentParses(PrintItem(i));
    case Empty(blanks) => BlanksParse(blanks);
    case Entry(r) => EntryParses(r);
  }

  lemma LineEndIs(s: string, b: nat, e: nat)
    requires b <= e < |s| && s[e] == '\n' && '\n' !in s[b..e]
    ensures LineEnd(s, b) == e
  {
  }

  /** One line of a text that is not bad. */
  lemma ParseFromStep(s: string, b: nat, e: nat, n: nat)
    requires b <= e < |s| && LineEnd(s, b) == e && !ParseLine(s[b..e]).Bad? && ParseFrom(s, e + 1, n + 1).Rules?
    ensures ParseFrom(s, b, n) ==
              Rules((if ParseLine(s[b..e]).Map? then [RuleOf(s[b..e])] else []) + ParseFrom(s, e + 1, n + 1).rules)
  {
    hide ParseLine, RuleOf, LineEnd;
  }

  /** Parsing what was printed, from any line on. */
  lemma {:induction false} PrintedParsesFrom(pre: string, items: seq<Item>, n: nat)
    requires forall k :: 0 <= k < |items| ==> GoodItem(items[k])
    ensures ParseFrom(pre + Print(items), |pre|, n) == Rules(RulesIn(items))
    decreases |items|
  {
    hide ParseLine, RuleOf, LineEnd, PrintItem, GoodItem;
    var s, b := pre + Print(items), |pre|;
    if items == [] {
      EmptyTail(s, b);
    } else {
      var t := PrintItem(items[0]);
      var e := b + |t|;
      ItemParses(items[0]);
      assert s == (pre + t + "\n") + Print(items[1..]);
      assert s[b..e] == t && s[e] == '\n';
      LineEndIs(s, b, e);
      PrintedParsesFrom(pre + t + "\n", items[1..], n + 1);
      ParseFromStep(s, b, e, n);
    }
  }

  lemma EmptyTail(s: string, b: nat)
    requires b == |s|
    ensures LineEnd(s, b) == b && ParseLine(s[b..b]).Skip?
  {
  }

  /** Printing any list of rules, with comments and blank lines between them, and parsing the text gives
      back the same rules in the same order. */
  lemma PrintParse(items: seq<Item>)
    requires forall k :: 0 <= k < |items| ==> GoodItem(items[k])
    ensures ParseText(Print(items)) == Rules(RulesIn(items))
  {
    PrintedParsesFrom("", items, 1);
    assert "" + Print(items) == Print(items);
  }
}
