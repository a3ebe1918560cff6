/** filemap_parse of ibcs/filemap.c: the text of a map becomes a linked list inside its own buffer. Each
    record overwrites the keyword of its line, and the paths are null terminated where they are. */
module FilemapParse {
  import opened Chars
  import opened Path
  import opened Filemap
  import opened FilemapText

  // ---------------------------------------------------------------------------------------------
  // Reading the list, as filemap_map does

  /** An unsigned short in the buffer, low byte first. */
  function UShort(b: seq<char>, i: nat): nat
    requires i + 2 <= |b|
  {
    (b[i] as int) + 256 * (b[i + 1] as int)
  }

  function CString(b: seq<char>, i: nat): string
    decreases |b| - i
  {
    if i >= |b| || b[i] == NUL then "" else [b[i]] + CString(b, i + 1)
  }

  /** The rules of the list whose first record is at i. */
  function ReadList(b: seq<char>, i: nat): seq<Rule>
    decreases |b| - i
  {
    if i + 6 > |b| then []
    else
      var rule := Rule(CString(b, i + UShort(b, i)), CString(b, i + UShort(b, i + 2)));
      var next := UShort(b, i + 4);
      [rule] + if next == 0 then [] else ReadList(b, i + next)
  }

  // ---------------------------------------------------------------------------------------------
  // The shape of the list

  /** A record, its two paths, and where they are. */
  datatype Record = Record(at: nat, f: nat, t: nat, rule: Rule) {
    function End(): nat { t + |rule.to| + 1 }
    /** Both paths are within the reach of an unsigned short. */
    predicate Near() { t - at < 0x10000 }
  }

  ghost predicate StringAt(b: seq<char>, i: nat, s: string) {
    i + |s| < |b| && b[i..i + |s|] == s && b[i + |s|] == NUL && NUL !in s
  }

  ghost predicate RecordAt(b: seq<char>, r: Record, next: nat) {
    && r.at + 6 <= r.f && r.f + |r.rule.from| < r.t && r.End() <= |b|
    && UShort(b, r.at) == r.f - r.at && UShort(b, r.at + 2) == r.t - r.at && UShort(b, r.at + 4) == next
    && StringAt(b, r.f, r.rule.from) && StringAt(b, r.t, r.rule.to)
  }

  /** How far it is to the record after number k, 0 from the last one. */
  ghost function NextOff(rs: seq<Record>, k: nat): int
    requires k < |rs|
  {
    if k + 1 < |rs| then rs[k + 1].at - rs[k].at else 0
  }

  /** The records are in the buffer, one after the other and all of them before hi. */
  ghost predicate ListAt(b: seq<char>, rs: seq<Record>, hi: nat) {
    && (forall k :: 0 <= k < |rs| ==> rs[k].End() <= hi)
    && (forall k :: 0 <= k < |rs| - 1 ==> rs[k].End() <= rs[k + 1].at)
    && (forall k :: 0 <= k < |rs| ==> NextOff(rs, k) >= 0 && RecordAt(b, rs[k], NextOff(rs, k)))
  }

  function RulesOf(rs: seq<Record>): seq<Rule> {
    seq(|rs|, k requires 0 <= k < |rs| => rs[k].rule)
  }

  lemma {:induction false} CStringAt(b: seq<char>, i: nat, s: string)
    requires StringAt(b, i, s)
    ensures CString(b, i) == s
    decreases |s|
  {
    if s != "" {
      assert b[i] == b[i..i + |s|][0];
      assert b[i + 1..i + |s|] == b[i..i + |s|][1..];
      CStringAt(b, i + 1, s[1..]);
      assert s == [s[0]] + s[1..];
    }
  }

  lemma ReadListIs(b: seq<char>, i: nat, rule: Rule, next: nat)
    requires i + 6 <= |b| && UShort(b, i + 4) == next
    requires CString(b, i + UShort(b, i)) == rule.from && CString(b, i + UShort(b, i + 2)) == rule.to
    ensures ReadList(b, i) == [rule] + if next == 0 then [] else ReadList(b, i + next)
  {
    hide CString, UShort;
  }

  lemma ReadRecord(b: seq<char>, r: Record, next: nat)
    requires RecordAt(b, r, next)
    ensures ReadList(b, r.at) == [r.rule] + if next == 0 then [] else ReadList(b, r.at + next)
  {
    hide CString, StringAt;
    CStringAt(b, r.f, r.rule.from);
    CStringAt(b, r.t, r.rule.to);
    RecordIsLong(b, r, next);
    hide UShort;
    ReadListIs(b, r.at, r.rule, next);
  }

  /** The list reads back as the rules of its records. */
  lemma {:induction false} ListReads(b: seq<char>, rs: seq<Record>, hi: nat, k: nat)
    requires ListAt(b, rs, hi) && k < |rs|
    ensures ReadList(b, rs[k].at) == RulesOf(rs)[k..]
    decreases |rs| - k
  {
    hide RecordAt, ReadList;
    assert RecordAt(b, rs[k], NextOff(rs, k));
    ReadRecord(b, rs[k], NextOff(rs, k));
    if k + 1 < |rs| {
      ListReads(b, rs, hi, k + 1);
      RecordIsLong(b, rs[k], NextOff(rs, k));
      assert rs[k].End() <= rs[k + 1].at;
      assert rs[k].at + NextOff(rs, k) == rs[k + 1].at;
    }
    assert RulesOf(rs)[k..] == [rs[k].rule] + RulesOf(rs)[k + 1..];
  }

  lemma RecordIsLong(b: seq<char>, r: Record, next: nat)
    requires RecordAt(b, r, next)
    ensures r.at + 6 <= r.End() <= |b|
  {
  }

  /** Writing at hi or above leaves the list alone. */
  lemma ListKept(b: seq<char>, b': seq<char>, rs: seq<Record>, hi: nat)
    requires ListAt(b, rs, hi) && |b'| == |b| && hi <= |b| && b'[..hi] == b[..hi]
    ensures ListAt(b', rs, hi)
  {
    forall k | 0 <= k < |rs| ensures RecordAt(b', rs[k], NextOff(rs, k)) {
      RecordKept(b, b', rs[k], NextOff(rs, k), hi);
    }
  }

  lemma RecordKept(b: seq<char>, b': seq<char>, r: Record, next: nat, hi: nat)
    requires RecordAt(b, r, next) && r.End() <= hi <= |b| == |b'| && b'[..hi] == b[..hi]
    ensures RecordAt(b', r, next)
  {
  }

  /** A record after the others, linked from the last of them. */
  lemma ListGrows(b: seq<char>, b': seq<char>, rs: seq<Record>, r: Record, hi: nat, hi': nat)
    requires ListAt(b, rs, hi) && hi <= r.at && r.End() <= hi' && |b| == |b'| && RecordAt(b, r, 0)
    requires rs == [] ==> b' == b
    requires rs != [] ==>
      var p := rs[|rs| - 1].at + 4;
      p + 2 <= |b| && b'[..p] == b[..p] && b'[p + 2..] == b[p + 2..] && UShort(b', p) == r.at - rs[|rs| - 1].at
    ensures ListAt(b', rs + [r], hi')
  {
    hide RecordAt;
    var rs' := rs + [r];
    if rs != [] {
      RelinkKeeps(b, b', rs, r);
    }
    forall k | 0 <= k < |rs'| ensures NextOff(rs', k) >= 0 && RecordAt(b', rs'[k], NextOff(rs', k)) {
      if k < |rs| - 1 {
        assert rs'[k] == rs[k] && NextOff(rs', k) == NextOff(rs, k);
        assert RecordAt(b, rs[k], NextOff(rs, k));
      }
    }
  }

  lemma RelinkKeeps(b: seq<char>, b': seq<char>, rs: seq<Record>, r: Record)
    requires rs != [] && |b| == |b'| && RecordAt(b, r, 0)
    requires forall k :: 0 <= k < |rs| ==> NextOff(rs, k) >= 0 && RecordAt(b, rs[k], NextOff(rs, k))
    requires (forall k :: 0 <= k < |rs| - 1 ==> rs[k].End() <= rs[k + 1].at) && rs[|rs| - 1].End() <= r.at
    requires var p := rs[|rs| - 1].at + 4;
      p + 2 <= |b| && b'[..p] == b[..p] && b'[p + 2..] == b[p + 2..] && UShort(b', p) == r.at - rs[|rs| - 1].at
    ensures RecordAt(b', r, 0) && RecordAt(b', rs[|rs| - 1], r.at - rs[|rs| - 1].at)
    ensures forall k :: 0 <= k < |rs| - 1 ==> RecordAt(b', rs[k], NextOff(rs, k))
  {
    var last := rs[|rs| - 1];
    var p := last.at + 4;
    RecordMoved(b, b', r, 0, p);
    assert RecordAt(b, last, NextOff(rs, |rs| - 1));
    RecordRelinked(b, b', last, p, r.at - last.at);
    forall k | 0 <= k < |rs| - 1 ensures RecordAt(b', rs[k], NextOff(rs, k)) {
      EndsBefore(b, rs, k);
      assert RecordAt(b, rs[k], NextOff(rs, k));
      RecordKept(b, b', rs[k], NextOff(rs, k), p);
    }
  }

  lemma {:induction false} EndsBefore(b: seq<char>, rs: seq<Record>, k: nat)
    requires k + 1 < |rs|
    requires forall j :: 0 <= j < |rs| ==> NextOff(rs, j) >= 0 && RecordAt(b, rs[j], NextOff(rs, j))
    requires forall j :: 0 <= j < |rs| - 1 ==> rs[j].End() <= rs[j + 1].at
    ensures rs[k].End() <= rs[|rs| - 1].at
    decreases |rs| - k
  {
    if k + 2 < |rs| {
      EndsBefore(b, rs, k + 1);
      assert RecordAt(b, rs[k + 1], NextOff(rs, k + 1));
    }
    assert rs[k].End() <= rs[k + 1].at;
  }

  /** A record wholly above the two bytes at p. */
  lemma RecordMoved(b: seq<char>, b': seq<char>, r: Record, next: nat, p: nat)
    requires RecordAt(b, r, next) && p + 2 <= r.at && |b'| == |b| && b'[p + 2..] == b[p + 2..]
    ensures RecordAt(b', r, next)
  {
  }

  /** A record whose own link field, at p, was rewritten. */
  lemma RecordRelinked(b: seq<char>, b': seq<char>, r: Record, p: nat, next: nat)
    requires RecordAt(b, r, 0) && p == r.at + 4 && |b'| == |b|
    requires b'[..p] == b[..p] && b'[p + 2..] == b[p + 2..] && UShort(b', p) == next
    ensures RecordAt(b', r, next)
  {
  }

  // ---------------------------------------------------------------------------------------------
  // The searches in the buffer

  /** From place k of the line on, the buffer at b still holds the line s, and then its end. */
  ghost predicate Shows(buf: seq<char>, b: nat, s: string, k: nat) {
    && b + |s| < |buf| && (buf[b + |s|] == '\n' || buf[b + |s|] == NUL)
    && (forall j :: k <= j < |s| ==> buf[b + j] == s[j]) && NUL !in s && '\n' !in s
  }

  method SkipBlanksAt(buf: array<char>, i0: nat, ghost b: nat, ghost s: string) returns (i: nat)
    requires b <= i0 <= b + |s| && Shows(buf[..], b, s, i0 - b)
    ensures i == b + SkipBlanks(s, i0 - b)
  {
    i := i0;
    while Blank(buf[i])
      invariant i0 <= i <= b + |s| && SkipBlanks(s, i0 - b) == SkipBlanks(s, i - b)
      decreases b + |s| - i
    {
      assert buf[i] == buf[..][b + (i - b)];
      i := i + 1;
    }
    assert buf[i] == buf[..][b + (i - b)];
  }

  predicate TextAt(b: seq<char>, j: nat) {
    j + 3 <= |b| && b[j] == '-' && b[j + 1] == '-' && b[j + 2] == '>'
  }

  /** strstr for the arrow from c on; the end of the buffer's string if there is none. */
  method FindText(buf: array<char>, c0: nat) returns (c: nat)
    requires c0 < buf.Length && buf[buf.Length - 1] == NUL
    ensures c0 <= c < buf.Length && (buf[c] == NUL || (TextAt(buf[..], c) && c + 3 < buf.Length))
    ensures forall j :: c0 <= j < c ==> buf[j] != NUL && !TextAt(buf[..], j)
  {
    c := c0;
    while buf[c] != NUL && !(buf[c] == '-' && buf[c + 1] == '-' && buf[c + 2] == '>')
      invariant c0 <= c < buf.Length
      invariant forall j :: c0 <= j < c ==> buf[j] != NUL && !TextAt(buf[..], j)
      decreases buf.Length - c
    {
      c := c + 1;
    }
  }

  /** A separator of the line is an arrow of the buffer with blanks around it, before the end of the line. */
  lemma ArrowInLine(buf: seq<char>, b: nat, s: string, k: nat, c: nat)
    requires Shows(buf, b, s, k) && b + k < c < b + |s|
    ensures ArrowAt(s, c - b) <==> TextAt(buf, c) && Blank(buf[c - 1]) && c + 3 < |buf| && Blank(buf[c + 3])
  {
  }

  lemma NoText(buf: seq<char>, b: nat, s: string, f: nat, j: nat)
    requires b <= f <= j < b + |s| && Shows(buf, b, s, f - b) && !TextAt(buf, j)
    ensures !ArrowAt(s, j - b)
  {
  }

  lemma NotNulInLine(buf: seq<char>, b: nat, s: string, f: nat, c: nat)
    requires b <= f <= c < b + |s| && Shows(buf, b, s, f - b)
    ensures buf[c] != NUL
  {
    assert buf[b + (c - b)] == s[c - b];
  }

  lemma NoSeparator(s: string, i: nat)
    requires i <= |s| && forall j :: i <= j < |s| ==> !ArrowAt(s, j)
    ensures FindArrow(s, i) == |s|
  {
  }

  /** The loop over the arrows: the first with blanks around it, or none in this line. */
  method FindSeparator(buf: array<char>, f: nat, e: nat, ghost b: nat, ghost s: string) returns (found: bool, c: nat)
    requires buf.Length > 0 && buf[buf.Length - 1] == NUL
    requires b <= f && e == b + |s| && f < e && Shows(buf[..], b, s, f - b) && buf[f] == '/'
    ensures found ==> c == b + FindArrow(s, f - b) && c < e
    ensures !found ==> FindArrow(s, f - b) == |s|
  {
    hide ArrowAt, FindArrow;
    c := f;
    while true
      invariant f <= c < buf.Length && forall j :: f - b <= j < c - b && j < |s| ==> !ArrowAt(s, j)
      decreases buf.Length - c
    {
      ghost var c0 := c;
      c := FindText(buf, c);
      forall j | c0 - b <= j < c - b && j < |s| ensures !ArrowAt(s, j) {
        NoText(buf[..], b, s, f, b + j);
      }
      if c < e {
        NotNulInLine(buf[..], b, s, f, c);
      }
      if buf[c] == NUL || c >= e {
        NoSeparator(s, f - b);
        return false, c;
      }
      ArrowInLine(buf[..], b, s, f - b, c);
      if Blank(buf[c - 1]) && Blank(buf[c + 3]) {
        FirstArrowFound(s, f - b, c - b);
        return true, c;
      }
      forall j | c - b < j < c + 3 - b && j < |s| ensures !ArrowAt(s, j) {
        NoText(buf[..], b, s, f, b + j);
      }
      c := c + 3;
    }
  }

  /** The loops that go back over blanks, and carriage returns if cr, from just before e0. */
  method TrimAt(buf: array<char>, e0: nat, cr: bool, ghost b: nat, ghost s: string, ghost k: nat) returns (e: nat)
    requires k < |s| && b + k < e0 <= b + |s| && Shows(buf[..], b, s, k) && !Trailing(s[k], cr)
    ensures e == b + TrimEnd(s, e0 - b, cr) && b + k < e <= e0
  {
    e := e0;
    assert buf[b + k] == s[k];
    while Trailing(buf[e - 1], cr)
      invariant b + k < e <= e0 && TrimEnd(s, e0 - b, cr) == TrimEnd(s, e - b, cr)
      decreases e
    {
      assert buf[..][b + (e - 1 - b)] == s[e - 1 - b];
      e := e - 1;
    }
    assert buf[..][b + (e - 1 - b)] == s[e - 1 - b];
  }

  method WriteUShort(buf: array<char>, i: nat, v: nat)
    requires i + 2 <= buf.Length
    modifies buf
    ensures UShort(buf[..], i) == v % 0x10000
    ensures forall j :: 0 <= j < buf.Length && j != i && j != i + 1 ==> buf[j] == old(buf[j])
  {
    buf[i] := (v % 256) as char;
    buf[i + 1] := (v / 256 % 256) as char;
  }

  /** strncmp with the keyword. */
  predicate KeywordAt(b: seq<char>, k: nat) { k + 10 <= |b| && b[k..k + 10] == KEYWORD }

  lemma KeywordInLine(buf: seq<char>, b: nat, s: string, k: nat)
    requires Shows(buf, b, s, 0) && k < |s|
    ensures KeywordAt(buf, b + k) <==> KeywordAt(s, k)
  {
  }

  lemma ShowsLess(buf: seq<char>, buf': seq<char>, b: nat, s: string, k: nat, k': nat)
    requires Shows(buf, b, s, k) && k <= k' <= |s| && |buf'| == |buf|
    requires forall j :: b + k' <= j <= b + |s| ==> buf'[j] == buf[j]
    ensures Shows(buf', b, s, k')
  {
  }

  /** Only the line at b itself, with its end, was written to. */
  ghost predicate WithinLine(buf: seq<char>, buf': seq<char>, b: nat, e: nat) {
    |buf'| == |buf| && forall j :: 0 <= j < |buf| && (j < b || e < j) ==> buf'[j] == buf[j]
  }

  /** The place i up to e of the line s is still in the buffer, and null terminated. */
  ghost predicate PathShown(buf: seq<char>, b: nat, s: string, i: nat, e: nat) {
    && i <= e <= |s| && b + e < |buf| && buf[b + e] == NUL
    && forall j :: i <= j < e ==> buf[b + j] == s[j]
  }

  /** Nothing changed but the bytes from lo to hi and, if ended, the one at x. */
  ghost predicate OnlyChanged(buf: seq<char>, buf': seq<char>, lo: nat, hi: nat, ended: bool, x: nat) {
    |buf'| == |buf| && forall j :: 0 <= j < |buf| && !(lo <= j < hi) && (ended ==> j != x) ==> buf'[j] == buf[j]
  }

  lemma OnlyChangedWithin(buf: seq<char>, buf': seq<char>, lo: nat, hi: nat, ended: bool, x: nat, b: nat, e: nat)
    requires OnlyChanged(buf, buf', lo, hi, ended, x) && b <= lo && hi <= e + 1 && (ended ==> b <= x <= e)
    ensures WithinLine(buf, buf', b, e)
  {
  }

  /** The part of a line up to the arrow: the first path is found, recorded and terminated. */
  method ConvertFrom(buf: array<char>, map0: nat, f: nat, e: nat, ghost b: nat, ghost s: string)
    returns (ok: bool, c: nat, fe: nat)
    requires 0 < buf.Length && buf[buf.Length - 1] == NUL
    requires e == b + |s| < buf.Length && b <= map0 && map0 + 6 <= f < e
    requires buf[f] == '/' && Shows(buf[..], b, s, f - b)
    modifies buf
    ensures ok <==> FindArrow(s, f - b) < |s|
    ensures ok ==> c == b + FindArrow(s, f - b) && fe == b + TrimEnd(s, c - b, false) && f < fe < c && c + 4 <= e
    ensures ok ==> UShort(buf[..], map0) == (f - map0) % 0x10000 && Shows(buf[..], b, s, c - b)
    ensures ok ==> PathShown(buf[..], b, s, f - b, fe - b)
    ensures OnlyChanged(old(buf[..]), buf[..], map0, map0 + 2, ok, fe)
  {
    hide FindArrow, TrimEnd;
    ghost var k, m0 := f - b, buf[..];
    assert m0[b + k] == s[k];
    WriteUShort(buf, map0, f - map0);
    ShowsLess(m0, buf[..], b, s, k, k);
    c, fe := f, f;
    ok, c := FindSeparator(buf, f, e, b, s);
    if !ok {
      return;
    }
    SeparatorIsInside(buf[..], b, s, k, c - b);
    fe := TrimAt(buf, c, false, b, s, k);
    BlankBefore(s, k, c - b);
    ghost var m1 := buf[..];
    buf[fe] := NUL;
    ShowsLess(m1, buf[..], b, s, k, c - b);
  }

  lemma SeparatorIsInside(buf: seq<char>, b: nat, s: string, k: nat, c: nat)
    requires k <= |s| && c == FindArrow(s, k) && c < |s| && k < |s| && s[k] == '/'
    ensures k < c && c + 4 <= |s|
  {
  }

  lemma BlankBefore(s: string, i: nat, c: nat)
    requires i <= c < |s| && FindArrow(s, i) == c
    ensures TrimEnd(s, c, false) < c
  {
  }

  /** What the line must be after an arrow at c, the first path ending in fromEnd. */
  ghost predicate GoodTarget(s: string, c: nat, fromEnd: char) {
    var t, te := SkipBlanks(s, c + 4), TrimEnd(s, |s|, true);
    t < |s| && s[t] == '/' && 0 < te && (fromEnd == '/' <==> s[te - 1] == '/')
  }

  lemma TargetIs(s: string, c: nat, fromEnd: char)
    requires c + 4 <= |s|
    ensures var t, te := SkipBlanks(s, c + 4), TrimEnd(s, |s|, true);
            && t <= |s| && te <= |s|
            && (GoodTarget(s, c, fromEnd) ==> t < |s| && s[t] == '/')
            && (te > 0 && t < |s| && s[t] == '/' ==>
                  (GoodTarget(s, c, fromEnd) <==> (fromEnd == '/' <==> s[te - 1] == '/')))
  {
    hide SkipBlanks, TrimEnd;
  }

  /** The end of a line's conversion: the second path, from t to te, is terminated, and nothing follows yet. */
  method Finish(buf: array<char>, map0: nat, te: nat, ghost t: nat, ghost b: nat, ghost s: string)
    requires b <= t < te <= b + |s| < buf.Length && map0 + 6 <= t && Shows(buf[..], b, s, t - b)
    modifies buf
    ensures UShort(buf[..], map0 + 2) == old(UShort(buf[..], map0 + 2)) && UShort(buf[..], map0 + 4) == 0
    ensures PathShown(buf[..], b, s, t - b, te - b)
    ensures OnlyChanged(old(buf[..]), buf[..], map0 + 4, map0 + 6, true, te)
  {
    buf[te] := NUL;
    WriteUShort(buf, map0 + 4, 0);
  }

  lemma OnlyChangedTwice(m0: seq<char>, m1: seq<char>, m2: seq<char>, p: nat, te: nat)
    requires OnlyChanged(m0, m1, p, p + 2, false, te) && OnlyChanged(m1, m2, p + 2, p + 4, true, te)
    ensures OnlyChanged(m0, m2, p, p + 4, true, te)
  {
  }

  /** The part of a line after the arrow at c: the second path is found, recorded and terminated. */
  method ConvertTo(buf: array<char>, map0: nat, c: nat, e: nat, fromEnd: char, ghost b: nat, ghost s: string)
    returns (ok: bool, t: nat, te: nat)
    requires 0 < buf.Length && e == b + |s| < buf.Length && b <= map0 && map0 + 6 <= c && b <= c && c + 4 <= e
    requires Shows(buf[..], b, s, c - b)
    modifies buf
    ensures ok <==> GoodTarget(s, c - b, fromEnd)
    ensures ok ==> t == b + SkipBlanks(s, c - b + 4) && te == b + TrimEnd(s, |s|, true) && c + 4 <= t < te <= e
    ensures ok ==> UShort(buf[..], map0 + 2) == (t - map0) % 0x10000 && UShort(buf[..], map0 + 4) == 0
    ensures ok ==> PathShown(buf[..], b, s, t - b, te - b)
    ensures OnlyChanged(old(buf[..]), buf[..], map0 + 2, map0 + 6, ok, te)
  {
    hide TrimEnd, UShort, PathShown, GoodTarget, SkipBlanks;
    ghost var m0 := buf[..];
    TargetIs(s, c - b, fromEnd);
    ShowsLess(m0, m0, b, s, c - b, c + 4 - b);
    t, te := c, c;
    t := SkipBlanksAt(buf, c + 4, b, s);
    assert t < e ==> m0[b + (t - b)] == s[t - b];
    if buf[t] != '/' {
      return false, t, te;
    }
    WriteUShort(buf, map0 + 2, t - map0);
    ShowsLess(m0, buf[..], b, s, c - b, t - b);
    te := TrimAt(buf, e, true, b, s, t - b);
    assert buf[..][b + (te - 1 - b)] == s[te - 1 - b];
    if (fromEnd == '/' || buf[te - 1] == '/') && buf[te - 1] != fromEnd {
      return false, t, te;
    }
    ghost var m1 := buf[..];
    Finish(buf, map0, te, t, b, s);
    OnlyChangedTwice(m0, m1, buf[..], map0 + 2, te);
    ok := true;
  }

  /** What converting the line s, which starts at b, leaves in the buffer. */
  ghost function RecordOf(s: string, b: nat, m: Line): Record
    requires m.Map? && m.f <= m.fe <= |s| && m.t <= m.te <= |s|
  {
    Record(b + m.at + (b + m.at) % 2, b + m.f, b + m.t, Rule(s[m.f..m.fe], s[m.t..m.te]))
  }

  lemma PathsAre(s: string, k: nat, f: nat, c: nat, fe: nat)
    requires f < |s| && s[f] == '/' && c == FindArrow(s, f) && c < |s| && c + 4 <= |s|
    requires fe == TrimEnd(s, c, false) && f < fe
    ensures ParsePaths(s, k, f) ==
              if GoodTarget(s, c, s[fe - 1]) then Map(k, f, fe, SkipBlanks(s, c + 4), TrimEnd(s, |s|, true)) else Bad
  {
  }

  lemma NoPaths(s: string, k: nat, f: nat)
    requires f < |s| && s[f] == '/' && FindArrow(s, f) == |s|
    ensures ParsePaths(s, k, f) == Bad
  {
  }

  lemma ShowsNoNul(buf: seq<char>, b: nat, s: string, k: nat)
    requires Shows(buf, b, s, k)
    ensures NUL !in s
  {
  }

  /** What is left of a line once both of its paths are terminated: m after the first, m' after the second. */
  lemma PathsConverted(m: seq<char>, m': seq<char>, p: nat, b: nat, s: string, line: Line)
    requires line.Map? && p == b + line.at + (b + line.at) % 2 && NUL !in s
    requires line.at + 10 <= line.f < line.fe && line.fe + 5 <= line.t < line.te <= |s| && b + |s| < |m| == |m'|
    requires UShort(m, p) == (b + line.f - p) % 0x10000 && UShort(m', p + 2) == (b + line.t - p) % 0x10000
    requires UShort(m', p + 4) == 0
    requires PathShown(m, b, s, line.f, line.fe) && PathShown(m', b, s, line.t, line.te)
    requires OnlyChanged(m, m', p + 2, p + 6, true, b + line.te)
    ensures RecordOf(s, b, line).Near() ==> RecordAt(m', RecordOf(s, b, line), 0)
    ensures b <= RecordOf(s, b, line).at == p && p + 6 <= RecordOf(s, b, line).End() <= b + |s| + 1
  {
  }

  lemma LastShown(m: seq<char>, b: nat, s: string, i: nat, e: nat)
    requires PathShown(m, b, s, i, e) && i < e
    ensures m[b + e - 1] == s[e - 1]
  {
  }

  /** The rest of a line, its first path being done and the arrow at c. */
  method ConvertRest(buf: array<char>, map0: nat, c: nat, fe: nat, e: nat,
                     ghost k: nat, ghost f: nat, ghost b: nat, ghost s: string)
    returns (ok: bool)
    requires 0 < buf.Length && e == b + |s| < buf.Length && map0 == k + k % 2
    requires b <= k && k + 10 <= f < fe < c && c + 4 <= e && s[f - b] == '/'
    requires c == b + FindArrow(s, f - b) && fe == b + TrimEnd(s, c - b, false)
    requires UShort(buf[..], map0) == (f - map0) % 0x10000 && Shows(buf[..], b, s, c - b)
    requires PathShown(buf[..], b, s, f - b, fe - b)
    modifies buf
    ensures ok <==> ParsePaths(s, k - b, f - b).Map?
    ensures ok ==> var r := RecordOf(s, b, ParsePaths(s, k - b, f - b));
                   map0 == r.at && (r.Near() ==> RecordAt(buf[..], r, 0)) && b <= map0 && r.at + 6 <= r.End() <= e + 1
    ensures WithinLine(old(buf[..]), buf[..], b, e)
  {
    hide FindArrow, TrimEnd, SkipBlanks, ParsePaths, RecordAt, UShort, Shows, PathShown;
    hide OnlyChanged, WithinLine, GoodTarget, RecordOf;
    PathsAre(s, k - b, f - b, c - b, fe - b);
    ghost var m := buf[..];
    LastShown(m, b, s, f - b, fe - b);
    ShowsNoNul(m, b, s, c - b);
    var t, te;
    ok, t, te := ConvertTo(buf, map0, c, e, buf[fe - 1], b, s);
    if ok {
      PathsConverted(m, buf[..], map0, b, s, ParsePaths(s, k - b, f - b));
    }
    OnlyChangedWithin(m, buf[..], map0 + 2, map0 + 6, ok, te, b, e);
  }

  /** The paths of a line and its record, which goes to the even address at or after its keyword at k. */
  method ConvertPaths(buf: array<char>, k: nat, f: nat, e: nat, ghost b: nat, ghost s: string)
    returns (ok: bool, map0: nat)
    requires 0 < buf.Length && buf[buf.Length - 1] == NUL
    requires e == b + |s| < buf.Length && b <= k && k + 10 <= f < e && buf[f] == '/' && s[f - b] == '/'
    requires Shows(buf[..], b, s, f - b)
    modifies buf
    ensures ok <==> ParsePaths(s, k - b, f - b).Map?
    ensures ok ==> var r := RecordOf(s, b, ParsePaths(s, k - b, f - b));
                   map0 == r.at && (r.Near() ==> RecordAt(buf[..], r, 0)) && b <= map0 && r.at + 6 <= r.End() <= e + 1
    ensures WithinLine(old(buf[..]), buf[..], b, e)
  {
    hide FindArrow, TrimEnd, SkipBlanks, ParsePaths, RecordAt, UShort, Shows, PathShown, OnlyChanged;
    map0 := k + k % 2;
    var c, fe;
    ghost var m := buf[..];
    ok, c, fe := ConvertFrom(buf, map0, f, e, b, s);
    OnlyChangedWithin(m, buf[..], map0, map0 + 2, ok, fe, b, e);
    if ok {
      ok := ConvertRest(buf, map0, c, fe, e, k, f, b, s);
    } else {
      NoPaths(s, k - b, f - b);
    }
  }

  lemma LineStart(s: string, k: nat)
    requires k == SkipBlanks(s, 0)
    ensures k == |s| || (k < |s| && s[k] == '#') ==> ParseLine(s).Skip?
    ensures k < |s| && s[k] != '#' && !KeywordAt(s, k) ==> ParseLine(s).Bad?
  {
  }

  lemma KeywordFits(s: string, k: nat)
    requires KeywordAt(s, k)
    ensures k + 10 <= |s|
  {
  }

  lemma LinePaths(s: string, k: nat, f: nat)
    requires k == SkipBlanks(s, 0) < |s| && s[k] != '#' && KeywordAt(s, k) && f == SkipBlanks(s, k + 10)
    ensures ParseLine(s) == if f >= |s| || s[f] != '/' then Bad else ParsePaths(s, k, f)
  {
  }

  /** One line of the text: nothing, an error, or a record in place of its keyword. */
  method ConvertLine(buf: array<char>, b: nat, e: nat, ghost s: string) returns (ok: bool, found: bool, map0: nat)
    requires 0 < buf.Length && buf[buf.Length - 1] == NUL
    requires e == b + |s| < buf.Length && Shows(buf[..], b, s, 0)
    modifies buf
    ensures ok <==> !ParseLine(s).Bad?
    ensures ok ==> (found <==> ParseLine(s).Map?)
    ensures ok && found ==> var r := RecordOf(s, b, ParseLine(s));
                            && map0 == r.at && (r.Near() ==> RecordAt(buf[..], r, 0))
                            && b <= map0 && r.at + 6 <= r.End() <= e + 1
    ensures WithinLine(old(buf[..]), buf[..], b, e)
  {
    hide ParseLine, ParsePaths, SkipBlanks, RecordOf, RecordAt, Record.End, Record.Near, KeywordAt;
    ok, found, map0 := false, false, 0;
    ghost var m0 := buf[..];
    var k := SkipBlanksAt(buf, b, b, s);
    assert k < e ==> m0[b + (k - b)] == s[k - b];
    LineStart(s, k - b);
    if buf[k] == '#' || k == e {
      return true, false, 0;
    }
    KeywordInLine(m0, b, s, k - b);
    if !KeywordAt(buf[..], k) {
      return;
    }
    KeywordFits(s, k - b);
    ShowsLess(m0, m0, b, s, 0, k + 10 - b);
    var f := SkipBlanksAt(buf, k + 10, b, s);
    assert f < e ==> m0[b + (f - b)] == s[f - b];
    LinePaths(s, k - b, f - b);
    if buf[f] != '/' {
      return;
    }
    ShowsLess(m0, m0, b, s, 0, f - b);
    ok, map0 := ConvertPaths(buf, k, f, e, b, s);
    found := ok;
  }

  // ---------------------------------------------------------------------------------------------
  // The whole text

  datatype Pointer = Null | Ref(at: nat)

  /** The buffer from b on still holds the text and the null after it, and ends in a null itself. */
  ghost predicate Unread(buf: seq<char>, text: string, b: nat) {
    b <= |text| < |buf| && buf[b..|text| + 1] == text[b..] + [NUL] && NUL !in text && buf[|buf| - 1] == NUL
  }

  /** strchr for the end of the line at b. */
  method FindLineEnd(buf: array<char>, b: nat, ghost text: string) returns (e: nat)
    requires Unread(buf[..], text, b)
    ensures e == LineEnd(text, b) && Shows(buf[..], b, text[b..e], 0) && (buf[e] == '\n' <==> e < |text|)
  {
    assert forall j :: b <= j <= |text| ==> buf[j] == buf[..][b..|text| + 1][j - b];
    e := b;
    while buf[e] != '\n' && buf[e] != NUL
      invariant b <= e <= |text| && LineEnd(text, b) == LineEnd(text, e)
      decreases |text| - e
    {
      e := e + 1;
    }
    var s := text[b..e];
    assert forall j :: 0 <= j < |s| ==> buf[b + j] == s[j];
  }

  /** The rules before a place in the text, and what follows it. */
  function Then(rules: seq<Rule>, rest: Parsed): Parsed {
    if rest.BadLine? then rest else Rules(rules + rest.rules)
  }

  lemma ThenStep(rules: seq<Rule>, text: string, b: nat, e: nat, n: nat)
    requires b <= |text| && e == LineEnd(text, b)
    ensures var line := ParseLine(text[b..e]);
            Then(rules, ParseFrom(text, b, n)) ==
              if line.Bad? then BadLine(n)
              else Then(if line.Map? then rules + [RuleOf(text[b..e])] else rules,
                        if e == |text| then Rules([]) else ParseFrom(text, e + 1, n + 1))
  {
    hide ParseLine, RuleOf, LineEnd;
    var rest := if e == |text| then Rules([]) else ParseFrom(text, e + 1, n + 1);
    if ParseLine(text[b..e]).Map? && rest.Rules? {
      assert rules + ([RuleOf(text[b..e])] + rest.rules) == rules + [RuleOf(text[b..e])] + rest.rules;
    }
  }

  /** The list before hi, with the pointers to its two ends. */
  ghost predicate Chain(buf: seq<char>, rs: seq<Record>, head: Pointer, prev: Pointer, hi: nat) {
    && ListAt(buf, rs, hi)
    && head == (if rs == [] then Null else Ref(rs[0].at))
    && prev == (if rs == [] then Null else Ref(rs[|rs| - 1].at))
  }

  lemma ChainKept(m: seq<char>, m': seq<char>, rs: seq<Record>, head: Pointer, prev: Pointer, b: nat, e: nat)
    requires Chain(m, rs, head, prev, b) && WithinLine(m, m', b, e) && b <= e < |m|
    ensures Chain(m', rs, head, prev, b) && Chain(m', rs, head, prev, e + 1)
  {
    hide RecordAt;
    assert m'[..b] == m[..b];
    ListKept(m, m', rs, b);
  }

  lemma UnreadKept(m: seq<char>, m': seq<char>, text: string, b: nat, e: nat)
    requires Unread(m, text, b) && WithinLine(m, m', b, e) && b <= e < |text|
    ensures Unread(m', text, e + 1)
  {
    assert m[e + 1..|text| + 1] == m[b..|text| + 1][e + 1 - b..];
    assert m'[e + 1..|text| + 1] == m[e + 1..|text| + 1];
  }

  lemma UnreadAbove(m: seq<char>, m': seq<char>, text: string, b: nat)
    requires Unread(m, text, b) && |m'| == |m| && m'[b..] == m[b..]
    ensures Unread(m', text, b)
  {
  }

  /** Adds the record at map0 to the list; whole says that all of it is in the reach of its offsets. */
  method Link(buf: array<char>, map0: nat, head: Pointer, prev: Pointer,
              ghost rs: seq<Record>, ghost r: Record, ghost b: nat, ghost hi: nat, ghost whole: bool)
    returns (head': Pointer)
    requires whole ==> Chain(buf[..], rs, head, prev, b) && RecordAt(buf[..], r, 0) && Reaches(prev, r.at)
    requires EndsMatch(rs, head, prev, b) && map0 == r.at && b <= map0 && map0 + 6 <= r.End() <= hi <= buf.Length
    modifies buf
    ensures whole ==> Chain(buf[..], rs + [r], head', Ref(map0), hi)
    ensures EndsMatch(rs + [r], head', Ref(map0), hi)
    ensures forall j :: b <= j < buf.Length ==> buf[j] == old(buf[j])
  {
    hide ListAt, RecordAt, UShort;
    ghost var m := buf[..];
    head' := head;
    if prev == Null {
      head' := Ref(map0);
    } else {
      WriteUShort(buf, prev.at + 4, map0 - prev.at);
      LinkFrame(m, buf[..], prev.at + 4);
    }
    if whole {
      RecordIsLong(m, r, 0);
      if prev != Null {
        LastBefore(m, rs, b);
      }
      ListGrows(m, buf[..], rs, r, b, hi);
    }
  }

  /** head and prev are null exactly while there is no record, and the last one is before hi. */
  ghost predicate EndsMatch(rs: seq<Record>, head: Pointer, prev: Pointer, hi: nat) {
    (rs == [] <==> head == Null) && (rs == [] <==> prev == Null) && (prev != Null ==> prev.at + 6 <= hi)
  }

  /** An offset from prev to at fits an unsigned short. */
  predicate Reaches(prev: Pointer, at: nat) { prev != Null ==> prev.at <= at < prev.at + 0x10000 }

  lemma LinkFrame(m: seq<char>, m': seq<char>, p: nat)
    requires |m'| == |m| && p + 2 <= |m| && forall j :: 0 <= j < |m| && j != p && j != p + 1 ==> m'[j] == m[j]
    ensures m'[..p] == m[..p] && m'[p + 2..] == m[p + 2..]
  {
  }

  lemma LastBefore(m: seq<char>, rs: seq<Record>, b: nat)
    requires ListAt(m, rs, b) && rs != []
    ensures rs[|rs| - 1].at + 6 <= b && rs[|rs| - 1].End() <= |m|
  {
  }

  lemma LineRecord(text: string, b: nat, e: nat)
    requires b <= e <= |text| && ParseLine(text[b..e]).Map?
    ensures RecordOf(text[b..e], b, ParseLine(text[b..e])).rule == RuleOf(text[b..e])
  {
  }

  lemma RulesOfMore(rs: seq<Record>, r: Record)
    ensures RulesOf(rs + [r]) == RulesOf(rs) + [r.rule]
  {
  }

  /** The record of the line from b to e. */
  ghost function LineRecordOf(text: string, b: nat, e: nat): Record
    requires b <= e <= |text| && ParseLine(text[b..e]).Map?
  {
    RecordOf(text[b..e], b, ParseLine(text[b..e]))
  }

  /** The offsets of the record of a line, if it has one, fit. */
  ghost predicate LineFits(text: string, b: nat, e: nat, prev: Pointer)
    requires b <= e <= |text|
  {
    ParseLine(text[b..e]).Map? ==> var r := LineRecordOf(text, b, e); r.Near() && Reaches(prev, r.at)
  }

  /** The last record after a line. */
  ghost function PrevAfter(text: string, b: nat, e: nat, prev: Pointer): Pointer
    requires b <= e <= |text|
  {
    if ParseLine(text[b..e]).Map? then Ref(LineRecordOf(text, b, e).at) else prev
  }

  /** From the line at b on, every path and every next record is within 64K of its record. */
  ghost predicate FitsFrom(text: string, b: nat, prev: Pointer)
    requires b <= |text|
    decreases |text| - b
  {
    var e := LineEnd(text, b);
    LineFits(text, b, e, prev) && (e < |text| ==> FitsFrom(text, e + 1, PrevAfter(text, b, e, prev)))
  }

  ghost predicate OffsetsFit(text: string) { FitsFrom(text, 0, Null) }

  lemma FitsStep(text: string, b: nat, e: nat, prev: Pointer)
    requires b <= |text| && e == LineEnd(text, b)
    ensures FitsFrom(text, b, prev) <==>
              LineFits(text, b, e, prev) && (e < |text| ==> FitsFrom(text, e + 1, PrevAfter(text, b, e, prev)))
  {
    hide LineEnd, LineFits, PrevAfter;
  }

  lemma ShortLineFits(text: string, b: nat, e: nat, prev: Pointer)
    requires b <= e <= |text| <= 0x10000 && (prev != Null ==> prev.at <= b)
    ensures LineFits(text, b, e, prev)
    ensures PrevAfter(text, b, e, prev) != Null ==> PrevAfter(text, b, e, prev).at <= e + 1
  {
    hide ParseLine;
  }

  lemma {:induction false} ShortFits(text: string, b: nat, prev: Pointer)
    requires b <= |text| <= 0x10000 && (prev != Null ==> prev.at <= b)
    ensures FitsFrom(text, b, prev)
    decreases |text| - b
  {
    var e := LineEnd(text, b);
    ShortLineFits(text, b, e, prev);
    hide ParseLine, LineFits, PrevAfter, LineEnd;
    if e < |text| {
      ShortFits(text, e + 1, PrevAfter(text, b, e, prev));
    }
  }

  /** The offsets of every text up to 64K fit. */
  lemma ShortTextFits(text: string)
    requires |text| <= 0x10000
    ensures OffsetsFit(text)
  {
    ShortFits(text, 0, Null);
  }

  /** One line: its conversion, and its record linked in. */
  method ParseOne(buf: array<char>, b: nat, e: nat, head: Pointer, prev: Pointer,
                  ghost text: string, ghost rs: seq<Record>, ghost whole: bool)
    returns (ok: bool, head': Pointer, prev': Pointer, ghost rs': seq<Record>)
    requires Unread(buf[..], text, b) && b <= e <= |text| && e == LineEnd(text, b)
    requires Shows(buf[..], b, text[b..e], 0) && EndsMatch(rs, head, prev, b)
    requires whole ==> Chain(buf[..], rs, head, prev, b)
    modifies buf
    ensures ok <==> !ParseLine(text[b..e]).Bad?
    ensures ok ==> EndsMatch(rs', head', prev', e + 1) && prev' == PrevAfter(text, b, e, prev)
    ensures ok && whole && LineFits(text, b, e, prev) ==> Chain(buf[..], rs', head', prev', e + 1)
    ensures ok ==>
              RulesOf(rs') == if ParseLine(text[b..e]).Map? then RulesOf(rs) + [RuleOf(text[b..e])] else RulesOf(rs)
    ensures e < |text| ==> Unread(buf[..], text, e + 1)
  {
    hide ParseLine, RuleOf, LineEnd, RecordOf, RecordAt, Chain, Shows, WithinLine, RulesOf, Reaches, Record.Near;
    head', prev', rs' := head, prev, rs;
    ghost var m, s := buf[..], text[b..e];
    var found, map0;
    ok, found, map0 := ConvertLine(buf, b, e, s);
    ghost var m1 := buf[..];
    if whole {
      ChainKept(m, m1, rs, head, prev, b, e);
    }
    if e < |text| {
      UnreadKept(m, m1, text, b, e);
    }
    if ok && found {
      ghost var r := RecordOf(s, b, ParseLine(s));
      head' := Link(buf, map0, head, prev, rs, r, b, e + 1, whole && LineFits(text, b, e, prev));
      prev' := Ref(map0);
      rs' := rs + [r];
      LineRecord(text, b, e);
      RulesOfMore(rs, r);
      if e < |text| {
        assert buf[..][e + 1..] == m1[e + 1..];
        UnreadAbove(m1, buf[..], text, e + 1);
      }
    }
  }

  /** filemap_parse of a file that was read into buf: the number of the bad line, or 0, and the list. */
  method ParseBuffer(buf: array<char>, ghost text: string) returns (badLine: nat, head: Pointer)
    requires |text| < buf.Length && Unread(buf[..], text, 0)
    modifies buf
    ensures badLine > 0 <==> ParseText(text).BadLine?
    ensures badLine > 0 ==> ParseText(text) == BadLine(badLine) && head == Null
    ensures badLine == 0 && OffsetsFit(text) ==> Holds(buf[..], head, ParseText(text).rules)
    ensures head == Null <==> badLine > 0 || ParseText(text).rules == []
  {
    hide ParseLine, RuleOf, LineEnd, Chain, Shows, Unread, ParseFrom, Then, FitsFrom, LineFits, PrevAfter, RulesOf;
    head := Null;
    var prev, b, line := Null, 0, 0;
    ghost var rs: seq<Record>, whole := [], true;
    ChainEmpty(buf[..]);
    ThenAll(ParseText(text));
    while true
      invariant b <= |text| && Unread(buf[..], text, b) && EndsMatch(rs, head, prev, b)
      invariant ParseText(text) == Then(RulesOf(rs), ParseFrom(text, b, line + 1))
      invariant OffsetsFit(text) <==> whole && FitsFrom(text, b, prev)
      invariant whole ==> Chain(buf[..], rs, head, prev, b)
      decreases |text| - b
    {
      line := line + 1;
      var e := FindLineEnd(buf, b, text);
      var last := buf[e] != '\n';
      ThenStep(RulesOf(rs), text, b, e, line);
      FitsStep(text, b, e, prev);
      var ok;
      ghost var fits := LineFits(text, b, e, prev);
      ok, head, prev, rs := ParseOne(buf, b, e, head, prev, text, rs, whole);
      if !ok {
        return line, Null;
      }
      whole := whole && fits;
      if last {
        break;
      }
      b := e + 1;
    }
    badLine := 0;
    ThenEnds(RulesOf(rs));
    RulesCount(rs);
    if whole {
      ChainReads(buf[..], rs, head, prev, |text| + 1);
    }
  }

  /** A list in the buffer, as filemap_map walks it, and its rules. */
  ghost predicate Holds(b: seq<char>, head: Pointer, rules: seq<Rule>) {
    if head == Null then rules == [] else WellLinked(b, head.at) && ReadList(b, head.at) == rules
  }

  /** Each record lies within the buffer. */
  ghost predicate WellLinked(b: seq<char>, i: nat)
    decreases |b| - i
  {
    i + 6 <= |b| && (UShort(b, i + 4) != 0 ==> WellLinked(b, i + UShort(b, i + 4)))
  }

  lemma {:induction false} ListIsLinked(b: seq<char>, rs: seq<Record>, hi: nat, k: nat)
    requires ListAt(b, rs, hi) && k < |rs|
    ensures WellLinked(b, rs[k].at)
    decreases |rs| - k
  {
    assert RecordAt(b, rs[k], NextOff(rs, k));
    hide StringAt;
    if k + 1 < |rs| {
      ListIsLinked(b, rs, hi, k + 1);
    }
  }

  lemma ThenEnds(rules: seq<Rule>)
    ensures Then(rules, Rules([])) == Rules(rules)
  {
  }

  lemma RulesCount(rs: seq<Record>)
    ensures RulesOf(rs) == [] <==> rs == []
  {
  }

  lemma ChainEmpty(m: seq<char>)
    ensures Chain(m, [], Null, Null, 0)
  {
  }

  lemma ThenAll(p: Parsed)
    ensures Then(RulesOf([]), p) == p
  {
  }

  lemma ChainReads(m: seq<char>, rs: seq<Record>, head: Pointer, prev: Pointer, hi: nat)
    requires Chain(m, rs, head, prev, hi)
    ensures Holds(m, head, RulesOf(rs))
  {
    if rs != [] {
      ListReads(m, rs, hi, 0);
      ListIsLinked(m, rs, hi, 0);
    }
  }

  /** filemap_parse: the file is read into a buffer of its own and a null put after it. A null inside the
      file ends its text. */
  method LoadFile(file: string) returns (badLine: nat, head: Pointer, buf: array<char>)
    ensures badLine > 0 <==> ParseText(CString(file, 0)).BadLine?
    ensures badLine > 0 ==> ParseText(CString(file, 0)) == BadLine(badLine) && head == Null
    ensures badLine == 0 && OffsetsFit(CString(file, 0)) ==> Holds(buf[..], head, ParseText(CString(file, 0)).rules)
    ensures head == Null <==> badLine > 0 || ParseText(CString(file, 0)).rules == []
    ensures fresh(buf)
  {
    hide ParseText;
    buf := new char[|file| + 1](i requires 0 <= i <= |file| => if i < |file| then file[i] else NUL);
    assert buf[..] == file + [NUL];
    TextOf(file);
    badLine, head := ParseBuffer(buf, CString(file, 0));
  }

  lemma {:induction false} CStringIs(b: seq<char>, i: nat)
    requires i <= |b|
    ensures var s := CString(b, i);
            && i + |s| <= |b| && s == b[i..i + |s|] && NUL !in s
            && (i + |s| < |b| ==> b[i + |s|] == NUL)
    decreases |b| - i
  {
    if i < |b| && b[i] != NUL {
      CStringIs(b, i + 1);
    }
  }

  lemma TextOf(file: string)
    ensures Unread(file + [NUL], CString(file, 0), 0) && |CString(file, 0)| <= |file|
  {
    CStringIs(file, 0);
  }

  lemma CStringWhole(s: string)
    requires NUL !in s
    ensures CString(s, 0) == s
  {
    CStringIs(s, 0);
    assert s[0..|s|] == s;
  }

  /** A file of printed rules, comments and blank lines becomes a list that reads as those rules. */
  lemma PrintedFile(items: seq<Item>)
    requires (forall k :: 0 <= k < |items| ==> GoodItem(items[k])) && NUL !in Print(items)
    ensures ParseText(CString(Print(items), 0)) == Rules(RulesIn(items))
  {
    hide Print, ParseText, GoodItem, RulesIn, CString;
    CStringWhole(Print(items));
    PrintParse(items);
  }
}
