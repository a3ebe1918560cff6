/** abi_read_dir of per-svr4/misc.c: reading a directory as a file of 16-byte V7 entries, long names
    being cut into 14-byte chunks. */
module ReadDir {

  type Byte = x: int | 0 <= x < 256
  type Name = seq<Byte>

  datatype Entry = Entry(ino: nat, name: Name) {
    /** What the kernel reports: a name, without nulls. */
    predicate Valid() { name != [] && 0 !in name }
  }

  /** An inode field, and an entry as a program sees it. */
  type Field = x: int | 0 <= x <= 0xffff
  type Shown = (Field, Name)

  const CHUNK := 14
  const MORE := 0xffff

  /** A long inode folded to a short one that is not zero. */
  function Fold(ino: nat): (r: nat)
    ensures 0 < r <= 0xffff
  {
    if ino % 0x10000 != 0 then ino % 0x10000 else 0xfffe
  }

  /** Small inodes stay what they are, and two inodes fold to the same number if and only if they agree in
      their low halves, a low half of zero being taken for 0xfffe. */
  lemma FoldLaw(a: nat, b: nat)
    ensures Fold(a) == a <==> 0 < a <= 0xffff
    ensures var x, y := a % 0x10000, b % 0x10000;
            Fold(a) == Fold(b) <==> x == y || (x == 0 && y == 0xfffe) || (x == 0xfffe && y == 0)
    ensures a % 0x10000 == 0 ==> Fold(a) == 0xfffe
  {
  }

  /** Without CONFIG_ABI_SHINOMAP inodes are folded. With it, as this repository is built, number says what
      they are mapped to. */
  datatype Build = Folded | Mapped(number: nat -> nat)

  /** What an inode field holds once the inode was put over the bytes that the caller's buffer held there:
      a mapped inode goes through a char pointer, so that the second byte stays what it was. */
  function FieldOf(build: Build, ino: nat, under: Byte): Field {
    match build
    case Folded => Fold(ino)
    case Mapped(number) => number(ino) % 256 + 256 * under
  }

  /** When a mapped field is right, when it is the continuation mark, and when it is zero. */
  lemma MappedField(number: nat -> nat, ino: nat, under: Byte)
    ensures var f := FieldOf(Mapped(number), ino, under);
            && (f == number(ino) <==> number(ino) / 256 == under)
            && (f == MORE <==> number(ino) % 256 == 0xff && under == 0xff)
            && (f == 0 <==> number(ino) % 256 == 0 && under == 0)
  {
  }

  function RecLen(e: Entry): nat { 16 * ((|e.name| + 13) / 14) }

  // ---------------------------------------------------------------------------------------------
  // The format

  function Zeros(n: nat): Name { seq(n, _ => 0) }

  function WordBytes(w: Field): seq<Byte> {
    [w % 256, w / 256]
  }

  function Encode(field: Field, name: Name): seq<Byte>
    decreases |name|
  {
    if |name| <= CHUNK then WordBytes(field) + name + Zeros(CHUNK - |name|)
    else WordBytes(MORE) + name[..CHUNK] + Encode(field, name[CHUNK..])
  }

  function EncodeEntry(p: Shown): seq<Byte> { Encode(p.0, p.1) }

  function EncodeAll(ps: seq<Shown>): seq<Byte> {
    if ps == [] then [] else EncodeAll(ps[..|ps| - 1]) + EncodeEntry(ps[|ps| - 1])
  }

  /** A name field up to its first null. */
  function Trim(s: Name): Name {
    if s == [] || s[0] == 0 then [] else [s[0]] + Trim(s[1..])
  }

  /** What a program makes of the bytes it read: chunks marked MORE belong to the entry after them. */
  function Decode(b: seq<Byte>): seq<Shown>
    decreases |b|
  {
    if |b| < 16 then []
    else
      var field: Field := (b[0] as int) + 256 * (b[1] as int);
      var rest := Decode(b[16..]);
      if field != MORE then [(field, Trim(b[2..16]))] + rest
      else if rest == [] then []
      else [(rest[0].0, b[2..16] + rest[0].1)] + rest[1..]
  }

  /** Names that decode to themselves. */
  predicate Plain(ps: seq<Shown>) { forall i :: 0 <= i < |ps| ==> ps[i].1 != [] && 0 !in ps[i].1 }

  function Names(ps: seq<Shown>): seq<Name> { seq(|ps|, i requires 0 <= i < |ps| => ps[i].1) }

  lemma {:induction false} EncodeLength(ino: Field, name: Name)
    requires name != []
    ensures |Encode(ino, name)| == 16 * ((|name| + 13) / 14)
    decreases |name|
  {
    if |name| > CHUNK {
      EncodeLength(ino, name[CHUNK..]);
    }
  }

  lemma {:induction false} TrimPadded(s: Name, n: nat)
    requires 0 !in s
    ensures Trim(s + Zeros(n)) == s
  {
    if s == [] {
      assert s + Zeros(n) == Zeros(n);
    } else {
      assert (s + Zeros(n))[1..] == s[1..] + Zeros(n);
      TrimPadded(s[1..], n);
    }
  }

  /** One encoded entry in front of other bytes decodes to that entry and what they decode to. */
  lemma {:induction false} DecodeEntry(ino: Field, name: Name, b: seq<Byte>)
    requires ino < MORE && name != [] && 0 !in name
    ensures Decode(Encode(ino, name) + b) == [(ino, name)] + Decode(b)
    decreases |name|
  {
    var e := Encode(ino, name);
    var w := if |name| <= CHUNK then ino else MORE;
    if |name| <= CHUNK {
      var field := name + Zeros(CHUNK - |name|);
      assert e == WordBytes(ino) + field;
      assert (e + b)[2..16] == field && (e + b)[16..] == b;
      TrimPadded(name, CHUNK - |name|);
    } else {
      var tail := Encode(ino, name[CHUNK..]);
      assert (e + b)[2..16] == name[..CHUNK] && (e + b)[16..] == tail + b;
      DecodeEntry(ino, name[CHUNK..], b);
      assert name == name[..CHUNK] + name[CHUNK..];
    }
    assert (e + b)[0] == w % 256 && (e + b)[1] == w / 256;
  }

  lemma {:induction false} DecodeAllBefore(ps: seq<Shown>, b: seq<Byte>)
    requires Plain(ps) && forall i :: 0 <= i < |ps| ==> ps[i].0 != MORE
    ensures Decode(EncodeAll(ps) + b) == ps + Decode(b)
    decreases |ps|
  {
    hide Decode, Encode;
    if ps == [] {
      assert EncodeAll(ps) + b == b;
    } else {
      var pre, p := ps[..|ps| - 1], ps[|ps| - 1];
      assert EncodeAll(ps) + b == EncodeAll(pre) + (EncodeEntry(p) + b);
      DecodeAllBefore(pre, EncodeEntry(p) + b);
      DecodeEntry(p.0, p.1, b);
      hide EncodeAll;
      assert pre + ([p] + Decode(b)) == ps + Decode(b);
    }
  }

  /** Names, however long, and inode fields are recovered from the bytes, in order. */
  lemma DecodeEncodeAll(ps: seq<Shown>)
    requires Plain(ps) && forall i :: 0 <= i < |ps| ==> ps[i].0 != MORE
    ensures Decode(EncodeAll(ps)) == ps
  {
    hide EncodeAll, Encode;
    DecodeAllBefore(ps, []);
    assert EncodeAll(ps) + [] == EncodeAll(ps);
  }

  // ---------------------------------------------------------------------------------------------
  // Which entries can be read at all

  /** The entries whose records fit a buffer of count bytes. */
  function Fitting(es: seq<Entry>, count: int): seq<Entry> {
    if es == [] then []
    else
      var pre, e := Fitting(es[..|es| - 1], count), es[|es| - 1];
      if RecLen(e) <= count then pre + [e] else pre
  }

  lemma FittingNext(es: seq<Entry>, from: nat, i: nat, count: int)
    requires from <= i < |es|
    ensures Fitting(es[from..i + 1], count) ==
              if RecLen(es[i]) <= count then Fitting(es[from..i], count) + [es[i]] else Fitting(es[from..i], count)
  {
    assert es[from..i + 1] == es[from..i] + [es[i]];
    assert (es[from..i] + [es[i]])[..i - from] == es[from..i];
  }

  lemma {:induction false} FittingConcat(a: seq<Entry>, b: seq<Entry>, count: int)
    ensures Fitting(a + b, count) == Fitting(a, count) + Fitting(b, count)
    decreases |b|
  {
    if b == [] {
      assert a + b == a;
    } else {
      FittingConcat(a, b[..|b| - 1], count);
      assert (a + b)[..|a + b| - 1] == a + b[..|b| - 1];
    }
  }

  lemma {:induction false} EncodeAllConcat(a: seq<Shown>, b: seq<Shown>)
    ensures EncodeAll(a + b) == EncodeAll(a) + EncodeAll(b)
    decreases |b|
  {
    hide EncodeAll, EncodeEntry;
    if b == [] {
      assert a + b == a;
      assert EncodeAll(b) == [] by { EncodeAllNone(); }
    } else {
      var b', e := b[..|b| - 1], b[|b| - 1];
      EncodeAllConcat(a, b');
      EncodeAllNext(a + b', e);
      EncodeAllNext(b', e);
      assert a + b == a + b' + [e] && b == b' + [e];
    }
  }

  lemma EncodeAllNone()
    ensures EncodeAll([]) == []
  {
  }

  lemma EncodeAllNext(ps: seq<Shown>, p: Shown)
    ensures EncodeAll(ps + [p]) == EncodeAll(ps) + EncodeEntry(p)
  {
  }

  // ---------------------------------------------------------------------------------------------
  // What a read and a whole run of reads leave for the program

  function Size(es: seq<Entry>): nat {
    if es == [] then 0 else Size(es[..|es| - 1]) + RecLen(es[|es| - 1])
  }

  function Under(was: seq<Byte>, i: int): Byte { if 0 <= i < |was| then was[i] else 0 }

  /** The entries as they are shown when they are written, one after the other, over what the buffer held:
      the last record of each lies over old bytes, and its second byte may show through. */
  function Written(build: Build, es: seq<Entry>, was: seq<Byte>): (r: seq<Shown>)
    ensures |r| == |es|
  {
    if es == [] then []
    else
      var e := es[|es| - 1];
      Written(build, es[..|es| - 1], was) + [(FieldOf(build, e.ino, Under(was, Size(es) - 15)), e.name)]
  }

  lemma WrittenNext(build: Build, es: seq<Entry>, e: Entry, was: seq<Byte>)
    ensures Size(es + [e]) == Size(es) + RecLen(e)
    ensures Written(build, es + [e], was) ==
              Written(build, es, was) + [(FieldOf(build, e.ino, Under(was, Size(es) + RecLen(e) - 15)), e.name)]
  {
    assert (es + [e])[..|es|] == es;
  }

  /** Each field is put over one byte of the buffer, each name is as it was; folded inodes do not depend on
      what the buffer held, and are not zero. */
  lemma {:induction false} WrittenAt(build: Build, es: seq<Entry>, was: seq<Byte>, k: nat)
    requires k < |es|
    ensures Written(build, es, was)[k] == (FieldOf(build, es[k].ino, Under(was, Size(es[..k + 1]) - 15)), es[k].name)
    ensures build == Folded ==> Written(build, es, was)[k].0 == Fold(es[k].ino) != 0
    decreases |es|
  {
    if k < |es| - 1 {
      WrittenAt(build, es[..|es| - 1], was, k);
      assert es[..|es| - 1][..k + 1] == es[..k + 1];
    } else {
      assert es[..k + 1] == es;
    }
  }

  /** The entries of all calls. */
  function Flat(calls: seq<seq<Entry>>): seq<Entry> {
    if calls == [] then [] else Flat(calls[..|calls| - 1]) + calls[|calls| - 1]
  }

  /** What a run of reads shows, fill being what the caller's buffer holds before each of them. */
  function WrittenAll(build: Build, calls: seq<seq<Entry>>, fill: nat -> seq<Byte>): (r: seq<Shown>)
    ensures |r| == |Flat(calls)|
  {
    if calls == [] then []
    else WrittenAll(build, calls[..|calls| - 1], fill) + Written(build, calls[|calls| - 1], fill(|calls| - 1))
  }

  lemma WrittenAllNext(build: Build, calls: seq<seq<Entry>>, es: seq<Entry>, fill: nat -> seq<Byte>)
    ensures Flat(calls + [es]) == Flat(calls) + es
    ensures WrittenAll(build, calls + [es], fill) == WrittenAll(build, calls, fill) + Written(build, es, fill(|calls|))
  {
    assert (calls + [es])[..|calls|] == calls;
  }

  /** Over a whole run each name is shown as it is, and each field is its inode put over some byte of the
      caller's buffer before one of the calls. */
  lemma {:induction false} WrittenAllAt(build: Build, calls: seq<seq<Entry>>, fill: nat -> seq<Byte>, k: nat)
    requires k < |Flat(calls)|
    ensures var es, p := Flat(calls), WrittenAll(build, calls, fill)[k];
            && p.1 == es[k].name
            && (exists c: nat, i: int :: c < |calls| && p.0 == FieldOf(build, es[k].ino, Under(fill(c), i)))
            && (build == Folded ==> p.0 == Fold(es[k].ino) != 0)
    decreases |calls|
  {
    var n := |calls| - 1;
    var before, es := Flat(calls[..n]), calls[n];
    if k < |before| {
      WrittenAllAt(build, calls[..n], fill, k);
    } else {
      var j := k - |before|;
      WrittenAt(build, es, fill(n), j);
      assert WrittenAll(build, calls, fill)[k].0 == FieldOf(build, es[j].ino, Under(fill(n), Size(es[..j + 1]) - 15));
    }
  }

  // ---------------------------------------------------------------------------------------------
  // The code

  method PutWord(buf: array<Byte>, at: nat, w: Field)
    requires at + 2 <= buf.Length
    modifies buf
    ensures buf[..at + 2] == old(buf[..at]) + WordBytes(w) && buf[at + 2..] == old(buf[at + 2..])
  {
    buf[at], buf[at + 1] := w % 256, w / 256;
  }

  /** copy_to_user of name followed by zeros up to 14 bytes. */
  method PutName(buf: array<Byte>, at: nat, name: Name)
    requires at + CHUNK <= buf.Length && |name| <= CHUNK
    modifies buf
    ensures buf[..at + CHUNK] == old(buf[..at]) + name + Zeros(CHUNK - |name|)
    ensures buf[at + CHUNK..] == old(buf[at + CHUNK..])
  {
    var i := 0;
    while i < CHUNK
      invariant buf[at + CHUNK..] == old(buf[at + CHUNK..])
      invariant i <= CHUNK && buf[..at + i] == old(buf[..at]) + (name + Zeros(CHUNK - |name|))[..i]
    {
      buf[at + i] := if i < |name| then name[i] else 0;
      i := i + 1;
    }
  }

  /** One 16-byte record: two bytes of inode field and a padded piece of the name. */
  function Record(field: Field, piece: Name): (r: seq<Byte>)
    requires |piece| <= CHUNK
    ensures |r| == 16
  {
    WordBytes(field) + piece + Zeros(CHUNK - |piece|)
  }

  lemma EncodeRecords(ino: Field, name: Name)
    ensures |name| <= CHUNK ==> Encode(ino, name) == Record(ino, name)
    ensures |name| > CHUNK ==> Encode(ino, name) == Record(MORE, name[..CHUNK]) + Encode(ino, name[CHUNK..])
  {
  }

  /** put_user of the inode, as the build has it. */
  method PutIno(buf: array<Byte>, at: nat, build: Build, ino: nat)
    requires at + 2 <= buf.Length
    modifies buf
    ensures buf[..at + 2] == old(buf[..at]) + WordBytes(FieldOf(build, ino, old(buf[at + 1])))
    ensures buf[at + 2..] == old(buf[at + 2..])
  {
    match build
    case Folded => PutWord(buf, at, Fold(ino));
    case Mapped(number) => buf[at] := number(ino) % 256;
  }

  method PutRecord(buf: array<Byte>, posn: nat, piece: Name)
    requires posn + 16 <= buf.Length && |piece| <= CHUNK
    modifies buf
    ensures buf[..posn + 16] == old(buf[..posn]) + Record(MORE, piece)
    ensures forall i :: posn + 16 <= i < buf.Length ==> buf[i] == old(buf[i])
  {
    PutWord(buf, posn, MORE);
    label word:
    PutName(buf, posn + 2, piece);
    assert forall i :: posn + 16 <= i < buf.Length ==>
      buf[i] == buf[posn + 16..][i - (posn + 16)] == old@word(buf[posn + 2..])[i - (posn + 2)];
  }

  method PutLast(buf: array<Byte>, posn: nat, build: Build, ino: nat, piece: Name)
    requires posn + 16 <= buf.Length && |piece| <= CHUNK
    modifies buf
    ensures buf[..posn + 16] == old(buf[..posn]) + Record(FieldOf(build, ino, old(buf[posn + 1])), piece)
    ensures forall i :: posn + 16 <= i < buf.Length ==> buf[i] == old(buf[i])
  {
    hide FieldOf;
    PutIno(buf, posn, build, ino);
    label word:
    PutName(buf, posn + 2, piece);
    assert forall i :: posn + 16 <= i < buf.Length ==>
      buf[i] == buf[posn + 16..][i - (posn + 16)] == old@word(buf[posn + 2..])[i - (posn + 2)];
  }

  /** One entry at posn: all chunks but the last marked MORE, the last with the inode. */
  method PutEntry(buf: array<Byte>, posn0: nat, build: Build, e: Entry) returns (posn: nat)
    requires e.Valid() && posn0 + RecLen(e) <= buf.Length
    modifies buf
    ensures posn == posn0 + RecLen(e) >= 16
    ensures buf[..posn] == old(buf[..posn0]) + EncodeEntry((FieldOf(build, e.ino, old(buf[posn - 15])), e.name))
    ensures forall i :: posn <= i < buf.Length ==> buf[i] == old(buf[i])
  {
    hide Encode, Record, FieldOf;
    posn := posn0;
    var name := e.name;
    ghost var done, end := [], posn0 + RecLen(e);
    ghost var field := FieldOf(build, e.ino, buf[end - 15]);
    while |name| > CHUNK
      invariant name != [] && posn + 16 * ((|name| + 13) / 14) == end
      invariant buf[..posn] == old(buf[..posn0]) + done
      invariant forall i :: posn <= i < buf.Length ==> buf[i] == old(buf[i])
      invariant done + Encode(field, name) == EncodeEntry((field, e.name))
      decreases |name|
    {
      PutRecord(buf, posn, name[..CHUNK]);
      EncodeRecords(field, name);
      Regroup(old(buf[..posn0]), done, Record(MORE, name[..CHUNK]));
      Regroup(done, Record(MORE, name[..CHUNK]), Encode(field, name[CHUNK..]));
      done := done + Record(MORE, name[..CHUNK]);
      posn := posn + 16;
      name := name[CHUNK..];
    }
    PutLast(buf, posn, build, e.ino, name);
    EncodeRecords(field, name);
    Regroup(old(buf[..posn0]), done, Record(field, name));
    posn := posn + 16;
  }

  /** One entry after those of es, in a buffer that held the bytes of was. */
  method PutNext(buf: array<Byte>, posn0: nat, build: Build, e: Entry, ghost es: seq<Entry>, ghost was: seq<Byte>)
    returns (posn: nat)
    requires e.Valid() && posn0 == Size(es) && posn0 + RecLen(e) <= buf.Length == |was|
    requires buf[..posn0] == EncodeAll(Written(build, es, was))
    requires forall i :: posn0 <= i < buf.Length ==> buf[i] == was[i]
    modifies buf
    ensures posn == posn0 + RecLen(e) == Size(es + [e]) && posn > posn0
    ensures buf[..posn] == EncodeAll(Written(build, es + [e], was))
    ensures forall i :: posn <= i < buf.Length ==> buf[i] == was[i]
  {
    hide EncodeAll, EncodeEntry, Written, Size, FieldOf, RecLen, Under;
    ghost var at := posn0 + RecLen(e) - 15;
    RecLenIs(e);
    WrittenNext(build, es, e, was);
    EncodeAllNext(Written(build, es, was), (FieldOf(build, e.ino, Under(was, at)), e.name));
    UnderIs(was, at);
    posn := PutEntry(buf, posn0, build, e);
  }

  lemma Regroup<T>(a: seq<T>, b: seq<T>, c: seq<T>)
    ensures (a + b) + c == a + (b + c)
  {
  }

  class Directory {
    const entries: seq<Entry>
    const build: Build
    /** The file position, as the index of the entry readdir gives next. */
    var pos: nat

    ghost predicate Valid()
      reads this
    {
      pos <= |entries| && forall i :: 0 <= i < |entries| ==> entries[i].Valid()
    }

    constructor (entries: seq<Entry>, build: Build)
      requires forall i :: 0 <= i < |entries| ==> entries[i].Valid()
      ensures Valid() && pos == 0 && this.entries == entries && this.build == build
    {
      this.entries, this.build := entries, build;
      pos := 0;
    }

    /** One read of at most count bytes. It passes over the entries up to its new position and returns
        the records of those that can fit, written over what was in the buffer; it returns nothing only at
        the end of the directory, and stops before that only if the next entry does not fit any more or one
        like the last would fill the buffer. */
    method Read(buf: array<Byte>, count: int) returns (r: nat)
      requires Valid() && count <= buf.Length
      modifies this`pos, buf
      ensures Valid() && old(pos) <= pos && (r == 0 || r <= count)
      ensures r == Size(Fitting(entries[old(pos)..pos], count))
      ensures buf[..r] == EncodeAll(Written(build, Fitting(entries[old(pos)..pos], count), old(buf[..])))
      ensures r == 0 ==> pos == |entries| || count <= 0
      ensures r > 0 ==> old(pos) < pos
      ensures r > 0 && pos < |entries| ==> r + RecLen(entries[pos]) > count || r + RecLen(entries[pos - 1]) >= count
      ensures forall i :: 0 <= i < buf.Length && count <= i ==> buf[i] == old(buf[i])
    {
      hide EncodeAll, Fitting, EncodeEntry, Written, Size, FieldOf, RecLen, Under;
      var posn: nat, reclen: nat := 0, 0;
      ghost var p0, old0, es := pos, buf[..], [];
      NothingRead(build, entries, p0, count, old0);
      while posn + reclen < count
        invariant Valid() && p0 <= pos && (posn == 0 ==> reclen == 0) && (posn > 0 ==> p0 < pos)
        invariant posn == 0 || posn <= count
        invariant posn > 0 ==>
                    || reclen == RecLen(entries[pos - 1])
                    || (pos < |entries| && reclen == RecLen(entries[pos]) && posn + reclen > count)
        invariant es == Fitting(entries[p0..pos], count) && posn == Size(es)
        invariant buf[..posn] == EncodeAll(Written(build, es, old0))
        invariant forall i :: 0 <= i < buf.Length && (posn <= i || count <= i) ==> buf[i] == old0[i]
        decreases |entries| - pos, if posn + reclen < count then 1 else 0
      {
        var here := pos;
        if pos == |entries| {
          break;
        }
        var de := entries[pos];
        FittingNext(entries, p0, pos, count);
        pos := pos + 1;
        reclen := 16 * ((|de.name| + 13) / 14);
        RecLenIs(de);
        if posn + reclen > count {
          if posn != 0 {
            pos := here;
          } else {
            reclen := 0;
          }
        } else {
          posn := PutNext(buf, posn, build, de, es, old0);
          es := es + [de];
        }
      }
      r := posn;
    }

    /** Reading the directory to its end with a fixed count, fill being what the caller's buffer holds before
        each call: all the buffers together are the records of every entry that fits, each once and in
        order, as each call wrote them. */
    method ReadAll(count: nat, fill: nat -> seq<Byte>) returns (bytes: seq<Byte>, ghost calls: seq<seq<Entry>>)
      requires Valid() && pos == 0 && count >= 1 && forall i :: |fill(i)| == count
      modifies this`pos
      ensures Valid() && pos == |entries|
      ensures Flat(calls) == Fitting(entries, count) && forall i :: 0 <= i < |calls| ==> Size(calls[i]) <= count
      ensures bytes == EncodeAll(WrittenAll(build, calls, fill))
    {
      hide EncodeAll, Fitting, Written, WrittenAll, Flat, Size;
      bytes, calls := [], [];
      var r, call := 1, 0;
      NothingReadAll(build, entries, count, fill);
      while r > 0
        invariant Valid() && Flat(calls) == Fitting(entries[..pos], count) && |calls| == call
        invariant forall i :: 0 <= i < |calls| ==> Size(calls[i]) <= count
        invariant bytes == EncodeAll(WrittenAll(build, calls, fill))
        invariant r == 0 ==> pos == |entries|
        decreases |entries| - pos, r
      {
        var buf := new Byte[count](i requires 0 <= i < count => fill(call)[i]);
        assert buf[..] == fill(call);
        ghost var p := pos;
        r := Read(buf, count);
        ghost var es := Fitting(entries[p..pos], count);
        assert entries[..pos] == entries[..p] + entries[p..pos];
        FittingConcat(entries[..p], entries[p..pos], count);
        WrittenAllNext(build, calls, es, fill);
        EncodeAllConcat(WrittenAll(build, calls, fill), Written(build, es, fill(call)));
        bytes, calls, call := bytes + buf[..r], calls + [es], call + 1;
      }
      assert entries[..pos] == entries;
    }
  }

  lemma RecLenIs(e: Entry)
    ensures RecLen(e) == 16 * ((|e.name| + 13) / 14) && (e.name != [] ==> RecLen(e) >= 16)
  {
  }

  lemma UnderIs(was: seq<Byte>, i: int)
    ensures 0 <= i < |was| ==> Under(was, i) == was[i]
  {
  }

  lemma NothingRead(build: Build, es: seq<Entry>, from: nat, count: int, was: seq<Byte>)
    requires from <= |es|
    ensures Fitting(es[from..from], count) == [] && Size([]) == 0 && EncodeAll(Written(build, [], was)) == []
  {
  }

  lemma NothingReadAll(build: Build, es: seq<Entry>, count: int, fill: nat -> seq<Byte>)
    ensures Fitting(es[..0], count) == Flat([]) && EncodeAll(WrittenAll(build, [], fill)) == []
  {
  }

  // ---------------------------------------------------------------------------------------------
  // What a program decodes

  lemma {:induction false} FittingIsValid(es: seq<Entry>, count: int)
    requires forall i :: 0 <= i < |es| ==> es[i].Valid()
    ensures forall i :: 0 <= i < |Fitting(es, count)| ==> Fitting(es, count)[i].Valid()
    ensures forall e :: e in Fitting(es, count) ==> e in es
  {
    if es != [] {
      FittingIsValid(es[..|es| - 1], count);
    }
  }

  /** How many fields are MORE. */
  function Marked(ps: seq<Shown>): nat {
    if ps == [] then 0 else Marked(ps[..|ps| - 1]) + if ps[|ps| - 1].0 == MORE then 1 else 0
  }

  lemma {:induction false} DecodeCount(ino: Field, name: Name, b: seq<Byte>)
    requires name != []
    ensures |Decode(Encode(ino, name) + b)| <= |Decode(b)| + if ino == MORE then 0 else 1
    decreases |name|
  {
    var e := Encode(ino, name);
    if |name| <= CHUNK {
      assert (e + b)[16..] == b && (e + b)[0] == ino % 256 && (e + b)[1] == ino / 256;
    } else {
      assert (e + b)[16..] == Encode(ino, name[CHUNK..]) + b;
      DecodeCount(ino, name[CHUNK..], b);
      assert (e + b)[0] == MORE % 256 && (e + b)[1] == MORE / 256;
    }
  }

  lemma {:induction false} DecodeAllCount(ps: seq<Shown>, b: seq<Byte>)
    requires Plain(ps)
    ensures |Decode(EncodeAll(ps) + b)| + Marked(ps) <= |ps| + |Decode(b)|
    decreases |ps|
  {
    hide Decode, Encode;
    if ps == [] {
      assert EncodeAll(ps) + b == b;
    } else {
      var pre, p := ps[..|ps| - 1], ps[|ps| - 1];
      assert EncodeAll(ps) + b == EncodeAll(pre) + (EncodeEntry(p) + b);
      DecodeAllCount(pre, EncodeEntry(p) + b);
      DecodeCount(p.0, p.1, b);
    }
  }

  lemma {:induction false} MarkedSome(ps: seq<Shown>, i: nat)
    requires i < |ps| && ps[i].0 == MORE
    ensures Marked(ps) > 0
  {
    if i < |ps| - 1 {
      MarkedSome(ps[..|ps| - 1], i);
    }
  }

  /** What was shown is decoded as it was, and so are the names alone, if and only if no field is MORE. */
  lemma RecoverableIff(ps: seq<Shown>)
    requires Plain(ps)
    ensures Decode(EncodeAll(ps)) == ps <==> forall i :: 0 <= i < |ps| ==> ps[i].0 != MORE
    ensures Names(Decode(EncodeAll(ps))) == Names(ps) <==> forall i :: 0 <= i < |ps| ==> ps[i].0 != MORE
  {
    hide EncodeAll, Decode, Encode;
    if i :| 0 <= i < |ps| && ps[i].0 == MORE {
      MarkedSome(ps, i);
      DecodeAllCount(ps, []);
      assert EncodeAll(ps) + [] == EncodeAll(ps);
      assert Decode([]) == [] by { NothingDecodes(); }
      assert |Names(Decode(EncodeAll(ps)))| < |Names(ps)|;
    } else {
      DecodeEncodeAll(ps);
    }
  }

  lemma NothingDecodes()
    ensures Decode([]) == []
  {
  }

  lemma WrittenIsPlain(build: Build, calls: seq<seq<Entry>>, fill: nat -> seq<Byte>)
    requires forall i :: 0 <= i < |Flat(calls)| ==> Flat(calls)[i].Valid()
    ensures Plain(WrittenAll(build, calls, fill))
  {
    forall k | 0 <= k < |Flat(calls)| ensures WrittenAll(build, calls, fill)[k].1 == Flat(calls)[k].name {
      WrittenAllAt(build, calls, fill, k);
    }
  }

  /** With folded inodes, what a program decodes from a whole run is exactly the list of entries that fit the
      count, if and only if none of their inodes folds to MORE. */
  lemma FoldedRun(es: seq<Entry>, count: int, calls: seq<seq<Entry>>, fill: nat -> seq<Byte>)
    requires (forall i :: 0 <= i < |es| ==> es[i].Valid()) && Flat(calls) == Fitting(es, count)
    ensures var f := Fitting(es, count);
            Decode(EncodeAll(WrittenAll(Folded, calls, fill)))
              == seq(|f|, i requires 0 <= i < |f| => (Fold(f[i].ino), f[i].name))
            <==> forall i :: 0 <= i < |f| ==> Fold(f[i].ino) != MORE
  {
    hide EncodeAll, Decode;
    FittingIsValid(es, count);
    WrittenIsPlain(Folded, calls, fill);
    var f, ps := Fitting(es, count), WrittenAll(Folded, calls, fill);
    forall k | 0 <= k < |f| ensures ps[k] == (Fold(f[k].ino), f[k].name) {
      WrittenAllAt(Folded, calls, fill, k);
    }
    assert ps == seq(|f|, i requires 0 <= i < |f| => (Fold(f[i].ino), f[i].name));
    RecoverableIff(ps);
  }

  /** As this repository is built, a program decodes the names of a whole run if and only if no mapped inode
      whose low byte is 0xff was put over an old byte 0xff. */
  lemma MappedRun(number: nat -> nat, es: seq<Entry>, count: int, calls: seq<seq<Entry>>, fill: nat -> seq<Byte>)
    requires (forall i :: 0 <= i < |es| ==> es[i].Valid()) && Flat(calls) == Fitting(es, count)
    ensures var f, ps := Fitting(es, count), WrittenAll(Mapped(number), calls, fill);
            && |ps| == |f|
            && (forall i :: 0 <= i < |f| ==> ps[i].1 == f[i].name && ps[i].0 % 256 == number(f[i].ino) % 256)
            && (Names(Decode(EncodeAll(ps))) == Names(ps) <==>
                  forall i :: 0 <= i < |f| ==> !(number(f[i].ino) % 256 == 0xff && ps[i].0 / 256 == 0xff))
  {
    hide EncodeAll, Decode;
    FittingIsValid(es, count);
    WrittenIsPlain(Mapped(number), calls, fill);
    var f, ps := Fitting(es, count), WrittenAll(Mapped(number), calls, fill);
    forall k | 0 <= k < |f| ensures ps[k].1 == f[k].name && ps[k].0 % 256 == number(f[k].ino) % 256 {
      WrittenAllAt(Mapped(number), calls, fill, k);
    }
    RecoverableIff(ps);
  }

  /** In a buffer full of 0xff, an inode mapped to 0x1ff makes its name run into the next one. */
  lemma NamesRunTogether()
    ensures var es, was := [Entry(10, [97]), Entry(11, [98])], seq(32, _ => 0xff);
            var ps := Written(Mapped((ino: nat) => if ino == 10 then 0x1ff else 0x204), es, was);
            Names(ps) == [[97], [98]] && Names(Decode(EncodeAll(ps))) != Names(ps)
  {
    var es, was: seq<Byte> := [Entry(10, [97]), Entry(11, [98])], seq(32, _ => 0xff);
    var number := (ino: nat) => if ino == 10 then 0x1ff else 0x204;
    var ps := Written(Mapped(number), es, was);
    WrittenAt(Mapped(number), es, was, 0);
    WrittenAt(Mapped(number), es, was, 1);
    assert es[..1] == [es[0]];
    assert Size([es[0]]) == Size([]) + 16 == 16;
    assert ps[0].0 == MORE;
    hide EncodeAll, Decode;
    RecoverableIff(ps);
  }
}
