/** What ibcs_vfmt of ibcs/ibcs-lib.c prints when nothing limits it. */
module FmtSpec {

  import opened Chars

  /** The variable arguments: numbers and strings, taken one by one. */
  datatype Arg = Num(n: nat) | Str(s: string)

  predicate IsDigit(c: char) { '0' <= c <= '9' }

  function TakeNum(args: seq<Arg>): nat { if args != [] && args[0].Num? then args[0].n else 0 }
  function TakeStr(args: seq<Arg>): string { if args != [] && args[0].Str? then args[0].s else "" }
  function Rest(args: seq<Arg>): seq<Arg> { if args == [] then [] else args[1..] }

  // ---------------------------------------------------------------------------------------------
  // Numbers

  function DigitChar(d: nat, ten: char): char
    requires d < 16 && (ten == 'a' || ten == 'A')
  {
    if d < 10 then '0' + d as char else ten + (d - 10) as char
  }

  function Digits(n: nat, base: nat, ten: char): (r: string)
    requires 2 <= base <= 16 && (ten == 'a' || ten == 'A')
    ensures r != ""
    decreases n
  {
    if n < base then [DigitChar(n, ten)] else Digits(n / base, base, ten) + [DigitChar(n % base, ten)]
  }

  /** A 32-bit number in decimal, read as signed for %d. */
  function Decimal(n: nat, signed: bool): string {
    var u := n % 0x1_0000_0000;
    if signed && u >= 0x8000_0000 then "-" + Digits(0x1_0000_0000 - u, 10, 'a') else Digits(u, 10, 'a')
  }

  /** The number a conversion takes: 64 bits with two 'l's, 32 bits otherwise. */
  function Wide(n: nat, longs: nat): nat {
    if longs <= 1 then n % 0x1_0000_0000 else n % 0x1_0000_0000_0000_0000
  }

  // ---------------------------------------------------------------------------------------------
  // Directives

  /** The digits from i on, added to what was read already, and the place after them. */
  function Number(fmt: string, i: nat, acc: nat): (nat, nat)
    decreases |fmt| - i
  {
    if i < |fmt| && IsDigit(fmt[i]) then Number(fmt, i + 1, acc * 10 + (fmt[i] - '0') as nat) else (acc, i)
  }

  const MAX_WIDTH := 999999999

  /** "%[-][min][.max][l[l]]c"; conv is where the conversion character is. */
  datatype Spec = Spec(left: bool, pad: char, min: nat, max: nat, longs: nat, conv: nat)

  function Longs(fmt: string, i: nat): nat {
    if At(fmt, i) != 'l' then 0 else if At(fmt, i + 1) != 'l' then 1 else 2
  }

  /** The directive whose '%' is at i. */
  function ReadSpec(fmt: string, i: nat): Spec {
    var left := At(fmt, i + 1) == '-';
    var w := if left then i + 2 else i + 1;
    var pad := if At(fmt, w) == '0' then '0' else ' ';
    var (min, p) := Number(fmt, w, 0);
    var (max, l) := if At(fmt, p) == '.' then Number(fmt, p + 1, 0) else (MAX_WIDTH, p);
    var longs := Longs(fmt, l);
    Spec(left, pad, min, max, longs, l + longs)
  }

  /** What a directive stands for before widths apply, where the format goes on, and the arguments left. */
  datatype Text = Text(text: string, next: nat, args: seq<Arg>)

  function Convert(fmt: string, i: nat, s: Spec, args: seq<Arg>): Text
    requires i <= s.conv
  {
    var c := At(fmt, s.conv);
    if c == 'c' && s.longs == 0 then
      // the conversion character is not skipped: it is printed as well
      Text([(TakeNum(args) % 256) as char], s.conv, Rest(args))
    else if (c == 'd' || c == 'u') && s.longs <= 1 then
      Text(Decimal(TakeNum(args), c == 'd'), s.conv + 1, Rest(args))
    else if c == 'o' then
      Text(Digits(Wide(TakeNum(args), s.longs), 8, 'a'), s.conv + 1, Rest(args))
    else if c == 's' && s.longs == 0 then
      Text(TakeStr(args), s.conv + 1, Rest(args))
    else if (c == 'p' && s.longs == 0) || c == 'x' || c == 'X' then
      Text(Digits(Wide(TakeNum(args), s.longs), 16, if c == 'x' then 'a' else 'A'), s.conv + 1, Rest(args))
    else if s.conv >= |fmt| then
      Text(if i <= |fmt| then fmt[i..] else "", s.conv, args)
    else
      Text(fmt[i..s.conv + 1], s.conv + 1, args)
  }

  function Cut(t: string, max: nat): string { if |t| > max then t[..max] else t }

  function Padding(t: string, s: Spec): string {
    seq(if |t| >= s.min then 0 else s.min - |t|, _ => s.pad)
  }

  function Justify(t: string, s: Spec): string {
    if s.left then t + Padding(t, s) else Padding(t, s) + t
  }

  lemma {:induction false} NumberAdvances(fmt: string, i: nat, acc: nat)
    ensures i <= Number(fmt, i, acc).1 && (i <= |fmt| ==> Number(fmt, i, acc).1 <= |fmt|)
    decreases |fmt| - i
  {
    if i < |fmt| && IsDigit(fmt[i]) {
      NumberAdvances(fmt, i + 1, acc * 10 + (fmt[i] - '0') as nat);
    }
  }

  lemma SpecAdvances(fmt: string, i: nat)
    requires i < |fmt|
    ensures i < ReadSpec(fmt, i).conv <= |fmt|
  {
    var left := At(fmt, i + 1) == '-';
    var w := if left then i + 2 else i + 1;
    NumberAdvances(fmt, w, 0);
    var p := Number(fmt, w, 0).1;
    NumberAdvances(fmt, p + 1, 0);
  }

  /** Everything the format prints from place i on. */
  function Output(fmt: string, i: nat, args: seq<Arg>): string
    decreases |fmt| - i
  {
    if i >= |fmt| then ""
    else if fmt[i] != '%' then [fmt[i]] + Output(fmt, i + 1, args)
    else
      SpecAdvances(fmt, i);
      var s := ReadSpec(fmt, i);
      var t := Convert(fmt, i, s, args);
      Justify(Cut(t.text, s.max), s) + Output(fmt, t.next, t.args)
  }

  /** What is left of room after n characters. */
  function Less(left: nat, n: nat): nat { if n > left then 0 else left - n }

  /** No directive that is reached while there is room writes more than the 20 digits its buffer holds, and
      none is cut off by the end of the format after an 'l', which the code would read past. */
  predicate Safe(fmt: string, i: nat, args: seq<Arg>, left: nat)
    decreases |fmt| - i
  {
    if i >= |fmt| || left == 0 then true
    else if fmt[i] != '%' then Safe(fmt, i + 1, args, left - 1)
    else
      SpecAdvances(fmt, i);
      var s := ReadSpec(fmt, i);
      var t := Convert(fmt, i, s, args);
      && (s.conv == |fmt| ==> s.longs == 0)
      && (At(fmt, s.conv) == 'o' ==> Wide(TakeNum(args), s.longs) < 0x1000_0000_0000_0000)
      && Safe(fmt, t.next, t.args, Less(left, |Justify(Cut(t.text, s.max), s)|))
  }

  /** With less room nothing more is reached. */
  lemma {:induction false} SafeWithLess(fmt: string, i: nat, args: seq<Arg>, left: nat, less: nat)
    requires Safe(fmt, i, args, left) && less <= left
    ensures Safe(fmt, i, args, less)
    decreases |fmt| - i
  {
    hide ReadSpec, Justify, Cut, Wide, TakeNum;
    if i < |fmt| && less > 0 {
      if fmt[i] != '%' {
        SafeWithLess(fmt, i + 1, args, left - 1, less - 1);
      } else {
        SpecAdvances(fmt, i);
        var s := ReadSpec(fmt, i);
        var t := Convert(fmt, i, s, args);
        var n := |Justify(Cut(t.text, s.max), s)|;
        SafeWithLess(fmt, t.next, t.args, Less(left, n), Less(less, n));
      }
    }
  }

  /** A directive inside the format is left behind unless it is a plain "c"; that one, whatever its flags
      and widths, has its letter printed after the argument. */
  lemma LetterPrintedAgain(fmt: string, i: nat, args: seq<Arg>)
    requires i < |fmt| && fmt[i] == '%' && ReadSpec(fmt, i).conv < |fmt|
    ensures var s := ReadSpec(fmt, i);
            && i < s.conv
            && var again := fmt[s.conv] == 'c' && s.longs == 0;
            && (Convert(fmt, i, s, args).next == s.conv + 1 <==> !again)
            && (again ==>
                  Output(fmt, i, args) ==
                  Justify(Cut([(TakeNum(args) % 256) as char], s.max), s) + "c" + Output(fmt, s.conv + 1, Rest(args)))
  {
    SpecAdvances(fmt, i);
    hide ReadSpec, Justify, Cut;
    var s := ReadSpec(fmt, i);
    if fmt[s.conv] == 'c' && s.longs == 0 {
      var rest := Output(fmt, s.conv + 1, Rest(args));
      assert Output(fmt, s.conv, Rest(args)) == "c" + rest;
      hide Output;
      var t := Justify(Cut([(TakeNum(args) % 256) as char], s.max), s);
      assert t + ("c" + rest) == t + "c" + rest;
    }
  }

  /** "%c" prints its argument and then the letter c. */
  lemma PercentC(n: nat)
    ensures Output("%c", 0, [Num(n)]) == [(n % 256) as char] + "c"
  {
  }
}
