/** ibcs_vfmt and ibcs_vwritef of ibcs/ibcs-lib.c: bounded formatted output, used once to measure and
    once to write. */
module Fmt {
  import opened Chars
  import opened FmtSpec

  // ---------------------------------------------------------------------------------------------
  // Numbers into the 20-byte buffer

  function Pow(b: nat, e: nat): nat { if e == 0 then 1 else b * Pow(b, e - 1) }

  lemma {:induction false} DigitCount(n: nat, base: nat, ten: char, k: nat)
    requires 2 <= base <= 16 && (ten == 'a' || ten == 'A') && 1 <= k
    ensures |Digits(n, base, ten)| <= k <==> n < Pow(base, k)
    decreases k
  {
    if k == 1 {
      assert Pow(base, 1) == base * Pow(base, 0);
    } else if n >= base {
      DigitCount(n / base, base, ten, k - 1);
      DivLess(n, base, Pow(base, k - 1));
    } else {
      PowGrows(base, k);
    }
  }

  lemma DivLess(n: nat, b: nat, m: nat)
    requires b > 0
    ensures n / b < m <==> n < b * m
  {
    if n / b < m {
      assert b * (n / b + 1) <= b * m;
    } else {
      assert b * m <= b * (n / b);
    }
  }

  lemma {:induction false} PowGrows(b: nat, k: nat)
    requires b >= 2 && k >= 1
    ensures Pow(b, k) >= b
  {
    if k > 1 {
      PowGrows(b, k - 1);
    }
  }

  lemma DivModSmall(n: nat, b: nat)
    requires b >= 2
    ensures n < b <==> n / b == 0
    ensures n < b ==> n % b == n
    ensures n > 0 ==> n / b < n
  {
    assert n == b * (n / b) + n % b;
    if n / b >= 1 {
      assert b * (n / b) >= 2 * (n / b);
      assert b * (n / b) >= b;
    }
  }

  /** The digits still to be written: none once the number is used up. */
  ghost function ToWrite(n: nat, base: nat, ten: char): string
    requires 2 <= base <= 16 && (ten == 'a' || ten == 'A')
  {
    if n == 0 then "" else Digits(n, base, ten)
  }

  /** One turn of a digit loop: the last digit of n, and what is left of it. */
  method NextDigit(n: nat, base: nat, ten: char) returns (c: char, rest: nat)
    requires 2 <= base <= 16 && (ten == 'a' || ten == 'A')
    ensures Digits(n, base, ten) == ToWrite(rest, base, ten) + [c]
    ensures n > 0 ==> rest < n
  {
    DivModSmall(n, base);
    c, rest := DigitChar(n % base, ten), n / base;
  }

  /** The digit loops: from the end of the buffer backwards. */
  method PutDigits(buf: array<char>, n0: nat, base: nat, ten: char) returns (bb: nat)
    requires 2 <= base <= 16 && (ten == 'a' || ten == 'A') && |Digits(n0, base, ten)| <= buf.Length
    modifies buf
    ensures bb <= buf.Length && buf[bb..] == Digits(n0, base, ten)
  {
    hide Digits;
    ghost var full := Digits(n0, base, ten);
    var c, n := NextDigit(n0, base, ten);
    bb := buf.Length - 1;
    buf[bb] := c;
    assert buf[bb..] == [c];
    while n != 0
      invariant bb < buf.Length && full == ToWrite(n, base, ten) + buf[bb..]
      decreases n
    {
      ghost var tail := buf[bb..];
      c, n := NextDigit(n, base, ten);
      bb := bb - 1;
      buf[bb] := c;
      assert buf[bb..] == [c] + tail;
    }
  }

  lemma PowValues()
    ensures Pow(10, 10) == 10_000_000_000 && Pow(8, 20) == 0x1000_0000_0000_0000
    ensures Pow(16, 16) == 0x1_0000_0000_0000_0000
  {
    assert Pow(8, 10) == 0x4000_0000 && Pow(16, 8) == 0x1_0000_0000;
  }

  const BUF := 20

  // ---------------------------------------------------------------------------------------------
  // Reading a directive

  method ReadNumber(fmt: string, i0: nat) returns (v: nat, i: nat)
    ensures (v, i) == Number(fmt, i0, 0)
  {
    v, i := 0, i0;
    while IsDigit(At(fmt, i))
      invariant Number(fmt, i0, 0) == Number(fmt, i, v)
      decreases |fmt| - i
    {
      v := v * 10 + (At(fmt, i) - '0') as nat;
      i := i + 1;
    }
  }

  method Directive(fmt: string, i: nat) returns (s: Spec)
    ensures s == ReadSpec(fmt, i)
  {
    var f := i + 1;
    var left := At(fmt, f) == '-';
    if left {
      f := f + 1;
    }
    var pad, min := ' ', 0;
    if IsDigit(At(fmt, f)) {
      pad := if At(fmt, f) == '0' then '0' else ' ';
      min, f := ReadNumber(fmt, f);
    }
    var max := MAX_WIDTH;
    if At(fmt, f) == '.' {
      max, f := ReadNumber(fmt, f + 1);
    }
    var longs: nat := 0;
    ghost var l := f;
    while At(fmt, f) == 'l' && longs < 2
      invariant longs <= 2 && f == l + longs
      invariant (longs >= 1 ==> At(fmt, l) == 'l') && (longs >= 2 ==> At(fmt, l + 1) == 'l')
      decreases 2 - longs
    {
      longs := longs + 1;
      f := f + 1;
    }
    s := Spec(left, pad, min, max, longs, f);
  }

  // ---------------------------------------------------------------------------------------------
  // Converting

  lemma WideFits(n: nat, longs: nat)
    ensures |Digits(Wide(n, longs), 16, 'a')| <= 16 && |Digits(Wide(n, longs), 16, 'A')| <= 16
    ensures |Digits(Wide(n, longs), 8, 'a')| <= BUF <==> Wide(n, longs) < 0x1000_0000_0000_0000
  {
    PowValues();
    DigitCount(Wide(n, longs), 16, 'a', 16);
    DigitCount(Wide(n, longs), 16, 'A', 16);
    DigitCount(Wide(n, longs), 8, 'a', BUF);
  }

  lemma DecimalFits(u: nat)
    requires u < 0x1_0000_0000
    ensures |Digits(u, 10, 'a')| <= 10
  {
    PowValues();
    DigitCount(u, 10, 'a', 10);
  }

  method PutDecimal(buf: array<char>, n: nat, signed: bool) returns (bb: nat)
    requires buf.Length == BUF
    modifies buf
    ensures bb <= buf.Length && buf[bb..] == Decimal(n, signed)
  {
    hide Digits;
    var u := n % 0x1_0000_0000;
    var minus := signed && u >= 0x8000_0000;
    if minus {
      u := 0x1_0000_0000 - u;
    }
    DecimalFits(u);
    bb := PutDigits(buf, u, 10, 'a');
    if minus {
      ghost var tail := buf[bb..];
      bb := bb - 1;
      buf[bb] := '-';
      assert buf[bb..] == "-" + tail;
    }
  }

  /** The switch over the conversion character. */
  method ConvertText(fmt: string, i: nat, s: Spec, args: seq<Arg>) returns (t: Text)
    requires i < s.conv <= |fmt| && (s.conv == |fmt| ==> s.longs == 0)
    requires At(fmt, s.conv) == 'o' ==> Wide(TakeNum(args), s.longs) < 0x1000_0000_0000_0000
    ensures t == Convert(fmt, i, s, args)
  {
    hide Digits;
    var buf := new char[BUF];
    var c := At(fmt, s.conv);
    WideFits(TakeNum(args), s.longs);
    if c == 'c' && s.longs == 0 {
      buf[0] := (TakeNum(args) % 256) as char;
      t := Text(buf[0..1], s.conv, Rest(args));
    } else if (c == 'd' || c == 'u') && s.longs <= 1 {
      var bb := PutDecimal(buf, TakeNum(args), c == 'd');
      t := Text(buf[bb..], s.conv + 1, Rest(args));
    } else if c == 'o' {
      var bb := PutDigits(buf, Wide(TakeNum(args), s.longs), 8, 'a');
      t := Text(buf[bb..], s.conv + 1, Rest(args));
    } else if c == 's' && s.longs == 0 {
      t := Text(TakeStr(args), s.conv + 1, Rest(args));
    } else if (c == 'p' && s.longs == 0) || c == 'x' || c == 'X' {
      var bb := PutDigits(buf, Wide(TakeNum(args), s.longs), 16, if c == 'x' then 'a' else 'A');
      t := Text(buf[bb..], s.conv + 1, Rest(args));
    } else if s.conv == |fmt| {
      t := Text(fmt[i..s.conv], s.conv, args);
    } else {
      t := Text(fmt[i..s.conv + 1], s.conv + 1, args);
    }
  }

  // ---------------------------------------------------------------------------------------------
  // Bounded output

  /** mempcpy or memset of as much of text as still fits; nothing is stored without a buffer. */
  method Emit(out: array?<char>, pos: nat, left: nat, text: string) returns (n: nat)
    requires out != null ==> pos + left < out.Length
    modifies out
    ensures n == if |text| > left then left else |text|
    ensures out != null ==> out[..pos + n] == old(out[..pos]) + text[..n]
  {
    n := if |text| > left then left else |text|;
    if out != null {
      for k := 0 to n
        invariant out[..pos + k] == old(out[..pos]) + text[..k]
      {
        out[pos + k] := text[k];
      }
    }
  }

  /** sofar is the beginning of what is to be printed: all of it up to place i, or all that fits. */
  ghost predicate Printed(full: string, sofar: string, left: nat, rest: string) {
    if left > 0 then full == sofar + rest else sofar <= full
  }

  lemma PrintedMore(full: string, sofar: string, left: nat, text: string, rest: string, n: nat)
    requires Printed(full, sofar, left, text + rest) && n == if |text| > left then left else |text|
    ensures Printed(full, sofar + text[..n], left - n, rest)
  {
  }

  lemma {:induction false} LiteralOutput(fmt: string, i: nat, f: nat, args: seq<Arg>, left: nat)
    requires i <= f <= |fmt| && '%' !in fmt[i..f]
    ensures Output(fmt, i, args) == fmt[i..f] + Output(fmt, f, args)
    ensures Safe(fmt, i, args, left) <==> Safe(fmt, f, args, Less(left, f - i))
    decreases f - i
  {
    hide Output, Safe;
    if i < f {
      assert fmt[i..f] == [fmt[i]] + fmt[i + 1..f];
      assert fmt[i] == fmt[i..f][0];
      LiteralOutput(fmt, i + 1, f, args, Less(left, 1));
      OneLiteral(fmt, i, args, left);
      if left == 0 {
        NoRoomIsSafe(fmt, i, args);
        NoRoomIsSafe(fmt, f, args);
      }
    }
  }

  lemma NoRoomIsSafe(fmt: string, i: nat, args: seq<Arg>)
    ensures Safe(fmt, i, args, 0)
  {
  }

  lemma OneLiteral(fmt: string, i: nat, args: seq<Arg>, left: nat)
    requires i < |fmt| && fmt[i] != '%'
    ensures Output(fmt, i, args) == [fmt[i]] + Output(fmt, i + 1, args)
    ensures left > 0 ==> (Safe(fmt, i, args, left) <==> Safe(fmt, i + 1, args, left - 1))
  {
  }

  /** strchr for the next '%', or the end of the format. */
  method NextPercent(fmt: string, i: nat) returns (f: nat)
    requires i <= |fmt|
    ensures i <= f <= |fmt| && '%' !in fmt[i..f] && (f < |fmt| ==> fmt[f] == '%')
  {
    f := i;
    while f < |fmt| && fmt[f] != '%'
      invariant i <= f <= |fmt| && '%' !in fmt[i..f]
    {
      f := f + 1;
    }
  }

  /** A converted text with its padding, on the side the directive asks for. */
  method EmitJustified(out: array?<char>, pos: nat, left: nat, text: string, s: Spec) returns (n: nat)
    requires out != null ==> pos + left < out.Length
    modifies out
    ensures n == if |Justify(text, s)| > left then left else |Justify(text, s)|
    ensures out != null ==> out[..pos + n] == old(out[..pos]) + Justify(text, s)[..n]
  {
    var a, b := if s.left then text else Padding(text, s), if s.left then Padding(text, s) else text;
    var na := Emit(out, pos, left, a);
    var nb := Emit(out, pos + na, left - na, b);
    n := na + nb;
    assert Justify(text, s) == a + b;
    assert (a + b)[..n] == a[..na] + b[..nb];
  }

  /** The part of the loop that handles one directive. */
  method EmitDirective(out: array?<char>, pos: nat, left: nat, fmt: string, i: nat, args: seq<Arg>,
                       ghost full: string, ghost sofar: string)
    returns (n: nat, next: nat, args': seq<Arg>, ghost sofar': string)
    requires out != null ==> pos + left < out.Length && out[..pos] == sofar
    requires i < |fmt| && fmt[i] == '%' && left > 0 && Safe(fmt, i, args, left)
    requires |sofar| == pos && Printed(full, sofar, left, Output(fmt, i, args))
    modifies out
    ensures n <= left && i < next <= |fmt| && Safe(fmt, next, args', left - n)
    ensures |sofar'| == pos + n && Printed(full, sofar', left - n, Output(fmt, next, args'))
    ensures out != null ==> out[..pos + n] == sofar'
  {
    hide Output, Safe, Justify, ReadSpec, Convert, Printed, Wide, TakeNum;
    DirectiveOutput(fmt, i, args, left);
    var s := Directive(fmt, i);
    var t := ConvertText(fmt, i, s, args);
    var text := if |t.text| > s.max then t.text[..s.max] else t.text;
    n := EmitJustified(out, pos, left, text, s);
    PrintedMore(full, sofar, left, Justify(text, s), Output(fmt, t.next, t.args), n);
    sofar' := sofar + Justify(text, s)[..n];
    next, args' := t.next, t.args;
  }

  /** The part of the loop that copies everything up to the next '%'. */
  method EmitLiteral(out: array?<char>, pos: nat, left: nat, fmt: string, i: nat, ghost args: seq<Arg>,
                     ghost full: string, ghost sofar: string)
    returns (n: nat, f: nat, ghost sofar': string)
    requires out != null ==> pos + left < out.Length && out[..pos] == sofar
    requires i < |fmt| && Safe(fmt, i, args, left)
    requires |sofar| == pos && Printed(full, sofar, left, Output(fmt, i, args))
    modifies out
    ensures n <= left && i <= f <= |fmt| && (f < |fmt| ==> fmt[f] == '%') && Safe(fmt, f, args, left - n)
    ensures |sofar'| == pos + n && Printed(full, sofar', left - n, Output(fmt, f, args))
    ensures out != null ==> out[..pos + n] == sofar'
    ensures fmt[i] != '%' ==> i < f
  {
    hide Output, Safe, Printed;
    f := NextPercent(fmt, i);
    LiteralOutput(fmt, i, f, args, left);
    n := Emit(out, pos, left, fmt[i..f]);
    PrintedMore(full, sofar, left, fmt[i..f], Output(fmt, f, args), n);
    sofar' := sofar + fmt[i..f][..n];
  }

  function Limit(out: bool, size: nat): nat { if !out && size == 0 then 0x7fff_ffff else size }

  function Min(a: nat, b: nat): nat { if a < b then a else b }

  /** ibcs_vfmt: the first size-1 characters of the output and a null, or only their number. */
  method Vfmt(out: array?<char>, size0: nat, fmt: string, args0: seq<Arg>) returns (r: nat)
    requires out != null ==> size0 <= out.Length
    requires Safe(fmt, 0, args0, Less(Limit(out != null, size0), 1))
    modifies out
    ensures var size, full := Limit(out != null, size0), Output(fmt, 0, args0);
            && (size <= 1 ==> r == 0)
            && (size >= 2 ==> r == Min(size - 1, |full|) + 1)
            && (size >= 2 && out != null ==> out[..r] == full[..r - 1] + [NUL])
  {
    hide Output, Safe, Justify, ReadSpec, Convert, Printed, Wide, TakeNum;
    var size := if out == null && size0 == 0 then 0x7fff_ffff else size0;
    if size <= 1 {
      return 0;
    }
    var i: nat, left: nat, args := 0, size - 1, args0;
    var pos: nat := 0;
    ghost var full, sofar := Output(fmt, 0, args0), "";
    NothingPrinted(full, left);
    while left > 0 && i < |fmt|
      invariant i <= |fmt| && pos + left == size - 1 && |sofar| == pos
      invariant out != null ==> out[..pos] == sofar
      invariant Safe(fmt, i, args, left) && Printed(full, sofar, left, Output(fmt, i, args))
      decreases |fmt| - i, left
    {
      var n, f;
      n, f, sofar := EmitLiteral(out, pos, left, fmt, i, args, full, sofar);
      pos, left, i := pos + n, left - n, f;
      if left > 0 && i < |fmt| {
        n, i, args, sofar := EmitDirective(out, pos, left, fmt, i, args, full, sofar);
        pos, left := pos + n, left - n;
      }
    }
    if i == |fmt| {
      NothingLeft(fmt, args);
    }
    AllPrinted(full, sofar, left, Output(fmt, i, args));
    if out != null {
      out[pos] := NUL;
    }
    r := size - left;
  }

  lemma NothingLeft(fmt: string, args: seq<Arg>)
    ensures Output(fmt, |fmt|, args) == ""
  {
  }

  lemma NothingPrinted(full: string, left: nat)
    requires left > 0
    ensures Printed(full, "", left, full)
  {
  }

  lemma AllPrinted(full: string, sofar: string, left: nat, rest: string)
    requires Printed(full, sofar, left, rest) && (left == 0 || rest == "")
    ensures |sofar| == Min(|sofar| + left, |full|) && sofar == full[..|sofar|]
  {
  }

  lemma DirectiveOutput(fmt: string, i: nat, args: seq<Arg>, left: nat)
    requires i < |fmt| && fmt[i] == '%' && left > 0 && Safe(fmt, i, args, left)
    ensures var s := ReadSpec(fmt, i);
            && i < s.conv <= |fmt|
            && var t := Convert(fmt, i, s, args);
            && Output(fmt, i, args) == Justify(Cut(t.text, s.max), s) + Output(fmt, t.next, t.args)
            && (s.conv == |fmt| ==> s.longs == 0)
            && (At(fmt, s.conv) == 'o' ==> Wide(TakeNum(args), s.longs) < 0x1000_0000_0000_0000)
            && Safe(fmt, t.next, t.args, Less(left, |Justify(Cut(t.text, s.max), s)|)) && i < t.next <= |fmt|
  {
    SpecAdvances(fmt, i);
  }

  /** ibcs_vwritef: one pass to measure, one to write; the bytes handed to write. */
  method Vwritef(fmt: string, args: seq<Arg>) returns (n: int, written: string)
    requires Safe(fmt, 0, args, 0x7fff_fffe) && |Output(fmt, 0, args)| < 0x7fff_ffff
    ensures Output(fmt, 0, args) != "" ==> n == |Output(fmt, 0, args)| && written == Output(fmt, 0, args)
    ensures Output(fmt, 0, args) == "" ==> n == -1
  {
    var size := Vfmt(null, 0, fmt, args);
    var buffer := new char[size];
    SafeWithLess(fmt, 0, args, 0x7fff_fffe, Less(size, 1));
    var m: int := Vfmt(buffer, size, fmt, args);
    n := m - 1;
    written := if n >= 0 then buffer[..n] else "";
    if n >= 0 {
      assert written == buffer[..m][..n];
    }
  }
}
