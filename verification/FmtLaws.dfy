/** What directives print, in terms of what a reader makes of it: the value of the digits, their letters, the
    side of the padding, and how flags, widths and modifiers are read. */
module FmtLaws {
  import opened Chars
  import opened FmtSpec
  import Fmt
  import opened Strtoul

  // ---------------------------------------------------------------------------------------------
  // Numbers

  /** Every digit above 9 is a letter from ten on. */
  lemma {:induction false} DigitsLetters(n: nat, base: nat, ten: char)
    requires 2 <= base <= 16 && (ten == 'a' || ten == 'A')
    ensures forall i :: 0 <= i < |Digits(n, base, ten)| ==>
              var c := Digits(n, base, ten)[i]; '0' <= c <= '9' || ten <= c <= ten + 5 as char
    decreases n
  {
    if n >= base {
      var q, d := Quotient(n, base);
      DigitsLetters(q, base, ten);
    }
  }

  /** No number but 0 begins with the digit 0. */
  lemma {:induction false} NoLeadingZero(n: nat, base: nat, ten: char)
    requires 2 <= base <= 16 && (ten == 'a' || ten == 'A') && n > 0
    ensures Digits(n, base, ten)[0] != '0'
    decreases n
  {
    if n >= base {
      var q, d := Quotient(n, base);
      Fmt.DivModSmall(n, base);
      NoLeadingZero(q, base, ten);
    }
  }

  /** A decimal text has a minus sign exactly for the negative numbers of a signed conversion, and its digits
      have the absolute value. */
  lemma DecimalReads(v: int, signed: bool)
    requires if signed then -0x8000_0000 <= v < 0x8000_0000 else 0 <= v < 0x1_0000_0000
    ensures var t := Decimal(v % 0x1_0000_0000, signed);
            && (t[0] == '-' <==> v < 0)
            && if v < 0 then Strtoul.Strtoul(t[1..], 10) == (-v, |t| - 1) else Strtoul.Strtoul(t, 10) == (v, |t|)
  {
    hide Digits, Strtoul.Strtoul;
    var a := if v < 0 then -v else v;
    var d := Digits(a, 10, 'a');
    ReadsBack(a, 10, 'a', 0, "");
    assert seq(0, _ => '0') + d + "" == d;
    assert v < 0 ==> ("-" + d)[1..] == d;
    DigitsLetters(a, 10, 'a');
  }

  /** What a wide conversion prints has the value of the number, cut to 32 bits unless two 'l's ask for 64. */
  lemma WideReads(n: nat, longs: nat, base: nat, ten: char)
    requires 2 <= base <= 16 && (ten == 'a' || ten == 'A')
    ensures var d := Digits(Wide(n, longs), base, ten);
            && (forall i :: 0 <= i < |d| ==> DigitValue(d[i]) >= 0)
            && Value(d, base) == if longs >= 2 then n % 0x1_0000_0000_0000_0000 else n % 0x1_0000_0000
  {
    DigitsValue(Wide(n, longs), base, ten);
  }

  /** The conversions of one number: "%d" and "%u" in decimal, "%x" with small letters, "%X" and "%p" with
      capital ones, "%o" in octal. */
  lemma OneNumber(n: nat, c: char)
    requires c in {'d', 'u', 'o', 'x', 'X', 'p'}
    ensures Output("%" + [c], 0, [Num(n)]) ==
              match c
              case 'd' => Decimal(n, true)
              case 'u' => Decimal(n, false)
              case 'o' => Digits(n % 0x1_0000_0000, 8, 'a')
              case 'x' => Digits(n % 0x1_0000_0000, 16, 'a')
              case _ => Digits(n % 0x1_0000_0000, 16, 'A')
  {
    hide Digits, Decimal, ReadSpec, Wide;
    var fmt, args, s := "%" + [c], [Num(n)], Spec(false, ' ', 0, MAX_WIDTH, 0, 1);
    OneLetter(c);
    NumberIsShort(n);
    assert Wide(n, 0) == n % 0x1_0000_0000 by { WideIs(n); }
    var t := Convert(fmt, 0, s, args);
    NotPadded(t.text);
    assert t.next == 2 && t.args == [];
    OneDirective(fmt, args, s);
  }

  lemma WideIs(n: nat)
    ensures Wide(n, 0) == n % 0x1_0000_0000
  {
  }

  lemma OneLetter(c: char)
    requires !IsDigit(c) && c != '-' && c != '.' && c != 'l'
    ensures ReadSpec("%" + [c], 0) == Spec(false, ' ', 0, MAX_WIDTH, 0, 1)
  {
  }

  lemma NotPadded(t: string)
    ensures Justify(t, Spec(false, ' ', 0, MAX_WIDTH, 0, 1)) == t
  {
  }

  /** A format of one directive. */
  lemma OneDirective(fmt: string, args: seq<Arg>, s: Spec)
    requires |fmt| == 2 && fmt[0] == '%' && ReadSpec(fmt, 0) == s && s.conv == 1
    requires Convert(fmt, 0, s, args).next == 2 && |Convert(fmt, 0, s, args).text| <= s.max
    ensures Output(fmt, 0, args) == Justify(Convert(fmt, 0, s, args).text, s)
  {
    hide ReadSpec, Convert, Justify;
    var t := Convert(fmt, 0, s, args);
    assert Output(fmt, 2, t.args) == "";
  }

  lemma NumberIsShort(n: nat)
    ensures |Decimal(n, true)| <= MAX_WIDTH && |Decimal(n, false)| <= MAX_WIDTH
    ensures |Digits(n % 0x1_0000_0000, 8, 'a')| <= MAX_WIDTH
    ensures |Digits(n % 0x1_0000_0000, 16, 'a')| <= MAX_WIDTH && |Digits(n % 0x1_0000_0000, 16, 'A')| <= MAX_WIDTH
  {
    hide Digits;
    var u := n % 0x1_0000_0000;
    Fmt.DecimalFits(u);
    if u >= 0x8000_0000 {
      Fmt.DecimalFits(0x1_0000_0000 - u);
    }
    Fmt.WideFits(n, 0);
  }

  /** "%s" prints its argument, and "%%" both characters of the directive. */
  lemma StringsAndPercent(s: string)
    requires |s| <= MAX_WIDTH
    ensures Output("%s", 0, [Str(s)]) == s
    ensures Output("%%", 0, []) == "%%"
  {
    var spec := Spec(false, ' ', 0, MAX_WIDTH, 0, 1);
    OneLetter('s');
    OneLetter('%');
    assert "%" + ['s'] == "%s" && "%" + ['%'] == "%%";
    assert Convert("%s", 0, spec, [Str(s)]) == Text(s, 2, []);
    assert Convert("%%", 0, spec, []) == Text("%%", 2, []);
    hide ReadSpec, Convert, Justify, Output;
    NotPadded(s);
    NotPadded("%%");
    OneDirective("%s", [Str(s)], spec);
    OneDirective("%%", [], spec);
  }

  // ---------------------------------------------------------------------------------------------
  // Padding

  /** A text is padded to the minimum width: behind it if it is left justified, else before it. */
  lemma Padded(t: string, s: Spec)
    ensures var r, n := Justify(t, s), |t|;
            && |r| == (if n < s.min then s.min else n)
            && (s.left ==> r[..n] == t && forall i :: n <= i < |r| ==> r[i] == s.pad)
            && (!s.left ==> r[|r| - n..] == t && forall i :: 0 <= i < |r| - n ==> r[i] == s.pad)
  {
  }

  /** The maximum width keeps the beginning. */
  lemma CutKeeps(t: string, max: nat)
    ensures Cut(t, max) <= t && |Cut(t, max)| == if |t| < max then |t| else max
  {
  }

  // ---------------------------------------------------------------------------------------------
  // Flags, widths and modifiers

  predicate AllDecimal(w: string) { forall i :: 0 <= i < |w| ==> '0' <= w[i] <= '9' }

  lemma DecimalDigit(c: char)
    requires '0' <= c <= '9'
    ensures DigitValue(c) == (c - '0') as int
  {
  }

  lemma DecimalDigits(w: string)
    requires AllDecimal(w)
    ensures forall i :: 0 <= i < |w| ==> DigitValue(w[i]) >= 0
  {
    forall i | 0 <= i < |w| ensures DigitValue(w[i]) >= 0 {
      DecimalDigit(w[i]);
    }
  }

  /** The decimal value of a width. */
  function WidthOf(w: string): nat
    requires AllDecimal(w)
  {
    DecimalDigits(w);
    Value(w, 10)
  }

  lemma {:induction false} NumberReads(fmt: string, a: nat, w: string, i: nat)
    requires i <= |w| && a + |w| <= |fmt| && fmt[a..a + |w|] == w && AllDecimal(w) && !IsDigit(At(fmt, a + |w|))
    ensures Number(fmt, a + i, WidthOf(w[..i])) == (WidthOf(w), a + |w|)
    decreases |w| - i
  {
    hide Value, DigitValue;
    if i < |w| {
      assert fmt[a + i] == fmt[a..a + |w|][i] == w[i];
      assert w[..i + 1] == w[..i] + [w[i]];
      DecimalDigits(w[..i]);
      DecimalDigit(w[i]);
      AppendDigit(w[..i], w[i], 10);
      NumberReads(fmt, a, w, i + 1);
    } else {
      assert w[..i] == w;
    }
  }

  lemma NumberIs(fmt: string, a: nat, w: string)
    requires a + |w| <= |fmt| && fmt[a..a + |w|] == w && AllDecimal(w) && !IsDigit(At(fmt, a + |w|))
    ensures Number(fmt, a, 0) == (WidthOf(w), a + |w|)
  {
    EmptyValue(10);
    assert w[..0] == "";
    NumberReads(fmt, a, w, 0);
  }

  /** A directive whose '%' is at i reads as it is written: an optional '-', the digits w of the minimum width,
      which pad with zeros if they begin with one, optionally a dot and the digits q of the maximum width, and
      up to two 'l's. */
  lemma DirectiveReads(fmt: string, i: nat, left: bool, w: string, dot: bool, q: string, longs: nat)
    requires AllDecimal(w) && AllDecimal(q) && longs <= 2
    requires left <==> At(fmt, i + 1) == '-'
    requires var a := i + 1 + if left then 1 else 0;
             && a + |w| <= |fmt| && fmt[a..a + |w|] == w && !IsDigit(At(fmt, a + |w|))
             && (dot <==> At(fmt, a + |w|) == '.')
             && var b := a + |w| + 1;
             && (dot ==> b + |q| <= |fmt| && fmt[b..b + |q|] == q && !IsDigit(At(fmt, b + |q|)))
             && var l := if dot then b + |q| else a + |w|;
             && (forall k :: l <= k < l + longs ==> At(fmt, k) == 'l') && (longs < 2 ==> At(fmt, l + longs) != 'l')
    ensures var a := i + 1 + if left then 1 else 0;
            var l := if dot then a + |w| + 1 + |q| else a + |w|;
            ReadSpec(fmt, i) ==
              Spec(left, if w != "" && w[0] == '0' then '0' else ' ', WidthOf(w),
                   if dot then WidthOf(q) else MAX_WIDTH, longs, l + longs)
  {
    hide WidthOf, Number;
    var a := i + 1 + if left then 1 else 0;
    NumberIs(fmt, a, w);
    if dot {
      NumberIs(fmt, a + |w| + 1, q);
    }
    assert At(fmt, a) == '0' <==> w != "" && w[0] == '0' by {
      if w != "" {
        assert fmt[a] == fmt[a..a + |w|][0];
      }
    }
    var l := if dot then a + |w| + 1 + |q| else a + |w|;
    LongsAre(fmt, l, longs);
  }

  lemma LongsAre(fmt: string, l: nat, longs: nat)
    requires longs <= 2
    requires (forall k :: l <= k < l + longs ==> At(fmt, k) == 'l') && (longs < 2 ==> At(fmt, l + longs) != 'l')
    ensures Longs(fmt, l) == longs
  {
    assert longs > 0 ==> At(fmt, l) == 'l';
    assert longs > 1 ==> At(fmt, l + 1) == 'l';
  }
}
