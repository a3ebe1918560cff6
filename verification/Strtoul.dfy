/** simple_strtoul of ibcs/linux26-compat.c, and that it reads back what ibcs_vfmt prints. */
module Strtoul {
  import opened Chars
  import opened FmtSpec
  import Fmt

  /** A character code with bit 5 set: lower case for letters, unchanged for digits. */
  function Lower(c: char): int {
    var n := c as int;
    if n / 32 % 2 == 0 then n + 32 else n
  }

  /** The value of a digit, or -1. Control codes 16 to 25 pass for decimal digits. */
  function DigitValue(c: char): int {
    var l := Lower(c);
    if '0' as int <= l <= '9' as int then l - '0' as int
    else if 'a' as int <= l <= 'f' as int then l - 'a' as int + 10
    else -1
  }

  function ULong(x: nat): nat { x % 0x1_0000_0000 }

  /** The value and the place after the digits from i on, with what was read before. */
  function Scan(s: string, i: nat, base: nat, acc: nat): (nat, nat)
    decreases |s| - i
  {
    if i < |s| && DigitValue(s[i]) >= 0 then Scan(s, i + 1, base, ULong(acc * base + DigitValue(s[i]))) else (acc, i)
  }

  function Strtoul(s: string, base: nat): (nat, nat) {
    if At(s, 0) == '0' && Lower(At(s, 1)) == 'x' as int then Scan(s, 2, 16, 0)
    else if At(s, 0) == '0' && Lower(At(s, 1)) == 'o' as int then Scan(s, 2, 8, 0)
    else Scan(s, 0, if base == 0 then 10 else base, 0)
  }

  lemma NulIsNoDigit()
    ensures DigitValue(NUL) < 0
  {
  }

  /** The loop over the digits from cp0 on. */
  method ReadDigits(s: string, cp0: nat, base: nat) returns (result: nat, cp: nat)
    requires NUL !in s
    ensures (result, cp) == Scan(s, cp0, base, 0)
  {
    hide DigitValue, ULong;
    result, cp := 0, cp0;
    while true
      invariant Scan(s, cp0, base, 0) == Scan(s, cp, base, result)
      decreases |s| - cp
    {
      var digit := DigitValue(At(s, cp));
      NulIsNoDigit();
      if digit < 0 {
        break;
      }
      result, cp := ULong(result * base + digit), cp + 1;
    }
  }

  method SimpleStrtoul(cp0: string, base0: nat) returns (result: nat, end: nat)
    requires NUL !in cp0
    ensures (result, end) == Strtoul(cp0, base0)
  {
    hide Scan;
    var cp: nat, base := 0, base0;
    if At(cp0, 0) == '0' {
      var lcase := Lower(At(cp0, 1));
      if lcase == 'x' as int {
        base := 16;
        cp := cp + 2;
      } else if lcase == 'o' as int {
        base := 8;
        cp := cp + 2;
      }
    }
    if base == 0 {
      base := 10;
    }
    result, end := ReadDigits(cp0, cp, base);
  }

  // ---------------------------------------------------------------------------------------------
  // Reading printed numbers

  /** The value of a string of digits, not bounded to 32 bits. */
  function Value(s: string, base: nat): nat
    requires forall i :: 0 <= i < |s| ==> DigitValue(s[i]) >= 0
  {
    if s == "" then 0 else Value(s[..|s| - 1], base) * base + DigitValue(s[|s| - 1])
  }

  lemma DigitRoundTrip(d: nat, ten: char)
    requires d < 16 && (ten == 'a' || ten == 'A')
    ensures DigitValue(DigitChar(d, ten)) == d
  {
  }

  lemma AppendDigit(s: string, c: char, base: nat)
    requires (forall i :: 0 <= i < |s| ==> DigitValue(s[i]) >= 0) && DigitValue(c) >= 0
    ensures forall i :: 0 <= i < |s + [c]| ==> DigitValue((s + [c])[i]) >= 0
    ensures Value(s + [c], base) == Value(s, base) * base + DigitValue(c)
  {
  }

  lemma {:induction false} DigitsValue(n: nat, base: nat, ten: char)
    requires 2 <= base <= 16 && (ten == 'a' || ten == 'A')
    ensures forall i :: 0 <= i < |Digits(n, base, ten)| ==> DigitValue(Digits(n, base, ten)[i]) >= 0
    ensures Value(Digits(n, base, ten), base) == n
    decreases n
  {
    hide DigitValue, DigitChar, Value;
    EmptyValue(base);
    if n < base {
      DigitRoundTrip(n, ten);
      AppendDigit("", DigitChar(n, ten), base);
      assert "" + [DigitChar(n, ten)] == [DigitChar(n, ten)];
    } else {
      var q, d := Quotient(n, base);
      DigitsValue(q, base, ten);
      DigitRoundTrip(d, ten);
      AppendDigit(Digits(q, base, ten), DigitChar(d, ten), base);
    }
  }

  lemma Quotient(n: nat, b: nat) returns (q: nat, d: nat)
    requires n >= b >= 2
    ensures q == n / b && d == n % b && d < b && n == q * b + d && q < n
  {
    q, d := n / b, n % b;
    assert q * b >= 2 * q;
  }

  lemma {:induction false} ZerosValue(k: nat, s: string, base: nat)
    requires forall i :: 0 <= i < |s| ==> DigitValue(s[i]) >= 0
    ensures var z := seq(k, _ => '0') + s;
            (forall i :: 0 <= i < |z| ==> DigitValue(z[i]) >= 0) && Value(z, base) == Value(s, base)
    decreases k + |s|
  {
    var z := seq(k, _ => '0') + s;
    if s != "" {
      ZerosValue(k, s[..|s| - 1], base);
      assert z[..|z| - 1] == seq(k, _ => '0') + s[..|s| - 1];
    } else if k > 0 {
      ZerosValue(k - 1, "", base);
      assert z[..k - 1] == seq(k - 1, _ => '0') + "";
    }
  }

  /** Reducing before a digit is added changes nothing modulo 2^32. */
  lemma ULongStep(a: nat, base: nat, d: nat)
    ensures ULong(ULong(a) * base + d) == ULong(a * base + d)
  {
    var m, q, r := 0x1_0000_0000, a / 0x1_0000_0000, ULong(a);
    assert a == q * m + r;
    assert (q * m + r) * base == (q * base) * m + r * base by {
      assert (q * m + r) * base == (q * m) * base + r * base;
      assert (q * m) * base == (q * base) * m;
    }
    ULongAdds(q * base, r * base + d);
  }

  lemma ULongAdds(k: nat, x: nat)
    ensures ULong(k * 0x1_0000_0000 + x) == ULong(x)
  {
  }

  /** Scanning digits gives their value modulo 2^32, up to a character that is no digit. */
  lemma {:induction false} ScanDigits(s: string, rest: string, base: nat, i: nat)
    requires i <= |s| && (forall j :: 0 <= j < |s| ==> DigitValue(s[j]) >= 0)
    requires rest == "" || DigitValue(rest[0]) < 0
    ensures Scan(s + rest, i, base, ULong(Value(s[..i], base))) == (ULong(Value(s, base)), |s|)
    decreases |s| - i
  {
    hide DigitValue, Value, ULong;
    var t := s + rest;
    if i < |s| {
      assert t[i] == s[i];
      AppendDigit(s[..i], s[i], base);
      assert s[..i + 1] == s[..i] + [s[i]];
      ULongStep(Value(s[..i], base), base, DigitValue(s[i]));
      ScanDigits(s, rest, base, i + 1);
    } else {
      assert s[..i] == s;
      if rest != "" {
        assert t[i] == rest[0];
      }
    }
  }

  /** What stands before the digits does not matter. */
  lemma {:induction false} ScanBehind(pre: string, t: string, i: nat, base: nat, acc: nat)
    requires i <= |t|
    ensures var (v, e) := Scan(t, i, base, acc); Scan(pre + t, |pre| + i, base, acc) == (v, |pre| + e)
    decreases |t| - i
  {
    hide DigitValue, ULong;
    if i < |t| {
      assert (pre + t)[|pre| + i] == t[i];
      if DigitValue(t[i]) >= 0 {
        ScanBehind(pre, t, i + 1, base, ULong(acc * base + DigitValue(t[i])));
      }
    }
  }

  /** "0x" and "0o", with either case of the letter, choose the base, whatever base was asked for. */
  lemma PrefixReads(n: nat, letter: char, ten: char, rest: string, base: nat)
    requires n < 0x1_0000_0000 && (ten == 'a' || ten == 'A') && (rest == "" || DigitValue(rest[0]) < 0)
    requires letter == 'x' || letter == 'X' || letter == 'o' || letter == 'O'
    ensures var d := Digits(n, if letter == 'x' || letter == 'X' then 16 else 8, ten);
            Strtoul("0" + [letter] + (d + rest), base) == (n, 2 + |d|)
  {
    hide Digits, Value, Scan, DigitValue, Lower;
    var b := if letter == 'x' || letter == 'X' then 16 else 8;
    var d, pre := Digits(n, b, ten), "0" + [letter];
    DigitsValue(n, b, ten);
    EmptyValue(b);
    assert d[..0] == "";
    ScanDigits(d, rest, b, 0);
    ScanBehind(pre, d + rest, 0, b, 0);
    PrefixIs(letter, d + rest, base);
  }

  lemma PrefixIs(letter: char, t: string, base: nat)
    requires letter == 'x' || letter == 'X' || letter == 'o' || letter == 'O'
    ensures var b := if letter == 'x' || letter == 'X' then 16 else 8;
            Strtoul("0" + [letter] + t, base) == Scan("0" + [letter] + t, 2, b, 0)
  {
    hide Scan;
    var s := "0" + [letter] + t;
    assert At(s, 0) == '0' && At(s, 1) == letter;
  }

  /** No base given is base 10. */
  lemma NoBaseIsTen(s: string)
    ensures Strtoul(s, 0) == Strtoul(s, 10)
  {
  }

  /** Any digits read as their value modulo 2^32, if they do not look like a prefix. */
  lemma DigitsRead(s: string, rest: string, base: nat)
    requires s != "" && base > 0 && (forall j :: 0 <= j < |s| ==> DigitValue(s[j]) >= 0) && Ends(rest)
    ensures Strtoul(s + rest, base) == (ULong(Value(s, base)), |s|)
  {
    hide DigitValue, Value, Scan, Lower;
    EmptyValue(base);
    assert s[..0] == "";
    ScanDigits(s, rest, base, 0);
    NoPrefix(s, rest);
  }

  /** The character after the digits neither looks like a digit nor, after a lone 0, like a base prefix. */
  predicate Ends(rest: string) {
    rest == "" || (DigitValue(rest[0]) < 0 && Lower(rest[0]) != 'x' as int && Lower(rest[0]) != 'o' as int)
  }

  /** Every unsigned 32-bit number printed in decimal or in hexadecimal, zero padded to any width, reads
      back unchanged with the end just after its last digit. */
  lemma ReadsBack(n: nat, base: nat, ten: char, zeros: nat, rest: string)
    requires n < 0x1_0000_0000 && (base == 10 || base == 16) && (ten == 'a' || ten == 'A') && Ends(rest)
    ensures var s := seq(zeros, _ => '0') + Digits(n, base, ten);
            Strtoul(s + rest, base) == (n, |s|)
  {
    hide Digits, DigitValue, Value, Scan, Lower;
    var d := Digits(n, base, ten);
    var s := seq(zeros, _ => '0') + d;
    DigitsValue(n, base, ten);
    ZerosValue(zeros, d, base);
    DigitsRead(s, rest, base);
  }

  lemma EmptyValue(base: nat)
    ensures Value("", base) == 0
  {
  }

  lemma NoPrefix(s: string, rest: string)
    requires s != "" && (forall i :: 0 <= i < |s| ==> DigitValue(s[i]) >= 0) && Ends(rest)
    ensures Lower(At(s + rest, 1)) != 'x' as int && Lower(At(s + rest, 1)) != 'o' as int
  {
  }

  /** What "%u" prints is read back in base 10. */
  lemma PercentU(n: nat)
    requires n < 0x1_0000_0000
    ensures Output("%u", 0, [Num(n)]) == Digits(n, 10, 'a')
    ensures var s := Output("%u", 0, [Num(n)]); Strtoul(s, 10) == (n, |s|)
  {
    hide Digits, Strtoul;
    var fmt, args, d := "%u", [Num(n)], Digits(n, 10, 'a');
    assert ReadSpec(fmt, 0) == Spec(false, ' ', 0, MAX_WIDTH, 0, 1);
    assert Convert(fmt, 0, ReadSpec(fmt, 0), args) == Text(d, 2, []);
    DecimalIsShort(n);
    assert Justify(d, ReadSpec(fmt, 0)) == d;
    assert Output(fmt, 2, []) == "";
    ReadsBack(n, 10, 'a', 0, "");
    assert seq(0, _ => '0') + d + "" == d;
  }

  /** What "%08x" prints is read back in base 16. */
  lemma Percent08X(n: nat)
    requires n < 0x1_0000_0000
    ensures var s := Output("%08x", 0, [Num(n)]); |s| == 8 && Strtoul(s, 16) == (n, 8)
  {
    hide Digits, Strtoul;
    var fmt, args, d := "%08x", [Num(n)], Digits(n, 16, 'a');
    assert Number(fmt, 1, 0) == Number(fmt, 2, 0) == Number(fmt, 3, 8) == (8, 3);
    assert ReadSpec(fmt, 0) == Spec(false, '0', 8, MAX_WIDTH, 0, 3);
    assert Convert(fmt, 0, ReadSpec(fmt, 0), args) == Text(d, 4, []);
    HexIsShort(n);
    var s := seq(8 - |d|, _ => '0') + d;
    assert Justify(d, ReadSpec(fmt, 0)) == s;
    assert Output(fmt, 4, []) == "";
    ReadsBack(n, 16, 'a', 8 - |d|, "");
    assert s + "" == s;
  }

  lemma DecimalIsShort(n: nat)
    requires n < 0x1_0000_0000
    ensures |Digits(n, 10, 'a')| <= 10
  {
    Fmt.DecimalFits(n);
  }

  lemma HexIsShort(n: nat)
    requires n < 0x1_0000_0000
    ensures |Digits(n, 16, 'a')| <= 8
  {
    assert Fmt.Pow(16, 8) == 0x1_0000_0000;
    Fmt.DigitCount(n, 16, 'a', 8);
  }
}
