/** number, simple_strtoul and simple_strtol of vsprintf.c: printing and reading 32-bit numbers undo each other. */
module Vsprintf {
  import opened Bits

  const SMALL := "0123456789abcdefghijklmnopqrstuvwxyz"
  const CAPITAL := "0123456789ABCDEFGHIJKLMNOPQRSTUVWXYZ"

  datatype Flags = Flags(zeropad: bool, sign: bool, plus: bool, space: bool, left: bool, special: bool, large: bool)
  {
    function Letters(): (s: string)
      ensures |s| == 36
    {
      if large then CAPITAL else SMALL
    }
  }

  /** A word read as a signed long is negative. */
  predicate Negative(num: Word)
  {
    num >= 0x8000_0000
  }

  function Negate(num: Word): Word
  {
    (W32 - num) % W32
  }

  // ----- What number prints -----

  /** The digits of n, most significant first. */
  function Digits(n: nat, base: nat, f: Flags): (s: string)
    requires 2 <= base <= 36
    ensures |s| >= 1
    decreases n
  {
    if n < base then [f.Letters()[n]]
    else Half(n, base); Digits(n / base, base, f) + [f.Letters()[n % base]]
  }

  lemma Half(n: nat, base: nat)
    requires 2 <= base <= n
    ensures 0 < n / base < n
  {
    var q, r := n / base, n % base;
    assert n == q * base + r;
    MulMono(2, base, q);
  }

  function Repeat(c: char, n: int): (s: string)
    ensures |s| == if n < 0 then 0 else n
    ensures forall i :: 0 <= i < |s| ==> s[i] == c
  {
    if n <= 0 then "" else Repeat(c, n - 1) + [c]
  }

  function SignOf(num: Word, f: Flags): string
  {
    if !f.sign then "" else if Negative(num) then "-" else if f.plus then "+" else if f.space then " " else ""
  }

  function PrefixOf(base: nat, f: Flags): string
  {
    if !f.special then "" else if base == 8 then "0" else if base == 16 then ['0', f.Letters()[33]] else ""
  }

  function Magnitude(num: Word, f: Flags): Word
  {
    if f.sign && Negative(num) then Negate(num) else num
  }

  function Max(a: int, b: int): int { if a < b then b else a }

  /** The number of characters that are not padding. */
  function Width(num: Word, base: nat, precision: int, f: Flags): int
    requires 2 <= base <= 36
  {
    |SignOf(num, f)| + |PrefixOf(base, f)| + Max(precision, |Digits(Magnitude(num, f), base, f)|)
  }

  function Blanks(pad: int, f: Flags): string
  {
    if f.left || f.zeropad then "" else Repeat(' ', pad)
  }

  function Zeros(pad: int, f: Flags): string
  {
    if f.zeropad && !f.left then Repeat('0', pad) else ""
  }

  function Trail(pad: int, f: Flags): string
  {
    if f.left then Repeat(' ', pad) else ""
  }

  /** Blank padding, sign, prefix, zero padding, precision, digits, blank padding. */
  function Printed(num: Word, base: nat, size: int, precision: int, f: Flags): string
    requires 2 <= base <= 36
  {
    var pad, d := size - Width(num, base, precision, f), Digits(Magnitude(num, f), base, f);
    Blanks(pad, f)
    + (SignOf(num, f) + (PrefixOf(base, f) + (Zeros(pad, f) + (Repeat('0', precision - |d|) + (d + Trail(pad, f))))))
  }

  /** The output is as wide as asked for, or as wide as it has to be. */
  lemma PrintedLength(num: Word, base: nat, size: int, precision: int, f: Flags)
    requires 2 <= base <= 36
    ensures |Printed(num, base, size, precision, f)| == Max(size, Width(num, base, precision, f))
  {
    hide Repeat;
    hide Digits;
  }

  lemma {:induction false} DigitCount(n: nat, base: nat, f: Flags, k: nat)
    requires 2 <= base <= 36 && n < Pow2(k) && k > 0
    ensures |Digits(n, base, f)| <= k
    decreases n
  {
    if n >= base {
      Half(n, base);
      HalfPower(n, base, k);
      DigitCount(n / base, base, f, k - 1);
    }
  }

  lemma HalfPower(n: nat, base: nat, k: nat)
    requires 2 <= base <= n < Pow2(k) && k > 0
    ensures k > 1 && n / base < Pow2(k - 1)
  {
    var q := n / base;
    Half(n, base);
    assert n == q * base + n % base;
    MulMono(2, base, q);
  }

  function Remainder(n: Word, base: nat): (r: nat)
    requires 2 <= base
    ensures r < base
  {
    n % base
  }

  function Quotient(n: Word, base: nat): Word
    requires 2 <= base
  {
    DivNonnegative(n, base);
    if n >= base then Half(n, base); n / base else 0
  }

  /** do_div */
  method DoDiv(n: Word, base: nat) returns (rest: Word, digit: nat)
    requires 2 <= base <= 36
    ensures rest == Quotient(n, base) && digit == Remainder(n, base)
  {
    DivNonnegative(n, base);
    if n < base { DivModUnique(n, base, 0, n); }
    digit := n % base;
    if n >= base { Half(n, base); }
    rest := n / base;
  }

  /** The same character n times; the counter ends one below zero, or below n if that is negative. */
  method Fill(buf: array<char>, str: nat, c: char, n: int) returns (end: nat, left: int)
    requires str + Max(0, n) <= buf.Length
    modifies buf
    ensures end == str + Max(0, n) && buf[..end] == old(buf[..str]) + Repeat(c, n)
    ensures left == if n < 0 then n - 1 else -1
  {
    end := str;
    left := n;
    while left > 0
      invariant if n < 0 then left == n else 0 <= left <= n
      invariant end == str + (Max(0, n) - Max(0, left))
      invariant buf[..end] == old(buf[..str]) + Repeat(c, n - Max(0, left))
    {
      left := left - 1;
      buf[end] := c;
      end := end + 1;
      assert buf[..end] == buf[..end - 1] + [c];
      assert Repeat(c, n - left) == Repeat(c, n - left - 1) + [c];
    }
    left := left - 1;
    assert n <= 0 ==> Repeat(c, n) == Repeat(c, 0);
  }

  lemma DigitUnfold(n: Word, base: nat, f: Flags)
    requires 2 <= base <= 36 && n > 0
    ensures var d, q := Digits(n, base, f), Quotient(n, base);
      && d[|d| - 1] == f.Letters()[Remainder(n, base)] && q < n
      && if q == 0 then |d| == 1 else Digits(q, base, f) == d[..|d| - 1]
  {
    if n >= base { Half(n, base); } else { DivModUnique(n, base, 0, n); }
  }

  /** The digits of a number are collected backwards in tmp. */
  method Collect(num: Word, base: nat, f: Flags, tmp: array<char>) returns (i: nat)
    requires 2 <= base <= 36 && tmp.Length == 66
    modifies tmp
    ensures i == |Digits(num, base, f)| <= 32
    ensures forall k :: 0 <= k < i ==> tmp[k] == Digits(num, base, f)[i - 1 - k]
  {
    hide Digits;
    hide Flags.Letters;
    hide Quotient;
    hide Remainder;
    i := 0;
    WordCount(num, base, f);
    if num == 0 {
      ZeroDigit(base, f);
      tmp[0] := '0';
      return 1;
    }
    var n := num;
    ghost var goal := Digits(num, base, f);
    ghost var d := goal;
    while n != 0
      invariant i + |d| == |goal| <= 32 && (n == 0 <==> d == "") && d <= goal
      invariant n != 0 ==> d == Digits(n, base, f)
      invariant forall k :: 0 <= k < i ==> tmp[k] == goal[|goal| - 1 - k]
    {
      DigitUnfold(n, base, f);
      var digit;
      n, digit := DoDiv(n, base);
      tmp[i] := f.Letters()[digit];
      d := d[..|d| - 1];
      i := i + 1;
    }
  }

  lemma ZeroDigit(base: nat, f: Flags)
    requires 2 <= base <= 36
    ensures Digits(0, base, f) == "0"
  {
  }

  lemma WordCount(num: Word, base: nat, f: Flags)
    requires 2 <= base <= 36
    ensures |Digits(num, base, f)| <= 32
  {
    Pow2Sixteen();
    Pow2Add(16, 16);
    DigitCount(num, base, f, 32);
  }

  /** The collected digits in the opposite order. */
  method CopyBack(buf: array<char>, str: nat, tmp: array<char>, n: nat, ghost d: string) returns (end: nat)
    requires n <= tmp.Length && buf != tmp && |d| == n && forall k :: 0 <= k < n ==> tmp[k] == d[n - 1 - k]
    requires str + n <= buf.Length
    modifies buf
    ensures end == str + n && buf[..end] == old(buf[..str]) + d
  {
    end := str;
    var i := n;
    while i > 0
      invariant 0 <= i <= n && end == str + (n - i)
      invariant buf[..end] == old(buf[..str]) + d[..n - i]
    {
      i := i - 1;
      buf[end] := tmp[i];
      end := end + 1;
      assert buf[..end] == buf[..end - 1] + [d[n - 1 - i]];
    }
  }

  /** The sign, and what is left of the number and the width. */
  method TakeSign(num0: Word, size0: int, f: Flags) returns (sign: string, num: Word, size: int)
    ensures sign == SignOf(num0, f) && num == Magnitude(num0, f) && size == size0 - |sign|
  {
    sign, num, size := "", num0, size0;
    if f.sign {
      if Negative(num) {
        sign := "-";
        num := Negate(num);
        size := size - 1;
      } else if f.plus {
        sign := "+";
        size := size - 1;
      } else if f.space {
        sign := " ";
        size := size - 1;
      }
    }
  }

  /** The sign and the prefix. */
  method PutHead(buf: array<char>, str0: nat, sign: string, base: nat, f: Flags) returns (str: nat)
    requires |sign| <= 1 && str0 + |sign| + |PrefixOf(base, f)| <= buf.Length
    modifies buf
    ensures str == str0 + |sign| + |PrefixOf(base, f)|
    ensures buf[..str] == old(buf[..str0]) + sign + PrefixOf(base, f)
  {
    str := str0;
    if sign != "" {
      buf[str] := sign[0];
      str := str + 1;
    }
    assert buf[..str] == old(buf[..str0]) + sign;
    ghost var was := buf[..str];
    if f.special {
      if base == 8 {
        buf[str] := '0';
        str := str + 1;
        assert buf[..str] == was + "0";
      } else if base == 16 {
        buf[str] := '0';
        str := str + 1;
        buf[str] := f.Letters()[33];
        str := str + 1;
        assert buf[..str] == was + PrefixOf(base, f);
      }
    }
  }

  /** The output loops of number; extra is precision less the number of digits. */
  method Emit(buf: array<char>, start: nat, sign: string, base: nat, tmp: array<char>, i: nat, ghost d: string,
              pad: int, extra: nat, f: Flags) returns (str: nat)
    requires |sign| <= 1 && i <= tmp.Length && buf != tmp && |d| == i
          && forall k :: 0 <= k < i ==> tmp[k] == d[i - 1 - k]
    requires start + Max(pad, 0) + |sign| + |PrefixOf(base, f)| + extra + i <= buf.Length && (f.left ==> !f.zeropad)
    modifies buf
    ensures start <= str <= buf.Length
    ensures buf[..str] == old(buf[..start]) + Blanks(pad, f) + sign + PrefixOf(base, f) + Zeros(pad, f)
                          + Repeat('0', extra) + d + Trail(pad, f)
  {
    hide Repeat;
    hide PrefixOf;
    var c := if f.zeropad then '0' else ' ';
    var size, unused := pad, 0;
    RepeatNone();
    str := start;
    if !f.zeropad && !f.left {
      str, size := Fill(buf, str, ' ', size);
    }
    assert buf[..str] == old(buf[..start]) + Blanks(pad, f);
    str := PutHead(buf, str, sign, base, f);
    ghost var s2 := buf[..str];
    if !f.left {
      str, size := Fill(buf, str, c, size);
    }
    assert buf[..str] == s2 + Zeros(pad, f);
    str, unused := Fill(buf, str, '0', extra);
    str := CopyBack(buf, str, tmp, i, d);
    ghost var s5 := buf[..str];
    str, unused := Fill(buf, str, ' ', size);
    assert buf[..str] == s5 + Trail(pad, f);
  }

  /** number: where the output ends in buf, or -1 for a base out of range. */
  method Number(buf: array<char>, start: nat, num0: Word, base: int, size0: int, precision0: int,
        flags: Flags) returns (str: int)
    requires 2 <= base <= 36 ==> start + |Printed(num0, base, size0, precision0, flags)| <= buf.Length
    requires start <= buf.Length
    modifies buf
    ensures base < 2 || base > 36 ==> str == -1
    ensures 2 <= base <= 36 ==>
              && start <= str <= buf.Length
              && buf[..str] == old(buf[..start]) + Printed(num0, base, size0, precision0, flags)
  {
    hide Digits;
    hide Repeat;
    hide SignOf;
    hide PrefixOf;
    hide Magnitude;
    hide Printed;
    var f := if flags.left then flags.(zeropad := false) else flags;
    if base < 2 || base > 36 {
      return -1;
    }
    var precision := precision0;
    var sign, num, size := TakeSign(num0, size0, f);
    SamePrinted(num0, base, size0, precision0, flags, f);
    if f.special {
      if base == 16 {
        size := size - 2;
      } else if base == 8 {
        size := size - 1;
      }
    }
    PrefixLength(base, f);
    PrintedLength(num0, base, size0, precision0, f);
    var tmp := new char[66];
    var i := Collect(num, base, f, tmp);
    if i > precision {
      precision := i;
    }
    size := size - precision;
    ghost var s0, d := buf[..start], Digits(num, base, f);
    str := Emit(buf, start, sign, base, tmp, i, d, size, precision - i, f);
    Assemble(s0, num0, base, size0, precision0, f, precision - i);
  }

  /** The pieces put one after the other. */
  lemma Assemble(s0: string, num: Word, base: nat, size: int, precision: int, f: Flags, extra: nat)
    requires 2 <= base <= 36
    requires var d := Digits(Magnitude(num, f), base, f); extra == Max(precision, |d|) - |d|
    ensures var pad, d := size - Width(num, base, precision, f), Digits(Magnitude(num, f), base, f);
      s0 + Blanks(pad, f) + SignOf(num, f) + PrefixOf(base, f) + Zeros(pad, f) + Repeat('0', extra) + d + Trail(pad, f)
      == s0 + Printed(num, base, size, precision, f)
  {
    hide Digits;
    hide SignOf;
    hide PrefixOf;
    hide Magnitude;
    hide Blanks;
    hide Zeros;
    hide Trail;
    var pad, d := size - Width(num, base, precision, f), Digits(Magnitude(num, f), base, f);
    assert Repeat('0', precision - |d|) == Repeat('0', extra) by { RepeatNone(); }
    hide Repeat;
    hide Width;
    Assoc(s0, Blanks(pad, f), SignOf(num, f), PrefixOf(base, f), Zeros(pad, f), Repeat('0', extra), d, Trail(pad, f));
  }

  lemma Assoc(s: string, a: string, b: string, c: string, d: string, e: string, f: string, g: string)
    ensures s + a + b + c + d + e + f + g == s + (a + (b + (c + (d + (e + (f + g))))))
  {
  }

  lemma SamePrinted(num: Word, base: nat, size: int, precision: int, f: Flags, g: Flags)
    requires 2 <= base <= 36 && g == if f.left then f.(zeropad := false) else f
    ensures Printed(num, base, size, precision, f) == Printed(num, base, size, precision, g)
    ensures |SignOf(num, f)| <= 1 && |SignOf(num, g)| <= 1
  {
    hide Digits;
    hide Repeat;
    SameParts(num, base, f, g);
  }

  lemma RepeatNone()
    ensures forall c, n :: n <= 0 ==> Repeat(c, n) == ""
  {
  }

  lemma PrefixLength(base: nat, f: Flags)
    ensures |PrefixOf(base, f)| == if !f.special then 0 else if base == 16 then 2 else if base == 8 then 1 else 0
  {
  }

  /** Left justification switches zero padding off, which changes nothing else. */
  lemma SameParts(num: Word, base: nat, f: Flags, g: Flags)
    requires 2 <= base <= 36 && g == f.(zeropad := g.zeropad)
    ensures SignOf(num, f) == SignOf(num, g) && PrefixOf(base, f) == PrefixOf(base, g)
          && Magnitude(num, f) == Magnitude(num, g)
    ensures Digits(Magnitude(num, f), base, f) == Digits(Magnitude(num, g), base, g)
    ensures |SignOf(num, f)| <= 1
  {
    SameDigits(Magnitude(num, f), base, f, g);
  }

  lemma {:induction false} SameDigits(n: nat, base: nat, f: Flags, g: Flags)
    requires 2 <= base <= 36 && f.large == g.large
    ensures Digits(n, base, f) == Digits(n, base, g)
    decreases n
  {
    if n >= base {
      Half(n, base);
      SameDigits(n / base, base, f, g);
    }
  }

  // ----- Reading -----

  /** The value of a hexadecimal digit, or 16 for any other character. */
  function Value(c: char): nat
  {
    if '0' <= c <= '9' then (c as int) - ('0' as int)
    else if 'a' <= c <= 'f' then (c as int) - ('a' as int) + 10
    else if 'A' <= c <= 'F' then (c as int) - ('A' as int) + 10
    else 16
  }

  /** The character at cp; a string ends with a zero byte. */
  function CharAt(s: string, i: nat): char
  {
    if i < |s| then s[i] else '\0'
  }

  /** The digits at the start of s read onto acc, in 32-bit arithmetic, and how many they are. */
  function Scan(s: string, base: nat, acc: Word): (Word, nat)
  {
    if s == "" || Value(s[0]) >= 16 || Value(s[0]) >= base then (acc, 0)
    else
      var (r, n) := Scan(s[1..], base, (acc * base + Value(s[0])) % W32);
      (r, n + 1)
  }

  /** The base that base 0 stands for, and the length of the prefix. */
  function BaseOf(s: string, base: nat): (nat, nat)
  {
    if base != 0 then (base, 0)
    else if CharAt(s, 0) != '0' then (10, 0)
    else if CharAt(s, 1) == 'x' && Value(CharAt(s, 2)) < 16 then (16, 2)
    else (8, 1)
  }

  /** What simple_strtoul reads and where it stops. */
  function Read(s: string, base: nat): (Word, nat)
  {
    var (b, k) := BaseOf(s, base);
    var (r, n) := Scan(if k <= |s| then s[k..] else "", b, 0);
    (r, k + n)
  }

  /** simple_strtoul */
  method SimpleStrtoul(s: string, base0: nat) returns (result: Word, cp: nat)
    ensures (result, cp) == Read(s, base0)
  {
    var base := base0;
    result, cp := 0, 0;
    if base == 0 {
      base := 10;
      if CharAt(s, cp) == '0' {
        base := 8;
        cp := cp + 1;
        if CharAt(s, cp) == 'x' && Value(CharAt(s, cp + 1)) < 16 {
          cp := cp + 1;
          base := 16;
        }
      }
    }
    ghost var start, rest := cp, s[cp..];
    ghost var goal := Scan(rest, base, 0);
    while Value(CharAt(s, cp)) < 16 && Value(CharAt(s, cp)) < base
      invariant start <= cp <= |s|
      invariant Scan(s[cp..], base, result).0 == goal.0 && Scan(s[cp..], base, result).1 + (cp - start) == goal.1
      decreases |s| - cp
    {
      assert s[cp..][1..] == s[cp + 1..];
      result := (result * base + Value(CharAt(s, cp))) % W32;
      cp := cp + 1;
    }
  }

  /** What simple_strtol reads, as the 32-bit pattern of a long. */
  function ReadSigned(s: string, base: nat): Word
  {
    if CharAt(s, 0) == '-' then Negate(Read(s[1..], base).0) else Read(s, base).0
  }

  method SimpleStrtol(s: string, base: nat) returns (result: Word)
    ensures result == ReadSigned(s, base)
  {
    var cp;
    if CharAt(s, 0) == '-' {
      result, cp := SimpleStrtoul(s[1..], base);
      result := Negate(result);
    } else {
      result, cp := SimpleStrtoul(s, base);
    }
  }

  // ----- Reading what was printed -----

  predicate AllDigits(s: string, base: nat)
  {
    forall i :: 0 <= i < |s| ==> Value(s[i]) < 16 && Value(s[i]) < base
  }

  lemma {:induction false} ScanAppend(a: string, b: string, base: nat, acc: Word)
    requires AllDigits(a, base)
    ensures Scan(a + b, base, acc).0 == Scan(b, base, Scan(a, base, acc).0).0
  {
    if a == "" {
      assert a + b == b;
    } else {
      assert (a + b)[1..] == a[1..] + b;
      ScanAppend(a[1..], b, base, (acc * base + Value(a[0])) % W32);
    }
  }

  lemma {:induction false} ScanZeros(n: int, base: nat)
    requires base > 0
    ensures AllDigits(Repeat('0', n), base) && Scan(Repeat('0', n), base, 0).0 == 0
  {
    if n > 0 {
      ScanZeros(n - 1, base);
      ScanAppend(Repeat('0', n - 1), "0", base, 0);
      assert "0"[1..] == "";
    }
  }

  lemma LetterValue(v: nat, f: Flags)
    requires v < 16
    ensures Value(f.Letters()[v]) == v
  {
    assert v == 0 || v == 1 || v == 2 || v == 3 || v == 4 || v == 5 || v == 6 || v == 7
        || v == 8 || v == 9 || v == 10 || v == 11 || v == 12 || v == 13 || v == 14 || v == 15;
  }

  lemma ScanOne(c: char, base: nat, acc: Word)
    requires Value(c) < 16 && Value(c) < base
    ensures Scan([c], base, acc).0 == (acc * base + Value(c)) % W32
  {
    assert [c][1..] == "";
  }

  /** Scanning that ends inside a ends there whatever follows. */
  lemma {:induction false} ScanStuck(a: string, b: string, base: nat, acc: Word)
    requires !AllDigits(a, base)
    ensures Scan(a + b, base, acc).0 == Scan(a, base, acc).0
  {
    assert (a + b)[0] == a[0];
    if Value(a[0]) < 16 && Value(a[0]) < base {
      assert (a + b)[1..] == a[1..] + b;
      assert !AllDigits(a[1..], base);
      ScanStuck(a[1..], b, base, (acc * base + Value(a[0])) % W32);
    }
  }

  /** Every digit of n in this base is one the reader takes for a digit. */
  predicate HexDigits(n: nat, base: nat)
    requires 2 <= base <= 36
    decreases n
  {
    n % base < 16 && (n < base || (Half(n, base); HexDigits(n / base, base)))
  }

  lemma {:induction false} HexUpTo16(n: nat, base: nat)
    requires 2 <= base <= 16
    ensures HexDigits(n, base)
    decreases n
  {
    if n >= base {
      Half(n, base);
      HexUpTo16(n / base, base);
    }
  }

  lemma LetterAbove(v: nat, f: Flags)
    requires 16 <= v < 36
    ensures Value(f.Letters()[v]) >= 16
  {
    assert v == 16 || v == 17 || v == 18 || v == 19 || v == 20 || v == 21 || v == 22 || v == 23 || v == 24 || v == 25
        || v == 26 || v == 27 || v == 28 || v == 29 || v == 30 || v == 31 || v == 32 || v == 33 || v == 34 || v == 35;
  }

  /** The value a digit is read as. */
  lemma DigitRead(v: nat, f: Flags)
    requires v < 36
    ensures var c := Value(f.Letters()[v]); if v < 16 then c == v else c >= 16
  {
    if v < 16 { LetterValue(v, f); } else { LetterAbove(v, f); }
  }

  /**
   Digits printed in one base and read in the same or a smaller one: never more than n, and n itself exactly when the
   bases agree and the reader knows all the digits, or there is but one digit that it knows.
   */
  lemma {:induction false} ScanDigits(n: Word, base: nat, e: nat, f: Flags)
    requires 2 <= e <= base <= 36
    ensures ReadAs(Scan(Digits(n, base, f), e, 0).0, n, base, e)
    decreases n
  {
    hide *;
    if n < base {
      ScanStart(n, base, e, f);
    } else {
      var q, r := MoreDigits(n, base, f);
      ScanDigits(q, base, e, f);
      ScanStep(n, base, e, f, q, r);
    }
  }

  /** v comes out of reading n: not more, and the same exactly when the reader knows the digits and their base. */
  predicate ReadAs(v: int, n: nat, base: nat, e: nat)
    requires 2 <= base <= 36
  {
    v <= n && (v == n <==> n == 0 || (e == base && HexDigits(n, base)) || (n < e && n < 16))
  }

  lemma OneDigit(n: nat, base: nat, f: Flags)
    requires 2 <= base <= 36 && n < base
    ensures Digits(n, base, f) == [f.Letters()[n]] && (HexDigits(n, base) <==> n < 16)
  {
    DivModUnique(n, base, 0, n);
  }

  predicate IsSplit(n: nat, base: nat, q: nat, r: nat)
  {
    n == q * base + r
  }

  /** All digits but the last, and the last. */
  lemma MoreDigits(n: nat, base: nat, f: Flags) returns (q: nat, r: nat)
    requires 2 <= base <= 36 && n >= base
    ensures 0 < q < n && r < base && IsSplit(n, base, q, r)
    ensures Digits(n, base, f) == Digits(q, base, f) + [f.Letters()[r]]
    ensures HexDigits(n, base) <==> r < 16 && HexDigits(q, base)
  {
    hide Flags.Letters;
    Half(n, base);
    q, r := n / base, n % base;
  }

  lemma ScanStart(n: Word, base: nat, e: nat, f: Flags)
    requires 2 <= e <= base <= 36 && n < base
    ensures ReadAs(Scan(Digits(n, base, f), e, 0).0, n, base, e)
  {
    hide *;
    OneDigit(n, base, f);
    DigitRead(n, f);
    ScanLast(f.Letters()[n], e, 0);
    SmallRead(n, base, e);
  }

  lemma SmallRead(n: nat, base: nat, e: nat)
    requires 2 <= e <= base <= 36 && n < base && (HexDigits(n, base) <==> n < 16)
    ensures ReadAs(if n < 16 && n < e then n else 0, n, base, e)
  {
    hide HexDigits;
  }

  lemma ScanStep(n: Word, base: nat, e: nat, f: Flags, q: Word, r: nat)
    requires 2 <= e <= base <= 36 && 0 < q && r < base && IsSplit(n, base, q, r)
    requires Digits(n, base, f) == Digits(q, base, f) + [f.Letters()[r]]
    requires HexDigits(n, base) <==> r < 16 && HexDigits(q, base)
    requires ReadAs(Scan(Digits(q, base, f), e, 0).0, q, base, e)
    ensures ReadAs(Scan(Digits(n, base, f), e, 0).0, n, base, e)
  {
    hide *;
    var d, last := Digits(q, base, f), f.Letters()[r];
    var w := Scan(d, e, 0).0;
    DigitRead(r, f);
    var x := StepRead(w, q, r, e, base, n);
    if AllDigits(d, e) {
      ScanAppend(d, [last], e, 0);
      ScanLast(last, e, w);
    } else {
      ScanStuck(d, [last], e, 0);
      if e == base && HexDigits(q, base) { AllRead(q, base, f); }
    }
  }

  /** One more digit read, or the end of the number. */
  lemma StepRead(w: nat, q: nat, r: nat, e: nat, base: nat, n: Word) returns (x: nat)
    requires 2 <= e <= base <= 36 && 0 < q && r < base && IsSplit(n, base, q, r) && ReadAs(w, q, base, e)
    requires HexDigits(n, base) <==> r < 16 && HexDigits(q, base)
    ensures x == (w * e + r) % W32 && (r < 16 && r < e ==> ReadAs(x, n, base, e))
    ensures !(r < 16 && r < e) || !(e == base && HexDigits(q, base)) ==> ReadAs(w, n, base, e)
  {
    hide HexDigits;
    x := Smaller(w, q, r, e, base, n);
    NoWrap(x);
    StepLogic(x, w, q, r, e, base, n);
  }

  lemma StepLogic(x: nat, w: nat, q: nat, r: nat, e: nat, base: nat, n: nat)
    requires 2 <= e <= base <= 36 && 0 < q < n && r < base <= n && ReadAs(w, q, base, e)
    requires x <= n && (x == n <==> w == q && e == base)
    requires HexDigits(n, base) <==> r < 16 && HexDigits(q, base)
    ensures r < 16 && r < e ==> ReadAs(x, n, base, e)
    ensures !(r < 16 && r < e) || !(e == base && HexDigits(q, base)) ==> ReadAs(w, n, base, e)
  {
    hide HexDigits;
    if q < base && q < 16 { HexOne(q, base); }
  }

  /** One known digit is all known digits. */
  lemma HexOne(n: nat, base: nat)
    requires 2 <= base <= 36 && n < base && n < 16
    ensures HexDigits(n, base)
  {
    DivModUnique(n, base, 0, n);
  }

  lemma NoWrap(x: nat)
    requires x < W32
    ensures x % W32 == x
  {
  }

  /** The last character is read as one more digit, or ends the number. */
  lemma ScanLast(c: char, e: nat, acc: Word)
    ensures Scan([c], e, acc).0 == if Value(c) < 16 && Value(c) < e then (acc * e + Value(c)) % W32 else acc
  {
    if Value(c) < 16 && Value(c) < e { ScanOne(c, e, acc); }
  }

  /** In a smaller base, or onto a smaller value, less comes out. */
  lemma Smaller(w: nat, q: nat, r: nat, e: nat, base: nat, n: nat) returns (x: nat)
    requires w <= q && 0 < q && 2 <= e <= base && IsSplit(n, base, q, r)
    ensures x == w * e + r <= n && q < n && base <= n
    ensures x == n <==> w == q && e == base
  {
    MulMono(0, w, e);
    MulMono(w, q, e);
    MulMono(e, base, q);
    MulMono(1, q, base);
    MulMono(2, base, q);
    x := w * e + r;
    if w < q {
      MulMono(w + 1, q, e);
      SumTimes(w, 1, e);
    } else if e < base {
      MulMono(e + 1, base, q);
      SumTimes(e, 1, q);
    }
  }

  lemma {:induction false} AllRead(n: nat, base: nat, f: Flags)
    requires 2 <= base <= 36 && HexDigits(n, base)
    ensures AllDigits(Digits(n, base, f), base)
    decreases n
  {
    hide Flags.Letters;
    hide Value;
    hide Digits;
    hide HexDigits;
    if n < base {
      OneDigit(n, base, f);
      DigitRead(n, f);
    } else {
      var q, r := MoreDigits(n, base, f);
      DigitRead(r, f);
      AllRead(q, base, f);
    }
  }

  // ----- Octal digits taken for decimal ones -----

  /** The number that the octal digits of n are in decimal. */
  function AsDecimal(n: nat): (r: nat)
    ensures r >= n && (n >= 8 ==> r > n)
  {
    if n < 8 then n else 10 * AsDecimal(n / 8) + n % 8
  }

  lemma {:induction false} ScanOctal(n: Word, f: Flags)
    ensures Scan(Digits(n, 8, f), 10, 0).0 == AsDecimal(n) % W32
    decreases n
  {
    hide Flags.Letters;
    hide Scan;
    hide Value;
    hide Digits;
    hide HexDigits;
    if n < 8 {
      OneDigit(n, 8, f);
      DigitRead(n, f);
      ScanLast(f.Letters()[n], 10, 0);
    } else {
      var q, r := MoreDigits(n, 8, f);
      DivModUnique(n, 8, q, r);
      ScanOctal(q, f);
      HexUpTo16(q, 8);
      AllRead(q, 8, f);
      DigitRead(r, f);
      ScanAppend(Digits(q, 8, f), [f.Letters()[r]], 10, 0);
      ScanLast(f.Letters()[r], 10, AsDecimal(q) % W32);
      ModStep(AsDecimal(q), r);
    }
  }

  lemma ModStep(x: nat, r: nat)
    ensures (x % W32 * 10 + r) % W32 == (10 * x + r) % W32
  {
    var k, w := x / W32, x % W32;
    var j, m := (w * 10 + r) / W32, (w * 10 + r) % W32;
    DivModUnique(10 * x + r, W32, 10 * k + j, m);
  }

  function Power(b: nat, i: nat): (p: nat)
    ensures b > 0 ==> p > 0
  {
    if i == 0 then 1 else b * Power(b, i - 1)
  }

  /** How much more digit i counts in decimal. */
  function Gap(i: nat): int
  {
    Power(10, i) - Power(8, i)
  }

  lemma {:induction false} GapGrows(i: nat)
    ensures 8 * Gap(i) < Gap(i + 1) && (i > 0 ==> Gap(i) > 0)
  {
    if i > 0 { GapGrows(i - 1); }
  }

  /** The leading digit counts for itself. */
  lemma {:induction false} LeadingDigit(n: nat, i: nat, d: nat, m: nat)
    requires d < 8 && m < Power(8, i) && n == d * Power(8, i) + m
    ensures AsDecimal(n) == d * Power(10, i) + AsDecimal(m)
  {
    hide AsDecimal;
    if i > 0 {
      var p := d * Power(8, i - 1);
      Times(d, 8, Power(8, i - 1));
      Times(d, 10, Power(10, i - 1));
      DivModUnique(n, 8, p + m / 8, m % 8);
      LeadingDigit(p + m / 8, i - 1, d, m / 8);
      OneMore(n);
      OneMore(m);
    } else {
      OneMore(n);
      OneMore(m);
      OnlyDigit(d);
    }
  }

  lemma Times(d: nat, b: nat, p: nat)
    ensures d * (b * p) == b * (d * p) && d * p >= 0
  {
    MulAssoc(d, b, p);
    MulAssoc(b, d, p);
    assert d * b == b * d;
  }

  lemma OnlyDigit(d: nat)
    requires d < 8
    ensures AsDecimal(d) == d && AsDecimal(0) == 0
  {
  }

  lemma OneMore(n: nat)
    ensures AsDecimal(n) == 10 * AsDecimal(n / 8) + n % 8
  {
    if n < 8 { DivModUnique(n, 8, 0, n); }
  }

  /** x is a sum of gaps, each taken at most seven times: the only way to find it is from the largest down. */
  predicate GapSum(x: int, i: nat)
    decreases i
  {
    if i == 0 then x == 0 else Gap(i) > 0 && x / Gap(i) <= 7 && GapSum(x % Gap(i), i - 1)
  }

  lemma Unfold(x: int, i: nat, d: int, rest: int)
    requires i > 0 && x == d * Gap(i) + rest && 0 <= rest < Gap(i)
    ensures GapSum(x, i) <==> d <= 7 && GapSum(rest, i - 1)
  {
    hide Gap;
    DivModUnique(x, Gap(i), d, rest);
  }

  /** How much more the digits of n count in decimal is such a sum; d bounds the leading digit. */
  lemma {:induction false} ExcessIsSum(n: nat, i: nat, d: nat)
    requires d < 8 && n < (d + 1) * Power(8, i)
    ensures GapSum(AsDecimal(n) - n, i)
    ensures AsDecimal(n) - n <= d * Gap(i) + (if i == 0 then 0 else Gap(i) - 1)
    decreases i
  {
    hide *;
    if i > 0 {
      var t, m := TopDigit(n, Power(8, i), d);
      LeadingDigit(n, i, t, m);
      SmallerPower(i);
      ExcessIsSum(m, i - 1, 7);
      GapGrows(i - 1);
      GapGrows(i);
      NoGap();
      Difference(t, i, AsDecimal(m), m);
      Unfold(AsDecimal(n) - n, i, t, AsDecimal(m) - m);
      MulMono(t, d, Gap(i));
    } else {
      OneOctal(n, d);
    }
  }

  lemma TopDigit(n: nat, p: nat, d: nat) returns (t: nat, m: nat)
    requires p > 0 && n < (d + 1) * p
    ensures n == t * p + m && m < p && t <= d
  {
    DivNonnegative(n, p);
    t, m := n / p, n % p;
    MulLess(t, d + 1, p);
  }

  lemma SmallerPower(i: nat)
    requires i > 0
    ensures Power(8, i) == (7 + 1) * Power(8, i - 1)
  {
  }

  lemma NoGap()
    ensures Gap(0) == 0
  {
  }

  lemma OneOctal(n: nat, d: nat)
    requires d < 8 && n < (d + 1) * Power(8, 0)
    ensures GapSum(AsDecimal(n) - n, 0) && AsDecimal(n) - n <= d * Gap(0)
  {
    assert Power(8, 0) == 1 && AsDecimal(n) == n;
  }

  lemma Difference(t: nat, i: nat, x: nat, m: nat)
    ensures t * Power(10, i) + x - (t * Power(8, i) + m) == t * Gap(i) + (x - m)
  {
    assert t * (Power(10, i) - Power(8, i)) == t * Power(10, i) - t * Power(8, i);
  }

  lemma Gaps()
    ensures Gap(10) == 8926258176 && Gap(9) == 865782272 && Gap(8) == 83222784 && Gap(7) == 7902848
    ensures Power(8, 10) == 0x4000_0000
  {
  }

  /** No multiple of 2^32 in reach is such a sum. */
  lemma NoMultiple(k: nat, x: nat)
    requires 1 <= k <= 8 && x == k * W32
    ensures !GapSum(x, 10)
  {
    hide Gap;
    hide GapSum;
    hide Power;
    Gaps();
    if k == 1 {
      Unfold(x, 10, 0, 4294967296); Unfold(4294967296, 9, 4, 831838208); Unfold(831838208, 8, 9, 82833152);
    } else if k == 2 {
      Unfold(x, 10, 0, 8589934592); Unfold(8589934592, 9, 9, 797894144);
    } else if k == 3 {
      Unfold(x, 10, 1, 3958643712); Unfold(3958643712, 9, 4, 495514624);
      Unfold(495514624, 8, 5, 79400704); Unfold(79400704, 7, 10, 372224);
    } else if k == 4 {
      Unfold(x, 10, 1, 8253611008); Unfold(8253611008, 9, 9, 461570560);
    } else if k == 5 {
      Unfold(x, 10, 2, 3622320128); Unfold(3622320128, 9, 4, 159191040);
      Unfold(159191040, 8, 1, 75968256); Unfold(75968256, 7, 9, 4842624);
    } else if k == 6 {
      Unfold(x, 10, 2, 7917287424); Unfold(7917287424, 9, 9, 125246976);
    } else if k == 7 {
      Unfold(x, 10, 3, 3285996544); Unfold(3285996544, 9, 3, 688649728);
      Unfold(688649728, 8, 8, 22867456);
    } else {
      Unfold(x, 10, 3, 7580963840); Unfold(7580963840, 9, 8, 654705664);
    }
  }

  /** Even with wrap-around, octal digits mean the same in decimal only when there is one. */
  lemma OctalIsDecimal(n: Word)
    ensures AsDecimal(n) % W32 == n <==> n < 8
  {
    hide Gap;
    hide Power;
    hide GapSum;
    Gaps();
    ExcessIsSum(n, 10, 3);
    if n >= 8 && AsDecimal(n) % W32 == n {
      var k := AsDecimal(n) / W32;
      assert AsDecimal(n) - n == k * W32;
      NoMultiple(k, AsDecimal(n) - n);
    }
  }

  // ----- The whole output -----

  /** What follows the sign and the prefix. */
  function Body(n: Word, base: nat, pad: int, extra: int, f: Flags): string
    requires 2 <= base <= 36
  {
    Zeros(pad, f) + (Repeat('0', extra) + (Digits(n, base, f) + Trail(pad, f)))
  }

  lemma ScanBlank(s: string, base: nat, acc: Word)
    requires s == "" || s[0] == ' '
    ensures Scan(s, base, acc).0 == acc
  {
  }

  lemma ScanEnds(d: string, t: string, e: nat)
    requires t == "" || t[0] == ' '
    ensures Scan(d + t, e, 0).0 == Scan(d, e, 0).0
  {
    if AllDigits(d, e) {
      ScanAppend(d, t, e, 0);
      ScanBlank(t, e, Scan(d, e, 0).0);
    } else {
      ScanStuck(d, t, e, 0);
    }
  }

  /** Leading zeros and trailing blanks do not matter. */
  lemma ScanBody(n: Word, base: nat, pad: int, extra: int, f: Flags, e: nat)
    requires 2 <= base <= 36 && 2 <= e
    ensures Scan(Body(n, base, pad, extra, f), e, 0).0 == Scan(Digits(n, base, f), e, 0).0
  {
    hide Scan;
    hide Digits;
    hide Value;
    hide Repeat;
    var d, t := Digits(n, base, f), Trail(pad, f);
    var zeros := if f.zeropad && !f.left then pad else 0;
    assert Zeros(pad, f) == Repeat('0', zeros) by { RepeatNone(); }
    ScanZeros(zeros, e);
    ScanZeros(extra, e);
    ScanEnds(d, t, e);
    ScanAppend(Repeat('0', extra), d + t, e, 0);
    ScanAppend(Repeat('0', zeros), Repeat('0', extra) + (d + t), e, 0);
  }

  /** The digits are preceded by zeros of the padding or the precision. */
  predicate Leading(pad: int, extra: int, f: Flags)
  {
    (f.zeropad && !f.left && pad > 0) || extra > 0
  }

  /** What a character of a number can be. */
  predicate Starts(c: char, v: nat)
  {
    c != '-' && c != ' ' && c != '+' && (c == '0' <==> v == 0) && (v < 16 ==> Value(c) < 16)
  }

  lemma LetterStarts(v: nat, f: Flags)
    requires v < 36
    ensures Starts(f.Letters()[v], v)
  {
    DigitRead(v, f);
    if v >= 16 { LetterAbove(v, f); } else { LetterValue(v, f); }
  }

  lemma {:induction false} FirstDigit(n: nat, base: nat, f: Flags)
    requires 2 <= base <= 36
    ensures var c := Digits(n, base, f)[0];
      c != '-' && c != ' ' && c != '+' && (c == '0' <==> n == 0) && (base <= 16 ==> Value(c) < 16)
    decreases n
  {
    hide Flags.Letters;
    hide Value;
    if n >= base {
      Half(n, base);
      FirstDigit(n / base, base, f);
    } else {
      LetterStarts(n, f);
    }
  }

  /** The body starts with a zero or with the first digit. */
  lemma BodyStart(n: Word, base: nat, pad: int, extra: int, f: Flags)
    requires 2 <= base <= 36
    ensures var s := Body(n, base, pad, extra, f);
      s != "" && s[0] == if Leading(pad, extra, f) then '0' else Digits(n, base, f)[0]
  {
    hide Digits;
  }

  /** After leading zeros comes no 'x' either. */
  lemma {:induction false} NoX(n: nat, base: nat, f: Flags)
    requires 2 <= base <= 16
    ensures forall i :: 0 <= i < |Digits(n, base, f)| ==> Value(Digits(n, base, f)[i]) < 16
  {
    hide Digits;
    HexUpTo16(n, base);
    AllRead(n, base, f);
  }

  lemma BodyHasNoX(n: Word, base: nat, pad: int, extra: int, f: Flags)
    requires 2 <= base <= 16
    ensures var s := Body(n, base, pad, extra, f); forall i :: 0 <= i < |s| ==> s[i] != 'x'
  {
    hide Digits;
    NoX(n, base, f);
  }

  /** Base 0 and no prefix: a leading zero makes the number octal, anything else makes it decimal. */
  lemma ReadPlain(n: Word, base: nat, pad: int, extra: int, f: Flags)
    requires 2 <= base <= 16
    ensures Read(Body(n, base, pad, extra, f), 0).0
            == Scan(Digits(n, base, f), if Leading(pad, extra, f) || n == 0 then 8 else 10, 0).0
  {
    hide Body;
    hide Digits;
    hide Scan;
    hide Value;
    var s := Body(n, base, pad, extra, f);
    BodyStart(n, base, pad, extra, f);
    FirstDigit(n, base, f);
    BodyHasNoX(n, base, pad, extra, f);
    ScanBody(n, base, pad, extra, f, 8);
    ScanBody(n, base, pad, extra, f, 10);
    if s[0] == '0' { ScanFirst(s, 8); }
    assert s[0..] == s;
  }

  /** The reader is told the base, and the output has no prefix, or base 0 and the output tells the base. */
  predicate Fits(n: nat, base: nat, leading: bool, f: Flags, b: nat)
    requires 2 <= base <= 36
  {
    if b == base then !(f.special && base == 16) && HexDigits(n, base)
    else if f.special && base == 8 then true
    else if f.special && base == 16 then !f.large
    else if leading then base == 8 || n < 8
    else base == 10 || n < (if base == 8 then 8 else 10)
  }

  /** The bases considered for reading: the one printed, or 0 for octal, decimal and hexadecimal output. */
  predicate Readable(base: nat, b: nat)
  {
    b == base || (b == 0 && (base == 8 || base == 10 || base == 16))
  }

  /** What the reader makes of everything after the sign. */
  lemma ReadPrefixed(n: Word, base: nat, pad: int, extra: int, f: Flags, b: nat)
    requires 2 <= base <= 36 && Readable(base, b)
    ensures Read(PrefixOf(base, f) + Body(n, base, pad, extra, f), b).0 == n
            <==> n == 0 || Fits(n, base, Leading(pad, extra, f), f, b)
  {
    hide Body;
    hide Digits;
    hide Scan;
    hide HexDigits;
    hide AsDecimal;
    hide Leading;
    var body, p := Body(n, base, pad, extra, f), PrefixOf(base, f);
    BodyStart(n, base, pad, extra, f);
    FirstDigit(n, base, f);
    ScanDigits(n, base, base, f);
    ScanBody(n, base, pad, extra, f, base);
    if base <= 16 { HexUpTo16(n, base); }
    if n < base && n < 16 { HexOne(n, base); }
    if p == "" {
      assert p + body == body && body[0..] == body;
      if b == 0 {
        ReadPlain(n, base, pad, extra, f);
        ScanDigits(n, base, 8, f);
        if base == 8 {
          ScanOctal(n, f);
          OctalIsDecimal(n);
        } else {
          ScanDigits(n, base, 10, f);
        }
      }
    } else if p == "0" {
      assert (p + body)[1..] == body && (p + body)[0..] == p + body;
      ScanFirst(p + body, 8);
    } else {
      assert p == ['0', f.Letters()[33]] && f.Letters()[33] == if f.large then 'X' else 'x';
      HexRead(p[1], body, b);
      assert ['0', p[1]] == p;
    }
  }

  lemma HexRead(x: char, body: string, b: nat)
    requires (x == 'x' || x == 'X') && body != "" && Value(body[0]) < 16 && (b == 16 || b == 0)
    ensures Read(['0', x] + body, b).0 == if b == 0 && x == 'x' then Scan(body, 16, 0).0 else 0
  {
    var s := ['0', x] + body;
    assert s[2..] == body && s[0..] == s && s[1..] == [x] + body;
    ScanStops(x, body, 8, 0);
    ScanStops(x, body, 16, 0);
    if b == 16 { ScanFirst(s, 16); }
  }

  lemma ScanStops(x: char, body: string, base: nat, acc: Word)
    requires x == 'x' || x == 'X'
    ensures Scan([x] + body, base, acc).0 == acc
  {
  }

  lemma ScanFirst(s: string, base: nat)
    requires s != "" && s[0] == '0' && base > 0
    ensures Scan(s, base, 0).0 == Scan(s[1..], base, 0).0
  {
  }

  lemma ReadNothing(s: string, b: nat)
    requires s != "" && (s[0] == ' ' || s[0] == '+')
    ensures Read(s, b).0 == 0
  {
    assert s[0..] == s;
  }

  /** The output starts with blanks. */
  predicate Indented(pad: int, f: Flags)
  {
    !f.left && !f.zeropad && pad > 0
  }

  /** The amount of padding. */
  function Pad(num: Word, base: nat, size: int, precision: int, f: Flags): int
    requires 2 <= base <= 36
  {
    size - Width(num, base, precision, f)
  }

  /** Zeros stand before the digits of the output. */
  predicate ZerosFirst(num: Word, base: nat, size: int, precision: int, f: Flags)
    requires 2 <= base <= 36
  {
    Leading(Pad(num, base, size, precision, f), precision - |Digits(Magnitude(num, f), base, f)|, f)
  }

  /**
   simple_strtoul undoes number on unsigned values unless the output is padded with blanks on the left, has a prefix
   the reader does not expect or digits beyond f, or zeros or a missing prefix mislead a reader with base 0.
   */
  lemma UnsignedRoundTrip(num: Word, base: nat, size: int, precision: int, f: Flags, b: nat)
    requires 2 <= base <= 36 && !f.sign && Readable(base, b)
    ensures Read(Printed(num, base, size, precision, f), b).0 == num
            <==> num == 0 || (Fits(num, base, ZerosFirst(num, base, size, precision, f), f, b)
                              && !Indented(Pad(num, base, size, precision, f), f))
  {
    hide Width;
    hide Digits;
    hide Magnitude;
    hide SignOf;
    hide PrefixOf;
    hide Body;
    hide Printed;
    hide Read;
    hide Fits;
    hide Leading;
    hide Blanks;
    hide Indented;
    var pad, extra := Pad(num, base, size, precision, f), precision - |Digits(Magnitude(num, f), base, f)|;
    PrintedParts(num, base, size, precision, f);
    NoSign(num, f);
    ReadPrefixed(num, base, pad, extra, f, b);
    BlanksNone(pad, f);
    var s := Printed(num, base, size, precision, f);
    if Indented(pad, f) {
      ReadNothing(s, b);
    } else {
      assert s == PrefixOf(base, f) + Body(num, base, pad, extra, f);
    }
  }

  lemma NoSign(num: Word, f: Flags)
    ensures !f.sign ==> SignOf(num, f) == "" && Magnitude(num, f) == num
    ensures f.sign && Negative(num) ==>
              && SignOf(num, f) == "-" && Magnitude(num, f) == Negate(num)
              && Negate(Negate(num)) == num && num != 0 && Negate(num) != 0
    ensures f.sign && !Negative(num) ==>
              && Magnitude(num, f) == num
              && if f.plus then SignOf(num, f) == "+" else if f.space then SignOf(num, f) == " " else SignOf(num, f) == ""
  {
  }

  lemma PrintedParts(num: Word, base: nat, size: int, precision: int, f: Flags)
    requires 2 <= base <= 36
    ensures var pad, n := size - Width(num, base, precision, f), Magnitude(num, f);
      Printed(num, base, size, precision, f)
      == Blanks(pad, f) + (SignOf(num, f) + (PrefixOf(base, f) + Body(n, base, pad, precision - |Digits(n, base, f)|, f)))
  {
    hide Digits;
    hide Repeat;
    hide Width;
    hide Blanks;
    hide Zeros;
    hide Trail;
    hide SignOf;
    hide PrefixOf;
  }

  lemma BlanksNone(pad: int, f: Flags)
    ensures !Indented(pad, f) ==> Blanks(pad, f) == ""
    ensures Indented(pad, f) ==> Blanks(pad, f) != "" && Blanks(pad, f)[0] == ' '
  {
  }

  /** And simple_strtol on signed values, down to the most negative, unless a plus or a blank stands for the sign. */
  lemma SignedRoundTrip(num: Word, base: nat, size: int, precision: int, f: Flags, b: nat)
    requires 2 <= base <= 36 && f.sign && Readable(base, b)
    ensures ReadSigned(Printed(num, base, size, precision, f), b) == num
            <==> num == 0 || (Fits(Magnitude(num, f), base, ZerosFirst(num, base, size, precision, f), f, b)
                              && !Indented(Pad(num, base, size, precision, f), f)
                              && (Negative(num) || (!f.plus && !f.space)))
  {
    hide Width;
    hide Digits;
    hide Magnitude;
    hide SignOf;
    hide PrefixOf;
    hide Body;
    hide Printed;
    hide Read;
    hide ReadSigned;
    hide Fits;
    hide Leading;
    hide Blanks;
    hide Indented;
    hide Negate;
    hide Negative;
    var n := Magnitude(num, f);
    var pad, extra := Pad(num, base, size, precision, f), precision - |Digits(n, base, f)|;
    var tail := PrefixOf(base, f) + Body(n, base, pad, extra, f);
    PrintedParts(num, base, size, precision, f);
    NoSign(num, f);
    ReadPrefixed(n, base, pad, extra, f, b);
    TailStart(n, base, pad, extra, f);
    BlanksNone(pad, f);
    var s := Printed(num, base, size, precision, f);
    if Indented(pad, f) {
      ReadNothing(s, b);
      SignedStart(s, b);
    } else {
      assert s == SignOf(num, f) + tail;
      SignedStart(s, b);
      if Negative(num) {
        assert s[1..] == tail;
        NegateOnce(Read(tail, b).0, n);
      } else if f.plus || f.space {
        ReadNothing(s, b);
      } else {
        assert s == tail;
      }
    }
  }

  lemma NegateOnce(x: Word, y: Word)
    ensures Negate(x) == Negate(y) <==> x == y
  {
  }

  lemma SignedStart(s: string, b: nat)
    requires s != ""
    ensures ReadSigned(s, b) == if s[0] == '-' then Negate(Read(s[1..], b).0) else Read(s, b).0
  {
  }

  lemma TailStart(n: Word, base: nat, pad: int, extra: int, f: Flags)
    requires 2 <= base <= 36
    ensures var t := PrefixOf(base, f) + Body(n, base, pad, extra, f); t != "" && t[0] != '-'
  {
    hide Body;
    hide Digits;
    BodyStart(n, base, pad, extra, f);
    FirstDigit(n, base, f);
  }

  /** Decimal output with a leading zero is read as octal in base 0, and so is 8 printed in three places as 0. */
  lemma OctalMisread()
    ensures var f := Flags(true, false, false, false, false, false, false);
      Printed(8, 10, 3, 0, f) == "008" && Read("008", 0).0 == 0
  {
    var f := Flags(true, false, false, false, false, false, false);
    assert Digits(8, 10, f) == "8";
    assert Width(8, 10, 0, f) == 1;
    assert Repeat('0', 2) == Repeat('0', 1) + ['0'] && Repeat('0', 1) == Repeat('0', 0) + ['0'];
    assert Printed(8, 10, 3, 0, f) == "008";
    assert "008"[1..] == "08" && "08"[1..] == "8";
  }
}
