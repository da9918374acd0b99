/** The output of number character by character, as the C standard describes it, and where simple_strtoul stops. */
module VsprintfForms {
  import opened Bits
  import opened Vsprintf

  // ----- Digits -----

  /** The value of a digit in the letters printed: 0 to 9, then a to z or A to Z. */
  function DigitValue(c: char, large: bool): int
  {
    if '0' <= c <= '9' then (c as int) - 48
    else if large then (if 'A' <= c <= 'Z' then (c as int) - 55 else -1)
    else if 'a' <= c <= 'z' then (c as int) - 87 else -1
  }

  /** The number that digits stand for, most significant first. */
  function ValueOf(s: string, base: nat, large: bool): int
  {
    if s == "" then 0 else ValueOf(s[..|s| - 1], base, large) * base + DigitValue(s[|s| - 1], large)
  }

  predicate InBase(s: string, base: nat, large: bool)
  {
    forall i :: 0 <= i < |s| ==> 0 <= DigitValue(s[i], large) < base
  }

  lemma LetterFor(v: nat, f: Flags)
    requires v < 36
    ensures DigitValue(f.Letters()[v], f.large) == v
  {
    if f.large { CapitalFor(v); } else { SmallFor(v); }
  }

  lemma SmallFor(v: nat)
    requires v < 36
    ensures SMALL[v] as int == if v < 10 then 48 + v else 87 + v
  {
  }

  lemma CapitalFor(v: nat)
    requires v < 36
    ensures CAPITAL[v] as int == if v < 10 then 48 + v else 55 + v
  {
  }

  lemma OneMore(s: string, c: char, base: nat, large: bool)
    requires InBase(s, base, large) && 0 <= DigitValue(c, large) < base
    ensures InBase(s + [c], base, large)
    ensures ValueOf(s + [c], base, large) == ValueOf(s, base, large) * base + DigitValue(c, large)
  {
    hide DigitValue;
    assert (s + [c])[..|s|] == s;
  }

  /** The digits printed are those of the number, in its base, and none of them is a leading zero. */
  lemma {:induction false} DigitsMean(n: nat, base: nat, f: Flags)
    requires 2 <= base <= 36
    ensures var d := Digits(n, base, f);
      InBase(d, base, f.large) && ValueOf(d, base, f.large) == n && (n > 0 ==> d[0] != '0') && (n == 0 ==> d == "0")
    decreases n
  {
    hide Flags.Letters;
    hide DigitValue;
    hide InBase;
    hide ValueOf;
    if n < base {
      LetterFor(n, f);
      ZeroLetter(n, f);
      NoDigits(base, f.large);
      OneMore("", f.Letters()[n], base, f.large);
      assert "" + [f.Letters()[n]] == [f.Letters()[n]];
    } else {
      var q, r := MoreDigits(n, base, f);
      DigitsMean(q, base, f);
      LetterFor(r, f);
      OneMore(Digits(q, base, f), f.Letters()[r], base, f.large);
    }
  }

  lemma NoDigits(base: nat, large: bool)
    ensures InBase("", base, large) && ValueOf("", base, large) == 0
  {
  }

  lemma ZeroLetter(v: nat, f: Flags)
    requires v < 36
    ensures f.Letters()[v] == '0' <==> v == 0
  {
    LetterFor(v, f);
  }

  // ----- Fields -----

  function Many(n: int, c: char): (s: string)
    ensures |s| == if n < 0 then 0 else n
  {
    seq(if n < 0 then 0 else n, i => c)
  }

  /** The sign of a signed conversion: "-", or what the flags + and blank ask for. */
  function Sign(num: Word, f: Flags): string
  {
    if f.sign && num >= 0x8000_0000 then "-"
    else if f.sign && f.plus then "+"
    else if f.sign && f.space then " "
    else ""
  }

  /** The prefix of the alternate form: 0 for octal, 0x or 0X for hexadecimal. */
  function Prefix(base: nat, f: Flags): string
  {
    if f.special && base == 8 then "0"
    else if f.special && base == 16 then (if f.large then "0X" else "0x")
    else ""
  }

  /** The absolute value of a signed number. */
  function Absolute(num: Word, f: Flags): nat
  {
    if f.sign && num >= 0x8000_0000 then 0x1_0000_0000 - num else num
  }

  /**
   The field: the digits are the number's absolute value, with at least as many as the precision asks for; sign and
   prefix are before them; the rest of the width is blanks behind if the field is left-justified, or zeros before the
   digits, or blanks in front.
   */
  lemma FieldIs(num: Word, base: nat, size: int, precision: int, f: Flags)
    requires 2 <= base <= 36
    ensures var d := Digits(Absolute(num, f), base, f);
      var body := Many(precision - |d|, '0') + d;
      var head := Sign(num, f) + Prefix(base, f);
      var rest := size - |head| - |body|;
      Printed(num, base, size, precision, f)
      == if f.left then head + body + Many(rest, ' ')
         else if f.zeropad then head + Many(rest, '0') + body
         else Many(rest, ' ') + head + body
  {
    hide Digits;
    SameSign(num, f);
    SamePrefix(base, f);
    hide SignOf;
    hide PrefixOf;
    hide Sign;
    hide Prefix;
    hide Magnitude;
    hide Absolute;
    var d := Digits(Absolute(num, f), base, f);
    var pad := size - Width(num, base, precision, f);
    SameMany(precision - |d|, '0');
    SameMany(pad, '0');
    SameMany(pad, ' ');
    hide Repeat;
    hide Many;
    Pieces(Blanks(pad, f), Sign(num, f), Prefix(base, f), Zeros(pad, f), Many(precision - |d|, '0'), d, Trail(pad, f));
  }

  lemma Pieces(a: string, b: string, c: string, z: string, p: string, d: string, t: string)
    ensures a + (b + (c + (z + (p + (d + t))))) == a + (b + c) + z + (p + d) + t
    ensures z == "" && a == "" ==> a + (b + c) + z + (p + d) + t == (b + c) + (p + d) + t
    ensures a == "" && t == "" ==> a + (b + c) + z + (p + d) + t == (b + c) + z + (p + d)
    ensures z == "" && t == "" ==> a + (b + c) + z + (p + d) + t == a + (b + c) + (p + d)
  {
  }

  lemma SameSign(num: Word, f: Flags)
    ensures SignOf(num, f) == Sign(num, f) && Magnitude(num, f) == Absolute(num, f)
  {
  }

  lemma SamePrefix(base: nat, f: Flags)
    ensures PrefixOf(base, f) == Prefix(base, f)
  {
    SmallFor(33);
    CapitalFor(33);
  }

  lemma {:induction false} SameMany(n: int, c: char)
    ensures Repeat(c, n) == Many(n, c)
  {
    if n > 0 { SameMany(n - 1, c); }
  }

  // ----- Where reading stops -----

  /** Reading in a base goes on to the first character that is no digit up to f of that base. */
  lemma {:induction false} StopsBehind(d: string, t: string, base: nat, acc: Word)
    requires forall i :: 0 <= i < |d| ==> DigitUpTo(d[i], base)
    requires t == "" || !DigitUpTo(t[0], base)
    ensures Scan(d + t, base, acc).1 == |d|
  {
    hide DigitUpTo;
    if d == "" {
      assert d + t == t;
      if t != "" { NoDigit(t[0], base); }
    } else {
      assert (d + t)[1..] == d[1..] + t && (d + t)[0] == d[0];
      IsADigit(d[0], base);
      StopsBehind(d[1..], t, base, (acc * base + Value(d[0])) % W32);
    }
  }

  /** A hexadecimal digit, in capital or small letters, below the base. */
  predicate DigitUpTo(c: char, base: nat)
  {
    || ('0' <= c <= '9' && (c as int) - 48 < base)
    || ('a' <= c <= 'f' && (c as int) - 87 < base)
    || ('A' <= c <= 'F' && (c as int) - 55 < base)
  }

  lemma NoDigit(c: char, base: nat)
    requires !DigitUpTo(c, base)
    ensures Value(c) >= 16 || Value(c) >= base
  {
  }

  lemma IsADigit(c: char, base: nat)
    requires DigitUpTo(c, base)
    ensures Value(c) < 16 && Value(c) < base
  {
  }

  /** The base taken for base 0: 16 behind "0x" and a hexadecimal digit, 8 behind any other 0, else 10. */
  lemma BaseTaken(s: string)
    ensures if |s| >= 3 && s[0] == '0' && s[1] == 'x' && DigitUpTo(s[2], 16)
            then Read(s, 0).0 == Read(s[2..], 16).0 && Read(s, 0).1 == 2 + Read(s[2..], 16).1
            else if s != "" && s[0] == '0'
            then Read(s, 0).0 == Read(s[1..], 8).0 && Read(s, 0).1 == 1 + Read(s[1..], 8).1
            else Read(s, 0) == Read(s, 10)
  {
    hide Scan;
    if |s| >= 3 {
      if DigitUpTo(s[2], 16) { IsADigit(s[2], 16); } else { NoDigit(s[2], 16); }
    }
    assert s[0..] == s;
  }

  /** With a base of its own everything is digits, and the reading stops behind them. */
  lemma ReadStops(d: string, t: string, base: nat)
    requires base > 0 && forall i :: 0 <= i < |d| ==> DigitUpTo(d[i], base)
    requires t == "" || !DigitUpTo(t[0], base)
    ensures Read(d + t, base).1 == |d|
  {
    hide DigitUpTo;
    hide Scan;
    StopsBehind(d, t, base, 0);
    assert (d + t)[0..] == d + t;
  }

  /** Only a minus is taken as a sign. */
  lemma SignTaken(s: string, base: nat)
    ensures ReadSigned(s, base)
            == if s != "" && s[0] == '-' then (0x1_0000_0000 - Read(s[1..], base).0) % 0x1_0000_0000
               else Read(s, base).0
  {
    hide Read;
  }
}
