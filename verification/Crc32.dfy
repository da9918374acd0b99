/** The CRC-32 of gzip (section 8 of RFC 1952): bit-at-a-time division, and the table form the code runs. */
module Crc32 {
  import opened Bits
  import opened BitStream

  /** The polynomial without its x^32 term, lowest power in the most significant bit. */
  const POLY: nat := 0xEDB88320

  /** One step of the division: shift the register towards bit 0 and subtract the polynomial if a one falls out. */
  function Step(c: nat): nat
  {
    if c % 2 == 1 then Xor(c / 2, POLY) else c / 2
  }

  function Steps(c: nat, n: nat): nat
    decreases n
  {
    if n == 0 then c else Steps(Step(c), n - 1)
  }

  /** Feed the low n bits of b to the register, least significant first. */
  function Feed(c: nat, b: nat, n: nat): nat
    decreases n
  {
    if n == 0 then c else Feed(Step(Xor(c, b % 2)), b / 2, n - 1)
  }

  /** The register after the bytes of s, one bit at a time. */
  function Register(c: nat, s: seq<Byte>): nat
  {
    if s == [] then c else Feed(Register(c, s[..|s| - 1]), s[|s| - 1], 8)
  }

  /** The checksum of a byte sequence. */
  function Crc(s: seq<Byte>): nat
  {
    Xor(Register(0xFFFFFFFF, s), 0xFFFFFFFF)
  }

  // ----- The division is linear -----

  /** What a step subtracts. */
  function Term(c: nat): nat
  {
    if c % 2 == 1 then POLY else 0
  }

  lemma StepIs(c: nat)
    ensures Step(c) == Xor(c / 2, Term(c))
  {
    XorZero(c / 2);
  }

  lemma StepLinear(x: nat, y: nat)
    ensures Step(Xor(x, y)) == Xor(Step(x), Step(y))
  {
    hide Xor;
    StepIs(x);
    StepIs(y);
    StepIs(Xor(x, y));
    hide Step;
    XorHalf(x, y);
    TermsCancel(x % 2 == 1, y % 2 == 1, POLY);
    XorSwap(x / 2, Term(x), y / 2, Term(y));
  }

  lemma TermsCancel(a: bool, b: bool, p: nat)
    ensures Xor(if a then p else 0, if b then p else 0) == if a != b then p else 0
  {
    XorSelf(p);
    XorZero(p);
  }

  lemma XorZero(x: nat)
    ensures Xor(x, 0) == x && Xor(0, x) == x
  {
  }

  lemma {:induction false} StepsLinear(x: nat, y: nat, n: nat)
    ensures Steps(Xor(x, y), n) == Xor(Steps(x, n), Steps(y, n))
    decreases n
  {
    if n > 0 {
      StepLinear(x, y);
      StepsLinear(Step(x), Step(y), n - 1);
    }
  }

  /** Feeding bits is dividing the register with the bits already added in. */
  lemma {:induction false} FeedIsSteps(c: nat, b: nat, n: nat)
    requires b < Pow2(n)
    ensures Feed(c, b, n) == Steps(Xor(c, b), n)
    decreases n
  {
    if n == 0 {
      XorZero(c);
    } else {
      var low, high := b % 2, b - b % 2;
      FeedIsSteps(Step(Xor(c, low)), b / 2, n - 1);
      assert b == Xor(low, high) by {
        XorDisjoint(low, b / 2, 1);
        assert Pow2(1) == 2;
      }
      XorAssoc(c, low, high);
      StepLinear(Xor(c, low), high);
      assert Step(high) == b / 2;
    }
  }

  /** Zeros fall out unchanged. */
  lemma {:induction false} StepsShift(h: nat, n: nat)
    ensures Steps(h * Pow2(n), n) == h
    decreases n
  {
    if n > 0 {
      MulAssoc(h, 2, Pow2(n - 1));
      MulAssoc(2, h, Pow2(n - 1));
      assert h * 2 == 2 * h;
      StepsShift(h, n - 1);
    }
  }

  /** The table step of flush_window: tab[(c ^ ch) & 0xff] ^ (c >> 8). */
  lemma TableStep(c: nat, ch: Byte)
    ensures Feed(c, ch, 8) == Xor(Steps(Low(Xor(c, ch), 8), 8), Shr(c, 8))
  {
    hide Xor;
    hide Steps;
    hide Feed;
    assert Pow2(8) == 256;
    FeedIsSteps(c, ch, 8);
    var x := Xor(c, ch);
    var h := Shr(x, 8);
    XorDisjoint(Low(x, 8), h, 8);
    StepsLinear(Low(x, 8), h * Pow2(8), 8);
    StepsShift(h, 8);
    XorShr(c, ch, 8);
    SplitUnique(ch, 8, 0, ch);
    XorZero(Shr(c, 8));
  }

  lemma {:induction false} StepsBound(c: nat, n: nat)
    requires c < 0x1_0000_0000
    ensures Steps(c, n) < 0x1_0000_0000
    decreases n
  {
    if n > 0 {
      PowThirtyTwo();
      XorBound(c / 2, POLY, 32);
      StepsBound(Step(c), n - 1);
    }
  }

  lemma PowThirtyTwo()
    ensures Pow2(32) == 0x1_0000_0000
  {
    Pow2Sixteen();
    Pow2Add(16, 16);
  }

  // ----- It is division by the polynomial -----

  /** Multiplication of polynomials over the two-element field, bit i being the coefficient of the i-th power. */
  function CarrylessMul(q: nat, g: nat): nat
  {
    if q == 0 then 0 else Xor(if q % 2 == 1 then g else 0, 2 * CarrylessMul(q / 2, g))
  }

  lemma XorDouble(a: nat, b: nat)
    ensures Xor(2 * a, 2 * b) == 2 * Xor(a, b)
  {
    XorHalf(2 * a, 2 * b);
  }

  /** After n steps the register times x^n differs from the dividend by a multiple q of the polynomial. */
  lemma {:induction false} StepsDivide(x: nat, n: nat) returns (q: nat)
    ensures Xor(x, CarrylessMul(q, 2 * POLY + 1)) == Steps(x, n) * Pow2(n)
    decreases n
  {
    hide Xor;
    hide Steps;
    hide Step;
    hide CarrylessMul;
    hide Pow2;
    if n == 0 {
      q := 0;
      NoSteps(x);
    } else {
      var q' := StepsDivide(Step(x), n - 1);
      q := 2 * q' + x % 2;
      var g := if x % 2 == 1 then 2 * POLY + 1 else 0;
      var m := CarrylessMul(q', 2 * POLY + 1);
      MulLowBit(q', x % 2, 2 * POLY + 1);
      StepSubtracts(x);
      XorAssoc(x, g, 2 * m);
      XorDouble(Step(x), m);
      assert Steps(x, n) == Steps(Step(x), n - 1) by { StepsOnce(x, n); }
      DoublePow(Steps(x, n), n);
    }
  }

  lemma NoSteps(x: nat)
    ensures Xor(x, CarrylessMul(0, 2 * POLY + 1)) == Steps(x, 0) * Pow2(0)
  {
    XorZero(x);
    assert Pow2(0) == 1;
  }

  lemma StepsOnce(x: nat, n: nat)
    requires n > 0
    ensures Steps(x, n) == Steps(Step(x), n - 1)
  {
  }

  lemma DoublePow(r: nat, n: nat)
    requires n > 0
    ensures 2 * (r * Pow2(n - 1)) == r * Pow2(n)
  {
    MulAssoc(r, 2, Pow2(n - 1));
    MulAssoc(2, r, Pow2(n - 1));
  }

  lemma MulLowBit(q: nat, b: nat, g: nat)
    requires b < 2
    ensures CarrylessMul(2 * q + b, g) == Xor(if b == 1 then g else 0, 2 * CarrylessMul(q, g))
  {
    var r := 2 * q + b;
    assert r % 2 == b && r / 2 == q;
  }

  /** A step subtracts the polynomial if bit 0 is set and divides by x. */
  lemma StepSubtracts(x: nat)
    ensures Xor(x, if x % 2 == 1 then 2 * POLY + 1 else 0) == 2 * Step(x)
  {
    var g: nat := if x % 2 == 1 then 2 * POLY + 1 else 0;
    XorHalf(x, g);
    XorZero(x / 2);
    var z := Xor(x, g);
    assert z == 2 * (z / 2) + z % 2;
  }

  /** The message as one number: the first bit of the first byte is bit 0. */
  function Message(s: seq<Byte>): nat
  {
    if s == [] then 0
    else
      MulMono(0, s[|s| - 1], Pow2(8 * (|s| - 1)));
      Message(s[..|s| - 1]) + s[|s| - 1] * Pow2(8 * (|s| - 1))
  }

  lemma {:induction false} StepsAdd(c: nat, m: nat, n: nat)
    ensures Steps(c, m + n) == Steps(Steps(c, m), n)
    decreases m
  {
    if m > 0 { StepsAdd(Step(c), m - 1, n); }
  }

  lemma {:induction false} MessageBound(s: seq<Byte>)
    ensures Message(s) < Pow2(8 * |s|)
  {
    if s != [] {
      var n := |s| - 1;
      MessageBound(s[..n]);
      Pow2Add(8 * n, 8);
      assert Pow2(8) == 256;
      MulMono(s[n], 255, Pow2(8 * n));
    } else {
      assert Pow2(0) == 1;
    }
  }

  /** Byte by byte is one division of the whole message. */
  lemma {:induction false} RegisterIsSteps(c: nat, s: seq<Byte>)
    ensures Register(c, s) == Steps(Xor(c, Message(s)), 8 * |s|)
  {
    hide Xor;
    if s == [] {
      XorZero(c);
    } else {
      var n := |s| - 1;
      var b, m := s[n], 8 * n;
      RegisterIsSteps(c, s[..n]);
      MessageBound(s[..n]);
      assert b < Pow2(8) by { assert Pow2(8) == 256; }
      OneMoreByte(c, Message(s[..n]), b, m, Register(c, s[..n]));
      assert 8 * |s| == m + 8;
    }
  }

  lemma OneMoreByte(c: nat, M: nat, b: nat, m: nat, r: nat)
    requires M < Pow2(m) && b < Pow2(8) && r == Steps(Xor(c, M), m)
    ensures b * Pow2(m) >= 0
    ensures Feed(r, b, 8) == Steps(Xor(c, M + b * Pow2(m)), m + 8)
  {
    hide Xor;
    hide Steps;
    hide Feed;
    hide Pow2;
    var D := b * Pow2(m);
    MulMono(0, b, Pow2(m));
    XorDisjoint(M, b, m);
    XorAssoc(c, M, D);
    StepsLinear(Xor(c, M), D, m);
    StepsShift(b, m);
    FeedIsSteps(r, b, 8);
    StepsAdd(Xor(c, M + D), m, 8);
  }

  /**
   The register after a message of n bits is the remainder of a polynomial division: times x^n it equals
   the message, with the initial register added to its first bits, minus a multiple of the polynomial.
   */
  lemma RegisterDivides(c: nat, s: seq<Byte>) returns (q: nat)
    ensures Register(c, s) * Pow2(8 * |s|) == Xor(Xor(c, Message(s)), CarrylessMul(q, 2 * POLY + 1))
    ensures c < 0x1_0000_0000 ==> Register(c, s) < 0x1_0000_0000
  {
    hide Xor;
    hide Steps;
    hide Pow2;
    RegisterIsSteps(c, s);
    q := StepsDivide(Xor(c, Message(s)), 8 * |s|);
    RegisterBound(c, s);
  }

  lemma {:induction false} RegisterBound(c: nat, s: seq<Byte>)
    ensures c < 0x1_0000_0000 ==> Register(c, s) < 0x1_0000_0000
  {
    if s != [] && c < 0x1_0000_0000 {
      hide Xor;
      hide Steps;
      hide Feed;
      var r, b := Register(c, s[..|s| - 1]), s[|s| - 1];
      RegisterBound(c, s[..|s| - 1]);
      PowThirtyTwo();
      assert Pow2(8) == 256;
      XorBound(r, b, 32);
      FeedIsSteps(r, b, 8);
      StepsBound(Xor(r, b), 8);
    }
  }

  lemma RegisterStart(s: seq<Byte>)
    ensures Register(0xFFFFFFFF, s) < 0x1_0000_0000
  {
    RegisterBound(0xFFFFFFFF, s);
  }

  // ----- makecrc -----

  const TERMS: seq<nat> := [0, 1, 2, 4, 5, 7, 8, 10, 11, 12, 16, 22, 23, 26]

  function Pattern(i: nat): nat
    requires i <= 14
  {
    if i == 0 then 0 else Pattern(i - 1) + Pow2(31 - TERMS[i - 1])
  }

  lemma PowTable()
    ensures Pow2(5) == 32 && Pow2(8) == 256 && Pow2(9) == 512 && Pow2(15) == 32768
    ensures Pow2(19) == 524288 && Pow2(20) == 1048576 && Pow2(21) == 2097152 && Pow2(23) == 8388608
    ensures Pow2(24) == 16777216 && Pow2(26) == 67108864 && Pow2(27) == 134217728 && Pow2(29) == 536870912
    ensures Pow2(30) == 1073741824 && Pow2(31) == 2147483648
  {
    assert Pow2(8) == 256;
    assert Pow2(15) == 32768;
    Pow2Add(15, 8);
    assert Pow2(27) == 134217728;
    assert Pow2(31) == 2147483648;
  }

  lemma PatternValue()
    ensures Pattern(14) == POLY
  {
    PowTable();
    hide Pow2;
    assert Pattern(0) == 0;
    assert Pattern(1) == 0x80000000;
    assert Pattern(2) == 0xC0000000;
    assert Pattern(3) == 0xE0000000;
    assert Pattern(4) == 0xE8000000;
    assert Pattern(5) == 0xEC000000;
    assert Pattern(6) == 0xED000000;
    assert Pattern(7) == 0xED800000;
    assert Pattern(8) == 0xEDA00000;
    assert Pattern(9) == 0xEDB00000;
    assert Pattern(10) == 0xEDB80000;
    assert Pattern(11) == 0xEDB88000;
    assert Pattern(12) == 0xEDB88200;
    assert Pattern(13) == 0xEDB88300;
  }

  /** The table: entry i is eight steps of i. */
  predicate Table(tab: seq<nat>)
  {
    |tab| == 256 && forall i :: 0 <= i < 256 ==> tab[i] == Steps(i, 8)
  }

  /** One entry of the table; the byte i is marked by a ninth bit while it is shifted out. */
  method TableEntry(i: nat, e: nat) returns (c: nat)
    requires i < 256 && e == POLY
    ensures c == Steps(i, 8)
  {
    hide Xor;
    hide Steps;
    hide Feed;
    hide Or;
    hide Pow2;
    c := 0;
    var k := Or(i, 256);
    Pow2Sixteen();
    OrDisjoint(i, 1, 8);
    ghost var n: nat := 8;
    ghost var b: nat := i;
    while k != 1
      invariant 0 <= n <= 8 && 0 <= b < Pow2(n) && k == b + Pow2(n)
      invariant Feed(c, b, n) == Feed(0, i, 8)
      decreases n
    {
      Marked(b, n);
      FeedOne(c, b, n);
      c := if c % 2 == 1 then Xor(c / 2, e) else c / 2;
      if k % 2 == 1 {
        c := Xor(c, e);
      }
      k := k / 2;
      n := n - 1;
      b := b / 2;
    }
    Marked(b, n);
    FeedNone(c, b);
    FeedIsSteps(0, i, 8);
    XorZero(i);
  }

  lemma FeedNone(c: nat, b: nat)
    ensures Feed(c, b, 0) == c
  {
  }

  /** Shifting a number with a bit above it. */
  lemma Marked(b: nat, n: nat)
    requires b < Pow2(n)
    ensures b + Pow2(n) == 1 <==> n == 0
    ensures n > 0 ==> (b + Pow2(n)) % 2 == b % 2 && (b + Pow2(n)) / 2 == b / 2 + Pow2(n - 1) && b / 2 < Pow2(n - 1)
  {
    if n > 0 { AddEven(b, Pow2(n - 1)); }
  }

  /** The exclusive-or pattern from the terms of the polynomial. */
  method MakePattern() returns (e: nat)
    ensures e == POLY
  {
    assert Pattern(0) == 0;
    hide Pattern;
    hide Or;
    hide Pow2;
    e := 0;
    for i := 0 to 14
      invariant e == Pattern(i)
    {
      NextTerm(i);
      e := Or(e, Pow2(31 - TERMS[i]));
    }
    PatternValue();
  }

  /** makecrc: the pattern, then all 256 entries. */
  method MakeCrc(tab: array<nat>)
    requires tab.Length == 256
    modifies tab
    ensures Table(tab[..])
  {
    hide Steps;
    var e := MakePattern();
    tab[0] := 0;
    StepsShift(0, 8);
    for i := 1 to 256
      invariant forall j :: 0 <= j < i ==> tab[j] == Steps(j, 8)
    {
      var c := TableEntry(i, e);
      tab[i] := c;
    }
  }

  /** Adding the bit after the shift, as makecrc does, is adding it before. */
  lemma FeedOne(c: nat, b: nat, n: nat)
    requires n > 0
    ensures Feed(c, b, n) == Feed(if b % 2 == 1 then Xor(Step(c), POLY) else Step(c), b / 2, n - 1)
  {
    XorZero(c);
    StepLinear(c, 1);
    XorZero(POLY);
    assert Step(1) == POLY;
  }

  /** The terms are distinct, so or-ing them adds them. */
  lemma NextTerm(i: nat)
    requires i < 14
    ensures Pattern(i + 1) == Or(Pattern(i), Pow2(31 - TERMS[i]))
  {
    var q := PatternHigh(i);
    var t := Pow2(31 - TERMS[i]);
    Pow2Mono(31 - TERMS[i], 32 - TERMS[i]);
    OrComm(Pattern(i), t);
    OrDisjoint(t, q, 32 - TERMS[i]);
  }

  lemma {:induction false} PatternHigh(i: nat) returns (q: nat)
    requires i < 14
    ensures Pattern(i) == q * Pow2(32 - TERMS[i])
  {
    hide Pow2;
    if i == 0 {
      q := 0;
    } else {
      var q' := PatternHigh(i - 1);
      var a, b := 32 - TERMS[i - 1], 32 - TERMS[i];
      q := RaiseHigh(q', a, b);
    }
  }

  lemma RaiseHigh(q: nat, a: nat, b: nat) returns (r: nat)
    requires b < a
    ensures q * Pow2(a) + Pow2(a - 1) == r * Pow2(b)
  {
    var p := Pow2(a - 1 - b);
    Pow2Add(a - 1 - b, b);
    assert Pow2(a) == 2 * Pow2(a - 1);
    r := q * (2 * p) + p;
    PatternArith(q, p, Pow2(b));
  }

  lemma PatternArith(q: nat, p: nat, d: nat)
    ensures q * (2 * (p * d)) + p * d == (q * (2 * p) + p) * d
  {
    SumTimes(q * (2 * p), p, d);
    MulAssoc(q, 2 * p, d);
    MulAssoc(2, p, d);
  }

  // ----- The loop of flush_window -----

  /** The loop of flush_window over the bytes. */
  method Update(tab: seq<nat>, c0: nat, s: seq<Byte>) returns (c: nat)
    requires Table(tab) && c0 < 0x1_0000_0000
    ensures c == Register(c0, s)
  {
    hide Steps;
    hide Feed;
    c := c0;
    for n := 0 to |s|
      invariant c == Register(c0, s[..n])
    {
      assert s[..n + 1][..n] == s[..n];
      TableStep(c, s[n]);
      assert Pow2(8) == 256;
      AndMask(Xor(c, s[n]), 8);
      c := Xor(tab[And(Xor(c, s[n]), 0xff)], Shr(c, 8));
    }
    assert s[..|s|] == s;
  }

  /** Chunk by chunk is the same as all at once. */
  lemma {:induction false} RegisterConcat(c: nat, s: seq<Byte>, t: seq<Byte>)
    ensures Register(c, s + t) == Register(Register(c, s), t)
  {
    hide Feed;
    if t == [] {
      assert s + t == s;
    } else {
      var n := |t| - 1;
      RegisterConcat(c, s, t[..n]);
      assert (s + t)[..|s + t| - 1] == s + t[..n];
    }
  }
}
