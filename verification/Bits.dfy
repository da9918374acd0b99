/** Machine words as natural numbers: powers of two, C's bitwise operators, and bit reversal. */
module Bits {

  const W32: nat := 0x1_0000_0000

  type U16 = x: nat | x < 0x1_0000

  type Word = x: nat | x < W32

  function Pow2(n: nat): (p: nat)
    ensures p > 0
  {
    if n == 0 then 1 else 2 * Pow2(n - 1)
  }

  function And(a: nat, b: nat): nat
  {
    if a == 0 || b == 0 then 0 else (a % 2) * (b % 2) + 2 * And(a / 2, b / 2)
  }

  function Or(a: nat, b: nat): nat
  {
    if a == 0 then b else if b == 0 then a
    else (if a % 2 == 1 || b % 2 == 1 then 1 else 0) + 2 * Or(a / 2, b / 2)
  }

  function Xor(a: nat, b: nat): nat
  {
    if a == 0 then b else if b == 0 then a
    else (if a % 2 == b % 2 then 0 else 1) + 2 * Xor(a / 2, b / 2)
  }

  lemma DivNonnegative(x: nat, d: nat)
    requires d > 0
    ensures x / d >= 0
  {
    var q := x / d;
    assert x == q * d + x % d;
    if q < 0 { MulMono(q, -1, d); }
  }

  /** x shifted right by n bits. */
  function Shr(x: nat, n: nat): (r: nat)
  {
    DivNonnegative(x, Pow2(n));
    x / Pow2(n)
  }

  /** The low n bits of x; a mask of ones gives the same, see AndMask. */
  function Low(x: nat, n: nat): (r: nat)
    ensures r < Pow2(n)
    ensures x == Shr(x, n) * Pow2(n) + r
  {
    x % Pow2(n)
  }

  /** The low n bits of x in the opposite order. */
  function Rev(n: nat, x: nat): nat
  {
    if n == 0 then 0 else (if x % 2 == 1 then Pow2(n - 1) else 0) + Rev(n - 1, x / 2)
  }

  // ----- Powers of two -----

  lemma {:induction false} Pow2Add(a: nat, b: nat)
    ensures Pow2(a + b) == Pow2(a) * Pow2(b)
  {
    if a > 0 {
      Pow2Add(a - 1, b);
      assert Pow2(a + b) == 2 * Pow2((a - 1) + b);
    }
  }

  lemma Pow2Sixteen()
    ensures Pow2(0) == 1 && Pow2(1) == 2 && Pow2(8) == 256 && Pow2(15) == 32768 && Pow2(16) == 65536
  {
    assert Pow2(8) == 256;
    Pow2Add(8, 8);
  }

  lemma {:induction false} Pow2Mono(a: nat, b: nat)
    requires a <= b
    ensures Pow2(a) <= Pow2(b)
    ensures a < b ==> 2 * Pow2(a) <= Pow2(b)
    decreases b
  {
    if a < b {
      Pow2Mono(a, b - 1);
    }
  }

  /** Division and remainder, stated the way the proofs below use them. */
  lemma DivModUnique(x: int, d: int, q: int, r: int)
    requires d > 0 && 0 <= r < d && x == q * d + r
    ensures x / d == q && x % d == r
  {
    var q' := x / d;
    assert x == q' * d + x % d;
    if q' < q {
      assert (q - q') * d >= d by { MulMono(1, q - q', d); }
      assert false;
    }
    if q' > q {
      assert (q' - q) * d >= d by { MulMono(1, q' - q, d); }
      assert false;
    }
  }

  lemma MulMono(a: int, b: int, d: int)
    requires a <= b && d >= 0
    ensures a * d <= b * d
  {
  }

  lemma MulLess(a: int, b: int, d: int)
    requires a * d < b * d && d > 0
    ensures a < b
  {
    if a >= b { MulMono(b, a, d); }
  }

  lemma MulAssoc(a: int, b: int, c: int)
    ensures a * (b * c) == (a * b) * c
  {
  }

  lemma DivModNest(x: nat, A: nat, B: nat)
    requires A > 0 && B > 0
    ensures A * B > 0
    ensures x % (A * B) == x % A + A * ((x / A) % B)
    ensures x / (A * B) == (x / A) / B
  {
    var q, r := x / A, x % A;
    var q2, r2 := q / B, q % B;
    var AB := A * B;
    assert AB > 0 by { MulMono(1, A, B); }
    var t := A * r2;
    assert x == A * q + r;
    assert A * q == q2 * AB + t by { DistributeQuotient(A, B, q, q2, r2); }
    assert 0 <= t && t + A <= AB by {
      MulMono(r2 + 1, B, A);
      MulMono(0, r2, A);
      assert (r2 + 1) * A == A * r2 + A && B * A == A * B;
    }
    DivModUnique(x, AB, q2, t + r);
  }

  lemma DistributeQuotient(A: int, B: int, q: int, q2: int, r2: int)
    requires q == B * q2 + r2
    ensures A * q == q2 * (A * B) + A * r2
  {
    assert A * (B * q2 + r2) == A * (B * q2) + A * r2;
    assert A * (B * q2) == q2 * (A * B);
  }

  /** The only way to write x as a shifted part plus a low part. */
  lemma SplitUnique(x: nat, n: nat, q: nat, r: nat)
    requires x == q * Pow2(n) + r && r < Pow2(n)
    ensures Shr(x, n) == q && Low(x, n) == r
  {
    DivModUnique(x, Pow2(n), q, r);
  }

  /** Shifting by a + b is shifting twice. */
  lemma ModSplit(x: nat, a: nat, b: nat)
    ensures Low(x, a + b) == Low(x, a) + Pow2(a) * Low(Shr(x, a), b)
    ensures Shr(x, a + b) == Shr(Shr(x, a), b)
  {
    Pow2Add(a, b);
    DivModNest(x, Pow2(a), Pow2(b));
  }

  // ----- Bitwise operators -----

  /** x & (2^n - 1) keeps the low n bits. */
  lemma {:induction false} AndMask(x: nat, n: nat)
    ensures And(x, Pow2(n) - 1) == Low(x, n)
  {
    if n > 0 && x > 0 {
      AndMask(x / 2, n - 1);
      assert (Pow2(n) - 1) % 2 == 1 && (Pow2(n) - 1) / 2 == Pow2(n - 1) - 1;
      ModSplit(x, 1, n - 1);
      assert Pow2(1) == 2;
    }
  }

  /** Or-ing a value above the top of x adds it. */
  lemma {:induction false} OrDisjoint(x: nat, y: nat, n: nat)
    requires x < Pow2(n)
    ensures Or(x, y * Pow2(n)) == x + y * Pow2(n)
  {
    var z := y * Pow2(n);
    if n > 0 && x > 0 && z > 0 {
      assert z == 2 * (y * Pow2(n - 1)) by {
        assert y * (2 * Pow2(n - 1)) == 2 * (y * Pow2(n - 1));
      }
      OrDisjoint(x / 2, y, n - 1);
    }
  }

  /** Testing and flipping bit n when x has nothing above it. */
  lemma {:induction false} TopBit(x: nat, n: nat)
    requires x < Pow2(n + 1)
    ensures And(x, Pow2(n)) == (if x >= Pow2(n) then Pow2(n) else 0)
    ensures Xor(x, Pow2(n)) == (if x >= Pow2(n) then x - Pow2(n) else x + Pow2(n))
  {
    if n == 0 {
      assert Pow2(0) == 1 && Pow2(1) == 2;
      assert x == 0 || x == 1;
    } else {
      TopBit(x / 2, n - 1);
      assert Pow2(n) % 2 == 0 && Pow2(n) / 2 == Pow2(n - 1);
      assert And(0, 0) == 0;
      if x == 0 {
        assert Xor(0, Pow2(n)) == Pow2(n);
      }
    }
  }

  lemma {:induction false} AndLess(x: nat, m: nat)
    ensures And(x, m) <= x && And(x, m) <= m
  {
    if x > 0 && m > 0 {
      AndLess(x / 2, m / 2);
      AndHalf(x, m);
      BitBound(x, m, And(x / 2, m / 2));
    }
  }

  lemma BitBound(x: nat, m: nat, h: nat)
    requires h <= x / 2 && h <= m / 2
    ensures (x % 2) * (m % 2) + 2 * h <= x && (x % 2) * (m % 2) + 2 * h <= m
  {
    assert (x % 2) * (m % 2) <= x % 2 && (x % 2) * (m % 2) <= m % 2;
  }

  lemma AndHalf(a: nat, b: nat)
    ensures And(a, b) == (a % 2) * (b % 2) + 2 * And(a / 2, b / 2)
    ensures a == 0 || b == 0 ==> And(a, b) == 0
  {
    if a == 0 || b == 0 { assert And(a / 2, b / 2) == 0; }
  }

  lemma LowHalf(x: nat, n: nat)
    requires n > 0
    ensures Low(x, n) == x % 2 + 2 * Low(x / 2, n - 1)
  {
    hide Pow2;
    Pow2Sixteen();
    ModSplit(x, 1, n - 1);
  }

  /** A mask of low bits sees low bits only. */
  lemma {:induction false} AndLow(x: nat, f: nat, n: nat)
    requires f < Pow2(n)
    ensures And(x, f) == And(Low(x, n), f)
  {
    hide And;
    hide Low;
    AndHalf(x, f);
    AndHalf(Low(x, n), f);
    if n > 0 {
      AndLow(x / 2, f / 2, n - 1);
      LowHalf(x, n);
    }
  }

  /** And one of high bits nothing of a small number. */
  lemma {:induction false} AndDisjoint(x: nat, y: nat, n: nat)
    requires x < Pow2(n)
    ensures And(x, y * Pow2(n)) == 0
  {
    hide And;
    AndHalf(x, y * Pow2(n));
    if n > 0 {
      EvenProduct(y, Pow2(n - 1));
      AndDisjoint(x / 2, y, n - 1);
    }
  }

  lemma OrHalf(a: nat, b: nat)
    ensures Or(a, b) == (if a % 2 == 1 || b % 2 == 1 then 1 else 0) + 2 * Or(a / 2, b / 2)
  {
  }

  lemma {:induction false} OrComm(a: nat, b: nat)
    ensures Or(a, b) == Or(b, a)
  {
    if a > 0 && b > 0 { OrComm(a / 2, b / 2); }
  }

  // ----- Exclusive or is a group operation, bit by bit -----

  lemma XorHalf(a: nat, b: nat)
    ensures Xor(a, b) % 2 == (a + b) % 2 && Xor(a, b) / 2 == Xor(a / 2, b / 2)
  {
    if a > 0 && b > 0 {
      var low := if a % 2 == b % 2 then 0 else 1;
      HalfOf(low, Xor(a / 2, b / 2));
    }
    Parity(a, b);
  }

  lemma Parity(a: nat, b: nat)
    ensures (a + b) % 2 == if a % 2 == b % 2 then 0 else 1
  {
  }

  lemma HalfOf(low: nat, h: nat)
    requires low < 2
    ensures (low + 2 * h) % 2 == low && (low + 2 * h) / 2 == h
  {
  }

  lemma {:induction false} XorComm(a: nat, b: nat)
    ensures Xor(a, b) == Xor(b, a)
  {
    if a > 0 && b > 0 { XorComm(a / 2, b / 2); }
  }

  lemma {:induction false} XorSelf(a: nat)
    ensures Xor(a, a) == 0
  {
    if a > 0 { XorSelf(a / 2); }
  }

  lemma {:induction false} XorAssoc(a: nat, b: nat, c: nat)
    ensures Xor(Xor(a, b), c) == Xor(a, Xor(b, c))
    decreases a + b + c
  {
    if a > 0 && b > 0 && c > 0 {
      XorAssoc(a / 2, b / 2, c / 2);
      XorAssocStep(a, b, c);
    }
  }

  lemma XorAssocStep(a: nat, b: nat, c: nat)
    requires Xor(Xor(a / 2, b / 2), c / 2) == Xor(a / 2, Xor(b / 2, c / 2))
    ensures Xor(Xor(a, b), c) == Xor(a, Xor(b, c))
  {
    hide Xor;
    XorHalf(a, b);
    XorHalf(b, c);
    XorHalf(Xor(a, b), c);
    XorHalf(a, Xor(b, c));
    SumParity(a, b, c, Xor(a, b), Xor(b, c));
    SameHalves(Xor(Xor(a, b), c), Xor(a, Xor(b, c)));
  }

  lemma SameHalves(x: nat, y: nat)
    requires x / 2 == y / 2 && x % 2 == y % 2
    ensures x == y
  {
  }

  lemma SumParity(a: nat, b: nat, c: nat, ab: nat, bc: nat)
    requires ab % 2 == (a + b) % 2 && bc % 2 == (b + c) % 2
    ensures (ab + c) % 2 == (a + bc) % 2
  {
  }

  /** The two in the middle can change places. */
  lemma XorSwap(a: nat, b: nat, c: nat, d: nat)
    ensures Xor(Xor(a, b), Xor(c, d)) == Xor(Xor(a, c), Xor(b, d))
  {
    XorAssoc(a, b, Xor(c, d));
    XorAssoc(b, c, d);
    XorComm(b, c);
    XorAssoc(c, b, d);
    XorAssoc(a, c, Xor(b, d));
  }

  lemma {:induction false} XorBound(a: nat, b: nat, n: nat)
    requires a < Pow2(n) && b < Pow2(n)
    ensures Xor(a, b) < Pow2(n)
  {
    if n > 0 {
      XorBound(a / 2, b / 2, n - 1);
      XorHalf(a, b);
    }
  }

  lemma {:induction false} XorDisjoint(x: nat, y: nat, n: nat)
    requires x < Pow2(n)
    ensures Xor(x, y * Pow2(n)) == x + y * Pow2(n)
  {
    hide Xor;
    XorHalf(x, y * Pow2(n));
    if n > 0 {
      EvenProduct(y, Pow2(n - 1));
      XorDisjoint(x / 2, y, n - 1);
      HalfSum(Xor(x, y * Pow2(n)), x, y * Pow2(n - 1));
    } else {
      XorNone(y * Pow2(n));
    }
  }

  lemma XorNone(y: nat)
    ensures Xor(0, y) == y
  {
  }

  lemma EvenProduct(y: nat, p: nat)
    ensures y * (2 * p) == 2 * (y * p) && y * p >= 0
  {
  }

  /** A number known by its half and its last bit. */
  lemma HalfSum(z: nat, x: nat, h: nat)
    requires z % 2 == (x + 2 * h) % 2 && z / 2 == x / 2 + h
    ensures z == x + 2 * h
  {
  }

  lemma ShrNone(x: nat)
    ensures Low(x, 0) == 0 && Shr(x, 0) == x
  {
    assert Pow2(0) == 1;
  }

  lemma ShrHalf(x: nat, n: nat)
    requires n > 0
    ensures Shr(x, n) == Shr(x / 2, n - 1)
  {
    assert Pow2(1) == 2;
    ModSplit(x, 1, n - 1);
  }

  /** The next bit, and the rest. */
  lemma ShrNext(x: nat, n: nat)
    ensures Shr(x, n) == Shr(x, n) % 2 + 2 * Shr(x, n + 1)
  {
    assert Pow2(1) == 2;
    ModSplit(x, n, 1);
  }

  lemma {:induction false} XorShr(a: nat, b: nat, n: nat)
    ensures Shr(Xor(a, b), n) == Xor(Shr(a, n), Shr(b, n))
  {
    hide *;
    if n == 0 {
      ShrNone(a);
      ShrNone(b);
      ShrNone(Xor(a, b));
    } else {
      XorShr(a / 2, b / 2, n - 1);
      XorHalf(a, b);
      ShrHalf(a, n);
      ShrHalf(b, n);
      ShrHalf(Xor(a, b), n);
    }
  }

  // ----- Bit reversal -----

  lemma {:induction false} RevBound(n: nat, x: nat)
    ensures Rev(n, x) < Pow2(n)
  {
    if n > 0 {
      RevBound(n - 1, x / 2);
    }
  }

  /** Reversing a concatenation: the halves swap. */
  lemma {:induction false} RevConcat(a: nat, b: nat, x: nat, y: nat)
    requires x < Pow2(a)
    ensures Rev(a + b, x + Pow2(a) * y) == Rev(a, x) * Pow2(b) + Rev(b, y)
  {
    if a == 0 {
      assert x == 0 && Pow2(0) == 1;
      assert Rev(0, x) * Pow2(b) == 0;
    } else {
      var h := Pow2(a - 1) * y;
      MulAssoc(2, Pow2(a - 1), y);
      var z := x + 2 * h;
      AddEven(x, h);
      RevConcat(a - 1, b, x / 2, y);
      assert Rev(a + b, z) == (if x % 2 == 1 then Pow2(a + b - 1) else 0) + Rev(a - 1 + b, z / 2);
      Pow2Add(a - 1, b);
      SumTimes(if x % 2 == 1 then Pow2(a - 1) else 0, Rev(a - 1, x / 2), Pow2(b));
    }
  }

  lemma AddEven(x: nat, h: int)
    ensures (x + 2 * h) % 2 == x % 2 && (x + 2 * h) / 2 == x / 2 + h
  {
  }

  lemma SumTimes(a: int, b: int, c: int)
    ensures (a + b) * c == a * c + b * c
  {
  }

  lemma RevOne(x: nat)
    requires x < 2
    ensures Rev(1, x) == x
  {
    assert Rev(1, x) == (if x % 2 == 1 then Pow2(0) else 0) + Rev(0, x / 2);
  }

  lemma {:induction false} RevZero(n: nat)
    ensures Rev(n, 0) == 0
  {
    if n > 0 { RevZero(n - 1); }
  }

  /** All ones reverse to all ones. */
  lemma {:induction false} RevOnes(n: nat)
    ensures Rev(n, Pow2(n) - 1) == Pow2(n) - 1
  {
    if n > 0 {
      RevOnes(n - 1);
      assert (Pow2(n) - 1) % 2 == 1 && (Pow2(n) - 1) / 2 == Pow2(n - 1) - 1;
    }
  }

  /** Reversal is an involution on n-bit numbers. */
  lemma {:induction false} RevRev(n: nat, x: nat)
    requires x < Pow2(n)
    ensures Rev(n, Rev(n, x)) == x
  {
    if n > 0 {
      var r := Rev(n - 1, x / 2);
      RevBound(n - 1, x / 2);
      RevRev(n - 1, x / 2);
      var top := if x % 2 == 1 then 1 else 0;
      assert Pow2(n - 1) * top == if x % 2 == 1 then Pow2(n - 1) else 0;
      assert Rev(n, x) == r + Pow2(n - 1) * top;
      assert Rev(n, Rev(n, x)) == Rev(n - 1, r) * Pow2(1) + Rev(1, top) by {
        RevConcat(n - 1, 1, r, top);
      }
      RevOne(top);
      assert Pow2(1) == 2;
    }
  }
}
