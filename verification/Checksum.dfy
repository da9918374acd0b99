/**
 The 16-bit one's complement checksum of RFC 1071 as rarp.c (ipchksum) and uniform_boot.c compute it, and the
 random generator of rfc951_sleep.
 */
module Checksum {
  import opened Bits

  // ----- The sum -----

  /** One word added with the end-around carry. */
  function Add(sum: U16, w: U16): U16
  {
    if sum + w > 0xffff then sum + w - 0xffff else sum + w
  }

  function Fold(ws: seq<U16>): U16
  {
    if ws == [] then 0 else Add(Fold(ws[..|ws| - 1]), ws[|ws| - 1])
  }

  /** The plain sum of the words. */
  function Sum(ws: seq<U16>): nat
  {
    if ws == [] then 0 else Sum(ws[..|ws| - 1]) + ws[|ws| - 1]
  }

  /** The representative of a sum modulo 65535 in 1 to 65535, and 0 for 0. */
  function Residue(s: nat): U16
  {
    if s == 0 then 0 else (s - 1) % 0xffff + 1
  }

  function Result(ws: seq<U16>): U16
  {
    0xffff - Fold(ws)
  }

  /** ipchksum and uniform_boot_compute_header_checksum; an odd last byte is not looked at. */
  method Compute(ws: seq<U16>, bytes: nat) returns (r: U16)
    requires bytes / 2 == |ws|
    ensures r == Result(ws)
  {
    var sum: nat := 0;
    var len := bytes / 2;
    var p := 0;
    while len != 0
      invariant 0 <= len && p == |ws| - len && sum == Fold(ws[..p]) <= 0xffff
    {
      assert ws[..p + 1][..p] == ws[..p];
      sum := sum + ws[p];
      p := p + 1;
      if sum > 0xffff {
        sum := sum - 0xffff;
      }
      len := len - 1;
    }
    assert ws[..p] == ws;
    LowWord(sum);
    r := And(0xffff_ffff - sum, 0xffff);
  }

  /** The complement of a sum that fits in 16 bits. */
  lemma LowWord(sum: U16)
    ensures And(0xffff_ffff - sum, 0xffff) == 0xffff - sum
  {
    hide And;
    Pow2Sixteen();
    AndMask(0xffff_ffff - sum, 16);
    LowIs(sum);
  }

  lemma LowIs(sum: U16)
    ensures (0xffff_ffff - sum) % 0x1_0000 == 0xffff - sum
  {
  }

  // ----- What it means -----

  /** The end-around carry computes modulo 65535. */
  lemma {:induction false} FoldIsResidue(ws: seq<U16>)
    ensures Fold(ws) == Residue(Sum(ws))
  {
    if ws != [] {
      FoldIsResidue(ws[..|ws| - 1]);
      AddResidue(Sum(ws[..|ws| - 1]), ws[|ws| - 1]);
    }
  }

  lemma AddResidue(s: nat, w: U16)
    ensures Add(Residue(s), w) == Residue(s + w)
  {
    if s > 0 {
      var q, r := (s - 1) / 0xffff, (s - 1) % 0xffff;
      if r + w < 0xffff {
        DivModUnique(s + w - 1, 0xffff, q, r + w);
      } else {
        DivModUnique(s + w - 1, 0xffff, q + 1, r + w - 0xffff);
      }
    }
  }

  lemma {:induction false} SumAppend(a: seq<U16>, b: seq<U16>)
    ensures Sum(a + b) == Sum(a) + Sum(b)
  {
    if b == [] {
      assert a + b == a;
    } else {
      assert (a + b)[..|a + b| - 1] == a + b[..|b| - 1];
      SumAppend(a, b[..|b| - 1]);
    }
  }

  lemma SumUpdate(ws: seq<U16>, i: nat, x: U16)
    requires i < |ws|
    ensures Sum(ws[i := x]) == Sum(ws) - ws[i] + x && ws[i] <= Sum(ws)
  {
    var a, b := ws[..i], ws[i + 1..];
    assert ws == a + [ws[i]] + b && ws[i := x] == a + [x] + b;
    assert [ws[i]][..0] == [] && [x][..0] == [];
    assert Sum([ws[i]]) == ws[i] && Sum([x]) == x;
    SumAppend(a + [ws[i]], b);
    SumAppend(a, [ws[i]]);
    SumAppend(a + [x], b);
    SumAppend(a, [x]);
  }

  /** The words may be summed in any order. */
  lemma {:induction false} AnyOrder(a: seq<U16>, b: seq<U16>)
    requires multiset(a) == multiset(b)
    ensures Result(a) == Result(b)
  {
    SumOrder(a, b);
    FoldIsResidue(a);
    FoldIsResidue(b);
  }

  lemma TakeOne(m: multiset<U16>, n: multiset<U16>, x: U16)
    requires m + multiset{x} == n + multiset{x}
    ensures m == n
  {
    assert m == (m + multiset{x}) - multiset{x};
    assert n == (n + multiset{x}) - multiset{x};
  }

  lemma {:induction false} SumOrder(a: seq<U16>, b: seq<U16>)
    requires multiset(a) == multiset(b)
    ensures Sum(a) == Sum(b)
  {
    if a == [] {
      assert |multiset(b)| == |b|;
    } else {
      var n, x := |a| - 1, a[|a| - 1];
      assert a == a[..n] + [x];
      assert x in multiset(b);
      var i :| 0 <= i < |b| && b[i] == x;
      assert b == b[..i] + [x] + b[i + 1..];
      var c := b[..i] + b[i + 1..];
      assert multiset(a) == multiset(a[..n]) + multiset{x};
      assert multiset(b) == multiset(b[..i]) + multiset{x} + multiset(b[i + 1..]) == multiset(c) + multiset{x};
      TakeOne(multiset(a[..n]), multiset(c), x);
      SumOrder(a[..n], c);
      SumAppend(b[..i] + [x], b[i + 1..]);
      SumAppend(b[..i], [x]);
      SumAppend(b[..i], b[i + 1..]);
      assert [x][..0] == [];
      assert Sum([x]) == x;
    }
  }

  /** Congruent to the negated sum modulo 65535. */
  lemma Negates(ws: seq<U16>)
    ensures (Result(ws) + Sum(ws)) % 0xffff == 0
  {
    FoldIsResidue(ws);
    var s := Sum(ws);
    if s > 0 { DivModUnique(0xffff - Residue(s) + s, 0xffff, (s - 1) / 0xffff + 1, 0); }
  }

  /** A header with its own checksum in the field that was zero checks out. */
  lemma StoredChecks(ws: seq<U16>, i: nat)
    requires i < |ws| && ws[i] == 0
    ensures Result(ws[i := Result(ws)]) == 0
  {
    FoldIsResidue(ws);
    FoldIsResidue(ws[i := Result(ws)]);
    SumUpdate(ws, i, Result(ws));
    var s := Sum(ws);
    if s > 0 { DivModUnique(s + 0xffff - Residue(s) - 1, 0xffff, (s - 1) / 0xffff, 0xfffe); }
  }

  /** The check fails for every change of one word except that between the two zeros 0 and 0xffff. */
  lemma OneWordChanged(ws: seq<U16>, i: nat, x: U16)
    requires i < |ws| && Result(ws) == 0 && x != ws[i]
    ensures Result(ws[i := x]) == 0 <==> (x == 0xffff && ws[i] == 0) || (x == 0 && ws[i] == 0xffff && Sum(ws) > 0xffff)
  {
    FoldIsResidue(ws);
    FoldIsResidue(ws[i := x]);
    SumUpdate(ws, i, x);
    var s, t := Sum(ws), Sum(ws) - ws[i] + x;
    FullResidue(s);
    FullResidue(t);
    var q := s / 0xffff;
    assert s == 0xffff * q;
    if t % 0xffff == 0 {
      var p := t / 0xffff;
      assert t == 0xffff * p && x - ws[i] == 0xffff * (p - q);
      assert p - q == 1 || p - q == -1;
    }
  }

  lemma FullResidue(s: nat)
    ensures Residue(s) == 0xffff <==> s > 0 && s % 0xffff == 0
  {
    if s > 0 {
      var q, r := (s - 1) / 0xffff, (s - 1) % 0xffff;
      if r == 0xfffe { DivModUnique(s, 0xffff, q + 1, 0); } else { DivModUnique(s, 0xffff, q, r + 1); }
    }
  }

  // ----- Byte order -----

  /** The two bytes of a word exchanged. */
  function Swap(w: U16): U16
  {
    w % 0x100 * 0x100 + w / 0x100
  }

  function SwapAll(ws: seq<U16>): seq<U16>
  {
    seq(|ws|, i requires 0 <= i < |ws| => Swap(ws[i]))
  }

  lemma SwapTimes(w: U16)
    ensures Swap(w) == 0x100 * w - 0xffff * (w / 0x100) && (Swap(w) == 0 <==> w == 0)
  {
  }

  lemma {:induction false} SumSwapped(ws: seq<U16>) returns (q: nat)
    ensures Sum(SwapAll(ws)) == 0x100 * Sum(ws) - 0xffff * q && (Sum(SwapAll(ws)) == 0 <==> Sum(ws) == 0)
  {
    q := 0;
    if ws != [] {
      var n := |ws| - 1;
      q := SumSwapped(ws[..n]);
      assert SwapAll(ws)[..n] == SwapAll(ws[..n]);
      SwapTimes(ws[n]);
      q := q + ws[n] / 0x100;
    }
  }

  /** Summing in the wrong byte order gives the checksum in the wrong byte order. */
  lemma ByteOrder(ws: seq<U16>)
    ensures Result(SwapAll(ws)) == Swap(Result(ws))
  {
    FoldIsResidue(ws);
    FoldIsResidue(SwapAll(ws));
    var q := SumSwapped(ws);
    SwapResidue(Sum(ws), Sum(SwapAll(ws)), q);
    SwapComplement(Fold(ws));
  }

  lemma SwapComplement(f: U16)
    ensures Swap(0xffff - f) == 0xffff - Swap(f)
  {
  }

  lemma SwapResidue(s: nat, t: nat, q: nat)
    requires t == 0x100 * s - 0xffff * q && (t == 0 <==> s == 0)
    ensures Residue(t) == Swap(Residue(s))
  {
    if s > 0 {
      var k, f := (s - 1) / 0xffff, Residue(s);
      assert s == 0xffff * k + f;
      SwapTimes(f);
      var g := Swap(f);
      DivModUnique(t - 1, 0xffff, 0x100 * k - q + f / 0x100, g - 1);
    }
  }

  // ----- The random generator -----

  const MODULUS := 2147483563

  predicate Int32(x: int)
  {
    -0x8000_0000 <= x < 0x8000_0000
  }

  /** Division of C longs rounds toward zero. */
  function Quotient(a: int, b: nat): int
    requires b > 0
  {
    if a < 0 then -(-a / b) else a / b
  }

  /** What the update computes of a seed. */
  function NextSeed(seed: int): int
  {
    40014 * seed % MODULUS
  }

  /** The seed of rfc951_sleep. */
  class Generator {
    var seed: int

    constructor ()
      ensures seed == 0
    {
      seed := 0;
    }

    /** A seed of 0 is first set from the clock and the hardware address; every step stays in 32 bits. */
    method Sleep(start: int)
      requires Int32(seed) && Int32(start)
      modifies this
      ensures seed == NextSeed(if old(seed) == 0 then start else old(seed)) && 0 <= seed < MODULUS
    {
      if seed == 0 {
        seed := start;
      }
      Schrage(seed);
      var q := Quotient(seed, 53668);
      assert Int32(q) && Int32(53668 * q) && Int32(seed - 53668 * q);
      assert Int32(40014 * (seed - 53668 * q)) && Int32(12211 * q);
      seed := 40014 * (seed - 53668 * q) - 12211 * q;
      assert Int32(seed);
      if seed < 0 {
        seed := seed + MODULUS;
      }
    }
  }

  /** Schrage's decomposition on every signed word: the parts are small, and their difference is the product modulo
      2147483563. */
  lemma Schrage(seed: int)
    requires Int32(seed)
    ensures var q := Quotient(seed, 53668);
      var r := seed - 53668 * q;
      var t := 40014 * r - 12211 * q;
      && -40014 <= q <= 40014 && -53668 < r < 53668 && -MODULUS < t < MODULUS
      && NextSeed(seed) == (if t < 0 then t + MODULUS else t)
      && (t == 0 <==> seed == 0 || seed == MODULUS || seed == -MODULUS)
  {
    var u := if seed < 0 then -seed else seed;
    var q, r := u / 53668, u % 53668;
    assert u == 53668 * q + r;
    var t := 40014 * r - 12211 * q;
    assert 40014 * u == MODULUS * q + t;
    Congruent(40014 * seed, if seed < 0 then -q else q, if seed < 0 then -t else t);
    if t == 0 { NoMultiple(q, r); }
  }

  lemma Congruent(x: int, q: int, t: int)
    requires x == MODULUS * q + t && -MODULUS < t < MODULUS
    ensures x % MODULUS == if t < 0 then t + MODULUS else t
  {
    if t < 0 { DivModUnique(x, MODULUS, q - 1, t + MODULUS); } else { DivModUnique(x, MODULUS, q, t); }
  }

  /** 40014 and 12211 have no common factor. */
  lemma NoMultiple(q: int, r: int)
    requires 40014 * r == 12211 * q && 0 <= q <= 40014 && 0 <= r
    ensures (q == 0 && r == 0) || (q == 40014 && r == 12211)
  {
    var k := 1219 * r - 372 * q;
    assert q == 40014 * k;
  }

  /** Of the nonzero words only 2147483563 and its negative lead to 0, and so to setting the seed anew. */
  lemma ZeroExactly(seed: int)
    requires Int32(seed) && seed != 0
    ensures NextSeed(seed) == 0 <==> seed == MODULUS || seed == -MODULUS
    ensures 0 <= NextSeed(seed) < MODULUS
  {
    Schrage(seed);
  }

  /** The seed after n sleeps. */
  function SeedAfter(seed: int, n: nat): int
  {
    if n == 0 then seed else NextSeed(SeedAfter(seed, n - 1))
  }

  /** From any word the clock and the address give, the seed stays in range and is never set anew, except from those. */
  lemma {:induction false} NeverReseeded(seed: int, n: nat)
    requires Int32(seed) && n > 0
    ensures 1 <= SeedAfter(seed, n) < MODULUS <==> seed != 0 && seed != MODULUS && seed != -MODULUS
    ensures 0 <= SeedAfter(seed, n) < MODULUS
  {
    hide NextSeed;
    Schrage(seed);
    if n > 1 {
      NeverReseeded(seed, n - 1);
      Schrage(SeedAfter(seed, n - 1));
    }
  }
}
