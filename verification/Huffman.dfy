/**
 Canonical prefix codes as section 3.2.2 of RFC 1951 assigns them, and the same codes seen as
 consecutive intervals of the 2^16 bit patterns of length sixteen.
 */
module Huffman {
  import opened Bits
  import opened BitStream

  // ----- The standard's own definition -----

  /** bl_count: how many symbols have code length k. */
  function Count(lens: seq<nat>, k: nat): (n: nat)
    ensures n <= |lens|
  {
    if lens == [] then 0
    else Count(lens[..|lens| - 1], k) + if lens[|lens| - 1] == k then 1 else 0
  }

  /** next_code: the smallest code of length `bits`. Zero-length symbols have no code. */
  function NextCode(lens: seq<nat>, bits: nat): nat
  {
    if bits == 0 then 0
    else 2 * (NextCode(lens, bits - 1) + if bits == 1 then 0 else Count(lens, bits - 1))
  }

  /** Codes of one length are consecutive, in symbol order. */
  function Rank(lens: seq<nat>, sym: nat): nat
    requires sym < |lens|
  {
    Count(lens[..sym], lens[sym])
  }

  function CodeOf(lens: seq<nat>, sym: nat): nat
    requires sym < |lens|
  {
    NextCode(lens, lens[sym]) + Rank(lens, sym)
  }

  /** The bits at pos start with the code of sym. */
  predicate Matches(lens: seq<nat>, s: seq<Byte>, pos: nat, sym: nat)
  {
    sym < |lens| && lens[sym] > 0 && Msb(s, pos, lens[sym]) == CodeOf(lens, sym)
  }

  ghost predicate SomeMatch(lens: seq<nat>, s: seq<Byte>, pos: nat)
  {
    exists sym: nat :: Matches(lens, s, pos, sym)
  }

  /** Sum over the symbols of 2^(16-length): Kraft's sum scaled by 2^16. */
  function KraftSum(lens: seq<nat>): nat
    requires Lengths(lens)
  {
    if lens == [] then 0
    else
      var k := lens[|lens| - 1];
      KraftSum(lens[..|lens| - 1]) + if k == 0 then 0 else Pow2(16 - k)
  }

  predicate Lengths(lens: seq<nat>)
  {
    forall i :: 0 <= i < |lens| ==> lens[i] <= 16
  }

  predicate AllZero(lens: seq<nat>)
  {
    forall i :: 0 <= i < |lens| ==> lens[i] == 0
  }

  predicate NoneZero(lens: seq<nat>)
  {
    forall i :: 0 <= i < |lens| ==> lens[i] > 0
  }

  predicate Complete(lens: seq<nat>)
  {
    Lengths(lens) && KraftSum(lens) == 65536
  }

  // ----- Codes as intervals -----

  /** A count of codes for each length 0..16; entry 0 is not used. */
  type Counts = c: seq<nat> | |c| == 17 witness seq(17, i => 0)

  function CountsOf(lens: seq<nat>): Counts
  {
    seq(17, (k: nat) => Count(lens, k))
  }

  /** Codes shorter than k. */
  function Off(c: Counts, k: nat): nat
    requires 1 <= k <= 17
  {
    if k == 1 then 0 else Off(c, k - 1) + c[k - 1]
  }

  /** Where the codes of length k start among the 16-bit patterns. */
  function First(c: Counts, k: nat): nat
    requires 1 <= k <= 17
  {
    if k == 1 then 0 else First(c, k - 1) + c[k - 1] * Pow2(17 - k)
  }

  /** The first 16-bit pattern that starts with the t-th code of length k. */
  function At(c: Counts, k: nat, t: nat): nat
    requires 1 <= k <= 16
  {
    First(c, k) + t * Pow2(16 - k)
  }

  /** Code (k, t) precedes code (k', t'). */
  predicate Before(k: nat, t: nat, k': nat, t': nat)
  {
    k < k' || (k == k' && t < t')
  }

  predicate IsCode(c: Counts, k: nat, t: nat)
  {
    1 <= k <= 16 && t < c[k]
  }

  lemma {:induction false} FirstMono(c: Counts, k: nat, k': nat)
    requires 1 <= k <= k' <= 17
    ensures First(c, k) <= First(c, k')
    ensures Off(c, k) <= Off(c, k')
    decreases k'
  {
    if k < k' {
      FirstMono(c, k, k' - 1);
      MulMono(0, c[k' - 1], Pow2(17 - k'));
    }
  }

  /** The codes are laid out one after another. */
  lemma AtOrder(c: Counts, k: nat, t: nat, k': nat, t': nat)
    requires 1 <= k <= k' <= 16 && t < c[k] && Before(k, t, k', t')
    ensures At(c, k, t) + Pow2(16 - k) <= At(c, k', t')
  {
    if k == k' {
      MulMono(t + 1, t', Pow2(16 - k));
      assert (t + 1) * Pow2(16 - k) == t * Pow2(16 - k) + Pow2(16 - k);
    } else {
      MulMono(t + 1, c[k], Pow2(16 - k));
      assert (t + 1) * Pow2(16 - k) == t * Pow2(16 - k) + Pow2(16 - k);
      assert First(c, k + 1) == First(c, k) + c[k] * Pow2(16 - k);
      FirstMono(c, k + 1, k');
      MulMono(0, t', Pow2(16 - k'));
    }
  }

  /** x is a multiple of d. */
  predicate Mult(x: nat, d: nat)
    requires d > 0
  {
    x % d == 0
  }

  lemma MultProduct(q: nat, d: nat)
    requires d > 0
    ensures Mult(q * d, d)
  {
    DivModUnique(q * d, d, q, 0);
  }

  lemma MultAdd(x: nat, y: nat, d: nat)
    requires d > 0 && Mult(x, d) && Mult(y, d)
    ensures Mult(x + y, d)
  {
    var a, b := x / d, y / d;
    assert x == a * d && y == b * d;
    assert (a + b) * d == a * d + b * d;
    MultProduct(a + b, d);
  }

  /** Consecutive multiples are d apart. */
  lemma MultGap(x: nat, y: nat, d: nat)
    requires d > 0 && Mult(x, d) && Mult(y, d) && x < y
    ensures x + d <= y
  {
    var a, b := x / d, y / d;
    assert x == a * d && y == b * d;
    MulLess(a, b, d);
    MulMono(a + 1, b, d);
    assert (a + 1) * d == a * d + d;
  }

  lemma MultPow(x: nat, a: nat, b: nat)
    requires b <= a && Mult(x, Pow2(a))
    ensures Mult(x, Pow2(b))
  {
    Pow2Add(a - b, b);
    var q := x / Pow2(a);
    assert x == q * Pow2(a);
    MulAssoc(q, Pow2(a - b), Pow2(b));
    MultProduct(q * Pow2(a - b), Pow2(b));
  }

  lemma {:induction false} FirstMult(c: Counts, k: nat)
    requires 1 <= k <= 17
    ensures Mult(First(c, k), Pow2(17 - k))
  {
    if k == 1 {
      MultProduct(0, Pow2(16));
    } else {
      hide Mult;
      FirstMult(c, k - 1);
      MultPow(First(c, k - 1), 18 - k, 17 - k);
      MultProduct(c[k - 1], Pow2(17 - k));
      MultAdd(First(c, k - 1), c[k - 1] * Pow2(17 - k), Pow2(17 - k));
    }
  }

  lemma AtMult(c: Counts, k: nat, t: nat)
    requires 1 <= k <= 16
    ensures Mult(At(c, k, t), Pow2(16 - k))
  {
    hide Mult;
    FirstMult(c, k);
    MultPow(First(c, k), 17 - k, 16 - k);
    MultProduct(t, Pow2(16 - k));
    MultAdd(First(c, k), t * Pow2(16 - k), Pow2(16 - k));
  }

  /** When the codes fill the space, each 16-bit pattern starts with one of them. */
  lemma FindCode(c: Counts, w: nat) returns (k: nat, t: nat)
    requires w < First(c, 17)
    ensures IsCode(c, k, t) && At(c, k, t) <= w < At(c, k, t) + Pow2(16 - k)
  {
    k := 1;
    while w >= First(c, k + 1)
      invariant 1 <= k <= 16 && First(c, k) <= w
      decreases 17 - k
    {
      k := k + 1;
    }
    t := DivBelow(w - First(c, k), c[k], Pow2(16 - k));
  }

  lemma DivBelow(r: nat, n: nat, d: nat) returns (t: nat)
    requires d > 0 && r < n * d
    ensures t < n && t * d <= r < t * d + d
  {
    DivNonnegative(r, d);
    t := r / d;
    assert r == t * d + r % d;
    MulLess(t, n, d);
  }

  /** Two codes that both start a pattern are the same code: no code is a prefix of another. */
  lemma CodeUnique(c: Counts, k: nat, t: nat, k': nat, t': nat, w: nat)
    requires IsCode(c, k, t) && At(c, k, t) <= w < At(c, k, t) + Pow2(16 - k)
    requires IsCode(c, k', t') && At(c, k', t') <= w < At(c, k', t') + Pow2(16 - k')
    ensures k == k' && t == t'
  {
    if Before(k, t, k', t') {
      AtOrder(c, k, t, k', t');
    } else if Before(k', t', k, t) {
      AtOrder(c, k', t', k, t);
    }
  }

  // ----- The two views agree -----

  lemma DoubleSum(n: int, m: int, p: int)
    ensures (2 * (n + m)) * p == n * (2 * p) + m * (2 * p)
  {
  }

  lemma {:induction false} NextCodeIsFirst(lens: seq<nat>, k: nat)
    requires 1 <= k <= 16
    ensures NextCode(lens, k) * Pow2(16 - k) == First(CountsOf(lens), k)
  {
    if k > 1 {
      NextCodeIsFirst(lens, k - 1);
      var n, m, p := NextCode(lens, k - 1), Count(lens, k - 1), Pow2(16 - k);
      DoubleSum(n, m, p);
      assert Pow2(17 - k) == 2 * p;
    } else {
      assert NextCode(lens, 1) == 2 * (NextCode(lens, 0) + 0);
    }
  }

  /** The code of a symbol, read at pos, is the interval around the next sixteen bits. */
  lemma MatchesIsInterval(lens: seq<nat>, s: seq<Byte>, pos: nat, sym: nat)
    requires Lengths(lens) && sym < |lens| && lens[sym] > 0
    ensures var c := CountsOf(lens); var k := lens[sym]; var w := Msb(s, pos, 16);
            && IsCode(c, k, Rank(lens, sym))
            && (Matches(lens, s, pos, sym)
                <==> At(c, k, Rank(lens, sym)) <= w < At(c, k, Rank(lens, sym)) + Pow2(16 - k))
  {
    var c, k, t, w := CountsOf(lens), lens[sym], Rank(lens, sym), Msb(s, pos, 16);
    RankBound(lens, sym);
    NextCodeIsFirst(lens, k);
    MsbConcat(s, pos, k, 16 - k);
    IntervalOf(w, Msb(s, pos, k), Msb(s, pos + k, 16 - k), NextCode(lens, k), t, Pow2(16 - k));
  }

  lemma IntervalOf(w: nat, m: nat, r: nat, n: nat, t: nat, d: nat)
    requires w == m * d + r && r < d
    ensures m == n + t <==> n * d + t * d <= w < n * d + t * d + d
  {
    var code := n + t;
    assert code * d == n * d + t * d;
    if m < code { MulMono(m + 1, code, d); assert (m + 1) * d == m * d + d; }
    if m > code { MulMono(code + 1, m, d); assert (code + 1) * d == code * d + d; }
  }

  lemma {:induction false} CountPrefix(lens: seq<nat>, i: nat, k: nat)
    requires i <= |lens|
    ensures Count(lens[..i], k) <= Count(lens, k)
    decreases |lens|
  {
    if i == |lens| {
      assert lens[..i] == lens;
    } else {
      CountPrefix(lens[..|lens| - 1], i, k);
      assert lens[..|lens| - 1][..i] == lens[..i];
    }
  }

  lemma RankBound(lens: seq<nat>, sym: nat)
    requires sym < |lens|
    ensures Rank(lens, sym) < Count(lens, lens[sym])
  {
    CountPrefix(lens, sym + 1, lens[sym]);
    assert lens[..sym + 1][..sym] == lens[..sym];
  }

  /** Every code number below the count of its length belongs to a symbol. */
  lemma {:induction false} SymbolOf(lens: seq<nat>, k: nat, t: nat) returns (sym: nat)
    requires t < Count(lens, k)
    ensures sym < |lens| && lens[sym] == k && Rank(lens, sym) == t
    decreases |lens|
  {
    var n := |lens| - 1;
    if t < Count(lens[..n], k) {
      sym := SymbolOf(lens[..n], k, t);
      assert lens[..n][..sym] == lens[..sym];
    } else {
      sym := n;
    }
  }

  /** Symbols of one length get increasing code numbers. */
  lemma RankOrder(lens: seq<nat>, a: nat, b: nat)
    requires a < b < |lens| && lens[a] == lens[b]
    ensures Rank(lens, a) < Rank(lens, b)
  {
    RankBound(lens[..b], a);
    assert lens[..b][..a] == lens[..a];
  }

  lemma RankInjective(lens: seq<nat>, a: nat, b: nat)
    requires a < |lens| && b < |lens| && lens[a] == lens[b] && Rank(lens, a) == Rank(lens, b)
    ensures a == b
  {
    if a < b { RankOrder(lens, a, b); }
    if b < a { RankOrder(lens, b, a); }
  }

  /** At most one symbol's code starts the bits at pos. */
  lemma MatchUnique(lens: seq<nat>, s: seq<Byte>, pos: nat, a: nat, b: nat)
    requires Lengths(lens) && Matches(lens, s, pos, a) && Matches(lens, s, pos, b)
    ensures a == b
  {
    MatchesIsInterval(lens, s, pos, a);
    MatchesIsInterval(lens, s, pos, b);
    CodeUnique(CountsOf(lens), lens[a], Rank(lens, a), lens[b], Rank(lens, b), Msb(s, pos, 16));
    RankInjective(lens, a, b);
  }

  /** One more code of length k >= 1 moves everything after it. */
  lemma {:induction false} FirstBump(c: Counts, c': Counts, k: nat, j: nat)
    requires 1 <= k <= 16 && 1 <= j <= 17
    requires forall i :: 1 <= i <= 16 ==> c'[i] == c[i] + if i == k then 1 else 0
    ensures First(c', j) == First(c, j) + if j > k then Pow2(16 - k) else 0
  {
    if j > 1 {
      FirstBump(c, c', k, j - 1);
      assert (c[j - 1] + 1) * Pow2(17 - j) == c[j - 1] * Pow2(17 - j) + Pow2(17 - j);
    }
  }

  lemma {:induction false} FirstSame(c: Counts, c': Counts, j: nat)
    requires 1 <= j <= 17
    requires forall i :: 1 <= i < j ==> c'[i] == c[i]
    ensures First(c', j) == First(c, j) && Off(c', j) == Off(c, j)
  {
    if j > 1 { FirstSame(c, c', j - 1); }
  }

  lemma {:induction false} FirstZero(c: Counts, j: nat)
    requires 1 <= j <= 17
    requires forall i :: 1 <= i < j ==> c[i] == 0
    ensures First(c, j) == 0 && Off(c, j) == 0
  {
    if j > 1 { FirstZero(c, j - 1); }
  }

  /** The intervals fill exactly Kraft's sum. */
  lemma {:induction false} KraftIsFirst(lens: seq<nat>)
    requires Lengths(lens)
    ensures KraftSum(lens) == First(CountsOf(lens), 17)
  {
    var n := |lens| - 1;
    if lens == [] {
      FirstZero(CountsOf([]), 17);
    } else {
      KraftIsFirst(lens[..n]);
      var c, c' := CountsOf(lens[..n]), CountsOf(lens);
      if lens[n] == 0 {
        FirstSame(c, c', 17);
      } else {
        FirstBump(c, c', lens[n], 17);
      }
    }
  }

  /** In a complete set every bit string starts with some symbol's code. */
  lemma CompleteMatches(lens: seq<nat>, s: seq<Byte>, pos: nat)
    requires Complete(lens)
    ensures SomeMatch(lens, s, pos)
  {
    hide Matches;
    hide Msb;
    hide Pow2;
    KraftIsFirst(lens);
    MsbConcat(s, pos, 0, 16);
    Pow2Sixteen();
    var k, t := FindCode(CountsOf(lens), Msb(s, pos, 16));
    var sym := SymbolOf(lens, k, t);
    MatchesIsInterval(lens, s, pos, sym);
    assert Matches(lens, s, pos, sym);
  }
}
