/** The inner steps of huft_build: storing a slot and counting codes upwards in reversed bit order. */
module HuftFill {
  import opened Bits
  import opened BitStream
  import opened Huffman
  import opened HuftTables
  import opened HuftSize

  // ----- Storing one entry in every slot that starts with a code -----

  /** Every slot whose low bits are the code gets the entry: those from start on in steps of f. */
  method FillSlots(ts: Tables, q: nat, start: nat, u: nat, r: Huft) returns (ts': Tables)
    requires q < |ts| && start < Pow2(u)
    ensures |ts'| == |ts| && |ts'[q]| == |ts[q]|
    ensures forall t :: 0 <= t < |ts| && t != q ==> ts'[t] == ts[t]
    ensures forall j :: 0 <= j < |ts[q]| ==> ts'[q][j] == if Low(j, u) == start then r else ts[q][j]
  {
    hide Low;
    hide Pow2;
    ts' := ts;
    var f, z, j := Pow2(u), |ts[q]|, start;
    SplitUnique(j, u, 0, j);
    ghost var m := 0;
    while j < z
      invariant j == m * f + start
      invariant |ts'| == |ts| && |ts'[q]| == z
      invariant forall t :: 0 <= t < |ts| && t != q ==> ts'[t] == ts[t]
      invariant forall i :: 0 <= i < z ==> ts'[q][i] == if Low(i, u) == start && i < j then r else ts[q][i]
      decreases z - j
    {
      SplitUnique(j, u, m, start);
      forall i: nat | j < i < j + f
        ensures Low(i, u) != start
      {
        NextResidue(i, u, m, start);
      }
      ts' := ts'[q := ts'[q][j := r]];
      j := j + f;
      m := m + 1;
      NextMultiple(m - 1, f);
    }
  }

  lemma NextResidue(i: nat, u: nat, m: nat, start: nat)
    requires m * Pow2(u) + start < i < m * Pow2(u) + start + Pow2(u)
    ensures Low(i, u) != start
  {
    hide Low;
    hide Pow2;
    hide Shr;
    var q := Shr(i, u);
    var d := Pow2(u);
    assert i == q * d + Low(i, u);
    NextMultiple(m, d);
    if q <= m { MulMono(q, m, d); } else { MulMono(m + 1, q, d); }
  }

  // ----- The reversed counter -----

  /** Clear set bits from the top of the k-bit code down, then set the first clear one. */
  method NextReversed(i0: nat, k: nat, ghost cur: nat) returns (i: nat)
    requires 1 <= k <= 16 && cur + Pow2(16 - k) <= 65536 && Mult(cur, Pow2(16 - k)) && i0 == Rev(16, cur)
    ensures cur + Pow2(16 - k) < 65536 ==> i == Rev(16, cur + Pow2(16 - k))
    ensures cur + Pow2(16 - k) == 65536 ==> i == 0
  {
    hide Rev;
    hide Pow2;
    hide And;
    hide Xor;
    hide Shr;
    ghost var code := CodeBits(cur, k);
    i := i0;
    var j := Pow2(k - 1);
    ghost var b: int := k - 1;  // j is bit b, or zero once b is -1
    assert k == b + 1;
    TopBit(i, k - 1);
    while And(i, j) != 0
      invariant -1 <= b < k && Counted(i, i0, k, b) && BitProbe(i, j, b)
      decreases b
    {
      i := Xor(i, j);
      j := Shr(j, 1);
      b := b - 1;
      CountStep(j, b + 1);
      if b >= 0 {
        TopBit(i, b);
      } else {
        ProbeZero(i);
      }
    }
    if b >= 0 {
      Increment(i, i0, k, b, code);
      NextPattern(cur, k, code, i + Pow2(b));
    } else {
      Wrap(i, i0, k, cur, code);
    }
    i := Xor(i, j);
  }

  /** i is i0 with its bits above b, all of them ones, cleared. */
  predicate Counted(i: nat, i0: nat, k: nat, b: int)
    requires -1 <= b < k
  {
    i < Pow2(b + 1) && i0 + Pow2(b + 1) == i + Pow2(k)
  }

  predicate BitProbe(i: nat, j: nat, b: int)
    requires -1 <= b
  {
    if b < 0 then j == 0 && And(i, j) == 0 && Xor(i, j) == i
    else
      && j == Pow2(b)
      && And(i, j) == (if i >= j then j else 0)
      && Xor(i, j) == if i >= j then i - j else i + j
  }

  lemma CountStep(j: nat, b: int)
    requires b >= 0 && j == Shr(Pow2(b), 1)
    ensures j == if b == 0 then 0 else Pow2(b - 1)
    ensures Pow2(b + 1) == 2 * Pow2(b)
  {
    if b == 0 { SplitUnique(1, 1, 0, 1); } else { SplitUnique(Pow2(b), 1, Pow2(b - 1), 0); }
  }

  lemma ProbeZero(i: nat)
    ensures And(i, 0) == 0 && Xor(i, 0) == i
  {
  }

  /** The k bits of the current code, and the counter as their reversal. */
  lemma CodeBits(cur: nat, k: nat) returns (code: nat)
    requires k <= 16 && cur < 65536 && Mult(cur, Pow2(16 - k))
    ensures cur == code * Pow2(16 - k) && code < Pow2(k) && Rev(k, Rev(16, cur)) == code && Rev(16, cur) < Pow2(k)
  {
    hide Rev;
    hide Pow2;
    hide Shr;
    Pow2Sixteen();
    CounterBits(cur, k, k);
    ShrZero(Rev(16, cur), k);
    code := Shr(cur, 16 - k);
    DivNonnegative(cur, Pow2(16 - k));
    assert cur == (cur / Pow2(16 - k)) * Pow2(16 - k) + 0;
    SplitUnique(cur, 16 - k, cur / Pow2(16 - k), 0);
    RevRev(k, code);
  }

  lemma Increment(i: nat, i0: nat, k: nat, b: nat, code: nat)
    requires b < k && Counted(i, i0, k, b) && i < Pow2(b) && Rev(k, i0) == code
    ensures Rev(k, i + Pow2(b)) == code + 1 && i + Pow2(b) < Pow2(k)
  {
    hide Rev;
    var n := k - b - 1;
    var ones := Pow2(n) - 1;
    Pow2Add(b + 1, n);
    Pow2Mono(b + 1, k);
    assert i0 == i + Pow2(b + 1) * ones by { AllOnes(Pow2(b + 1), Pow2(n)); }
    RevConcat(b + 1, n, i, ones);
    RevOnes(n);
    RevOne(0);
    RevOne(1);
    Pow2Sixteen();
    assert Rev(b + 1, i) == Rev(b, i) * 2 by {
      RevConcat(b, 1, i, 0);
    }
    assert Rev(b + 1, i + Pow2(b)) == Rev(b, i) * 2 + 1 by {
      RevConcat(b, 1, i, 1);
    }
    RevConcat(b + 1, n, i + Pow2(b), 0);
    RevZero(n);
    SumTimes(Rev(b, i) * 2, 1, Pow2(n));
  }

  lemma AllOnes(a: nat, b: nat)
    ensures a * (b - 1) == a * b - a
  {
  }

  lemma NextPattern(cur: nat, k: nat, code: nat, i: nat)
    requires k <= 16 && cur == code * Pow2(16 - k) && i < Pow2(k) && Rev(k, i) == code + 1
    ensures cur + Pow2(16 - k) < 65536 && i == Rev(16, cur + Pow2(16 - k))
  {
    hide Rev;
    hide Pow2;
    var d := Pow2(16 - k);
    NextMultiple(code, d);
    RevBound(k, i);
    RevRev(k, i);
    RevConcat(16 - k, k, 0, code + 1);
    RevZero(16 - k);
    Pow2Sixteen();
    Pow2Add(16 - k, k);
    MulMono(code + 2, Pow2(k), d);
    NextMultiple(code + 1, d);
    assert d * (code + 1) == (code + 1) * d;
  }

  lemma Wrap(i: nat, i0: nat, k: nat, cur: nat, code: nat)
    requires 1 <= k <= 16 && Counted(i, i0, k, -1) && Rev(k, i0) == code && cur == code * Pow2(16 - k)
    ensures i == 0 && cur + Pow2(16 - k) == 65536
  {
    hide Rev;
    Pow2Sixteen();
    RevOnes(k);
    Pow2Add(k, 16 - k);
    NextMultiple(code, Pow2(16 - k));
  }
}
