/** From code lengths to the trees inflate_codes walks: the fixed sets, and which dynamic sets are accepted. */
module InflateTrees {
  import opened Bits
  import opened BitStream
  import opened Huffman
  import opened HuftTables
  import opened HuftBuild
  import opened InflateSpec
  import opened Inflater
  import opened InflateCodes

  // ----- Kraft sums -----

  lemma {:induction false} KraftConcat(a: seq<nat>, b: seq<nat>)
    requires Lengths(a) && Lengths(b)
    ensures Lengths(a + b) && KraftSum(a + b) == KraftSum(a) + KraftSum(b)
  {
    if b == [] {
      assert a + b == a;
    } else {
      var n := |b| - 1;
      KraftConcat(a, b[..n]);
      assert (a + b)[..|a + b| - 1] == a + b[..n];
    }
  }

  lemma {:induction false} KraftRepeat(x: nat, n: nat)
    requires 1 <= x <= 16
    ensures KraftSum(Repeat(x, n)) == n * Pow2(16 - x)
  {
    if n > 0 {
      KraftRepeat(x, n - 1);
      assert Repeat(x, n)[..n - 1] == Repeat(x, n - 1);
      NextMultiple(n - 1, Pow2(16 - x));
    }
  }

  /** Few codes, all of them long, cannot fill the code space. */
  lemma {:induction false} KraftAtMost(lens: seq<nat>, k: nat)
    requires Lengths(lens) && k <= 16 && forall i :: 0 <= i < |lens| && lens[i] > 0 ==> k <= lens[i]
    ensures KraftSum(lens) <= |lens| * Pow2(16 - k)
  {
    if lens != [] {
      var n := |lens| - 1;
      KraftAtMost(lens[..n], k);
      NextMultiple(n, Pow2(16 - k));
      if lens[n] > 0 { Pow2Mono(16 - lens[n], 16 - k); }
    }
  }

  /** Codes of one bit each. */
  lemma {:induction false} KraftOnes(lens: seq<nat>)
    requires forall i :: 0 <= i < |lens| ==> lens[i] == 1
    ensures Lengths(lens) && KraftSum(lens) == |lens| * 32768
  {
    KraftRepeat(1, |lens|);
    Pow2Sixteen();
    assert lens == Repeat(1, |lens|);
  }

  lemma FixedLitComplete()
    ensures Complete(FixedLit())
  {
    hide Pow2;
    Pow2Sixteen();
    assert Pow2(7) == 128 && Pow2(9) == 512 by { SmallPows(); }
    var a, b, c, d := Repeat(8, 144), Repeat(9, 112), Repeat(7, 24), Repeat(8, 8);
    KraftRepeat(8, 144);
    KraftRepeat(9, 112);
    KraftRepeat(7, 24);
    KraftRepeat(8, 8);
    KraftConcat(a, b);
    KraftConcat(a + b, c);
    KraftConcat(a + b + c, d);
    assert FixedLit() == a + b + c + d;
  }

  lemma SmallPows()
    ensures Pow2(6) == 64 && Pow2(7) == 128 && Pow2(9) == 512 && Pow2(11) == 2048
  {
  }

  lemma FixedDistSum()
    ensures KraftSum(FixedDist()) == 61440
  {
    hide Pow2;
    SmallPows();
    KraftRepeat(5, 30);
    assert FixedDist() == Repeat(5, 30);
  }

  // ----- What huft_build's bounds mean for the trees -----

  /** The part of huft_build's promise about the number of root bits. */
  predicate RootBits(lens: seq<nat>, m0: nat, m: nat)
  {
    && (m <= m0 || forall i :: 0 <= i < |lens| && lens[i] > 0 ==> m <= lens[i])
    && (m0 <= m || forall i :: 0 <= i < |lens| ==> lens[i] <= m)
    && (exists i :: 0 <= i < |lens| && m <= lens[i])
  }

  /** A set huft_build returns 0 for: nothing at all, complete, or one code of one bit. */
  lemma AcceptedKinds(lens: seq<nat>)
    requires Lengths(lens) && !TooMany(lens) && !Incomplete(lens)
    ensures Complete(lens) || forall i :: 0 <= i < |lens| ==> lens[i] <= 1
  {
  }

  lemma AcceptedBits(lens: seq<nat>, a: Alphabet, m0: nat, m: nat)
    requires Lengths(lens) && !AllZero(lens) && |lens| <= a.Size() && RootBits(lens, m0, m) && 1 <= m <= 16
    requires !TooMany(lens) && !Incomplete(lens)
    requires match a
             case CodeLengths => m0 == 7 && forall i :: 0 <= i < |lens| ==> lens[i] <= 7
             case Literals => m0 == 9 && forall i :: 0 <= i < |lens| ==> lens[i] <= 15
             case Distances => m0 == 6 && forall i :: 0 <= i < |lens| ==> lens[i] <= 15
    ensures m <= 9 && Roomy(lens, m)
  {
    hide Pow2;
    hide KraftSum;
    AcceptedKinds(lens);
    if m > m0 && Complete(lens) { NotFilled(lens, m0, m); }
    if a == Distances && m0 <= m { ManyPatterns(m); }
  }

  lemma ManyPatterns(m: nat)
    requires 6 <= m
    ensures Pow2(m) >= 64
  {
    Pow2Mono(6, m);
    SmallPows();
  }

  /** Sets this small cannot be complete with codes longer than the root table is wide. */
  lemma NotFilled(lens: seq<nat>, m0: nat, m: nat)
    requires Lengths(lens) && m0 < m <= 16
    requires forall i :: 0 <= i < |lens| && lens[i] > 0 ==> m <= lens[i]
    requires (m0 == 7 && |lens| <= 19) || (m0 == 9 && |lens| <= 288) || (m0 == 6 && |lens| <= 30)
    ensures KraftSum(lens) < 65536
  {
    hide KraftSum;
    KraftAtMost(lens, m);
    Pow2Mono(16 - m, 16 - (m0 + 1));
    FewCodes(|lens|, m0, Pow2(16 - m));
  }

  lemma FewCodes(n: nat, m0: nat, d: nat)
    requires (m0 == 7 && n <= 19) || (m0 == 9 && n <= 288) || (m0 == 6 && n <= 30)
    requires d <= Pow2(16 - (m0 + 1))
    ensures n * d < 65536
  {
    SmallPows();
    Pow2Sixteen();
    assert Pow2(16 - (m0 + 1)) == if m0 == 7 then 256 else if m0 == 9 then 64 else 512;
    MulMono(d, Pow2(16 - (m0 + 1)), n);
  }

  /** A call of huft_build for one of the alphabets, with what its result means for decoding. */
  method BuildTree(lens: seq<nat>, a: Alphabet, m0: nat) returns (r: nat, t: Tree)
    requires 0 < |lens| <= a.Size()
    requires match a
             case CodeLengths => m0 == 7 && forall i :: 0 <= i < |lens| ==> lens[i] <= 7
             case Literals => m0 == 9 && forall i :: 0 <= i < |lens| ==> lens[i] <= 15
             case Distances => m0 == 6 && forall i :: 0 <= i < |lens| ==> lens[i] <= 15
    ensures Lengths(lens) && r <= 2
    ensures (r == 2 <==> TooMany(lens)) && (r == 1 <==> Incomplete(lens))
    ensures r == 0 ==> TreeOk(t, lens, a) && (AllZero(lens) || (m0 <= t.m || forall i :: 0 <= i < |lens| ==> lens[i] <= t.m))
  {
    hide Pow2;
    hide Linked;
    hide KraftSum;
    hide Serves;
    hide Roomy;
    var ts, m;
    ExtraBits(a);
    r, ts, m := HuftBuild.HuftBuild(lens, a.Simple(), a.Base(), a.Extra(), m0);
    t := Tree(ts, m);
    if AllZero(lens) {
      KraftNone(lens);
    } else if r == 0 {
      AcceptedBits(lens, a, m0, m);
    }
  }

  /** The fixed literal and length codes' lengths. */
  method FillFixedLit(l: array<nat>)
    requires l.Length == 288
    modifies l
    ensures l[..] == FixedLit()
  {
    for i := 0 to 144
      invariant forall j :: 0 <= j < i ==> l[j] == 8
    {
      l[i] := 8;
    }
    for i := 144 to 256
      invariant forall j :: 0 <= j < i ==> l[j] == if j < 144 then 8 else 9
    {
      l[i] := 9;
    }
    for i := 256 to 280
      invariant forall j :: 0 <= j < i ==> l[j] == if j < 144 then 8 else if j < 256 then 9 else 7
    {
      l[i] := 7;
    }
    for i := 280 to 288
      invariant forall j :: 0 <= j < i ==> l[j] == if j < 144 then 8 else if j < 256 then 9 else if j < 280 then 7 else 8
    {
      l[i] := 8;
    }
  }

  /** The literal/length tree of a fixed block. */
  method FixedLitTree(lens: seq<nat>) returns (t: Tree)
    requires lens == FixedLit()
    ensures TreeOk(t, lens, Literals)
  {
    hide Pow2;
    hide Linked;
    hide KraftSum;
    hide Serves;
    FixedLitComplete();
    FixedLitLens();
    ExtraBits(Literals);
    var r, ts, m := HuftBuild.HuftBuild(lens, 257, CPLENS, CPLEXT, 7);
    FixedBits(m);
    t := Tree(ts, m);
  }

  /** The distance tree of a fixed block: thirty codes of five bits, two patterns left over. */
  method FixedDistTree(lens: seq<nat>) returns (t: Tree)
    requires lens == FixedDist()
    ensures TreeOk(t, lens, Distances)
  {
    hide Pow2;
    hide Linked;
    hide KraftSum;
    hide Serves;
    FixedDistSum();
    FixedDistLens();
    ExtraBits(Distances);
    var r, ts, m := HuftBuild.HuftBuild(lens, 0, CPDIST, CPDEXT, 5);
    FixedDistBits(m);
    t := Tree(ts, m);
  }

  /** The trees of section 3.2.6. */
  method FixedTrees() returns (tl: Tree, td: Tree)
    ensures TreeOk(tl, FixedLit(), Literals) && TreeOk(td, FixedDist(), Distances)
  {
    hide TreeOk;
    var l := new nat[288];
    FillFixedLit(l);
    tl := FixedLitTree(l[..]);
    for i := 0 to 30
      invariant forall j :: 0 <= j < i ==> l[j] == 5
    {
      l[i] := 5;
    }
    assert l[..30] == FixedDist();
    td := FixedDistTree(l[..30]);
  }

  lemma FixedLitLens()
    ensures !AllZero(FixedLit()) && forall i :: 0 <= i < 288 ==> FixedLit()[i] <= 9
  {
    assert FixedLit()[0] == 8;
  }

  lemma FixedDistLens()
    ensures !AllZero(FixedDist()) && forall i :: 0 <= i < 30 ==> FixedDist()[i] == 5
  {
    assert FixedDist()[0] == 5;
  }

  lemma FixedBits(m: nat)
    requires RootBits(FixedLit(), 7, m)
    ensures m == 7
  {
    assert FixedLit()[0] == 8 && FixedLit()[144] == 9 && FixedLit()[256] == 7;
  }

  lemma FixedDistBits(m: nat)
    requires RootBits(FixedDist(), 5, m)
    ensures m == 5
  {
    assert FixedDist()[0] == 5;
  }
}
