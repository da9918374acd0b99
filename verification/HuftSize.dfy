/** How huft_build chooses the number of index bits of a new table. */
module HuftSize {
  import opened Bits
  import opened BitStream
  import opened Huffman
  import opened HuftTables
  import opened HuftWide

  /** No code reaches past the last one. */
  lemma AtBelow(c: Counts, k: nat, q: nat)
    requires IsCode(c, k, q)
    ensures At(c, k, q) + Pow2(16 - k) <= First(c, 17)
  {
    MulMono(q + 1, c[k], Pow2(16 - k));
    NextMultiple(q, Pow2(16 - k));
    assert First(c, k + 1) == First(c, k) + c[k] * Pow2(16 - k);
    FirstMono(c, k + 1, 17);
  }

  lemma FirstEnd(c: Counts, g: nat)
    requires 1 <= g <= 16 && forall k :: g < k <= 16 ==> c[k] == 0
    ensures First(c, g + 1) == First(c, 17) && Off(c, g + 1) == Off(c, 17)
  {
    var j := 17;
    while j > g + 1
      invariant g + 1 <= j <= 17 && First(c, j) == First(c, 17) && Off(c, j) == Off(c, 17)
    {
      j := j - 1;
    }
  }

  /** Codes of length k or more cover at most Pow2(16 - k) patterns each. */
  lemma {:induction false} CoverBound(c: Counts, k: nat, j: nat)
    requires 1 <= k <= j <= 17
    ensures Off(c, k) <= Off(c, j)
    ensures k <= 16 ==> First(c, j) - First(c, k) <= (Off(c, j) - Off(c, k)) * Pow2(16 - k)
    decreases j
  {
    if j > k {
      CoverBound(c, k, j - 1);
      Pow2Mono(17 - j, 16 - k);
      CoverStep(Off(c, j - 1) - Off(c, k), c[j - 1], Pow2(17 - j), Pow2(16 - k));
    }
  }

  lemma CoverStep(a: nat, b: nat, p: nat, d: nat)
    requires p <= d
    ensures a * d + b * p <= (a + b) * d
  {
    SumTimes(a, b, d);
    MulMono(p, d, b);
  }

  /** A block of Pow2(16 - w) patterns that starts with code (k, q) holds at least Pow2(k - w) codes. */
  lemma BlockCount(c: Counts, k: nat, q: nat, w: nat)
    requires IsCode(c, k, q) && w <= k && First(c, 17) == 65536
    requires At(c, k, q) + Pow2(16 - w) <= 65536
    ensures Off(c, k) + q + Pow2(k - w) <= Off(c, 17)
  {
    hide First;
    hide Off;
    hide Pow2;
    CoverBound(c, k, 17);
    Pow2Add(k - w, 16 - k);
    BlockArith(Off(c, 17) - Off(c, k), q, Pow2(k - w), Pow2(16 - k), First(c, 17) - First(c, k));
  }

  lemma BlockArith(n: nat, q: nat, p: nat, d: nat, f: int)
    requires d > 0 && q * d + p * d <= f <= n * d
    ensures q + p <= n
  {
    SumTimes(q, p, d);
    if q + p > n { MulMono(n + 1, q + p, d); NextMultiple(n, d); }
  }

  /** The block that contains pattern cur, when cur is its first. */
  lemma BlockAt(cur: nat, w: nat)
    requires w <= 16 && Mult(cur, Pow2(16 - w)) && cur < 65536
    ensures Info(w, Shr(cur, 16 - w), 0).Valid() && Info(w, Shr(cur, 16 - w), 0).Start() == cur
    ensures cur + Pow2(16 - w) <= 65536
  {
    hide Pow2;
    hide Shr;
    Pow2Sixteen();
    var m := cur / Pow2(16 - w);
    DivNonnegative(cur, Pow2(16 - w));
    assert cur == m * Pow2(16 - w) + 0;
    SplitUnique(cur, 16 - w, m, 0);
    Pow2Add(w, 16 - w);
    MulLess(m, Pow2(w), Pow2(16 - w));
    BlockInRange(Info(w, m, 0));
  }

  /** All codes in a block that ends where the codes of length n + 1 start are at most n bits long. */
  lemma BlockSized(job: Job, w: nat, cur: nat, nb: nat, n: nat)
    requires job.Valid() && w + nb <= 16 && cur < 65536 && Mult(cur, Pow2(16 - w))
    requires n <= 16 && n <= w + nb && First(job.c, n + 1) >= cur + Pow2(16 - w)
    ensures Info(w, Shr(cur, 16 - w), nb).Valid() && Sized(job, Info(w, Shr(cur, 16 - w), nb))
  {
    hide Pow2;
    hide Shr;
    hide First;
    BlockAt(cur, w);
    var i := Info(w, Shr(cur, 16 - w), nb);
    forall k: nat, q: nat | IsCode(job.c, k, q) && i.Contains(At(job.c, k, q))
      ensures k <= w + nb
    {
      if k > n {
        FirstMono(job.c, n + 1, k);
        MulMono(0, q, Pow2(16 - k));
      }
    }
  }

  /** j bits are enough for code (k, q) and, short of the limit l, for everything after it in the block. */
  ghost predicate SizeOk(job: Job, k: nat, q: nat, w: nat, j: nat)
    requires job.Valid() && 1 <= k <= 16 && w <= 16
  {
    var cur, i := At(job.c, k, q), Info(w, Shr(At(job.c, k, q), 16 - w), if j < job.l then j else job.l);
    && w < k && k - w <= j <= job.g - w
    && cur < 65536 && i.Valid() && Sized(job, i)
    && (w == 0 ==> j >= job.l)
    && (w > 0 ==> if Wide(job.c, job.l, i) then j > job.l else j <= job.l)
  }

  lemma SizeMeaning(job: Job, k: nat, q: nat, w: nat, j: nat, n: nat)
    requires job.Valid() && IsCode(job.c, k, q) && w < k <= job.g && (w == 0 || job.l <= w)
    requires At(job.c, k, q) < 65536 && Mult(At(job.c, k, q), Pow2(16 - w)) && (w == 0 ==> At(job.c, k, q) == 0)
    requires k - w <= j <= job.g - w && n <= w + j
    requires j < job.l ==> First(job.c, n + 1) >= At(job.c, k, q) + Pow2(16 - w)
    requires j > job.l && w > 0 ==> k - w >= job.l
    requires j == k - w <==> First(job.c, k + 1) >= At(job.c, k, q) + Pow2(16 - w)
    ensures SizeOk(job, k, q, w, j)
  {
    hide First;
    hide Shr;
    hide Mult;
    hide Pow2;
    var cur := At(job.c, k, q);
    hide At;
    BlockAt(cur, w);
    if j < job.l {
      BlockSized(job, w, cur, j, n);
    }
    if w > 0 {
      WideExactly(job.c, job.l, Info(w, Shr(cur, 16 - w), if j < job.l then j else job.l), k, q);
    }
    if w == 0 {
      RootBlock();
      LongestFits(job, if j < job.l then j else job.l);
    }
  }

  /** Whether a block that starts with code (k, q) is wide shows in k and in whether codes of that length fill it. */
  lemma WideExactly(c: Counts, l: nat, i: Info, k: nat, q: nat)
    requires i.Valid() && i.w > 0 && i.w < k && IsCode(c, k, q) && i.Start() == At(c, k, q)
    requires i.End() <= First(c, 17)
    ensures Wide(c, l, i) <==> k > i.w + l || (k == i.w + l && First(c, k + 1) < i.End())
  {
    hide First;
    hide At;
    hide Pow2;
    assert i.Contains(At(c, k, q)) by { StartInside(i); }
    forall k': nat, q': nat | IsCode(c, k', q') && i.Contains(At(c, k', q'))
      ensures k' >= k && (First(c, k + 1) >= i.End() ==> k' == k)
    {
      InBlock(c, k, q, k', q', i.End());
    }
    if k == i.w + l && First(c, k + 1) < i.End() {
      var k', q' := LongerCode(c, k, i.End());
      EndsWith(c, k, q);
    }
  }

  lemma StartInside(i: Info)
    requires i.Valid()
    ensures i.Contains(i.Start())
  {
  }

  /** A code in a block that starts with code (k, q) is not shorter, and not longer if the codes of length k fill it. */
  lemma InBlock(c: Counts, k: nat, q: nat, k': nat, q': nat, end: nat)
    requires IsCode(c, k, q) && IsCode(c, k', q') && At(c, k, q) <= At(c, k', q') < end
    ensures k' >= k && (First(c, k + 1) >= end ==> k' == k)
  {
    if k' < k { AtOrder(c, k', q', k, q); }
    if k' > k {
      FirstMono(c, k + 1, k');
      MulMono(0, q', Pow2(16 - k'));
    }
  }

  lemma EndsWith(c: Counts, k: nat, q: nat)
    requires IsCode(c, k, q)
    ensures At(c, k, q) + Pow2(16 - k) <= First(c, k + 1)
  {
    MulMono(q + 1, c[k], Pow2(16 - k));
    NextMultiple(q, Pow2(16 - k));
    assert First(c, k + 1) == First(c, k) + c[k] * Pow2(16 - k);
  }

  /** The pattern after the codes of length k starts a longer code. */
  lemma LongerCode(c: Counts, k: nat, end: nat) returns (k': nat, q': nat)
    requires 1 <= k <= 16 && First(c, k + 1) < end <= First(c, 17)
    ensures IsCode(c, k', q') && k' > k && At(c, k', q') == First(c, k + 1)
  {
    hide Pow2;
    k' := k + 1;
    q' := 0;
    while c[k'] == 0
      invariant k < k' <= 16 && First(c, k') == First(c, k + 1)
      decreases 17 - k'
    {
      assert First(c, k' + 1) == First(c, k');
      k' := k' + 1;
    }
  }

  /**
   The size of a new table: a table of k - w bits, widened while the codes left do not fill it.
   With this many bits either the table has l bits or nothing in its block is longer.
   */
  method SizeTable(ghost job: Job, c: Counts, k: nat, a: nat, w: nat, l: nat, g: nat) returns (j: nat)
    requires job.Valid() && c == job.c && l == job.l && g == job.g
    requires w < k <= g && a < c[k] && (w == 0 || l <= w) && (w == 0 ==> k <= l)
    requires Mult(At(c, k, c[k] - 1 - a), Pow2(16 - w)) && (w == 0 ==> At(c, k, c[k] - 1 - a) == 0)
    ensures SizeOk(job, k, c[k] - 1 - a, w, j)
  {
    hide At;
    hide First;
    hide Shr;
    hide Mult;
    hide Pow2;
    hide Unfilled;
    hide SizeOk;
    ghost var q := c[k] - 1 - a;
    ghost var cur := At(c, k, q);
    ghost var end := cur + Pow2(16 - w);
    AtBelow(c, k, q);
    BlockAt(cur, w);
    var z: nat := g - w;
    if z > l { z := l; }
    j := k - w;
    var f: int := Pow2(j);
    StartUnfilled(c, k, q, w);
    ghost var n := k;
    if f > a + 1 {
      f := f - (a + 1);
      StillOpen(c, k, f, end);
      var xp := k;
      j := j + 1;
      NoneLeft(job, k, f, end);
      while j < z
        invariant k - w < j && (j <= z || j == k - w + 1) && xp == w + j - 1 && k <= xp < g
        invariant f > 0 && Unfilled(c, xp, f, end)
        decreases z - j
      {
        WidenStep(c, xp, f, end);
        f := 2 * f;
        xp := xp + 1;
        if f <= c[xp] {
          FilledUp(c, xp, f - c[xp], end);
          break;
        }
        f := f - c[xp];
        NoneLeft(job, xp, f, end);
        j := j + 1;
      }
      n := w + j;
      if w + j == g { FirstEnd(c, g); }
      assert First(c, k + 1) < end;
    } else {
      FilledUp(c, k, f - (a + 1), end);
    }
    SizeMeaning(job, k, q, w, j, n);
  }

  lemma RootBlock()
    ensures Shr(0, 16) == 0
  {
    SplitUnique(0, 16, 0, 0);
  }

  /** f patterns of length n are left in a block once all codes of at most n bits are in place. */
  predicate Unfilled(c: Counts, n: nat, f: int, end: nat)
    requires 1 <= n <= 16
  {
    First(c, n + 1) == end - f * Pow2(16 - n)
  }

  lemma StartUnfilled(c: Counts, k: nat, q: nat, w: nat)
    requires IsCode(c, k, q) && w <= k
    ensures Unfilled(c, k, Pow2(k - w) - (c[k] - q), At(c, k, q) + Pow2(16 - w))
  {
    Pow2Add(k - w, 16 - k);
    SumTimes(q, c[k] - q, Pow2(16 - k));
    SumTimes(Pow2(k - w) - (c[k] - q), c[k] - q, Pow2(16 - k));
  }

  lemma WidenStep(c: Counts, n: nat, f: int, end: nat)
    requires 1 <= n < 16 && Unfilled(c, n, f, end)
    ensures Unfilled(c, n + 1, 2 * f - c[n + 1], end)
  {
    var d := Pow2(15 - n);
    assert Pow2(16 - n) == 2 * d;
    MulAssoc(f, 2, d);
    SumTimes(2 * f - c[n + 1], c[n + 1], d);
    assert First(c, n + 2) == First(c, n + 1) + c[n + 1] * Pow2(17 - (n + 2));
  }

  lemma FilledUp(c: Counts, n: nat, f: int, end: nat)
    requires 1 <= n <= 16 && Unfilled(c, n, f, end) && f <= 0
    ensures First(c, n + 1) >= end
  {
    MulMono(f, 0, Pow2(16 - n));
  }

  lemma StillOpen(c: Counts, n: nat, f: int, end: nat)
    requires 1 <= n <= 16 && Unfilled(c, n, f, end) && f > 0
    ensures First(c, n + 1) < end
  {
    MulMono(1, f, Pow2(16 - n));
  }

  /** A block with patterns left over is followed by longer codes. */
  lemma NoneLeft(job: Job, n: nat, f: int, end: nat)
    requires job.Valid() && 1 <= n <= job.g && Unfilled(job.c, n, f, end) && f > 0 && end <= 65536
    ensures n < job.g
  {
    if n == job.g {
      FirstEnd(job.c, n);
      MulMono(1, f, Pow2(16 - n));
    }
  }

  /** The root table covers every length up to the longest, so it has l bits. */
  lemma LongestFits(job: Job, j: nat)
    requires job.Valid() && j <= job.l
    requires Sized(job, Info(0, 0, j))
    ensures j == job.l
  {
    AtBelow(job.c, job.g, 0);
    Pow2Sixteen();
    assert IsCode(job.c, job.g, 0) && Info(0, 0, j).Contains(At(job.c, job.g, 0));
  }
}
