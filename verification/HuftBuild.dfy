/** huft_build of inflate.c: from code lengths to linked lookup tables. */
module HuftBuild {
  import opened Bits
  import opened BitStream
  import opened Huffman
  import opened HuftTables
  import opened HuftWide
  import opened HuftSize
  import opened HuftFill

  // ----- What the caller is promised -----

  function Longest(lens: seq<nat>): (g: nat)
    ensures forall i :: 0 <= i < |lens| ==> lens[i] <= g
    ensures lens != [] ==> g in lens
  {
    if lens == [] then 0
    else
      var h, last := Longest(lens[..|lens| - 1]), lens[|lens| - 1];
      if |lens| > 1 && h > last then h else last
  }

  /**
   A pattern p (16 bits) that no symbol owns belongs to a dummy code of the longest length. Its number, counting on from
   the symbols with a code.
   */
  function Leftover(lens: seq<nat>, p: nat): int
    requires Lengths(lens)
  {
    if lens == [] then 0 else Off(CountsOf(lens), 17) + (p - KraftSum(lens)) / Pow2(16 - Longest(lens))
  }

  /** What lookups find for it: the invalid code 99 if its number is past the list of values, else an unwritten
      element. */
  predicate Unowned(lens: seq<nat>, p: nat, h: Huft)
    requires Lengths(lens)
  {
    KraftSum(lens) <= p && if Leftover(lens, p) >= |lens| then h.Entry? && h.e == 99 else h == Wild
  }

  /** A lookup of the bits at pos ends in the slot of the symbol whose code starts there. */
  ghost predicate Decodes(lens: seq<nat>, simple: nat, base: seq<nat>, extra: seq<nat>, ts: Tables, m: nat,
                          s: seq<Byte>, pos: nat)
    requires Linked(ts) && 0 < |ts| && Pow2(m) <= |ts[0]|
    requires |lens| <= simple + |base| && |base| == |extra| && Lengths(lens)
  {
    var f := Walk(ts, 0, m, s, pos);
    && pos <= f.pos && WalkSafe(ts, 0, m, s, pos, 0)
    && (forall sym: nat :: Matches(lens, s, pos, sym) ==>
          && f.pos < pos + lens[sym] <= f.pos + f.nb
          && (f.pos == pos || m < lens[sym])
          && f.entry == Value(sym, pos + lens[sym] - f.pos, simple, base, extra))
    && (!SomeMatch(lens, s, pos) ==> Unowned(lens, Msb(s, pos, 16), f.entry))
  }

  ghost predicate Serves(lens: seq<nat>, simple: nat, base: seq<nat>, extra: seq<nat>, ts: Tables, m: nat)
    requires Linked(ts) && 0 < |ts| && Pow2(m) <= |ts[0]|
    requires |lens| <= simple + |base| && |base| == |extra| && Lengths(lens)
  {
    forall s: seq<Byte>, pos: nat {:trigger Walk(ts, 0, m, s, pos)} :: Decodes(lens, simple, base, extra, ts, m, s, pos)
  }

  /** The counts with the unused code space given to dummy codes of the longest length. */
  function Padded(lens: seq<nat>, g: nat, y: nat): Counts
    requires 1 <= g <= 16
  {
    CountsOf(lens)[g := Count(lens, g) + y]
  }

  function Full(lens: seq<nat>): Counts
    requires Lengths(lens) && KraftSum(lens) <= 65536
  {
    var g := Longest(lens);
    if lens == [] || g == 0 then CountsOf(lens)
    else
      DivNonnegative(65536 - KraftSum(lens), Pow2(16 - g));
      Padded(lens, g, (65536 - KraftSum(lens)) / Pow2(16 - g))
  }

  /**
   No table of m bits is followed by a block of codes that all take m more bits or longer, and some longer. This is what
   makes the tables right for every bit string.
   */
  ghost predicate Narrow(lens: seq<nat>, m: nat)
    requires Lengths(lens) && KraftSum(lens) <= 65536
  {
    m > 0 && NoneWide(Full(lens), m)
  }

  /** It holds under this bound, which every accepted set of inflate.c meets. */
  predicate Roomy(lens: seq<nat>, m: nat)
  {
    (forall i :: 0 <= i < |lens| ==> lens[i] <= 2 * m) || (Complete(lens) && |lens| <= Pow2(m))
  }

  predicate ValidLists(lens: seq<nat>, simple: nat, base: seq<nat>, extra: seq<nat>)
  {
    && 0 < |lens| <= 288 && Lengths(lens)
    && |lens| <= simple + |base| && |base| == |extra|
    && forall i :: 0 <= i < |extra| ==> extra[i] <= 13 || extra[i] == 99
  }

  // ----- Counting and sorting -----

  /** How often each length occurs. */
  method CountLengths(b: seq<nat>) returns (c: array<nat>)
    requires Lengths(b)
    ensures fresh(c) && c.Length == 17 && c[..] == CountsOf(b)
  {
    c := new nat[17](i => 0);
    var p, i := 0, |b|;
    while i > 0
      invariant 0 <= i && 0 <= p && p + i == |b|
      invariant forall k :: 0 <= k <= 16 ==> c[k] == Count(b[..p], k)
    {
      assert b[..p + 1][..p] == b[..p];
      c[b[p]] := c[b[p]] + 1;
      p := p + 1;
      i := i - 1;
    }
    assert b[..p] == b;
  }

  /** The test for a null set: as many zero lengths as lengths. */
  lemma NullSet(b: seq<nat>)
    requires Lengths(b)
    ensures Count(b, 0) == |b| <==> AllZero(b)
    ensures !AllZero(b) ==> exists k :: 1 <= k <= 16 && CountsOf(b)[k] > 0
  {
    OffBound(b);
    if AllZero(b) {
      forall k | 1 <= k < 17
        ensures CountsOf(b)[k] == 0
      {
        if Count(b, k) > 0 { var sym := SymbolOf(b, k, 0); }
      }
      FirstZero(CountsOf(b), 17);
    } else {
      var sym :| 0 <= sym < |b| && b[sym] != 0;
      IndexBound(b, sym);
      RankBound(b, sym);
      assert CountsOf(b)[b[sym]] > 0;
    }
  }

  /** The shortest and the longest length in use. */
  method FindRange(c: Counts) returns (j: nat, g: nat)
    requires exists k :: 1 <= k <= 16 && c[k] > 0
    ensures 1 <= j <= g <= 16 && c[j] > 0 && c[g] > 0
    ensures forall k :: 1 <= k < j || g < k <= 16 ==> c[k] == 0
  {
    j := 1;
    while j <= 16
      invariant 1 <= j <= 17 && forall k :: 1 <= k < j ==> c[k] == 0
    {
      if c[j] != 0 { break; }
      j := j + 1;
    }
    g := 16;
    while g > 0
      invariant j <= g <= 16 && forall k :: g < k <= 16 ==> c[k] == 0
    {
      if c[g] != 0 { break; }
      g := g - 1;
    }
  }

  /** y is what is left of the code space, or negative if the lengths ask for more. */
  method FillOut(c: array<nat>, j0: nat, g: nat) returns (y: int)
    requires c.Length == 17 && 1 <= j0 <= g <= 16
    requires forall k :: 1 <= k < j0 || g < k <= 16 ==> c[k] == 0
    modifies c
    ensures y < 0 ==> First(old(c[..]), 17) > 65536 && c[..] == old(c[..])
    ensures y >= 0 ==> First(old(c[..]), 17) + y * Pow2(16 - g) == 65536 && c[..] == old(c[..])[g := old(c[g]) + y]
  {
    hide Pow2;
    ghost var C: Counts := c[..];
    var j := j0;
    y := Pow2(j);
    Pow2Add(j, 16 - j);
    Pow2Sixteen();
    FirstZero(C, j);
    while j < g
      invariant j0 <= j <= g && c[..] == C
      invariant First(C, j) + y * Pow2(16 - j) == 65536
    {
      y := y - c[j];
      SpaceLeft(C, j, y);
      if y < 0 {
        return;
      }
      j := j + 1;
      y := 2 * y;
    }
    y := y - c[g];
    SpaceLeft(C, g, y);
    FirstEnd(C, g);
    if y < 0 {
      return;
    }
    c[g] := c[g] + y;
  }

  lemma SpaceLeft(c: Counts, j: nat, y: int)
    requires 1 <= j <= 16 && First(c, j) + (y + c[j]) * Pow2(16 - j) == 65536
    ensures First(c, j + 1) + y * Pow2(16 - j) == 65536
    ensures j < 16 ==> y * Pow2(16 - j) == (2 * y) * Pow2(15 - j)
    ensures y < 0 ==> First(c, 17) > 65536
  {
    SumTimes(y, c[j], Pow2(16 - j));
    assert First(c, j + 1) == First(c, j) + c[j] * Pow2(16 - j);
    if j < 16 {
      assert Pow2(16 - j) == 2 * Pow2(15 - j);
      MulAssoc(y, 2, Pow2(15 - j));
    }
    if y < 0 {
      MulMono(y, -1, Pow2(16 - j));
      FirstMono(c, j + 1, 17);
    }
  }

  /** Where the symbols of each length start in code order. */
  method Offsets(c: Counts, g: nat) returns (x: array<nat>)
    requires 1 <= g <= 16
    ensures fresh(x) && x.Length == 17 && forall k :: 1 <= k <= g ==> x[k] == Off(c, k)
  {
    x := new nat[17];
    var j, p, xp, i := 0, 1, 2, g - 1;
    x[1] := 0;
    while i > 0
      invariant p + i == g && xp == p + 1 && j == Off(c, p)
      invariant forall k :: 1 <= k <= p ==> x[k] == Off(c, k)
    {
      j := j + c[p];
      x[xp] := j;
      p := p + 1;
      xp := xp + 1;
      i := i - 1;
    }
  }

  /** Where a symbol stands in code order. */
  function Index(lens: seq<nat>, sym: nat): nat
    requires Lengths(lens) && sym < |lens| && lens[sym] > 0
  {
    Off(CountsOf(lens), lens[sym]) + Rank(lens, sym)
  }

  lemma IndexBound(lens: seq<nat>, sym: nat)
    requires Lengths(lens) && sym < |lens| && lens[sym] > 0
    ensures Index(lens, sym) < Off(CountsOf(lens), 17) <= |lens|
  {
    RankBound(lens, sym);
    FirstMono(CountsOf(lens), lens[sym] + 1, 17);
    OffBound(lens);
  }

  lemma {:induction false} OffBump(c: Counts, c': Counts, k: nat, j: nat)
    requires 1 <= k <= 16 && 1 <= j <= 17
    requires forall i :: 1 <= i <= 16 ==> c'[i] == c[i] + if i == k then 1 else 0
    ensures Off(c', j) == Off(c, j) + if j > k then 1 else 0
  {
    if j > 1 { OffBump(c, c', k, j - 1); }
  }

  /** As many codes as symbols of nonzero length. */
  lemma {:induction false} OffBound(lens: seq<nat>)
    requires Lengths(lens)
    ensures Off(CountsOf(lens), 17) + Count(lens, 0) == |lens|
  {
    var n := |lens| - 1;
    if lens == [] {
      FirstZero(CountsOf([]), 17);
    } else {
      OffBound(lens[..n]);
      if lens[n] == 0 {
        FirstSame(CountsOf(lens[..n]), CountsOf(lens), 17);
      } else {
        OffBump(CountsOf(lens[..n]), CountsOf(lens), lens[n], 17);
      }
    }
  }

  lemma IndexInjective(lens: seq<nat>, a: nat, b: nat)
    requires Lengths(lens) && a < |lens| && b < |lens| && lens[a] > 0 && lens[b] > 0
    requires Index(lens, a) == Index(lens, b)
    ensures a == b
  {
    var c := CountsOf(lens);
    RankBound(lens, a);
    RankBound(lens, b);
    if lens[a] < lens[b] {
      FirstMono(c, lens[a] + 1, lens[b]);
    } else if lens[b] < lens[a] {
      FirstMono(c, lens[b] + 1, lens[a]);
    } else {
      RankInjective(lens, a, b);
    }
  }

  /** The first i symbols are where code order puts them. */
  predicate Placed(lens: seq<nat>, i: nat, v: seq<nat>)
    requires Lengths(lens) && i <= |lens|
  {
    forall sym :: 0 <= sym < i && lens[sym] > 0 ==> Index(lens, sym) < |v| && v[Index(lens, sym)] == sym
  }

  lemma PlaceNext(lens: seq<nat>, i: nat, v: seq<nat>)
    requires Lengths(lens) && i < |lens| <= |v| && Placed(lens, i, v) && lens[i] > 0
    ensures Index(lens, i) < |v| && Placed(lens, i + 1, v[Index(lens, i) := i])
  {
    hide Index;
    IndexBound(lens, i);
    forall sym: nat | sym < i && lens[sym] > 0
      ensures Index(lens, sym) != Index(lens, i)
    {
      if Index(lens, sym) == Index(lens, i) { IndexInjective(lens, sym, i); }
    }
  }

  /** x[k] is where the next symbol of length k goes once i symbols are placed. */
  predicate Cursors(lens: seq<nat>, i: nat, x: seq<nat>, g: nat)
    requires g <= 16 && i <= |lens| && |x| == 17
  {
    forall k :: 1 <= k <= g ==> x[k] == Off(CountsOf(lens), k) + Count(lens[..i], k)
  }

  lemma CursorNext(lens: seq<nat>, i: nat, x: seq<nat>, g: nat)
    requires Lengths(lens) && g <= 16 && i < |lens| && |x| == 17 && lens[i] <= g && Cursors(lens, i, x, g)
    ensures lens[i] > 0 ==> x[lens[i]] == Index(lens, i) && Cursors(lens, i + 1, x[lens[i] := x[lens[i]] + 1], g)
    ensures lens[i] == 0 ==> Cursors(lens, i + 1, x, g)
  {
    assert lens[..i + 1][..i] == lens[..i];
  }

  /** A counting sort by length. */
  method SortByCode(b: seq<nat>, x: array<nat>, g: nat, v: array<nat>)
    requires Lengths(b) && x.Length == 17 && 1 <= g <= 16 && 0 < |b| <= v.Length && x != v
    requires forall i :: 0 <= i < |b| ==> b[i] <= g
    requires Cursors(b, 0, x[..], g)
    modifies x, v
    ensures Placed(b, |b|, v[..])
  {
    hide Cursors;
    hide Index;
    hide Placed;
    var i: nat := 0;
    PlacedNone(b, v[..]);
    while i < |b|
      invariant i <= |b|
      invariant Cursors(b, i, x[..], g) && Placed(b, i, v[..])
    {
      var j := b[i];
      CursorNext(b, i, x[..], g);
      if j != 0 {
        PlaceNext(b, i, v[..]);
        ghost var x0, v0 := x[..], v[..];
        v[x[j]] := i;
        assert v[..] == v0[Index(b, i) := i];
        x[j] := x[j] + 1;
        assert x[..] == x0[j := x0[j] + 1];
      } else {
        PlaceSkip(b, i, v[..]);
      }
      i := i + 1;
    }
  }

  lemma PlacedNone(lens: seq<nat>, v: seq<nat>)
    requires Lengths(lens)
    ensures Placed(lens, 0, v)
  {
  }

  lemma PlaceSkip(lens: seq<nat>, i: nat, v: seq<nat>)
    requires Lengths(lens) && i < |lens| && Placed(lens, i, v) && lens[i] == 0
    ensures Placed(lens, i + 1, v)
  {
  }

  // ----- The table-building loop -----

  /** The tables serve every code before cur. */
  ghost predicate Built(job: Job, ts: Tables, info: seq<Info>, cur: nat)
  {
    && job.Valid() && Shaped(job, ts, info) && Linked(ts) && AllOk(job, ts, info, cur) && WidthsOk(job, ts, info)
    && (cur > 0 ==> 0 < |info| && info[0] == Info(0, 0, job.l))
  }

  /** The open tables surround cur, and cur starts a block of the next level. */
  ghost predicate Ready(job: Job, ts: Tables, info: seq<Info>, u: seq<nat>, x: seq<nat>, h: int, w: int, cur: nat)
  {
    && Built(job, ts, info, cur)
    && |u| == 16 && |x| == 17 && cur < 65536
    && (if h < 0 then h == -1 && |ts| == 0 && cur == 0 && w + job.l == 0 && x[0] == 0
        else
          && h <= w && h < 16 && 0 < |info| && info[0] == Info(0, 0, job.l)
          && u[h] < |info| && w == info[u[h]].w
          && Stacked(job, ts, info, u, x, h, cur, cur))
    && (0 <= w + job.l <= 16 ==> Mult(cur, Pow2(16 - (w + job.l))))
  }

  function Blank(z: nat): seq<Huft>
  {
    seq(z, i => Wild)
  }

  lemma AlignedNext(cur: nat, w: nat, l: nat)
    requires w <= 16 && Mult(cur, Pow2(16 - w))
    ensures 0 <= w + l <= 16 ==> Mult(cur, Pow2(16 - (w + l)))
  {
    if w + l <= 16 { MultPow(cur, 16 - w, 16 - (w + l)); }
  }

  lemma ReadyFacts(job: Job, ts: Tables, info: seq<Info>, u: seq<nat>, x: seq<nat>, h: int, w: int, cur: nat)
    requires Ready(job, ts, info, u, x, h, w, cur)
    ensures -1 <= h < 16 && 0 <= w + job.l && (h < 0 ==> w + job.l == 0 && cur == 0 && |ts| == 0)
    ensures 0 <= h ==> h <= w && u[h] < |ts| && |ts| == |info| && w == info[u[h]].w
    ensures w + job.l <= 16 ==> Mult(cur, Pow2(16 - (w + job.l)))
  {
  }

  /** The first table. */
  lemma ReadyFirst(job: Job, ts: Tables, info: seq<Info>, u: seq<nat>, x: seq<nat>, w: int, k: nat, j: nat)
    requires Ready(job, ts, info, u, x, -1, w, 0)
    requires IsCode(job.c, k, 0) && At(job.c, k, 0) == 0 && SizeOk(job, k, 0, 0, j)
    ensures Ready(job, [Blank(Pow2(j))], [Info(0, 0, job.l)], u[0 := 0], x, 0, 0, 0)
  {
    hide At;
    hide Pow2;
    Pow2Sixteen();
    RootBlock();
    Pow2Mono(job.l, j);
    AlignedNext(0, 0, job.l);
    var u' := u[0 := 0];
    assert u'[0] == 0 && OnStack(u', 0, 0);
    DivModUnique(0, job.l, 0, 0);
  }

  /** One more table behind the innermost one. */
  lemma ReadyOpen(job: Job, ts: Tables, info: seq<Info>, u: seq<nat>, x: seq<nat>, h: int, w: int,
                  k: nat, q: nat, j: nat)
    requires IsCode(job.c, k, q) && 0 <= h && Ready(job, ts, info, u, x, h, w, At(job.c, k, q))
    requires w + job.l < k && SizeOk(job, k, q, w + job.l, j)
    ensures u[h] < |ts| && h + 1 < 16 && w >= 0
    ensures Shr(Rev(16, At(job.c, k, q)), w) < |ts[u[h]]|
    ensures var ts' := ts[u[h] := ts[u[h]][Shr(Rev(16, At(job.c, k, q)), w) := Entry(16 + j, job.l, |ts|)]] + [Blank(Pow2(j))];
            var nb := if j < job.l then j else job.l;
            Ready(job, ts', info + [Info(w + job.l, Shr(At(job.c, k, q), 16 - (w + job.l)), nb)],
                  u[h + 1 := |ts|], x[h + 1 := Rev(16, At(job.c, k, q))], h + 1, w + job.l, At(job.c, k, q))
  {
    hide Rev;
    hide Pow2;
    hide Shr;
    hide First;
    hide Stacked;
    hide Mult;
    hide AllOk;
    hide WidthsOk;
    hide Linked;
    hide Sized;
    hide At;
    hide TopWild;
    hide Wide;
    var cur := At(job.c, k, q);
    var nb := if j < job.l then j else job.l;
    assert u[h] < |ts| && w + job.l <= 15;
    OpenSlot(job, ts, info, u, x, h, k, q);
    var i := Info(w + job.l, Shr(cur, 16 - (w + job.l)), nb);
    AlignedNext(cur, w + job.l, job.l);
    var ts' := ts[u[h] := ts[u[h]][Shr(Rev(16, cur), w) := Entry(16 + j, job.l, |ts|)]] + [Blank(Pow2(j))];
    OpenKeeps(job, ts, info, u, x, h, k, q, cur, j, i, Blank(Pow2(j)), ts');
    WidthsOpen(job, ts, info, u[h], Shr(Rev(16, cur), w), Entry(16 + j, job.l, |ts|), i, Blank(Pow2(j)), j);
  }

  /** Make tables up to the level that holds k-bit codes. */
  method OpenTables(ghost job: Job, ts0: Tables, ghost info0: seq<Info>, u: array<nat>, x: array<nat>, h0: int, w0: int,
                    q0: nat, z0: nat, c: Counts, k: nat, a: nat, g: nat, l: nat, i: nat)
    returns (ts: Tables, ghost info: seq<Info>, h: int, w: int, q: nat, z: nat)
    requires job.Valid() && c == job.c && g == job.g && l == job.l && 1 <= k <= g && a < c[k]
    requires u.Length == 16 && x.Length == 17 && u != x
    requires var cur := At(c, k, c[k] - 1 - a);
             Ready(job, ts0, info0, u[..], x[..], h0, w0, cur) && i == Rev(16, cur)
    requires w0 < k && (h0 < 0 ==> k <= l && c[k] - 1 - a == 0)
    requires k <= w0 + l ==> 0 <= h0 < 16 && q0 < |ts0| && q0 == u[h0] && z0 == |ts0[q0]|
    modifies u, x
    ensures Ready(job, ts, info, u[..], x[..], h, w, At(c, k, c[k] - 1 - a))
    ensures 0 <= h < 16 && 0 <= w < k <= w + l && q < |ts| && q == u[h] && z == |ts[q]|
  {
    hide At;
    hide Rev;
    hide Pow2;
    hide Shr;
    hide Mult;
    hide Ready;
    hide SizeOk;
    ts, info, h, w, q, z := ts0, info0, h0, w0, q0, z0;
    ghost var t := c[k] - 1 - a;
    ghost var cur := At(c, k, t);
    ReadyFacts(job, ts, info, u[..], x[..], h, w, cur);
    while k > w + l
      invariant Ready(job, ts, info, u[..], x[..], h, w, cur)
      invariant w < k && (h < 0 ==> k <= l && t == 0) && (0 <= h ==> 0 <= w)
      invariant k <= w + l ==> 0 <= h < 16 && q < |ts| && q == u[h] && z == |ts[q]|
      decreases k - w
    {
      ghost var u', x' := u[..], x[..];
      ReadyFacts(job, ts, info, u', x', h, w, cur);
      h := h + 1;
      w := w + l;
      var j := SizeTable(job, c, k, a, w, l, g);
      z := Pow2(j);
      q := |ts|;
      if h == 0 {
        ReadyFirst(job, ts, info, u', x', w - l, k, j);
        u[h] := q;
        ts := [Blank(z)];
        info := [Info(0, 0, l)];
        assert u[..] == u'[0 := 0] && x[..] == x';
      } else {
        ReadyOpen(job, ts, info, u', x', h - 1, w - l, k, t, j);
        u[h] := q;
        x[h] := i;
        var s := Shr(i, w - l);
        var p := u[h - 1];
        assert p == u'[h - 1];
        info := info + [Info(w, Shr(cur, 16 - w), if j < l then j else l)];
        ts := ts[p := ts[p][s := Entry(16 + j, l, q)]] + [Blank(z)];
        assert u[..] == u'[h := q] && x[..] == x'[h := i];
      }
    }
  }

  /** The slot for the current code. Past the symbols in use, v[] was never written. */
  method MakeEntry(ghost job: Job, v: seq<nat>, p0: nat, b: nat, used: nat, n: nat,
                   simple: nat, base: seq<nat>, extra: seq<nat>, ghost idx: nat)
    returns (r: Huft, p: nat)
    requires job.Valid() && n == job.n && simple == job.simple && base == job.base && extra == job.extra
    requires used == |job.sorted| && job.sorted <= v && p0 == if idx < n then idx else n
    ensures job.Fits(idx, b, r)
    ensures p == if idx + 1 < n then idx + 1 else n
  {
    p := p0;
    if p >= n {
      r := Entry(99, b, 0);
    } else if p >= used {
      r := Wild;
      p := p + 1;
    } else if v[p] < simple {
      assert v[p] == job.sorted[p];
      r := Entry(if v[p] < 256 then 16 else 15, b, v[p]);
      p := p + 1;
    } else {
      assert v[p] == job.sorted[p];
      r := Entry(extra[v[p] - simple], b, base[v[p] - simple]);
      p := p + 1;
    }
  }

  lemma FitsLinkOk(job: Job, ts: Tables, q: nat, ts': Tables, u: nat, start: nat, idx: nat, b: nat, r: Huft)
    requires job.Valid() && job.Fits(idx, b, r) && Linked(ts) && q < |ts|
    requires |ts'| == |ts| && |ts'[q]| == |ts[q]|
    requires forall t :: 0 <= t < |ts| && t != q ==> ts'[t] == ts[t]
    requires forall j :: 0 <= j < |ts[q]| ==> ts'[q][j] == if Low(j, u) == start then r else ts[q][j]
    ensures Linked(ts')
  {
    hide Low;
    hide Pow2;
    FitsIsNoLink(job, idx, b, r);
    forall t, j | 0 <= t < |ts'| && 0 <= j < |ts'[t]|
      ensures LinkOk(ts', t, ts'[t][j])
    {
      assert LinkOk(ts, t, ts[t][j]);
    }
  }

  /** All slots of code (k, q) stored: the tables serve the next pattern too. */
  lemma BuiltNext(job: Job, ts: Tables, ts': Tables, info: seq<Info>, u: seq<nat>, x: seq<nat>, h: int, w: int,
                  k: nat, q: nat, start: nat, r: Huft)
    requires IsCode(job.c, k, q) && 0 <= h && Ready(job, ts, info, u, x, h, w, At(job.c, k, q))
    requires w < k <= w + job.l && start == Shr(Rev(16, At(job.c, k, q)), w)
    requires job.Fits(Off(job.c, k) + q, k - w, r)
    requires |ts'| == |ts| && |ts'[u[h]]| == |ts[u[h]]|
    requires forall t :: 0 <= t < |ts| && t != u[h] ==> ts'[t] == ts[t]
    requires forall j :: 0 <= j < |ts[u[h]]| ==> ts'[u[h]][j] == if Low(j, k - w) == start then r else ts[u[h]][j]
    ensures Built(job, ts', info, At(job.c, k, q) + Pow2(16 - k))
    ensures Stacked(job, ts', info, u, x, h, At(job.c, k, q), At(job.c, k, q) + Pow2(16 - k))
    ensures At(job.c, k, q) + Pow2(16 - k) <= info[u[h]].End()
  {
    hide Rev;
    hide Pow2;
    hide Shr;
    hide Low;
    hide First;
    hide Off;
    hide At;
    hide Mult;
    hide AllOk;
    hide WidthsOk;
    var cur := At(job.c, k, q);
    var i := info[u[h]];
    AtMult(job.c, k, q);
    CounterBits(cur, i.w, k);
    SplitUnique(cur, 16 - i.w, i.m, cur - i.Start());
    assert Sized(job, i);
    assert k <= i.w + i.nb;
    FitsLinkOk(job, ts, u[h], ts', k - w, start, Off(job.c, k) + q, k - w, r);
    FillKeeps(job, ts, ts', info, u, x, h, k, q, start, r);
    WidthsFill(job, ts, ts', info, u[h], k, q, start, r);
    FillEnd(i, k, start);
    FillStack(job, ts, ts', info, u, x, h, cur, cur + Pow2(16 - k));
  }

  /** Filling the innermost table leaves the links of the open tables alone. */
  lemma FillStack(job: Job, ts: Tables, ts': Tables, info: seq<Info>, u: seq<nat>, x: seq<nat>, h: int,
                  cur: nat, next: nat)
    requires job.Valid() && Shaped(job, ts, info) && Shaped(job, ts', info)
    requires Stacked(job, ts, info, u, x, h, cur, cur) && cur <= next
    requires |ts'| == |ts| && forall t :: 0 <= t < |ts| ==> |ts'[t]| == |ts[t]| && (t != u[h] ==> ts'[t] == ts[t])
    ensures Stacked(job, ts', info, u, x, h, cur, next)
  {
    hide Rev;
    hide Pow2;
    hide Shr;
    hide Low;
    hide First;
    hide Off;
    forall a | 0 <= a < h
      ensures Child(job, ts', info, u, a)
    {
      assert Child(job, ts, info, u, a);
      StackDepth(job, ts, info, u, x, h, cur, cur, a);
    }
    forall t | 0 <= t < |info|
      ensures OnStack(u, h, t) || info[t].End() <= next
    {
      assert OnStack(u, h, t) || info[t].End() <= cur;
    }
  }

  lemma FillEnd(i: Info, k: nat, start: nat)
    requires i.Valid() && i.w <= k <= 16 && start < Pow2(k - i.w)
    ensures i.Start() + Rev(k - i.w, start) * Pow2(16 - k) + Pow2(16 - k) <= i.End()
  {
    hide Rev;
    hide Pow2;
    RevBound(k - i.w, start);
    Pow2Add(k - i.w, 16 - k);
    MulMono(Rev(k - i.w, start) + 1, Pow2(k - i.w), Pow2(16 - k));
    NextMultiple(Rev(k - i.w, start), Pow2(16 - k));
  }

  /** Below the top of the stack there is always a table to go back to. */
  lemma BottomTest(job: Job, ts: Tables, info: seq<Info>, u: seq<nat>, x: seq<nat>, old_: nat, cur: nat, i: nat)
    requires job.Valid() && Shaped(job, ts, info) && Stacked(job, ts, info, u, x, 0, old_, cur)
    ensures Low(i, info[u[0]].w) == x[0]
  {
    assert info[u[0]].w == 0 && Pow2(0) == 1;
    RevZero(0);
  }

  lemma Settled(job: Job, ts: Tables, info: seq<Info>, u: seq<nat>, x: seq<nat>, h: int, w: int, old_: nat, cur: nat)
    requires Built(job, ts, info, cur) && |u| == 16 && |x| == 17 && cur < 65536
    requires Stacked(job, ts, info, u, x, h, old_, cur) && info[u[h]].Contains(cur)
    requires h <= w && w == info[u[h]].w && 0 < |info| && info[0] == Info(0, 0, job.l)
    requires w + job.l <= 16 ==> Mult(cur, Pow2(16 - (w + job.l)))
    ensures Ready(job, ts, info, u, x, h, w, cur)
  {
    hide Rev;
    hide Pow2;
    hide Child;
    hide Sized;
    hide AllOk;
    hide WidthsOk;
    hide Mult;
    forall i | 0 <= i <= h
      ensures info[u[i]].Contains(cur)
    {
      SettleStack(job, ts, info, u, x, h, old_, cur, i);
    }
  }

  /** Drop the tables whose block the counter has left. */
  method BackUp(ghost job: Job, ghost ts: Tables, ghost info: seq<Info>, u: array<nat>, x: array<nat>,
                h0: int, w0: int, l: nat, i: nat, ghost old_: nat, ghost cur: nat, ghost k: nat)
    returns (h: int, w: int)
    requires Built(job, ts, info, cur) && l == job.l && u.Length == 16 && x.Length == 17
    requires Stacked(job, ts, info, u[..], x[..], h0, old_, cur) && old_ < cur <= info[u[h0]].End() && cur <= 65536
    requires 0 <= h0 <= w0 && w0 == info[u[h0]].w && w0 < k <= w0 + l && k <= 16 && Mult(cur, Pow2(16 - k))
    requires if cur == 65536 then i == 0 else i == Rev(16, cur)
    ensures cur < 65536 ==> Ready(job, ts, info, u[..], x[..], h, w, cur)
    ensures 0 <= h <= h0 && 0 <= w && (h < h0 ==> w + l < k) && (h == h0 ==> w == w0)
  {
    hide *;
    BackStart(job, ts, info, u[..], x[..], h0, w0, old_, cur, k, i);
    h, w := h0, w0;
    AndMask(i, w);
    while And(i, Pow2(w) - 1) != x[h]
      invariant 0 <= h <= h0 && 0 <= w && And(i, Pow2(w) - 1) == Low(i, w)
      invariant Backing(job, ts, info, u[..], x[..], h, w, h0, w0, old_, cur, i)
      decreases h
    {
      BackOne(job, ts, info, u[..], x[..], h, w, h0, w0, old_, cur, i);
      h := h - 1;
      w := w - l;
      AndMask(i, w);
    }
    BackDone(job, ts, info, u[..], x[..], h, w, h0, w0, old_, cur, i, k);
  }

  /** While tables are dropped: the present one still surrounds what was done, and i is the counter. */
  ghost predicate Backing(job: Job, ts: Tables, info: seq<Info>, u: seq<nat>, x: seq<nat>, h: int, w: int,
                          h0: int, w0: int, old_: nat, cur: nat, i: nat)
  {
    && Built(job, ts, info, cur) && |u| == 16 && |x| == 17 && 0 <= h <= h0 && h <= w && old_ < cur <= 65536
    && Stacked(job, ts, info, u, x, h, old_, cur)
    && w == info[u[h]].w && cur <= info[u[h]].End() && (if h == h0 then w == w0 else w + job.l <= w0)
    && (w + job.l <= 16 ==> Mult(cur, Pow2(16 - (w + job.l))))
    && i == if cur == 65536 then 0 else Rev(16, cur)
  }

  lemma BackStart(job: Job, ts: Tables, info: seq<Info>, u: seq<nat>, x: seq<nat>, h0: int, w0: int,
                  old_: nat, cur: nat, k: nat, i: nat)
    requires Built(job, ts, info, cur) && |u| == 16 && |x| == 17
    requires Stacked(job, ts, info, u, x, h0, old_, cur) && old_ < cur <= info[u[h0]].End() && cur <= 65536
    requires 0 <= h0 <= w0 && w0 == info[u[h0]].w && w0 < k <= w0 + job.l && k <= 16 && Mult(cur, Pow2(16 - k))
    requires if cur == 65536 then i == 0 else i == Rev(16, cur)
    ensures Backing(job, ts, info, u, x, h0, w0, h0, w0, old_, cur, i) && h0 < |x|
  {
    hide Rev;
    hide Pow2;
    hide Child;
    hide Sized;
    hide AllOk;
    hide WidthsOk;
    hide Mult;
    hide Linked;
    AlignedStart(cur, k, w0 + job.l);
  }

  lemma BackOne(job: Job, ts: Tables, info: seq<Info>, u: seq<nat>, x: seq<nat>, h: int, w: nat, h0: int, w0: int,
                old_: nat, cur: nat, i: nat)
    requires Backing(job, ts, info, u, x, h, w, h0, w0, old_, cur, i) && h < |x| && Low(i, w) != x[h]
    ensures h >= 1 && w - job.l >= 0 && Backing(job, ts, info, u, x, h - 1, w - job.l, h0, w0, old_, cur, i)
  {
    hide Rev;
    hide Pow2;
    hide Low;
    hide Child;
    hide Sized;
    hide AllOk;
    hide WidthsOk;
    hide Mult;
    hide Linked;
    if h == 0 { BottomTest(job, ts, info, u, x, old_, cur, i); }
    if cur < 65536 { TopTest(info[u[h]], cur); }
    StackLevel(job, ts, info, u, x, h, old_, cur);
    PopKeeps(job, ts, info, u, x, h, old_, cur);
  }

  lemma BackDone(job: Job, ts: Tables, info: seq<Info>, u: seq<nat>, x: seq<nat>, h: int, w: nat, h0: int, w0: int,
                 old_: nat, cur: nat, i: nat, k: nat)
    requires Backing(job, ts, info, u, x, h, w, h0, w0, old_, cur, i) && h < |x| && Low(i, w) == x[h] && w0 < k
    ensures cur < 65536 ==> Ready(job, ts, info, u, x, h, w, cur)
    ensures (h < h0 ==> w + job.l < k) && (h == h0 ==> w == w0)
  {
    hide Rev;
    hide Pow2;
    hide Low;
    hide Child;
    hide Sized;
    hide AllOk;
    hide WidthsOk;
    hide Mult;
    hide Linked;
    if cur < 65536 {
      TopTest(info[u[h]], cur);
      Settled(job, ts, info, u, x, h, w, old_, cur);
    }
  }

  lemma AlignedStart(cur: nat, k: nat, w: nat)
    requires k <= 16 && k <= w && Mult(cur, Pow2(16 - k))
    ensures w <= 16 ==> Mult(cur, Pow2(16 - w))
  {
    if w <= 16 { MultPow(cur, 16 - k, 16 - w); }
  }

  /** Each level is at least one bit deeper than the one below. */
  lemma {:induction false} StackLevel(job: Job, ts: Tables, info: seq<Info>, u: seq<nat>, x: seq<nat>, h: int,
                                      old_: nat, cur: nat)
    requires job.Valid() && Shaped(job, ts, info) && Stacked(job, ts, info, u, x, h, old_, cur)
    ensures forall i :: 0 <= i <= h ==> i <= info[u[i]].w
  {
    hide Rev;
    hide Pow2;
    hide LinksTo;
    var i := 0;
    while i < h
      invariant 0 <= i <= h && forall j :: 0 <= j <= i ==> j <= info[u[j]].w
    {
      assert Child(job, ts, info, u, i);
      i := i + 1;
    }
  }

  /** What holds between two codes: the tables serve everything before cur, i is cur's reversal. */
  ghost predicate Between(job: Job, ts: Tables, info: seq<Info>, u: seq<nat>, x: seq<nat>, h: int, w: int,
                          q: nat, z: nat, k: nat, cur: nat, i: nat)
  {
    && cur <= 65536 && Built(job, ts, info, cur)
    && (cur < 65536 ==> i == Rev(16, cur) && Ready(job, ts, info, u, x, h, w, cur))
    && w < k && (h < 0 ==> cur == 0 && k <= job.l)
    && (k <= w + job.l ==> 0 <= h < 16 && h < |u| && q < |ts| && q == u[h] && z == |ts[q]|)
  }

  lemma NextMult(cur: nat, d: nat)
    requires d > 0 && Mult(cur, d)
    ensures Mult(cur + d, d)
  {
    MultProduct(1, d);
    MultAdd(cur, d, d);
  }

  lemma FirstCode(c: Counts, k: nat, t: nat)
    requires 1 <= k <= 16 && At(c, k, t) == 0
    ensures t == 0
  {
    if t > 0 { MulMono(1, t, Pow2(16 - k)); }
  }

  lemma StartBelow(cur: nat, w: nat, k: nat)
    requires w <= k <= 16 && cur < 65536 && Mult(cur, Pow2(16 - k))
    ensures Shr(Rev(16, cur), w) < Pow2(k - w)
  {
    CounterBits(cur, w, k);
  }

  /** One pass of the inner loop: place code (k, c[k] - 1 - a). */
  method PlaceCode(ghost job: Job, ts0: Tables, ghost info0: seq<Info>, u: array<nat>, x: array<nat>, h0: int, w0: int,
                   q0: nat, z0: nat, c: Counts, v: seq<nat>, p0: nat, k: nat, a: nat, g: nat, l: nat, i0: nat,
                   used: nat, n: nat, simple: nat, base: seq<nat>, extra: seq<nat>)
    returns (ts: Tables, ghost info: seq<Info>, h: int, w: int, q: nat, z: nat, p: nat, i: nat)
    requires job.Valid() && c == job.c && g == job.g && l == job.l && 1 <= k <= g && a < c[k]
    requires n == job.n && simple == job.simple && base == job.base && extra == job.extra
    requires used == |job.sorted| && job.sorted <= v
    requires var idx := Off(c, k) + c[k] - 1 - a; p0 == if idx < n then idx else n
    requires u.Length == 16 && x.Length == 17 && u != x
    requires Between(job, ts0, info0, u[..], x[..], h0, w0, q0, z0, k, At(c, k, c[k] - 1 - a), i0)
    modifies u, x
    ensures Between(job, ts, info, u[..], x[..], h, w, q, z, k, At(c, k, c[k] - 1 - a) + Pow2(16 - k), i)
    ensures var idx := Off(c, k) + c[k] - a; p == if idx < n then idx else n
  {
    hide At;
    hide Off;
    hide Rev;
    hide Pow2;
    hide Shr;
    hide Low;
    hide Mult;
    hide Built;
    hide Ready;
    hide Stacked;
    ghost var t := c[k] - 1 - a;
    ghost var cur := At(c, k, t);
    ghost var next := cur + Pow2(16 - k);
    Pow2Sixteen();
    AtBelow(c, k, t);
    AtMult(c, k, t);
    NextMult(cur, Pow2(16 - k));
    if cur == 0 { FirstCode(c, k, t); }
    ts, info, h, w, q, z := OpenTables(job, ts0, info0, u, x, h0, w0, q0, z0, c, k, a, g, l, i0);
    var r;
    r, p := MakeEntry(job, v, p0, k - w, used, n, simple, base, extra, Off(c, k) + t);
    ghost var ts' := ts;
    StartBelow(cur, w, k);
    ts := FillSlots(ts, q, Shr(i0, w), k - w, r);
    BuiltNext(job, ts', ts, info, u[..], x[..], h, w, k, t, Shr(i0, w), r);
    ReadyFacts(job, ts', info, u[..], x[..], h, w, cur);
    i := NextReversed(i0, k, cur);
    var h1, w1 := BackUp(job, ts, info, u, x, h, w, l, i, cur, next, k);
    h, w := h1, w1;
  }

  /** Walk the codes in order, keeping the counter i reversed. */
  method MakeTables(ghost job: Job, c: Counts, v: seq<nat>, used: nat, n: nat, x: array<nat>, k0: nat, g: nat, l: nat,
                    simple: nat, base: seq<nat>, extra: seq<nat>)
    returns (ts: Tables, ghost info: seq<Info>)
    requires job.Valid() && c == job.c && g == job.g && l == job.l
    requires n == job.n && simple == job.simple && base == job.base && extra == job.extra
    requires used == |job.sorted| && job.sorted <= v && x.Length == 17
    requires 1 <= k0 <= l && (forall k :: 1 <= k < k0 ==> c[k] == 0)
    modifies x
    ensures Built(job, ts, info, 65536)
  {
    hide Rev;
    hide Pow2;
    hide Between;
    hide At;
    hide First;
    hide Off;
    x[0] := 0;
    var i, p, h, w, q, z := 0, 0, -1, 0 - l, 0, 0;
    var u := new nat[16](j => 0);
    ts, info := [], [];
    var k := k0;
    ghost var cur := 0;
    FirstZero(c, k0);
    StartBetween(job, u[..], x[..], k);
    while k <= g
      invariant k0 <= k <= g + 1 && u != x
      invariant cur == First(c, k) && p == if Off(c, k) < n then Off(c, k) else n
      invariant Between(job, ts, info, u[..], x[..], h, w, q, z, k, cur, i)
    {
      var a := c[k];
      AtZero(c, k);
      while a > 0
        invariant 0 <= a <= c[k]
        invariant cur == At(c, k, c[k] - a)
        invariant var idx := Off(c, k) + c[k] - a; p == if idx < n then idx else n
        invariant Between(job, ts, info, u[..], x[..], h, w, q, z, k, cur, i)
      {
        a := a - 1;
        ts, info, h, w, q, z, p, i :=
          PlaceCode(job, ts, info, u, x, h, w, q, z, c, v, p, k, a, g, l, i, used, n, simple, base, extra);
        AtNext(c, k, c[k] - 1 - a);
        cur := At(c, k, c[k] - a);
      }
      AtZero(c, k);
      LongerBetween(job, ts, info, u[..], x[..], h, w, q, z, k, cur, i);
      k := k + 1;
    }
    FirstEnd(c, g);
    assert Built(job, ts, info, cur) by { BetweenBuilt(job, ts, info, u[..], x[..], h, w, q, z, k, cur, i); }
  }

  lemma AtZero(c: Counts, k: nat)
    requires 1 <= k <= 16
    ensures At(c, k, 0) == First(c, k) && At(c, k, c[k]) == First(c, k + 1) && Off(c, k + 1) == Off(c, k) + c[k]
  {
  }

  lemma AtNext(c: Counts, k: nat, t: nat)
    requires 1 <= k <= 16
    ensures At(c, k, t + 1) == At(c, k, t) + Pow2(16 - k)
  {
    NextMultiple(t, Pow2(16 - k));
  }

  lemma StartBetween(job: Job, u: seq<nat>, x: seq<nat>, k: nat)
    requires job.Valid() && |u| == 16 && |x| == 17 && x[0] == 0 && 1 <= k <= job.l
    ensures Between(job, [], [], u, x, -1, 0 - job.l, 0, 0, k, 0, 0)
  {
    RevZero(16);
    Pow2Sixteen();
    MultProduct(0, Pow2(16));
  }

  lemma LongerBetween(job: Job, ts: Tables, info: seq<Info>, u: seq<nat>, x: seq<nat>, h: int, w: int,
                      q: nat, z: nat, k: nat, cur: nat, i: nat)
    requires Between(job, ts, info, u, x, h, w, q, z, k, cur, i) && 1 <= k <= 16
    requires cur == First(job.c, k + 1)
    ensures Between(job, ts, info, u, x, h, w, q, z, k + 1, cur, i)
  {
    if h < 0 && k == job.l {
      NonzeroStart(job);
    }
  }

  /** Some code is at most l bits long. */
  lemma NonzeroStart(job: Job)
    requires job.Valid()
    ensures First(job.c, job.l + 1) > 0
  {
    var k := 1;
    while k <= job.l && job.c[k] == 0
      invariant 1 <= k <= job.l + 1 && Off(job.c, k) == 0
    {
      k := k + 1;
    }
    MulMono(1, job.c[k], Pow2(16 - k));
    assert First(job.c, k + 1) == First(job.c, k) + job.c[k] * Pow2(16 - k);
    FirstMono(job.c, k + 1, job.l + 1);
  }

  lemma BetweenBuilt(job: Job, ts: Tables, info: seq<Info>, u: seq<nat>, x: seq<nat>, h: int, w: int,
                     q: nat, z: nat, k: nat, cur: nat, i: nat)
    requires Between(job, ts, info, u, x, h, w, q, z, k, cur, i)
    ensures Built(job, ts, info, cur)
  {
  }

  // ----- From the finished tables to what a lookup returns -----

  /** The job that a call of huft_build sets itself. */
  ghost predicate JobOf(job: Job, lens: seq<nat>, simple: nat, base: seq<nat>, extra: seq<nat>, m: nat, g: nat, y: nat)
  {
    && ValidLists(lens, simple, base, extra)
    && 1 <= g <= 16 && (forall i :: 0 <= i < |lens| ==> lens[i] <= g) && Count(lens, g) > 0
    && job.c == Padded(lens, g, y) && job.g == g && job.l == m && job.n == |lens|
    && job.simple == simple && job.base == base && job.extra == extra
    && |job.sorted| == Off(CountsOf(lens), 17) && Placed(lens, |lens|, job.sorted)
    && (y == 0 <==> Complete(lens))
  }

  /** A symbol whose code starts the bits at pos is the code that the walk finds. */
  lemma MatchFound(job: Job, lens: seq<nat>, simple: nat, base: seq<nat>, extra: seq<nat>, m: nat, g: nat, y: nat,
                   s: seq<Byte>, pos: nat, sym: nat)
    requires JobOf(job, lens, simple, base, extra, m, g, y) && Matches(lens, s, pos, sym)
    ensures var k := lens[sym]; var q := Rank(lens, sym); var w := Msb(s, pos, 16);
            && IsCode(job.c, k, q) && At(job.c, k, q) <= w < At(job.c, k, q) + Pow2(16 - k)
            && Off(job.c, k) + q < |job.sorted| && job.sorted[Off(job.c, k) + q] == sym
  {
    hide Msb;
    hide Count;
    hide CodeOf;
    var k, q := lens[sym], Rank(lens, sym);
    MatchesIsInterval(lens, s, pos, sym);
    FirstSame(CountsOf(lens), job.c, k);
    assert Index(lens, sym) < |job.sorted|;
  }

  /** A real code found at pos is some symbol's. */
  lemma FoundMatch(job: Job, lens: seq<nat>, simple: nat, base: seq<nat>, extra: seq<nat>, m: nat, g: nat, y: nat,
                   s: seq<Byte>, pos: nat, k: nat, q: nat)
    requires JobOf(job, lens, simple, base, extra, m, g, y) && IsCode(job.c, k, q)
    requires At(job.c, k, q) <= Msb(s, pos, 16) < At(job.c, k, q) + Pow2(16 - k)
    ensures Off(job.c, k) + q < |job.sorted| ==> SomeMatch(lens, s, pos)
  {
    hide Msb;
    hide CodeOf;
    if k > g { var sym := SymbolOf(lens, k, q); }
    FirstSame(CountsOf(lens), job.c, k);
    if q < Count(lens, k) {
      var sym := SymbolOf(lens, k, q);
      MatchesIsInterval(lens, s, pos, sym);
      assert Matches(lens, s, pos, sym);
    } else {
      assert k == g;
      FirstMono(CountsOf(lens), k + 1, 17);
      LongerNone(lens, k);
    }
  }

  lemma LongerNone(lens: seq<nat>, g: nat)
    requires 1 <= g <= 16 && Lengths(lens) && forall i :: 0 <= i < |lens| ==> lens[i] <= g
    ensures Off(CountsOf(lens), 17) == Off(CountsOf(lens), g) + Count(lens, g)
  {
    forall k | g < k <= 16
      ensures CountsOf(lens)[k] == 0
    {
      if Count(lens, k) > 0 { var sym := SymbolOf(lens, k, 0); }
    }
    FirstEnd(CountsOf(lens), g);
  }

  /** The code that a block with longer codes starts with. */
  lemma BlockStart(c: Counts, l: nat, i: Info) returns (k: nat, q: nat)
    requires i.Valid() && Wide(c, l, i) && First(c, 17) == 65536
    ensures IsCode(c, k, q) && At(c, k, q) == i.Start() && k >= i.w + l && i.End() <= 65536
  {
    hide Pow2;
    hide At;
    hide Mult;
    BlockInRange(i);
    StartInside(i);
    k, q := FindCode(c, i.Start());
    AtMult(c, k, q);
    MultProduct(i.m, Pow2(16 - i.w));
    if k > i.w {
      MultPow(i.Start(), 16 - i.w, 16 - k);
      if At(c, k, q) < i.Start() { MultGap(At(c, k, q), i.Start(), Pow2(16 - k)); }
    } else {
      MultPow(At(c, k, q), 16 - k, 16 - i.w);
      Pow2Mono(16 - i.w, 16 - k);
      CoversBlock(c, l, i, k, q);
    }
  }

  /** A code that is no longer than the way to a wide block does not reach into it. */
  lemma CoversBlock(c: Counts, l: nat, i: Info, k: nat, q: nat)
    requires i.Valid() && Wide(c, l, i) && IsCode(c, k, q) && k <= i.w
    requires Mult(At(c, k, q), Pow2(16 - i.w)) && Mult(i.Start(), Pow2(16 - i.w)) && Pow2(16 - i.w) <= Pow2(16 - k)
    ensures !(At(c, k, q) <= i.Start() < At(c, k, q) + Pow2(16 - k))
  {
    hide Pow2;
    hide At;
    hide Mult;
    if At(c, k, q) <= i.Start() < At(c, k, q) + Pow2(16 - k) {
      var k1: nat, q1: nat :| IsCode(c, k1, q1) && i.Contains(At(c, k1, q1)) && k1 > i.w + l;
      AtOrder(c, k, q, k1, q1);
      AtMult(c, k, q);
      MultOneOf(Pow2(16 - k));
      MultAdd(At(c, k, q), Pow2(16 - k), Pow2(16 - k));
      MultPow(At(c, k, q) + Pow2(16 - k), 16 - k, 16 - i.w);
      BlockApart(i, At(c, k, q) + Pow2(16 - k), k);
    }
  }

  lemma MultOneOf(d: nat)
    requires d > 0
    ensures Mult(d, d)
  {
    MultProduct(1, d);
  }

  lemma BlockApart(i: Info, e: nat, k: nat)
    requires i.Valid() && k <= i.w && e > i.Start() && Mult(i.Start(), Pow2(16 - i.w)) && Mult(e, Pow2(16 - i.w))
    ensures e >= i.End()
  {
    hide Pow2;
    hide Mult;
    MultGap(i.Start(), e, Pow2(16 - i.w));
  }

  lemma RoomyNarrow(job: Job, lens: seq<nat>, simple: nat, base: seq<nat>, extra: seq<nat>, m: nat, g: nat, y: nat)
    requires job.Valid() && JobOf(job, lens, simple, base, extra, m, g, y) && Roomy(lens, m)
    ensures NoneWide(job.c, job.l)
  {
    hide Wide;
    hide Placed;
    hide Padded;
    forall i: Info | i.Valid() && i.w % job.l == 0
      ensures !Wide(job.c, job.l, i)
    {
      RoomyBlock(job, lens, simple, base, extra, m, g, y, i);
    }
  }

  lemma RoomyBlock(job: Job, lens: seq<nat>, simple: nat, base: seq<nat>, extra: seq<nat>, m: nat, g: nat, y: nat,
                   i: Info)
    requires job.Valid() && JobOf(job, lens, simple, base, extra, m, g, y) && Roomy(lens, m)
    requires i.Valid() && i.w % job.l == 0
    ensures !Wide(job.c, job.l, i)
  {
    hide Pow2;
    hide First;
    hide Off;
    hide At;
    hide Placed;
    if Wide(job.c, job.l, i) {
      LevelGap(0, i.w, job.l);
      if forall i :: 0 <= i < |lens| ==> lens[i] <= 2 * m {
        var sym := SymbolOf(lens, g, 0);
      } else {
        var k, q := BlockStart(job.c, job.l, i);
        assert job.c == CountsOf(lens);
        OffBound(lens);
        Pow2Mono(job.l, k - i.w);
        FirstMono(job.c, job.l + 1, k);
        BlockCount(job.c, k, q, i.w);
      }
    }
  }

  /** The job counts the codes of the set, filled up. */
  lemma FullIs(job: Job, lens: seq<nat>, simple: nat, base: seq<nat>, extra: seq<nat>, m: nat, g: nat, y: nat)
    requires job.Valid() && JobOf(job, lens, simple, base, extra, m, g, y)
    ensures Lengths(lens) && KraftSum(lens) <= 65536 && Full(lens) == job.c
  {
    hide Pow2;
    hide First;
    hide Placed;
    FirstAdd(CountsOf(lens), g, y, 17);
    KraftIsFirst(lens);
    LongestIs(lens, g);
    NotEmpty(lens, g);
    MulMono(0, y, Pow2(16 - g));
    DivModUnique(65536 - KraftSum(lens), Pow2(16 - g), y, 0);
  }

  lemma UsedCount(lens: seq<nat>)
    requires Lengths(lens) && NoneZero(lens)
    ensures Off(CountsOf(lens), 17) == |lens|
  {
    if Count(lens, 0) > 0 { var sym := SymbolOf(lens, 0, 0); }
    OffBound(lens);
  }

  /** The walk is canonical decoding (the lookup theorem). */
  lemma TablesDecode(job: Job, lens: seq<nat>, simple: nat, base: seq<nat>, extra: seq<nat>, m: nat, g: nat, y: nat,
                     ts: Tables, info: seq<Info>, s: seq<Byte>, pos: nat)
    requires JobOf(job, lens, simple, base, extra, m, g, y)
    requires Built(job, ts, info, 65536) && 0 < |ts| && Pow2(m) <= |ts[0]| && NoneWide(job.c, m)
    ensures Decodes(lens, simple, base, extra, ts, m, s, pos)
  {
    hide Pow2;
    hide Walk;
    hide Msb;
    hide At;
    hide First;
    hide Off;
    hide Matches;
    hide Placed;
    hide Padded;
    hide Unowned;
    NoneWideExact(job, ts, info);
    Pow2Sixteen();
    MsbConcat(s, pos, 0, 16);
    EmptyMsb(s, pos);
    var k, q := FindCode(job.c, Msb(s, pos, 16));
    WalkCorrect(job, ts, info, 0, s, pos, k, q);
    var f := Walk(ts, 0, m, s, pos);
    assert job.Fits(Off(job.c, k) + q, pos + k - f.pos, f.entry);
    hide Linked;
    hide AllOk;
    hide WidthsOk;
    hide Built;
    hide WalkSafe;
    forall sym: nat | Matches(lens, s, pos, sym)
      ensures sym < |lens| && k == lens[sym] && q == Rank(lens, sym)
              && Off(job.c, k) + q < |job.sorted| && job.sorted[Off(job.c, k) + q] == sym
    {
      MatchIsFound(job, lens, simple, base, extra, m, g, y, s, pos, sym, k, q);
    }
    if !SomeMatch(lens, s, pos) {
      FoundMatch(job, lens, simple, base, extra, m, g, y, s, pos, k, q);
      FoundUnowned(job, lens, simple, base, extra, m, g, y, s, pos, k, q, pos + k - f.pos, f.entry);
    }
  }

  /** Every pattern has a meaning: it starts with a symbol's code or is marked. */
  predicate Determined(lens: seq<nat>)
  {
    Complete(lens) || NoneZero(lens)
  }

  /** With a wide block some lookup ends in a slot that nobody wrote, where a symbol or the mark should be. */
  lemma WideFails(job: Job, lens: seq<nat>, simple: nat, base: seq<nat>, extra: seq<nat>, m: nat, g: nat, y: nat,
                  ts: Tables, info: seq<Info>, i: Info)
    requires JobOf(job, lens, simple, base, extra, m, g, y) && Determined(lens)
    requires Built(job, ts, info, 65536) && 0 < |ts| && Pow2(m) <= |ts[0]|
    requires i.Valid() && i.w % job.l == 0 && Wide(job.c, job.l, i)
    ensures !Serves(lens, simple, base, extra, ts, m)
  {
    hide Pow2;
    hide Walk;
    hide WalkSafe;
    hide Msb;
    hide Lsb;
    hide Matches;
    hide Placed;
    hide Padded;
    hide Wide;
    hide AllOk;
    hide WidthsOk;
    hide Linked;
    hide KraftSum;
    var f := SomeFirst(job.c, job.l, i);
    var s := LastPattern(f);
    EmptyMsb(s, 0);
    StartsAtRoot(job.c, job.l, f);
    WalkMisses(job, ts, info, 0, s, f);
    BlockInRange(f);
    if Decodes(lens, simple, base, extra, ts, m, s, 0) {
      WildUnowned(lens, simple, base, extra, ts, m, s);
    }
  }

  lemma StartsAtRoot(c: Counts, l: nat, i: Info)
    requires l > 0 && FirstWide(c, l, i)
    ensures i.Valid() && i.w > 0
  {
  }

  lemma WildUnowned(lens: seq<nat>, simple: nat, base: seq<nat>, extra: seq<nat>, ts: Tables, m: nat, s: seq<Byte>)
    requires Linked(ts) && 0 < |ts| && Pow2(m) <= |ts[0]|
    requires 0 < |lens| <= simple + |base| && |base| == |extra| && Lengths(lens) && Determined(lens)
    requires Msb(s, 0, 16) < 65536 && Walk(ts, 0, m, s, 0).entry == Wild
    ensures !Decodes(lens, simple, base, extra, ts, m, s, 0)
  {
    hide Pow2;
    hide Walk;
    hide WalkSafe;
    hide Msb;
    hide Linked;
    hide KraftSum;
    hide Leftover;
    if !SomeMatch(lens, s, 0) && Unowned(lens, Msb(s, 0, 16), Wild) { UnownedMeans(lens, Msb(s, 0, 16), Wild); }
  }

  /** A dummy code is the one Leftover numbers. */
  lemma FoundUnowned(job: Job, lens: seq<nat>, simple: nat, base: seq<nat>, extra: seq<nat>, m: nat, g: nat, y: nat,
                     s: seq<Byte>, pos: nat, k: nat, q: nat, b: nat, h: Huft)
    requires job.Valid() && JobOf(job, lens, simple, base, extra, m, g, y) && IsCode(job.c, k, q)
    requires At(job.c, k, q) <= Msb(s, pos, 16) < At(job.c, k, q) + Pow2(16 - k)
    requires !SomeMatch(lens, s, pos) && job.Fits(Off(job.c, k) + q, b, h)
    ensures Unowned(lens, Msb(s, pos, 16), h)
  {
    hide Pow2;
    hide Msb;
    hide At;
    hide First;
    hide Off;
    hide Count;
    hide Placed;
    hide Value;
    hide Padded;
    hide KraftSum;
    hide Leftover;
    DummyNumber(job, lens, simple, base, extra, m, g, y, s, pos, k, q);
  }

  lemma DummyNumber(job: Job, lens: seq<nat>, simple: nat, base: seq<nat>, extra: seq<nat>, m: nat, g: nat, y: nat,
                    s: seq<Byte>, pos: nat, k: nat, q: nat)
    requires job.Valid() && JobOf(job, lens, simple, base, extra, m, g, y) && IsCode(job.c, k, q)
    requires At(job.c, k, q) <= Msb(s, pos, 16) < At(job.c, k, q) + Pow2(16 - k) && !SomeMatch(lens, s, pos)
    ensures KraftSum(lens) <= Msb(s, pos, 16) && Leftover(lens, Msb(s, pos, 16)) == Off(job.c, k) + q
    ensures Off(job.c, k) + q >= Off(CountsOf(lens), 17)
  {
    hide Pow2;
    hide Msb;
    hide At;
    hide First;
    hide Off;
    hide Count;
    hide Placed;
    hide Padded;
    hide KraftSum;
    hide Longest;
    var p, c := Msb(s, pos, 16), CountsOf(lens);
    FoundDummy(job, lens, simple, base, extra, m, g, y, s, pos, k, q);
    LongestIs(lens, g);
    DummyIndex(p, First(c, g), Count(lens, g), q, Pow2(16 - g));
    NotEmpty(lens, g);
  }

  lemma NotEmpty(lens: seq<nat>, g: nat)
    requires Count(lens, g) > 0
    ensures lens != []
  {
  }

  /** The code found is one of the codes added to the longest length. */
  lemma FoundDummy(job: Job, lens: seq<nat>, simple: nat, base: seq<nat>, extra: seq<nat>, m: nat, g: nat, y: nat,
                   s: seq<Byte>, pos: nat, k: nat, q: nat)
    requires job.Valid() && JobOf(job, lens, simple, base, extra, m, g, y) && IsCode(job.c, k, q)
    requires At(job.c, k, q) <= Msb(s, pos, 16) < At(job.c, k, q) + Pow2(16 - k) && !SomeMatch(lens, s, pos)
    ensures k == g && q >= Count(lens, g) && Off(job.c, k) + q == Off(CountsOf(lens), 17) + (q - Count(lens, g))
    ensures At(job.c, k, q) == First(CountsOf(lens), g) + q * Pow2(16 - g)
    ensures KraftSum(lens) == First(CountsOf(lens), g) + Count(lens, g) * Pow2(16 - g)
  {
    hide *;
    CodeBounds(job, k, q);
    JobFacts(job, lens, simple, base, extra, m, g, y, k);
    if k > g { NoCode(job, lens, simple, base, extra, m, g, y, k); }
    assert k <= g;
    if q < Count(lens, k) { OwnedCode(lens, s, pos, k, q); }
    assert k == g && q >= Count(lens, g);
    LongerNone(lens, g);
    KraftEnd(lens, g);
  }

  lemma CodeBounds(job: Job, k: nat, q: nat)
    requires IsCode(job.c, k, q)
    ensures 1 <= k <= 16 && q < job.c[k] && At(job.c, k, q) == First(job.c, k) + q * Pow2(16 - k)
  {
  }

  lemma JobFacts(job: Job, lens: seq<nat>, simple: nat, base: seq<nat>, extra: seq<nat>, m: nat, g: nat, y: nat, k: nat)
    requires job.Valid() && JobOf(job, lens, simple, base, extra, m, g, y) && 1 <= k <= 16
    ensures Lengths(lens) && 1 <= g <= 16 && (forall i :: 0 <= i < |lens| ==> lens[i] <= g)
    ensures KraftSum(lens) <= 65536
    ensures k <= g ==>
              && First(job.c, k) == First(CountsOf(lens), k) && Off(job.c, k) == Off(CountsOf(lens), k)
              && forall q: nat :: At(job.c, k, q) == At(CountsOf(lens), k, q)
    ensures k < g ==> job.c[k] == Count(lens, k)
  {
    hide Pow2;
    hide Placed;
    var c := CountsOf(lens);
    if k <= g { FirstSame(c, job.c, k); }
    KraftIsFirst(lens);
    FirstLess(c, job.c, 17);
  }

  lemma {:induction false} FirstLess(c: Counts, d: Counts, k: nat)
    requires 1 <= k <= 17 && forall i :: 1 <= i <= 16 ==> c[i] <= d[i]
    ensures First(c, k) <= First(d, k)
  {
    hide Pow2;
    if k > 1 {
      FirstLess(c, d, k - 1);
      MulMono(c[k - 1], d[k - 1], Pow2(17 - k));
    }
  }

  lemma KraftEnd(lens: seq<nat>, g: nat)
    requires 1 <= g <= 16 && Lengths(lens) && forall i :: 0 <= i < |lens| ==> lens[i] <= g
    ensures KraftSum(lens) == First(CountsOf(lens), g) + Count(lens, g) * Pow2(16 - g)
  {
    hide Pow2;
    KraftIsFirst(lens);
    NoneLonger(lens, g);
    FirstEnd(CountsOf(lens), g);
  }

  lemma NoCode(job: Job, lens: seq<nat>, simple: nat, base: seq<nat>, extra: seq<nat>, m: nat, g: nat, y: nat, k: nat)
    requires job.Valid() && JobOf(job, lens, simple, base, extra, m, g, y) && g < k <= 16
    ensures job.c[k] == 0
  {
  }

  lemma OwnedCode(lens: seq<nat>, s: seq<Byte>, pos: nat, k: nat, q: nat)
    requires Lengths(lens) && 1 <= k <= 16 && q < Count(lens, k)
    requires At(CountsOf(lens), k, q) <= Msb(s, pos, 16) < At(CountsOf(lens), k, q) + Pow2(16 - k)
    requires KraftSum(lens) <= 65536
    ensures SomeMatch(lens, s, pos)
  {
    var sym := SymbolOf(lens, k, q);
    MatchesIsInterval(lens, s, pos, sym);
    assert Matches(lens, s, pos, sym);
  }

  lemma DummyIndex(p: nat, first: nat, n: nat, q: nat, w: nat)
    requires w > 0 && first + q * w <= p < first + q * w + w && n <= q
    ensures p >= first + n * w && (p - (first + n * w)) / w == q - n
  {
    MulMono(n, q, w);
    SumTimes(q - n, n, w);
    DivModUnique(p - (first + n * w), w, q - n, p - (first + q * w));
  }

  lemma LongestIs(lens: seq<nat>, g: nat)
    requires (forall i :: 0 <= i < |lens| ==> lens[i] <= g) && g > 0 && Count(lens, g) > 0
    ensures Longest(lens) == g
  {
    if g !in lens { NoCount(lens, g); }
  }

  lemma {:induction false} NoCount(lens: seq<nat>, k: nat)
    requires k !in lens
    ensures Count(lens, k) == 0
  {
    if lens != [] { NoCount(lens[..|lens| - 1], k); }
  }

  lemma NoneLonger(lens: seq<nat>, g: nat)
    requires 1 <= g <= 16 && Lengths(lens) && forall i :: 0 <= i < |lens| ==> lens[i] <= g
    ensures forall k :: g < k <= 16 ==> CountsOf(lens)[k] == 0
  {
    forall k | g < k <= 16 ensures CountsOf(lens)[k] == 0 { NoCount(lens, k); }
  }

  /** The mark 99 is certain when every length is nonzero. */
  lemma UnownedMeans(lens: seq<nat>, p: nat, h: Huft)
    requires Lengths(lens) && lens != [] && Unowned(lens, p, h)
    ensures h == Wild || (h.Entry? && h.e == 99)
    ensures NoneZero(lens) ==> h.Entry? && h.e == 99
  {
    if NoneZero(lens) {
      UsedCount(lens);
      DivNonnegative(p - KraftSum(lens), Pow2(16 - Longest(lens)));
    }
  }

  /** In the tables of a complete set every slot a lookup can end in was written, with a symbol's value. */
  lemma EverySlotWritten(lens: seq<nat>, simple: nat, base: seq<nat>, extra: seq<nat>, ts: Tables, m: nat,
                         s: seq<Byte>, pos: nat)
    requires Complete(lens) && Linked(ts) && 0 < |ts| && Pow2(m) <= |ts[0]| && |lens| <= simple + |base|
          && |base| == |extra|
    requires Serves(lens, simple, base, extra, ts, m)
    ensures exists sym: nat, b: nat :: sym < |lens| && Walk(ts, 0, m, s, pos).entry == Value(sym, b, simple, base, extra)
  {
    hide Walk;
    hide Value;
    hide Pow2;
    hide Matches;
    CompleteMatches(lens, s, pos);
    var sym: nat :| Matches(lens, s, pos, sym);
    MatchInRange(lens, s, pos, sym);
    var f := Walk(ts, 0, m, s, pos);
    assert Decodes(lens, simple, base, extra, ts, m, s, pos);
    assert f.entry == Value(sym, pos + lens[sym] - f.pos, simple, base, extra);
  }

  /** Two symbols of which one has no code: no pattern left over is marked invalid, its slot was never written. */
  lemma UnmarkedPattern(p: nat, h: Huft)
    requires p < 65536 && Unowned([1, 0], p, h)
    ensures h == Wild && p >= 32768
  {
    var lens: seq<nat> := [1, 0];
    Pow2Sixteen();
    assert lens[..1] == [1] && [1][..0] == [];
    assert KraftSum([1]) == 32768 && KraftSum(lens) == 32768;
    LongestIs(lens, 1);
    var c := CountsOf(lens);
    assert Count([1], 1) == 1 && Count(lens, 1) == 1;
    NoneLonger(lens, 1);
    FirstEnd(c, 1);
    DivModUnique(p - 32768, 32768, 0, p - 32768);
  }

  lemma MatchIsFound(job: Job, lens: seq<nat>, simple: nat, base: seq<nat>, extra: seq<nat>, m: nat, g: nat, y: nat,
                     s: seq<Byte>, pos: nat, sym: nat, k: nat, q: nat)
    requires JobOf(job, lens, simple, base, extra, m, g, y) && Matches(lens, s, pos, sym)
    requires IsCode(job.c, k, q) && At(job.c, k, q) <= Msb(s, pos, 16) < At(job.c, k, q) + Pow2(16 - k)
    ensures sym < |lens| && k == lens[sym] && q == Rank(lens, sym)
    ensures Off(job.c, k) + q < |job.sorted| && job.sorted[Off(job.c, k) + q] == sym
  {
    hide Pow2;
    hide Msb;
    hide At;
    hide Off;
    hide Matches;
    hide Padded;
    MatchInRange(lens, s, pos, sym);
    MatchFound(job, lens, simple, base, extra, m, g, y, s, pos, sym);
    CodeUnique(job.c, k, q, lens[sym], Rank(lens, sym), Msb(s, pos, 16));
  }

  lemma MatchInRange(lens: seq<nat>, s: seq<Byte>, pos: nat, sym: nat)
    requires Matches(lens, s, pos, sym)
    ensures sym < |lens| && lens[sym] > 0
  {
  }

  lemma EmptyMsb(s: seq<Byte>, pos: nat)
    ensures Msb(s, pos, 0) == 0
  {
  }

  lemma KraftNone(b: seq<nat>)
    requires Lengths(b) && AllZero(b)
    ensures KraftSum(b) == 0
  {
    KraftIsFirst(b);
    forall k | 1 <= k < 17
      ensures CountsOf(b)[k] == 0
    {
      if Count(b, k) > 0 { var sym := SymbolOf(b, k, 0); }
    }
    FirstZero(CountsOf(b), 17);
  }

  /** All lengths in use lie between the shortest and the longest. */
  lemma RangeOf(b: seq<nat>, j: nat, g: nat)
    requires Lengths(b) && 1 <= j <= g <= 16
    requires forall k :: 1 <= k < j || g < k <= 16 ==> CountsOf(b)[k] == 0
    requires CountsOf(b)[g] > 0
    ensures forall i :: 0 <= i < |b| ==> b[i] <= g && (b[i] > 0 ==> j <= b[i])
    ensures exists i :: 0 <= i < |b| && b[i] == g
  {
    forall i: nat | i < |b| && b[i] > 0
      ensures j <= b[i] <= g
    {
      RankBound(b, i);
      assert CountsOf(b)[b[i]] > 0;
    }
    var sym := SymbolOf(b, g, 0);
  }

  /** y more codes of length g. */
  lemma {:induction false} FirstAdd(c: Counts, g: nat, y: nat, j: nat)
    requires 1 <= g <= 16 && 1 <= j <= 17
    ensures First(c[g := c[g] + y], j) == First(c, j) + if j > g then y * Pow2(16 - g) else 0
    ensures Off(c[g := c[g] + y], j) == Off(c, j) + if j > g then y else 0
  {
    if j > 1 {
      FirstAdd(c, g, y, j - 1);
      if j == g + 1 { SumTimes(c[g], y, Pow2(16 - g)); }
    }
  }

  lemma PaddedFull(b: seq<nat>, g: nat, y: nat)
    requires Lengths(b) && 1 <= g <= 16
    requires First(CountsOf(b), 17) + y * Pow2(16 - g) == 65536
    ensures First(Padded(b, g, y), 17) == 65536 && (y == 0 <==> Complete(b))
    ensures Off(Padded(b, g, y), 17) == Off(CountsOf(b), 17) + y
    ensures forall k :: 1 <= k <= g ==> Off(Padded(b, g, y), k) == Off(CountsOf(b), k)
  {
    hide Pow2;
    hide First;
    hide KraftSum;
    FirstAdd(CountsOf(b), g, y, 17);
    KraftIsFirst(b);
    if y > 0 { MulMono(1, y, Pow2(16 - g)); }
    forall k | 1 <= k <= g
      ensures Off(Padded(b, g, y), k) == Off(CountsOf(b), k)
    {
      FirstAdd(CountsOf(b), g, y, k);
    }
  }

  lemma NoneCounted(b: seq<nat>, g: nat, x: seq<nat>)
    requires g <= 16 && |x| == 17 && forall k :: 1 <= k <= g ==> x[k] == Off(CountsOf(b), k)
    ensures Cursors(b, 0, x, g)
  {
  }

  /** Code order lists only symbols. */
  lemma SortedRange(b: seq<nat>, v: seq<nat>, idx: nat)
    requires Lengths(b) && Placed(b, |b|, v) && idx < Off(CountsOf(b), 17)
    ensures idx < |v| && v[idx] < |b|
  {
    var c := CountsOf(b);
    var k := 1;
    while idx >= Off(c, k + 1)
      invariant 1 <= k <= 16 && Off(c, k) <= idx
      decreases 17 - k
    {
      k := k + 1;
    }
    var sym := SymbolOf(b, k, idx - Off(c, k));
    assert Index(b, sym) == idx;
  }

  lemma PlacedPrefix(b: seq<nat>, v: seq<nat>, used: nat)
    requires Lengths(b) && Placed(b, |b|, v) && used == Off(CountsOf(b), 17) && used <= |v|
    ensures Placed(b, |b|, v[..used])
  {
    forall sym: nat | sym < |b| && b[sym] > 0
      ensures Index(b, sym) < used
    {
      IndexBound(b, sym);
    }
  }

  lemma JobValid(job: Job, b: seq<nat>, simple: nat, base: seq<nat>, extra: seq<nat>, j: nat, m: nat, g: nat, y: nat,
        v: seq<nat>)
    requires ValidLists(b, simple, base, extra) && 1 <= j <= m <= g <= 16 && |b| <= |v|
    requires forall i :: 0 <= i < |b| ==> b[i] <= g
    requires CountsOf(b)[j] > 0 && CountsOf(b)[g] > 0 && Placed(b, |b|, v)
    requires First(CountsOf(b), 17) + y * Pow2(16 - g) == 65536
    requires var used := Off(CountsOf(b), 17);
             used <= |v| && job == Job(Padded(b, g, y), g, m, v[..used], |b|, simple, base, extra)
    ensures job.Valid() && JobOf(job, b, simple, base, extra, m, g, y)
  {
    hide First;
    hide Pow2;
    hide Placed;
    PaddedFull(b, g, y);
    OffBound(b);
    PlacedPrefix(b, v, |job.sorted|);
    forall k | g < k <= 16
      ensures job.c[k] == 0
    {
      if Count(b, k) > 0 { var sym := SymbolOf(b, k, 0); }
    }
    assert Off(job.c, j + 1) > 0;
    FirstMono(job.c, j + 1, m + 1);
    forall i: nat | i < |job.sorted|
      ensures job.sorted[i] < |b|
    {
      SortedRange(b, v, i);
    }
  }

  /** The finished tables decode every bit string, for sets without wide blocks, and otherwise not. */
  lemma TablesServe(job: Job, lens: seq<nat>, simple: nat, base: seq<nat>, extra: seq<nat>, m: nat, g: nat, y: nat,
                    ts: Tables, info: seq<Info>)
    requires JobOf(job, lens, simple, base, extra, m, g, y)
    requires Built(job, ts, info, 65536) && 0 < |ts| && Pow2(m) <= |ts[0]|
    ensures Lengths(lens) && KraftSum(lens) <= 65536
    ensures Narrow(lens, m) ==> Serves(lens, simple, base, extra, ts, m)
    ensures Determined(lens) && Serves(lens, simple, base, extra, ts, m) ==> Narrow(lens, m)
    ensures Roomy(lens, m) ==> Narrow(lens, m)
  {
    hide Pow2;
    hide Decodes;
    hide Placed;
    hide Padded;
    hide Wide;
    hide KraftSum;
    hide AllOk;
    hide WidthsOk;
    hide Linked;
    hide Determined;
    hide Roomy;
    FullIs(job, lens, simple, base, extra, m, g, y);
    if NoneWide(job.c, m) {
      forall s: seq<Byte>, pos: nat
        ensures Decodes(lens, simple, base, extra, ts, m, s, pos)
      {
        TablesDecode(job, lens, simple, base, extra, m, g, y, ts, info, s, pos);
      }
    } else if Determined(lens) {
      var i: Info :| i.Valid() && i.w % m == 0 && Wide(job.c, m, i);
      WideFails(job, lens, simple, base, extra, m, g, y, ts, info, i);
    }
    if Roomy(lens, m) { RoomyNarrow(job, lens, simple, base, extra, m, g, y); }
  }

  /**
   huft_build. r: 0 for a complete set (or no codes at all, or one code of one bit), 1 for an incomplete
   one, 2 for too many codes. ts[0] is the root table, to be indexed with m bits.
   */
  method HuftBuild(b: seq<nat>, simple: nat, base: seq<nat>, extra: seq<nat>, m0: nat)
    returns (r: nat, ts: Tables, m: nat)
    requires ValidLists(b, simple, base, extra)
    ensures r <= 2
    ensures r == 2 <==> KraftSum(b) > 65536
    ensures AllZero(b) ==> r == 0 && |ts| == 0 && m == 0
    ensures r < 2 && !AllZero(b) ==>
              && (r == 1 <==> !Complete(b) && exists i :: 0 <= i < |b| && b[i] > 1)
              && 1 <= m <= 16 && Linked(ts) && 0 < |ts| && Pow2(m) <= |ts[0]|
              && (m <= m0 || forall i :: 0 <= i < |b| && b[i] > 0 ==> m <= b[i])
              && (m0 <= m || forall i :: 0 <= i < |b| ==> b[i] <= m)
              && (exists i :: 0 <= i < |b| && m <= b[i])
              && (Narrow(b, m) ==> Serves(b, simple, base, extra, ts, m))
              && (Determined(b) && Serves(b, simple, base, extra, ts, m) ==> Narrow(b, m))
              && (Roomy(b, m) ==> Narrow(b, m))
  {
    hide Pow2;
    hide First;
    hide Off;
    hide Placed;
    hide KraftSum;
    hide Cursors;
    hide Decodes;
    hide Count;
    hide JobOf;
    var c := CountLengths(b);
    NullSet(b);
    KraftIsFirst(b);
    OffBound(b);
    if c[0] == |b| {
      KraftNone(b);
      return 0, [], 0;
    }
    ghost var C := CountsOf(b);
    var j, g := FindRange(c[..]);
    RangeOf(b, j, g);
    var l := m0;
    if l < j { l := j; }
    if l > g { l := g; }
    m := l;
    var used := |b| - c[0];
    var y := FillOut(c, j, g);
    if y < 0 {
      return 2, [], m;
    }
    PaddedFull(b, g, y);
    assert c[..] == Padded(b, g, y);
    var x := Offsets(c[..], g);
    NoneCounted(b, g, x[..]);
    var v := new nat[288];
    SortByCode(b, x, g, v);
    ghost var job := Job(c[..], g, l, v[..used], |b|, simple, base, extra);
    JobValid(job, b, simple, base, extra, j, m, g, y, v[..]);
    ghost var info;
    ts, info := MakeTables(job, c[..], v[..], used, |b|, x, j, g, l, simple, base, extra);
    BuiltRoot(job, ts, info);
    TablesServe(job, b, simple, base, extra, m, g, y, ts, info);
    r := if y != 0 && g != 1 then 1 else 0;
  }

  lemma BuiltRoot(job: Job, ts: Tables, info: seq<Info>)
    requires Built(job, ts, info, 65536)
    ensures Linked(ts) && 0 < |ts| && Pow2(job.l) <= |ts[0]|
  {
  }

  // ----- A set that is not decoded -----

  lemma FiveCounts()
    ensures Tally([1, 3, 3, 3, 3], 1, 0, 4, 65536, 3)
  {
    hide Tally;
    OneMore([], 1, 0, 0, 0, 0, 0) by { NoneYet(); }
    assert [] + [1] == [1];
    OneMore([1], 3, 1, 0, 0, 32768, 1);
    assert [1] + [3] == [1, 3];
    OneMore([1, 3], 3, 1, 0, 1, 40960, 3);
    assert [1, 3] + [3] == [1, 3, 3];
    OneMore([1, 3, 3], 3, 1, 0, 2, 49152, 3);
    assert [1, 3, 3] + [3] == [1, 3, 3, 3];
    OneMore([1, 3, 3, 3], 3, 1, 0, 3, 57344, 3);
    assert [1, 3, 3, 3] + [3] == [1, 3, 3, 3, 3];
  }

  /** What a set of codes of up to three bits comes to. */
  predicate Tally(lens: seq<nat>, ones: nat, twos: nat, threes: nat, sum: nat, g: nat)
  {
    && Lengths(lens) && KraftSum(lens) == sum && Longest(lens) == g
    && Count(lens, 1) == ones && Count(lens, 2) == twos && Count(lens, 3) == threes
  }

  lemma NoneYet()
    ensures Tally([], 0, 0, 0, 0, 0)
  {
  }

  lemma OneMore(lens: seq<nat>, k: nat, ones: nat, twos: nat, threes: nat, sum: nat, g: nat)
    requires Tally(lens, ones, twos, threes, sum, g) && (k == 1 || k == 3)
    ensures Tally(lens + [k], if k == 1 then ones + 1 else ones, twos, if k == 3 then threes + 1 else threes,
                  sum + if k == 1 then 32768 else 8192, if g > k then g else k)
  {
    assert (lens + [k])[..|lens|] == lens;
    Pow2Sixteen();
    assert Pow2(15) == 4 * Pow2(13);
  }

  /** One code of one bit and four of three, with tables of one bit: the sub-table gets two, and symbol 2 is lost. */
  lemma TooWide()
    ensures Complete([1, 3, 3, 3, 3]) && !Narrow([1, 3, 3, 3, 3], 1)
  {
    hide Count;
    hide KraftSum;
    hide Longest;
    var lens: seq<nat> := [1, 3, 3, 3, 3];
    FiveCounts();
    var c := Full(lens);
    Pow2Sixteen();
    DivModUnique(0, Pow2(13), 0, 0);
    var i := Info(1, 1, 0);
    assert First(c, 2) == 32768 && First(c, 3) == 32768;
    forall k: nat, q: nat | IsCode(c, k, q) && i.Contains(At(c, k, q))
      ensures k >= 2
    {
    }
    assert IsCode(c, 3, 0) && i.Contains(At(c, 3, 0));
    DivModUnique(1, 1, 1, 0);
    assert Wide(c, 1, i);
  }
}
