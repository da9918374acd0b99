/**
 Tables that get more index bits than the next level assumes: which blocks of codes make huft_build do that, and the
 slot of such a table that nobody writes.
 */
module HuftWide {
  import opened Bits
  import opened BitStream
  import opened Huffman
  import opened HuftTables

  /** Behind the root, a block in which every code takes the l bits of a table or more, and some code takes more. */
  ghost predicate Wide(c: Counts, l: nat, i: Info)
    requires i.w <= 16
  {
    && i.w > 0
    && (forall k: nat, q: nat :: IsCode(c, k, q) && i.Contains(At(c, k, q)) ==> k >= i.w + l)
    && exists k: nat, q: nat :: IsCode(c, k, q) && i.Contains(At(c, k, q)) && k > i.w + l
  }

  /** No table of l bits and its sub-tables meet such a block. */
  ghost predicate NoneWide(c: Counts, l: nat)
    requires l > 0
  {
    forall i: Info :: i.Valid() && i.w % l == 0 ==> !Wide(c, l, i)
  }

  /** More slots than l bits index, and nothing in the last. */
  ghost predicate TopWild(row: seq<Huft>, l: nat)
  {
    exists j: nat :: j > l && |row| == Pow2(j) && row[|row| - 1] == Wild
  }

  /** The table of a wide block is too large; every other one behind the root is just large enough. */
  ghost predicate WidthOk(job: Job, ts: Tables, info: seq<Info>, t: nat)
    requires job.Valid() && Shaped(job, ts, info) && t < |ts|
  {
    var i := info[t];
    && i.w % job.l == 0
    && (i.w > 0 ==>
          if Wide(job.c, job.l, i) then i.nb == job.l && TopWild(ts[t], job.l) else |ts[t]| == Pow2(i.nb))
  }

  ghost predicate WidthsOk(job: Job, ts: Tables, info: seq<Info>)
    requires job.Valid() && Shaped(job, ts, info)
  {
    forall t :: 0 <= t < |ts| ==> WidthOk(job, ts, info, t)
  }

  lemma NoneWideExact(job: Job, ts: Tables, info: seq<Info>)
    requires job.Valid() && Shaped(job, ts, info) && WidthsOk(job, ts, info) && NoneWide(job.c, job.l)
    ensures Exact(ts, info)
  {
    hide Wide;
    hide TopWild;
    hide Pow2;
    forall t | 0 <= t < |ts| && info[t].w > 0
      ensures |ts[t]| == Pow2(info[t].nb)
    {
      assert WidthOk(job, ts, info, t);
    }
  }

  lemma NextLevel(w: nat, l: nat)
    requires l > 0 && w % l == 0
    ensures (w + l) % l == 0
  {
    DivModUnique(w + l, l, w / l + 1, 0);
  }

  /** Linking a new table keeps the widths: a link goes to a slot below the last of a table that is too large. */
  lemma WidthsOpen(job: Job, ts: Tables, info: seq<Info>, t: nat, j: nat, link: Huft, i: Info, rows: seq<Huft>, J: nat)
    requires job.Valid() && Shaped(job, ts, info) && WidthsOk(job, ts, info) && t < |ts| && j < Pow2(job.l) <= |ts[t]|
    requires i.Valid() && i.nb <= job.l && Pow2(i.nb) <= |rows| && i.w == info[t].w + job.l
    requires |rows| == Pow2(J) && (forall x :: 0 <= x < |rows| ==> rows[x] == Wild)
    requires if Wide(job.c, job.l, i) then J > job.l && i.nb == job.l else J == i.nb
    ensures var ts' := ts[t := ts[t][j := link]] + [rows];
      Shaped(job, ts', info + [i]) && WidthsOk(job, ts', info + [i])
  {
    hide Wide;
    hide Pow2;
    var ts', info' := ts[t := ts[t][j := link]] + [rows], info + [i];
    assert WidthOk(job, ts, info, t);
    NextLevel(info[t].w, job.l);
    forall a | 0 <= a < |ts'|
      ensures WidthOk(job, ts', info', a)
    {
      if a < |ts| {
        assert WidthOk(job, ts, info, a);
        if a == t && info[t].w > 0 && Wide(job.c, job.l, info[t]) { TopStays(ts[t], job.l, j, link); }
      }
    }
  }

  lemma TopStays(row: seq<Huft>, l: nat, j: nat, h: Huft)
    requires TopWild(row, l) && j < Pow2(l) <= |row|
    ensures TopWild(row[j := h], l)
  {
    var J: nat :| J > l && |row| == Pow2(J) && row[|row| - 1] == Wild;
    Pow2Mono(l, J);
  }

  /** Storing a code keeps them: a code that would reach the last slot of a table too large is longer than it. */
  lemma WidthsFill(job: Job, ts: Tables, ts': Tables, info: seq<Info>, t: nat, k0: nat, q0: nat, start: nat, r: Huft)
    requires job.Valid() && Shaped(job, ts, info) && WidthsOk(job, ts, info) && IsCode(job.c, k0, q0)
    requires Filled(job, ts, ts', info, t, k0, q0, start, r)
    ensures Shaped(job, ts', info) && WidthsOk(job, ts', info)
  {
    hide Wide;
    hide Pow2;
    hide Rev;
    hide Low;
    hide At;
    forall a | 0 <= a < |ts'|
      ensures WidthOk(job, ts', info, a)
    {
      assert WidthOk(job, ts, info, a);
      if a == t && info[t].w > 0 && Wide(job.c, job.l, info[t]) {
        TopUnfilled(job, ts[t], ts'[t], info[t], k0, q0, start, r);
      }
    }
  }

  lemma TopUnfilled(job: Job, row: seq<Huft>, row': seq<Huft>, i: Info, k0: nat, q0: nat, start: nat, r: Huft)
    requires job.Valid() && i.Valid() && IsCode(job.c, k0, q0) && Wide(job.c, job.l, i) && i.nb == job.l
    requires i.w < k0 <= i.w + i.nb && start < Pow2(k0 - i.w)
    requires At(job.c, k0, q0) == i.Start() + Rev(k0 - i.w, start) * Pow2(16 - k0)
    requires |row'| == |row|
    requires forall j :: 0 <= j < |row| ==> row'[j] == if Low(j, k0 - i.w) == start then r else row[j]
    requires TopWild(row, job.l)
    ensures TopWild(row', job.l)
  {
    hide Rev;
    hide Low;
    hide At;
    hide Pow2;
    var u := k0 - i.w;
    var J: nat :| J > job.l && |row| == Pow2(J) && row[|row| - 1] == Wild;
    LowOfOnes(J, u);
    if start == Pow2(u) - 1 {
      RevOnes(u);
      LastInBlock(job.c, job.l, i, k0, q0);
    }
  }

  lemma LowOfOnes(n: nat, u: nat)
    requires u <= n
    ensures Pow2(n) >= 1 && Low(Pow2(n) - 1, u) == Pow2(u) - 1
  {
    hide Pow2;
    Pow2Add(n - u, u);
    var p, v := Pow2(n - u), Pow2(u);
    assert p * v - 1 == (p - 1) * v + (v - 1) by { NextMultiple(p - 1, v); }
    SplitUnique(Pow2(n) - 1, u, p - 1, v - 1);
  }

  /** A code that ends with a wide block is longer than the table. */
  lemma LastInBlock(c: Counts, l: nat, i: Info, k0: nat, q0: nat)
    requires i.Valid() && i.w < k0 && IsCode(c, k0, q0) && Wide(c, l, i)
    requires At(c, k0, q0) == i.Start() + (Pow2(k0 - i.w) - 1) * Pow2(16 - k0)
    ensures k0 > i.w + l
  {
    hide At;
    hide Pow2;
    if k0 <= i.w + l {
      Pow2Add(k0 - i.w, 16 - k0);
      NextMultiple(Pow2(k0 - i.w) - 1, Pow2(16 - k0));
      var k: nat, q: nat :| IsCode(c, k, q) && i.Contains(At(c, k, q)) && k > i.w + l;
      AtOrder(c, k0, q0, k, q);
    }
  }

  // ----- What a lookup misses -----

  /** n ones. */
  function Ones(n: nat): nat { Pow2(n) - 1 }

  lemma OnesJoin(a: nat, b: nat)
    ensures Ones(a) + Pow2(a) * Ones(b) == Ones(a + b) && Ones(b) * Pow2(a) + Ones(a) == Ones(a + b)
  {
    hide Pow2;
    Pow2Add(a, b);
    OnesProduct(Pow2(a), Pow2(b));
  }

  lemma OnesProduct(p: nat, q: nat)
    ensures p - 1 + p * (q - 1) == p * q - 1 && (q - 1) * p + p - 1 == p * q - 1
  {
  }

  /** A stream that starts with the last pattern of a block and goes on with ones. */
  lemma LastPattern(i: Info) returns (s: seq<Byte>)
    requires i.Valid()
    ensures Msb(s, 0, 16) == i.End() - 1 && Msb(s, 0, i.w) == i.m
    ensures forall n: nat :: n <= 16 ==> Lsb(s, i.w, n) == Ones(n)
  {
    hide Pow2;
    hide Rev;
    hide Lsb;
    hide Msb;
    hide Ones;
    var v := 16 - i.w;
    RevBound(i.w, i.m);
    OnesBelow(v);
    Pow2Add(i.w, v);
    Pow2Sixteen();
    var x := Rev(i.w, i.m) + Pow2(i.w) * Ones(v);
    WordBound(Rev(i.w, i.m), Pow2(i.w), Ones(v), Pow2(v));
    s := [x % 256, x / 256, 255, 255];
    FirstWord(s, x);
    SplitUnique(x, i.w, Ones(v), Rev(i.w, i.m));
    LsbSplit(s, 0, i.w, 16);
    MsbIsRev(s, 0, i.w);
    RevRev(i.w, i.m);
    MsbConcat(s, 0, i.w, v);
    MsbIsRev(s, i.w, v);
    OnesRev(v);
    LsbConcat(s, i.w, v, 16);
    OnesJoin(v, 16);
    forall n: nat | n <= 16
      ensures Lsb(s, i.w, n) == Ones(n)
    {
      LsbSplit(s, i.w, n, v + 16);
      OnesLow(v + 16, n);
    }
  }

  lemma OnesBelow(n: nat)
    ensures Ones(n) + 1 == Pow2(n)
  {
  }

  lemma OnesRev(n: nat)
    ensures Rev(n, Ones(n)) == Ones(n)
  {
    RevOnes(n);
  }

  lemma OnesLow(n: nat, u: nat)
    requires u <= n
    ensures Low(Ones(n), u) == Ones(u)
  {
    LowOfOnes(n, u);
  }

  lemma WordBound(r: nat, p: nat, o: nat, q: nat)
    requires r < p && o + 1 == q && p * q == 65536
    ensures r + p * o < 65536 && r + p * o == o * p + r
  {
    assert p * q == p * o + p;
  }

  /** The first sixteen bits of a stream of two bytes and ones behind them. */
  lemma FirstWord(s: seq<Byte>, x: nat)
    requires x < 65536 && s == [x % 256, x / 256, 255, 255]
    ensures Lsb(s, 0, 16) == x && Lsb(s, 16, 16) == Ones(16)
  {
    hide Lsb;
    LsbByte(s, 0);
    LsbByte(s, 1);
    LsbByte(s, 2);
    LsbByte(s, 3);
    LsbConcat(s, 0, 8, 8);
    LsbConcat(s, 16, 8, 8);
    Pow2Sixteen();
  }

  /** The code that owns the last pattern of a wide block is longer than a table. */
  lemma LastOwner(c: Counts, l: nat, i: Info) returns (k: nat, q: nat)
    requires i.Valid() && Wide(c, l, i) && First(c, 17) == 65536
    ensures IsCode(c, k, q) && At(c, k, q) <= i.End() - 1 < At(c, k, q) + Pow2(16 - k) && k > i.w + l
  {
    hide At;
    hide Pow2;
    BlockInRange(i);
    k, q := FindCode(c, i.End() - 1);
    var k1: nat, q1: nat :| IsCode(c, k1, q1) && i.Contains(At(c, k1, q1)) && k1 > i.w + l;
    if k < k1 { AtOrder(c, k, q, k1, q1); }
  }

  /** Wide blocks on levels of the tables, as few bits down as there are. */
  ghost predicate FirstWide(c: Counts, l: nat, i: Info)
    requires l > 0
  {
    i.Valid() && i.w % l == 0 && Wide(c, l, i)
    && forall j: Info :: j.Valid() && j.w % l == 0 && j.w < i.w ==> !Wide(c, l, j)
  }

  lemma SomeFirst(c: Counts, l: nat, i: Info) returns (f: Info)
    requires l > 0 && i.Valid() && i.w % l == 0 && Wide(c, l, i)
    ensures FirstWide(c, l, f)
    decreases i.w
  {
    hide Wide;
    if j: Info :| j.Valid() && j.w % l == 0 && j.w < i.w && Wide(c, l, j) { f := SomeFirst(c, l, j); } else { f := i; }
  }

  /** The widths do not matter to whether a block is wide. */
  lemma SameWide(c: Counts, l: nat, i: Info, j: Info)
    requires i.w == j.w <= 16 && i.m == j.m
    ensures Wide(c, l, i) <==> Wide(c, l, j)
  {
    assert i.Start() == j.Start();
    forall k: nat, q: nat | IsCode(c, k, q) ensures i.Contains(At(c, k, q)) <==> j.Contains(At(c, k, q)) { }
  }

  /** A walk to the last pattern of the first wide block ends in a slot nobody wrote. */
  lemma {:induction false} WalkMisses(job: Job, ts: Tables, info: seq<Info>, t: nat, s: seq<Byte>, i: Info)
    requires job.Valid() && Shaped(job, ts, info) && Linked(ts) && AllOk(job, ts, info, 65536)
    requires WidthsOk(job, ts, info)
    requires FirstWide(job.c, job.l, i) && t < |ts| && info[t].w < i.w && Msb(s, 0, info[t].w) == info[t].m
    requires Msb(s, 0, 16) == i.End() - 1 && Msb(s, 0, i.w) == i.m
    requires forall n: nat :: n <= 16 ==> Lsb(s, i.w, n) == Ones(n)
    ensures Walk(ts, t, info[t].nb, s, info[t].w).entry == Wild
    decreases |ts| - t
  {
    hide Rev;
    hide Pow2;
    hide Lsb;
    hide Msb;
    hide First;
    hide Off;
    hide At;
    hide AllOk;
    hide SlotOk;
    hide Walk;
    hide WalkSafe;
    hide Wide;
    hide TopWild;
    hide Ones;
    var p := info[t];
    var k, q := LastOwner(job.c, job.l, i);
    assert WidthOk(job, ts, info, t);
    LevelGap(p.w, i.w, job.l);
    var j, h := SlotDecides(job, ts, info, t, s, 0, k, q);
    WalkFollows(ts, t, p.nb, s, p.w, p.w);
    var c := info[h.v];
    assert WidthOk(job, ts, info, h.v);
    if c.w < i.w {
      PowInjective(h.e - 16, c.nb);
      WalkMisses(job, ts, info, h.v, s, i);
    } else {
      SameWide(job.c, job.l, i, c);
      LastSlot(ts, h.v, h.e - 16, s, i.w, job.l);
    }
  }

  lemma LevelGap(a: nat, b: nat, l: nat)
    requires l > 0 && a % l == 0 && b % l == 0 && a < b
    ensures a + l <= b
  {
    var x, y := a / l, b / l;
    assert a == x * l && b == y * l;
    MulLess(x, y, l);
    MulMono(x + 1, y, l);
    NextMultiple(x, l);
  }

  lemma LastSlot(ts: Tables, t: nat, n: nat, s: seq<Byte>, pos: nat, l: nat)
    requires Linked(ts) && t < |ts| && n <= 16 && Pow2(n) == |ts[t]| && TopWild(ts[t], l) && Lsb(s, pos, n) == Ones(n)
    ensures Walk(ts, t, n, s, pos).entry == Wild
  {
    hide Lsb;
    hide Pow2;
    hide Linked;
    OnesBelow(n);
  }
}
