/**
 The linked lookup tables of inflate.c: what a walk through them means, and the invariants that
 huft_build keeps while it fills them code by code.
 */
module HuftTables {
  import opened Bits
  import opened BitStream
  import opened Huffman

  /**
   A table slot. e: 0..13 extra bits, 15 end of block, 16 literal, 16 + j link to a table of j bits,
   99 invalid code. v: value, or the index of the linked table. Wild: memory nobody has written.
   */
  datatype Huft = Entry(e: nat, b: nat, v: nat) | Wild
  {
    predicate IsLink() { Entry? && e > 16 && e != 99 }
  }

  /** Tables in order of allocation. */
  type Tables = seq<seq<Huft>>

  predicate LinkOk(ts: Tables, t: nat, h: Huft)
  {
    h.IsLink() ==> 16 < h.e <= 32 && 1 <= h.b <= 16 && t < h.v < |ts| && Pow2(h.e - 16) <= |ts[h.v]|
  }

  predicate Linked(ts: Tables)
  {
    forall t, j :: 0 <= t < |ts| && 0 <= j < |ts[t]| ==> LinkOk(ts, t, ts[t][j])
  }

  /** The slot a lookup ends in, where the bits of that last table start, and how many index it. */
  datatype Found = Found(entry: Huft, pos: nat, nb: nat)

  /** The lookup loop of inflate_codes: index, and while the slot is a link, drop its bits and follow it. */
  function Walk(ts: Tables, t: nat, nb: nat, s: seq<Byte>, pos: nat): Found
    requires Linked(ts) && t < |ts| && Pow2(nb) <= |ts[t]|
    decreases |ts| - t
  {
    LsbConcat(s, pos, nb, 0);
    var h := ts[t][Lsb(s, pos, nb)];
    assert LinkOk(ts, t, h);
    if h.IsLink() then Walk(ts, h.v, h.e - 16, s, pos + h.b) else Found(h, pos, nb)
  }

  /**
   On the way, a link drops no more bits than were looked at and leads to a table of at most 8 bits, and
   with `used` bits behind it the walk looks at no more than sixteen.
   */
  predicate WalkSafe(ts: Tables, t: nat, nb: nat, s: seq<Byte>, pos: nat, used: nat)
    requires Linked(ts) && t < |ts| && Pow2(nb) <= |ts[t]|
    decreases |ts| - t
  {
    LsbConcat(s, pos, nb, 0);
    var h := ts[t][Lsb(s, pos, nb)];
    assert LinkOk(ts, t, h);
    && used + nb <= 16
    && (h.IsLink() ==> h.b <= nb && h.e <= 24 && WalkSafe(ts, h.v, h.e - 16, s, pos + h.b, used + h.b))
  }

  /** The slot for symbol sym: simple values below `simple`, then base values with extra bits. */
  function Value(sym: nat, b: nat, simple: nat, base: seq<nat>, extra: seq<nat>): Huft
    requires sym >= simple ==> sym - simple < |base| && sym - simple < |extra|
  {
    if sym < simple then Entry(if sym < 256 then 16 else 15, b, sym)
    else Entry(extra[sym - simple], b, base[sym - simple])
  }

  // ----- What the tables must hold -----

  /** A table answers for the 16-bit patterns that start with the w bits m, and is indexed by nb bits. */
  datatype Info = Info(w: nat, m: nat, nb: nat)
  {
    predicate Valid() { w + nb <= 16 && m < Pow2(w) }
    function Start(): nat requires w <= 16
    {
      MulMono(0, m, Pow2(16 - w));
      m * Pow2(16 - w)
    }
    function End(): nat requires w <= 16 { Start() + Pow2(16 - w) }
    predicate Contains(cur: nat) requires w <= 16 { Start() <= cur < End() }
    /** The first 16-bit pattern whose bits lead to slot j. */
    function Lo(j: nat): nat requires Valid()
    {
      MulMono(0, Rev(nb, j), Width());
      Start() + Rev(nb, j) * Width()
    }
    function Width(): nat requires Valid() { Pow2(16 - w - nb) }
  }

  /** One call of huft_build: its codes (filled up to a complete set) and the symbols in code order. */
  datatype Job = Job(c: Counts, g: nat, l: nat, sorted: seq<nat>, n: nat,
                     simple: nat, base: seq<nat>, extra: seq<nat>)
  {
    predicate Valid()
    {
      && 1 <= l <= g <= 16
      && First(c, 17) == 65536
      && (forall k :: g < k <= 16 ==> c[k] == 0)
      && c[g] > 0
      && Off(c, l + 1) > 0
      && |sorted| <= Off(c, 17)
      && |sorted| <= n
      && (forall i :: 0 <= i < |sorted| ==>
            sorted[i] >= simple ==> sorted[i] - simple < |base| && sorted[i] - simple < |extra|)
      && (forall i :: 0 <= i < |extra| ==> extra[i] <= 13 || extra[i] == 99)
    }

    /** What a slot for the code with index idx in code order holds. */
    predicate Fits(idx: nat, b: nat, h: Huft)
      requires Valid()
    {
      if idx < |sorted| then h == Value(sorted[idx], b, simple, base, extra)
      else if idx >= n then h.Entry? && h.e == 99
      else h == Wild
    }
  }

  predicate Shaped(job: Job, ts: Tables, info: seq<Info>)
  {
    && |ts| == |info|
    && forall t :: 0 <= t < |info| ==>
         info[t].Valid() && info[t].nb <= job.l && Pow2(info[t].nb) <= |ts[t]|
  }

  /** Slot j of table t leads to the table for the patterns behind that slot. */
  predicate LinksTo(job: Job, ts: Tables, info: seq<Info>, t: nat, j: nat)
    requires job.Valid() && Shaped(job, ts, info) && t < |ts| && j < Pow2(info[t].nb)
  {
    var h, i := ts[t][j], info[t];
    && h.IsLink() && h.b == job.l && h.v < |ts|
    && info[h.v].w == i.w + i.nb
    && info[h.v].m == i.m * Pow2(i.nb) + Rev(i.nb, j)
    && Pow2(h.e - 16) == |ts[h.v]|
  }

  /** What code (k, q) demands of slot j of table t. */
  predicate SlotOk(job: Job, ts: Tables, info: seq<Info>, t: nat, j: nat, k: nat, q: nat)
    requires job.Valid() && Shaped(job, ts, info) && t < |ts| && j < Pow2(info[t].nb)
    requires IsCode(job.c, k, q)
  {
    var i, at := info[t], At(job.c, k, q);
    && (i.w < k <= i.w + i.nb && at <= i.Lo(j) < at + Pow2(16 - k)
        ==> job.Fits(Off(job.c, k) + q, k - i.w, ts[t][j]))
    && (k > i.w + i.nb && i.Lo(j) <= at < i.Lo(j) + i.Width()
        ==> i.nb == job.l && LinksTo(job, ts, info, t, j))
  }

  /** Every code before pattern cur has its slots. */
  ghost predicate AllOk(job: Job, ts: Tables, info: seq<Info>, cur: nat)
    requires job.Valid() && Shaped(job, ts, info)
  {
    forall t, j, k, q {:trigger SlotOk(job, ts, info, t, j, k, q)} ::
      0 <= t < |ts| && 0 <= j < Pow2(info[t].nb) && 0 <= k && 0 <= q && IsCode(job.c, k, q) && At(job.c, k, q) < cur
      ==> SlotOk(job, ts, info, t, j, k, q)
  }

  // ----- Geometry of a table -----

  lemma SlotRange(i: Info, j: nat)
    requires i.Valid()
    ensures i.Start() <= i.Lo(j) && i.Lo(j) + i.Width() <= i.End()
    ensures i.Lo(j) == (i.m * Pow2(i.nb) + Rev(i.nb, j)) * i.Width()
  {
    hide Pow2;
    hide Rev;
    RevBound(i.nb, j);
    Pow2Add(i.nb, 16 - i.w - i.nb);
    SlotArith(i.m, Pow2(i.nb), i.Width(), Rev(i.nb, j));
  }

  lemma SlotArith(m: nat, p: nat, d: nat, r: nat)
    requires r < p
    ensures 0 <= r * d && r * d + d <= p * d
    ensures (m * p + r) * d == m * (p * d) + r * d
  {
    MulMono(r + 1, p, d);
    MulAssoc(m, p, d);
  }

  /** The slots that start with a u-bit code are those whose index has the right residue. */
  lemma SlotResidue(i: Info, j: nat, u: nat, start: nat)
    requires i.Valid() && u <= i.nb && start < Pow2(u) && j < Pow2(i.nb)
    ensures var cur := i.Start() + Rev(u, start) * Pow2(16 - i.w - u);
            cur <= i.Lo(j) < cur + Pow2(16 - i.w - u) <==> Low(j, u) == start
  {
    hide Pow2;
    hide Rev;
    var v := i.nb - u;
    var low, high := Low(j, u), Shr(j, u);
    assert j == low + Pow2(u) * high;
    RevConcat(u, v, low, high);
    RevBound(v, high);
    Pow2Add(v, 16 - i.w - i.nb);
    ResidueArith(i.Start(), Rev(u, low), Rev(v, high), Pow2(v), i.Width(), Rev(u, start));
    RevRev(u, low);
    RevRev(u, start);
  }

  lemma ResidueArith(S: nat, a: nat, b: nat, V: nat, d: nat, r: nat)
    requires b < V && d > 0
    ensures S + r * (V * d) <= S + (a * V + b) * d < S + r * (V * d) + V * d <==> a == r
  {
    var D := V * d;
    assert D > 0 by { MulMono(1, V, d); }
    SlotArith(a, V, d, b);
    Between(a, b * d, r, D);
  }

  /** Which multiple of D is at most x below. */
  lemma Between(a: nat, rest: int, r: nat, D: nat)
    requires 0 <= rest < D
    ensures r * D <= a * D + rest < r * D + D <==> a == r
  {
    if a < r {
      MulMono(a + 1, r, D);
      SumTimes(a, 1, D);
    } else if a > r {
      MulMono(r + 1, a, D);
      SumTimes(r, 1, D);
    }
  }

  /** How the reversed counter i of huft_build relates to the current pattern. */
  lemma CounterBits(cur: nat, w: nat, k: nat)
    requires w <= k <= 16 && cur < 65536 && Mult(cur, Pow2(16 - k))
    ensures Low(Rev(16, cur), w) == Rev(w, Shr(cur, 16 - w))
    ensures Shr(Rev(16, cur), w) < Pow2(k - w)
    ensures cur == Shr(cur, 16 - w) * Pow2(16 - w) + Rev(k - w, Shr(Rev(16, cur), w)) * Pow2(16 - k)
    ensures Shr(cur, 16 - w) < Pow2(w)
  {
    hide Rev;
    hide Pow2;
    Pow2Sixteen();
    var W, K := Pow2(16 - w), Pow2(16 - k);
    Pow2Add(k - w, 16 - k);
    Pow2Add(w, 16 - w);
    var m, q, r := SplitCounter(cur, Pow2(w), W, Pow2(k - w), K);
    assert Rev(16, cur) == Rev(16 - w, r) * Pow2(w) + Rev(w, m) by {
      RevConcat(16 - w, w, r, m);
    }
    RevBound(w, m);
    SplitUnique(Rev(16, cur), w, Rev(16 - w, r), Rev(w, m));
    SplitUnique(cur, 16 - w, m, r);
    assert Rev(16 - w, r) == Rev(k - w, q) by {
      RevConcat(16 - k, k - w, 0, q);
      RevZero(16 - k);
    }
    RevBound(k - w, q);
    RevRev(k - w, q);
  }

  lemma SplitCounter(cur: nat, P: nat, W: nat, Q: nat, K: nat) returns (m: nat, q: nat, r: nat)
    requires Q > 0 && K > 0 && P > 0 && W == Q * K && Mult(cur, K) && cur < P * W
    ensures cur == m * W + r && cur == r + W * m && r < W && m < P
    ensures r == 0 + K * q && r == q * K && q < Q
  {
    assert W > 0 by { MulMono(1, Q, K); }
    m, r := cur / W, cur % W;
    DivNonnegative(cur, W);
    assert cur == m * W + r;
    MulLess(m, P, W);
    var n := cur / K;
    DivNonnegative(cur, K);
    assert cur == n * K;
    q := n % Q;
    DivModNest(cur, K, Q);
    assert K * Q == W;
    assert r == cur % K + K * q;
  }

  // ----- The stack of open tables -----

  /** Every code inside the block of a table short of l bits fits in that table. */
  ghost predicate Sized(job: Job, i: Info)
    requires job.Valid() && i.Valid()
  {
    i.nb == job.l || forall k: nat, q: nat :: IsCode(job.c, k, q) && i.Contains(At(job.c, k, q)) ==> k <= i.w + i.nb
  }

  predicate OnStack(u: seq<nat>, h: int, t: nat)
  {
    exists i :: 0 <= i <= h < |u| && u[i] == t
  }

  /** Table u[i] links to table u[i + 1], l bits further on. */
  predicate Child(job: Job, ts: Tables, info: seq<Info>, u: seq<nat>, i: nat)
    requires job.Valid() && Shaped(job, ts, info) && i + 1 < |u| && u[i] < |ts| && u[i + 1] < |ts|
  {
    var p, c := info[u[i]], info[u[i + 1]];
    var j := Rev(job.l, Low(c.m, job.l));
    && p.nb == job.l && c.w == p.w + job.l && Shr(c.m, job.l) == p.m
    && j < Pow2(p.nb) && LinksTo(job, ts, info, u[i], j) && ts[u[i]][j].v == u[i + 1]
  }

  /** u[0..h] are the open tables around pattern cur, x[0..h] their patterns; all others end by `done`. */
  ghost predicate Stacked(job: Job, ts: Tables, info: seq<Info>, u: seq<nat>, x: seq<nat>, h: int, cur: nat, done: nat)
    requires job.Valid() && Shaped(job, ts, info)
  {
    && 0 <= h < |u| && h < |x|
    && (forall i :: 0 <= i <= h ==>
          u[i] < |ts| && info[u[i]].Contains(cur) && x[i] == Rev(info[u[i]].w, info[u[i]].m))
    && info[u[0]].w == 0
    && (forall i :: 0 <= i < h ==> Child(job, ts, info, u, i))
    && (forall t :: 0 <= t < |info| ==> OnStack(u, h, t) || info[t].End() <= done)
    && (forall t :: 0 <= t < |info| ==> Sized(job, info[t]))
  }

  /** A code before another ends before it. */
  lemma EndsBefore(c: Counts, k: nat, q: nat, k0: nat, q0: nat)
    requires IsCode(c, k, q) && IsCode(c, k0, q0) && At(c, k, q) < At(c, k0, q0)
    ensures At(c, k, q) + Pow2(16 - k) <= At(c, k0, q0)
  {
    if Before(k, q, k0, q0) {
      AtOrder(c, k, q, k0, q0);
    } else if Before(k0, q0, k, q) {
      AtOrder(c, k0, q0, k, q);
    }
  }

  /** A new table behind slot j of table t, both still ahead of cur, disturbs no placed code. */
  lemma LinkKeeps(job: Job, ts: Tables, info: seq<Info>, k0: nat, q0: nat,
                  t: nat, j: nat, link: Huft, i: Info, rows: seq<Huft>)
    requires job.Valid() && Shaped(job, ts, info) && IsCode(job.c, k0, q0)
    requires AllOk(job, ts, info, At(job.c, k0, q0))
    requires t < |ts| && j < Pow2(info[t].nb) && info[t].Lo(j) >= At(job.c, k0, q0)
    requires i.Valid() && i.nb <= job.l && Pow2(i.nb) <= |rows| && i.Start() >= At(job.c, k0, q0)
    ensures var ts' := ts[t := ts[t][j := link]] + [rows];
            Shaped(job, ts', info + [i]) && AllOk(job, ts', info + [i], At(job.c, k0, q0))
  {
    hide First;
    hide Off;
    hide Rev;
    hide Pow2;
    var ts', info' := ts[t := ts[t][j := link]] + [rows], info + [i];
    var cur := At(job.c, k0, q0);
    forall t', j', k, q {:trigger SlotOk(job, ts', info', t', j', k, q)} |
      0 <= t' < |ts'| && 0 <= j' < Pow2(info'[t'].nb) && 0 <= k && 0 <= q && IsCode(job.c, k, q) && At(job.c, k, q) < cur
      ensures SlotOk(job, ts', info', t', j', k, q)
    {
      EndsBefore(job.c, k, q, k0, q0);
      if t' == |ts| {
        SlotRange(i, j');
      } else if t' != t || j' != j {
        assert SlotOk(job, ts, info, t', j', k, q);
      }
    }
  }

  /** Storing the slot of code (k0, q0) wherever its bits lead disturbs no other code and serves this one. */
  lemma FillKeeps(job: Job, ts: Tables, ts': Tables, info: seq<Info>, u: seq<nat>, x: seq<nat>, h: int,
                  k0: nat, q0: nat, start: nat, r: Huft)
    requires job.Valid() && Shaped(job, ts, info) && IsCode(job.c, k0, q0)
    requires var cur := At(job.c, k0, q0);
             AllOk(job, ts, info, cur) && Stacked(job, ts, info, u, x, h, cur, cur)
    requires Filled(job, ts, ts', info, u[h], k0, q0, start, r)
    ensures Shaped(job, ts', info)
    ensures AllOk(job, ts', info, At(job.c, k0, q0) + Pow2(16 - k0))
  {
    hide First;
    hide Off;
    hide Rev;
    hide Pow2;
    hide Low;
    hide Shr;
    var cur := At(job.c, k0, q0);
    forall t, j, k, q {:trigger SlotOk(job, ts', info, t, j, k, q)} |
      0 <= t < |ts'| && 0 <= j < Pow2(info[t].nb) && 0 <= k && 0 <= q
      && IsCode(job.c, k, q) && At(job.c, k, q) < cur + Pow2(16 - k0)
      ensures SlotOk(job, ts', info, t, j, k, q)
    {
      if At(job.c, k, q) < cur {
        FillKeepsOthers(job, ts, ts', info, u[h], k0, q0, start, r, t, j, k, q);
      } else {
        CodeUnique(job.c, k0, q0, k, q, At(job.c, k, q));
        FillServes(job, ts, ts', info, u, x, h, k0, q0, start, r, t, j);
      }
    }
  }

  /** ts' is ts with r in exactly the slots of table t whose index starts with the k0 - w bits `start`. */
  predicate Filled(job: Job, ts: Tables, ts': Tables, info: seq<Info>, t: nat, k0: nat, q0: nat, start: nat, r: Huft)
    requires job.Valid() && Shaped(job, ts, info) && IsCode(job.c, k0, q0)
  {
    && t < |ts|
    && var i := info[t];
    && i.w < k0 <= i.w + i.nb && start < Pow2(k0 - i.w)
    && At(job.c, k0, q0) == i.Start() + Rev(k0 - i.w, start) * Pow2(16 - k0)
    && |ts'| == |ts| && |ts'[t]| == |ts[t]|
    && (forall t' :: 0 <= t' < |ts| && t' != t ==> ts'[t'] == ts[t'])
    && (forall j :: 0 <= j < |ts[t]| ==> ts'[t][j] == if Low(j, k0 - i.w) == start then r else ts[t][j])
    && job.Fits(Off(job.c, k0) + q0, k0 - i.w, r)
  }

  lemma FillKeepsOthers(job: Job, ts: Tables, ts': Tables, info: seq<Info>, t0: nat, k0: nat, q0: nat,
                        start: nat, r: Huft, t: nat, j: nat, k: nat, q: nat)
    requires job.Valid() && Shaped(job, ts, info) && IsCode(job.c, k0, q0)
    requires AllOk(job, ts, info, At(job.c, k0, q0)) && Filled(job, ts, ts', info, t0, k0, q0, start, r)
    requires Shaped(job, ts', info) && t < |ts| && j < Pow2(info[t].nb)
    requires IsCode(job.c, k, q) && At(job.c, k, q) < At(job.c, k0, q0)
    ensures SlotOk(job, ts', info, t, j, k, q)
  {
    hide First;
    hide Off;
    hide Rev;
    hide Pow2;
    hide Low;
    hide Shr;
    assert SlotOk(job, ts, info, t, j, k, q);
    EndsBefore(job.c, k, q, k0, q0);
    if t == t0 && Low(j, k0 - info[t].w) == start {
      SlotResidue(info[t], j, k0 - info[t].w, start);
    }
  }

  lemma FillServes(job: Job, ts: Tables, ts': Tables, info: seq<Info>, u: seq<nat>, x: seq<nat>, h: int,
                   k0: nat, q0: nat, start: nat, r: Huft, t: nat, j: nat)
    requires job.Valid() && Shaped(job, ts, info) && IsCode(job.c, k0, q0)
    requires Stacked(job, ts, info, u, x, h, At(job.c, k0, q0), At(job.c, k0, q0))
    requires Filled(job, ts, ts', info, u[h], k0, q0, start, r)
    requires Shaped(job, ts', info) && t < |ts| && j < Pow2(info[t].nb)
    ensures SlotOk(job, ts', info, t, j, k0, q0)
  {
    hide First;
    hide Off;
    hide Rev;
    hide Pow2;
    hide Low;
    hide Shr;
    var cur := At(job.c, k0, q0);
    SlotRange(info[t], j);
    if t == u[h] {
      SlotResidue(info[t], j, k0 - info[t].w, start);
    } else if OnStack(u, h, t) {
      var i :| 0 <= i <= h && u[i] == t;
      StackDepth(job, ts, info, u, x, h, cur, cur, i);
      if info[t].Lo(j) <= cur < info[t].Lo(j) + info[t].Width() {
        ChildSlot(job, ts, info, u, i, cur, j);
      }
    }
  }

  /** Tables further down the stack start earlier. */
  lemma {:induction false} StackDepth(job: Job, ts: Tables, info: seq<Info>, u: seq<nat>, x: seq<nat>, h: int,
                                           cur: nat, done: nat, i: int)
    requires job.Valid() && Shaped(job, ts, info) && Stacked(job, ts, info, u, x, h, cur, done)
    requires 0 <= i <= h
    ensures info[u[i]].w <= info[u[h]].w
    ensures i < h ==> info[u[i]].w + job.l <= info[u[h]].w
    decreases h - i
  {
    hide Rev;
    hide Pow2;
    hide Sized;
    hide OnStack;
    hide LinksTo;
    hide Linked;
    if i < h {
      assert Child(job, ts, info, u, i);
      StackDepth(job, ts, info, u, x, h, cur, done, i + 1);
    }
  }

  /** The slot of an open table that leads to cur is the one linked to the next open table. */
  lemma ChildSlot(job: Job, ts: Tables, info: seq<Info>, u: seq<nat>, i: nat, cur: nat, j: nat)
    requires job.Valid() && Shaped(job, ts, info) && i + 1 < |u| && u[i] < |ts| && u[i + 1] < |ts|
    requires Child(job, ts, info, u, i) && info[u[i + 1]].Contains(cur)
    requires j < Pow2(info[u[i]].nb)
    requires info[u[i]].Lo(j) <= cur < info[u[i]].Lo(j) + info[u[i]].Width()
    ensures j == Rev(job.l, Low(info[u[i + 1]].m, job.l))
  {
    hide Rev;
    hide Pow2;
    hide Low;
    hide Shr;
    var p, c := info[u[i]], info[u[i + 1]];
    SlotRange(p, j);
    SameBlock(cur, p.m * Pow2(p.nb) + Rev(p.nb, j), c.m, p.Width());
    RevBound(p.nb, j);
    SplitUnique(c.m, p.nb, p.m, Rev(p.nb, j));
    RevRev(p.nb, j);
  }

  lemma SameBlock(cur: nat, a: nat, b: nat, d: nat)
    requires a * d <= cur < a * d + d && b * d <= cur < b * d + d
    ensures a == b
  {
    assert (a + 1) * d == a * d + d && (b + 1) * d == b * d + d;
    if a < b { MulMono(a + 1, b, d); }
    if b < a { MulMono(b + 1, a, d); }
  }

  /** The new innermost table: its block, its slot in the parent, and its pattern in x. */
  lemma OpenGeometry(job: Job, ts: Tables, info: seq<Info>, t: nat, cur: nat, nb: nat)
    requires job.Valid() && Shaped(job, ts, info) && t < |ts|
    requires cur < 65536 && info[t].Contains(cur) && info[t].nb == job.l
    requires var w := info[t].w + job.l; w + nb <= 16 && Mult(cur, Pow2(16 - w))
    ensures var w := info[t].w + job.l; var i := Info(w, Shr(cur, 16 - w), nb);
            var j := Shr(Rev(16, cur), info[t].w);
            && i.Valid() && i.Start() == cur && i.Contains(cur)
            && j < Pow2(job.l) && info[t].Lo(j) == cur
            && i.m == info[t].m * Pow2(job.l) + Rev(job.l, j)
            && Shr(i.m, job.l) == info[t].m && j == Rev(job.l, Low(i.m, job.l))
            && Rev(16, cur) == Rev(w, i.m)
  {
    hide Rev;
    hide Pow2;
    hide Low;
    hide Shr;
    hide Mult;
    var p, w := info[t], info[t].w + job.l;
    CounterBits(cur, p.w, w);
    SplitUnique(cur, 16 - p.w, p.m, cur - p.Start());
    var j := Shr(Rev(16, cur), p.w);
    RevBound(job.l, j);
    SlotRange(p, j);
    var m := p.m * Pow2(p.nb) + Rev(p.nb, j);
    SplitUnique(cur, 16 - w, m, 0);
    SplitUnique(m, job.l, p.m, Rev(job.l, j));
    RevRev(job.l, j);
    CounterBits(cur, w, w);
    Pow2Sixteen();
    ShrZero(Rev(16, cur), w);
  }

  lemma ShrZero(x: nat, w: nat)
    requires Shr(x, w) == 0
    ensures x == Low(x, w)
  {
    assert x == Shr(x, w) * Pow2(w) + Low(x, w);
  }

  /** The slot of the innermost open table that must lead to the code at cur. */
  lemma OpenSlot(job: Job, ts: Tables, info: seq<Info>, u: seq<nat>, x: seq<nat>, h: int, k0: nat, q0: nat)
    requires job.Valid() && Shaped(job, ts, info) && IsCode(job.c, k0, q0)
    requires Stacked(job, ts, info, u, x, h, At(job.c, k0, q0), At(job.c, k0, q0))
    requires At(job.c, k0, q0) < 65536 && info[u[h]].w + job.l < k0
    requires Mult(At(job.c, k0, q0), Pow2(16 - (info[u[h]].w + job.l)))
    ensures info[u[h]].nb == job.l && info[u[h]].Contains(At(job.c, k0, q0))
    ensures Shr(Rev(16, At(job.c, k0, q0)), info[u[h]].w) < Pow2(job.l) <= |ts[u[h]]|
  {
    hide First;
    hide Off;
    hide Rev;
    hide Low;
    hide Shr;
    hide Mult;
    hide Pow2;
    assert Sized(job, info[u[h]]);
    OpenGeometry(job, ts, info, u[h], At(job.c, k0, q0), 0);
  }

  /** Opening a table for the code at cur extends the stack. */
  lemma OpenKeeps(job: Job, ts: Tables, info: seq<Info>, u: seq<nat>, x: seq<nat>, h: int,
                  k0: nat, q0: nat, cur: nat, J: nat, i: Info, rows: seq<Huft>, ts': Tables)
    requires job.Valid() && Shaped(job, ts, info) && Linked(ts) && IsCode(job.c, k0, q0) && cur == At(job.c, k0, q0)
    requires cur < 65536 && AllOk(job, ts, info, cur) && Stacked(job, ts, info, u, x, h, cur, cur)
    requires h + 1 < |u| && h + 1 < |x|
    requires info[u[h]].nb == job.l && info[u[h]].Contains(cur)
    requires i.w == info[u[h]].w + job.l && i.w < k0 && i.w + i.nb <= 16 && Mult(cur, Pow2(16 - i.w))
    requires i.m == Shr(cur, 16 - i.w) && (i.Valid() ==> Sized(job, i))
    requires 1 <= J <= 16 && i.nb <= J && i.nb <= job.l && |rows| == Pow2(J)
    requires forall j :: 0 <= j < |rows| ==> rows[j] == Wild
    requires Shr(Rev(16, cur), info[u[h]].w) < |ts[u[h]]|
    requires ts' == ts[u[h] := ts[u[h]][Shr(Rev(16, cur), info[u[h]].w) := Entry(16 + J, job.l, |ts|)]] + [rows]
    ensures Shaped(job, ts', info + [i]) && Linked(ts') && AllOk(job, ts', info + [i], cur)
    ensures Stacked(job, ts', info + [i], u[h + 1 := |ts|], x[h + 1 := Rev(16, cur)], h + 1, cur, cur)
  {
    hide First;
    hide Off;
    hide Rev;
    hide Low;
    hide Shr;
    hide Mult;
    hide AllOk;
    hide Linked;
    hide Child;
    hide Sized;
    hide Pow2;
    OpenGeometry(job, ts, info, u[h], cur, i.nb);
    Pow2Mono(i.nb, J);
    var j, link := Shr(Rev(16, cur), info[u[h]].w), Entry(16 + J, job.l, |ts|);
    LinkKeeps(job, ts, info, k0, q0, u[h], j, link, i, rows);
    LinkedKeeps(ts, u[h], j, link, rows);
    OpenStack(job, ts, info, u, x, h, cur, j, link, i, rows);
  }

  lemma OpenStack(job: Job, ts: Tables, info: seq<Info>, u: seq<nat>, x: seq<nat>, h: int, cur: nat,
                  j: nat, link: Huft, i: Info, rows: seq<Huft>)
    requires job.Valid() && Shaped(job, ts, info) && Stacked(job, ts, info, u, x, h, cur, cur)
    requires h + 1 < |u| && h + 1 < |x|
    requires i.Valid() && i.nb <= job.l && Pow2(i.nb) <= |rows| && i.Contains(cur) && Sized(job, i)
    requires var p := info[u[h]];
             && p.nb == job.l && i.w == p.w + job.l && j < Pow2(job.l)
             && i.m == p.m * Pow2(job.l) + Rev(job.l, j)
             && Shr(i.m, job.l) == p.m && j == Rev(job.l, Low(i.m, job.l)) && Rev(16, cur) == Rev(i.w, i.m)
    requires link.IsLink() && link.b == job.l && link.v == |ts| && Pow2(link.e - 16) == |rows|
    requires var ts' := ts[u[h] := ts[u[h]][j := link]] + [rows]; Shaped(job, ts', info + [i])
    ensures var ts' := ts[u[h] := ts[u[h]][j := link]] + [rows];
            Stacked(job, ts', info + [i], u[h + 1 := |ts|], x[h + 1 := Rev(16, cur)], h + 1, cur, cur)
  {
    hide Rev;
    hide Low;
    hide Shr;
    hide Pow2;
    hide First;
    hide Off;
    var ts', info', u', x' := ts[u[h] := ts[u[h]][j := link]] + [rows], info + [i], u[h + 1 := |ts|], x[h + 1 := Rev(16, cur)];
    forall a | 0 <= a < h + 1
      ensures Child(job, ts', info', u', a)
    {
      if a < h {
        assert Child(job, ts, info, u, a);
        StackDepth(job, ts, info, u, x, h, cur, cur, a);
      }
    }
    forall t | 0 <= t < |info'|
      ensures (OnStack(u', h + 1, t) || info'[t].End() <= cur) && Sized(job, info'[t])
    {
      if t == |info| {
        assert u'[h + 1] == t;
      } else if OnStack(u, h, t) {
        var a :| 0 <= a <= h && u[a] == t;
        assert u'[a] == t;
      }
    }
  }

  lemma LinkedKeeps(ts: Tables, t: nat, j: nat, link: Huft, rows: seq<Huft>)
    requires Linked(ts) && t < |ts| && j < |ts[t]|
    requires link.Entry? && 16 < link.e <= 32 && 1 <= link.b <= 16 && link.v == |ts| && Pow2(link.e - 16) <= |rows|
    requires forall i :: 0 <= i < |rows| ==> rows[i] == Wild
    ensures Linked(ts[t := ts[t][j := link]] + [rows])
  {
    hide Pow2;
    var ts' := ts[t := ts[t][j := link]] + [rows];
    forall a, b | 0 <= a < |ts'| && 0 <= b < |ts'[a]|
      ensures LinkOk(ts', a, ts'[a][b])
    {
      if a < |ts| && (a != t || b != j) {
        assert LinkOk(ts, a, ts[a][b]);
      }
    }
  }

  // ----- Backing up over finished tables -----

  /** The block of an open table lies in the block below it on the stack. */
  lemma Nested(job: Job, ts: Tables, info: seq<Info>, u: seq<nat>, i: nat)
    requires job.Valid() && Shaped(job, ts, info) && i + 1 < |u| && u[i] < |ts| && u[i + 1] < |ts|
    requires Child(job, ts, info, u, i)
    ensures info[u[i]].Start() <= info[u[i + 1]].Start() && info[u[i + 1]].End() <= info[u[i]].End()
  {
    hide Rev;
    hide Pow2;
    hide Low;
    hide Shr;
    SlotRange(info[u[i]], Rev(job.l, Low(info[u[i + 1]].m, job.l)));
  }

  /** The test `(i & ((1 << w) - 1)) == x[h]` asks whether the next pattern is still in the top table's block. */
  lemma TopTest(i: Info, cur: nat)
    requires i.Valid() && cur < 65536
    ensures Low(Rev(16, cur), i.w) == Rev(i.w, i.m) <==> i.Contains(cur)
  {
    hide Rev;
    hide Pow2;
    hide Low;
    hide Shr;
    MultOne(cur);
    CounterBits(cur, i.w, 16);
    var m := Shr(cur, 16 - i.w);
    assert cur == m * Pow2(16 - i.w) + Low(cur, 16 - i.w);
    if i.Contains(cur) {
      SplitUnique(cur, 16 - i.w, i.m, cur - i.Start());
    } else if Rev(i.w, m) == Rev(i.w, i.m) {
      RevRev(i.w, m);
      RevRev(i.w, i.m);
    }
  }

  lemma MultOne(x: nat)
    ensures Mult(x, Pow2(16 - 16))
  {
  }

  /** Dropping the top table once cur has reached its end. */
  lemma PopKeeps(job: Job, ts: Tables, info: seq<Info>, u: seq<nat>, x: seq<nat>, h: int, old_: nat, cur: nat)
    requires job.Valid() && Shaped(job, ts, info) && Stacked(job, ts, info, u, x, h, old_, cur)
    requires h >= 1 && old_ < cur <= info[u[h]].End() && (cur == 65536 || !info[u[h]].Contains(cur))
    ensures Stacked(job, ts, info, u, x, h - 1, old_, cur)
    ensures cur <= info[u[h - 1]].End() && Mult(cur, Pow2(16 - info[u[h]].w))
    ensures info[u[h - 1]].w + job.l == info[u[h]].w
  {
    hide Rev;
    hide Pow2;
    hide Low;
    hide Shr;
    hide First;
    hide Off;
    var top := info[u[h]];
    assert Child(job, ts, info, u, h - 1);
    Nested(job, ts, info, u, h - 1);
    assert cur == top.End() by {
      if cur == 65536 && cur < top.End() { BlockInRange(top); }
    }
    EndIsMult(top);
    forall t | 0 <= t < |info|
      ensures OnStack(u, h - 1, t) || info[t].End() <= cur
    {
      if OnStack(u, h, t) {
        var a :| 0 <= a <= h && u[a] == t;
        if a < h { assert 0 <= a <= h - 1 && u[a] == t; }
      }
    }
  }

  lemma NextMultiple(m: nat, d: nat)
    ensures m * d + d == (m + 1) * d
  {
  }

  lemma EndIsMult(i: Info)
    requires i.Valid()
    ensures Mult(i.End(), Pow2(16 - i.w))
  {
    hide Pow2;
    hide Mult;
    var d := Pow2(16 - i.w);
    NextMultiple(i.m, d);
    MultProduct(i.m + 1, d);
  }

  lemma BlockInRange(i: Info)
    requires i.Valid()
    ensures i.End() <= 65536
  {
    hide Pow2;
    Pow2Sixteen();
    Pow2Add(i.w, 16 - i.w);
    MulMono(i.m + 1, Pow2(i.w), Pow2(16 - i.w));
    assert (i.m + 1) * Pow2(16 - i.w) == i.End();
  }

  /** Once the top table contains cur, so does every table below it. */
  lemma {:induction false} SettleStack(job: Job, ts: Tables, info: seq<Info>, u: seq<nat>, x: seq<nat>, h: int,
                                       old_: nat, cur: nat, i: int)
    requires job.Valid() && Shaped(job, ts, info) && Stacked(job, ts, info, u, x, h, old_, cur)
    requires info[u[h]].Contains(cur) && 0 <= i <= h
    ensures info[u[i]].Contains(cur)
    decreases h - i
  {
    if i < h {
      SettleStack(job, ts, info, u, x, h, old_, cur, i + 1);
      assert Child(job, ts, info, u, i);
      Nested(job, ts, info, u, i);
    }
  }

  // ----- Looking a code up -----

  /** The slot that the bits at pos + w select starts at or before them, and less than its width before. */
  lemma SlotSelected(i: Info, s: seq<Byte>, pos: nat)
    requires i.Valid() && Msb(s, pos, i.w) == i.m
    ensures var j := Lsb(s, pos + i.w, i.nb); var w := Msb(s, pos, 16);
            j < Pow2(i.nb) && i.Lo(j) <= w < i.Lo(j) + i.Width() && Mult(i.Lo(j), i.Width())
            && Msb(s, pos, i.w + i.nb) == i.m * Pow2(i.nb) + Rev(i.nb, j)
  {
    hide Rev;
    hide Pow2;
    hide Lsb;
    hide Msb;
    hide Mult;
    var j := Lsb(s, pos + i.w, i.nb);
    LsbConcat(s, pos + i.w, i.nb, 0);
    MsbIsRev(s, pos + i.w, i.nb);
    MsbConcat(s, pos, i.w, i.nb);
    MsbConcat(s, pos, i.w + i.nb, 16 - i.w - i.nb);
    SlotRange(i, j);
    MultProduct(i.m * Pow2(i.nb) + Rev(i.nb, j), i.Width());
  }

  /** Every table behind the root has as many slots as its codes need. */
  predicate Exact(ts: Tables, info: seq<Info>)
    requires |ts| == |info|
  {
    forall t :: 0 <= t < |ts| && info[t].w > 0 ==> |ts[t]| == Pow2(info[t].nb)
  }

  lemma PowInjective(a: nat, b: nat)
    requires Pow2(a) == Pow2(b)
    ensures a == b
  {
    if a < b { Pow2Mono(a, b); } else { Pow2Mono(b, a); }
  }

  /** With all codes placed, a walk from any table on the way to code (k, q) ends in that code's slot. */
  lemma {:induction false} WalkCorrect(job: Job, ts: Tables, info: seq<Info>, t: nat, s: seq<Byte>, pos: nat, k: nat,
        q: nat)
    requires job.Valid() && Shaped(job, ts, info) && Linked(ts) && AllOk(job, ts, info, 65536) && Exact(ts, info)
    requires t < |ts| && info[t].w < k && Msb(s, pos, info[t].w) == info[t].m
    requires IsCode(job.c, k, q) && At(job.c, k, q) <= Msb(s, pos, 16) < At(job.c, k, q) + Pow2(16 - k)
    ensures var f := Walk(ts, t, info[t].nb, s, pos + info[t].w);
            && pos <= f.pos < pos + k
            && pos + k - f.pos <= f.nb
            && job.Fits(Off(job.c, k) + q, pos + k - f.pos, f.entry)
    ensures WalkSafe(ts, t, info[t].nb, s, pos + info[t].w, info[t].w)
    ensures k <= info[t].w + info[t].nb ==> Walk(ts, t, info[t].nb, s, pos + info[t].w).pos == pos + info[t].w
    decreases |ts| - t
  {
    hide Rev;
    hide Pow2;
    hide Lsb;
    hide Msb;
    hide First;
    hide Off;
    hide At;
    hide Mult;
    hide AllOk;
    hide SlotOk;
    hide Walk;
    hide WalkSafe;
    var i := info[t];
    var j, h := SlotDecides(job, ts, info, t, s, pos, k, q);
    if k <= i.w + i.nb {
      FitsIsNoLink(job, Off(job.c, k) + q, k - i.w, h);
      WalkEnds(ts, t, i.nb, s, pos + i.w, i.w);
    } else {
      WalkFollows(ts, t, i.nb, s, pos + i.w, i.w);
      PowInjective(h.e - 16, info[h.v].nb);
      WalkCorrect(job, ts, info, h.v, s, pos, k, q);
      assert pos + i.w + h.b == pos + info[h.v].w;
    }
  }

  lemma WalkEnds(ts: Tables, t: nat, nb: nat, s: seq<Byte>, pos: nat, used: nat)
    requires Linked(ts) && t < |ts| && Pow2(nb) <= |ts[t]| && Lsb(s, pos, nb) < |ts[t]| && used + nb <= 16
    requires !ts[t][Lsb(s, pos, nb)].IsLink()
    ensures Walk(ts, t, nb, s, pos) == Found(ts[t][Lsb(s, pos, nb)], pos, nb) && WalkSafe(ts, t, nb, s, pos, used)
  {
    hide Linked;
    hide Pow2;
    hide Lsb;
  }

  lemma WalkFollows(ts: Tables, t: nat, nb: nat, s: seq<Byte>, pos: nat, used: nat)
    requires Linked(ts) && t < |ts| && Pow2(nb) <= |ts[t]| && Lsb(s, pos, nb) < |ts[t]| && used + nb <= 16
    requires ts[t][Lsb(s, pos, nb)].IsLink()
    ensures var h := ts[t][Lsb(s, pos, nb)];
      && t < h.v < |ts| && h.e >= 16 && Pow2(h.e - 16) <= |ts[h.v]|
      && Walk(ts, t, nb, s, pos) == Walk(ts, h.v, h.e - 16, s, pos + h.b)
      && (h.b <= nb && h.e <= 24 && WalkSafe(ts, h.v, h.e - 16, s, pos + h.b, used + h.b) ==> WalkSafe(ts, t, nb, s, pos, used))
  {
    hide Pow2;
    hide Lsb;
    assert LinkOk(ts, t, ts[t][Lsb(s, pos, nb)]);
  }

  /** The slot the next bits select is that of the code, or leads to a table for it. */
  lemma SlotDecides(job: Job, ts: Tables, info: seq<Info>, t: nat, s: seq<Byte>, pos: nat, k: nat, q: nat)
    returns (j: nat, h: Huft)
    requires job.Valid() && Shaped(job, ts, info) && AllOk(job, ts, info, 65536)
    requires t < |ts| && info[t].w < k && Msb(s, pos, info[t].w) == info[t].m
    requires IsCode(job.c, k, q) && At(job.c, k, q) <= Msb(s, pos, 16) < At(job.c, k, q) + Pow2(16 - k)
    ensures var i := info[t];
      && j == Lsb(s, pos + i.w, i.nb) < Pow2(i.nb) <= |ts[t]| && h == ts[t][j] && i.w + i.nb <= 16
      && (k <= i.w + i.nb ==> job.Fits(Off(job.c, k) + q, k - i.w, h))
      && Msb(s, pos, i.w + i.nb) == i.m * Pow2(i.nb) + Rev(i.nb, j)
      && (k > i.w + i.nb ==> i.nb == job.l && LinksTo(job, ts, info, t, j))
  {
    hide Rev;
    hide Pow2;
    hide Lsb;
    hide Msb;
    hide First;
    hide Off;
    hide Mult;
    var i, at := info[t], At(job.c, k, q);
    j := Lsb(s, pos + i.w, i.nb);
    SlotSelected(i, s, pos);
    MsbConcat(s, pos, 0, 16);
    Pow2Sixteen();
    AtMult(job.c, k, q);
    assert SlotOk(job, ts, info, t, j, k, q);
    h := ts[t][j];
    if k <= i.w + i.nb {
      MultPow(at, 16 - k, 16 - i.w - i.nb);
      if i.Lo(j) < at { MultGap(i.Lo(j), at, i.Width()); }
    } else {
      MultPow(i.Lo(j), 16 - i.w - i.nb, 16 - k);
      if at < i.Lo(j) { MultGap(at, i.Lo(j), Pow2(16 - k)); }
    }
  }

  lemma FitsIsNoLink(job: Job, idx: nat, b: nat, h: Huft)
    requires job.Valid() && job.Fits(idx, b, h)
    ensures !h.IsLink()
  {
  }
}
