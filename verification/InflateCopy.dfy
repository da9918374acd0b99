/** The copy loop of inflate_codes: wrapped chunks of the circular window against an unbounded history. */
module InflateCopy {
  import opened Bits
  import opened BitStream
  import opened InflateSpec
  import opened Inflater

  lemma {:induction false} CopyAdd(out: seq<Byte>, dist: nat, a: nat, b: nat)
    requires 1 <= dist <= |out|
    ensures CopyMatch(out, dist, a + b) == CopyMatch(CopyMatch(out, dist, a), dist, b)
    decreases a
  {
    if a > 0 { CopyAdd(out + [out[|out| - dist]], dist, a - 1, b); }
  }

  /** Up to `dist` bytes the copy does not see its own output. */
  lemma {:induction false} CopyShort(out: seq<Byte>, dist: nat, n: nat)
    requires 1 <= dist <= |out| && n <= dist
    ensures CopyMatch(out, dist, n) == out + out[|out| - dist..|out| - dist + n]
    decreases n
  {
    if n > 0 {
      CopyShort(out, dist, n - 1);
      CopyAdd(out, dist, n - 1, 1);
      var r := CopyMatch(out, dist, n - 1);
      assert CopyMatch(r, dist, 1) == CopyMatch(r + [r[|r| - dist]], dist, 0);
      assert r[|r| - dist] == out[|out| - dist + (n - 1)];
    }
  }

  /** The memcpy of memcpy.c: bytes in ascending order, so a source ahead of the destination may overlap it. */
  method MemCpy(a: array<Byte>, dst: nat, src: nat, n: nat)
    requires dst + n <= a.Length && src + n <= a.Length
    modifies a
    ensures dst <= src || src + n <= dst ==> a[dst..dst + n] == old(a[src..src + n])
    ensures forall i :: 0 <= i < dst || dst + n <= i < a.Length ==> a[i] == old(a[i])
  {
    for i := 0 to n
      invariant dst <= src || src + n <= dst ==>
                  && (forall j :: dst <= j < dst + i ==> a[j] == old(a[j - dst + src]))
                  && (forall j :: src + i <= j < src + n ==> a[j] == old(a[j]))
      invariant forall j :: 0 <= j < a.Length && !(dst <= j < dst + i) ==> a[j] == old(a[j])
    {
      a[dst + i] := a[src + i];
    }
  }

  /** a - b in 32 unsigned bits. */
  function WrapSub(a: nat, b: nat): nat
  {
    (a - b) % W32
  }

  /** The window index d is `dist` behind w, modulo the window size. */
  predicate Behind(w: nat, d: nat, dist: nat, q: int)
  {
    w - dist == q * WSIZE + d
  }

  /** The bytes from index d on are those from `dist` back on. */
  lemma WindowRun(st: State, d: nat, dist: nat, q: int, n: nat)
    requires st.WindowOk() && st.window.Length == WSIZE && st.wp <= WSIZE && 1 <= dist <= WSIZE
          && dist <= |st.History()| && n <= dist
    requires Behind(st.wp, d, dist, q) && d + n <= WSIZE
    ensures var h := st.History(); st.window[d..d + n] == h[|h| - dist..|h| - dist + n]
  {
    hide State.WindowOk;
    var h := st.History();
    assert |h| == |st.output| + st.wp;
    hide State.History;
    forall k | d <= k < d + n
      ensures st.window[k] == h[|h| - dist + (k - d)]
    {
      WindowByte(st, dist - (k - d));
      DivModUnique(st.wp - (dist - (k - d)), WSIZE, q, k);
    }
  }

  /** now is h with n bytes copied from `dist` back, if h is that long. */
  ghost predicate Copied(now: seq<Byte>, h: seq<Byte>, dist: nat, n: nat)
    requires 1 <= dist
  {
    |now| == |h| + n && (dist <= |h| ==> now == CopyMatch(h, dist, n))
  }

  lemma CopiedMore(now: seq<Byte>, mid: seq<Byte>, h: seq<Byte>, dist: nat, a: nat, b: nat)
    requires 1 <= dist && Copied(mid, h, dist, a) && Copied(now, mid, dist, b)
    ensures Copied(now, h, dist, a + b)
  {
    if dist <= |h| { CopyAdd(h, dist, a, b); }
  }

  lemma CopiedNone(h: seq<Byte>, dist: nat)
    requires 1 <= dist
    ensures Copied(h, h, dist, 0)
  {
  }

  /** One chunk that wraps neither source nor destination. */
  method CopyChunk(st: State, d0: nat, e0: nat, ghost dist: nat, ghost q: int) returns (d: nat)
    requires st.WindowOk() && st.window.Length == WSIZE && st.wp <= WSIZE && st.window as object != st.crcTab
    requires 1 <= e0 && st.wp + e0 <= WSIZE && d0 + e0 <= WSIZE
    requires 1 <= dist <= WSIZE && Behind(st.wp, d0, dist, q)
    modifies st`wp, st.window
    ensures st.WindowOk() && st.wp == old(st.wp) + e0 && d == d0 + e0
    ensures Copied(st.History(), old(st.History()), dist, e0)
  {
    d := d0;
    if WrapSub(st.wp, d) >= e0 {
      FastCopy(st, d, e0, dist, q);
      d := d + e0;
    } else {
      d := SlowCopy(st, d, e0, dist, q);
    }
  }

  /** The memcpy branch: under `w - d >= e`, unsigned, at most `dist` bytes are copied and memcpy is safe. */
  method FastCopy(st: State, d: nat, e: nat, ghost dist: nat, ghost q: int)
    requires st.WindowOk() && st.window.Length == WSIZE && st.wp <= WSIZE && st.window as object != st.crcTab
    requires 1 <= e && st.wp + e <= WSIZE && d + e <= WSIZE
    requires 1 <= dist <= WSIZE && Behind(st.wp, d, dist, q) && WrapSub(st.wp, d) >= e
    modifies st`wp, st.window
    ensures st.WindowOk() && st.wp == old(st.wp) + e
    ensures Copied(st.History(), old(st.History()), dist, e)
  {
    hide State.SumsOk;
    hide CopyMatch;
    ghost var h := st.History();
    assert e <= dist && (st.wp <= d || d + e <= st.wp);
    if dist <= |h| {
      WindowRun(st, d, dist, q, e);
      CopyShort(h, dist, e);
    }
    BlockCopy(st, d, e);
  }

  /** A block of the window is copied to where the output stands. */
  method BlockCopy(st: State, d: nat, e: nat)
    requires st.WindowOk() && st.window.Length == WSIZE && st.wp <= WSIZE && st.window as object != st.crcTab
    requires st.wp + e <= WSIZE && d + e <= WSIZE && (st.wp <= d || d + e <= st.wp)
    modifies st`wp, st.window
    ensures st.WindowOk() && st.wp == old(st.wp) + e
    ensures st.History() == old(st.History()) + old(st.window[d..d + e])
  {
    hide State.SumsOk;
    ghost var w, bytes, before := st.wp, st.window[d..d + e], st.window[..st.wp];
    MemCpy(st.window, st.wp, d, e);
    st.wp := st.wp + e;
    assert st.window[..w] == before;
    assert st.window[..w + e] == st.window[..w] + st.window[w..w + e];
  }

  /** The byte-by-byte branch. */
  method SlowCopy(st: State, d0: nat, e0: nat, ghost dist: nat, ghost q: int) returns (d: nat)
    requires st.WindowOk() && st.window.Length == WSIZE && st.wp <= WSIZE && st.window as object != st.crcTab
    requires 1 <= e0 && st.wp + e0 <= WSIZE && d0 + e0 <= WSIZE
    requires 1 <= dist <= WSIZE && Behind(st.wp, d0, dist, q)
    modifies st`wp, st.window
    ensures st.WindowOk() && st.wp == old(st.wp) + e0 && d == d0 + e0
    ensures Copied(st.History(), old(st.History()), dist, e0)
  {
    hide State.WindowOk;
    hide Copied;
    ghost var h := st.History();
    CopiedNone(h, dist);
    var e := e0;
    d := d0;
    while e > 0
      invariant 0 <= e <= e0 && d == d0 + (e0 - e) && st.wp == old(st.wp) + (e0 - e)
      invariant st.WindowOk() && st.window.Length == WSIZE
      invariant Copied(st.History(), h, dist, e0 - e)
    {
      ghost var mid := st.History();
      CopyByte(st, d, dist, q);
      CopiedMore(st.History(), mid, h, dist, e0 - e, 1);
      d := d + 1;
      e := e - 1;
    }
  }

  /** One byte of the window is copied to where the output stands. */
  method CopyByte(st: State, d: nat, ghost dist: nat, ghost q: int)
    requires st.WindowOk() && st.window.Length == WSIZE && st.window as object != st.crcTab && st.wp < WSIZE
          && d < WSIZE
    requires 1 <= dist <= WSIZE && Behind(st.wp, d, dist, q)
    modifies st`wp, st.window
    ensures st.WindowOk() && st.wp == old(st.wp) + 1
    ensures Copied(st.History(), old(st.History()), dist, 1)
  {
    hide State.SumsOk;
    hide CopyMatch;
    if dist <= |st.History()| {
      WindowRun(st, d, dist, q, 1);
      CopyShort(st.History(), dist, 1);
      assert st.window[d..d + 1] == [st.window[d]];
    }
    StoreByte(st, st.window[d]);
  }

  /** One pass of the loop: as much as fits before either end of the window. */
  method CopyPass(st: State, n0: nat, d0: nat, ghost dist: nat) returns (n: nat, d: nat)
    requires st.WindowOk() && st.window.Length == WSIZE && st.window as object != st.crcTab && st.wp < WSIZE
    requires 1 <= n0 && 1 <= dist <= WSIZE && SameResidue(d0, st.wp, dist)
    modifies st`output, st`crc, st`bytesOut, st`wp, st.window
    ensures st.WindowOk() && st.wp < WSIZE && n < n0
    ensures SameResidue(d, st.wp, dist) && Copied(st.History(), old(st.History()), dist, n0 - n)
  {
    hide State.WindowOk;
    hide Copied;
    hide SameResidue;
    ghost var q := MaskWindow(d0, st.wp, dist);
    d := And(d0, WSIZE - 1);
    var e := WSIZE - if d > st.wp then d else st.wp;
    if e > n0 { e := n0; }
    n := n0 - e;
    ResidueStep(d, st.wp, dist, q, e);
    d := CopyChunk(st, d, e, dist, q);
    FlushFull(st);
  }

  /** Copy n bytes from d. */
  method Copy(st: State, n0: nat, d0: nat, ghost dist: nat)
    requires st.Valid() && 1 <= n0 && 1 <= dist <= WSIZE && d0 == WrapSub(st.wp, dist)
    modifies st`output, st`crc, st`bytesOut, st`wp, st.window
    ensures st.Valid()
    ensures Copied(st.History(), old(st.History()), dist, n0)
  {
    UnwrapResidue(st.wp, dist);
    CopyLoop(st, n0, d0, dist);
  }

  /** The loop itself; `more` counts what is left. */
  method CopyLoop(st: State, n0: nat, d0: nat, ghost dist: nat)
    requires st.WindowOk() && st.window.Length == WSIZE && st.window as object != st.crcTab && st.wp < WSIZE
    requires 1 <= dist <= WSIZE && SameResidue(d0, st.wp, dist)
    modifies st`output, st`crc, st`bytesOut, st`wp, st.window
    ensures st.WindowOk() && st.wp < WSIZE
    ensures Copied(st.History(), old(st.History()), dist, n0)
  {
    hide *;
    ghost var h := st.History();
    CopiedNone(h, dist);
    var n: nat, d: nat := n0, d0;
    while n > 0
      invariant 0 <= n <= n0 && st.WindowOk() && st.wp < WSIZE
      invariant SameResidue(d, st.wp, dist) && Copied(st.History(), h, dist, n0 - n)
      decreases n
    {
      ghost var mid, n' := st.History(), n;
      n, d := CopyPass(st, n, d, dist);
      CopiedMore(st.History(), mid, h, dist, n0 - n', n' - n);
    }
  }

  predicate SameResidue(d: nat, w: nat, dist: nat)
  {
    d % WSIZE == (w - dist) % WSIZE
  }

  lemma UnwrapResidue(w: nat, dist: nat)
    ensures SameResidue(WrapSub(w, dist), w, dist)
  {
    var x := w - dist;
    var a, r := x / W32, x % W32;
    var b, s := r / WSIZE, r % WSIZE;
    assert x == (a * 0x20000 + b) * WSIZE + s;
    DivModUnique(x, WSIZE, a * 0x20000 + b, s);
  }

  /** An index is brought back into the window. */
  lemma MaskWindow(d: nat, w: nat, dist: nat) returns (q: int)
    requires SameResidue(d, w, dist)
    ensures And(d, WSIZE - 1) < WSIZE && Behind(w, And(d, WSIZE - 1), dist, q)
  {
    Pow2Sixteen();
    AndMask(d, 15);
    SplitUnique(d, 15, d / WSIZE, d % WSIZE);
    q := (w - dist) / WSIZE;
  }

  lemma ResidueStep(d: nat, w: nat, dist: nat, q: int, e: nat)
    requires Behind(w, d, dist, q)
    ensures SameResidue(d + e, w + e, dist)
    ensures w + e == WSIZE ==> SameResidue(d + e, 0, dist)
  {
    var r, k := (d + e) % WSIZE, (d + e) / WSIZE;
    DivModUnique(w + e - dist, WSIZE, q + k, r);
    if w + e == WSIZE { DivModUnique(0 - dist, WSIZE, q + k - 1, r); }
  }
}
