/** The decompressor's state: input, bit buffer, circular window, output, checksum; and its basic steps. */
module Inflater {
  import opened Bits
  import opened BitStream
  import Crc32

  const WSIZE: nat := 0x8000

  const MASK_BITS: seq<nat> := [
    0x0000,
    0x0001, 0x0003, 0x0007, 0x000f, 0x001f, 0x003f, 0x007f, 0x00ff,
    0x01ff, 0x03ff, 0x07ff, 0x0fff, 0x1fff, 0x3fff, 0x7fff, 0xffff
  ]

  lemma MaskIsPow(n: nat)
    requires n <= 16
    ensures MASK_BITS[n] == Pow2(n) - 1
  {
    assert Pow2(0) == 1 && Pow2(1) == 2 && Pow2(2) == 4 && Pow2(3) == 8 && Pow2(4) == 16;
    assert Pow2(5) == 32 && Pow2(6) == 64 && Pow2(7) == 128 && Pow2(8) == 256;
    assert Pow2(9) == 512 && Pow2(10) == 1024 && Pow2(11) == 2048 && Pow2(12) == 4096;
    assert Pow2(13) == 8192 && Pow2(14) == 16384 && Pow2(15) == 32768;
    Pow2Sixteen();
  }

  /** The globals of do_inflate.c and inflate.c. Local copies of bb, bk and wp are modelled by the globals. */
  class State {
    const input: seq<Byte>
    var inptr: nat
    var bb: nat
    var bk: nat
    const window: array<Byte>
    var wp: nat
    var output: seq<Byte>
    const crcTab: array<nat>
    var crc: nat
    var bytesOut: nat

    /** The position in the input of the next unread bit. */
    ghost function Pos(): int
      reads `inptr, `bk
    {
      8 * inptr - bk
    }

    /** All bytes produced so far: those flushed and those in the window. */
    ghost function History(): seq<Byte>
      requires wp <= window.Length
      reads `wp, `output, window
    {
      output + window[..wp]
    }

    /** The bit buffer holds exactly the unread bits of the bytes taken from the input, in 32 bits. */
    ghost predicate BufferOk()
      reads `inptr, `bb, `bk
    {
      inptr <= |input| && bk <= 8 * inptr && bk <= 31 && bb == Lsb(input, Pos(), bk)
    }

    /** Behind wp the window still holds the last WSIZE bytes; checksum and length describe the flushed bytes. */
    ghost predicate WindowOk()
      reads `wp, `output, `crc, `bytesOut, window, crcTab
    {
      && window.Length == WSIZE && wp <= WSIZE && |output| % WSIZE == 0
      && (|output| > 0 ==> |output| >= WSIZE && forall i :: wp <= i < WSIZE ==> window[i] == output[|output| - WSIZE + i])
      && SumsOk()
    }

    ghost predicate SumsOk()
      reads `output, `crc, `bytesOut, crcTab
    {
      && Crc32.Table(crcTab[..])
      && crc == Crc32.Register(0xFFFFFFFF, output)
      && bytesOut == |output| % W32
    }

    ghost predicate Valid()
      reads this, window, crcTab
    {
      BufferOk() && WindowOk() && window.Length == WSIZE && wp < WSIZE && window as object != crcTab
    }

    /** Input bytes are added until n bits are buffered; false when the input runs out. */
    method NeedBits(n: nat) returns (ok: bool)
      requires BufferOk() && n <= 16
      modifies this`inptr, this`bb, this`bk
      ensures BufferOk() && Pos() == old(Pos())
      ensures ok ==> n <= bk && (if old(bk) >= n then bk == old(bk) else bk <= n + 7)
      ensures !ok ==> Pos() + n > 8 * |input| && bk < n
    {
      hide Pow2;
      hide Lsb;
      hide Or;
      while bk < n
        invariant BufferOk() && Pos() == old(Pos())
        invariant if old(bk) >= n then bk == old(bk) else bk <= n + 7
        decreases |input| - inptr
      {
        if inptr >= |input| {
          return false;
        }
        ShiftIn(input, Pos(), bb, bk, inptr);
        bb := Or(bb, (input[inptr] * Pow2(bk)) % W32);
        inptr := inptr + 1;
        bk := bk + 8;
      }
      ok := true;
    }

    /** The low n bits of the buffer. */
    function Peek(n: nat): nat
      requires n <= 16
      reads `bb
    {
      And(bb, MASK_BITS[n])
    }

    lemma PeekIsLsb(n: nat)
      requires BufferOk() && n <= 16 && n <= bk
      ensures Peek(n) == Lsb(input, Pos(), n)
    {
      MaskIsPow(n);
      AndMask(bb, n);
      LsbSplit(input, Pos(), n, bk);
    }

    /** n bits are taken off the buffer. */
    method DumpBits(n: nat)
      requires BufferOk() && n <= bk
      modifies this`bb, this`bk
      ensures BufferOk() && Pos() == old(Pos()) + n && bk == old(bk) - n
    {
      hide Pow2;
      hide Lsb;
      hide Shr;
      LsbSplit(input, Pos(), n, bk);
      bb := Shr(bb, n);
      bk := bk - n;
    }

    /** flush_window: the bytes in the window go to the output, and into checksum and length. */
    method FlushWindow()
      requires window.Length == WSIZE && wp <= WSIZE && SumsOk()
      modifies this`output, this`crc, this`bytesOut, this`wp
      ensures output == old(History()) && wp == 0
      ensures SumsOk()
    {
      hide Crc32.Register;
      hide Crc32.Table;
      ghost var out := output;
      var bytes := window[..wp];
      Crc32.RegisterStart(output);
      var c := Crc32.Update(crcTab[..], crc, bytes);
      Crc32.RegisterConcat(0xFFFFFFFF, output, bytes);
      WordSum(|output|, wp);
      output := output + bytes;
      crc := c;
      bytesOut := (bytesOut + wp) % W32;
      wp := 0;
    }
  }

  /** Counting modulo 2^32. */
  lemma WordSum(x: nat, y: nat)
    ensures (x % W32 + y) % W32 == (x + y) % W32
  {
    var k, j := x / W32, (x % W32 + y) / W32;
    DivModUnique(x + y, W32, k + j, (x % W32 + y) % W32);
  }

  /** A byte or-ed in above the k buffered bits. Nothing is lost from 32 bits. */
  lemma ShiftIn(s: seq<Byte>, pos: int, bb: nat, k: nat, i: nat)
    requires i < |s| && k <= 15 && k <= 8 * i && pos == 8 * i - k && bb == Lsb(s, pos, k)
    ensures s[i] * Pow2(k) >= 0
    ensures Or(bb, (s[i] * Pow2(k)) % W32) == Lsb(s, pos, k + 8)
  {
    hide Lsb;
    hide Or;
    LsbConcat(s, pos, k, 8);
    LsbByte(s, i);
    ByteTop(s[i], k);
    OrDisjoint(bb, s[i], k);
  }

  lemma ByteTop(b: Byte, k: nat)
    requires k <= 15
    ensures 0 <= b * Pow2(k) && (b * Pow2(k)) % W32 == b * Pow2(k) == Pow2(k) * b
  {
    hide Pow2;
    Pow2Sixteen();
    Pow2Mono(k, 15);
    ByteTimes(b, Pow2(k));
    SmallMod(b * Pow2(k));
  }

  lemma ByteTimes(b: Byte, p: nat)
    requires p <= 32768
    ensures 0 <= b * p < W32 && b * p == p * b
  {
    MulMono(0, b, p);
    MulMono(b, 255, p);
  }

  lemma SmallMod(y: nat)
    requires y < W32
    ensures y % W32 == y
  {
  }

  // ----- The circular window -----

  /** A byte goes into the window, which is flushed when it is full. */
  method Put(st: State, v: Byte)
    requires st.Valid()
    modifies st`output, st`crc, st`bytesOut, st`wp, st.window
    ensures st.Valid() && st.History() == old(st.History()) + [v]
  {
    hide Crc32.Register;
    hide Crc32.Table;
    StoreByte(st, v);
    FlushFull(st);
  }

  /** A byte goes into the window. */
  method StoreByte(st: State, v: Byte)
    requires st.WindowOk() && st.wp < WSIZE && st.window as object != st.crcTab
    modifies st`wp, st.window
    ensures st.WindowOk() && st.wp == old(st.wp) + 1
    ensures st.History() == old(st.History()) + [v]
    ensures forall i :: 0 <= i < WSIZE && i != old(st.wp) ==> st.window[i] == old(st.window[i])
  {
    hide Crc32.Register;
    hide Crc32.Table;
    ghost var before := st.window[..st.wp];
    st.window[st.wp] := v;
    st.wp := st.wp + 1;
    assert st.window[..st.wp] == before + [v];
  }

  /** A full window is flushed. */
  method FlushFull(st: State)
    requires st.WindowOk()
    modifies st`output, st`crc, st`bytesOut, st`wp
    ensures st.WindowOk() && st.wp < WSIZE && st.History() == old(st.History())
    ensures old(st.wp) < WSIZE ==> st.wp == old(st.wp)
    ensures old(st.wp) == WSIZE ==> st.wp == 0
  {
    hide Crc32.Register;
    hide Crc32.Table;
    if st.wp == WSIZE {
      ghost var out := st.output;
      st.FlushWindow();
      assert st.output == out + st.window[..];
      assert st.History() == st.output;
    }
  }

  /** Which window index holds the byte `dist` back, and which byte of the output that is. */
  lemma WindowIndex(wp: nat, dist: nat, flushed: nat)
    requires wp <= WSIZE && 1 <= dist <= WSIZE && dist <= flushed + wp && (flushed > 0 ==> flushed >= WSIZE)
    ensures var i := (wp - dist) % WSIZE;
            if dist <= wp && wp - dist < WSIZE then i == wp - dist && i < wp
            else wp <= i < WSIZE && flushed >= WSIZE && flushed + wp - dist == flushed - WSIZE + i
  {
    if dist <= wp {
      DivModUnique(wp - dist, WSIZE, 0, wp - dist);
    } else {
      DivModUnique(wp - dist, WSIZE, -1, wp - dist + WSIZE);
    }
  }

  /** The byte `dist` back in the output, as long as it is at most a window away, is still in the window. */
  lemma WindowByte(st: State, dist: nat)
    requires st.WindowOk() && 1 <= dist <= WSIZE && dist <= |st.History()|
    ensures var i := (st.wp - dist) % WSIZE;
            0 <= i < WSIZE && st.window[i] == st.History()[|st.History()| - dist]
  {
    hide State.SumsOk;
    WindowIndex(st.wp, dist, |st.output|);
  }
}
