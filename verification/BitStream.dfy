/** A byte sequence read as a stream of bits, least significant bit of each byte first (RFC 1951, section 3.1.1). */
module BitStream {
  import opened Bits

  type Byte = b: int | 0 <= b < 256

  /** Bits past the end read as zero; the decoders below say separately which bits exist. */
  function ByteAt(s: seq<Byte>, i: nat): Byte
  {
    if i < |s| then s[i] else 0
  }

  function BitAt(s: seq<Byte>, pos: nat): (b: nat)
    ensures b < 2
  {
    Shr(ByteAt(s, pos / 8), pos % 8) % 2
  }

  /** n bits from pos as a number whose least significant bit comes first: integers in the format. */
  function Lsb(s: seq<Byte>, pos: nat, n: nat): nat
    decreases n
  {
    if n == 0 then 0 else BitAt(s, pos) + 2 * Lsb(s, pos + 1, n - 1)
  }

  /** n bits from pos as a number whose most significant bit comes first: Huffman codes. */
  function Msb(s: seq<Byte>, pos: nat, n: nat): nat
  {
    if n == 0 then 0 else 2 * Msb(s, pos, n - 1) + BitAt(s, pos + n - 1)
  }

  lemma {:induction false} LsbConcat(s: seq<Byte>, pos: nat, a: nat, b: nat)
    ensures Lsb(s, pos, a) < Pow2(a)
    ensures Lsb(s, pos, a + b) == Lsb(s, pos, a) + Pow2(a) * Lsb(s, pos + a, b)
    decreases a
  {
    hide BitAt;
    if a > 0 {
      LsbConcat(s, pos + 1, a - 1, b);
      MulAssoc(2, Pow2(a - 1), Lsb(s, pos + a, b));
      assert Lsb(s, pos, a + b) == BitAt(s, pos) + 2 * Lsb(s, pos + 1, a - 1 + b);
    }
  }

  /** The low m of n bits, and what is left above them. */
  lemma LsbSplit(s: seq<Byte>, pos: nat, m: nat, n: nat)
    requires m <= n
    ensures Low(Lsb(s, pos, n), m) == Lsb(s, pos, m)
    ensures Shr(Lsb(s, pos, n), m) == Lsb(s, pos + m, n - m)
  {
    LsbConcat(s, pos, m, n - m);
    var q := Lsb(s, pos + m, n - m);
    assert Pow2(m) * q == q * Pow2(m);
    SplitUnique(Lsb(s, pos, n), m, q, Lsb(s, pos, m));
  }

  lemma {:induction false} MsbConcat(s: seq<Byte>, pos: nat, a: nat, b: nat)
    ensures Msb(s, pos, a + b) == Msb(s, pos, a) * Pow2(b) + Msb(s, pos + a, b)
    ensures Msb(s, pos + a, b) < Pow2(b)
  {
    hide BitAt;
    if b > 0 {
      MsbConcat(s, pos, a, b - 1);
      var h := Msb(s, pos, a);
      MulAssoc(h, 2, Pow2(b - 1));
      MulAssoc(2, h, Pow2(b - 1));
      assert h * 2 == 2 * h;
      assert pos + (a + b) - 1 == (pos + a) + b - 1;
      assert Msb(s, pos, a + b) == 2 * Msb(s, pos, a + (b - 1)) + BitAt(s, pos + (a + b) - 1);
    }
  }

  /** A Huffman code is packed with its bits reversed. */
  lemma {:induction false} MsbIsRev(s: seq<Byte>, pos: nat, n: nat)
    ensures Msb(s, pos, n) == Rev(n, Lsb(s, pos, n))
    decreases n
  {
    hide BitAt;
    if n > 0 {
      MsbIsRev(s, pos + 1, n - 1);
      MsbConcat(s, pos, 1, n - 1);
      assert Msb(s, pos, 1) == 2 * Msb(s, pos, 0) + BitAt(s, pos);
    }
  }

  /** A whole byte read from a byte boundary. */
  lemma LsbByte(s: seq<Byte>, i: nat)
    ensures Lsb(s, 8 * i, 8) == ByteAt(s, i)
  {
    hide Lsb;
    hide BitAt;
    LsbWithinByte(s, i, 0);
    assert Pow2(0) == 1;
  }

  lemma {:induction false} LsbWithinByte(s: seq<Byte>, i: nat, k: nat)
    requires k <= 8
    ensures Lsb(s, 8 * i + k, 8 - k) == Shr(ByteAt(s, i), k)
    decreases 8 - k
  {
    hide Shr;
    if k == 8 {
      Pow2Sixteen();
      SplitUnique(ByteAt(s, i), 8, 0, ByteAt(s, i));
    } else {
      DivModUnique(8 * i + k, 8, i, k);
      LsbWithinByte(s, i, k + 1);
      ShrNext(ByteAt(s, i), k);
    }
  }
}
