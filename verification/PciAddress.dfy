/**
 The address arithmetic of newpci.c and linuxpci.c: rounding up, sizing a base address register,
 and the base and limit registers of a bridge.
 */
module PciAddress {
  import opened Bits

  const IO_ALIGN := 16
  const IO_BRIDGE_ALIGN := 4096
  const MEM_ALIGN := 4096
  const ONEMEG := 0x10_0000

  // Flag bits of a base address register.
  const SPACE_IO := 1
  const TYPE_1M := 2
  const TYPE_64 := 4
  const PREFETCH := 8

  /** One word for each of the six base address registers of a function. */
  type Words = s: seq<Word> | |s| == 6 witness [0, 0, 0, 0, 0, 0]

  /** Unsigned 32-bit arithmetic wraps. */
  function U32(x: nat): Word
  {
    x % W32
  }

  /** All bits of a word inverted. */
  function Not(x: Word): Word
  {
    W32 - 1 - x
  }

  lemma Pow2Word()
    ensures Pow2(2) == 4 && Pow2(4) == 16 && Pow2(12) == 4096 && Pow2(16) == 0x10000 && Pow2(20) == ONEMEG
          && Pow2(32) == W32
  {
    Pow2Sixteen();
    assert Pow2(4) == 16;
    Pow2Add(4, 8);
    Pow2Add(16, 4);
    Pow2Add(16, 16);
  }

  /** x & ~m takes the bits of m away from x. */
  lemma {:induction false} AndComplement(x: nat, m: nat, n: nat)
    requires x < Pow2(n) && m < Pow2(n)
    ensures And(x, Pow2(n) - 1 - m) == x - And(x, m)
  {
    hide And;
    AndHalf(x, m);
    AndHalf(x, Pow2(n) - 1 - m);
    if n > 0 {
      AndComplement(x / 2, m / 2, n - 1);
      ComplementHalf(Pow2(n - 1), m);
      BitComplement(x % 2, m % 2);
    }
  }

  lemma ComplementHalf(p: nat, m: nat)
    requires m < 2 * p
    ensures (2 * p - 1 - m) % 2 == 1 - m % 2 && (2 * p - 1 - m) / 2 == p - 1 - m / 2
  {
  }

  lemma BitComplement(x: nat, m: nat)
    requires x < 2 && m < 2
    ensures x * (1 - m) == x - x * m
  {
  }

  lemma AndNot(x: Word, m: Word)
    ensures And(x, Not(m)) == x - And(x, m)
  {
    Pow2Word();
    AndComplement(x, m, 32);
  }

  // ----- Rounding up -----

  /** What round computes when val + roundup - 1 does not overflow. */
  function Rounded(val: nat, roundup: nat): (r: nat)
    requires roundup > 0
    ensures val <= r < val + roundup
  {
    AndLess(val + roundup - 1, roundup - 1);
    val + roundup - 1 - And(val + roundup - 1, roundup - 1)
  }

  /** round, newpci.c */
  method Round(val: Word, roundup: Word) returns (r: Word)
    requires roundup > 0
    ensures val + roundup - 1 < W32 ==> r == Rounded(val, roundup)
  {
    hide And;
    var inverse := Not(roundup - 1);
    r := U32(val + (roundup - 1));
    AndNot(r, roundup - 1);
    AndLess(r, roundup - 1);
    r := And(r, inverse);
  }

  /** With a power of two, rounding gives the least multiple that is not below val. */
  lemma RoundedMultiple(val: nat, k: nat)
    ensures Rounded(val, Pow2(k)) % Pow2(k) == 0
    ensures forall m: nat :: m % Pow2(k) == 0 && m >= val ==> m >= Rounded(val, Pow2(k))
    ensures val % Pow2(k) == 0 ==> Rounded(val, Pow2(k)) == val
  {
    var d, x := Pow2(k), val + Pow2(k) - 1;
    AndMask(x, k);
    var r := Rounded(val, d);
    assert r == Shr(x, k) * d;
    DivModUnique(r, d, Shr(x, k), 0);
    forall m: nat | m % d == 0 && m >= val
      ensures m >= r
    {
      NoMultipleBetween(m, r, d);
    }
    if val % d == 0 { NoMultipleBetween(r, val, d); }
  }

  lemma NoMultipleBetween(m: nat, r: nat, d: nat)
    requires d > 0 && m % d == 0 && r % d == 0 && r < m + d
    ensures r <= m
  {
    if r > m {
      var a, b := r / d, m / d;
      assert r == a * d && m == b * d;
      MulLess(b, a, d);
      MulMono(b + 1, a, d);
      SumTimes(b, 1, d);
    }
  }

  /** iolimit and memlimit: the last address of the aligned space. */
  method Limit(amount: Word, align: Word) returns (r: Word)
    requires amount > 0 && align > 0
    ensures amount + align - 1 < W32 ==> r == Rounded(amount, align) - 1
  {
    r := Round(amount, align);
    r := if r == 0 then W32 - 1 else r - 1;
  }

  // ----- Sizing a base address register -----

  lemma {:induction false} OrOnes(x: nat, m: nat)
    requires x < Pow2(m)
    ensures Or(x, Pow2(m) - 1) == Pow2(m) - 1
  {
    if m > 0 {
      OrOnes(x / 2, m - 1);
      OrHalf(x, Pow2(m) - 1);
      assert (Pow2(m) - 1) % 2 == 1 && (Pow2(m) - 1) / 2 == Pow2(m - 1) - 1;
    }
  }

  /** Or-ing ones above bit n leaves the low n bits of x below them. */
  lemma {:induction false} OrHigh(x: nat, y: nat, n: nat, m: nat)
    requires x < Pow2(n + m) && y == Pow2(m) - 1
    ensures Or(x, y * Pow2(n)) == y * Pow2(n) + Low(x, n)
  {
    hide Or;
    hide Pow2;
    Pow2Sixteen();
    if n == 0 {
      OrOnes(x, m);
      assert Low(x, 0) == 0;
    } else {
      Doubles(x, y, n, m);
      OrHigh(x / 2, y, n - 1, m);
      OrHalf(x, 2 * (y * Pow2(n - 1)));
      LowHalf(x, n);
    }
  }

  lemma Doubles(x: nat, y: nat, n: nat, m: nat)
    requires n > 0 && x < Pow2(n + m)
    ensures y * Pow2(n) == 2 * (y * Pow2(n - 1)) && x / 2 < Pow2(n - 1 + m)
  {
    MulAssoc(y, 2, Pow2(n - 1));
    MulAssoc(2, y, Pow2(n - 1));
  }

  /** size & 3, size & 15, and what their complements keep. */
  lemma FlagBits(x: Word)
    ensures And(x, 3) == x % 4 && And(x, Not(3)) == x - x % 4
    ensures And(x, 15) == x % 16 && And(x, Not(15)) == x - x % 16
    ensures And(x, 1) == x % 2
  {
    Pow2Word();
    AndMask(x, 2);
    AndMask(x, 4);
    AndMask(x, 1);
    AndNot(x, 3);
    AndNot(x, 15);
  }

  lemma OrLow(x: nat, f: nat, n: nat)
    requires x % Pow2(n) == 0 && f < Pow2(n)
    ensures Or(x, f) == x + f
  {
    hide Pow2;
    hide Or;
    OrComm(x, f);
    OrDisjoint(f, x / Pow2(n), n);
  }

  /** The decoded size and flag bits that a raw read back value stands for. */
  function SizeWord(raw: Word): Word
  {
    if raw % 2 == 1 then 0x1_0000 - (raw % 0x1_0000 - raw % 4) + raw % 4
    else if raw < 16 then raw
    else W32 - (raw - raw % 16) + raw % 16
  }

  lemma OrLiterals(x: Word, f: nat)
    ensures Or(x, 0xffff_0000) == 0xffff_0000 + x % 0x1_0000
    ensures f < 4 && x % 4 == 0 ==> Or(x, f) == x + f
    ensures f < 16 && x % 16 == 0 ==> Or(x, f) == x + f
  {
    hide Or;
    Pow2Word();
    OrHigh(x, 0xffff, 16, 16);
    if f < 4 && x % 4 == 0 { OrLow(x, f, 2); }
    if f < 16 && x % 16 == 0 { OrLow(x, f, 4); }
  }

  /** The arithmetic of the I/O branch. */
  lemma IoBits(raw: Word, x: Word)
    requires raw % 2 == 1 && x == raw - raw % 4
    ensures Or(x, 0xffff_0000) == 0xffff_0000 + (raw % 0x1_0000 - raw % 4)
    ensures And(raw, Not(Not(3))) == raw % 4
    ensures Or(0x1_0000 - (raw % 0x1_0000 - raw % 4), raw % 4) == SizeWord(raw)
  {
    hide Or;
    hide And;
    IoWord(raw);
    OrLiterals(x, 0);
    FlagBits(raw);
    OrLiterals(SizeWord(raw) - raw % 4, raw % 4);
  }

  lemma IoWord(raw: Word)
    requires raw % 2 == 1
    ensures (SizeWord(raw) - raw % 4) % 4 == 0 && SizeWord(raw) >= raw % 4
    ensures SizeWord(raw) - raw % 4 == 0x1_0000 - (raw % 0x1_0000 - raw % 4)
    ensures (raw - raw % 4) % 4 == 0 && (raw - raw % 4) % 0x1_0000 == raw % 0x1_0000 - raw % 4
  {
    var h, l := raw / 0x1_0000, raw % 0x1_0000;
    var t := l / 4;
    DivModUnique(raw, 4, 0x4000 * h + t, l % 4);
    DivModUnique(raw - raw % 4, 0x1_0000, h, 4 * t);
    DivModUnique(4 * (0x4000 - t), 4, 0x4000 - t, 0);
    DivModUnique(raw - raw % 4, 4, 0x4000 * h + t, 0);
  }

  lemma MemBits(raw: Word)
    requires raw % 2 == 0
    ensures And(raw, Not(Not(15))) == raw % 16
    ensures Or(U32(W32 - (raw - raw % 16)), raw % 16) == SizeWord(raw)
  {
    hide Or;
    hide And;
    FlagBits(raw);
    OrLiterals(U32(W32 - (raw - raw % 16)), raw % 16);
  }

  /** The computation of pci_get_size on the value read back after writing all ones. */
  method GetSize(raw: Word) returns (size: Word)
    ensures size == SizeWord(raw)
  {
    hide And;
    hide Or;
    hide SizeWord;
    FlagBits(raw);
    if And(raw, SPACE_IO) != 0 {
      IoBits(raw, raw - raw % 4);
      var kind := And(raw, Not(Not(3)));
      size := And(raw, Not(3));
      size := Or(size, 0xffff_0000);
      size := Not(size);
      size := U32(size + 1);
      size := Or(size, kind);
    } else {
      MemBits(raw);
      var kind := And(raw, Not(Not(15)));
      size := And(raw, Not(15));
      size := Not(size);
      size := U32(size + 1);
      size := Or(size, kind);
    }
  }

  /** A memory register that decodes the top 32 - k bits has size 2^k, whatever its flags. */
  lemma MemorySize(raw: Word, k: nat, flags: nat)
    requires 4 <= k <= 31 && flags < 16 && flags % 2 == 0 && raw == W32 - Pow2(k) + flags
    ensures SizeWord(raw) == Pow2(k) + flags
    ensures And(SizeWord(raw), Not(15)) == Pow2(k) && And(SizeWord(raw), 15) == flags
  {
    hide And;
    hide Pow2;
    PowerBounds(k, 4, 32);
    MemorySum(raw, Pow2(k), flags);
    FlagBits(SizeWord(raw));
  }

  lemma MemorySum(raw: Word, p: nat, flags: nat)
    requires p % 16 == 0 && 0 < p < W32 && flags < 16 && flags % 2 == 0 && raw == W32 - p + flags
    ensures SizeWord(raw) == p + flags && (p + flags) % 16 == flags
  {
    var q := p / 16;
    assert p == 16 * q && raw == 16 * (W32 / 16 - q) + flags;
    assert raw % 16 == flags;
  }

  /** An I/O register that decodes bits k to 15 has size 2^k, whether or not it implements the top half. */
  lemma IoSize(raw: Word, k: nat, flags: nat)
    requires 2 <= k <= 16 && flags < 4 && flags % 2 == 1 && raw % 0x1_0000 == (0x1_0000 - Pow2(k)) + flags
    ensures SizeWord(raw) == Pow2(k) + flags
    ensures And(SizeWord(raw), Not(3)) == Pow2(k) && And(SizeWord(raw), 3) == flags
  {
    hide And;
    hide Pow2;
    PowerBounds(k, 2, 16);
    IoSum(raw, Pow2(k), flags);
    FlagBits(SizeWord(raw));
  }

  lemma IoSum(raw: Word, p: nat, flags: nat)
    requires p % 4 == 0 && 0 < p <= 0x1_0000 && flags < 4 && flags % 2 == 1 && raw % 0x1_0000 == (0x1_0000 - p) + flags
    ensures SizeWord(raw) == p + flags && (p + flags) % 4 == flags
  {
    var q, h := p / 4, raw / 0x1_0000;
    assert p == 4 * q && raw == 4 * (0x4000 * h + 0x4000 - q) + flags;
    assert raw % 4 == flags;
  }

  lemma PowerBounds(k: nat, lo: nat, hi: nat)
    requires lo <= k <= hi
    ensures lo == 4 && hi == 32 ==> Pow2(k) % 16 == 0 && 16 <= Pow2(k) <= W32 && (k < 32 ==> Pow2(k) < W32)
    ensures lo == 2 && hi == 16 ==> Pow2(k) % 4 == 0 && 4 <= Pow2(k) <= 0x1_0000
  {
    hide Pow2;
    PowerMultiple(k, lo);
    Pow2Mono(lo, k);
    Pow2Mono(k, hi);
    Pow2Word();
  }

  lemma PowerMultiple(k: nat, n: nat)
    requires n <= k
    ensures Pow2(k) % Pow2(n) == 0
  {
    Pow2Add(k - n, n);
    DivModUnique(Pow2(k), Pow2(n), Pow2(k - n), 0);
  }

  /** Register i is the upper half of a 64-bit memory register. */
  predicate UpperHalf(now: seq<Word>, i: nat)
    requires i <= |now|
  {
    i > 0 && !UpperHalf(now, i - 1) && now[i - 1] != W32 - 1 && And(now[i - 1], 7) == TYPE_64
  }

  // ----- The window registers of a bridge -----

  /** The I/O window a bridge decodes: bits 15 to 12 of base and limit come from the registers. */
  predicate IoDecodes(base: nat, limit: nat, a: nat)
  {
    base / 16 * 4096 <= a <= limit / 16 * 4096 + 4095
  }

  /** The memory windows: bits 31 to 20 come from the registers. */
  predicate MemDecodes(base: nat, limit: nat, a: nat)
  {
    base / 16 * ONEMEG <= a <= limit / 16 * ONEMEG + (ONEMEG - 1)
  }

  /** What assign_resources writes to PCI_IO_BASE and PCI_IO_LIMIT: a byte of a shifted word. */
  function IoByte(x: Word): nat
  {
    Low(Shr(x, 8), 8)
  }

  /** And to the base and limit words of the memory windows. */
  function MemHalf(x: Word): nat
  {
    Low(Shr(x, 16), 16)
  }

  /**
   The bytes written for an I/O window decode to exactly that window if and only if it stays inside
   the 64K of I/O space; an empty window decodes to nothing unless it sits on a 64K boundary.
   */
  lemma IoWindow(base: Word, limit: Word)
    requires base % IO_BRIDGE_ALIGN == 0 && (limit + 1) % IO_BRIDGE_ALIGN == 0 && 0 < base <= limit + 1
    ensures (forall a: nat :: IoDecodes(IoByte(base), IoByte(limit), a) <==> base <= a <= limit)
            <==> if base <= limit then limit < 0x1_0000 else base % 0x1_0000 != 0
  {
    hide And;
    hide Or;
    hide Pow2;
    hide IoByte;
    var q, r := base / IO_BRIDGE_ALIGN, limit / IO_BRIDGE_ALIGN;
    var b, l := IoByte(base), IoByte(limit);
    IoPages(base, limit, q, r);
    hide IoDecodes;
    if base <= limit {
      IoInside(q, r, limit);
      if limit >= 0x1_0000 { assert !IoDecodes(b, l, limit); }
    } else {
      IoOutside(q, r);
      if q % 16 == 0 { assert IoDecodes(b, l, 0); }
    }
  }

  /** A window from 0xf000 to 0x10fff, which crosses the 64K, decodes nothing at all. */
  lemma CrossingWindow(a: nat)
    ensures !IoDecodes(IoByte(0xf000), IoByte(0x1_0fff), a)
  {
    hide IoByte;
    Registers(0xf000, 15, 0);
    Registers(0x1_0fff, 16, 4095);
  }

  lemma IoPages(base: Word, limit: Word, q: nat, r: nat)
    requires base % IO_BRIDGE_ALIGN == 0 && (limit + 1) % IO_BRIDGE_ALIGN == 0 && 0 < base <= limit + 1
    requires q == base / IO_BRIDGE_ALIGN && r == limit / IO_BRIDGE_ALIGN
    ensures base == 4096 * q && limit == 4096 * r + 4095 && q <= r + 1
    ensures forall a: nat :: IoDecodes(IoByte(base), IoByte(limit), a) <==> q % 16 <= a / 4096 <= r % 16
    ensures forall a: nat :: base <= a <= limit <==> q <= a / 4096 <= r
  {
    hide *;
    PageEnds(base, limit, q, r);
    Registers(base, q, 0);
    Registers(limit, r, 4095);
    forall a: nat
      ensures IoDecodes(IoByte(base), IoByte(limit), a) <==> q % 16 <= a / 4096 <= r % 16
    {
      IoDecodesPages(IoByte(base), IoByte(limit), a);
    }
    forall a: nat ensures base <= a <= limit <==> q <= a / 4096 <= r { Pages(q, r, a); }
  }

  lemma PageEnds(base: nat, limit: nat, q: nat, r: nat)
    requires base % IO_BRIDGE_ALIGN == 0 && (limit + 1) % IO_BRIDGE_ALIGN == 0 && base <= limit + 1
    requires q == base / IO_BRIDGE_ALIGN && r == limit / IO_BRIDGE_ALIGN
    ensures base == 4096 * q && limit == 4096 * r + 4095 && q <= r + 1
  {
    DivModUnique(limit, 4096, (limit + 1) / 4096 - 1, 4095);
  }

  lemma IoDecodesPages(base: nat, limit: nat, a: nat)
    ensures IoDecodes(base, limit, a) <==> base / 16 <= a / 4096 <= limit / 16
  {
    Pages(base / 16, limit / 16, a);
  }

  /** In units of 4K pages. */
  lemma Pages(x: nat, y: nat, a: nat)
    ensures x * 4096 <= a <= y * 4096 + 4095 <==> x <= a / 4096 <= y
  {
  }

  lemma IoInside(q: nat, r: nat, limit: nat)
    requires q <= r && limit == 4096 * r + 4095
    ensures limit < 0x1_0000 ==> q % 16 == q && r % 16 == r
    ensures limit >= 0x1_0000 ==> limit / 4096 > r % 16
  {
  }

  lemma IoOutside(q: nat, r: nat)
    requires q == r + 1
    ensures q % 16 == 0 <==> 4096 * q % 0x1_0000 == 0
    ensures if q % 16 == 0 then r % 16 == 15 else q % 16 == r % 16 + 1
  {
  }

  /** What ends up in the registers, for x = 4096 * q + r. */
  lemma Registers(x: Word, q: nat, r: nat)
    requires x == 4096 * q + r && r < 4096
    ensures IoByte(x) == x / 256 % 256 && IoByte(x) / 16 == q % 16
    ensures MemHalf(x) == x / 0x1_0000 && MemHalf(x) / 16 == x / ONEMEG
  {
    hide And;
    hide Or;
    hide Pow2;
    Pow2Sixteen();
    Nibbles(x, q, r);
  }

  lemma Nibbles(x: nat, q: nat, r: nat)
    requires x == 4096 * q + r && r < 4096
    ensures x / 256 % 256 / 16 == q % 16
    ensures x < W32 ==> x / 0x1_0000 % 0x1_0000 == x / 0x1_0000
    ensures x / 0x1_0000 / 16 == x / ONEMEG
  {
    var t, u := r / 256, q / 16;
    DivModUnique(x, 256, 16 * q + t, r - 256 * t);
    DivModUnique(16 * q + t, 256, u, 16 * (q - 16 * u) + t);
    DivModUnique(16 * (q - 16 * u) + t, 16, q - 16 * u, t);
    DivModNest(x, 0x1_0000, 16);
  }

  /** The words written for a memory window decode to exactly that window; an empty one is closed. */
  lemma MemWindow(base: Word, limit: Word)
    requires base % ONEMEG == 0 && (limit + 1) % ONEMEG == 0 && 0 < base <= limit + 1
    ensures forall a: nat :: MemDecodes(MemHalf(base), MemHalf(limit), a) <==> base <= a <= limit
  {
    hide And;
    hide Or;
    hide Pow2;
    hide MemHalf;
    var b, l := MemHalf(base), MemHalf(limit);
    Registers(base, base / 4096, base % 4096);
    Registers(limit, limit / 4096, limit % 4096);
    forall a: nat
      ensures MemDecodes(b, l, a) <==> base <= a <= limit
    {
      Megabytes(base, limit, a);
    }
  }

  lemma Megabytes(base: nat, limit: nat, a: nat)
    requires base % ONEMEG == 0 && (limit + 1) % ONEMEG == 0
    ensures base / ONEMEG * ONEMEG <= a <= limit / ONEMEG * ONEMEG + (ONEMEG - 1) <==> base <= a <= limit
  {
  }
}
