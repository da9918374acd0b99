/**
 The address layout newpci.c computes, as a function on the tree of buses, and what holds of it:
 windows nest, no two registers share an address, and bridges route every address to its register.
 */
module PciLayout {
  import opened Bits
  import opened PciAddress

  /** The three passes over the tree. */
  datatype Space = Io | Mem | Pref
  {
    /** Granularity of a bridge window. */
    function Align(): nat { if Io? then IO_BRIDGE_ALIGN else ONEMEG }
  }

  type Addresses = s: seq<nat> | |s| == 6 witness [0, 0, 0, 0, 0, 0]

  /** base and limit (the last address) of a bus; limit is base - 1 when the window is empty. */
  datatype Window = Window(base: nat, limit: int)

  /** A device: sizes with their flag bits, and base addresses (0 when not assigned). */
  datatype Dev = Dev(size: Words, addr: Addresses)

  datatype Bus = Bus(io: Window, mem: Window, pref: Window, children: seq<Bus>, devices: seq<Dev>)
  {
    function Win(sp: Space): Window
    {
      match sp case Io => io case Mem => mem case Pref => pref
    }

    function WithWin(sp: Space, w: Window): (b: Bus)
      ensures b.Win(sp) == w && b.children == children && b.devices == devices
      ensures forall sp' :: sp' != sp ==> b.Win(sp') == Win(sp')
    {
      match sp case Io => this.(io := w) case Mem => this.(mem := w) case Pref => this.(pref := w)
    }
  }

  // ----- One register -----

  function Length(sp: Space, size: Word): Word
  {
    AndLess(size, Not(3));
    AndLess(size, Not(15));
    if sp.Io? then And(size, Not(3)) else And(size, Not(15))
  }

  /** The tests with which each pass picks its registers. */
  predicate Wants(sp: Space, size: Word)
  {
    && Length(sp, size) != 0
    && (sp.Io? <==> And(size, SPACE_IO) != 0)
    && (sp.Io? || And(size, TYPE_1M) == 0)
    && (sp.Io? || (sp.Pref? <==> And(size, PREFETCH) != 0))
  }

  /** Where the register goes when addresses are used up to base. */
  function Place(sp: Space, size: Word, base: nat): nat
    requires Wants(sp, size)
  {
    if sp.Io? then base else Rounded(base, Rounded(Length(sp, size), MEM_ALIGN))
  }

  /** And how much is used up then. */
  function Next(sp: Space, size: Word, base: nat): nat
    requires Wants(sp, size)
  {
    Place(sp, size, base) + Rounded(Length(sp, size), if sp.Io? then IO_ALIGN else MEM_ALIGN)
  }

  /** The value stored: I/O registers carry the space bit. */
  function Stored(sp: Space, a: nat): nat
  {
    if sp.Io? then Or(a, SPACE_IO) else a
  }

  // ----- The passes -----

  function AllocBars(sp: Space, d: Dev, i: nat, base: nat): (Dev, nat)
    requires i <= 6
    decreases 6 - i
  {
    if i == 6 then (d, base)
    else if !Wants(sp, d.size[i]) then AllocBars(sp, d, i + 1, base)
    else
      var a := Place(sp, d.size[i], base);
      AllocBars(sp, d.(addr := d.addr[i := Stored(sp, a)]), i + 1, Next(sp, d.size[i], base))
  }

  function AllocDevs(sp: Space, ds: seq<Dev>, base: nat): (seq<Dev>, nat)
  {
    if ds == [] then ([], base)
    else
      var (d, n) := AllocBars(sp, ds[0], 0, base);
      var (rest, m) := AllocDevs(sp, ds[1..], n);
      ([d] + rest, m)
  }

  /** The limit of a window rounded up, where the next window starts. A limit is below 0 only when a base is 0. */
  function After(sp: Space, limit: int): nat
  {
    if limit < 0 then 0 else Rounded(limit, sp.Align())
  }

  function AllocKids(sp: Space, cs: seq<Bus>, base: nat): (seq<Bus>, nat)
  {
    if cs == [] then ([], base)
    else
      var c := AllocBus(sp, cs[0], base);
      var (rest, m) := AllocKids(sp, cs[1..], After(sp, c.Win(sp).limit));
      ([c] + rest, m)
  }

  /** One pass over a bus whose window starts at base: bridges first, then its own devices. */
  function AllocBus(sp: Space, b: Bus, base: nat): Bus
  {
    var (kids, k) := AllocKids(sp, b.children, base);
    var (devs, e) := AllocDevs(sp, b.devices, k);
    b.(children := kids, devices := devs).WithWin(sp, Window(base, Rounded(e, sp.Align()) - 1))
  }

  const PCI_IO_START := 0x1000
  const PCI_MEM_START := 0x8000_0000

  /** compute_allocate_resources after pci_configure has set the root's bases. */
  function AllocAll(b: Bus): Bus
  {
    var b1 := AllocBus(Io, b, PCI_IO_START);
    var b2 := AllocBus(Mem, b1, PCI_MEM_START);
    AllocBus(Pref, b2, After(Mem, b2.mem.limit))
  }

  // ----- What the layout promises -----

  /** The addresses given to a register. */
  datatype Range = Range(start: nat, len: nat)
  {
    predicate Has(a: nat) { start <= a < start + len }
  }

  /** The address bits of a register. */
  function AddressOf(sp: Space, stored: nat): nat
  {
    if sp.Io? then stored - stored % 4 else stored - stored % 16
  }

  function BarRanges(sp: Space, d: Dev, i: nat): seq<Range>
    requires i <= 6
    decreases 6 - i
  {
    if i == 6 then []
    else (if Wants(sp, d.size[i]) then [Range(AddressOf(sp, d.addr[i]), Length(sp, d.size[i]))] else [])
         + BarRanges(sp, d, i + 1)
  }

  function DevRanges(sp: Space, ds: seq<Dev>): seq<Range>
  {
    if ds == [] then [] else BarRanges(sp, ds[0], 0) + DevRanges(sp, ds[1..])
  }

  function KidRanges(sp: Space, cs: seq<Bus>): seq<Range>
  {
    if cs == [] then [] else BusRanges(sp, cs[0]) + KidRanges(sp, cs[1..])
  }

  /** Every register of the tree below b that belongs to a space. */
  function BusRanges(sp: Space, b: Bus): seq<Range>
  {
    KidRanges(sp, b.children) + DevRanges(sp, b.devices)
  }

  /** Ranges one after the other between lo and hi. */
  predicate Ordered(rs: seq<Range>, lo: nat, hi: int)
  {
    if rs == [] then lo <= hi
    else lo <= rs[0].start && Ordered(rs[1..], rs[0].start + rs[0].len, hi)
  }

  /** I/O registers sit on multiples of 16, memory registers on multiples of their size if that is a power of two. */
  ghost predicate Aligned(sp: Space, r: Range)
  {
    if sp.Io? then r.start % IO_ALIGN == 0 else forall k: nat :: Pow2(k) == r.len ==> r.start % Pow2(k) == 0
  }

  ghost predicate AllAligned(sp: Space, rs: seq<Range>)
  {
    forall i :: 0 <= i < |rs| ==> Aligned(sp, rs[i])
  }

  /** The end of the last child's window. */
  function KidsEnd(sp: Space, cs: seq<Bus>, lo: int): int
  {
    if cs == [] then lo else KidsEnd(sp, cs[1..], cs[0].Win(sp).limit + 1)
  }

  /** Windows of children adjoin from lo on. */
  ghost predicate KidsLaid(sp: Space, cs: seq<Bus>, lo: int)
  {
    cs == [] || (cs[0].Win(sp).base == lo && Laid(sp, cs[0]) && KidsLaid(sp, cs[1..], cs[0].Win(sp).limit + 1))
  }

  /** The window of b holds its children's windows side by side and then its own registers. */
  ghost predicate Laid(sp: Space, b: Bus)
  {
    var w := b.Win(sp);
    && 0 < w.base <= w.limit + 1 && w.base % sp.Align() == 0 && (w.limit + 1) % sp.Align() == 0
    && KidsLaid(sp, b.children, w.base)
    && var k := KidsEnd(sp, b.children, w.base);
    && 0 <= k && Ordered(DevRanges(sp, b.devices), k, w.limit + 1) && AllAligned(sp, DevRanges(sp, b.devices))
  }

  // ----- What the hardware answers to -----

  /** A register has no address bits below its length: of the address written to it these are lost. */
  function Latched(r: Range): Range
  {
    if r.len == 0 then r else Range(r.start - r.start % r.len, r.len)
  }

  /** The addresses that registers with these ranges written to them answer to. */
  function AllLatched(rs: seq<Range>): seq<Range>
  {
    if rs == [] then [] else [Latched(rs[0])] + AllLatched(rs[1..])
  }

  predicate InPlace(rs: seq<Range>)
  {
    forall i :: 0 <= i < |rs| ==> Latched(rs[i]) == rs[i]
  }

  lemma {:induction false} LatchedAt(rs: seq<Range>)
    ensures |AllLatched(rs)| == |rs| && forall i :: 0 <= i < |rs| ==> AllLatched(rs)[i] == Latched(rs[i])
  {
    hide Latched;
    if rs != [] { LatchedAt(rs[1..]); }
  }

  lemma InPlaceLatched(rs: seq<Range>)
    ensures InPlace(rs) <==> AllLatched(rs) == rs
  {
    hide Latched;
    hide AllLatched;
    LatchedAt(rs);
  }

  ghost predicate PowerLengths(rs: seq<Range>)
  {
    forall i :: 0 <= i < |rs| ==> exists k: nat :: Pow2(k) == rs[i].len
  }

  /** Memory registers whose sizes are powers of two answer exactly where they are put. */
  lemma MemoryInPlace(sp: Space, rs: seq<Range>)
    requires !sp.Io? && AllAligned(sp, rs) && PowerLengths(rs)
    ensures InPlace(rs)
  {
    hide Pow2;
    forall i | 0 <= i < |rs|
      ensures Latched(rs[i]) == rs[i]
    {
      assert Aligned(sp, rs[i]);
      var k: nat :| Pow2(k) == rs[i].len;
    }
  }

  // ----- One register, proved -----

  /** A register belongs to at most one pass. */
  lemma OneSpace(sp: Space, sp': Space, size: Word)
    requires Wants(sp, size) && Wants(sp', size)
    ensures sp == sp'
  {
  }

  lemma {:induction false} AndLowBits(x: nat, m: nat, n: nat)
    requires m % Pow2(n) == Pow2(n) - 1
    ensures Low(And(x, m), n) == Low(x, n)
  {
    hide And;
    hide Pow2;
    hide Low;
    Pow2Sixteen();
    if n == 0 {
      LowBound(And(x, m), 0);
      LowBound(x, 0);
    } else {
      AndHalf(x, m);
      LowOnes(m, n);
      AndLowBits(x / 2, m / 2, n - 1);
      LowHalf(x, n);
      LowHalf(And(x, m), n);
      BitOne(x % 2, m % 2, And(x / 2, m / 2));
    }
  }

  lemma BitOne(x: nat, m: nat, h: nat)
    requires x < 2 && m == 1
    ensures (x * m + 2 * h) % 2 == x && (x * m + 2 * h) / 2 == h
  {
  }

  lemma LowOnes(m: nat, n: nat)
    requires n > 0 && m % Pow2(n) == Pow2(n) - 1
    ensures m % 2 == 1 && (m / 2) % Pow2(n - 1) == Pow2(n - 1) - 1
  {
    hide Pow2;
    LowHalf(m, n);
    LowBound(m, n);
    LowBound(m / 2, n - 1);
    PowDouble(n);
  }

  lemma PowDouble(n: nat)
    requires n > 0
    ensures Pow2(n) == 2 * Pow2(n - 1)
  {
  }

  lemma LowBound(x: nat, n: nat)
    ensures Low(x, n) == x % Pow2(n) < Pow2(n)
  {
  }

  /** Rounding to a multiple of 4096, power of two or not, gives a multiple of 4096. */
  lemma RoundedPage(val: nat, r: nat)
    requires r > 0 && r % MEM_ALIGN == 0
    ensures Rounded(val, r) % MEM_ALIGN == 0
  {
    hide And;
    hide Pow2;
    Pow2Word();
    var x := val + r - 1;
    LowBound(x, 12);
    LowBound(And(x, r - 1), 12);
    AndLowBits(x, r - 1, 12);
    AndLess(x, r - 1);
    SameLow(x, And(x, r - 1));
  }

  lemma SameLow(x: nat, y: nat)
    requires x % 4096 == y % 4096 && y <= x
    ensures (x - y) % 4096 == 0
  {
  }

  lemma RoundedTo(val: nat, align: nat)
    requires align == IO_ALIGN || align == IO_BRIDGE_ALIGN || align == ONEMEG
    ensures Rounded(val, align) % align == 0
    ensures val % align == 0 ==> Rounded(val, align) == val
    ensures (val + 1) % align == 0 ==> Rounded(val, align) == val + 1
  {
    hide Rounded;
    hide Pow2;
    Pow2Word();
    var k := if align == 16 then 4 else if align == 4096 then 12 else 20;
    RoundedMultiple(val, k);
    if (val + 1) % align == 0 { NoMultipleBetween(val + 1, Rounded(val, align), align); }
    if (val + 1) % align == 0 && Rounded(val, align) == val { NextNotMultiple(val, align); }
  }

  lemma NextNotMultiple(x: nat, d: nat)
    requires d > 1 && x % d == 0
    ensures (x + 1) % d != 0
  {
    DivModUnique(x + 1, d, x / d, 1);
  }

  /** A power of two rounded to whole pages is the larger of the two. */
  lemma RoundedPower(k: nat, len: nat)
    requires len == Pow2(k)
    ensures exists j: nat :: j >= k && Rounded(len, MEM_ALIGN) == Pow2(j)
  {
    hide Rounded;
    hide Pow2;
    Pow2Word();
    RoundedMultiple(len, 12);
    if k >= 12 {
      PowerMultiple(k, 12);
      assert Rounded(len, MEM_ALIGN) == Pow2(k);
    } else {
      Pow2Mono(k, 12);
      NoMultipleBetween(Pow2(12), Rounded(len, MEM_ALIGN), Pow2(12));
      assert Rounded(len, MEM_ALIGN) == Pow2(12) by { RoundedPositive(len); }
    }
  }

  lemma RoundedPositive(len: nat)
    requires 0 < len
    ensures Rounded(len, MEM_ALIGN) % MEM_ALIGN == 0 && Rounded(len, MEM_ALIGN) >= MEM_ALIGN
  {
    hide Rounded;
    hide Pow2;
    Pow2Word();
    RoundedMultiple(len, 12);
  }

  /** Placing one register: no overlap with what is used, aligned, and the place is in the address bits of the value. */
  lemma Placed(sp: Space, size: Word, base: nat)
    requires Wants(sp, size) && (sp.Io? ==> base % IO_ALIGN == 0)
    ensures base <= Place(sp, size, base) && Place(sp, size, base) + Length(sp, size) <= Next(sp, size, base)
    ensures AddressOf(sp, Stored(sp, Place(sp, size, base))) == Place(sp, size, base)
    ensures sp.Io? ==> Next(sp, size, base) % IO_ALIGN == 0
    ensures Aligned(sp, Range(Place(sp, size, base), Length(sp, size)))
  {
    hide Rounded;
    hide Wants;
    hide Length;
    hide Stored;
    hide AddressOf;
    hide Aligned;
    var len := Length(sp, size);
    WantsLength(sp, size);
    if sp.Io? {
      RoundedTo(len, IO_ALIGN);
      IoAddress(base, len);
      SumMultiple(base, Rounded(len, IO_ALIGN));
    } else {
      RoundedPositive(len);
      RoundedPage(base, Rounded(len, MEM_ALIGN));
      MemAddress(sp, Rounded(base, Rounded(len, MEM_ALIGN)));
      MemAligned(sp, base, len);
    }
  }

  lemma SumMultiple(a: nat, b: nat)
    requires a % 16 == 0 && b % 16 == 0
    ensures (a + b) % 16 == 0
  {
    DivModUnique(a + b, 16, a / 16 + b / 16, 0);
  }

  lemma IoAddress(a: nat, len: nat)
    requires a % 16 == 0
    ensures AddressOf(Io, Stored(Io, a)) == a && Aligned(Io, Range(a, len))
  {
    hide Or;
    OrLiterals16(a);
    DivModUnique(a + 1, 4, 4 * (a / 16), 1);
  }

  lemma MemAddress(sp: Space, a: nat)
    requires !sp.Io? && a % 4096 == 0
    ensures AddressOf(sp, Stored(sp, a)) == a
  {
    PageMultiple(a);
  }

  lemma MemAligned(sp: Space, base: nat, len: nat)
    requires !sp.Io? && len > 0
    ensures Aligned(sp, Range(Rounded(base, Rounded(len, MEM_ALIGN)), len))
  {
    hide Rounded;
    hide Pow2;
    var r := Rounded(len, MEM_ALIGN);
    forall k: nat | Pow2(k) == len
      ensures Rounded(base, r) % Pow2(k) == 0
    {
      RoundedPower(k, len);
      var j: nat :| j >= k && r == Pow2(j);
      RoundedMultiple(base, j);
      MultipleOfSmaller(Rounded(base, r), j, k);
    }
  }

  lemma PageMultiple(x: nat)
    requires x % 4096 == 0
    ensures x % 16 == 0
  {
    DivModUnique(x, 16, 256 * (x / 4096), 0);
  }

  lemma WantsLength(sp: Space, size: Word)
    requires Wants(sp, size)
    ensures Length(sp, size) > 0
  {
  }

  lemma OrLiterals16(a: nat)
    requires a % 16 == 0
    ensures Or(a, SPACE_IO) == a + 1
  {
    hide Or;
    hide Pow2;
    Pow2Word();
    OrLow(a, 1, 4);
  }

  lemma MultipleOfSmaller(x: nat, j: nat, k: nat)
    requires k <= j && x % Pow2(j) == 0
    ensures x % Pow2(k) == 0
  {
    hide Pow2;
    Pow2Add(j - k, k);
    var q := x / Pow2(j);
    MulAssoc(q, Pow2(j - k), Pow2(k));
    DivModUnique(x, Pow2(k), q * Pow2(j - k), 0);
  }

  // ----- A pass, proved -----

  /** Only registers of the space change; sizes never do. */
  predicate SameDev(sp: Space, d: Dev, d': Dev)
  {
    d.size == d'.size && forall i :: 0 <= i < 6 && !Wants(sp, d.size[i]) ==> d.addr[i] == d'.addr[i]
  }

  predicate SameDevs(sp: Space, ds: seq<Dev>, ds': seq<Dev>)
  {
    |ds| == |ds'| && forall i :: 0 <= i < |ds| ==> SameDev(sp, ds[i], ds'[i])
  }

  lemma {:induction false} BarsLaid(sp: Space, d: Dev, i: nat, base: nat)
    requires i <= 6 && (sp.Io? ==> base % IO_ALIGN == 0)
    ensures var (d', n) := AllocBars(sp, d, i, base);
            && SameDev(sp, d, d') && (forall j :: 0 <= j < i ==> d'.addr[j] == d.addr[j])
            && Ordered(BarRanges(sp, d', i), base, n) && AllAligned(sp, BarRanges(sp, d', i))
            && base <= n && (sp.Io? ==> n % IO_ALIGN == 0)
    decreases 6 - i
  {
    hide Place;
    hide Next;
    hide Length;
    hide Stored;
    hide AddressOf;
    hide Wants;
    hide Aligned;
    hide SameDev;
    hide BarRanges;
    hide Ordered;
    hide AllAligned;
    if i == 6 {
      BarsNone(sp, d, base);
    } else if Wants(sp, d.size[i]) {
      Placed(sp, d.size[i], base);
      var a := Place(sp, d.size[i], base);
      var d1, n1 := d.(addr := d.addr[i := Stored(sp, a)]), Next(sp, d.size[i], base);
      BarsLaid(sp, d1, i + 1, n1);
      var (d', n) := AllocBars(sp, d1, i + 1, n1);
      SameThrough(sp, d, d', i, Stored(sp, a));
      BarFirst(sp, d', i, a, n1, base, n);
    } else {
      BarsLaid(sp, d, i + 1, base);
      var (d', n) := AllocBars(sp, d, i + 1, base);
      BarSkipped(sp, d, d', i);
    }
  }

  lemma BarsNone(sp: Space, d: Dev, base: nat)
    ensures SameDev(sp, d, d) && BarRanges(sp, d, 6) == [] && Ordered([], base, base) && AllAligned(sp, [])
  {
  }

  lemma SameThrough(sp: Space, d: Dev, d': Dev, i: nat, x: nat)
    requires i < 6 && Wants(sp, d.size[i]) && SameDev(sp, d.(addr := d.addr[i := x]), d')
    ensures SameDev(sp, d, d') && d'.size == d.size
  {
    hide Wants;
  }

  lemma BarFirst(sp: Space, d': Dev, i: nat, a: nat, n1: nat, base: nat, n: nat)
    requires i < 6 && Wants(sp, d'.size[i]) && AddressOf(sp, d'.addr[i]) == a
    requires base <= a && a + Length(sp, d'.size[i]) <= n1 && Aligned(sp, Range(a, Length(sp, d'.size[i])))
    requires Ordered(BarRanges(sp, d', i + 1), n1, n) && AllAligned(sp, BarRanges(sp, d', i + 1))
    ensures Ordered(BarRanges(sp, d', i), base, n) && AllAligned(sp, BarRanges(sp, d', i))
  {
    hide Wants;
    hide Length;
    hide Aligned;
    hide AddressOf;
    var rs := BarRanges(sp, d', i + 1);
    var r := Range(a, Length(sp, d'.size[i]));
    assert BarRanges(sp, d', i) == [r] + rs;
    assert ([r] + rs)[1..] == rs;
    OrderedFrom(rs, r.start + r.len, n1, n);
  }

  lemma BarSkipped(sp: Space, d: Dev, d': Dev, i: nat)
    requires i < 6 && !Wants(sp, d.size[i]) && SameDev(sp, d, d')
    ensures BarRanges(sp, d', i) == BarRanges(sp, d', i + 1)
  {
    hide Wants;
  }

  lemma {:induction false} OrderedConcat(r1: seq<Range>, r2: seq<Range>, lo: nat, mid: nat, hi: int)
    requires Ordered(r1, lo, mid) && Ordered(r2, mid, hi)
    ensures Ordered(r1 + r2, lo, hi)
  {
    if r1 == [] {
      assert r1 + r2 == r2;
      OrderedFrom(r2, lo, mid, hi);
    } else {
      OrderedConcat(r1[1..], r2, r1[0].start + r1[0].len, mid, hi);
      assert (r1 + r2)[1..] == r1[1..] + r2;
    }
  }

  lemma OrderedFrom(rs: seq<Range>, lo: nat, mid: nat, hi: int)
    requires lo <= mid && Ordered(rs, mid, hi)
    ensures Ordered(rs, lo, hi)
  {
  }

  lemma OrderedNone(base: nat)
    ensures Ordered([], base, base)
  {
  }

  lemma {:induction false} DevsLaid(sp: Space, ds: seq<Dev>, base: nat)
    requires sp.Io? ==> base % IO_ALIGN == 0
    ensures var (ds', n) := AllocDevs(sp, ds, base);
            && SameDevs(sp, ds, ds') && Ordered(DevRanges(sp, ds'), base, n) && AllAligned(sp, DevRanges(sp, ds'))
            && base <= n
  {
    hide Aligned;
    hide SameDev;
    hide BarRanges;
    hide AllocBars;
    hide Ordered;
    hide Wants;
    if ds == [] {
      OrderedNone(base);
    } else {
      BarsLaid(sp, ds[0], 0, base);
      var (d, n) := AllocBars(sp, ds[0], 0, base);
      DevsLaid(sp, ds[1..], n);
      var (rest, m) := AllocDevs(sp, ds[1..], n);
      assert ([d] + rest)[1..] == rest;
      OrderedConcat(BarRanges(sp, d, 0), DevRanges(sp, rest), base, n, m);
    }
  }

  ghost predicate SameKids(sp: Space, cs: seq<Bus>, cs': seq<Bus>)
  {
    if cs == [] then cs' == [] else cs' != [] && SameBut(sp, cs[0], cs'[0]) && SameKids(sp, cs[1..], cs'[1..])
  }

  /** The trees differ at most in the windows and registers of one space. */
  ghost predicate SameBut(sp: Space, b: Bus, b': Bus)
  {
    && (forall sp' :: sp' != sp ==> b.Win(sp') == b'.Win(sp'))
    && SameKids(sp, b.children, b'.children) && SameDevs(sp, b.devices, b'.devices)
  }

  lemma {:induction false} AllocKidsLaid(sp: Space, cs: seq<Bus>, base: nat)
    requires 0 < base && base % sp.Align() == 0
    ensures var (cs', m) := AllocKids(sp, cs, base);
            && SameKids(sp, cs, cs') && KidsLaid(sp, cs', base) && KidsEnd(sp, cs', base) == m
            && base <= m && m % sp.Align() == 0
  {
    hide Laid;
    hide SameBut;
    if cs != [] {
      var c := AllocBus(sp, cs[0], base);
      AllocBusLaid(sp, cs[0], base);
      hide AllocBus;
      WindowEnd(sp, c);
      var k := After(sp, c.Win(sp).limit);
      AllocKidsLaid(sp, cs[1..], k);
      var (rest, m) := AllocKids(sp, cs[1..], k);
      assert ([c] + rest)[1..] == rest;
    }
  }

  /** Rounding a limit up gives the address after it. */
  lemma WindowEnd(sp: Space, c: Bus)
    requires Laid(sp, c)
    ensures After(sp, c.Win(sp).limit) == c.Win(sp).limit + 1
    ensures 0 < c.Win(sp).base <= c.Win(sp).limit + 1 && (c.Win(sp).limit + 1) % sp.Align() == 0
  {
    hide Rounded;
    RoundedTo(c.Win(sp).limit, sp.Align());
  }

  /** A pass lays the whole tree out in its space and touches nothing else. */
  lemma {:induction false} AllocBusLaid(sp: Space, b: Bus, base: nat)
    requires 0 < base && base % sp.Align() == 0
    ensures var b' := AllocBus(sp, b, base); SameBut(sp, b, b') && Laid(sp, b') && b'.Win(sp).base == base
  {
    hide Rounded;
    hide AllAligned;
    hide KidsLaid;
    hide SameKids;
    hide SameDevs;
    hide Ordered;
    hide DevRanges;
    hide AllocKids;
    hide AllocDevs;
    hide KidsEnd;
    AllocKidsLaid(sp, b.children, base);
    var (kids, k) := AllocKids(sp, b.children, base);
    MultipleOf16(sp, k);
    DevsLaid(sp, b.devices, k);
    var (devs, e) := AllocDevs(sp, b.devices, k);
    RoundedTo(e, sp.Align());
    OrderedTo(DevRanges(sp, devs), k, e, Rounded(e, sp.Align()));
  }

  lemma MultipleOf16(sp: Space, k: nat)
    requires k % sp.Align() == 0
    ensures k % 16 == 0
  {
    DivModUnique(k, 16, sp.Align() / 16 * (k / sp.Align()), 0);
  }

  lemma {:induction false} OrderedTo(rs: seq<Range>, lo: nat, mid: int, hi: int)
    requires Ordered(rs, lo, mid) && mid <= hi
    ensures Ordered(rs, lo, hi)
  {
    if rs != [] { OrderedTo(rs[1..], rs[0].start + rs[0].len, mid, hi); }
  }

  // ----- The whole tree -----

  lemma {:induction false} KidsOrdered(sp: Space, cs: seq<Bus>, lo: nat)
    requires KidsLaid(sp, cs, lo)
    ensures Ordered(KidRanges(sp, cs), lo, KidsEnd(sp, cs, lo)) && AllAligned(sp, KidRanges(sp, cs))
    ensures lo <= KidsEnd(sp, cs, lo)
  {
    hide Laid;
    hide Aligned;
    hide BusRanges;
    hide Ordered;
    hide SameBut;
    if cs == [] {
      NoneOrdered(lo);
    } else {
      WindowEnd(sp, cs[0]);
      var w := cs[0].Win(sp);
      LaidOrdered(sp, cs[0]);
      KidsOrdered(sp, cs[1..], w.limit + 1);
      OrderedConcat(BusRanges(sp, cs[0]), KidRanges(sp, cs[1..]), lo, w.limit + 1, KidsEnd(sp, cs, lo));
    }
  }

  lemma NoneOrdered(lo: nat)
    ensures Ordered([], lo, lo)
  {
  }

  /** Every register of the tree lies in the window, in its order in the tree, none overlapping, all aligned. */
  lemma {:induction false} LaidOrdered(sp: Space, b: Bus)
    requires Laid(sp, b)
    ensures Ordered(BusRanges(sp, b), b.Win(sp).base, b.Win(sp).limit + 1) && AllAligned(sp, BusRanges(sp, b))
  {
    hide KidsLaid;
    hide KidsEnd;
    hide KidRanges;
    hide DevRanges;
    hide Ordered;
    hide Aligned;
    var w := b.Win(sp);
    KidsOrdered(sp, b.children, w.base);
    var k := KidsEnd(sp, b.children, w.base);
    OrderedConcat(KidRanges(sp, b.children), DevRanges(sp, b.devices), w.base, k, w.limit + 1);
  }

  /** Ordered ranges are inside their bounds and pairwise disjoint. */
  lemma {:induction false} OrderedApart(rs: seq<Range>, lo: nat, hi: int)
    requires Ordered(rs, lo, hi)
    ensures lo <= hi
    ensures forall i :: 0 <= i < |rs| ==> lo <= rs[i].start && rs[i].start + rs[i].len <= hi
    ensures forall i, j :: 0 <= i < j < |rs| ==> rs[i].start + rs[i].len <= rs[j].start
  {
    if rs != [] { OrderedApart(rs[1..], rs[0].start + rs[0].len, hi); }
  }

  lemma {:induction false} KidLaid(sp: Space, cs: seq<Bus>, lo: int, i: nat)
    requires KidsLaid(sp, cs, lo) && i < |cs|
    ensures Laid(sp, cs[i]) && lo <= cs[i].Win(sp).base && cs[i].Win(sp).limit + 1 <= KidsEnd(sp, cs, lo)
  {
    hide Laid;
    WindowEnd(sp, cs[0]);
    if i > 0 { KidLaid(sp, cs[1..], cs[0].Win(sp).limit + 1, i - 1); }
    KidsRise(sp, cs[1..], cs[0].Win(sp).limit + 1);
  }

  lemma {:induction false} KidsRise(sp: Space, cs: seq<Bus>, lo: int)
    requires KidsLaid(sp, cs, lo)
    ensures lo <= KidsEnd(sp, cs, lo)
  {
    hide Laid;
    if cs != [] {
      WindowEnd(sp, cs[0]);
      KidsRise(sp, cs[1..], cs[0].Win(sp).limit + 1);
    }
  }

  // ----- Routing -----

  /** The ranges that hold an address. */
  function Hits(rs: seq<Range>, a: nat): seq<Range>
  {
    if rs == [] then [] else (if rs[0].Has(a) then [rs[0]] else []) + Hits(rs[1..], a)
  }

  function RouteKids(sp: Space, cs: seq<Bus>, a: nat): seq<Range>
  {
    if cs == [] then []
    else (if cs[0].Win(sp).base <= a <= cs[0].Win(sp).limit then Route(sp, cs[0], a) else [])
         + RouteKids(sp, cs[1..], a)
  }

  /** What would answer to an access from bus b if every bridge, at any depth, forwarded exactly its window. */
  function Route(sp: Space, b: Bus, a: nat): seq<Range>
  {
    RouteKids(sp, b.children, a) + Hits(AllLatched(DevRanges(sp, b.devices)), a)
  }

  lemma {:induction false} HitsConcat(r1: seq<Range>, r2: seq<Range>, a: nat)
    ensures Hits(r1 + r2, a) == Hits(r1, a) + Hits(r2, a)
  {
    hide Range.Has;
    if r1 == [] {
      assert r1 + r2 == r2;
    } else {
      assert (r1 + r2)[1..] == r1[1..] + r2;
      HitsConcat(r1[1..], r2, a);
      HitsAssoc(if r1[0].Has(a) then [r1[0]] else [], Hits(r1[1..], a), Hits(r2, a));
    }
  }

  lemma HitsAssoc(x: seq<Range>, y: seq<Range>, z: seq<Range>)
    ensures x + (y + z) == (x + y) + z
  {
  }

  lemma {:induction false} NoHits(rs: seq<Range>, lo: nat, hi: int, a: nat)
    requires Ordered(rs, lo, hi)
    ensures a < lo || a >= hi ==> Hits(rs, a) == []
    ensures |Hits(rs, a)| <= 1
  {
    if rs != [] {
      OrderedApart(rs, lo, hi);
      NoHits(rs[1..], rs[0].start + rs[0].len, hi, a);
    }
  }

  lemma InPlaceParts(r1: seq<Range>, r2: seq<Range>)
    ensures InPlace(r1 + r2) <==> InPlace(r1) && InPlace(r2)
  {
    hide Latched;
    forall i: nat | i < |r1| ensures (r1 + r2)[i] == r1[i] { }
    forall i: nat | i < |r2| ensures (r1 + r2)[|r1| + i] == r2[i] { }
  }

  lemma {:induction false} RouteKidsExact(sp: Space, cs: seq<Bus>, lo: nat, a: nat)
    requires KidsLaid(sp, cs, lo) && InPlace(KidRanges(sp, cs))
    ensures RouteKids(sp, cs, a) == Hits(KidRanges(sp, cs), a)
  {
    hide Laid;
    hide BusRanges;
    hide Route;
    hide InPlace;
    if cs != [] {
      WindowEnd(sp, cs[0]);
      InPlaceParts(BusRanges(sp, cs[0]), KidRanges(sp, cs[1..]));
      RouteExact(sp, cs[0], a);
      LaidOrdered(sp, cs[0]);
      var w := cs[0].Win(sp);
      NoHits(BusRanges(sp, cs[0]), w.base, w.limit + 1, a);
      RouteKidsExact(sp, cs[1..], w.limit + 1, a);
      HitsConcat(BusRanges(sp, cs[0]), KidRanges(sp, cs[1..]), a);
    }
  }

  /**
   With every bridge programmed, and every register answering where it is put, an access that enters at b reaches
   exactly the registers of the tree that answer to it: the windows never hide one, and there is at most one.
   */
  lemma {:induction false} RouteExact(sp: Space, b: Bus, a: nat)
    requires Laid(sp, b) && InPlace(BusRanges(sp, b))
    ensures Route(sp, b, a) == Hits(AllLatched(BusRanges(sp, b)), a) == Hits(BusRanges(sp, b), a)
    ensures |Route(sp, b, a)| <= 1
  {
    hide KidsLaid;
    hide KidRanges;
    hide DevRanges;
    hide Hits;
    hide RouteKids;
    hide InPlace;
    InPlaceLatched(BusRanges(sp, b));
    InPlaceParts(KidRanges(sp, b.children), DevRanges(sp, b.devices));
    InPlaceLatched(DevRanges(sp, b.devices));
    RouteKidsExact(sp, b.children, b.Win(sp).base, a);
    HitsConcat(KidRanges(sp, b.children), DevRanges(sp, b.devices), a);
    LaidOrdered(sp, b);
    NoHits(BusRanges(sp, b), b.Win(sp).base, b.Win(sp).limit + 1, a);
  }

  /** For memory this holds of every tree whose registers have sizes that are powers of two. */
  lemma MemoryRouted(sp: Space, b: Bus, a: nat)
    requires !sp.Io? && Laid(sp, b) && PowerLengths(BusRanges(sp, b))
    ensures Route(sp, b, a) == Hits(AllLatched(BusRanges(sp, b)), a) && |Route(sp, b, a)| <= 1
  {
    hide InPlace;
    LaidOrdered(sp, b);
    MemoryInPlace(sp, BusRanges(sp, b));
    RouteExact(sp, b, a);
  }

  // ----- The passes do not disturb each other -----

  lemma {:induction false} BarRangesKept(sp: Space, sp': Space, d: Dev, d': Dev, i: nat)
    requires sp != sp' && SameDev(sp, d, d') && i <= 6
    ensures BarRanges(sp', d, i) == BarRanges(sp', d', i)
    decreases 6 - i
  {
    hide Wants;
    if i < 6 {
      BarRangesKept(sp, sp', d, d', i + 1);
      if Wants(sp, d.size[i]) && Wants(sp', d.size[i]) { OneSpace(sp, sp', d.size[i]); }
    }
  }

  lemma {:induction false} DevRangesKept(sp: Space, sp': Space, ds: seq<Dev>, ds': seq<Dev>)
    requires sp != sp' && SameDevs(sp, ds, ds')
    ensures DevRanges(sp', ds) == DevRanges(sp', ds')
  {
    hide SameDev;
    hide BarRanges;
    if ds != [] {
      BarRangesKept(sp, sp', ds[0], ds'[0], 0);
      DevRangesKept(sp, sp', ds[1..], ds'[1..]);
    }
  }

  lemma {:induction false} KidsKept(sp: Space, sp': Space, cs: seq<Bus>, cs': seq<Bus>, lo: int)
    requires sp != sp' && SameKids(sp, cs, cs')
    ensures KidRanges(sp', cs) == KidRanges(sp', cs') && KidsEnd(sp', cs, lo) == KidsEnd(sp', cs', lo)
    ensures KidsLaid(sp', cs, lo) ==> KidsLaid(sp', cs', lo)
  {
    hide Laid;
    hide BusRanges;
    if cs != [] {
      BusKept(sp, sp', cs[0], cs'[0]);
      KidsKept(sp, sp', cs[1..], cs'[1..], cs[0].Win(sp').limit + 1);
    }
  }

  /** A pass over one space leaves the registers and the layout of the others as they were. */
  lemma {:induction false} BusKept(sp: Space, sp': Space, b: Bus, b': Bus)
    requires sp != sp' && SameBut(sp, b, b')
    ensures b.Win(sp') == b'.Win(sp') && BusRanges(sp', b) == BusRanges(sp', b')
    ensures Laid(sp', b) ==> Laid(sp', b')
  {
    hide SameKids;
    hide SameDevs;
    hide KidsLaid;
    hide KidRanges;
    hide DevRanges;
    hide KidsEnd;
    hide Ordered;
    hide AllAligned;
    KidsKept(sp, sp', b.children, b'.children, b.Win(sp').base);
    DevRangesKept(sp, sp', b.devices, b'.devices);
  }

  /**
   After the three passes every space is laid out, the I/O window starts at 0x1000 and the memory window at
   0x80000000, and the prefetchable window starts where the memory window ends.
   */
  lemma AllLaid(b: Bus)
    ensures var r := AllocAll(b);
            && Laid(Io, r) && Laid(Mem, r) && Laid(Pref, r)
            && r.io.base == PCI_IO_START && r.mem.base == PCI_MEM_START && r.pref.base == r.mem.limit + 1
            && Ordered(BusRanges(Mem, r) + BusRanges(Pref, r), PCI_MEM_START, r.pref.limit + 1)
  {
    hide Laid;
    hide SameBut;
    hide Ordered;
    hide BusRanges;
    hide AllocBus;
    var b1 := AllocBus(Io, b, PCI_IO_START);
    AllocBusLaid(Io, b, PCI_IO_START);
    var b2 := AllocBus(Mem, b1, PCI_MEM_START);
    AllocBusLaid(Mem, b1, PCI_MEM_START);
    WindowEnd(Mem, b2);
    var p := After(Mem, b2.mem.limit);
    var b3 := AllocBus(Pref, b2, p);
    AllocBusLaid(Pref, b2, p);
    BusKept(Mem, Io, b1, b2);
    BusKept(Pref, Io, b2, b3);
    BusKept(Pref, Mem, b2, b3);
    LaidOrdered(Mem, b3);
    LaidOrdered(Pref, b3);
    OrderedConcat(BusRanges(Mem, b3), BusRanges(Pref, b3), PCI_MEM_START, p, b3.pref.limit + 1);
  }

  // ----- The passes, child by child and device by device -----

  /** Where the window of child i starts, and for i past the last child the address after them all. */
  ghost function KidBase(sp: Space, cs: seq<Bus>, base: nat, i: nat): nat
    requires i <= |cs|
  {
    if i == 0 then base else KidBase(sp, cs[1..], After(sp, AllocBus(sp, cs[0], base).Win(sp).limit), i - 1)
  }

  lemma {:induction false} KidStep(sp: Space, cs: seq<Bus>, base: nat, i: nat)
    requires i < |cs| && 0 < base && base % sp.Align() == 0
    ensures var k := KidBase(sp, cs, base, i);
            && |AllocKids(sp, cs, base).0| == |cs| && AllocKids(sp, cs, base).0[i] == AllocBus(sp, cs[i], k)
            && 0 < k && k % sp.Align() == 0
            && KidBase(sp, cs, base, i + 1) == After(sp, AllocBus(sp, cs[i], k).Win(sp).limit)
            && AllocBus(sp, cs[i], k).Win(sp).limit + 1 <= AllocKids(sp, cs, base).1
  {
    hide Laid;
    hide AllocBus;
    AllocBusLaid(sp, cs[0], base);
    WindowEnd(sp, AllocBus(sp, cs[0], base));
    var n := After(sp, AllocBus(sp, cs[0], base).Win(sp).limit);
    if i == 0 {
      AllocKidsLaid(sp, cs[1..], n);
      KidCount(sp, cs[1..], n);
    } else {
      KidStep(sp, cs[1..], n, i - 1);
    }
  }

  lemma {:induction false} KidCount(sp: Space, cs: seq<Bus>, base: nat)
    ensures |AllocKids(sp, cs, base).0| == |cs| && KidBase(sp, cs, base, |cs|) == AllocKids(sp, cs, base).1
  {
    hide AllocBus;
    if cs != [] { KidCount(sp, cs[1..], After(sp, AllocBus(sp, cs[0], base).Win(sp).limit)); }
  }

  ghost function DevBase(sp: Space, ds: seq<Dev>, base: nat, i: nat): nat
    requires i <= |ds|
  {
    if i == 0 then base else DevBase(sp, ds[1..], AllocBars(sp, ds[0], 0, base).1, i - 1)
  }

  lemma {:induction false} DevStep(sp: Space, ds: seq<Dev>, base: nat, i: nat)
    requires i < |ds| && (sp.Io? ==> base % IO_ALIGN == 0)
    ensures var k := DevBase(sp, ds, base, i);
            && |AllocDevs(sp, ds, base).0| == |ds|
            && AllocBars(sp, ds[i], 0, k) == (AllocDevs(sp, ds, base).0[i], DevBase(sp, ds, base, i + 1))
            && (sp.Io? ==> k % IO_ALIGN == 0)
            && base <= k <= DevBase(sp, ds, base, i + 1) <= AllocDevs(sp, ds, base).1
  {
    hide AllocBars;
    hide SameDev;
    hide Ordered;
    hide BarRanges;
    hide DevRanges;
    hide AllAligned;
    BarsLaid(sp, ds[0], 0, base);
    var n := AllocBars(sp, ds[0], 0, base).1;
    if i == 0 {
      DevsLaid(sp, ds[1..], n);
      DevCount(sp, ds[1..], n);
    } else {
      DevStep(sp, ds[1..], n, i - 1);
    }
  }

  lemma {:induction false} DevCount(sp: Space, ds: seq<Dev>, base: nat)
    ensures |AllocDevs(sp, ds, base).0| == |ds| && DevBase(sp, ds, base, |ds|) == AllocDevs(sp, ds, base).1
  {
    hide AllocBars;
    if ds != [] { DevCount(sp, ds[1..], AllocBars(sp, ds[0], 0, base).1); }
  }
}
