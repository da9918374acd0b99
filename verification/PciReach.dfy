/**
 What the setup of newpci.c leaves in the registers of the hardware, and which of the addresses given out are then
 answered: only the bridges of the root bus are programmed, and I/O registers are not put on multiples of their lengths.
 */
module PciReach {
  import opened Bits
  import opened PciAddress
  import PciBusNumbers
  import opened PciTopology
  import opened PciMachine
  import opened PciScan
  import opened PciLayout
  import opened PciDecode
  import opened PciAlloc

  const NONE := Command(false, false, false)

  // ----- The hardware -----

  /**
   A function whose base address registers are as they should be: each a register or absent, and the upper halves of
   64-bit registers come up as 0.
   */
  ghost predicate WellFormed(f: Function)
  {
    forall reg: nat :: reg < HowMany(f.header) ==> RegisterFormed(f, reg)
  }

  ghost predicate RegisterFormed(f: Function, reg: nat)
    requires reg < 6
  {
    var c := CellAt(f, reg);
    && (UpperHalf(FirstReadings(f), reg + 1) ==> AtFirst(f, reg + 1) == 0)
    && (UpperHalf(FirstReadings(f), reg) || (c.mask == 0 && (c.fixed == 0 || c.fixed == W32 - 1))
        || exists io: bool, k: nat :: IsRegister(c, io, k))
  }

  /** The functions the scan records: on a path of bridges that it looks behind. */
  predicate Recorded(seg: Segment, p: Path)
    decreases p
  {
    p != [] && if |p| == 1 then Found(seg, p[0])
               else p[0] < |seg.slots| && Descended(seg, p[0]) && Recorded(Behind(seg, p[0]), p[1..])
  }

  // ----- The registers after the setup -----

  /** A register of this size is given addresses in one of the passes. */
  predicate Sized(size: Word)
  {
    Wants(Io, size) || Wants(Mem, size) || Wants(Pref, size)
  }

  /** The function at p is programmed with the addresses of d. */
  ghost predicate DeviceSet(root: Segment, s: Setup, p: Path, d: PciLayout.Dev, command: Command)
    requires p != []
  {
    && d.size == Sizes(FunctionAt(root, p), HowMany(FunctionAt(root, p).header))
    && CommandOf(s.command, p) == command.Bits()
    && forall i: nat :: if i < 6 && Sized(d.size[i]) then Latch(root, s.latches, p, i) == d.addr[i]
                        else Reading(root, s.latches, p, i) == AtFirst(FunctionAt(root, p), i)
  }

  predicate InWords(w: Window)
  {
    0 < w.base < W32 && 0 <= w.limit < W32
  }

  /** The window registers of the bridge at p hold the windows of bus c. */
  ghost predicate WindowsSet(s: Setup, p: Path, c: Bus)
  {
    && InWords(c.io) && InWords(c.mem) && InWords(c.pref)
    && WindowAt(s.windows, p, IoBase) == IoByte(c.io.base) && WindowAt(s.windows, p, IoLimit) == IoByte(c.io.limit)
    && WindowAt(s.windows, p, MemoryBase) == MemHalf(c.mem.base)
    && WindowAt(s.windows, p, MemoryLimit) == MemHalf(c.mem.limit)
    && WindowAt(s.windows, p, PrefBase) == MemHalf(c.pref.base)
    && WindowAt(s.windows, p, PrefLimit) == MemHalf(c.pref.limit)
  }

  /** A bridge of the root bus is enabled for everything, every other function for what it was given. */
  function CommandFor(seg: Segment, at: Path, f: nat, size: Words): Command
  {
    if at == [] && Descended(seg, f) then Command(true, true, true) else AllEnabled(size, NONE)
  }

  /** The functions below seg are programmed with the layout b, and if that is the root bus, so are its bridges. */
  ghost predicate BusSet(root: Segment, s: Setup, seg: Segment, at: Path, b: Bus)
    decreases seg, |seg.slots| + 1
  {
    && |b.devices| == |Devices(seg, 0xff)|
    && (forall j :: 0 <= j < |b.devices| ==>
          var f := Devices(seg, 0xff)[j].devfn;
          DeviceSet(root, s, at + [f], b.devices[j], CommandFor(seg, at, f, b.devices[j].size)))
    && KidsSet(root, s, seg, at, b.children, |seg.slots|)
  }

  ghost predicate KidsSet(root: Segment, s: Setup, seg: Segment, at: Path, cs: seq<Bus>, i: nat)
    requires i <= |seg.slots|
    decreases seg, i
  {
    if i == 0 then cs == []
    else if Descended(seg, i - 1) then
      && cs != [] && BusSet(root, s, Behind(seg, i - 1), at + [i - 1], cs[0])
      && (at == [] ==> WindowsSet(s, [i - 1], cs[0]))
      && KidsSet(root, s, seg, at, cs[1..], i - 1)
    else KidsSet(root, s, seg, at, cs, i - 1)
  }

  /** All else is as it came up: other bridges forward what window registers of 0 say, other functions claim nothing. */
  ghost predicate Elsewhere(root: Segment, s: Setup)
  {
    && (forall p: Path, r: WindowRegister :: !(|p| == 1 && Descended(root, p[0])) ==> WindowAt(s.windows, p, r) == 0)
    && (forall p: Path :: p != [] && !Recorded(root, p) ==> CommandOf(s.command, p) == 0)
  }

  /** The machine is set up with a layout. */
  ghost predicate IsSetUp(root: Segment, s: Setup, b: Bus)
  {
    BusSet(root, s, root, [], b) && Elsewhere(root, s)
  }

  // ----- One register -----

  /** A register with a size is one of the hardware's, and its size is its length. */
  lemma SizedRegister(f: Function, reg: nat, sp: Space) returns (k: nat)
    requires WellFormed(f) && reg < 6 && Wants(sp, Sizes(f, HowMany(f.header))[reg])
    ensures reg < HowMany(f.header) && !UpperHalf(FirstReadings(f), reg)
    ensures IsRegister(CellAt(f, reg), sp.Io?, k) && Pow2(k) == Length(sp, Sizes(f, HowMany(f.header))[reg])
  {
    hide And;
    hide Or;
    hide Pow2;
    hide UpperHalf;
    hide SizeWord;
    hide Readback;
    hide IsRegister;
    NoSize(sp);
    assert RegisterFormed(f, reg);
    var c := CellAt(f, reg);
    AbsentSize(c);
    assert !(c.mask == 0 && (c.fixed == 0 || c.fixed == W32 - 1));
    var io: bool, k': nat :| IsRegister(c, io, k');
    k := k';
    RegisterSize(c, io, k, sp);
  }

  lemma NoSize(sp: Space)
    ensures !Wants(sp, 0)
  {
  }

  lemma AbsentSize(c: Cell)
    ensures c.mask == 0 && c.fixed == W32 - 1 ==> Readback(c, c.reset) == W32 - 1
    ensures c.mask == 0 && c.fixed == 0 ==> SizeWord(Readback(c, W32 - 1)) == 0
  {
    hide And;
    hide Or;
    PciBusNumbers.AndNothing(c.reset);
    PciBusNumbers.AndNothing(W32 - 1);
    OrNone(c.fixed);
  }

  lemma OrNone(x: nat)
    ensures Or(0, x) == x
  {
  }

  /** The length the passes see is the length of the register; its space is told by its lowest bit. */
  lemma RegisterSize(c: Cell, io: bool, k: nat, sp: Space)
    requires IsRegister(c, io, k)
    ensures Wants(sp, SizeWord(Readback(c, W32 - 1))) ==>
              sp.Io? == io && Length(sp, SizeWord(Readback(c, W32 - 1))) == Pow2(k)
  {
    hide And;
    hide Or;
    hide Pow2;
    hide SizeWord;
    hide Readback;
    var size := SizeWord(Readback(c, W32 - 1));
    FlagBits(size);
    if io {
      IoCell(c, k);
      PowerBounds(k, 2, 16);
      SumRemainder(Pow2(k), c.fixed, 4);
    } else {
      MemoryCell(c, k);
      PowerBounds(k, 4, 32);
      SumRemainder(Pow2(k), c.fixed, 16);
    }
  }

  lemma SumRemainder(p: nat, f: nat, t: nat)
    requires t > 0 && p % t == 0 && f < t && t % 2 == 0
    ensures (p + f) % t == f && (p + f) % 2 == f % 2
  {
    DivModUnique(p + f, t, p / t, f);
    MulAssoc(p / t, t / 2, 2);
    SameLowBits(p + f, p / t * (t / 2), f, 2);
  }

  /** The addresses given to register i of a device. */
  function Given(sp: Space, d: PciLayout.Dev, i: nat): Range
    requires i < 6
  {
    Range(AddressOf(sp, d.addr[i]), Length(sp, d.size[i]))
  }

  lemma {:induction false} GivenByDevice(sp: Space, d: PciLayout.Dev, i0: nat, i: nat, lo: nat, hi: int)
    requires i0 <= i < 6 && Ordered(BarRanges(sp, d, i0), lo, hi) && Wants(sp, d.size[i])
    ensures lo <= Given(sp, d, i).start && Given(sp, d, i).start + Given(sp, d, i).len <= hi
    decreases i - i0
  {
    hide Wants;
    hide Length;
    hide AddressOf;
    var rs := BarRanges(sp, d, i0);
    if Wants(sp, d.size[i0]) {
      assert rs == [Given(sp, d, i0)] + BarRanges(sp, d, i0 + 1);
      assert rs[1..] == BarRanges(sp, d, i0 + 1);
      OrderedApart(rs, lo, hi);
      if i0 < i { GivenByDevice(sp, d, i0 + 1, i, rs[0].start + rs[0].len, hi); }
    } else {
      assert rs == BarRanges(sp, d, i0 + 1);
      GivenByDevice(sp, d, i0 + 1, i, lo, hi);
    }
  }

  lemma {:induction false} DeviceApart(sp: Space, d: PciLayout.Dev, i0: nat, i: nat, i': nat, lo: nat, hi: int)
    requires i0 <= i < i' < 6 && Ordered(BarRanges(sp, d, i0), lo, hi) && Wants(sp, d.size[i]) && Wants(sp, d.size[i'])
    ensures Given(sp, d, i).start + Given(sp, d, i).len <= Given(sp, d, i').start
    decreases i - i0
  {
    hide Wants;
    hide Length;
    hide AddressOf;
    var rs := BarRanges(sp, d, i0);
    if Wants(sp, d.size[i0]) {
      assert rs == [Given(sp, d, i0)] + BarRanges(sp, d, i0 + 1);
      assert rs[1..] == BarRanges(sp, d, i0 + 1);
      var next := rs[0].start + rs[0].len;
      if i0 < i { DeviceApart(sp, d, i0 + 1, i, i', next, hi); } else { GivenByDevice(sp, d, i0 + 1, i', next, hi); }
    } else {
      assert rs == BarRanges(sp, d, i0 + 1);
      DeviceApart(sp, d, i0 + 1, i, i', lo, hi);
    }
  }

  lemma {:induction false} OrderedSplit(r1: seq<Range>, r2: seq<Range>, lo: nat, hi: int) returns (mid: nat)
    requires Ordered(r1 + r2, lo, hi)
    ensures Ordered(r1, lo, mid) && Ordered(r2, mid, hi) && lo <= mid
  {
    if r1 == [] {
      assert r1 + r2 == r2;
      mid := lo;
    } else {
      assert (r1 + r2)[1..] == r1[1..] + r2;
      mid := OrderedSplit(r1[1..], r2, r1[0].start + r1[0].len, hi);
    }
  }

  lemma {:induction false} GivenOnBus(sp: Space, ds: seq<PciLayout.Dev>, j: nat, i: nat, lo: nat, hi: int)
    requires Ordered(DevRanges(sp, ds), lo, hi) && j < |ds| && i < 6 && Wants(sp, ds[j].size[i])
    ensures lo <= Given(sp, ds[j], i).start && Given(sp, ds[j], i).start + Given(sp, ds[j], i).len <= hi
  {
    hide Wants;
    hide BarRanges;
    hide Ordered;
    hide Length;
    hide AddressOf;
    var mid := OrderedSplit(BarRanges(sp, ds[0], 0), DevRanges(sp, ds[1..]), lo, hi);
    OrderedApart(DevRanges(sp, ds[1..]), mid, hi);
    if j == 0 { GivenByDevice(sp, ds[0], 0, i, lo, mid); } else { GivenOnBus(sp, ds[1..], j - 1, i, mid, hi); }
  }

  /** No two registers of a bus are given the same address. */
  lemma {:induction false} GivenOnce(sp: Space, ds: seq<PciLayout.Dev>, j: nat, i: nat, j': nat, i': nat,
        lo: nat, hi: int, a: nat)
    requires Ordered(DevRanges(sp, ds), lo, hi) && j < |ds| && i < 6 && j' < |ds| && i' < 6
    requires Wants(sp, ds[j].size[i]) && Given(sp, ds[j], i).Has(a)
    requires Wants(sp, ds[j'].size[i']) && Given(sp, ds[j'], i').Has(a)
    ensures j == j' && i == i'
  {
    hide Wants;
    hide BarRanges;
    hide Ordered;
    hide Length;
    hide AddressOf;
    var mid := OrderedSplit(BarRanges(sp, ds[0], 0), DevRanges(sp, ds[1..]), lo, hi);
    if j == 0 && j' == 0 {
      if i < i' { DeviceApart(sp, ds[0], 0, i, i', lo, mid); }
      if i' < i { DeviceApart(sp, ds[0], 0, i', i, lo, mid); }
    } else if j == 0 {
      GivenByDevice(sp, ds[0], 0, i, lo, mid);
      GivenOnBus(sp, ds[1..], j' - 1, i', mid, hi);
    } else if j' == 0 {
      GivenByDevice(sp, ds[0], 0, i', lo, mid);
      GivenOnBus(sp, ds[1..], j - 1, i, mid, hi);
    } else {
      GivenOnce(sp, ds[1..], j - 1, i, j' - 1, i', mid, hi, a);
    }
  }

  /** A register whose address is in its bits claims the addresses it was given and no others. */
  lemma GivenTaken(root: Segment, s: Setup, p: Path, d: PciLayout.Dev, cmd: Command, reg: nat, sp: Space, io: bool,
        a: Word)
    requires p != [] && DeviceSet(root, s, p, d, cmd) && WellFormed(FunctionAt(root, p))
    requires reg < 6 && Wants(sp, d.size[reg]) && TurnedOn(cmd.Bits(), sp.Io?)
    requires And(d.addr[reg], CellAt(FunctionAt(root, p), reg).mask) == AddressOf(sp, d.addr[reg])
    ensures RegisterTakes(root, s, p, reg, io, a) <==> io == sp.Io? && Given(sp, d, reg).Has(a)
  {
    hide And;
    hide UpperHalf;
    hide Wants;
    hide Length;
    hide AddressOf;
    hide Sizes;
    hide Sized;
    hide Command.Bits;
    hide TurnedOn;
    hide WellFormed;
    hide Answers;
    hide FunctionAt;
    hide Reading;
    var f := FunctionAt(root, p);
    var k := SizedRegister(f, reg, sp);
    RegisterFacts(CellAt(f, reg), sp.Io?, k);
    RegisterClaims(CellAt(f, reg), sp.Io?, k, Latch(root, s.latches, p, reg), a);
    SizedFor(sp, d.size[reg]);
    UpperQuiet(root, s, p, d, cmd, reg);
  }

  lemma SizedFor(sp: Space, size: Word)
    ensures Wants(sp, size) ==> Sized(size)
  {
    hide Wants;
  }

  /** The upper half of a 64-bit register is left at 0. */
  lemma UpperQuiet(root: Segment, s: Setup, p: Path, d: PciLayout.Dev, cmd: Command, reg: nat)
    requires p != [] && DeviceSet(root, s, p, d, cmd) && WellFormed(FunctionAt(root, p))
    requires reg < HowMany(FunctionAt(root, p).header)
    ensures UpperHalf(FirstReadings(FunctionAt(root, p)), reg + 1) ==> Reading(root, s.latches, p, reg + 1) == 0
  {
    hide UpperHalf;
    hide FunctionAt;
    hide Reading;
    hide Wants;
    hide SizeWord;
    hide IsRegister;
    var f := FunctionAt(root, p);
    assert RegisterFormed(f, reg);
    NoSize(Io);
    NoSize(Mem);
    NoSize(Pref);
  }

  lemma RegisterFacts(c: Cell, io: bool, k: nat)
    requires IsRegister(c, io, k)
    ensures c.mask != 0 && (c.fixed % 2 == 1 <==> io)
  {
  }

  /** A register that is given no address stays at 0, and claims no memory address from 0x80000000 on and no I/O. */
  lemma UngivenIdle(root: Segment, s: Setup, p: Path, d: PciLayout.Dev, cmd: Command, reg: nat, io: bool, a: Word)
    requires p != [] && DeviceSet(root, s, p, d, cmd) && WellFormed(FunctionAt(root, p))
    requires reg < 6 && !Sized(d.size[reg]) && (io || a >= PCI_MEM_START)
    ensures !RegisterTakes(root, s, p, reg, io, a)
  {
    hide And;
    hide Or;
    hide Pow2;
    hide UpperHalf;
    hide Sizes;
    hide Sized;
    hide Answers;
    hide FunctionAt;
    hide IsRegister;
    var f := FunctionAt(root, p);
    var c := CellAt(f, reg);
    if RegisterTakes(root, s, p, reg, io, a) {
      assert RegisterFormed(f, reg);
      var io': bool, k: nat :| IsRegister(c, io', k);
      RegisterFacts(c, io', k);
      FreshRegister(c, io', k, Latch(root, s.latches, p, reg));
      SizeOf(f, reg);
      if io {
        IoSized(c, k);
      } else {
        RegisterClaims(c, io', k, Latch(root, s.latches, p, reg), a);
        BelowTwoGig(c, k);
      }
    }
  }

  /** A register that reads what it read at first has address 0. */
  lemma FreshRegister(c: Cell, io: bool, k: nat, x: Word)
    requires IsRegister(c, io, k)
    ensures Readback(c, x) == Readback(c, c.reset) ==> And(x, c.mask) == 0
    ensures Readback(c, c.reset) != W32 - 1
  {
    hide And;
    hide Or;
    hide Pow2;
    OrNone(c.fixed);
    Pow2Word();
    RegisterClaims(c, io, k, x, 0);
    var y := And(x, c.mask);
    if io {
      PowerBounds(k, 2, 16);
      FlagsApart(y, Pow2(k), 4);
      OrLow(y, c.fixed, 2);
    } else {
      PowerBounds(k, 4, 32);
      FlagsApart(y, Pow2(k), 16);
      OrLow(y, c.fixed, 4);
    }
  }

  lemma FlagsApart(y: nat, p: nat, t: nat)
    requires p > 0 && t > 0 && y % p == 0 && p % t == 0
    ensures y % t == 0
  {
    MulAssoc(y / p, p / t, t);
    DivModUnique(y, t, y / p * (p / t), 0);
  }

  lemma SizeOf(f: Function, reg: nat)
    requires reg < HowMany(f.header) && !UpperHalf(FirstReadings(f), reg) && AtFirst(f, reg) != W32 - 1
    ensures Sizes(f, HowMany(f.header))[reg] == SizeWord(Readback(CellAt(f, reg), W32 - 1))
  {
  }

  lemma IoSized(c: Cell, k: nat)
    requires IsRegister(c, true, k)
    ensures Sized(SizeWord(Readback(c, W32 - 1)))
  {
    hide And;
    hide Or;
    hide Pow2;
    hide SizeWord;
    hide Readback;
    IoCell(c, k);
    PowerBounds(k, 2, 16);
    SumRemainder(Pow2(k), c.fixed, 4);
    FlagBits(SizeWord(Readback(c, W32 - 1)));
  }

  lemma BelowTwoGig(c: Cell, k: nat)
    requires IsRegister(c, false, k)
    ensures Pow2(k) <= PCI_MEM_START
  {
    hide Pow2;
    Pow2Sixteen();
    Pow2Add(16, 15);
    Pow2Mono(k, 31);
  }

  // ----- One bus -----

  predicate Descends(seg: Segment, at: Path)
    decreases at
  {
    at == [] || (at[0] < |seg.slots| && Descended(seg, at[0]) && Descends(Behind(seg, at[0]), at[1..]))
  }

  lemma {:induction false} RecordedEnd(root: Segment, at: Path, f: nat)
    requires Descends(root, at)
    ensures Recorded(root, at + [f]) <==> Found(SegmentAt(root, at), f)
    decreases at
  {
    hide Found;
    hide Descended;
    if at == [] {
      assert at + [f] == [f];
    } else {
      assert (at + [f])[1..] == at[1..] + [f] && (at + [f])[0] == at[0];
      RecordedEnd(Behind(root, at[0]), at[1..], f);
    }
  }

  /** The bus at a path is set up, on hardware that is as it should be. */
  ghost predicate OnBus(root: Segment, s: Setup, seg: Segment, at: Path, b: Bus)
  {
    && seg == SegmentAt(root, at) && Descends(root, at) && BusSet(root, s, seg, at, b) && Elsewhere(root, s)
    && AllFormed(root)
  }

  ghost predicate AllFormed(root: Segment)
  {
    forall p: Path :: p != [] && Recorded(root, p) ==> WellFormed(FunctionAt(root, p))
  }

  /** Every register of the bus has the address it was given in its bits. */
  ghost predicate Kept(seg: Segment, b: Bus, io: bool)
    requires |b.devices| == |Devices(seg, 0xff)|
  {
    forall j, reg, sp: Space ::
      0 <= j < |b.devices| && 0 <= reg < 6 && sp.Io? == io && Wants(sp, b.devices[j].size[reg]) ==>
        KeptAt(seg, b, j, reg, sp)
  }

  ghost predicate SetKept(seg: Segment, b: Bus, io: bool)
  {
    |b.devices| == |Devices(seg, 0xff)| && Kept(seg, b, io)
  }

  predicate KeptAt(seg: Segment, b: Bus, j: nat, reg: nat, sp: Space)
    requires |b.devices| == |Devices(seg, 0xff)| && j < |b.devices| && reg < 6
  {
    And(b.devices[j].addr[reg], CellAt(At(seg, Devices(seg, 0xff)[j].devfn), reg).mask)
    == AddressOf(sp, b.devices[j].addr[reg])
  }

  lemma CommandOn(seg: Segment, at: Path, f: nat, size: Words, reg: nat, sp: Space)
    requires reg < 6 && Wants(sp, size[reg])
    ensures TurnedOn(CommandFor(seg, at, f, size).Bits(), sp.Io?)
  {
    hide Wants;
    hide Descended;
  }

  /** Register reg of device j claims exactly what it was given. */
  lemma DeviceTakes(root: Segment, s: Setup, seg: Segment, at: Path, b: Bus, j: nat, reg: nat, sp: Space, io: bool,
        a: Word)
    requires OnBus(root, s, seg, at, b) && j < |b.devices| && reg < 6 && Wants(sp, b.devices[j].size[reg])
    requires KeptAt(seg, b, j, reg, sp)
    ensures Takes(root, s, at, io, a, Register(Devices(seg, 0xff)[j].devfn, reg))
            <==> io == sp.Io? && Given(sp, b.devices[j], reg).Has(a)
  {
    hide Found;
    hide DeviceSet;
    hide RegisterTakes;
    hide WellFormed;
    hide CommandFor;
    hide TurnedOn;
    hide Wants;
    hide And;
    hide AddressOf;
    hide Devices;
    hide SegmentAt;
    hide KidsSet;
    DevicesAre(seg, 0xff);
    var f := Devices(seg, 0xff)[j].devfn;
    assert IsDev(seg, 0xff, Devices(seg, 0xff)[j]);
    FunctionIs(root, at, f);
    RecordedEnd(root, at, f);
    var size := b.devices[j].size;
    CommandOn(seg, at, f, size, reg, sp);
    GivenTaken(root, s, at + [f], b.devices[j], CommandFor(seg, at, f, size), reg, sp, io, a);
  }

  lemma NeedsCommand(root: Segment, s: Setup, p: Path, reg: nat, io: bool, a: Word)
    requires p != [] && RegisterTakes(root, s, p, reg, io, a)
    ensures CommandOf(s.command, p) != 0 && reg < 6
  {
  }

  function SpaceOf(size: Word): (sp: Space)
    requires Sized(size)
    ensures Wants(sp, size)
  {
    if Wants(Io, size) then Io else if Wants(Mem, size) then Mem else Pref
  }

  /** A register is claimed for the kind of access its size tells of. */
  lemma TakenSpace(root: Segment, s: Setup, p: Path, d: PciLayout.Dev, cmd: Command, reg: nat, sp: Space, io: bool,
        a: Word)
    requires p != [] && DeviceSet(root, s, p, d, cmd) && WellFormed(FunctionAt(root, p))
    requires reg < 6 && Wants(sp, d.size[reg]) && RegisterTakes(root, s, p, reg, io, a)
    ensures sp.Io? == io
  {
    hide Wants;
    hide WellFormed;
    hide Sizes;
    hide UpperHalf;
    hide Answers;
    hide Reading;
    hide FunctionAt;
    var k := SizedRegister(FunctionAt(root, p), reg, sp);
    RegisterFacts(CellAt(FunctionAt(root, p), reg), sp.Io?, k);
  }

  /** And nothing else on the bus claims anything the passes give out. */
  lemma TakerGiven(root: Segment, s: Setup, seg: Segment, at: Path, b: Bus, f: nat, reg: nat, io: bool, a: Word)
    returns (j: nat, sp: Space)
    requires OnBus(root, s, seg, at, b) && SetKept(seg, b, io) && (io || a >= PCI_MEM_START)
    requires Takes(root, s, at, io, a, Register(f, reg))
    ensures j < |b.devices| && Devices(seg, 0xff)[j].devfn == f && reg < 6
    ensures sp.Io? == io && Wants(sp, b.devices[j].size[reg]) && Given(sp, b.devices[j], reg).Has(a)
  {
    hide Found;
    hide DeviceSet;
    hide WellFormed;
    hide CommandFor;
    hide Wants;
    hide And;
    hide AddressOf;
    hide Devices;
    hide SegmentAt;
    hide KidsSet;
    hide KeptAt;
    hide Sized;
    hide Recorded;
    hide Descends;
    NeedsCommand(root, s, at + [f], reg, io, a);
    RecordedEnd(root, at, f);
    FoundInside(seg, f);
    j := DeviceOf(seg, 0xff, f);
    FunctionIs(root, at, f);
    var size := b.devices[j].size;
    if !Sized(size[reg]) {
      UngivenIdle(root, s, at + [f], b.devices[j], CommandFor(seg, at, f, size), reg, io, a);
    }
    sp := SpaceOf(size[reg]);
    TakenSpace(root, s, at + [f], b.devices[j], CommandFor(seg, at, f, size), reg, sp, io, a);
    assert KeptAt(seg, b, j, reg, sp);
    DeviceTakes(root, s, seg, at, b, j, reg, sp, io, a);
  }

  // ----- The bridges of a bus -----

  /** How many bridges that are looked behind come after slot d. */
  function Later(seg: Segment, i: nat, d: nat): nat
    requires i <= |seg.slots|
  {
    if i <= d + 1 then 0 else Later(seg, i - 1, d) + if Descended(seg, i - 1) then 1 else 0
  }

  lemma {:induction false} LaterFewer(seg: Segment, i: nat, d: nat, d': nat)
    requires d < d' < i <= |seg.slots| && Descended(seg, d')
    ensures Later(seg, i, d') < Later(seg, i, d)
  {
    hide Descended;
    if d' < i - 1 { LaterFewer(seg, i - 1, d, d'); }
  }

  /** The bus behind bridge d comes after those of later bridges. */
  lemma {:induction false} KidAt(root: Segment, s: Setup, seg: Segment, at: Path, cs: seq<Bus>, i: nat, d: nat)
    requires d < i <= |seg.slots| && Descended(seg, d) && KidsSet(root, s, seg, at, cs, i)
    ensures Later(seg, i, d) < |cs| && BusSet(root, s, Behind(seg, d), at + [d], cs[Later(seg, i, d)])
    ensures at == [] ==> WindowsSet(s, [d], cs[Later(seg, i, d)])
    decreases i
  {
    hide Descended;
    hide BusSet;
    hide WindowsSet;
    if d < i - 1 {
      KidAt(root, s, seg, at, if Descended(seg, i - 1) then cs[1..] else cs, i - 1, d);
    }
  }

  /** The bus behind bridge d of the root bus. */
  function KidOf(seg: Segment, b: Bus, d: nat): Bus
    requires Later(seg, |seg.slots|, d) < |b.children|
  {
    b.children[Later(seg, |seg.slots|, d)]
  }

  lemma {:induction false} WindowsRise(sp: Space, cs: seq<Bus>, lo: int, k: nat, k': nat)
    requires KidsLaid(sp, cs, lo) && k < k' < |cs|
    ensures cs[k].Win(sp).limit < cs[k'].Win(sp).base
  {
    hide Laid;
    WindowEnd(sp, cs[0]);
    if k == 0 {
      KidLaid(sp, cs[1..], cs[0].Win(sp).limit + 1, k' - 1);
    } else {
      WindowsRise(sp, cs[1..], cs[0].Win(sp).limit + 1, k - 1, k' - 1);
    }
  }

  /** Windows of different bridges of the root bus have nothing in common. */
  lemma WindowsApart(root: Segment, sp: Space, b: Bus, d: nat, d': nat)
    requires Laid(sp, b) && d < |root.slots| && d' < |root.slots| && d != d'
    requires Descended(root, d) && Descended(root, d')
    requires Later(root, |root.slots|, d) < |b.children| && Later(root, |root.slots|, d') < |b.children|
    ensures var w, w' := KidOf(root, b, d).Win(sp), KidOf(root, b, d').Win(sp); w.limit < w'.base || w'.limit < w.base
  {
    hide KidsLaid;
    hide Descended;
    hide Later;
    hide Ordered;
    var n := |root.slots|;
    if d < d' {
      LaterFewer(root, n, d, d');
      WindowsRise(sp, b.children, b.Win(sp).base, Later(root, n, d'), Later(root, n, d));
    } else {
      LaterFewer(root, n, d', d);
      WindowsRise(sp, b.children, b.Win(sp).base, Later(root, n, d), Later(root, n, d'));
    }
  }

  /** The window of a bus behind a bridge is inside, and ends where the registers of the bus itself begin. */
  lemma WindowInside(sp: Space, b: Bus, k: nat)
    requires Laid(sp, b) && k < |b.children|
    ensures Laid(sp, b.children[k]) && b.Win(sp).base <= b.children[k].Win(sp).base
    ensures b.children[k].Win(sp).limit < KidsEnd(sp, b.children, b.Win(sp).base) <= b.Win(sp).limit + 1
  {
    hide KidsLaid;
    hide Ordered;
    hide KidsEnd;
    KidLaid(sp, b.children, b.Win(sp).base, k);
    var e := KidsEnd(sp, b.children, b.Win(sp).base);
    OrderedApart(DevRanges(sp, b.devices), e, b.Win(sp).limit + 1);
  }

  lemma LaidParts(sp: Space, b: Bus)
    requires Laid(sp, b)
    ensures 0 < b.Win(sp).base <= b.Win(sp).limit + 1 && KidsLaid(sp, b.children, b.Win(sp).base)
    ensures 0 <= KidsEnd(sp, b.children, b.Win(sp).base)
    ensures Ordered(DevRanges(sp, b.devices), KidsEnd(sp, b.children, b.Win(sp).base), b.Win(sp).limit + 1)
  {
    hide KidsLaid;
    hide KidsEnd;
    hide Ordered;
    hide DevRanges;
    hide AllAligned;
  }

  lemma WindowAligned(sp: Space, b: Bus)
    requires Laid(sp, b)
    ensures 0 < b.Win(sp).base <= b.Win(sp).limit + 1
    ensures b.Win(sp).base % sp.Align() == 0 && (b.Win(sp).limit + 1) % sp.Align() == 0
  {
    hide KidsLaid;
    hide KidsEnd;
    hide Ordered;
    hide DevRanges;
    hide AllAligned;
  }

  lemma OwnInside(sp: Space, b: Bus, j: nat, reg: nat)
    requires Laid(sp, b) && j < |b.devices| && reg < 6 && Wants(sp, b.devices[j].size[reg])
    ensures var r := Given(sp, b.devices[j], reg);
      0 < b.Win(sp).base <= KidsEnd(sp, b.children, b.Win(sp).base) <= r.start && r.start + r.len <= b.Win(sp).limit + 1
  {
    hide *;
    LaidParts(sp, b);
    KidsRise(sp, b.children, b.Win(sp).base);
    GivenOnBus(sp, b.devices, j, reg, KidsEnd(sp, b.children, b.Win(sp).base), b.Win(sp).limit + 1);
  }

  /** All spaces are laid out, I/O from 0x1000 and memory from 0x80000000, and the memory windows are apart. */
  ghost predicate AllSpaces(b: Bus)
  {
    && Laid(Io, b) && Laid(Mem, b) && Laid(Pref, b)
    && PCI_IO_START <= b.io.base && PCI_MEM_START <= b.mem.base && b.mem.limit < b.pref.base
    && b.io.limit < W32 && b.pref.limit < W32
  }

  lemma KidSpaces(b: Bus, k: nat)
    requires AllSpaces(b) && k < |b.children|
    ensures AllSpaces(b.children[k])
  {
    hide Laid;
    hide KidsEnd;
    WindowInside(Io, b, k);
    WindowInside(Mem, b, k);
    WindowInside(Pref, b, k);
    WindowEnd(Mem, b.children[k]);
    WindowEnd(Pref, b.children[k]);
    WindowEnd(Pref, b);
    WindowEnd(Mem, b);
  }

  lemma SpaceStart(b: Bus, sp: Space)
    requires AllSpaces(b)
    ensures b.Win(sp).base >= if sp.Io? then PCI_IO_START else PCI_MEM_START
    ensures b.Win(sp).limit < W32
  {
    hide Laid;
    WindowEnd(Mem, b);
    WindowEnd(Pref, b);
  }

  /** An address is in the window of at most one space of its kind. */
  lemma OneWindow(b: Bus, sp: Space, sp': Space, a: nat)
    requires AllSpaces(b) && sp.Io? == sp'.Io?
    requires b.Win(sp).base <= a <= b.Win(sp).limit && b.Win(sp').base <= a <= b.Win(sp').limit
    ensures sp == sp'
  {
    hide Laid;
    WindowEnd(Mem, b);
    WindowEnd(Pref, b);
  }

  /** A window register of 0 forwards nothing that is given out. */
  lemma BridgeIdle(root: Segment, s: Setup, p: Path, io: bool, a: Word)
    requires p != [] && Elsewhere(root, s) && !(|p| == 1 && Descended(root, p[0]))
    requires a >= if io then PCI_IO_START else PCI_MEM_START
    ensures !BridgeTakes(root, s, p, io, a)
  {
    hide Descended;
  }

  /** On a bus whose bridges do not claim it, exactly the register that was given an address claims it. */
  lemma OnlyRegister(root: Segment, s: Setup, seg: Segment, at: Path, b: Bus, j: nat, reg: nat, sp: Space, a: Word)
    requires OnBus(root, s, seg, at, b) && SetKept(seg, b, sp.Io?) && AllSpaces(b)
    requires j < |b.devices| && reg < 6 && Wants(sp, b.devices[j].size[reg]) && Given(sp, b.devices[j], reg).Has(a)
    requires forall d :: !Takes(root, s, at, sp.Io?, a, Bridge(d))
    ensures Only(root, s, at, sp.Io?, a, Register(Devices(seg, 0xff)[j].devfn, reg))
  {
    hide OnBus;
    hide Takes;
    hide Laid;
    hide Wants;
    hide KeptAt;
    hide AddressOf;
    hide Length;
    hide KidsEnd;
    hide Devices;
    OwnInside(sp, b, j, reg);
    SpaceStart(b, sp);
    SetCount(root, s, seg, at, b);
    assert KeptAt(seg, b, j, reg, sp);
    DeviceTakes(root, s, seg, at, b, j, reg, sp, sp.Io?, a);
    var g0 := Register(Devices(seg, 0xff)[j].devfn, reg);
    forall g | Takes(root, s, at, sp.Io?, a, g)
      ensures g == g0
    {
      match g {
        case Bridge(d) =>
        case Register(f, reg') =>
          var j', sp' := TakerGiven(root, s, seg, at, b, f, reg', sp.Io?, a);
          OwnInside(sp', b, j', reg');
          OneWindow(b, sp, sp', a);
          GivenTwice(sp, b, j, reg, j', reg', a);
      }
    }
  }

  lemma SetCount(root: Segment, s: Setup, seg: Segment, at: Path, b: Bus)
    requires OnBus(root, s, seg, at, b)
    ensures |b.devices| == |Devices(seg, 0xff)|
  {
    hide KidsSet;
  }

  lemma GivenTwice(sp: Space, b: Bus, j: nat, i: nat, j': nat, i': nat, a: nat)
    requires Laid(sp, b) && j < |b.devices| && i < 6 && j' < |b.devices| && i' < 6
    requires Wants(sp, b.devices[j].size[i]) && Given(sp, b.devices[j], i).Has(a)
    requires Wants(sp, b.devices[j'].size[i']) && Given(sp, b.devices[j'], i').Has(a)
    ensures j == j' && i == i'
  {
    hide *;
    LaidParts(sp, b);
    GivenOnce(sp, b.devices, j, i, j', i', KidsEnd(sp, b.children, b.Win(sp).base), b.Win(sp).limit + 1, a);
  }

  lemma {:induction false} DescendsMore(root: Segment, at: Path, d: nat)
    requires Descends(root, at) && d < |SegmentAt(root, at).slots| && Descended(SegmentAt(root, at), d)
    ensures Descends(root, at + [d]) && SegmentAt(root, at + [d]) == Behind(SegmentAt(root, at), d)
    decreases at
  {
    hide Descended;
    if at == [] {
      assert at + [d] == [d];
    } else {
      assert (at + [d])[1..] == at[1..] + [d] && (at + [d])[0] == at[0];
      DescendsMore(Behind(root, at[0]), at[1..], d);
    }
  }

  /** From a bus to one behind it. */
  lemma KidOnBus(root: Segment, s: Setup, seg: Segment, at: Path, b: Bus, d: nat)
    requires OnBus(root, s, seg, at, b) && d < |seg.slots| && Descended(seg, d)
    ensures Later(seg, |seg.slots|, d) < |b.children|
    ensures OnBus(root, s, Behind(seg, d), at + [d], KidOf(seg, b, d))
    ensures at == [] ==> WindowsSet(s, [d], KidOf(seg, b, d))
  {
    hide Descended;
    hide DeviceSet;
    hide KidsSet;
    hide WindowsSet;
    hide Elsewhere;
    hide AllFormed;
    hide Descends;
    KidAt(root, s, seg, at, b.children, |seg.slots|, d);
    DescendsMore(root, at, d);
  }

  // ----- The bridges of the root bus -----

  /** They are enabled. */
  lemma RootBridge(root: Segment, s: Setup, b: Bus, d: nat)
    requires OnBus(root, s, root, [], b) && d < |root.slots| && Descended(root, d)
    ensures CommandOf(s.command, [d]) == 7 && IsBridge(FunctionAt(root, [d]))
  {
    hide KidsSet;
    hide Devices;
    FoundInside(root, d);
    var j := DeviceOf(root, 0xff, d);
    assert [] + [d] == [d];
    FunctionIs(root, [], d);
  }

  predicate Forwards(c: Bus, io: bool, a: Word)
    requires InWords(c.io)
  {
    if io then IoDecodes(IoByte(c.io.base), IoByte(c.io.limit), a)
    else c.mem.base <= a <= c.mem.limit || c.pref.base <= a <= c.pref.limit
  }

  /** They forward what their windows hold, for I/O as far as the registers show it. */
  lemma BridgeForwards(root: Segment, s: Setup, b: Bus, d: nat, io: bool, a: Word)
    requires OnBus(root, s, root, [], b) && AllSpaces(b) && d < |root.slots| && Descended(root, d)
    ensures Later(root, |root.slots|, d) < |b.children|
    ensures InWords(KidOf(root, b, d).io) && (BridgeTakes(root, s, [d], io, a) <==> Forwards(KidOf(root, b, d), io, a))
  {
    hide OnBus;
    hide Laid;
    hide Descended;
    hide IoDecodes;
    hide MemDecodes;
    hide IoByte;
    hide MemHalf;
    hide AllSpaces;
    hide FunctionAt;
    hide WindowsSet;
    hide WindowAt;
    hide Later;
    KidOnBus(root, s, root, [], b, d);
    var c := KidOf(root, b, d);
    KidWindows(b, Later(root, |root.slots|, d));
    RootBridge(root, s, b, d);
    WindowsForward(s, [d], c, a);
  }

  lemma KidWindows(b: Bus, k: nat)
    requires AllSpaces(b) && k < |b.children|
    ensures var c := b.children[k];
      && PCI_IO_START <= c.io.base <= c.io.limit + 1 <= W32
      && c.io.base % IO_BRIDGE_ALIGN == 0 && (c.io.limit + 1) % IO_BRIDGE_ALIGN == 0
      && c.mem.base % ONEMEG == 0 && (c.mem.limit + 1) % ONEMEG == 0 && c.mem.base <= c.mem.limit + 1
      && c.pref.base % ONEMEG == 0 && (c.pref.limit + 1) % ONEMEG == 0 && c.pref.base <= c.pref.limit + 1
  {
    hide Laid;
    var c := b.children[k];
    KidSpaces(b, k);
    WindowAligned(Io, c);
    WindowAligned(Mem, c);
    WindowAligned(Pref, c);
  }

  lemma WindowsForward(s: Setup, p: Path, c: Bus, a: Word)
    requires WindowsSet(s, p, c)
    requires c.mem.base % ONEMEG == 0 && (c.mem.limit + 1) % ONEMEG == 0 && c.mem.base <= c.mem.limit + 1
    requires c.pref.base % ONEMEG == 0 && (c.pref.limit + 1) % ONEMEG == 0 && c.pref.base <= c.pref.limit + 1
    ensures MemDecodes(WindowAt(s.windows, p, MemoryBase), WindowAt(s.windows, p, MemoryLimit), a)
            <==> c.mem.base <= a <= c.mem.limit
    ensures MemDecodes(WindowAt(s.windows, p, PrefBase), WindowAt(s.windows, p, PrefLimit), a)
            <==> c.pref.base <= a <= c.pref.limit
    ensures InWords(c.io) && WindowAt(s.windows, p, IoBase) == IoByte(c.io.base)
            && WindowAt(s.windows, p, IoLimit) == IoByte(c.io.limit)
  {
    hide MemDecodes;
    hide IoByte;
    hide MemHalf;
    hide WindowAt;
    MemWindow(c.mem.base, c.mem.limit);
    MemWindow(c.pref.base, c.pref.limit);
  }

  /** Every I/O window of the root bus's bridges is below 64K. */
  predicate Within64K(b: Bus)
  {
    forall k :: 0 <= k < |b.children| ==> b.children[k].io.base < 0x1_0000 && b.children[k].io.limit < 0x1_0000
  }

  /** Then they forward exactly their windows. */
  lemma ForwardsExactly(root: Segment, s: Setup, b: Bus, d: nat, io: bool, a: Word)
    requires OnBus(root, s, root, [], b) && AllSpaces(b) && d < |root.slots| && Descended(root, d)
    requires io ==> Within64K(b)
    ensures Later(root, |root.slots|, d) < |b.children|
    ensures BridgeTakes(root, s, [d], io, a) <==>
            exists sp: Space :: sp.Io? == io && KidOf(root, b, d).Win(sp).base <= a <= KidOf(root, b, d).Win(sp).limit
  {
    hide OnBus;
    hide Laid;
    hide Descended;
    hide IoDecodes;
    hide IoByte;
    hide BridgeTakes;
    BridgeForwards(root, s, b, d, io, a);
    var c := KidOf(root, b, d);
    KidWindows(b, Later(root, |root.slots|, d));
    if io {
      IoWindow(c.io.base, c.io.limit);
      assert c.Win(Io) == c.io;
    } else {
      assert c.Win(Mem) == c.mem && c.Win(Pref) == c.pref;
    }
  }

  lemma RootBridgesOnly(root: Segment, s: Setup, b: Bus, d: nat, io: bool, a: Word)
    requires OnBus(root, s, root, [], b) && AllSpaces(b) && a >= if io then PCI_IO_START else PCI_MEM_START
    requires Takes(root, s, [], io, a, Bridge(d))
    ensures d < |root.slots| && Descended(root, d) && BridgeTakes(root, s, [d], io, a)
  {
    hide Descended;
    hide BridgeTakes;
    assert [] + [d] == [d];
    if !Descended(root, d) { BridgeIdle(root, s, [d], io, a); } else { DescendedInside(root, d); }
  }

  lemma DescendedInside(seg: Segment, d: nat)
    requires Descended(seg, d)
    ensures d < |seg.slots|
  {
    FoundInside(seg, d);
  }

  // ----- Registers by their functions -----

  function SizesAt(root: Segment, p: Path): Words
    requires p != []
  {
    Sizes(FunctionAt(root, p), HowMany(FunctionAt(root, p).header))
  }

  /** A register of the space, of a function the scan records. */
  predicate Wanted(root: Segment, p: Path, reg: nat, sp: Space)
  {
    p != [] && Recorded(root, p) && reg < 6 && Wants(sp, SizesAt(root, p)[reg])
  }

  /** The addresses it is given: from what was written to it, as many as its size says. */
  function GivenAt(root: Segment, s: Setup, p: Path, reg: nat, sp: Space): Range
    requires p != [] && reg < 6
  {
    Range(AddressOf(sp, Latch(root, s.latches, p, reg)), Length(sp, SizesAt(root, p)[reg]))
  }

  lemma DeviceAt(root: Segment, s: Setup, seg: Segment, at: Path, b: Bus, j: nat, reg: nat, sp: Space)
    requires OnBus(root, s, seg, at, b) && j < |b.devices| && |b.devices| == |Devices(seg, 0xff)| && reg < 6
    ensures var f := Devices(seg, 0xff)[j].devfn;
      && Recorded(root, at + [f]) && FunctionAt(root, at + [f]) == At(seg, f)
      && b.devices[j].size == SizesAt(root, at + [f])
      && (Wants(sp, b.devices[j].size[reg]) ==>
            && Latch(root, s.latches, at + [f], reg) == b.devices[j].addr[reg]
            && Given(sp, b.devices[j], reg) == GivenAt(root, s, at + [f], reg, sp))
  {
    hide Found;
    hide Wants;
    hide Sizes;
    hide Devices;
    hide SegmentAt;
    hide FunctionAt;
    hide KidsSet;
    hide Sized;
    hide Elsewhere;
    hide AllFormed;
    hide AddressOf;
    hide Length;
    DevicesAre(seg, 0xff);
    var f := Devices(seg, 0xff)[j].devfn;
    assert IsDev(seg, 0xff, Devices(seg, 0xff)[j]);
    FunctionIs(root, at, f);
    RecordedEnd(root, at, f);
    SizedFor(sp, b.devices[j].size[reg]);
  }

  lemma FoundAt(root: Segment, s: Setup, seg: Segment, at: Path, b: Bus, f: nat, reg: nat, sp: Space) returns (j: nat)
    requires OnBus(root, s, seg, at, b) && Wanted(root, at + [f], reg, sp)
    ensures j < |b.devices| && |b.devices| == |Devices(seg, 0xff)| && Devices(seg, 0xff)[j].devfn == f && reg < 6
    ensures Wants(sp, b.devices[j].size[reg]) && Given(sp, b.devices[j], reg) == GivenAt(root, s, at + [f], reg, sp)
  {
    hide Found;
    hide Wants;
    hide SizesAt;
    hide Devices;
    hide SegmentAt;
    hide FunctionAt;
    hide BusSet;
    hide GivenAt;
    hide Given;
    SetCount(root, s, seg, at, b);
    RecordedEnd(root, at, f);
    FoundInside(seg, f);
    j := DeviceOf(seg, 0xff, f);
    DeviceAt(root, s, seg, at, b, j, reg, sp);
  }

  /** What is given out is in the window of every bus above. */
  lemma {:induction false} GivenInside(root: Segment, s: Setup, seg: Segment, at: Path, b: Bus, q: Path, reg: nat,
        sp: Space)
    requires OnBus(root, s, seg, at, b) && AllSpaces(b) && Recorded(seg, q) && Wanted(root, at + q, reg, sp)
    ensures var r := GivenAt(root, s, at + q, reg, sp);
      b.Win(sp).base <= r.start && r.start + r.len <= b.Win(sp).limit + 1
    decreases q
  {
    hide OnBus;
    hide Laid;
    hide Found;
    hide Descended;
    hide GivenAt;
    hide Given;
    hide KidsEnd;
    hide Later;
    if |q| == 1 {
      assert q == [q[0]];
      var j := FoundAt(root, s, seg, at, b, q[0], reg, sp);
      OwnInside(sp, b, j, reg);
    } else {
      var d := q[0];
      assert at + q == at + [d] + q[1..];
      KidOnBus(root, s, seg, at, b, d);
      var k := Later(seg, |seg.slots|, d);
      KidSpaces(b, k);
      WindowInside(sp, b, k);
      GivenInside(root, s, Behind(seg, d), at + [d], KidOf(seg, b, d), q[1..], reg, sp);
    }
  }

  // ----- What is answered -----

  /** Exactly the bridge whose window holds the address claims it on the root bus. */
  lemma OnlyBridge(root: Segment, s: Setup, b: Bus, d: nat, sp: Space, a: Word)
    requires OnBus(root, s, root, [], b) && AllSpaces(b) && SetKept(root, b, sp.Io?) && (sp.Io? ==> Within64K(b))
    requires d < |root.slots| && Descended(root, d) && Later(root, |root.slots|, d) < |b.children|
    requires KidOf(root, b, d).Win(sp).base <= a <= KidOf(root, b, d).Win(sp).limit
    ensures Only(root, s, [], sp.Io?, a, Bridge(d))
  {
    hide OnBus;
    hide Laid;
    hide Descended;
    hide BridgeTakes;
    hide RegisterTakes;
    hide KidsEnd;
    hide Later;
    hide Wants;
    hide Given;
    hide Kept;
    hide Within64K;
    assert [] + [d] == [d];
    var k := Later(root, |root.slots|, d);
    WindowInside(sp, b, k);
    SpaceStart(b, sp);
    ForwardsExactly(root, s, b, d, sp.Io?, a);
    forall g | Takes(root, s, [], sp.Io?, a, g)
      ensures g == Bridge(d)
    {
      match g {
        case Bridge(d') =>
          RootBridgesOnly(root, s, b, d', sp.Io?, a);
          ForwardsExactly(root, s, b, d', sp.Io?, a);
          var sp': Space :| sp'.Io? == sp.Io?
                            && KidOf(root, b, d').Win(sp').base <= a <= KidOf(root, b, d').Win(sp').limit;
          WindowInside(sp', b, Later(root, |root.slots|, d'));
          OneWindow(b, sp, sp', a);
          if d' != d { WindowsApart(root, sp, b, d, d'); }
        case Register(f, reg') =>
          var j', sp' := TakerGiven(root, s, root, [], b, f, reg', sp.Io?, a);
          OwnInside(sp', b, j', reg');
          OwnHas(sp', b, j', reg', a);
          OneWindow(b, sp, sp', a);
      }
    }
  }

  lemma OwnHas(sp: Space, b: Bus, j: nat, reg: nat, a: nat)
    requires Laid(sp, b) && j < |b.devices| && reg < 6 && Wants(sp, b.devices[j].size[reg])
    requires Given(sp, b.devices[j], reg).Has(a)
    ensures b.Win(sp).base <= KidsEnd(sp, b.children, b.Win(sp).base) <= a <= b.Win(sp).limit
  {
    hide Laid;
    hide Wants;
    hide KidsEnd;
    OwnInside(sp, b, j, reg);
  }

  /** An address given to a register of the root bus reaches it. */
  lemma ArrivesHere(root: Segment, s: Setup, b: Bus, f: nat, reg: nat, sp: Space, a: Word)
    requires OnBus(root, s, root, [], b) && AllSpaces(b) && SetKept(root, b, sp.Io?) && (sp.Io? ==> Within64K(b))
    requires Wanted(root, [f], reg, sp) && GivenAt(root, s, [f], reg, sp).Has(a)
    ensures Answered(root, s, sp.Io?, a, [f], reg)
  {
    hide OnBus;
    hide Laid;
    hide Descended;
    hide Found;
    hide Takes;
    hide Wanted;
    hide KidsEnd;
    hide Later;
    hide Wants;
    hide Given;
    hide GivenAt;
    hide Kept;
    hide Within64K;
    hide Only;
    hide BridgeTakes;
    assert [] + [f] == [f];
    var j := FoundAt(root, s, root, [], b, f, reg, sp);
    OwnHas(sp, b, j, reg, a);
    SpaceStart(b, sp);
    forall d
      ensures !Takes(root, s, [], sp.Io?, a, Bridge(d))
    {
      if Takes(root, s, [], sp.Io?, a, Bridge(d)) {
        RootBridgesOnly(root, s, b, d, sp.Io?, a);
        ForwardsExactly(root, s, b, d, sp.Io?, a);
        var sp': Space :| sp'.Io? == sp.Io? && KidOf(root, b, d).Win(sp').base <= a <= KidOf(root, b, d).Win(sp').limit;
        WindowInside(sp', b, Later(root, |root.slots|, d));
        OneWindow(b, sp, sp', a);
      }
    }
    OnlyRegister(root, s, root, [], b, j, reg, sp, a);
    assert [f][..0] == [];
  }

  /** And so does one given to a register behind a bridge of the root bus. */
  lemma ArrivesBehind(root: Segment, s: Setup, b: Bus, d: nat, f: nat, reg: nat, sp: Space, a: Word)
    requires OnBus(root, s, root, [], b) && AllSpaces(b) && SetKept(root, b, sp.Io?) && (sp.Io? ==> Within64K(b))
    requires d < |root.slots| && Descended(root, d) && Later(root, |root.slots|, d) < |b.children|
    requires SetKept(Behind(root, d), KidOf(root, b, d), sp.Io?)
    requires Wanted(root, [d, f], reg, sp) && GivenAt(root, s, [d, f], reg, sp).Has(a)
    ensures Answered(root, s, sp.Io?, a, [d, f], reg)
  {
    hide OnBus;
    hide Laid;
    hide Descended;
    hide Found;
    hide Takes;
    hide Wanted;
    hide KidsEnd;
    hide Later;
    hide Wants;
    hide Given;
    hide GivenAt;
    hide Kept;
    hide Within64K;
    hide Only;
    hide BridgeTakes;
    assert [] + [d] == [d] && [d] + [f] == [d, f];
    KidOnBus(root, s, root, [], b, d);
    var c := KidOf(root, b, d);
    KidSpaces(b, Later(root, |root.slots|, d));
    var j := FoundAt(root, s, Behind(root, d), [d], c, f, reg, sp);
    OwnHas(sp, c, j, reg, a);
    SpaceStart(c, sp);
    OnlyBridge(root, s, b, d, sp, a);
    forall e
      ensures !Takes(root, s, [d], sp.Io?, a, Bridge(e))
    {
      DeepBridge(root, s, b, d, e, sp.Io?, a);
    }
    OnlyRegister(root, s, Behind(root, d), [d], c, j, reg, sp, a);
    assert [d, f][..0] == [] && [d, f][..1] == [d];
  }

  /** A bridge behind another forwards nothing that is given out. */
  lemma DeepBridge(root: Segment, s: Setup, b: Bus, d: nat, e: nat, io: bool, a: Word)
    requires OnBus(root, s, root, [], b) && a >= if io then PCI_IO_START else PCI_MEM_START
    ensures !Takes(root, s, [d], io, a, Bridge(e))
  {
    hide BridgeTakes;
    hide BusSet;
    BridgeIdle(root, s, [d] + [e], io, a);
  }

  // ----- Memory -----

  lemma {:induction false} GivenListed(sp: Space, ds: seq<PciLayout.Dev>, j: nat, i: nat)
    requires j < |ds| && i < 6 && Wants(sp, ds[j].size[i])
    ensures Given(sp, ds[j], i) in DevRanges(sp, ds)
  {
    hide Wants;
    hide BarRanges;
    hide Given;
    if j == 0 { GivenFrom(sp, ds[0], 0, i); } else { GivenListed(sp, ds[1..], j - 1, i); }
  }

  lemma {:induction false} GivenFrom(sp: Space, d: PciLayout.Dev, i0: nat, i: nat)
    requires i0 <= i < 6 && Wants(sp, d.size[i])
    ensures Given(sp, d, i) in BarRanges(sp, d, i0)
    decreases i - i0
  {
    hide Wants;
    if i0 < i { GivenFrom(sp, d, i0 + 1, i); }
  }

  /** Where a register starts to answer, seen from the layout. */
  lemma KeptExactly(root: Segment, s: Setup, seg: Segment, at: Path, b: Bus, j: nat, reg: nat, sp: Space)
    requires OnBus(root, s, seg, at, b) && j < |b.devices| && |b.devices| == |Devices(seg, 0xff)| && reg < 6
    requires Wants(sp, b.devices[j].size[reg])
    ensures var c := CellAt(At(seg, Devices(seg, 0xff)[j].devfn), reg); var r := Given(sp, b.devices[j], reg);
      && r.len > 0 && (exists k: nat :: Pow2(k) == r.len)
      && (KeptAt(seg, b, j, reg, sp) <==> r.start % r.len == 0 && (Short(c) ==> r.start < 0x1_0000))
      && (!sp.Io? ==> !Short(c))
  {
    hide And;
    hide Pow2;
    hide OnBus;
    hide Wants;
    hide Sizes;
    hide Devices;
    hide AddressOf;
    hide Length;
    hide FunctionAt;
    hide WellFormed;
    hide IsRegister;
    hide Short;
    DeviceAt(root, s, seg, at, b, j, reg, sp);
    var f := Devices(seg, 0xff)[j].devfn;
    FormedAt(root, s, seg, at, b, f);
    var k := SizedRegister(At(seg, f), reg, sp);
    StartsAt(CellAt(At(seg, f), reg), sp, k, Latch(root, s.latches, at + [f], reg));
    if !sp.Io? { NeverShort(CellAt(At(seg, f), reg), k); }
  }

  lemma FormedAt(root: Segment, s: Setup, seg: Segment, at: Path, b: Bus, f: nat)
    requires OnBus(root, s, seg, at, b) && Recorded(root, at + [f])
    ensures WellFormed(FunctionAt(root, at + [f]))
  {
    hide WellFormed;
    hide BusSet;
  }

  /** Memory registers have the addresses they are given in their bits. */
  lemma MemoryKept(root: Segment, s: Setup, seg: Segment, at: Path, b: Bus)
    requires OnBus(root, s, seg, at, b) && AllSpaces(b)
    ensures SetKept(seg, b, false)
  {
    hide OnBus;
    hide Laid;
    hide Wants;
    hide Given;
    hide KeptAt;
    hide Short;
    hide Devices;
    hide Pow2;
    SetCount(root, s, seg, at, b);
    forall j, reg, sp: Space | 0 <= j < |b.devices| && 0 <= reg < 6 && !sp.Io? && Wants(sp, b.devices[j].size[reg])
      ensures KeptAt(seg, b, j, reg, sp)
    {
      KeptExactly(root, s, seg, at, b, j, reg, sp);
      MultipleOfLength(sp, b, j, reg);
    }
  }

  lemma MultipleOfLength(sp: Space, b: Bus, j: nat, reg: nat)
    requires !sp.Io? && Laid(sp, b) && j < |b.devices| && reg < 6 && Wants(sp, b.devices[j].size[reg])
    requires exists k: nat :: Pow2(k) == Given(sp, b.devices[j], reg).len
    ensures var r := Given(sp, b.devices[j], reg); r.len > 0 && r.start % r.len == 0
  {
    hide Wants;
    hide KidsLaid;
    hide KidsEnd;
    hide Ordered;
    hide Pow2;
    hide Given;
    var r := Given(sp, b.devices[j], reg);
    GivenListed(sp, b.devices, j, reg);
    var rs := DevRanges(sp, b.devices);
    assert AllAligned(sp, rs);
    hide DevRanges;
    var x :| 0 <= x < |rs| && rs[x] == r;
    assert Aligned(sp, rs[x]);
    var k: nat :| Pow2(k) == r.len;
  }

  /** What is behind two bridges is not reached. */
  lemma TooDeep(root: Segment, s: Setup, b: Bus, p: Path, reg: nat, sp: Space, a: Word)
    requires OnBus(root, s, root, [], b) && AllSpaces(b) && |p| > 2
    requires Wanted(root, p, reg, sp) && GivenAt(root, s, p, reg, sp).Has(a)
    ensures !Answered(root, s, sp.Io?, a, p, reg)
  {
    hide OnBus;
    hide Laid;
    hide Takes;
    hide GivenAt;
    hide Recorded;
    assert [] + p == p;
    GivenInside(root, s, root, [], b, p, reg, sp);
    SpaceStart(b, sp);
    DeepBridge(root, s, b, p[0], p[1], sp.Io?, a);
    assert p[..1] == [p[0]];
    assert Hop(p, reg, 1) == Bridge(p[1]);
  }

  /**
   After the setup an address given to a memory register of either kind is answered by that register, and claimed by
   nothing else on the way, if and only if the register is not behind two or more bridges.
   */
  lemma MemoryAnswered(root: Segment, s: Setup, b: Bus, p: Path, reg: nat, sp: Space, a: Word)
    requires IsSetUp(root, s, b) && AllFormed(root) && AllSpaces(b)
    requires !sp.Io? && Wanted(root, p, reg, sp) && GivenAt(root, s, p, reg, sp).Has(a)
    ensures Answered(root, s, false, a, p, reg) <==> |p| <= 2
  {
    hide BusSet;
    hide Laid;
    hide Elsewhere;
    hide AllFormed;
    hide Answered;
    hide GivenAt;
    hide Found;
    hide Descended;
    hide SetKept;
    hide Wants;
    hide Later;
    assert OnBus(root, s, root, [], b);
    hide OnBus;
    MemoryKept(root, s, root, [], b);
    if |p| == 1 {
      assert p == [p[0]];
      ArrivesHere(root, s, b, p[0], reg, sp, a);
    } else if |p| == 2 {
      assert p == [p[0], p[1]];
      var d := p[0];
      KidOnBus(root, s, root, [], b, d);
      KidSpaces(b, Later(root, |root.slots|, d));
      assert [] + [d] == [d];
      MemoryKept(root, s, Behind(root, d), [d], KidOf(root, b, d));
      ArrivesBehind(root, s, b, d, p[1], reg, sp, a);
    } else {
      TooDeep(root, s, b, p, reg, sp, a);
    }
  }
}
