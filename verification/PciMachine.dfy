/**
 The configuration space of a whole bus tree, and the sizing of base address registers in it (pci_get_size and
 pci_read_bases of linuxpci.c). Every access requires that exactly one bus answers.
 */
module PciMachine {
  import opened Bits
  import opened PciAddress
  import opened PciBusNumbers
  import opened PciTopology

  // ----- Command registers -----

  type Commands = map<Path, nat>

  function CommandOf(command: Commands, p: Path): nat
  {
    if p in command then command[p] else 0
  }

  ghost predicate SameCommands(c: Commands, c': Commands)
  {
    forall p: Path :: CommandOf(c, p) == CommandOf(c', p)
  }

  /** Writing a command register, leaving it alone, and writing its old value back. */
  lemma CommandsRestored(c0: Commands, x: nat, c1: Commands, p: Path)
    requires SameCommands(c0[p := x], c1)
    ensures SameCommands(c0, c1[p := CommandOf(c0, p)])
  {
    forall q: Path ensures CommandOf(c0, q) == CommandOf(c1[p := CommandOf(c0, p)], q)
    {
      assert CommandOf(c0[p := x], q) == CommandOf(c1, q);
    }
  }

  // ----- Base address registers -----

  /** What was written to the registers, by function and number. */
  type Latches = map<(Path, nat), Word>

  function Latch(root: Segment, latches: Latches, p: Path, reg: nat): Word
    requires p != []
  {
    if (p, reg) in latches then latches[(p, reg)] else CellAt(FunctionAt(root, p), reg).reset
  }

  lemma {:induction false} OrBound(x: nat, y: nat, n: nat)
    requires x < Pow2(n) && y < Pow2(n)
    ensures Or(x, y) < Pow2(n)
  {
    if n > 0 {
      OrHalf(x, y);
      OrBound(x / 2, y / 2, n - 1);
    }
  }

  /** What a register reads when x was written to it last. */
  function Readback(c: Cell, x: Word): Word
  {
    AndLess(x, c.mask);
    Pow2Word();
    OrBound(And(x, c.mask), c.fixed, 32);
    Or(And(x, c.mask), c.fixed)
  }

  function Reading(root: Segment, latches: Latches, p: Path, reg: nat): Word
    requires p != []
  {
    Readback(CellAt(FunctionAt(root, p), reg), Latch(root, latches, p, reg))
  }

  /** Every register reads what it read at first. */
  ghost predicate Quiet(root: Segment, latches: Latches)
  {
    forall p: Path, reg: nat :: p != [] ==> Reading(root, latches, p, reg) == AtFirst(FunctionAt(root, p), reg)
  }

  function AtFirst(f: Function, reg: nat): Word
  {
    Readback(CellAt(f, reg), CellAt(f, reg).reset)
  }

  /** Writing back what was read changes nothing that can be read. */
  lemma {:induction false} ReadAgain(x: nat, mask: nat, fixed: nat)
    ensures Or(And(Or(And(x, mask), fixed), mask), fixed) == Or(And(x, mask), fixed)
    decreases x + mask + fixed
  {
    hide And;
    hide Or;
    var a := And(x, mask);
    var o := Or(a, fixed);
    var b := And(o, mask);
    AndHalf(x, mask);
    OrHalf(a, fixed);
    AndHalf(o, mask);
    OrHalf(b, fixed);
    if x + mask + fixed > 0 {
      var h := Or(And(x / 2, mask / 2), fixed / 2);
      ReadAgain(x / 2, mask / 2, fixed / 2);
      BitAgain(x % 2, mask % 2, fixed % 2, And(x / 2, mask / 2), a, fixed);
      OneBit(o, (if a % 2 == 1 || fixed % 2 == 1 then 1 else 0), h);
      BitAgain(o % 2, mask % 2, fixed % 2, And(h, mask / 2), b, fixed);
      MaskedTwice(x % 2, mask % 2, fixed % 2, a % 2, o % 2, b % 2);
    } else {
      AndHalf(0, 0);
      OrNothing();
    }
  }

  lemma OrNothing()
    ensures And(0, 0) == 0 && Or(0, 0) == 0
  {
  }

  lemma OneBit(x: nat, bit: nat, h: nat)
    requires bit < 2 && x == bit + 2 * h
    ensures x % 2 == bit && x / 2 == h
  {
  }

  lemma BitAgain(x: nat, m: nat, f: nat, h: nat, a: nat, fixed: nat)
    requires x < 2 && m < 2 && f < 2 && a == x * m + 2 * h && f == fixed % 2
    ensures a % 2 == x * m && a / 2 == h
  {
    assert x * m < 2;
  }

  lemma MaskedTwice(x: nat, m: nat, f: nat, a: nat, o: nat, b: nat)
    requires x < 2 && m < 2 && f < 2 && a == x * m && o == (if a == 1 || f == 1 then 1 else 0) && b == o * m
    ensures (if b == 1 || f == 1 then 1 else 0) == o
  {
  }

  lemma RestoredCell(c: Cell, x: Word)
    ensures Readback(c, Readback(c, x)) == Readback(c, x)
  {
    ReadAgain(x, c.mask, c.fixed);
  }

  /** After all ones, a register reads the bits it has and its fixed bits. */
  lemma AllOnes(c: Cell)
    ensures Readback(c, W32 - 1) == Or(c.mask, c.fixed)
  {
    hide And;
    hide Or;
    hide Pow2;
    Pow2Word();
    AndComm(W32 - 1, c.mask);
    AndMask(c.mask, 32);
  }

  /**
   A register with 2^k bytes behind it (section 6.2.5.1 of the PCI Local Bus Specification): it has the address bits
   from k up, for I/O perhaps only those below 16; the others read its type. It comes up with address 0.
   */
  predicate IsRegister(c: Cell, io: bool, k: nat)
  {
    && And(c.reset, c.mask) == 0 && c.mask != 0
    && if io then
         2 <= k <= 16 && (c.fixed == 1 || c.fixed == 3) && (c.mask == W32 - Pow2(k) || c.mask == 0x1_0000 - Pow2(k))
       else 4 <= k <= 31 && c.fixed < 16 && c.fixed % 2 == 0 && c.mask == W32 - Pow2(k)
  }

  /** Memory of 2^k bytes is sized 2^k, with its type in the lowest four bits. */
  lemma MemoryCell(c: Cell, k: nat)
    requires IsRegister(c, false, k)
    ensures SizeWord(Readback(c, W32 - 1)) == Pow2(k) + c.fixed
  {
    hide And;
    hide Or;
    hide Pow2;
    AllOnes(c);
    PowerBounds(k, 4, 32);
    Pow2Word();
    OrLow(c.mask, c.fixed, 4);
    MemorySize(c.mask + c.fixed, k, c.fixed);
  }

  /** So is I/O, whether or not the register has the upper 16 bits. */
  lemma IoCell(c: Cell, k: nat)
    requires IsRegister(c, true, k)
    ensures SizeWord(Readback(c, W32 - 1)) == Pow2(k) + c.fixed
  {
    hide And;
    hide Or;
    hide Pow2;
    AllOnes(c);
    PowerBounds(k, 2, 16);
    Pow2Word();
    IoMask(c, Pow2(k));
    OrLow(c.mask, c.fixed, 2);
    IoSize(c.mask + c.fixed, k, c.fixed);
  }

  lemma IoMask(c: Cell, p: nat)
    requires (c.fixed == 1 || c.fixed == 3) && p % 4 == 0 && 4 <= p <= 0x1_0000
    requires c.mask == W32 - p || c.mask == 0x1_0000 - p
    ensures c.mask % 4 == 0 && (c.mask + c.fixed) % 0x1_0000 == (0x1_0000 - p) + c.fixed
  {
    var q := p / 4;
    assert p == 4 * q;
    if c.mask == W32 - p {
      DivModUnique(c.mask, 4, 0x4000_0000 - q, 0);
      DivModUnique(c.mask + c.fixed, 0x1_0000, 0xffff, 0x1_0000 - p + c.fixed);
    } else {
      DivModUnique(c.mask, 4, 0x4000 - q, 0);
      DivModUnique(c.mask + c.fixed, 0x1_0000, 0, 0x1_0000 - p + c.fixed);
    }
  }

  /** The number of base address registers a header has. */
  function HowMany(header: nat): (n: nat)
    ensures n <= 6
  {
    match header % 128 case 0 => 6 case 1 => 2 case 2 => 1 case _ => 0
  }

  /** Sizing function f: its first howmany registers, except those that read all ones and upper halves. */
  function Sizes(f: Function, howmany: nat): Words
  {
    seq(6, (i: nat) requires i < 6 =>
      if i < howmany && AtFirst(f, i) != W32 - 1 && !UpperHalf(FirstReadings(f), i)
      then SizeWord(Readback(CellAt(f, i), W32 - 1)) else 0)
  }

  function FirstReadings(f: Function): (now: seq<Word>)
    ensures |now| == 7
  {
    seq(7, (i: nat) requires i < 7 => AtFirst(f, i))
  }

  // ----- The window registers of bridges -----

  datatype WindowRegister = IoBase | IoLimit | MemoryBase | MemoryLimit | PrefBase | PrefLimit

  type WindowRegisters = map<(Path, WindowRegister), nat>

  /** A window register comes up as 0. */
  function WindowAt(windows: WindowRegisters, p: Path, r: WindowRegister): nat
  {
    if (p, r) in windows then windows[(p, r)] else 0
  }

  // ----- The machine -----

  class Machine {
    const root: Segment
    var regs: Registers
    var command: Commands
    var latches: Latches
    var windows: WindowRegisters

    constructor (r: Segment, latency: Registers)
      requires forall p: Path :: Reg(latency, p).Are(0, 0, 0)
      ensures root == r && regs == latency && command == map[] && latches == map[] && windows == map[]
      ensures Quiet(root, latches)
    {
      root := r;
      regs := latency;
      command := map[];
      latches := map[];
      windows := map[];
    }

    /** An access to a bus number reaches exactly the bus at a path. */
    ghost predicate Reaches(bus: nat, at: Path)
      reads this`regs
    {
      Routed(root, regs, bus) == [at]
    }

    method ReadId(bus: nat, devfn: nat, ghost at: Path) returns (id: nat)
      requires Reaches(bus, at)
      ensures id == At(SegmentAt(root, at), devfn).id
    {
      id := At(SegmentAt(root, Routed(root, regs, bus)[0]), devfn).id;
    }

    method ReadHeaderType(bus: nat, devfn: nat, ghost at: Path) returns (header: nat)
      requires Reaches(bus, at)
      ensures header == At(SegmentAt(root, at), devfn).header
    {
      header := At(SegmentAt(root, Routed(root, regs, bus)[0]), devfn).header;
    }

    method ReadClass(bus: nat, devfn: nat, ghost at: Path) returns (kind: nat)
      requires Reaches(bus, at)
      ensures kind == At(SegmentAt(root, at), devfn).kind
    {
      kind := At(SegmentAt(root, Routed(root, regs, bus)[0]), devfn).kind;
    }

    method ReadRom(bus: nat, devfn: nat, ghost at: Path) returns (rom: Word)
      requires Reaches(bus, at)
      ensures rom == At(SegmentAt(root, at), devfn).config.rom
    {
      rom := At(SegmentAt(root, Routed(root, regs, bus)[0]), devfn).config.rom;
    }

    method ReadCommand(bus: nat, devfn: nat, ghost at: Path) returns (cr: nat)
      requires Reaches(bus, at)
      ensures cr == CommandOf(command, at + [devfn])
    {
      cr := CommandOf(command, Routed(root, regs, bus)[0] + [devfn]);
    }

    method WriteCommand(bus: nat, devfn: nat, cr: nat, ghost at: Path)
      requires Reaches(bus, at)
      modifies this`command
      ensures Reaches(bus, at) && command == old(command)[at + [devfn] := cr]
    {
      command := command[Routed(root, regs, bus)[0] + [devfn] := cr];
    }

    method WriteStatus(bus: nat, devfn: nat, x: U16, ghost at: Path)
      requires Reaches(bus, at)
      modifies this`regs
      ensures var r := Reg(old(regs), at + [devfn]);
        regs == old(regs)[at + [devfn] := r.(status := ClearOnes(r.status, x))]
    {
      var p := Routed(root, regs, bus)[0] + [devfn];
      regs := regs[p := Reg(regs, p).(status := ClearOnes(Reg(regs, p).status, x))];
    }

    method ReadBuses(bus: nat, devfn: nat, ghost at: Path) returns (buses: Word)
      requires Reaches(bus, at)
      ensures buses == Pack(Reg(regs, at + [devfn]))
    {
      buses := Pack(Reg(regs, Routed(root, regs, bus)[0] + [devfn]));
    }

    method WriteBuses(bus: nat, devfn: nat, buses: Word, ghost at: Path)
      requires Reaches(bus, at)
      modifies this`regs
      ensures regs == old(regs)[at + [devfn] := Unpack(buses, Reg(old(regs), at + [devfn]).status)]
    {
      var p := Routed(root, regs, bus)[0] + [devfn];
      regs := regs[p := Unpack(buses, Reg(regs, p).status)];
    }

    method ReadBase(bus: nat, devfn: nat, reg: nat, ghost at: Path) returns (addr: Word)
      requires Reaches(bus, at)
      ensures addr == Reading(root, latches, at + [devfn], reg)
    {
      addr := Reading(root, latches, Routed(root, regs, bus)[0] + [devfn], reg);
    }

    method WriteBase(bus: nat, devfn: nat, reg: nat, addr: Word, ghost at: Path)
      requires Reaches(bus, at)
      modifies this`latches
      ensures Reaches(bus, at) && latches == old(latches)[(at + [devfn], reg) := addr]
    {
      latches := latches[(Routed(root, regs, bus)[0] + [devfn], reg) := addr];
    }

    method WriteWindow(bus: nat, devfn: nat, r: WindowRegister, x: nat, ghost at: Path)
      requires Reaches(bus, at)
      modifies this`windows
      ensures Reaches(bus, at) && windows == old(windows)[(at + [devfn], r) := x]
    {
      windows := windows[(Routed(root, regs, bus)[0] + [devfn], r) := x];
    }
  }

  lemma FunctionIs(root: Segment, at: Path, devfn: nat)
    ensures FunctionAt(root, at + [devfn]) == At(SegmentAt(root, at), devfn)
  {
    assert (at + [devfn])[..|at|] == at;
  }

  /** Writing all ones, and then what was read before, leaves every register reading as before. */
  lemma StaysQuiet(root: Segment, latches: Latches, p: Path, reg: nat, addr: Word)
    requires p != [] && Quiet(root, latches) && addr == Reading(root, latches, p, reg)
    ensures Quiet(root, latches[(p, reg) := W32 - 1][(p, reg) := addr])
  {
    hide Readback;
    hide FunctionAt;
    hide CellAt;
    var l := latches[(p, reg) := W32 - 1][(p, reg) := addr];
    RestoredCell(CellAt(FunctionAt(root, p), reg), Latch(root, latches, p, reg));
    forall q: Path, r: nat | q != []
      ensures Reading(root, l, q, r) == AtFirst(FunctionAt(root, q), r)
    {
      assert Reading(root, latches, q, r) == AtFirst(FunctionAt(root, q), r);
    }
  }

  /** pci_get_size for a register that reads addr. */
  method SizeRegister(m: Machine, n: nat, devfn: nat, reg: nat, addr: Word, ghost at: Path) returns (size: Word)
    requires m.Reaches(n, at) && Quiet(m.root, m.latches) && addr == Reading(m.root, m.latches, at + [devfn], reg)
    modifies m`latches
    ensures m.Reaches(n, at) && Quiet(m.root, m.latches)
    ensures size == SizeWord(Readback(CellAt(At(SegmentAt(m.root, at), devfn), reg), W32 - 1))
  {
    hide Quiet;
    hide Readback;
    hide SizeWord;
    hide SegmentAt;
    StaysQuiet(m.root, m.latches, at + [devfn], reg, addr);
    m.WriteBase(n, devfn, reg, W32 - 1, at);
    var raw := m.ReadBase(n, devfn, reg, at);
    FunctionIs(m.root, at, devfn);
    m.WriteBase(n, devfn, reg, addr, at);
    size := PciAddress.GetSize(raw);
  }

  /**
   pci_read_bases on a fresh record: the sizes of the first howmany registers. The registers read the same afterwards;
   the base address of a 64-bit register, cleared when its upper half is in use, is zero anyway.
   */
  method ReadBases(m: Machine, n: nat, devfn: nat, howmany: nat, ghost at: Path)
    returns (size: Words, base: Words)
    requires m.Reaches(n, at) && Quiet(m.root, m.latches) && howmany <= 6
    modifies m`latches
    ensures m.Reaches(n, at) && Quiet(m.root, m.latches)
    ensures size == Sizes(At(SegmentAt(m.root, at), devfn), howmany) && base == [0, 0, 0, 0, 0, 0]
  {
    hide Machine.Reaches;
    hide Quiet;
    hide Readback;
    hide SizeWord;
    hide SegmentAt;
    hide And;
    ghost var f := At(SegmentAt(m.root, at), devfn);
    size, base := [0, 0, 0, 0, 0, 0], [0, 0, 0, 0, 0, 0];
    var reg := 0;
    while reg < howmany
      invariant 0 <= reg && m.Reaches(n, at) && Quiet(m.root, m.latches)
      invariant |size| == 6 && base == [0, 0, 0, 0, 0, 0]
      invariant reg <= 6 ==> !UpperHalf(FirstReadings(f), reg)
      invariant forall i :: 0 <= i < 6 ==> size[i] == if i < reg then Sizes(f, howmany)[i] else 0
    {
      var addr := m.ReadBase(n, devfn, reg, at);
      QuietReads(m.root, m.latches, at, devfn, reg);
      if addr == W32 - 1 {
        reg := reg + 1;
        continue;
      }
      var s := SizeRegister(m, n, devfn, reg, addr, at);
      size := size[reg := s];
      if And(addr, 7) == 4 {
        reg := reg + 1;
        addr := m.ReadBase(n, devfn, reg, at);
        if addr != 0 {
          base := base[reg - 1 := 0];
        }
      }
      reg := reg + 1;
    }
  }

  lemma QuietReads(root: Segment, latches: Latches, at: Path, devfn: nat, reg: nat)
    requires Quiet(root, latches)
    ensures Reading(root, latches, at + [devfn], reg) == AtFirst(At(SegmentAt(root, at), devfn), reg)
  {
    hide Readback;
    FunctionIs(root, at, devfn);
  }
}
