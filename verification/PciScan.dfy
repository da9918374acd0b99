/**
 pci_scan_bus of linuxpci.c: depth-first numbering of the buses while their bridges are being programmed.
 Every configuration access requires that exactly the bus being scanned answers.
 */
module PciScan {
  import opened Bits
  import opened PciAddress
  import opened PciBusNumbers
  import opened PciTopology
  import opened PciMachine

  const BRIDGE_PCI := 0x0604
  const BRIDGE_CARDBUS := 0x0607

  // ----- What is found on a bus -----

  /** An identification that stands for an empty slot. */
  predicate NoId(id: nat)
  {
    id == 0xffff_ffff || id == 0 || id == 0x0000_ffff || id == 0xffff_0000
  }

  /** Header type and class code agree. */
  predicate KnownHeader(header: nat, kind: nat)
  {
    match header % 128
    case 0 => kind != BRIDGE_PCI
    case 1 => kind == BRIDGE_PCI
    case 2 => kind == BRIDGE_CARDBUS
    case _ => false
  }

  predicate MultiFunction(header: nat)
  {
    header / 128 % 2 == 1
  }

  /** The host bridges that pretend to be PCI bridges. */
  predicate Quirk(id: nat)
  {
    id in {0x0008_1166, 0x0009_1166, 0x6010_0e11, 0x84ca_8086, 0x84cb_8086}
  }

  /** The other functions of a device are looked at when function 0 answers and is not a plain single function. */
  predicate Probed(seg: Segment, devfn: nat)
  {
    devfn < 0xff &&
    (devfn % 8 == 0 ||
     var zero := At(seg, devfn - devfn % 8);
     !NoId(zero.id) && (MultiFunction(zero.header) || !KnownHeader(zero.header, zero.kind)))
  }

  /** The functions the scan records. */
  predicate Found(seg: Segment, devfn: nat)
  {
    var f := At(seg, devfn);
    Probed(seg, devfn) && !NoId(f.id) && KnownHeader(f.header, f.kind)
  }

  /** The bridges the scan looks behind. */
  predicate Descended(seg: Segment, devfn: nat)
  {
    Found(seg, devfn) && At(seg, devfn).kind == BRIDGE_PCI && !Quirk(At(seg, devfn).id)
  }

  /** The fields of a pci_dev that the scan fills in. */
  datatype Dev = Dev(devfn: nat, id: nat, kind: nat, size: Words, base: Words, rom: Word)

  /** The ROM register, unless it reads all ones; CardBus bridges are not asked for it. */
  function RomOf(f: Function): Word
  {
    if f.header % 128 == 2 || f.config.rom == W32 - 1 then 0 else f.config.rom
  }

  function DevOf(f: Function, devfn: nat): Dev
  {
    Dev(devfn, f.id, f.kind, Sizes(f, HowMany(f.header)), [0, 0, 0, 0, 0, 0], RomOf(f))
  }

  function Devices(seg: Segment, n: nat): seq<Dev>
  {
    if n == 0 then []
    else Devices(seg, n - 1)
         + if Found(seg, n - 1) then [DevOf(At(seg, n - 1), n - 1)] else []
  }

  // ----- The numbering -----

  /** The number of buses behind the bridges below devfn i. */
  function Count(seg: Segment, i: nat): nat
    requires i <= |seg.slots|
    decreases seg, i
  {
    if i == 0 then 0
    else Count(seg, i - 1)
         + if Descended(seg, i - 1) then 1 + Count(Behind(seg, i - 1), |Behind(seg, i - 1).slots|) else 0
  }

  function Behind(seg: Segment, i: nat): Segment
    requires i < |seg.slots|
  {
    seg.slots[i].behind
  }

  /** All the buses behind a bus. */
  function Total(seg: Segment): nat
  {
    Count(seg, |seg.slots|)
  }

  /** struct pci_bus as the scan leaves it; self is the devfn of its bridge. */
  datatype BusRecord = BusRecord(self: nat, number: nat, primary: nat, secondary: nat, subordinate: nat,
                                 devices: seq<Dev>, children: seq<BusRecord>)

  /** The record of a bus that gets number n: its children are linked in front of each other. */
  function Record(seg: Segment, self: nat, primary: nat, n: nat): BusRecord
    decreases seg, |seg.slots| + 1
  {
    BusRecord(self, n, primary, n, n + Total(seg), Devices(seg, 0xff), Kids(seg, n, |seg.slots|))
  }

  function Kids(seg: Segment, n: nat, i: nat): seq<BusRecord>
    requires i <= |seg.slots|
    decreases seg, i
  {
    if i == 0 then []
    else if Descended(seg, i - 1) then
      [Record(Behind(seg, i - 1), i - 1, n, NumberOf(seg, n, i - 1))] + Kids(seg, n, i - 1)
    else Kids(seg, n, i - 1)
  }

  /** An entry of pci_devices: a device and the number of its bus. */
  datatype Entry = Entry(bus: nat, dev: Dev)

  function Tagged(n: nat, devices: seq<Dev>): (r: seq<Entry>)
    ensures |r| == |devices|
  {
    seq(|devices|, i requires 0 <= i < |devices| => Entry(n, devices[i]))
  }

  /** What scanning bus n adds to the chain of all devices: those on the bus, then those behind its bridges in turn. */
  function ChainOf(seg: Segment, n: nat): seq<Entry>
    decreases seg, |seg.slots| + 1
  {
    Tagged(n, Devices(seg, 0xff)) + ChainBehind(seg, n, |seg.slots|)
  }

  function ChainBehind(seg: Segment, n: nat, i: nat): seq<Entry>
    requires i <= |seg.slots|
    decreases seg, i
  {
    if i == 0 then []
    else ChainBehind(seg, n, i - 1)
         + if Descended(seg, i - 1) then ChainOf(Behind(seg, i - 1), NumberOf(seg, n, i - 1)) else []
  }

  /** The number of the bus behind bridge i of bus n: buses are numbered in preorder without gaps. */
  function NumberOf(seg: Segment, n: nat, i: nat): nat
    requires i < |seg.slots|
  {
    n + 1 + Count(seg, i)
  }

  /**
   The registers below seg, which has number n, hold the final numbers: subordinate is the largest number behind; and
   the status bits of the bridges are cleared.
   */
  predicate Numbered(seg: Segment, at: Path, regs: Registers, n: nat)
    decreases seg, |seg.slots| + 1
  {
    forall i :: 0 <= i < |seg.slots| ==> SlotNumbered(seg, at, regs, n, i)
  }

  predicate SlotNumbered(seg: Segment, at: Path, regs: Registers, n: nat, i: nat)
    requires i < |seg.slots|
    decreases seg, i
  {
    if Descended(seg, i) then
      var b := NumberOf(seg, n, i);
      && Reg(regs, at + [i]).Are(n, b, b + Total(Behind(seg, i))) && Reg(regs, at + [i]).status == 0
      && Numbered(Behind(seg, i), at + [i], regs, b)
    else Reg(regs, at + [i]).Are(0, 0, 0)
  }

  /** p leads to something behind the bus at `at`. */
  predicate Under(at: Path, p: Path)
  {
    |at| < |p| && p[..|at|] == at
  }

  lemma {:induction false} NumberedFrame(seg: Segment, at: Path, regs: Registers, regs': Registers, n: nat)
    requires Numbered(seg, at, regs, n)
    requires forall p: Path :: Under(at, p) ==> Reg(regs, p) == Reg(regs', p)
    ensures Numbered(seg, at, regs', n)
    decreases seg
  {
    forall i | 0 <= i < |seg.slots|
      ensures SlotNumbered(seg, at, regs', n, i)
    {
      assert SlotNumbered(seg, at, regs, n, i);
      assert Under(at, at + [i]);
      if Descended(seg, i) {
        forall p: Path | Under(at + [i], p) ensures Under(at, p) { assert p[..|at|] == p[..|at| + 1][..|at|]; }
        NumberedFrame(Behind(seg, i), at + [i], regs, regs', NumberOf(seg, n, i));
      }
    }
  }

  lemma {:induction false} CountRises(seg: Segment, i: nat, j: nat)
    requires i <= j <= |seg.slots|
    ensures Count(seg, i) <= Count(seg, j)
    decreases j
  {
    if i < j { CountRises(seg, i, j - 1); }
  }

  /** Bus n, at the end of an open path, is being scanned. */
  predicate Scanning(root: Segment, regs: Registers, n: nat, at: Path)
  {
    Open(root, [], regs, at, 0) && IsPath(root, at) && NumberAt(regs, at) == n <= 0xff
  }

  /** Nothing behind slot d of the bus at `at`, and later ones, has a number yet. */
  ghost predicate Fresh(regs: Registers, at: Path, d: nat)
  {
    forall p: Path :: Under(at, p) && p[|at|] >= d ==> Reg(regs, p).Are(0, 0, 0)
  }

  /** The list pci_devices. */
  class Chain {
    var devices: seq<Entry>

    constructor ()
      ensures devices == []
    {
      devices := [];
    }
  }

  lemma ReadyReaches(m: Machine, n: nat, at: Path)
    requires Scanning(m.root, m.regs, n, at)
    ensures m.Reaches(n, at)
  {
    OpenRouted(m.root, m.regs, at);
  }

  // ----- Probing one bus -----

  function Least(a: nat, b: nat): nat { if a < b then a else b }

  /** Skipping the other functions of a device loses nothing when they are not to be probed. */
  lemma {:induction false} SkipFunctions(seg: Segment, devfn: nat, to: nat)
    requires devfn % 8 == 0 && devfn + 1 <= to <= devfn + 8 && devfn < 0xff
    requires NoId(At(seg, devfn).id) || (KnownHeader(At(seg, devfn).header, At(seg, devfn).kind)
          && !MultiFunction(At(seg, devfn).header))
    ensures Devices(seg, Least(to, 0xff)) == Devices(seg, devfn + 1)
  {
    if to > devfn + 1 {
      SkipFunctions(seg, devfn, to - 1);
      FunctionZero(devfn, to - 1);
    }
  }

  lemma FunctionZero(devfn: nat, f: nat)
    requires devfn % 8 == 0 && devfn < f < devfn + 8
    ensures f % 8 != 0 && f - f % 8 == devfn
  {
    DivModUnique(f, 8, devfn / 8, f - devfn);
  }

  /** One round of the loop: the next function to look at is one that has to be probed. */
  lemma Advance(seg: Segment, devfn: nat, skip: bool)
    requires Probed(seg, devfn)
    requires var f := At(seg, devfn);
      skip <==> devfn % 8 == 0 && (NoId(f.id) || (KnownHeader(f.header, f.kind) && !MultiFunction(f.header)))
    ensures var to := devfn + if skip then 8 else 1;
      && Devices(seg, Least(to, 0xff))
         == Devices(seg, devfn) + (if Found(seg, devfn) then [DevOf(At(seg, devfn), devfn)] else [])
      && (to < 0xff ==> Probed(seg, to))
  {
    hide KnownHeader;
    hide NoId;
    hide MultiFunction;
    if skip {
      DivModUnique(devfn + 8, 8, devfn / 8 + 1, 0);
      SkipFunctions(seg, devfn, devfn + 8);
    } else if (devfn + 1) % 8 != 0 {
      SameDevice(devfn);
    }
  }

  lemma SameDevice(devfn: nat)
    requires (devfn + 1) % 8 != 0
    ensures (devfn + 1) % 8 == devfn % 8 + 1
  {
    var last := devfn % 8 == 7;
    DivModUnique(devfn + 1, 8, if last then devfn / 8 + 1 else devfn / 8, if last then 0 else devfn % 8 + 1);
  }

  /** The first loop of pci_scan_bus. */
  method ScanFunctions(m: Machine, chain: Chain, n: nat, ghost at: Path) returns (devices: seq<Dev>)
    requires m.Reaches(n, at) && Quiet(m.root, m.latches)
    modifies m`command, m`latches, chain
    ensures devices == Devices(SegmentAt(m.root, at), 0xff)
    ensures chain.devices == old(chain.devices) + Tagged(n, devices)
    ensures SameCommands(old(m.command), m.command) && Quiet(m.root, m.latches)
  {
    hide Machine.Reaches;
    hide Quiet;
    hide SameCommands;
    hide KnownHeader;
    hide NoId;
    hide Devices;
    hide Found;
    hide Probed;
    hide MultiFunction;
    hide SegmentAt;
    hide DevOf;
    ghost var seg := SegmentAt(m.root, at);
    ghost var c0, command := chain.devices, m.command;
    devices := [];
    var devfn := 0;
    ProbedFirst(seg);
    SameSelf(m.command);
    while devfn < 0xff
      invariant 0 <= devfn && m.Reaches(n, at) && Quiet(m.root, m.latches)
      invariant devices == Devices(seg, Least(devfn, 0xff)) && chain.devices == c0 + Tagged(n, devices)
      invariant devfn < 0xff ==> Probed(seg, devfn)
      invariant SameCommands(command, m.command)
    {
      ghost var f, now := At(seg, devfn), m.command;
      ghost var skip := devfn % 8 == 0 && (NoId(f.id) || (KnownHeader(f.header, f.kind) && !MultiFunction(f.header)));
      Advance(seg, devfn, skip);
      FoundMeans(seg, devfn);
      var id := m.ReadId(n, devfn, at);
      if NoId(id) {
        if devfn % 8 == 0 {
          devfn := devfn + 7;
        }
        devfn := devfn + 1;
        continue;
      }
      var header := m.ReadHeaderType(n, devfn, at);
      var kind := m.ReadClass(n, devfn, at);
      ProbeMaster(m, n, devfn, at);
      SameChain(command, now, m.command);
      if !KnownHeader(header, kind) {
        devfn := devfn + 1;
        continue;
      }
      var dev := ReadDevice(m, n, devfn, id, header, kind, at);
      TaggedMore(n, devices, dev);
      chain.devices := chain.devices + [Entry(n, dev)];
      devices := devices + [dev];
      if devfn % 8 == 0 && !MultiFunction(header) {
        devfn := devfn + 7;
      }
      devfn := devfn + 1;
    }
  }

  lemma FoundMeans(seg: Segment, devfn: nat)
    requires Probed(seg, devfn)
    ensures Found(seg, devfn) <==> !NoId(At(seg, devfn).id) && KnownHeader(At(seg, devfn).header, At(seg, devfn).kind)
  {
  }

  lemma TaggedMore(n: nat, devices: seq<Dev>, dev: Dev)
    ensures Tagged(n, devices + [dev]) == Tagged(n, devices) + [Entry(n, dev)]
  {
  }

  lemma SameSelf(c: Commands)
    ensures SameCommands(c, c)
  {
  }

  lemma SameChain(c: Commands, c': Commands, c'': Commands)
    requires SameCommands(c, c') && SameCommands(c', c'')
    ensures SameCommands(c, c'')
  {
    forall p: Path
      ensures CommandOf(c, p) == CommandOf(c'', p)
    {
      assert CommandOf(c, p) == CommandOf(c', p);
    }
  }

  /** The registers that the header type tells of. */
  method ReadDevice(m: Machine, n: nat, devfn: nat, id: nat, header: nat, kind: nat, ghost at: Path) returns (dev: Dev)
    requires m.Reaches(n, at) && Quiet(m.root, m.latches) && KnownHeader(header, kind)
    requires var f := At(SegmentAt(m.root, at), devfn); id == f.id && header == f.header && kind == f.kind
    modifies m`latches
    ensures m.Reaches(n, at) && Quiet(m.root, m.latches)
    ensures dev == DevOf(At(SegmentAt(m.root, at), devfn), devfn)
  {
    hide Machine.Reaches;
    hide Quiet;
    hide Sizes;
    hide SegmentAt;
    var size, base, addr;
    var rom := 0;
    match header % 128 {
      case 0 =>
        size, base := ReadBases(m, n, devfn, 6, at);
        addr := m.ReadRom(n, devfn, at);
        rom := if addr == W32 - 1 then 0 else addr;
      case 1 =>
        size, base := ReadBases(m, n, devfn, 2, at);
        addr := m.ReadRom(n, devfn, at);
        rom := if addr == W32 - 1 then 0 else addr;
      case _ =>
        size, base := ReadBases(m, n, devfn, 1, at);
    }
    dev := Dev(devfn, id, kind, size, base, rom);
  }

  lemma ProbedFirst(seg: Segment)
    ensures Probed(seg, 0) && Devices(seg, 0) == []
  {
  }

  /** Whether a function can be bus master is tried out, and its command register put back. */
  method ProbeMaster(m: Machine, n: nat, devfn: nat, ghost at: Path)
    requires m.Reaches(n, at)
    modifies m`command
    ensures m.Reaches(n, at) && SameCommands(old(m.command), m.command)
  {
    var cmd := m.ReadCommand(n, devfn, at);
    CommandsRestored(m.command, Or(cmd, 4), m.command[at + [devfn] := Or(cmd, 4)], at + [devfn]);
    m.WriteCommand(n, devfn, Or(cmd, 4), at);
    var tmp := m.ReadCommand(n, devfn, at);
    m.WriteCommand(n, devfn, cmd, at);
  }

  /** The device list is in order of devfn. */
  lemma {:induction false} DevicesAre(seg: Segment, n: nat)
    ensures forall j :: 0 <= j < |Devices(seg, n)| ==> IsDev(seg, n, Devices(seg, n)[j])
    ensures forall j, k :: 0 <= j < k < |Devices(seg, n)| ==> Devices(seg, n)[j].devfn < Devices(seg, n)[k].devfn
  {
    hide Found;
    if n > 0 { DevicesAre(seg, n - 1); }
  }

  predicate IsDev(seg: Segment, n: nat, d: Dev)
  {
    d.devfn < n && Found(seg, d.devfn) && d == DevOf(At(seg, d.devfn), d.devfn)
  }

  /** And complete. */
  lemma {:induction false} DeviceOf(seg: Segment, n: nat, f: nat) returns (j: nat)
    requires f < n && Found(seg, f)
    ensures j < |Devices(seg, n)| && Devices(seg, n)[j].devfn == f
  {
    hide Found;
    if f < n - 1 {
      j := DeviceOf(seg, n - 1, f);
    } else {
      j := |Devices(seg, n - 1)|;
    }
  }

  // ----- The scan -----

  /** Between two states only registers of slot d of the bus at `at`, and behind it, differ. */
  ghost predicate OnlyBehind(regs: Registers, regs': Registers, at: Path, d: nat)
  {
    forall p: Path :: Reg(regs, p).timer == Reg(regs', p).timer
                      && (!(Under(at, p) && p[|at|] == d) ==> Reg(regs, p) == Reg(regs', p))
  }

  ghost predicate OnlyUnder(regs: Registers, regs': Registers, at: Path)
  {
    forall p: Path :: Reg(regs, p).timer == Reg(regs', p).timer && (!Under(at, p) ==> Reg(regs, p) == Reg(regs', p))
  }

  /** Finished siblings end below the next number, untouched ones at 0. */
  lemma SiblingsEnd(seg: Segment, at: Path, regs: Registers, n: nat, d: nat)
    requires d < |seg.slots| && Fresh(regs, at, d)
    requires forall i :: 0 <= i < d ==> SlotNumbered(seg, at, regs, n, i)
    ensures forall i :: 0 <= i < |seg.slots| && i != d ==> EndsBelow(Reg(regs, at + [i]), NumberOf(seg, n, d))
  {
    hide Numbered;
    hide Descended;
    forall i | 0 <= i < |seg.slots| && i != d
      ensures EndsBelow(Reg(regs, at + [i]), NumberOf(seg, n, d))
    {
      if i < d {
        assert SlotNumbered(seg, at, regs, n, i);
        CountRises(seg, i + 1, d);
        assert Count(seg, i + 1) == Count(seg, i) + if Descended(seg, i) then 1 + Total(Behind(seg, i)) else 0;
      } else {
        assert Under(at, at + [i]) && (at + [i])[|at|] == i;
      }
    }
  }

  /** Opening bridge d: what was reachable stays reachable, and the new bus is reachable under its number. */
  lemma Opened(root: Segment, regs: Registers, regs': Registers, at: Path, n: nat, d: nat, timer: U8)
    requires Scanning(root, regs, n, at) && Fresh(regs, at, d)
    requires d < |SegmentAt(root, at).slots| && Descended(SegmentAt(root, at), d)
    requires forall i :: 0 <= i < d ==> SlotNumbered(SegmentAt(root, at), at, regs, n, i)
    requires var b := NumberOf(SegmentAt(root, at), n, d);
      b <= 0xff && regs' == regs[at + [d] := Numbers(n, b, 0xff, timer, 0)] && Reg(regs, at + [d]).timer == timer
    ensures OnlyBehind(regs, regs', at, d)
    ensures var b := NumberOf(SegmentAt(root, at), n, d);
      Scanning(root, regs', b, at + [d]) && Fresh(regs', at + [d], 0)
    ensures SegmentAt(root, at + [d]) == Behind(SegmentAt(root, at), d)
  {
    hide SlotNumbered;
    hide Count;
    hide Open;
    hide IsPath;
    hide SegmentAt;
    hide Descended;
    hide EndsBelow;
    var seg, b := SegmentAt(root, at), NumberOf(SegmentAt(root, at), n, d);
    DescendedBridge(seg, d);
    SiblingsEnd(seg, at, regs, n, d);
    OpenFrame(root, [], regs, regs', at, 0);
    assert [] + at == at && (at + [d])[|at|] == d && (at + [d])[..|at|] == at;
    forall i: nat | i < |seg.slots| && i != d
      ensures EndsBelow(Reg(regs', at + [i]), b)
    {
      assert (at + [i])[|at|] == i;
    }
    OpenExtend(root, [], regs', at, 0, n, d, b);
    forall p: Path | Under(at + [d], p)
      ensures Reg(regs', p).Are(0, 0, 0)
    {
      UnderSlot(at, d, p);
    }
  }

  lemma DescendedBridge(seg: Segment, d: nat)
    requires d < |seg.slots| && Descended(seg, d)
    ensures IsBridge(seg.slots[d])
  {
  }

  lemma UnderSlot(at: Path, d: nat, p: Path)
    requires Under(at + [d], p)
    ensures Under(at, p) && p[|at|] == d && p != at + [d]
  {
    assert p[..|at|] == p[..|at| + 1][..|at|];
    assert p[|at|] == p[..|at| + 1][|at|];
  }

  /** Closing it after everything behind it is numbered. */
  lemma Closed(root: Segment, r0: Registers, r1: Registers, r2: Registers, r3: Registers, at: Path, n: nat, d: nat)
    requires Scanning(root, r0, n, at) && d < |SegmentAt(root, at).slots| && Descended(SegmentAt(root, at), d)
    requires var seg := SegmentAt(root, at);
      var b, u := NumberOf(seg, n, d), NumberOf(seg, n, d) + Total(Behind(seg, d));
      && OnlyBehind(r0, r1, at, d) && Reg(r1, at + [d]).primary == n && Reg(r1, at + [d]).secondary == b
      && Reg(r1, at + [d]).status == 0
      && OnlyUnder(r1, r2, at + [d]) && Numbered(Behind(seg, d), at + [d], r2, b)
      && u <= 0xff && r3 == r2[at + [d] := Reg(r2, at + [d]).(subordinate := u)]
    ensures Scanning(root, r3, n, at) && OnlyBehind(r0, r3, at, d)
    ensures SlotNumbered(SegmentAt(root, at), at, r3, n, d)
  {
    hide Numbered;
    hide Count;
    hide Open;
    hide IsPath;
    hide SegmentAt;
    hide Descended;
    var seg := SegmentAt(root, at);
    assert (at + [d])[|at|] == d && (at + [d])[..|at|] == at;
    forall p: Path | !(Under(at, p) && p[|at|] == d)
      ensures Reg(r0, p) == Reg(r3, p)
    {
      if Under(at + [d], p) { UnderSlot(at, d, p); }
    }
    OpenFrame(root, [], r0, r3, at, 0);
    NumberedFrame(Behind(seg, d), at + [d], r2, r3, NumberOf(seg, n, d));
  }

  /** Its command register is saved and cleared, its status cleared, and its bus numbers set to n, b and 0xff. */
  method OpenBridge(m: Machine, n: nat, d: nat, b: nat, ghost at: Path) returns (cr: nat, buses: Word)
    requires Scanning(m.root, m.regs, n, at) && b <= 0xff
    modifies m`regs, m`command
    ensures cr == CommandOf(old(m.command), at + [d]) && m.command == old(m.command)[at + [d] := 0]
    ensures m.regs == old(m.regs)[at + [d] := Numbers(n, b, 0xff, Reg(old(m.regs), at + [d]).timer, 0)]
    ensures buses == Pack(Reg(m.regs, at + [d]))
  {
    hide Open;
    hide IsPath;
    hide SegmentAt;
    hide Machine.Reaches;
    hide Pack;
    hide Unpack;
    hide OpenWord;
    hide CommandOf;
    hide ClearOnes;
    ghost var r0 := m.regs;
    ReadyReaches(m, n, at);
    buses := m.ReadBuses(n, d, at);
    cr := m.ReadCommand(n, d, at);
    m.WriteCommand(n, d, 0, at);
    m.WriteStatus(n, d, 0xffff, at);
    ClearAll(Reg(r0, at + [d]).status);
    StatusCleared(m.root, r0, m.regs, n, at, d);
    ReadyReaches(m, n, at);
    buses := m.ReadBuses(n, d, at);
    OpenWordIs(Reg(m.regs, at + [d]), n, b);
    buses := OpenWord(buses, n, b);
    UnpackPack(Numbers(n, b, 0xff, Reg(r0, at + [d]).timer, 0));
    m.WriteBuses(n, d, buses, at);
  }

  /** The subordinate number is set to what the scan found. */
  method SetSubordinate(m: Machine, n: nat, d: nat, buses0: Word, max: nat, ghost at: Path)
    requires m.Reaches(n, at) && buses0 == Pack(Reg(m.regs, at + [d])) && max <= 0xff
    modifies m`regs
    ensures m.regs == old(m.regs)[at + [d] := Reg(old(m.regs), at + [d]).(subordinate := max)]
  {
    hide Machine.Reaches;
    hide Pack;
    hide Unpack;
    hide CloseWord;
    CloseWordIs(Reg(m.regs, at + [d]), max);
    var buses := CloseWord(buses0, max);
    UnpackPack(Reg(m.regs, at + [d]).(subordinate := max));
    m.WriteBuses(n, d, buses, at);
  }

  /** One round of the second loop: number and open a bridge, scan behind it, close it. */
  method ScanBehind(m: Machine, chain: Chain, n: nat, d: nat, max0: nat, ghost at: Path)
    returns (max: nat, child: BusRecord)
    requires Quiet(m.root, m.latches) && Scanning(m.root, m.regs, n, at) && d < |SegmentAt(m.root, at).slots|
          && Descended(SegmentAt(m.root, at), d)
    requires max0 == n + Count(SegmentAt(m.root, at), d)
    requires n + Count(SegmentAt(m.root, at), d + 1) <= 0xff
    requires forall i :: 0 <= i < d ==> SlotNumbered(SegmentAt(m.root, at), at, m.regs, n, i)
    requires Fresh(m.regs, at, d)
    modifies m`regs, m`command, m`latches, chain
    ensures Quiet(m.root, m.latches) && Scanning(m.root, m.regs, n, at) && OnlyBehind(old(m.regs), m.regs, at, d)
    ensures chain.devices
            == old(chain.devices) + ChainOf(Behind(SegmentAt(m.root, at), d), NumberOf(SegmentAt(m.root, at), n, d))
    ensures max == n + Count(SegmentAt(m.root, at), d + 1)
    ensures SlotNumbered(SegmentAt(m.root, at), at, m.regs, n, d)
    ensures child == Record(Behind(SegmentAt(m.root, at), d), d, n, NumberOf(SegmentAt(m.root, at), n, d))
    ensures SameCommands(old(m.command), m.command)
    decreases SegmentAt(m.root, at), 0
  {
    hide Scanning;
    hide SlotNumbered;
    hide Numbered;
    hide Fresh;
    hide Count;
    hide Descended;
    hide SegmentAt;
    hide OnlyBehind;
    hide OnlyUnder;
    hide Machine.Reaches;
    hide Pack;
    hide Kids;
    hide Devices;
    hide SameCommands;
    hide CommandOf;
    hide Quiet;
    hide ChainOf;
    ghost var root, seg, b := m.root, SegmentAt(m.root, at), NumberOf(SegmentAt(m.root, at), n, d);
    ghost var r0, c0 := m.regs, m.command;
    CountStep(seg, d);
    max := max0 + 1;
    child := BusRecord(d, max, n, max, 0xff, [], []);
    var cr, buses := OpenBridge(m, n, d, max, at);
    ghost var r1 := m.regs;
    Opened(root, r0, r1, at, n, d, Reg(r0, at + [d]).timer);
    BehindSmaller(seg, d);
    max, child := ScanBus(m, chain, child, at + [d]);
    child := child.(subordinate := max);
    ghost var r2 := m.regs;
    OpenAbove(root, r0, r1, r2, at, n, d);
    ReadyReaches(m, n, at);
    SetSubordinate(m, n, d, buses, max, at);
    Closed(root, r0, r1, r2, m.regs, at, n, d);
    ReadyReaches(m, n, at);
    CommandsRestored(c0, 0, m.command, at + [d]);
    m.WriteCommand(n, d, cr, at);
  }

  /** Clearing status bits does not change where accesses go. */
  lemma StatusCleared(root: Segment, r0: Registers, r1: Registers, n: nat, at: Path, d: nat)
    requires Scanning(root, r0, n, at) && r1 == r0[at + [d] := Reg(r0, at + [d]).(status := 0)]
    ensures Scanning(root, r1, n, at)
  {
    OpenFrame(root, [], r0, r1, at, 0);
  }

  lemma CountStep(seg: Segment, d: nat)
    requires d < |seg.slots|
    ensures Count(seg, d + 1) == Count(seg, d) + if Descended(seg, d) then 1 + Total(Behind(seg, d)) else 0
  {
  }

  lemma BehindSmaller(seg: Segment, d: nat)
    requires d < |seg.slots|
    ensures seg decreases to Behind(seg, d)
  {
  }

  /** While the buses behind bridge d are scanned, the way to its own bus stays open. */
  lemma OpenAbove(root: Segment, r0: Registers, r1: Registers, r2: Registers, at: Path, n: nat, d: nat)
    requires Scanning(root, r0, n, at) && OnlyBehind(r0, r1, at, d) && OnlyUnder(r1, r2, at + [d])
    ensures Scanning(root, r2, n, at) && Reg(r2, at + [d]) == Reg(r1, at + [d])
  {
    OpenFrame(root, [], r0, r2, at, 0);
  }

  /** Moving on over slots that are not descended into changes nothing. */
  lemma {:induction false} SkipTo(seg: Segment, at: Path, regs: Registers, n: nat, lo: nat, d: nat)
    requires lo <= d <= |seg.slots| && Fresh(regs, at, lo)
    requires forall i :: lo <= i < d ==> !Descended(seg, i)
    ensures Count(seg, d) == Count(seg, lo) && Kids(seg, n, d) == Kids(seg, n, lo)
    ensures ChainBehind(seg, n, d) == ChainBehind(seg, n, lo)
    ensures forall i :: lo <= i < d ==> SlotNumbered(seg, at, regs, n, i)
    ensures Fresh(regs, at, d)
    decreases d
  {
    hide Descended;
    hide Numbered;
    if lo < d {
      SkipTo(seg, at, regs, n, lo, d - 1);
      assert Under(at, at + [d - 1]) && (at + [d - 1])[|at|] == d - 1;
    }
  }

  /** What is finished stays finished while slot d is scanned. */
  lemma SlotsKept(seg: Segment, at: Path, regs: Registers, regs': Registers, n: nat, d: nat)
    requires d < |seg.slots| && Fresh(regs, at, d) && OnlyBehind(regs, regs', at, d)
    requires forall i :: 0 <= i < d ==> SlotNumbered(seg, at, regs, n, i)
    ensures forall i :: 0 <= i < d ==> SlotNumbered(seg, at, regs', n, i)
    ensures Fresh(regs', at, d + 1)
  {
    hide Descended;
    hide Numbered;
    forall i: nat | i < d
      ensures SlotNumbered(seg, at, regs', n, i)
    {
      assert SlotNumbered(seg, at, regs, n, i);
      assert (at + [i])[|at|] == i;
      if Descended(seg, i) {
        forall p: Path | Under(at + [i], p) ensures Reg(regs, p) == Reg(regs', p) { UnderSlot(at, i, p); }
        NumberedFrame(Behind(seg, i), at + [i], regs, regs', NumberOf(seg, n, i));
      }
    }
  }

  /** The devices at and after position j are all the found functions from lo on. */
  ghost predicate Remaining(seg: Segment, devices: seq<Dev>, j: nat, lo: nat)
  {
    && devices == Devices(seg, 0xff) && j <= |devices| && lo <= |seg.slots|
    && (forall k :: 0 <= k < j ==> devices[k].devfn < lo)
    && (forall k :: j <= k < |devices| ==> devices[k].devfn >= lo)
  }

  lemma RemainingNext(seg: Segment, devices: seq<Dev>, j: nat, lo: nat)
    requires Remaining(seg, devices, j, lo)
    ensures forall i :: lo <= i < (if j < |devices| then devices[j].devfn else |seg.slots|) ==> !Found(seg, i)
    ensures j < |devices| ==>
              && lo <= devices[j].devfn < |seg.slots| && IsDev(seg, 0xff, devices[j])
              && Remaining(seg, devices, j + 1, devices[j].devfn + 1)
  {
    hide Found;
    DevicesAre(seg, 0xff);
    forall i: nat | lo <= i < (if j < |devices| then devices[j].devfn else |seg.slots|)
      ensures !Found(seg, i)
    {
      if Found(seg, i) {
        FoundInside(seg, i);
        var k := DeviceOf(seg, 0xff, i);
      }
    }
    if j < |devices| { FoundInside(seg, devices[j].devfn); }
  }

  lemma FoundInside(seg: Segment, f: nat)
    requires Found(seg, f)
    ensures f < |seg.slots| && f < 0xff
  {
  }

  lemma RemainingAll(seg: Segment)
    ensures Remaining(seg, Devices(seg, 0xff), 0, 0)
  {
  }

  /** pci_scan_bus */
  method ScanBus(m: Machine, chain: Chain, bus0: BusRecord, ghost at: Path) returns (max: nat, bus: BusRecord)
    requires Quiet(m.root, m.latches) && Scanning(m.root, m.regs, bus0.secondary, at) && bus0.children == []
    requires bus0.secondary + Total(SegmentAt(m.root, at)) <= 0xff && Fresh(m.regs, at, 0)
    modifies m`regs, m`command, m`latches, chain
    ensures Quiet(m.root, m.latches) && Scanning(m.root, m.regs, bus0.secondary, at)
    ensures OnlyUnder(old(m.regs), m.regs, at)
    ensures chain.devices == old(chain.devices) + ChainOf(SegmentAt(m.root, at), bus0.secondary)
    ensures max == bus0.secondary + Total(SegmentAt(m.root, at))
    ensures Numbered(SegmentAt(m.root, at), at, m.regs, bus0.secondary)
    ensures bus == bus0.(devices := Devices(SegmentAt(m.root, at), 0xff),
                         children := Kids(SegmentAt(m.root, at), bus0.secondary, |SegmentAt(m.root, at).slots|))
    ensures SameCommands(old(m.command), m.command)
    decreases SegmentAt(m.root, at), 1
  {
    hide Scanning;
    hide SlotNumbered;
    hide Fresh;
    hide Count;
    hide Found;
    hide Remaining;
    hide SegmentAt;
    hide Machine.Reaches;
    hide Kids;
    hide Record;
    hide Devices;
    hide OnlyBehind;
    hide OnlyUnder;
    hide Quiet;
    hide SameCommands;
    hide Tagged;
    hide ChainOf;
    hide ChainBehind;
    ghost var seg := SegmentAt(m.root, at);
    ghost var r0, c0, command := m.regs, chain.devices, m.command;
    var n := bus0.secondary;
    ReadyReaches(m, n, at);
    var devices := ScanFunctions(m, chain, n, at);
    bus := bus0.(devices := devices);
    max := n;
    ghost var lo: nat := 0;
    RemainingAll(seg);
    ScanStart(seg, r0, at, n);
    var j := 0;
    while j < |devices|
      invariant 0 <= j <= |devices| && Remaining(seg, devices, j, lo) && lo <= |seg.slots|
      invariant Scanning(m.root, m.regs, n, at) && OnlyUnder(r0, m.regs, at) && Fresh(m.regs, at, lo)
      invariant forall i :: 0 <= i < lo ==> SlotNumbered(seg, at, m.regs, n, i)
      invariant max == n + Count(seg, lo) && bus == bus0.(devices := devices, children := Kids(seg, n, lo))
      invariant chain.devices == c0 + (Tagged(n, devices) + ChainBehind(seg, n, lo))
      invariant SameCommands(command, m.command) && Quiet(m.root, m.latches)
    {
      var dev := devices[j];
      ghost var r, now := m.regs, m.command;
      RemainingNext(seg, devices, j, lo);
      SkipTo(seg, at, r, n, lo, dev.devfn);
      if dev.kind == BRIDGE_PCI && !Quirk(dev.id) {
        CountRises(seg, dev.devfn + 1, |seg.slots|);
        var child;
        max, child := ScanBehind(m, chain, n, dev.devfn, max, at);
        SameChain(command, now, m.command);
        ChainStep(seg, n, dev.devfn, c0, Tagged(n, devices));
        bus := bus.(children := [child] + bus.children);
        SlotsKept(seg, at, r, m.regs, n, dev.devfn);
        UnderChain(r0, r, m.regs, at, dev.devfn);
        KidsStep(seg, n, dev.devfn);
      } else {
        SkipTo(seg, at, r, n, dev.devfn, dev.devfn + 1);
      }
      lo := dev.devfn + 1;
      j := j + 1;
    }
    RemainingNext(seg, devices, j, lo);
    SkipTo(seg, at, m.regs, n, lo, |seg.slots|);
    ChainIs(seg, n);
  }

  lemma ScanStart(seg: Segment, regs: Registers, at: Path, n: nat)
    ensures Count(seg, 0) == 0 && Kids(seg, n, 0) == [] && ChainBehind(seg, n, 0) == [] && OnlyUnder(regs, regs, at)
    ensures forall c: seq<Entry> :: c + [] == c
  {
  }

  lemma ChainStep(seg: Segment, n: nat, d: nat, c0: seq<Entry>, own: seq<Entry>)
    requires d < |seg.slots| && Descended(seg, d)
    ensures c0 + (own + ChainBehind(seg, n, d)) + ChainOf(Behind(seg, d), NumberOf(seg, n, d))
            == c0 + (own + ChainBehind(seg, n, d + 1))
  {
    hide Descended;
    hide ChainOf;
  }

  lemma ChainIs(seg: Segment, n: nat)
    ensures ChainOf(seg, n) == Tagged(n, Devices(seg, 0xff)) + ChainBehind(seg, n, |seg.slots|)
  {
  }

  lemma UnderChain(r0: Registers, r1: Registers, r2: Registers, at: Path, d: nat)
    requires OnlyUnder(r0, r1, at) && OnlyBehind(r1, r2, at, d)
    ensures OnlyUnder(r0, r2, at)
  {
  }

  lemma KidsStep(seg: Segment, n: nat, d: nat)
    requires d < |seg.slots| && Descended(seg, d)
    ensures Kids(seg, n, d + 1) == [Record(Behind(seg, d), d, n, NumberOf(seg, n, d))] + Kids(seg, n, d)
  {
  }

  // ----- After the scan -----

  /** The way to bus b, for the numbering alone. */
  function PathsOf(seg: Segment, at: Path, n: nat, b: nat, i: nat): seq<Path>
    requires i <= |seg.slots|
    decreases seg, i
  {
    if i == 0 then []
    else PathsOf(seg, at, n, b, i - 1) + SlotPaths(seg, at, n, b, i - 1)
  }

  function SlotPaths(seg: Segment, at: Path, n: nat, b: nat, i: nat): seq<Path>
    requires i < |seg.slots|
    decreases seg, i, 0
  {
    if !Descended(seg, i) then []
    else
      var s, behind := NumberOf(seg, n, i), Behind(seg, i);
      if b == s then [at + [i]]
      else if s < b <= s + Total(behind) then PathsOf(behind, at + [i], s, b, |behind.slots|)
      else []
  }

  /** Numbers 1 to Total are taken once each. */
  lemma {:induction false} PathsOnce(seg: Segment, at: Path, n: nat, b: nat, i: nat)
    requires i <= |seg.slots|
    ensures |PathsOf(seg, at, n, b, i)| == if n < b <= n + Count(seg, i) then 1 else 0
    ensures forall p :: p in PathsOf(seg, at, n, b, i) ==> Under(at, p)
    decreases seg, i
  {
    if i > 0 {
      PathsOnce(seg, at, n, b, i - 1);
      var behind, s := Behind(seg, i - 1), NumberOf(seg, n, i - 1);
      if Descended(seg, i - 1) {
        PathsOnce(behind, at + [i - 1], s, b, |behind.slots|);
        forall p: Path | Under(at + [i - 1], p) ensures Under(at, p) { UnderSlot(at, i - 1, p); }
      }
    }
  }

  lemma {:induction false} ClaimsAre(seg: Segment, at: Path, regs: Registers, n: nat, b: nat, i: nat)
    requires Numbered(seg, at, regs, n) && i <= |seg.slots| && b > 0
    ensures PathsOf(seg, at, n, b, i) + Claims(seg, at, regs, b, i) == PathsOf(seg, at, n, b, |seg.slots|)
    decreases seg, |seg.slots| - i, 1
  {
    if i < |seg.slots| {
      SlotClaims(seg, at, regs, n, b, i);
      ClaimsAre(seg, at, regs, n, b, i + 1);
    }
  }

  lemma {:induction false} SlotClaims(seg: Segment, at: Path, regs: Registers, n: nat, b: nat, i: nat)
    requires Numbered(seg, at, regs, n) && i < |seg.slots| && b > 0
    ensures ClaimsSlot(seg, at, regs, b, i) == SlotPaths(seg, at, n, b, i)
    decreases seg, |seg.slots| - i, 0
  {
    assert SlotNumbered(seg, at, regs, n, i);
    if Descended(seg, i) {
      ClaimsAre(Behind(seg, i), at + [i], regs, NumberOf(seg, n, i), b, 0);
    }
  }

  /** After the scan every number up to the largest reaches exactly one bus, and no other number reaches any. */
  lemma ScannedRouting(root: Segment, regs: Registers, b: nat)
    requires Numbered(root, [], regs, 0)
    ensures |Routed(root, regs, b)| == if b <= Total(root) then 1 else 0
    ensures b > 0 ==> Routed(root, regs, b) == PathsOf(root, [], 0, b, |root.slots|)
  {
    if b > 0 {
      ClaimsAre(root, [], regs, 0, b, 0);
      PathsOnce(root, [], 0, b, |root.slots|);
    }
  }

  /** Different numbers reach different buses. */
  lemma {:induction false} ClaimsNumber(seg: Segment, at: Path, regs: Registers, b: nat, i: nat)
    ensures forall p :: p in Claims(seg, at, regs, b, i) ==> p != [] && Reg(regs, p).secondary == b
    decreases seg, |seg.slots| - i
  {
    if i < |seg.slots| {
      ClaimsNumber(seg, at, regs, b, i + 1);
      ClaimsNumber(seg.slots[i].behind, at + [i], regs, b, 0);
    }
  }

  // ----- The chain of all devices -----

  /** An entry is found by its bus and devfn. */
  predicate Distinct(c: seq<Entry>)
  {
    forall j, k :: 0 <= j < k < |c| ==> c[j].bus != c[k].bus || c[j].dev.devfn != c[k].dev.devfn
  }

  predicate BusesIn(c: seq<Entry>, lo: nat, hi: nat)
  {
    forall j :: 0 <= j < |c| ==> lo <= c[j].bus <= hi
  }

  lemma DistinctConcat(a: seq<Entry>, b: seq<Entry>, lo: nat, mid: nat, hi: nat)
    requires Distinct(a) && Distinct(b) && BusesIn(a, lo, mid) && BusesIn(b, mid + 1, hi) && lo <= mid <= hi
    ensures Distinct(a + b) && BusesIn(a + b, lo, hi)
  {
  }

  /** pci_devices holds every recorded function once, under the number of its bus. */
  lemma {:induction false} ChainOnce(seg: Segment, n: nat)
    ensures Distinct(ChainOf(seg, n)) && BusesIn(ChainOf(seg, n), n, n + Total(seg))
    ensures forall f :: 0 <= f < 0xff && Found(seg, f) ==> Entry(n, DevOf(At(seg, f), f)) in ChainOf(seg, n)
    decreases seg, |seg.slots| + 1
  {
    hide Found;
    hide Count;
    hide DevOf;
    var own, devices := Tagged(n, Devices(seg, 0xff)), Devices(seg, 0xff);
    DevicesAre(seg, 0xff);
    ChainBehindOnce(seg, n, |seg.slots|);
    CountRises(seg, 0, |seg.slots|);
    DistinctConcat(own, ChainBehind(seg, n, |seg.slots|), n, n, n + Total(seg));
    forall f: nat | f < 0xff && Found(seg, f)
      ensures Entry(n, DevOf(At(seg, f), f)) in ChainOf(seg, n)
    {
      var j := DeviceOf(seg, 0xff, f);
      assert IsDev(seg, 0xff, devices[j]) && ChainOf(seg, n)[j] == Entry(n, devices[j]);
    }
  }

  lemma {:induction false} ChainBehindOnce(seg: Segment, n: nat, i: nat)
    requires i <= |seg.slots|
    ensures Distinct(ChainBehind(seg, n, i)) && BusesIn(ChainBehind(seg, n, i), n + 1, n + Count(seg, i))
    decreases seg, i
  {
    hide Descended;
    hide ChainOf;
    if i > 0 {
      ChainBehindOnce(seg, n, i - 1);
      CountStep(seg, i - 1);
      if Descended(seg, i - 1) {
        BehindSmaller(seg, i - 1);
        var b := NumberOf(seg, n, i - 1);
        ChainOnce(Behind(seg, i - 1), b);
        DistinctAfter(ChainBehind(seg, n, i - 1), ChainOf(Behind(seg, i - 1), b), n, b, n + Count(seg, i));
      }
    }
  }

  lemma DistinctAfter(a: seq<Entry>, b: seq<Entry>, n: nat, first: nat, hi: nat)
    requires n < first <= hi && Distinct(a) && Distinct(b) && BusesIn(a, n + 1, first - 1) && BusesIn(b, first, hi)
    ensures Distinct(a + b) && BusesIn(a + b, n + 1, hi)
  {
  }

  /** And those behind a bridge are in it as well. */
  lemma {:induction false} ChainReaches(seg: Segment, n: nat, d: nat, i: nat)
    requires d < i <= |seg.slots| && Descended(seg, d)
    ensures forall e :: e in ChainOf(Behind(seg, d), NumberOf(seg, n, d)) ==> e in ChainBehind(seg, n, i)
    decreases i
  {
    hide Descended;
    hide ChainOf;
    if d < i - 1 { ChainReaches(seg, n, d, i - 1); }
  }

  datatype Slot = NoSlot | Slot(dev: Dev)

  /** pci_find_slot: the device with this bus and devfn, if there is one. */
  method FindSlot(chain: Chain, bus: nat, devfn: nat) returns (r: Slot)
    ensures r.NoSlot? <==> forall e :: e in chain.devices ==> e.bus != bus || e.dev.devfn != devfn
    ensures r.Slot? ==> Entry(bus, r.dev) in chain.devices && r.dev.devfn == devfn
    ensures r.Slot? && Distinct(chain.devices) ==>
      forall e :: e in chain.devices && e.bus == bus && e.dev.devfn == devfn ==> e.dev == r.dev
  {
    var i := 0;
    while i < |chain.devices|
      invariant 0 <= i <= |chain.devices|
      invariant forall j :: 0 <= j < i ==> chain.devices[j].bus != bus || chain.devices[j].dev.devfn != devfn
    {
      var e := chain.devices[i];
      if e.bus == bus && e.dev.devfn == devfn {
        return Slot(e.dev);
      }
      i := i + 1;
    }
    r := NoSlot;
  }

  /** pci_init */
  method PciInit(m: Machine, chain: Chain) returns (pciRoot: BusRecord)
    requires forall p: Path :: Reg(m.regs, p).Are(0, 0, 0)
    requires Total(m.root) <= 0xff && Quiet(m.root, m.latches) && chain.devices == []
    modifies m`regs, m`command, m`latches, chain
    ensures Numbered(m.root, [], m.regs, 0)
    ensures pciRoot == Record(m.root, 0, 0, 0)
    ensures forall p :: Reg(m.regs, p).timer == old(Reg(m.regs, p).timer)
    ensures SameCommands(old(m.command), m.command) && Quiet(m.root, m.latches)
    ensures chain.devices == ChainOf(m.root, 0)
  {
    hide ChainOf;
    pciRoot := BusRecord(0, 0, 0, 0, 0, [], []);
    var max;
    max, pciRoot := ScanBus(m, chain, pciRoot, []);
    pciRoot := pciRoot.(subordinate := max);
  }
}
