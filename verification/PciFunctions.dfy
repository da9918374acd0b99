/**
 Which functions of a bus the scan of linuxpci.c records and which bridges it looks behind, told from the header
 fields and the masks alone.
 */
module PciFunctions {
  import opened Bits
  import opened PciAddress
  import opened PciTopology
  import opened PciMachine
  import opened PciScan
  import opened PciBusNumbers

  /** Neither all ones nor zero in vendor and device: a function answers. */
  predicate Responds(f: Function)
  {
    f.id != 0xffff_ffff && f.id != 0 && f.id != 0xffff && f.id != 0xffff_0000
  }

  /** A PCI bridge, and nothing else, has header type 1; a CardBus bridge has header type 2. */
  predicate Agrees(f: Function)
  {
    || (And(f.header, 0x7f) == 0 && f.kind != 0x0604)
    || (And(f.header, 0x7f) == 1 && f.kind == 0x0604)
    || (And(f.header, 0x7f) == 2 && f.kind == 0x0607)
  }

  predicate Listed(seg: Segment, devfn: nat)
  {
    exists j :: 0 <= j < |Devices(seg, 0xff)| && Devices(seg, 0xff)[j].devfn == devfn
  }

  /** The masks of the header type byte. */
  lemma HeaderMasks(header: nat)
    ensures And(header, 0x7f) == header % 128 && (And(header, 0x80) == 0 || And(header, 0x80) == 0x80)
    ensures And(header, 0x80) == 0x80 <==> header / 128 % 2 == 1
  {
    hide And;
    hide Pow2;
    EightBits();
    AndMask(header, 7);
    AndLow(header, 0x80, 8);
    var h := header % 256;
    TopBit(h, 7);
    HighBit(header);
  }

  lemma EightBits()
    ensures Pow2(7) == 128 && Pow2(8) == 256
  {
  }

  lemma HighBit(x: nat)
    ensures x % 256 >= 128 <==> x / 128 % 2 == 1
  {
    var q, r := x / 256, x % 256;
    assert x == 256 * q + r;
    if r >= 128 { DivModUnique(x, 128, 2 * q + 1, r - 128); } else { DivModUnique(x, 128, 2 * q, r); }
  }

  lemma TypeAgrees(f: Function)
    ensures Agrees(f) <==> KnownHeader(f.header, f.kind)
    ensures Responds(f) <==> !NoId(f.id)
  {
    hide And;
    HeaderMasks(f.header);
  }

  /**
   Exactly these functions are recorded: those that answer with header type and class that agree, and of functions 1
   to 7 only those whose function 0 answers and is not recorded as a device with a single function.
   */
  lemma RecordedExactly(seg: Segment, devfn: nat)
    ensures Listed(seg, devfn) <==>
              var f, zero := At(seg, devfn), At(seg, devfn - devfn % 8);
              && devfn < 0xff && Responds(f) && Agrees(f)
              && (devfn % 8 != 0 ==> Responds(zero) && (Agrees(zero) ==> And(zero.header, 0x80) == 0x80))
  {
    hide And;
    hide DevOf;
    hide Agrees;
    hide Responds;
    hide KnownHeader;
    hide NoId;
    var f, zero := At(seg, devfn), At(seg, devfn - devfn % 8);
    TypeAgrees(f);
    TypeAgrees(zero);
    HeaderMasks(zero.header);
    ListedFound(seg, devfn);
  }

  lemma ListedFound(seg: Segment, devfn: nat)
    ensures Listed(seg, devfn) <==> devfn < 0xff && Found(seg, devfn)
  {
    hide Found;
    hide DevOf;
    DevicesAre(seg, 0xff);
    if Listed(seg, devfn) {
      var j :| 0 <= j < |Devices(seg, 0xff)| && Devices(seg, 0xff)[j].devfn == devfn;
      assert IsDev(seg, 0xff, Devices(seg, 0xff)[j]);
      DevOfIs(At(seg, Devices(seg, 0xff)[j].devfn), Devices(seg, 0xff)[j].devfn);
    }
    if devfn < 0xff && Found(seg, devfn) { var j := DeviceOf(seg, 0xff, devfn); }
  }

  lemma DevOfIs(f: Function, devfn: nat)
    ensures DevOf(f, devfn).devfn == devfn && DevOf(f, devfn).id == f.id && DevOf(f, devfn).kind == f.kind
  {
  }

  /**
   What is recorded of each: the ROM register too, unless it reads all ones; a CardBus bridge is not asked for one.
   */
  lemma RecordedFields(seg: Segment, j: nat)
    requires j < |Devices(seg, 0xff)|
    ensures var d := Devices(seg, 0xff)[j];
      var f := At(seg, d.devfn);
      && d.id == f.id && d.kind == f.kind && d.base == [0, 0, 0, 0, 0, 0]
      && d.rom == if And(f.header, 0x7f) == 2 || f.config.rom == 0xffff_ffff then 0 else f.config.rom
  {
    hide And;
    hide Found;
    DevicesAre(seg, 0xff);
    var d := Devices(seg, 0xff)[j];
    assert IsDev(seg, 0xff, d);
    HeaderMasks(At(seg, d.devfn).header);
  }

  /**
   A bridge that the scan does not look behind, by vendor and device: ServerWorks HE and LE, Compaq 6010, Intel 82454NX
   and 82451NX.
   */
  predicate Peer(vendor: nat, device: nat)
  {
    || (vendor == 0x1166 && (device == 0x0008 || device == 0x0009))
    || (vendor == 0x0e11 && device == 0x6010)
    || (vendor == 0x8086 && (device == 0x84ca || device == 0x84cb))
  }

  lemma QuirkIs(id: Word)
    ensures Quirk(id) <==> Peer(id % 0x1_0000, id / 0x1_0000)
  {
    var v, d := id % 0x1_0000, id / 0x1_0000;
    assert id == 0x1_0000 * d + v;
  }

  /** The scan looks behind exactly the recorded PCI bridges that are not in that list. */
  lemma DescendedExactly(seg: Segment, devfn: nat)
    requires At(seg, devfn).id < W32
    ensures Descended(seg, devfn) <==>
              var f := At(seg, devfn);
              devfn < 0xff && Found(seg, devfn) && And(f.header, 0x7f) == 1
              && !Peer(f.id % 0x1_0000, f.id / 0x1_0000)
  {
    hide And;
    hide Quirk;
    QuirkIs(At(seg, devfn).id);
    HeaderMasks(At(seg, devfn).header);
  }

  // ----- The records of buses -----

  /** The records below a bus hold what the registers of their bridges do, the bridge found last first. */
  predicate RecordsMatch(kids: seq<BusRecord>, at: Path, regs: Registers)
  {
    && (forall i, j :: 0 <= i < j < |kids| ==> kids[i].self > kids[j].self)
    && forall i :: 0 <= i < |kids| ==>
         && Reg(regs, at + [kids[i].self]).Are(kids[i].primary, kids[i].secondary, kids[i].subordinate)
         && kids[i].number == kids[i].secondary
         && RecordsMatch(kids[i].children, at + [kids[i].self], regs)
  }

  /** After a scan the records and the registers of the whole tree agree. */
  lemma {:induction false} ScannedRecords(seg: Segment, at: Path, regs: Registers, n: nat, k: nat)
    requires Numbered(seg, at, regs, n) && k <= |seg.slots|
    ensures RecordsMatch(Kids(seg, n, k), at, regs)
    ensures forall i :: 0 <= i < |Kids(seg, n, k)| ==> Kids(seg, n, k)[i].self < k
    decreases seg, k
  {
    hide Descended;
    hide Devices;
    if k > 0 {
      ScannedRecords(seg, at, regs, n, k - 1);
      assert SlotNumbered(seg, at, regs, n, k - 1);
      if Descended(seg, k - 1) {
        var b := NumberOf(seg, n, k - 1);
        ScannedRecords(Behind(seg, k - 1), at + [k - 1], regs, b, |Behind(seg, k - 1).slots|);
        MatchMore(Record(Behind(seg, k - 1), k - 1, n, b), Kids(seg, n, k - 1), at, regs);
      }
    }
  }

  lemma MatchMore(r: BusRecord, kids: seq<BusRecord>, at: Path, regs: Registers)
    requires RecordsMatch(kids, at, regs) && forall i :: 0 <= i < |kids| ==> kids[i].self < r.self
    requires Reg(regs, at + [r.self]).Are(r.primary, r.secondary, r.subordinate) && r.number == r.secondary
    requires RecordsMatch(r.children, at + [r.self], regs)
    ensures RecordsMatch([r] + kids, at, regs)
  {
  }
}
