/** The smallest tree in which a register stays unreached: one page of memory behind two bridges. */
module PciTwoBridges {
  import opened Bits
  import opened PciAddress
  import PciBusNumbers
  import opened PciTopology
  import opened PciMachine
  import opened PciScan
  import opened PciLayout
  import opened PciDecode
  import opened PciAlloc
  import opened PciReach
  import opened PciBoot

  const Page := Function(0x0001_1234, 0, 0x0100, Config([Cell(0xffff_f000, 0, 0)], 0), Segment([]))
  const Inner := Function(0x0002_1234, 1, BRIDGE_PCI, Config([], 0), Segment([Page]))
  const Outer := Function(0x0003_1234, 1, BRIDGE_PCI, Config([], 0), Segment([Inner]))
  const Tree := Segment([Outer])

  const Nobody: Words := [0, 0, 0, 0, 0, 0]

  // ----- What the scan finds -----

  lemma {:induction false} OneFunction(f: Function, n: nat)
    requires n > 0 && Found(Segment([f]), 0)
    ensures Devices(Segment([f]), n) == [DevOf(f, 0)]
  {
    hide DevOf;
    if n > 1 { OneFunction(f, n - 1); } else { assert Devices(Segment([f]), 0) == []; }
  }

  lemma AllFound()
    ensures Found(Tree, 0) && Descended(Tree, 0) && Found(Segment([Inner]), 0) && Descended(Segment([Inner]), 0)
    ensures Found(Segment([Page]), 0) && !Descended(Segment([Page]), 0)
  {
  }

  /** Nothing is there. */
  lemma AbsentCell()
    ensures Readback(Cell(0, 0, 0), 0) == 0 && SizeWord(Readback(Cell(0, 0, 0), W32 - 1)) == 0
  {
    hide And;
    hide Or;
    PciBusNumbers.AndNothing(0);
    PciBusNumbers.AndNothing(W32 - 1);
    OrNone(0);
  }

  lemma NoCells(f: Function)
    requires f.config.cells == []
    ensures Sizes(f, HowMany(f.header)) == Nobody
  {
    hide Readback;
    hide SizeWord;
    hide UpperHalf;
    AbsentCell();
  }

  lemma PageCell()
    ensures IsRegister(Cell(0xffff_f000, 0, 0), false, 12)
    ensures Readback(Cell(0xffff_f000, 0, 0), 0) == 0 && SizeWord(Readback(Cell(0xffff_f000, 0, 0), W32 - 1)) == 0x1000
  {
    var c := Cell(0xffff_f000, 0, 0);
    Pow2Word();
    hide And;
    hide Or;
    hide Pow2;
    hide SizeWord;
    PciBusNumbers.AndNothing(c.mask);
    OrNone(0);
    MemoryCell(c, 12);
  }

  lemma PageSizes()
    ensures Sizes(Page, 6) == [0x1000, 0, 0, 0, 0, 0]
  {
    hide Readback;
    hide SizeWord;
    hide And;
    AbsentCell();
    PageCell();
    PciBusNumbers.AndNothing(7);
    var now := FirstReadings(Page);
    assert forall i :: 0 <= i < 7 ==> now[i] == 0;
    NoUpper(now);
  }

  lemma NoUpper(now: seq<Word>)
    requires |now| == 7 && forall i :: 0 <= i < 7 ==> now[i] == 0
    ensures forall i: nat :: i <= 6 ==> !UpperHalf(now, i)
  {
  }

  // ----- The layout of the tree -----

  function BridgeBus(c: Bus): Bus
  {
    Bus(Window(0, 0), Window(0, 0), Window(0, 0), [c], [PciLayout.Dev(Nobody, Nobody)])
  }

  const PageBus := Bus(Window(0, 0), Window(0, 0), Window(0, 0), [], [PciLayout.Dev([0x1000, 0, 0, 0, 0, 0], Nobody)])

  lemma TreeBus()
    ensures BusOf(Tree) == BridgeBus(BridgeBus(PageBus))
  {
    hide Sizes;
    hide Found;
    AllFound();
    OneFunction(Page, 0xff);
    OneFunction(Inner, 0xff);
    OneFunction(Outer, 0xff);
    PageSizes();
    NoCells(Inner);
    NoCells(Outer);
    hide Devices;
    hide Descended;
    BusOfOne(Page);
    BusOfOne(Inner);
    BusOfOne(Outer);
  }

  lemma BusOfOne(f: Function)
    requires Devices(Segment([f]), 0xff) == [DevOf(f, 0)]
    ensures var b := BusOf(Segment([f]));
      && b.devices == [PciLayout.Dev(Sizes(f, HowMany(f.header)), Nobody)]
      && b.children == (if Descended(Segment([f]), 0) then [BusOf(f.behind)] else [])
      && b.io == b.mem == b.pref == Window(0, 0)
  {
    hide Devices;
    hide Descended;
    hide Sizes;
    var seg := Segment([f]);
    assert Behind(seg, 0) == f.behind;
    assert BusesOf(seg, 0) == [];
    assert BusesOf(seg, 1) == if Descended(seg, 0) then [BusOf(f.behind)] else [];
  }

  /** The shape of the tree below a bridge and of the last bus, whatever addresses are in it. */
  predicate Over(b: Bus)
  {
    |b.children| == 1 && |b.devices| == 1 && b.devices[0].size == Nobody
  }

  predicate Last(b: Bus)
  {
    |b.children| == 0 && |b.devices| == 1 && b.devices[0].size == [0x1000, 0, 0, 0, 0, 0]
  }

  predicate Shape(b: Bus)
  {
    Over(b) && Over(b.children[0]) && Last(b.children[0].children[0])
  }

  lemma ShapeKept(sp: Space, b: Bus, b': Bus)
    requires Shape(b) && SameBut(sp, b, b')
    ensures Shape(b')
  {
    hide Wants;
    OverKept(sp, b, b');
    OverKept(sp, b.children[0], b'.children[0]);
  }

  lemma OverKept(sp: Space, b: Bus, b': Bus)
    requires Over(b) && SameBut(sp, b, b')
    ensures Over(b') && SameBut(sp, b.children[0], b'.children[0])
  {
    hide Wants;
    assert SameDev(sp, b.devices[0], b'.devices[0]);
    assert b.children[1..] == [] && SameKids(sp, b.children, b'.children);
    assert SameKids(sp, b.children[1..], b'.children[1..]);
  }

  lemma {:induction false} NothingPlaced(sp: Space, d: PciLayout.Dev, i: nat, base: nat)
    requires i <= 6 && forall j :: i <= j < 6 ==> d.size[j] == 0
    ensures AllocBars(sp, d, i, base) == (d, base)
    decreases 6 - i
  {
    hide Wants;
    NoSize(sp);
    if i < 6 { NothingPlaced(sp, d, i + 1, base); }
  }

  /** The last bus takes less than two megabytes of any space. */
  lemma LastFits(sp: Space, b: Bus, base: nat)
    requires Last(b) && base % sp.Align() == 0 && base > 0
    ensures AllocBus(sp, b, base).Win(sp).limit < base + 0x20_0000
  {
    hide Wants;
    hide Place;
    hide Next;
    hide Rounded;
    var d := b.devices[0];
    assert b.devices[1..] == [];
    assert AllocDevs(sp, b.devices[1..], AllocBars(sp, d, 0, base).1).1 == AllocBars(sp, d, 0, base).1;
    if Wants(sp, 0x1000) {
      PageNext(sp, base);
      NothingPlaced(sp, d.(addr := d.addr[0 := Stored(sp, Place(sp, 0x1000, base))]), 1, Next(sp, 0x1000, base));
    } else {
      NothingPlaced(sp, d, 1, base);
    }
  }

  lemma PageNext(sp: Space, base: nat)
    requires Wants(sp, 0x1000) && base % sp.Align() == 0
    ensures Next(sp, 0x1000, base) <= base + 0x2000
  {
    hide And;
    hide Rounded;
    FlagBits(0x1000);
    RoundedTo(0x1000, IO_ALIGN);
    RoundedPositive(0x1000);
    Pow2Word();
    RoundedMultiple(0x1000, 12);
  }

  /** And so does a bus with nothing but a bridge to it. */
  lemma OverFits(sp: Space, b: Bus, base: nat)
    requires Over(b) && base % sp.Align() == 0 && base > 0
    ensures AllocBus(sp, b, base).Win(sp).limit == AllocBus(sp, b.children[0], base).Win(sp).limit
  {
    hide Wants;
    hide Rounded;
    hide Laid;
    hide SameBut;
    var c := AllocBus(sp, b.children[0], base);
    AllocBusLaid(sp, b.children[0], base);
    WindowEnd(sp, c);
    var k := After(sp, c.Win(sp).limit);
    assert b.children[1..] == [] && b.devices[1..] == [];
    assert AllocKids(sp, b.children, base).1 == k;
    NothingPlaced(sp, b.devices[0], 0, k);
    assert AllocDevs(sp, b.devices, k).1 == k;
    RoundedTo(k, sp.Align());
  }

  lemma ShapeFits(sp: Space, b: Bus, base: nat)
    requires Shape(b) && base % sp.Align() == 0 && base > 0
    ensures AllocBus(sp, b, base).Win(sp).limit < base + 0x20_0000
  {
    hide AllocBus;
    OverFits(sp, b, base);
    OverFits(sp, b.children[0], base);
    LastFits(sp, b.children[0].children[0], base);
  }

  /** The layout of the tree is far below 4G. */
  lemma TreeFits()
    ensures AllFit(BusOf(Tree))
  {
    hide BusOf;
    hide AllocBus;
    hide Laid;
    hide Rounded;
    var b := BusOf(Tree);
    TreeBus();
    hide SameKids;
    hide SameDevs;
    var b1 := AllocBus(Io, b, PCI_IO_START);
    AllocBusLaid(Io, b, PCI_IO_START);
    ShapeFits(Io, b, PCI_IO_START);
    ShapeKept(Io, b, b1);
    var b2 := AllocBus(Mem, b1, PCI_MEM_START);
    AllocBusLaid(Mem, b1, PCI_MEM_START);
    ShapeFits(Mem, b1, PCI_MEM_START);
    ShapeKept(Mem, b1, b2);
    WindowEnd(Mem, b2);
    var p := After(Mem, b2.mem.limit);
    var b3 := AllocBus(Pref, b2, p);
    AllocBusLaid(Pref, b2, p);
    ShapeFits(Pref, b2, p);
    assert b3 == AllocAll(b);
    assert b3.Win(Io) == b2.Win(Io) == b1.Win(Io) && b3.Win(Mem) == b2.Win(Mem);
  }

  // ----- The page is not reached -----

  lemma Places()
    ensures FunctionAt(Tree, [0]) == Outer && FunctionAt(Tree, [0, 0]) == Inner && FunctionAt(Tree, [0, 0, 0]) == Page
  {
    assert [0][..0] == [] && [0, 0][..1] == [0] && [0, 0, 0][..2] == [0, 0] && [0, 0][1..] == [0] && [0][1..] == [];
    assert SegmentAt(Tree, []) == Tree;
    assert SegmentAt(Segment([Inner]), []) == Segment([Inner]);
    assert SegmentAt(Tree, [0]) == Segment([Inner]);
    assert SegmentAt(Segment([Inner]), [0]) == Segment([Page]);
    assert SegmentAt(Tree, [0, 0]) == Segment([Page]);
  }

  lemma PageRecorded()
    ensures Recorded(Tree, [0, 0, 0])
  {
    hide Found;
    AllFound();
    assert [0, 0, 0][1..] == [0, 0] && [0, 0][1..] == [0];
    assert Behind(Tree, 0) == Segment([Inner]) && Behind(Segment([Inner]), 0) == Segment([Page]);
    assert Recorded(Segment([Page]), [0]);
    assert Recorded(Segment([Inner]), [0, 0]);
  }

  lemma OnlyThese(p: Path)
    requires Recorded(Tree, p)
    ensures p == [0] || p == [0, 0] || p == [0, 0, 0]
  {
    AllFound();
    assert Behind(Tree, 0) == Segment([Inner]) && Behind(Segment([Inner]), 0) == Segment([Page]);
    InOnly(Outer, p);
    if |p| > 1 {
      InOnly(Inner, p[1..]);
      if |p| > 2 { InOnly(Page, p[2..]); }
    }
  }

  lemma InOnly(f: Function, p: Path)
    requires Recorded(Segment([f]), p)
    ensures p[0] == 0
  {
    FoundInside(Segment([f]), p[0]);
  }

  lemma FormedOf(f: Function)
    requires f == Page || f.config.cells == []
    ensures WellFormed(f)
  {
    hide Readback;
    hide And;
    hide IsRegister;
    AbsentCell();
    PageCell();
    PciBusNumbers.AndNothing(7);
    var now := FirstReadings(f);
    assert forall i :: 0 <= i < 7 ==> now[i] == 0;
    NoUpper(now);
    forall reg: nat | reg < HowMany(f.header)
      ensures RegisterFormed(f, reg)
    {
      assert AtFirst(f, reg + 1) == now[reg + 1];
    }
  }

  lemma Formed()
    ensures AllFormed(Tree)
  {
    hide WellFormed;
    hide FunctionAt;
    hide Recorded;
    Places();
    FormedOf(Page);
    FormedOf(Inner);
    FormedOf(Outer);
    forall p: Path | p != [] && Recorded(Tree, p)
      ensures WellFormed(FunctionAt(Tree, p))
    {
      OnlyThese(p);
    }
  }

  lemma PageWanted()
    ensures Wants(Mem, 0x1000) && Length(Mem, 0x1000) == 0x1000
  {
    hide And;
    FlagBits(0x1000);
    TypeClear();
  }

  lemma TypeClear()
    ensures And(0x1000, TYPE_1M) == 0 && And(0x1000, PREFETCH) == 0
  {
    hide And;
    NibbleAnd(0x1000, 2);
    NibbleAnd(0x1000, 8);
    PciBusNumbers.AndNothing(2);
    PciBusNumbers.AndNothing(8);
  }

  /** Its register gets a page of addresses, and none of them is answered. */
  lemma Unreached(s: Setup, a: Word)
    requires IsSetUp(Tree, s, AllocAll(BusOf(Tree)))
    ensures Wanted(Tree, [0, 0, 0], 0, Mem) && GivenAt(Tree, s, [0, 0, 0], 0, Mem).len == 0x1000
    ensures GivenAt(Tree, s, [0, 0, 0], 0, Mem).Has(a) ==> !Answered(Tree, s, false, a, [0, 0, 0], 0)
  {
    hide *;
    PageIsWanted(s);
    Formed();
    TreeFits();
    FinalLayout(Tree);
    if GivenAt(Tree, s, [0, 0, 0], 0, Mem).Has(a) {
      MemoryAnswered(Tree, s, AllocAll(BusOf(Tree)), [0, 0, 0], 0, Mem, a);
    }
  }

  lemma PageIsWanted(s: Setup)
    ensures Wanted(Tree, [0, 0, 0], 0, Mem) && GivenAt(Tree, s, [0, 0, 0], 0, Mem).len == 0x1000
  {
    hide Wants;
    hide Length;
    hide Sizes;
    hide Recorded;
    hide FunctionAt;
    hide AddressOf;
    PageRecorded();
    Places();
    PageSizes();
    PageWanted();
  }
}
