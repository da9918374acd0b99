/**
 The base address registers of a function from what the PCI Local Bus Specification says of them (section 6.2.5.1):
 which are sized, what their sizes are, and which of them are given addresses.
 */
module PciBars {
  import opened Bits
  import opened PciAddress
  import opened PciTopology
  import opened PciMachine
  import opened PciLayout
  import PciBusNumbers
  import opened PciScan
  import opened PciDecode
  import opened PciReach
  import opened PciBoot
  import PciAlloc
  import PciFunctions

  /** Where a memory register may be mapped: anywhere in 32 bits, below 1M, anywhere in 64 bits. */
  datatype Kind = Anywhere | Below1M | Wide

  /** What is behind a register: nothing, 2^k ports, 2^k bytes of memory. */
  datatype Bar = Nothing | Ports(k: nat, upper: bool) | Memory(k: nat, kind: Kind, prefetchable: bool)
  {
    predicate Ok()
    {
      match this
      case Nothing => true
      case Ports(k, upper) => 2 <= k <= 16 && (k == 16 ==> upper)
      case Memory(k, kind, p) => 4 <= k <= 31
    }

    /** The bits that tell the kind. */
    function Flags(): nat
    {
      match this
      case Nothing => 0
      case Ports(k, upper) => 1
      case Memory(k, kind, p) =>
        (match kind case Anywhere => 0 case Below1M => 2 case Wide => 4) + if p then 8 else 0
    }

    /** The first of its registers. */
    function Low(): Cell
      requires Ok()
    {
      PowerFits(this);
      match this
      case Nothing => Cell(0, 0, 0)
      case Ports(k, upper) => Cell((if upper then W32 else 0x1_0000) - Pow2(k), 1, 0)
      case Memory(k, kind, p) => Cell(W32 - Pow2(k), Flags(), 0)
    }

    /** A 64-bit register takes two. */
    predicate Double() { Memory? && kind.Wide? }

    /** The pass that has to give it addresses: none for memory below 1M, which the code does not support. */
    predicate Belongs(sp: Space)
    {
      match this
      case Nothing => false
      case Ports(k, upper) => sp == Io
      case Memory(k, kind, p) => !kind.Below1M? && sp == if p then Pref else Mem
    }

    function Size(): nat
    {
      if Nothing? then 0 else Pow2(k)
    }
  }

  lemma PowerFits(b: Bar)
    requires b.Ok()
    ensures !b.Nothing? ==> Pow2(b.k) < W32 && (b.Ports? && !b.upper ==> Pow2(b.k) <= 0x8000)
  {
    hide Pow2;
    Pow2Sixteen();
    PciAddress.Pow2Word();
    if b.Ports? {
      Pow2Mono(b.k, 16);
      if b.k < 16 { Pow2Mono(b.k, 15); }
    } else if b.Memory? {
      Pow2Mono(b.k, 32);
    }
  }

  /** The registers of a list of them. */
  function Cells(bars: seq<Bar>): seq<Cell>
    requires forall i :: 0 <= i < |bars| ==> bars[i].Ok()
  {
    if bars == [] then []
    else [bars[0].Low()] + (if bars[0].Double() then [Cell(0xffff_ffff, 0, 0)] else []) + Cells(bars[1..])
  }

  /** The number of the first register of the i-th. */
  function Number(bars: seq<Bar>, i: nat): nat
    requires i <= |bars|
  {
    if i == 0 then 0 else Number(bars, i - 1) + if bars[i - 1].Double() then 2 else 1
  }

  /** The function has these registers: 6 with header type 0, 2 with type 1, 1 with type 2. */
  predicate HasBars(f: Function, bars: seq<Bar>)
  {
    && (forall i :: 0 <= i < |bars| ==> bars[i].Ok())
    && f.config.cells == Cells(bars)
    && match And(f.header, 0x7f) case 0 => |Cells(bars)| <= 6 case 1 => |Cells(bars)| <= 2 case 2 => |Cells(bars)| <= 1
                                  case _ => false
  }

  /** What a register reads before anything is written to it, and how it is sized. */
  lemma BarReads(b: Bar)
    requires b.Ok()
    ensures Readback(b.Low(), 0) == b.Flags() && SizeWord(Readback(b.Low(), W32 - 1)) == b.Size() + b.Flags()
    ensures !b.Nothing? ==> IsRegister(b.Low(), b.Ports?, b.k)
  {
    hide And;
    hide Or;
    hide Pow2;
    hide SizeWord;
    hide Readback;
    FirstReading(b.Low());
    if b.Nothing? {
      NothingThere();
    } else {
      PowerFits(b);
      PciBusNumbers.AndNothing(b.Low().mask);
      if b.Ports? { IoCell(b.Low(), b.k); } else { MemoryCell(b.Low(), b.k); }
    }
  }

  lemma FirstReading(c: Cell)
    ensures Readback(c, 0) == c.fixed
  {
    hide Or;
    PciBusNumbers.AndNothing(c.mask);
    OrNone(c.fixed);
  }

  lemma NothingThere()
    ensures SizeWord(Readback(Cell(0, 0, 0), W32 - 1)) == 0
  {
    hide And;
    hide Or;
    PciBusNumbers.AndNothing(W32 - 1);
    OrNone(0);
  }

  // ----- Where the registers are -----

  lemma {:induction false} NumberRises(bars: seq<Bar>, i: nat, j: nat)
    requires i <= j <= |bars|
    ensures Number(bars, i) + (j - i) <= Number(bars, j)
    decreases j
  {
    if i < j { NumberRises(bars, i, j - 1); }
  }

  lemma {:induction false} NumberFirst(bars: seq<Bar>, i: nat)
    requires bars != [] && 1 <= i <= |bars|
    ensures Number(bars, i) == (if bars[0].Double() then 2 else 1) + Number(bars[1..], i - 1)
  {
    if i > 1 { NumberFirst(bars, i - 1); } else { assert Number(bars, 0) == 0; }
  }

  lemma {:induction false} CellsAt(bars: seq<Bar>, i: nat)
    requires i < |bars| && forall j :: 0 <= j < |bars| ==> bars[j].Ok()
    ensures Number(bars, i + 1) <= |Cells(bars)| && Cells(bars)[Number(bars, i)] == bars[i].Low()
    ensures bars[i].Double() ==> Cells(bars)[Number(bars, i) + 1] == Cell(0xffff_ffff, 0, 0)
    decreases |bars|
  {
    hide Bar.Low;
    hide Bar.Double;
    hide Bar.Ok;
    hide Number;
    hide Cells;
    NumberFirst(bars, i + 1);
    NumberStep(bars, i);
    CellsInFront(bars);
    if i > 0 {
      NumberFirst(bars, i);
      CellsAt(bars[1..], i - 1);
      NumberStep(bars[1..], i - 1);
      CellsBehind(bars);
      var h, k := if bars[0].Double() then 2 else 1, Number(bars[1..], i - 1);
      assert Cells(bars)[h..][k] == Cells(bars)[h + k];
      assert bars[i].Double() ==> Cells(bars)[h..][k + 1] == Cells(bars)[h + k + 1];
    }
  }

  lemma NumberStep(bars: seq<Bar>, i: nat)
    requires i < |bars|
    ensures Number(bars, 0) == 0 && Number(bars, i + 1) == Number(bars, i) + if bars[i].Double() then 2 else 1
    ensures Number(bars[1..], 0) == 0
  {
  }

  lemma CellsInFront(bars: seq<Bar>)
    requires bars != [] && forall j :: 0 <= j < |bars| ==> bars[j].Ok()
    ensures |Cells(bars)| >= (if bars[0].Double() then 2 else 1) && Cells(bars)[0] == bars[0].Low()
    ensures bars[0].Double() ==> Cells(bars)[1] == Cell(0xffff_ffff, 0, 0)
  {
    hide Bar.Low;
    hide Bar.Double;
  }

  lemma CellsBehind(bars: seq<Bar>)
    requires bars != [] && forall j :: 0 <= j < |bars| ==> bars[j].Ok()
    ensures (if bars[0].Double() then 2 else 1) + |Cells(bars[1..])| == |Cells(bars)|
    ensures Cells(bars)[(if bars[0].Double() then 2 else 1)..] == Cells(bars[1..])
  {
    hide Bar.Low;
    hide Bar.Double;
  }

  // ----- What is sized -----

  lemma FirstOf(f: Function, bars: seq<Bar>, i: nat)
    requires HasBars(f, bars) && i < |bars|
    ensures var n := Number(bars, i);
      && n < 6 && CellAt(f, n) == bars[i].Low() && AtFirst(f, n) == bars[i].Flags()
      && (bars[i].Double() ==> n + 1 < 6 && AtFirst(f, n + 1) == 0)
    ensures Number(bars, i + 1) <= HowMany(f.header) && f.header % 128 < 3
  {
    hide And;
    hide Bar.Low;
    hide Readback;
    PciFunctions.HeaderMasks(f.header);
    CellsAt(bars, i);
    NumberRises(bars, i, i + 1);
    BarReads(bars[i]);
    if bars[i].Double() { FirstReading(Cell(0xffff_ffff, 0, 0)); }
    ResetZero(bars[i]);
  }

  lemma ResetZero(b: Bar)
    requires b.Ok()
    ensures b.Low().reset == 0 && b.Low().fixed == b.Flags() < 16
  {
  }

  lemma KindBits(b: Bar)
    requires b.Ok()
    ensures And(b.Flags(), 7) == TYPE_64 <==> b.Double()
    ensures b.Memory? ==> (And(b.Flags(), TYPE_1M) != 0 <==> b.kind.Below1M?)
    ensures b.Memory? ==> (And(b.Flags(), PREFETCH) != 0 <==> b.prefetchable)
  {
    hide And;
    LiteralBits();
    SingleBits();
  }

  lemma LiteralBits()
    ensures And(0, 7) == 0 && And(1, 7) == 1 && And(2, 7) == 2 && And(4, 7) == 4 && And(8, 7) == 0
    ensures And(10, 7) == 2 && And(12, 7) == 4
  {
  }

  lemma SingleBits()
    ensures And(0, 2) == 0 && And(2, 2) == 2 && And(4, 2) == 0 && And(8, 2) == 0 && And(10, 2) == 2 && And(12, 2) == 0
    ensures And(0, 8) == 0 && And(2, 8) == 0 && And(4, 8) == 0 && And(8, 8) == 8 && And(10, 8) == 8 && And(12, 8) == 8
  {
  }

  /** The second register of a 64-bit one, and no other, is passed over. */
  lemma {:induction false} UpperAt(f: Function, bars: seq<Bar>, i: nat)
    requires HasBars(f, bars) && i <= |bars|
    ensures Number(bars, i) <= 6 && !UpperHalf(FirstReadings(f), Number(bars, i))
    ensures i < |bars| && bars[i].Double() ==> UpperHalf(FirstReadings(f), Number(bars, i) + 1)
  {
    hide And;
    hide Readback;
    hide Bar.Flags;
    hide HasBars;
    if i > 0 {
      UpperAt(f, bars, i - 1);
      FirstOf(f, bars, i - 1);
      KindBits(bars[i - 1]) by { BarOk(f, bars, i - 1); }
      SmallFlags(bars[i - 1]) by { BarOk(f, bars, i - 1); }
    }
    if i < |bars| {
      FirstOf(f, bars, i);
      KindBits(bars[i]) by { BarOk(f, bars, i); }
      SmallFlags(bars[i]) by { BarOk(f, bars, i); }
    }
  }

  lemma BarOk(f: Function, bars: seq<Bar>, i: nat)
    requires HasBars(f, bars) && i < |bars|
    ensures bars[i].Ok()
  {
    hide And;
  }

  lemma SmallFlags(b: Bar)
    requires b.Ok()
    ensures b.Flags() < 16
  {
  }

  /** Every register is sized: what is behind it, and its kind. */
  lemma BarSized(f: Function, bars: seq<Bar>, i: nat)
    requires HasBars(f, bars) && i < |bars|
    ensures var n, size := Number(bars, i), Sizes(f, HowMany(f.header));
      n < 6 && size[n] == bars[i].Size() + bars[i].Flags() && (bars[i].Double() ==> n + 1 < 6 && size[n + 1] == 0)
  {
    hide And;
    hide Readback;
    hide SizeWord;
    hide Bar.Flags;
    hide Bar.Low;
    hide HasBars;
    hide UpperHalf;
    BarOk(f, bars, i);
    FirstOf(f, bars, i);
    UpperAt(f, bars, i);
    BarReads(bars[i]);
    SmallFlags(bars[i]);
  }

  /** Nothing else is: not the registers that the header type does not have. */
  lemma NoneBeyond(f: Function, n: nat)
    requires n < 6 && n >= match And(f.header, 0x7f) case 0 => 6 case 1 => 2 case 2 => 1 case _ => 0
    ensures Sizes(f, HowMany(f.header))[n] == 0
  {
    hide And;
    PciFunctions.HeaderMasks(f.header);
  }

  /** The pass that takes a register is the one it belongs to, and its length is what is behind it. */
  lemma BarTaken(b: Bar, sp: Space)
    requires b.Ok() && b.Size() + b.Flags() < W32
    ensures Wants(sp, b.Size() + b.Flags()) <==> b.Belongs(sp)
    ensures b.Belongs(sp) ==> Length(sp, b.Size() + b.Flags()) == b.Size()
  {
    hide And;
    hide Pow2;
    var size := b.Size() + b.Flags();
    FlagBits(size);
    PciBusNumbers.AndNothing(1);
    if b.Nothing? {
      NoSize(sp);
    } else if b.Ports? {
      PowerBounds(b.k, 2, 16);
      SumRemainder(Pow2(b.k), 1, 4);
    } else {
      PowerBounds(b.k, 4, 32);
      SumRemainder(Pow2(b.k), b.Flags(), 16);
      PciAlloc.NibbleAnd(size, TYPE_1M);
      PciAlloc.NibbleAnd(size, PREFETCH);
      KindBits(b);
    }
  }

  // ----- What is given addresses -----

  /** How the function at q below seg stands in the layout. */
  lemma {:induction false} FunctionSet(root: Segment, s: Setup, seg: Segment, at: Path, b: Bus, q: Path)
    returns (d: PciLayout.Dev, c: PciAlloc.Command)
    requires OnBus(root, s, seg, at, b) && Recorded(seg, q)
    ensures DeviceSet(root, s, at + q, d, c)
    ensures c == PciAlloc.Command(true, true, true) || c == PciAlloc.AllEnabled(d.size, NONE)
    decreases q
  {
    hide DeviceSet;
    hide Found;
    hide Descended;
    hide Later;
    if |q| == 1 {
      assert q == [q[0]];
      SetCount(root, s, seg, at, b);
      FoundInside(seg, q[0]);
      var j := DeviceOf(seg, 0xff, q[0]);
      d, c := b.devices[j], CommandFor(seg, at, q[0], b.devices[j].size);
    } else {
      assert at + q == at + [q[0]] + q[1..];
      KidOnBus(root, s, seg, at, b, q[0]);
      hide OnBus;
      d, c := FunctionSet(root, s, Behind(seg, q[0]), at + [q[0]], KidOf(seg, b, q[0]), q[1..]);
    }
  }

  lemma Enables(size: Words, c: PciAlloc.Command, n: nat, sp: Space)
    requires n < 6 && Wants(sp, size[n])
    requires c == PciAlloc.Command(true, true, true) || c == PciAlloc.AllEnabled(size, NONE)
    ensures TurnedOn(c.Bits(), sp.Io?)
  {
    hide Wants;
  }

  /**
   On a machine that is set up, every register of every function that the scan records is given as many addresses as
   are behind it, from 0x1000 on for I/O and from 2G on for memory, and is enabled. Its memory is answered there if it
   is not behind two bridges or more.
   */
  lemma BarServed(root: Segment, s: Setup, p: Path, bars: seq<Bar>, i: nat, sp: Space)
    requires PciAlloc.AllFit(BusOf(root)) && AllFormed(root) && IsSetUp(root, s, AllocAll(BusOf(root)))
    requires p != [] && Recorded(root, p) && HasBars(FunctionAt(root, p), bars) && i < |bars| && bars[i].Belongs(sp)
    ensures var n := Number(bars, i);
      && n < 6
      && var word := Latch(root, s.latches, p, n);
         var first := if sp.Io? then word - word % 4 else word - word % 16;
         && (if sp.Io? then 0x1000 else 0x8000_0000) <= first && first + bars[i].Size() <= W32
         && TurnedOn(CommandOf(s.command, p), sp.Io?)
         && (!sp.Io? && |p| <= 2 ==>
               forall a: Word :: first <= a < first + bars[i].Size() ==> Answered(root, s, false, a, p, n))
  {
    hide *;
    var n, b := Number(bars, i), AllocAll(BusOf(root));
    FinalLayout(root);
    BarIsWanted(root, p, bars, i, sp);
    RegisterServed(root, s, p, b, n, sp);
    GivenIs(root, s, p, n, sp);
  }

  /** The same of a register that one of the passes takes. */
  lemma RegisterServed(root: Segment, s: Setup, p: Path, b: Bus, n: nat, sp: Space)
    requires AllSpaces(b) && AllFormed(root) && IsSetUp(root, s, b) && p != [] && n < 6 && Wanted(root, p, n, sp)
    ensures var r := GivenAt(root, s, p, n, sp);
      && (if sp.Io? then 0x1000 else 0x8000_0000) <= r.start && r.start + r.len <= W32
      && TurnedOn(CommandOf(s.command, p), sp.Io?)
      && (!sp.Io? && |p| <= 2 ==> forall a: Word :: r.Has(a) ==> Answered(root, s, false, a, p, n))
  {
    hide BusSet;
    hide Elsewhere;
    hide AllFormed;
    hide Answered;
    hide Recorded;
    hide Wants;
    hide Length;
    hide Sizes;
    hide Laid;
    hide GivenAt;
    hide Latch;
    hide PciAlloc.AllEnabled;
    assert OnBus(root, s, root, [], b);
    assert [] + p == p;
    hide OnBus;
    WindowBounds(b, sp);
    hide AllSpaces;
    GivenInside(root, s, root, [], b, p, n, sp);
    var d, c := FunctionSet(root, s, root, [], b, p);
    Enables(d.size, c, n, sp);
    if !sp.Io? && |p| <= 2 {
      forall a: Word | GivenAt(root, s, p, n, sp).Has(a)
        ensures Answered(root, s, false, a, p, n)
      {
        MemoryAnswered(root, s, b, p, n, sp, a);
      }
    }
  }

  lemma WindowBounds(b: Bus, sp: Space)
    requires AllSpaces(b)
    ensures (if sp.Io? then 0x1000 else 0x8000_0000) <= b.Win(sp).base && b.Win(sp).limit < W32
  {
    hide KidsLaid;
    hide KidsEnd;
    hide Ordered;
    hide AllAligned;
  }

  lemma GivenIs(root: Segment, s: Setup, p: Path, n: nat, sp: Space)
    requires p != [] && n < 6
    ensures var r, word := GivenAt(root, s, p, n, sp), Latch(root, s.latches, p, n);
      r.start == (if sp.Io? then word - word % 4 else word - word % 16) && r.len == Length(sp, SizesAt(root, p)[n])
    ensures forall r: Range, a: nat :: r.Has(a) <==> r.start <= a < r.start + r.len
  {
    hide Latch;
    hide Length;
    hide SizesAt;
  }

  lemma BarIsWanted(root: Segment, p: Path, bars: seq<Bar>, i: nat, sp: Space)
    requires p != [] && Recorded(root, p) && HasBars(FunctionAt(root, p), bars) && i < |bars| && bars[i].Belongs(sp)
    ensures Number(bars, i) < 6 && Wanted(root, p, Number(bars, i), sp)
    ensures Length(sp, SizesAt(root, p)[Number(bars, i)]) == bars[i].Size()
  {
    hide And;
    hide HasBars;
    hide Bar.Flags;
    hide Bar.Size;
    hide Sizes;
    hide Wants;
    hide Length;
    hide Recorded;
    BarOk(FunctionAt(root, p), bars, i);
    BarSized(FunctionAt(root, p), bars, i);
    BarTaken(bars[i], sp);
  }

  /**
   A register without a pass to take it, memory below 1M that is, keeps what it read at first: its kind and no
   address.
   */
  lemma BarLeft(root: Segment, s: Setup, p: Path, bars: seq<Bar>, i: nat)
    requires PciAlloc.AllFit(BusOf(root)) && AllFormed(root) && IsSetUp(root, s, AllocAll(BusOf(root)))
    requires p != [] && Recorded(root, p) && HasBars(FunctionAt(root, p), bars) && i < |bars|
    requires forall sp: Space :: !bars[i].Belongs(sp)
    ensures Reading(root, s.latches, p, Number(bars, i)) == bars[i].Flags()
  {
    hide *;
    var f, n := FunctionAt(root, p), Number(bars, i);
    FirstOf(f, bars, i);
    BarOk(f, bars, i);
    BarSized(f, bars, i);
    forall sp: Space
      ensures !Wants(sp, SizesAt(root, p)[n])
    {
      BarTaken(bars[i], sp) by { BarSmall(bars[i]); }
      SizesIs(root, p);
    }
    RegisterLeft(root, s, p, AllocAll(BusOf(root)), n);
  }

  lemma BarSmall(b: Bar)
    requires b.Ok()
    ensures b.Size() + b.Flags() < W32
  {
    hide Pow2;
    PowerFits(b);
    if !b.Nothing? { Pow2Mono(b.k, 31) by { Pow2Word(); } Pow2Word(); Half(); }
  }

  lemma Half()
    ensures Pow2(31) == 0x8000_0000
  {
    Pow2Word();
    assert Pow2(32) == 2 * Pow2(31);
  }

  lemma SizesIs(root: Segment, p: Path)
    requires p != []
    ensures SizesAt(root, p) == Sizes(FunctionAt(root, p), HowMany(FunctionAt(root, p).header))
  {
    hide Sizes;
  }

  lemma RegisterLeft(root: Segment, s: Setup, p: Path, b: Bus, n: nat)
    requires AllFormed(root) && IsSetUp(root, s, b) && p != [] && n < 6 && Recorded(root, p)
    requires forall sp: Space :: !Wants(sp, SizesAt(root, p)[n])
    ensures Reading(root, s.latches, p, n) == AtFirst(FunctionAt(root, p), n)
  {
    hide BusSet;
    hide Elsewhere;
    hide AllFormed;
    hide Recorded;
    hide Wants;
    hide Sizes;
    hide Reading;
    hide AtFirst;
    hide DeviceSet;
    hide PciAlloc.AllEnabled;
    assert OnBus(root, s, root, [], b);
    assert [] + p == p;
    hide OnBus;
    var d, c := FunctionSet(root, s, root, [], b, p);
    LeftAlone(root, s, p, d, c, n);
  }

  lemma LeftAlone(root: Segment, s: Setup, p: Path, d: PciLayout.Dev, c: PciAlloc.Command, n: nat)
    requires p != [] && DeviceSet(root, s, p, d, c) && n < 6
    requires forall sp: Space :: !Wants(sp, SizesAt(root, p)[n])
    ensures Reading(root, s.latches, p, n) == AtFirst(FunctionAt(root, p), n)
  {
    hide Wants;
    hide Sizes;
    hide Reading;
    hide AtFirst;
    assert d.size == SizesAt(root, p);
    assert !Sized(d.size[n]);
  }

  /** Functions with such registers are as AllFormed asks. */
  lemma BarsFormed(f: Function, bars: seq<Bar>)
    requires HasBars(f, bars)
    ensures WellFormed(f)
  {
    hide And;
    hide Readback;
    hide HasBars;
    hide Bar.Low;
    hide Bar.Flags;
    hide IsRegister;
    forall reg: nat | reg < HowMany(f.header)
      ensures RegisterFormed(f, reg)
    {
      if reg < Number(bars, |bars|) {
        var i := BarAt(bars, reg, |bars|);
        BarOk(f, bars, i);
        FirstOf(f, bars, i);
        UpperAt(f, bars, i);
        UpperAt(f, bars, i + 1);
        BarReads(bars[i]);
        NoneThere(bars[i]);
      } else {
        Beyond(f, bars, reg);
      }
    }
  }

  lemma NoneThere(b: Bar)
    requires b.Ok()
    ensures b.Nothing? ==> b.Low() == Cell(0, 0, 0)
  {
  }

  /** The bar that a register belongs to. */
  lemma {:induction false} BarAt(bars: seq<Bar>, reg: nat, n: nat) returns (i: nat)
    requires n <= |bars| && reg < Number(bars, n)
    ensures i < n && Number(bars, i) <= reg < Number(bars, i + 1)
  {
    if reg >= Number(bars, n - 1) { i := n - 1; } else { i := BarAt(bars, reg, n - 1); }
  }

  lemma Beyond(f: Function, bars: seq<Bar>, reg: nat)
    requires HasBars(f, bars) && Number(bars, |bars|) <= reg < HowMany(f.header)
    ensures RegisterFormed(f, reg)
  {
    hide And;
    hide Readback;
    CellCount(bars);
    FirstReading(Cell(0, 0, 0));
    hide HasBars;
  }

  lemma {:induction false} CellCount(bars: seq<Bar>)
    requires forall j :: 0 <= j < |bars| ==> bars[j].Ok()
    ensures |Cells(bars)| == Number(bars, |bars|)
  {
    hide Bar.Low;
    if bars != [] {
      CellCount(bars[1..]);
      NumberFirst(bars, |bars|);
    }
  }

  // ----- How much is used up -----

  /**
   Ports go where the last register ended and take 16 bytes or their size; memory goes to the next multiple of its
   size, of 4096 if it is smaller, and takes as much.
   */
  lemma BarStep(b: Bar, sp: Space, base: nat)
    requires b.Ok() && b.Belongs(sp)
    ensures b.Size() + b.Flags() < W32 && Wants(sp, b.Size() + b.Flags())
    ensures var at, next := Place(sp, b.Size() + b.Flags(), base), Next(sp, b.Size() + b.Flags(), base);
      if sp.Io? then at == base && next == at + if b.k < 4 then 16 else b.Size()
      else var unit := if b.k < 12 then 4096 else b.Size();
           && next == at + unit && base <= at < base + unit && at % unit == 0
  {
    hide And;
    hide Rounded;
    hide Wants;
    hide Length;
    hide Pow2;
    Pow2Word();
    BarSmall(b);
    BarTaken(b, sp);
    if sp.Io? { RoundedPower(b.k, 4); } else {
      RoundedPower(b.k, 12);
      RoundedMultiple(base, if b.k < 12 then 12 else b.k);
    }
  }

  /** A power of two rounded to a power of two is the larger of them. */
  lemma RoundedPower(k: nat, n: nat)
    ensures Rounded(Pow2(k), Pow2(n)) == if k < n then Pow2(n) else Pow2(k)
  {
    hide Rounded;
    RoundedMultiple(Pow2(k), n);
    if k < n {
      Pow2Mono(k, n);
      DivModUnique(Pow2(n), Pow2(n), 1, 0);
      if Rounded(Pow2(k), Pow2(n)) < Pow2(n) { NoMultipleBetween(0, Rounded(Pow2(k), Pow2(n)), Pow2(n)); }
    } else {
      PowerMultiple(k, n);
    }
  }

  /**
   A bus starts its windows where it is told, and ends them at the next 4K for I/O and the next megabyte for memory.
   */
  lemma WindowGrain(sp: Space, b: Bus, base: nat)
    ensures var w, unit := AllocBus(sp, b, base).Win(sp), if sp.Io? then 0x1000 else 0x10_0000;
      var end := AllocDevs(sp, b.devices, AllocKids(sp, b.children, base).1).1;
      w.base == base && (w.limit + 1) % unit == 0 && end <= w.limit + 1 < end + unit
  {
    hide Rounded;
    hide AllocKids;
    hide AllocDevs;
    var end := AllocDevs(sp, b.devices, AllocKids(sp, b.children, base).1).1;
    RoundedTo(end, sp.Align());
  }

  /** I/O starts at 0x1000, memory at 2G, and prefetchable memory behind that. */
  lemma SpacesStart(b: Bus)
    requires PciAlloc.AllFit(b)
    ensures var a := AllocAll(b); a.io.base == 0x1000 && a.mem.base == 0x8000_0000 && a.pref.base == a.mem.limit + 1
  {
    hide Laid;
    hide SameKids;
    hide SameDevs;
    hide AllocBus;
    var b1 := AllocBus(Io, b, PCI_IO_START);
    AllocBusLaid(Io, b, PCI_IO_START);
    var b2 := AllocBus(Mem, b1, PCI_MEM_START);
    AllocBusLaid(Mem, b1, PCI_MEM_START);
    WindowGrain(Mem, b1, PCI_MEM_START);
    WindowEnd(Mem, b2);
    WindowGrain(Io, b, PCI_IO_START);
    WindowGrain(Pref, b2, After(Mem, b2.mem.limit));
    AllocBusLaid(Pref, b2, After(Mem, b2.mem.limit));
    var b3 := AllocBus(Pref, b2, After(Mem, b2.mem.limit));
    assert b3.Win(Io) == b2.Win(Io) == b1.Win(Io) && b3.Win(Mem) == b2.Win(Mem);
  }
}
