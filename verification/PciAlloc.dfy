/**
 The resource allocator of newpci.c on the linked records it works on: every pass stores exactly the layout
 of module PciLayout, in 32-bit arithmetic, and the bridges of the root bus are programmed to decode it.
 */
module PciAlloc {
  import opened Bits
  import opened PciAddress
  import opened PciTopology
  import opened PciMachine
  import opened PciLayout

  /** The bits of a command word that are set here. */
  datatype Command = Command(io: bool, memory: bool, master: bool)
  {
    function Bits(): nat
    {
      (if io then 1 else 0) + (if memory then 2 else 0) + (if master then 4 else 0)
    }
  }

  /** struct pci_dev; bus is the number of its bus, and that bus is at a path of the hardware. */
  class Device {
    const size: Words
    const bus: nat
    const devfn: nat
    ghost const at: Path
    var baseAddress: Words
    var command: Command

    ghost function View(): Dev
      reads this`baseAddress
    {
      Dev(size, baseAddress)
    }

    /** Its function in the hardware. */
    ghost function Where(): Path
    {
      at + [devfn]
    }

    /** Accesses to it arrive. */
    ghost predicate Reached(m: Machine)
      reads m`regs
    {
      m.Reaches(bus, at)
    }

    constructor (s: Words, n: nat, f: nat, ghost p: Path)
      ensures size == s && bus == n && devfn == f && at == p
      ensures baseAddress == [0, 0, 0, 0, 0, 0] && command == Command(false, false, false)
    {
      size, bus, devfn, at := s, n, f, p;
      baseAddress := [0, 0, 0, 0, 0, 0];
      command := Command(false, false, false);
    }
  }

  ghost function BaseAddresses(records: set<object>): map<Device, Words>
    reads records
  {
    map d: Device | d in records :: d.baseAddress
  }

  predicate WantsAny(sp: Space, size: Words, n: nat)
    requires n <= 6
  {
    exists i :: 0 <= i < n && Wants(sp, size[i])
  }

  /** A pass enables decoding for the devices that get an address in it. */
  function Enabled(sp: Space, size: Words, c: Command): Command
  {
    if !WantsAny(sp, size, 6) then c else if sp.Io? then c.(io := true) else c.(memory := true)
  }

  /** The command words of the devices in a set of records. */
  ghost function CommandWords(records: set<object>): map<Device, Command>
    reads records
  {
    map d: Device | d in records :: d.command
  }

  /** Words that are the words of several parts. */
  ghost predicate Covers(words: map<Device, Command>, parts: seq<map<Device, Command>>)
  {
    && (forall d :: d in words ==> Somewhere(d, parts))
    && (forall i :: 0 <= i < |parts| ==> PartOf(parts[i], words))
  }

  ghost predicate Somewhere(d: Device, parts: seq<map<Device, Command>>)
  {
    exists i :: 0 <= i < |parts| && d in parts[i]
  }

  ghost predicate PartOf(part: map<Device, Command>, words: map<Device, Command>)
  {
    forall d :: d in part ==> d in words && words[d] == part[d]
  }

  lemma AllEnabling(sp: Space, w0: map<Device, Command>, p0: seq<map<Device, Command>>, w1: map<Device, Command>,
                    p1: seq<map<Device, Command>>)
    requires Covers(w0, p0) && Covers(w1, p1) && |p0| == |p1|
    requires forall i :: 0 <= i < |p0| ==> p1[i] == Enabling(sp, p0[i])
    ensures w1 == Enabling(sp, w0)
  {
    hide Enabled;
    hide PartOf;
    hide Somewhere;
    forall d | d in w0
      ensures d in w1 && w1[d] == Enabled(sp, d.size, w0[d])
    {
      var i := PartWith(d, w0, p0);
      PartHas(d, p1[i], w1);
    }
    forall d | d in w1
      ensures d in w0
    {
      var i := PartWith(d, w1, p1);
      PartHas(d, p0[i], w0);
    }
  }

  lemma PartWith(d: Device, words: map<Device, Command>, parts: seq<map<Device, Command>>) returns (i: nat)
    requires Covers(words, parts) && d in words
    ensures i < |parts| && d in parts[i] && parts[i][d] == words[d]
  {
    assert Somewhere(d, parts);
    i :| i < |parts| && d in parts[i];
    PartHas(d, parts[i], words);
  }

  lemma WordsWithin(part: set<object>, all: set<object>)
    requires part <= all
    ensures PartOf(CommandWords(part), CommandWords(all))
  {
  }

  lemma PartHas(d: Device, part: map<Device, Command>, words: map<Device, Command>)
    requires PartOf(part, words) && d in part
    ensures d in words && words[d] == part[d]
  {
  }

  ghost function Enabling(sp: Space, words: map<Device, Command>): map<Device, Command>
  {
    map d | d in words :: Enabled(sp, d.size, words[d])
  }

  /** All three passes. */
  function AllEnabled(size: Words, c: Command): Command
  {
    Enabled(Pref, size, Enabled(Mem, size, Enabled(Io, size, c)))
  }

  /** struct pci_bus. The shape of the tree is fixed when the allocator runs. */
  class PciBus {
    const children: seq<PciBus>
    const devices: seq<Device>
    const self: Device?
    ghost const height: nat
    var iobase: Word
    var iolimit: Word
    var membase: Word
    var memlimit: Word
    var prefmembase: Word
    var prefmemlimit: Word

    constructor (kids: seq<PciBus>, devs: seq<Device>, bridge: Device?, ghost h: nat)
      ensures children == kids && devices == devs && self == bridge && height == h
      ensures forall sp :: Base(sp) == 0 && Limit(sp) == 0
    {
      children, devices, self, height := kids, devs, bridge, h;
      iobase, iolimit, membase, memlimit, prefmembase, prefmemlimit := 0, 0, 0, 0, 0, 0;
    }

    /** Every object of the children's trees. */
    ghost function Below(): set<object>
      decreases height, 0
    {
      set i: nat, o: object | i < |children| && children[i].height < height && o in children[i].Footprint() :: o
    }

    ghost function DevObjects(): set<object>
    {
      set i: nat | i < |devices| :: devices[i] as object
    }

    /** Every object of the tree below this bus that the passes may change. */
    ghost function Footprint(): set<object>
      decreases height, 1
    {
      {this as object} + DevObjects() + Below()
    }

    /** The records form a tree: nothing is shared. */
    ghost predicate Tree()
      decreases height
    {
      && (forall i :: 0 <= i < |children| ==> children[i].height < height && children[i].Tree())
      && (forall i :: 0 <= i < |children| ==> this !in children[i].Footprint())
      && (forall i, j :: 0 <= i < j < |children| ==> children[i].Footprint() !! children[j].Footprint())
      && (forall i, d :: 0 <= i < |children| && d in devices ==> d !in children[i].Footprint())
      && (forall i, j :: 0 <= i < j < |devices| ==> devices[i] != devices[j])
    }

    ghost function View(): Bus
      requires Tree()
      reads Footprint()
      decreases height, 1
    {
      Bus(Window(iobase, iolimit), Window(membase, memlimit), Window(prefmembase, prefmemlimit),
          KidViews(), DevViews(devices))
    }

    lemma KidBelow(i: nat)
      requires i < |children| && children[i].height < height
      ensures children[i].Footprint() <= Below() <= Footprint()
    {
      forall o | o in children[i].Footprint() ensures o in Below() { }
    }

    ghost function KidViews(): seq<Bus>
      requires Tree()
      reads Below()
      decreases height, 0
    {
      seq(|children|, i requires 0 <= i < |children| reads Below() => KidBelow(i); children[i].View())
    }

    function Base(sp: Space): Word
      reads this
    {
      match sp case Io => iobase case Mem => membase case Pref => prefmembase
    }

    function Limit(sp: Space): Word
      reads this
    {
      match sp case Io => iolimit case Mem => memlimit case Pref => prefmemlimit
    }

    method SetBase(sp: Space, x: Word)
      requires Tree()
      modifies this
      ensures View() == old(View()).WithWin(sp, Window(x, old(Limit(sp)))) && Base(sp) == x
    {
      hide Tree;
      hide Below;
      hide Footprint;
      hide KidViews;
      hide DevViews;
      OwnApart();
      match sp {
        case Io => iobase := x;
        case Mem => membase := x;
        case Pref => prefmembase := x;
      }
    }

    method SetLimit(sp: Space, x: Word)
      requires Tree()
      modifies this
      ensures View() == old(View()).WithWin(sp, Window(old(Base(sp)), x)) && Base(sp) == old(Base(sp))
    {
      hide Tree;
      hide Below;
      hide Footprint;
      hide KidViews;
      hide DevViews;
      OwnApart();
      match sp {
        case Io => iolimit := x;
        case Mem => memlimit := x;
        case Pref => prefmemlimit := x;
      }
    }

    /** The bus and its devices are not part of its children's trees. */
    lemma OwnApart()
      requires Tree()
      ensures this in Footprint() && this !in Below() && this !in DevObjects() && DevObjects() !! Below()
      ensures forall d :: d in devices ==> d !in Below()
    {
      forall o | o in DevObjects()
        ensures o !in Below()
      {
        var i :| 0 <= i < |devices| && o == devices[i] as object;
        assert devices[i] in devices;
      }
    }

    /** And those are apart from each other. */
    lemma KidsApart()
      requires Tree()
      ensures forall i :: 0 <= i < |children| ==>
                children[i].Tree() && children[i] in children[i].Footprint() && children[i].Footprint() <= Below()
      ensures forall i, j :: 0 <= i < |children| && 0 <= j < |children| && i != j ==>
                children[i].Footprint() !! children[j].Footprint()
    {
      hide Below;
      forall i | 0 <= i < |children|
        ensures children[i].Footprint() <= Below() && children[i] in children[i].Footprint()
      {
        KidBelow(i);
      }
    }

    lemma KidViewsAre()
      requires Tree()
      ensures |KidViews()| == |children| && forall i :: 0 <= i < |children| ==> KidViews()[i] == children[i].View()
    {
      hide View;
      hide Below;
      hide Footprint;
    }

    lemma KidView(i: nat)
      requires Tree() && i < |children|
      ensures |View().children| == |children| && children[i].Tree() && children[i].View() == View().children[i]
    {
      KidViewsAre();
    }

    lemma KidHeights()
      requires Tree()
      ensures forall i :: 0 <= i < |children| ==> children[i].height < height
    {
    }

    /** One round of the loop over the bridges. */
    method AllocateChild(sp: Space, i: nat, base: Word)
      requires Tree() && i < |children| && 0 < base && base % sp.Align() == 0
      requires AllocBus(sp, KidViews()[i], base).Win(sp).limit + 1 < W32
      modifies children[i].Footprint()
      ensures KidViews() == old(KidViews())[i := AllocBus(sp, old(KidViews())[i], base)]
      ensures children[i].Limit(sp) == AllocBus(sp, old(KidViews())[i], base).Win(sp).limit
      ensures KidWords() == old(KidWords())[i := Enabling(sp, old(KidWords())[i])]
      decreases height, 0
    {
      hide Tree;
      hide Below;
      hide View;
      hide KidViews;
      hide AllocBus;
      hide Enabled;
      hide Enabling;
      hide KidWords;
      ghost var cs, ws := KidViews(), KidWords();
      KidsApart();
      KidViewsAre();
      KidHeights();
      WordsAre();
      LimitIs(children[i], sp);
      AllocRebase(sp, cs[i], Window(base, cs[i].Win(sp).limit), base);
      ghost var words := CommandWords(children[i].Footprint());
      children[i].SetBase(sp, base);
      assert CommandWords(children[i].Footprint()) == words;
      children[i].Allocate(sp);
      LimitIs(children[i], sp);
      KidViewsAre();
      WordsAre();
      forall j | 0 <= j < |children| && j != i
        ensures children[j].View() == cs[j] && CommandWords(children[j].Footprint()) == ws[j]
      {
        assert old(allocated(children[j].Footprint()));
      }
    }

    /** The loop over the bridges of the bus. */
    method AllocateChildren(sp: Space, base: Word) returns (next: Word)
      requires Tree() && 0 < base && base % sp.Align() == 0
      requires AllocKids(sp, KidViews(), base).1 < W32
      modifies Below()
      ensures (KidViews(), next as nat) == AllocKids(sp, old(KidViews()), base)
      ensures CommandWords(Below()) == Enabling(sp, old(CommandWords(Below())))
      decreases height, 1
    {
      hide Tree;
      hide Below;
      hide View;
      hide Footprint;
      hide KidViews;
      hide AllocKids;
      hide AllocBus;
      hide KidBase;
      hide Enabled;
      hide Enabling;
      hide CommandWords;
      hide KidWords;
      WordsBelow();
      WordsAre();
      ghost var before, words := CommandWords(Below()), KidWords();
      ghost var cs, kids := KidViews(), AllocKids(sp, KidViews(), base).0;
      next := base;
      KidCount(sp, cs, base);
      KidsApart();
      KidViewsAre();
      KidZero(sp, cs, base);
      var i := 0;
      while i < |children|
        invariant 0 <= i <= |children| && next as nat == KidBase(sp, cs, base, i)
        invariant |KidViews()| == |cs|
        invariant forall j :: 0 <= j < i ==> KidViews()[j] == kids[j]
        invariant forall j :: i <= j < |cs| ==> KidViews()[j] == cs[j]
        invariant |KidWords()| == |children|
        invariant forall j :: 0 <= j < i ==> KidWords()[j] == Enabling(sp, words[j])
        invariant forall j :: i <= j < |children| ==> KidWords()[j] == words[j]
      {
        KidNext(sp, cs, base, i, next);
        AllocateChild(sp, i, next);
        assert allocated(Below());
        next := Round(children[i].Limit(sp), sp.Align());
        i := i + 1;
      }
      assert KidViews() == kids;
      WordsBelow();
      AllEnabling(sp, before, words, CommandWords(Below()), KidWords());
    }

    ghost function KidWords(): seq<map<Device, Command>>
      requires Tree()
      reads Below()
    {
      seq(|children|, i requires 0 <= i < |children| reads Below() =>
        KidBelow(i); CommandWords(children[i].Footprint()))
    }

    /** The words below are those of the children's trees together. */
    lemma WordsBelow()
      requires Tree()
      ensures Covers(CommandWords(Below()), KidWords())
    {
      hide Footprint;
      hide Below;
      hide Tree;
      hide KidWords;
      hide Somewhere;
      hide PartOf;
      KidsApart();
      WordsAre();
      forall d: Device | d in Below()
        ensures Somewhere(d, KidWords())
      {
        BelowSomewhere(d);
      }
      forall i | 0 <= i < |children|
        ensures PartOf(KidWords()[i], CommandWords(Below()))
      {
        WordsWithin(children[i].Footprint(), Below());
      }
    }

    lemma BelowSomewhere(d: Device)
      requires Tree() && d in Below()
      ensures Somewhere(d, KidWords())
    {
      hide Footprint;
      hide KidWords;
      WordsAre();
      var i: nat :| i < |children| && d in children[i].Footprint();
      assert d in KidWords()[i];
    }

    lemma WordsAre()
      requires Tree()
      ensures |KidWords()| == |children|
      ensures forall i :: 0 <= i < |children| ==> KidWords()[i] == CommandWords(children[i].Footprint())
    {
      hide Footprint;
      hide CommandWords;
    }

    /** compute_allocate_io, compute_allocate_mem and compute_allocate_prefmem. */
    method Allocate(sp: Space)
      requires Tree() && 0 < Base(sp) && Base(sp) % sp.Align() == 0
      requires AllocBus(sp, View(), Base(sp)).Win(sp).limit + 1 < W32
      modifies Footprint()
      ensures View() == AllocBus(sp, old(View()), old(Base(sp))) && Base(sp) == old(Base(sp))
      ensures CommandWords(Footprint()) == Enabling(sp, old(CommandWords(Footprint())))
      decreases height, 2
    {
      hide Tree;
      hide Below;
      hide DevObjects;
      hide KidViews;
      hide DevViews;
      hide AllocBus;
      hide AllocKids;
      hide AllocDevs;
      hide Rounded;
      hide Enabled;
      ghost var v, base := View(), Base(sp);
      PassFits(sp, v, base);
      OwnApart();
      assert allocated(Below()) && allocated(DevObjects());
      var next := AllocateChildren(sp, Base(sp));
      assert DevViews(devices) == v.devices;
      next := AllocateDevices(sp, next);
      LimitFits(sp, next);
      next := PciAddress.Limit(next, sp.Align());
      SetLimit(sp, next);
      DevicesOnly();
    }

    lemma DevicesOnly()
      ensures forall d: Device :: d in Footprint() ==> d in DevObjects() || d in Below()
    {
      hide DevObjects;
      hide Below;
    }

    /** The loop over the devices of the bus. */
    method AllocateDevices(sp: Space, base: Word) returns (next: Word)
      requires Tree() && (sp.Io? ==> base % IO_ALIGN == 0)
      requires AllocDevs(sp, DevViews(devices), base).1 < W32
      modifies DevObjects()
      ensures (DevViews(devices), next as nat) == AllocDevs(sp, old(DevViews(devices)), base)
      ensures CommandWords(DevObjects()) == Enabling(sp, old(CommandWords(DevObjects())))
      decreases height, 0
    {
      hide Enabled;
      hide AllocDevs;
      hide AllocBars;
      hide DevBase;
      hide Device.View;
      hide Tree;
      ghost var ds := DevViews(devices);
      next := base;
      DevCount(sp, ds, base);
      DevsApart();
      DevZero(sp, ds, base);
      var i := 0;
      while i < |devices|
        invariant 0 <= i <= |devices| && next as nat == DevBase(sp, ds, base, i)
        invariant forall j :: 0 <= j < i ==> devices[j].View() == AllocDevs(sp, ds, base).0[j]
        invariant forall j :: i <= j < |devices| ==> devices[j].View() == ds[j]
        invariant forall j :: 0 <= j < i ==> devices[j].command == Enabled(sp, devices[j].size, old(devices[j].command))
        invariant forall j :: i <= j < |devices| ==> devices[j].command == old(devices[j].command)
      {
        DevStep(sp, ds, base, i);
        next := AllocateDevice(sp, devices[i], next);
        i := i + 1;
      }
      assert DevViews(devices) == AllocDevs(sp, ds, base).0;
    }

    /** compute_allocate_resources: I/O, then memory, then prefetchable memory after the memory. */
    method ComputeAllocateResources()
      requires Tree() && iobase == PCI_IO_START && membase == PCI_MEM_START && AllFit(View())
      modifies Footprint()
      ensures View() == AllocAll(old(View()))
      ensures CommandWords(Footprint()) == AllPasses(old(CommandWords(Footprint())))
    {
      hide Tree;
      hide Footprint;
      hide View;
      hide AllocBus;
      hide AllocAll;
      hide Enabled;
      ghost var v := View();
      OwnApart();
      assert allocated(Footprint());
      LimitIs(this, Mem);
      AllFitSteps(v);
      Allocate(Io);
      LimitIs(this, Mem);
      Allocate(Mem);
      ghost var b2 := View();
      LimitIs(this, Mem);
      LimitIs(this, Pref);
      var m := Round(memlimit, ONEMEG);
      AllocRebase(Pref, b2, Window(m, b2.pref.limit), m);
      SetBase(Pref, m);
      Allocate(Pref);
    }

    ghost function Bridges(): set<Device>
    {
      set i: nat | i < |children| && children[i].self != null :: children[i].self
    }

    /** And their functions. */
    ghost function BridgePaths(): set<Path>
    {
      set i: nat | i < |children| && children[i].self != null :: children[i].self.Where()
    }

    /** The records are not the machine. */
    lemma FootprintKinds()
      requires Tree()
      ensures forall o :: o in Footprint() ==> o is PciBus || o is Device
      decreases height
    {
      forall i | 0 <= i < |children|
        ensures forall o :: o in children[i].Footprint() ==> o is PciBus || o is Device
      {
        children[i].FootprintKinds();
      }
    }

    /** The records of the bridges on this bus are all there, apart, and accesses arrive at them. */
    ghost predicate HasBridges(m: Machine)
      reads m`regs
    {
      && (forall i :: 0 <= i < |children| ==> children[i].self != null && children[i].self.Reached(m))
      && (forall i, j :: 0 <= i < j < |children| ==> children[i].self.Where() != children[j].self.Where())
    }

    /**
     assign_resources, the loop over the bridges of this bus: the shifted window addresses go to the registers of
     each bridge. Buses further down are not visited.
     */
    method AssignWindows(m: Machine)
      requires HasBridges(m)
      modifies Bridges()`command, m`windows
      ensures forall i :: 0 <= i < |children| ==> children[i].Programmed(m.windows)
      ensures ElsewhereSame(BridgePaths(), old(m.windows), m.windows)
    {
      var i := 0;
      while i < |children|
        invariant 0 <= i <= |children|
        invariant forall j :: 0 <= j < i ==> children[j].Programmed(m.windows)
        invariant ElsewhereSame(BridgePaths(), old(m.windows), m.windows)
      {
        ghost var now := m.windows;
        children[i].AssignWindow(m);
        assert children[i].self.Where() in BridgePaths();
        i := i + 1;
      }
    }

    /** The windows in use are in the registers; the command word enables them, and nothing else but bus mastering. */
    ghost predicate Programmed(windows: WindowRegisters)
      requires self != null
      reads this, self`command
    {
      var p := self.Where();
      && self.command == Command(iobase != 0, membase != 0 || prefmembase != 0, true)
      && (iobase != 0 ==>
            WindowAt(windows, p, IoBase) == IoByte(iobase) && WindowAt(windows, p, IoLimit) == IoByte(iolimit))
      && (membase != 0 ==>
            && WindowAt(windows, p, MemoryBase) == MemHalf(membase)
            && WindowAt(windows, p, MemoryLimit) == MemHalf(memlimit))
      && (prefmembase != 0 ==>
            && WindowAt(windows, p, PrefBase) == MemHalf(prefmembase)
            && WindowAt(windows, p, PrefLimit) == MemHalf(prefmemlimit))
    }

    method AssignWindow(m: Machine)
      requires self != null && self.Reached(m)
      modifies self`command, m`windows
      ensures Programmed(m.windows) && ElsewhereSame({self.Where()}, old(m.windows), m.windows)
    {
      hide IoByte;
      hide MemHalf;
      hide WindowAt;
      hide Machine.Reaches;
      self.command := Command(false, false, false);
      if iobase != 0 {
        self.command := self.command.(io := true);
        WriteWindow(m, self, IoBase, IoLimit, IoByte(iobase), IoByte(iolimit));
      }
      if membase != 0 {
        self.command := self.command.(memory := true);
        WriteWindow(m, self, MemoryBase, MemoryLimit, MemHalf(membase), MemHalf(memlimit));
      }
      if prefmembase != 0 {
        self.command := self.command.(memory := true);
        WriteWindow(m, self, PrefBase, PrefLimit, MemHalf(prefmembase), MemHalf(prefmemlimit));
      }
      self.command := self.command.(master := true);
    }

    /** The layout is in the buses and the base addresses; the command words do not matter to it. */
    twostate lemma ViewSame()
      requires Tree()
      requires Windows(Footprint()) == old(Windows(Footprint()))
      requires BaseAddresses(Footprint()) == old(BaseAddresses(Footprint()))
      ensures View() == old(View())
      decreases height, 2
    {
      hide DevObjects;
      hide Below;
      FootprintIs();
      WindowSame(Footprint());
      KidsSame();
      DevsSame();
    }

    twostate lemma KidsSame()
      requires Tree()
      requires Windows(Footprint()) == old(Windows(Footprint()))
      requires BaseAddresses(Footprint()) == old(BaseAddresses(Footprint()))
      ensures KidViews() == old(KidViews())
      decreases height, 1
    {
      hide DevObjects;
      hide Footprint;
      hide View;
      KidsApart();
      KidHeights();
      var i := 0;
      while i < |children|
        invariant 0 <= i <= |children|
        invariant forall j :: 0 <= j < i ==> children[j].View() == old(children[j].View())
      {
        KidSame(i);
        i := i + 1;
      }
    }

    twostate lemma KidSame(i: nat)
      requires Tree() && i < |children|
      requires Windows(Footprint()) == old(Windows(Footprint()))
      requires BaseAddresses(Footprint()) == old(BaseAddresses(Footprint()))
      ensures children[i].Tree() && children[i].View() == old(children[i].View())
      decreases height, 0
    {
      hide DevObjects;
      hide Below;
      KidsApart();
      KidHeights();
      FootprintIs();
      KidWindows(i);
      KidAddresses(i);
      children[i].ViewSame();
    }

    twostate lemma KidWindows(i: nat)
      requires i < |children| && children[i].Footprint() <= Footprint()
      requires Windows(Footprint()) == old(Windows(Footprint()))
      ensures Windows(children[i].Footprint()) == old(Windows(children[i].Footprint()))
    {
      hide Footprint;
      forall b: PciBus | b in children[i].Footprint()
        ensures Windows(children[i].Footprint())[b] == old(Windows(children[i].Footprint()))[b]
      {
        assert Windows(Footprint())[b] == old(Windows(Footprint()))[b];
      }
    }

    twostate lemma KidAddresses(i: nat)
      requires i < |children| && children[i].Footprint() <= Footprint()
      requires BaseAddresses(Footprint()) == old(BaseAddresses(Footprint()))
      ensures BaseAddresses(children[i].Footprint()) == old(BaseAddresses(children[i].Footprint()))
    {
      hide Footprint;
      forall d: Device | d in children[i].Footprint()
        ensures BaseAddresses(children[i].Footprint())[d] == old(BaseAddresses(children[i].Footprint()))[d]
      {
        assert BaseAddresses(Footprint())[d] == old(BaseAddresses(Footprint()))[d];
      }
    }

    twostate lemma DevsSame()
      requires BaseAddresses(Footprint()) == old(BaseAddresses(Footprint()))
      ensures DevViews(devices) == old(DevViews(devices))
    {
      var i := 0;
      while i < |devices|
        invariant 0 <= i <= |devices|
        invariant forall j :: 0 <= j < i ==> devices[j].View() == old(devices[j].View())
      {
        DevSame(i);
        i := i + 1;
      }
    }

    twostate lemma DevSame(i: nat)
      requires i < |devices| && BaseAddresses(Footprint()) == old(BaseAddresses(Footprint()))
      ensures devices[i].View() == old(devices[i].View())
    {
      hide Footprint;
      DevicesIn();
      assert BaseAddresses(Footprint())[devices[i]] == old(BaseAddresses(Footprint()))[devices[i]];
    }

    lemma FootprintIs()
      ensures this in Footprint() && Below() <= Footprint() && forall d :: d in devices ==> d in Footprint()
    {
      hide Below;
      DevicesIn();
    }

    twostate lemma WindowSame(all: set<object>)
      requires this in all && Windows(all) == old(Windows(all))
      ensures iobase == old(iobase) && iolimit == old(iolimit) && membase == old(membase) && memlimit == old(memlimit)
      ensures prefmembase == old(prefmembase) && prefmemlimit == old(prefmemlimit)
    {
      assert this in Windows(all);
    }

    lemma DevicesIn()
      ensures forall i :: 0 <= i < |devices| ==> devices[i] in Footprint()
    {
      forall i | 0 <= i < |devices|
        ensures devices[i] in Footprint()
      {
        assert devices[i] as object in DevObjects();
      }
    }

    /** A programmed bridge decodes exactly the windows of its bus; for I/O as long as they fit in 64K. */
    lemma ProgrammedDecodes(windows: WindowRegisters)
      requires Tree() && self != null && Programmed(windows)
      requires Laid(Io, View()) && Laid(Mem, View()) && Laid(Pref, View())
      ensures (forall a: nat ::
                 IoDecodes(WindowAt(windows, self.Where(), IoBase), WindowAt(windows, self.Where(), IoLimit), a)
                 <==> iobase <= a <= iolimit)
              <==> if iobase <= iolimit then iolimit < 0x1_0000 else iobase % 0x1_0000 != 0
      ensures forall a: nat ::
        MemDecodes(WindowAt(windows, self.Where(), MemoryBase), WindowAt(windows, self.Where(), MemoryLimit), a)
        <==> membase <= a <= memlimit
      ensures forall a: nat ::
        MemDecodes(WindowAt(windows, self.Where(), PrefBase), WindowAt(windows, self.Where(), PrefLimit), a)
        <==> prefmembase <= a <= prefmemlimit
    {
      hide KidsLaid;
      hide Ordered;
      hide AllAligned;
      hide KidsEnd;
      hide DevRanges;
      hide IoByte;
      hide MemHalf;
      hide IoDecodes;
      hide MemDecodes;
      hide Tree;
      hide WindowAt;
      LimitIs(this, Io);
      LimitIs(this, Mem);
      LimitIs(this, Pref);
      hide View;
      IoWindow(iobase, iolimit);
      MemWindow(membase, memlimit);
      MemWindow(prefmembase, prefmemlimit);
    }

    lemma DevsApart()
      requires Tree()
      ensures forall i, j :: 0 <= i < j < |devices| ==> devices[i] != devices[j]
    {
    }
  }

  ghost function Windows(records: set<object>): map<PciBus, seq<Word>>
    reads records
  {
    map b: PciBus | b in records :: [b.iobase, b.iolimit, b.membase, b.memlimit, b.prefmembase, b.prefmemlimit]
  }

  lemma LimitIs(b: PciBus, sp: Space)
    requires b.Tree()
    ensures b.View().Win(sp) == Window(b.Base(sp), b.Limit(sp))
  {
  }

  /** What the loop over the bridges needs to know about one of them. */
  lemma KidNext(sp: Space, cs: seq<Bus>, base: nat, i: nat, next: nat)
    requires i < |cs| && 0 < base && base % sp.Align() == 0 && next == KidBase(sp, cs, base, i)
    requires AllocKids(sp, cs, base).1 < W32
    ensures |AllocKids(sp, cs, base).0| == |cs| && AllocKids(sp, cs, base).0[i] == AllocBus(sp, cs[i], next)
    ensures 0 < next < W32 && next % sp.Align() == 0
    ensures var limit := AllocBus(sp, cs[i], next).Win(sp).limit;
            && 0 <= limit && limit + 1 < W32 && limit + sp.Align() - 1 < W32
            && KidBase(sp, cs, base, i + 1) == Rounded(limit, sp.Align())
  {
    hide AllocKids;
    hide AllocBus;
    hide KidBase;
    hide Rounded;
    hide Laid;
    hide SameBut;
    KidStep(sp, cs, base, i);
    AllocBusLaid(sp, cs[i], next);
    WindowEnd(sp, AllocBus(sp, cs[i], next));
    ChildLimitFits(sp, AllocBus(sp, cs[i], next).Win(sp).limit);
  }

  lemma KidZero(sp: Space, cs: seq<Bus>, base: nat)
    ensures KidBase(sp, cs, base, 0) == base
  {
  }

  lemma ChildLimitFits(sp: Space, limit: int)
    requires 0 <= limit && (limit + 1) % sp.Align() == 0 && limit + 1 < W32
    ensures limit + sp.Align() - 1 < W32
  {
    MultipleFits(limit + 1, sp.Align());
  }

  /** The base a bus had before is not used. */
  lemma AllocRebase(sp: Space, b: Bus, w: Window, base: nat)
    ensures AllocBus(sp, b.WithWin(sp, w), base) == AllocBus(sp, b, base)
  {
    hide AllocKids;
    hide AllocDevs;
  }

  lemma DevZero(sp: Space, ds: seq<Dev>, base: nat)
    ensures DevBase(sp, ds, base, 0) == base
  {
  }

  /** Window registers of other functions keep their contents. */
  ghost predicate ElsewhereSame(ps: set<Path>, before: WindowRegisters, now: WindowRegisters)
  {
    forall p: Path, r: WindowRegister :: p !in ps ==> WindowAt(before, p, r) == WindowAt(now, p, r)
  }

  /** One base and one limit register of a bridge. */
  method WriteWindow(m: Machine, d: Device, rb: WindowRegister, rl: WindowRegister, b: nat, l: nat)
    requires d.Reached(m) && rb != rl
    modifies m`windows
    ensures WindowAt(m.windows, d.Where(), rb) == b && WindowAt(m.windows, d.Where(), rl) == l
    ensures forall p: Path, r: WindowRegister :: p != d.Where() || (r != rb && r != rl) ==>
              WindowAt(m.windows, p, r) == WindowAt(old(m.windows), p, r)
  {
    hide Machine.Reaches;
    m.WriteWindow(d.bus, d.devfn, rb, b, d.at);
    m.WriteWindow(d.bus, d.devfn, rl, l, d.at);
  }

  /** Accesses to every device of a list arrive, each at a function of its own. */
  ghost predicate AllReached(m: Machine, all: seq<Device>)
    reads m`regs
  {
    && (forall k :: 0 <= k < |all| ==> all[k].Reached(m))
    && (forall i, j :: 0 <= i < j < |all| ==> all[i].Where() != all[j].Where())
  }

  ghost function Functions(all: seq<Device>): set<Path>
  {
    set k: nat | k < |all| :: all[k].Where()
  }

  /** Of the base address registers of a function exactly those with a nonzero address are written. */
  ghost predicate WrittenBars(root: Segment, p: Path, before: Latches, now: Latches, address: Words)
    requires p != []
  {
    forall i: nat ::
      Latch(root, now, p, i) == if i < 6 && address[i] != 0 then address[i] else Latch(root, before, p, i)
  }

  ghost predicate OthersKept(root: Segment, ps: set<Path>, before: Latches, now: Latches)
  {
    forall p: Path, i: nat :: p != [] && p !in ps ==> Latch(root, before, p, i) == Latch(root, now, p, i)
  }

  /** assign_resources, the loop over all devices: every assigned register is written, no other. */
  method AssignBars(m: Machine, all: seq<Device>)
    requires AllReached(m, all)
    modifies m`latches
    ensures forall k :: 0 <= k < |all| ==>
            WrittenBars(m.root, all[k].Where(), old(m.latches), m.latches, all[k].baseAddress)
    ensures OthersKept(m.root, Functions(all), old(m.latches), m.latches)
  {
    hide Latch;
    hide Machine.Reaches;
    var n := 0;
    while n < |all|
      invariant 0 <= n <= |all|
      invariant forall k :: 0 <= k < n ==>
                  WrittenBars(m.root, all[k].Where(), old(m.latches), m.latches, all[k].baseAddress)
      invariant forall k, i: nat :: n <= k < |all| ==>
                  Latch(m.root, m.latches, all[k].Where(), i) == Latch(m.root, old(m.latches), all[k].Where(), i)
      invariant OthersKept(m.root, Functions(all), old(m.latches), m.latches)
    {
      AssignDevice(m, all[n]);
      assert all[n].Where() in Functions(all);
      n := n + 1;
    }
  }

  method AssignDevice(m: Machine, d: Device)
    requires d.Reached(m)
    modifies m`latches
    ensures WrittenBars(m.root, d.Where(), old(m.latches), m.latches, d.baseAddress)
    ensures OthersKept(m.root, {d.Where()}, old(m.latches), m.latches)
  {
    hide Machine.Reaches;
    var i := 0;
    while i < 6
      invariant 0 <= i <= 6
      invariant forall j: nat :: Latch(m.root, m.latches, d.Where(), j)
                  == if j < i && d.baseAddress[j] != 0 then d.baseAddress[j]
                     else Latch(m.root, old(m.latches), d.Where(), j)
      invariant OthersKept(m.root, {d.Where()}, old(m.latches), m.latches)
    {
      if d.baseAddress[i] != 0 {
        m.WriteBase(d.bus, d.devfn, i, d.baseAddress[i], d.at);
      }
      i := i + 1;
    }
  }

  /** The command words of all devices but the bridges of the root bus. */
  ghost function OtherCommands(root: PciBus): map<Device, Command>
    reads root.Footprint()
  {
    CommandWords(root.Footprint()) - root.Bridges()
  }

  ghost function AllPasses(words: map<Device, Command>): map<Device, Command>
  {
    Enabling(Pref, Enabling(Mem, Enabling(Io, words)))
  }

  lemma EnablingOthers(words: map<Device, Command>, bridges: set<Device>)
    ensures AllPasses(words) - bridges == AllPasses(words - bridges)
  {
    hide Enabled;
  }

  /** The first part of pci_configure: where the spaces start, and the layout. */
  method LayOut(root: PciBus)
    requires root.Tree() && AllFit(root.View())
    modifies root.Footprint()
    ensures root.View() == AllocAll(old(root.View()))
    ensures CommandWords(root.Footprint()) == AllPasses(old(CommandWords(root.Footprint())))
  {
    hide PciBus.Tree;
    hide PciBus.Footprint;
    hide PciBus.View;
    hide AllocAll;
    hide Enabling;
    ghost var v, words := root.View(), CommandWords(root.Footprint());
    root.OwnApart();
    assert allocated(root.Footprint());
    LimitIs(root, Io);
    LimitIs(root, Mem);
    LimitIs(root, Pref);
    root.SetBase(Mem, PCI_MEM_START);
    LimitIs(root, Pref);
    root.SetBase(Pref, PCI_MEM_START);
    LimitIs(root, Io);
    root.SetBase(Io, PCI_IO_START);
    LimitIs(root, Mem);
    AllRebase(v, Window(PCI_IO_START, v.io.limit), Window(PCI_MEM_START, v.mem.limit),
              Window(PCI_MEM_START, v.pref.limit));
    assert CommandWords(root.Footprint()) == words;
    root.ComputeAllocateResources();
  }

  /** assign_resources: the bridges of the root bus, then all devices; the layout stays. */
  method AssignResources(m: Machine, root: PciBus, all: seq<Device>)
    requires root.Tree() && root.HasBridges(m) && AllReached(m, all)
    modifies root.Bridges()`command, m`windows, m`latches
    ensures root.View() == old(root.View()) && OtherCommands(root) == old(OtherCommands(root))
    ensures forall i :: 0 <= i < |root.children| ==> root.children[i].Programmed(m.windows)
    ensures ElsewhereSame(root.BridgePaths(), old(m.windows), m.windows)
    ensures forall k :: 0 <= k < |all| ==>
            WrittenBars(m.root, all[k].Where(), old(m.latches), m.latches, all[k].baseAddress)
    ensures OthersKept(m.root, Functions(all), old(m.latches), m.latches)
  {
    hide PciBus.Tree;
    hide PciBus.Footprint;
    hide PciBus.View;
    hide PciBus.Bridges;
    hide PciBus.BridgePaths;
    hide Functions;
    hide WrittenBars;
    hide OthersKept;
    hide ElsewhereSame;
    root.FootprintKinds();
    assert allocated(root.Footprint());
    root.AssignWindows(m);
    AssignBars(m, all);
    root.ViewSame();
  }

  /**
   pci_configure: lay out all resources from 0x1000 and 0x80000000 on, then write the window registers of the
   bridges on the root bus and the base address registers of every device. The command words are set for what a device
   was given; those of the bridges on the root bus for their windows.
   */
  method PciConfigure(m: Machine, root: PciBus, all: seq<Device>)
    requires root.Tree() && AllFit(root.View()) && root.HasBridges(m) && AllReached(m, all)
    modifies root.Footprint(), root.Bridges()`command, m`windows, m`latches
    ensures root.View() == AllocAll(old(root.View()))
    ensures forall i :: 0 <= i < |root.children| ==> root.children[i].Programmed(m.windows)
    ensures ElsewhereSame(root.BridgePaths(), old(m.windows), m.windows)
    ensures forall k :: 0 <= k < |all| ==>
            WrittenBars(m.root, all[k].Where(), old(m.latches), m.latches, all[k].baseAddress)
    ensures OthersKept(m.root, Functions(all), old(m.latches), m.latches)
    ensures OtherCommands(root) == AllPasses(old(OtherCommands(root)))
  {
    hide PciBus.Tree;
    hide PciBus.Footprint;
    hide PciBus.View;
    hide PciBus.Bridges;
    hide PciBus.BridgePaths;
    hide AllocAll;
    hide AllPasses;
    hide WrittenBars;
    hide OthersKept;
    hide ElsewhereSame;
    hide Functions;
    hide PciBus.HasBridges;
    hide PciBus.Programmed;
    hide AllReached;
    EnablingOthers(CommandWords(root.Footprint()), root.Bridges());
    root.FootprintKinds();
    LayOut(root);
    assert OtherCommands(root) == AllPasses(old(OtherCommands(root)));
    AssignResources(m, root, all);
  }

  /** enable_resources: the bits of every device are added to its command register. */
  method EnableResources(m: Machine, all: seq<Device>)
    requires AllReached(m, all)
    modifies m`command
    ensures forall k :: 0 <= k < |all| ==>
              CommandOf(m.command, all[k].Where())
              == Or(CommandOf(old(m.command), all[k].Where()), all[k].command.Bits())
    ensures forall p: Path :: p !in Functions(all) ==> CommandOf(m.command, p) == CommandOf(old(m.command), p)
  {
    hide Or;
    hide Machine.Reaches;
    hide Command.Bits;
    var n := 0;
    while n < |all|
      invariant 0 <= n <= |all|
      invariant forall k :: 0 <= k < n ==>
                  CommandOf(m.command, all[k].Where())
                  == Or(CommandOf(old(m.command), all[k].Where()), all[k].command.Bits())
      invariant forall k :: n <= k < |all| ==>
                  CommandOf(m.command, all[k].Where()) == CommandOf(old(m.command), all[k].Where())
      invariant forall p: Path :: p !in Functions(all) ==> CommandOf(m.command, p) == CommandOf(old(m.command), p)
    {
      var command := m.ReadCommand(all[n].bus, all[n].devfn, all[n].at);
      assert all[n].Where() in Functions(all);
      m.WriteCommand(all[n].bus, all[n].devfn, Or(command, all[n].command.Bits()), all[n].at);
      n := n + 1;
    }
  }

  /** A fresh record decodes exactly the spaces in which it was given an address. */
  lemma EnabledExactly(size: Words)
    ensures var c := AllEnabled(size, Command(false, false, false));
      && (c.io <==> WantsAny(Io, size, 6)) && (c.memory <==> WantsAny(Mem, size, 6) || WantsAny(Pref, size, 6))
      && !c.master
  {
    hide WantsAny;
  }

  /**
   Once the machine is configured, each bridge of the root bus forwards exactly the memory windows of its bus, and
   its I/O window unless that leaves the 64K of I/O space.
   */
  lemma ConfiguredWindows(root: PciBus, before: Bus, windows: WindowRegisters, i: nat)
    requires root.Tree() && root.View() == AllocAll(before)
    requires i < |root.children| && root.children[i].self != null && root.children[i].Programmed(windows)
    ensures var c := root.children[i]; var p := c.self.Where();
      && (forall a: nat :: MemDecodes(WindowAt(windows, p, MemoryBase), WindowAt(windows, p, MemoryLimit), a)
                           <==> c.membase <= a <= c.memlimit)
      && (forall a: nat :: MemDecodes(WindowAt(windows, p, PrefBase), WindowAt(windows, p, PrefLimit), a)
                           <==> c.prefmembase <= a <= c.prefmemlimit)
      && ((forall a: nat :: IoDecodes(WindowAt(windows, p, IoBase), WindowAt(windows, p, IoLimit), a)
                            <==> c.iobase <= a <= c.iolimit)
          <==> if c.iobase <= c.iolimit then c.iolimit < 0x1_0000 else c.iobase % 0x1_0000 != 0)
  {
    hide *;
    AllLaid(before);
    root.KidView(i);
    LaidKid(Io, root.View(), i);
    LaidKid(Mem, root.View(), i);
    LaidKid(Pref, root.View(), i);
    root.children[i].ProgrammedDecodes(windows);
  }

  lemma LaidKid(sp: Space, b: Bus, i: nat)
    requires Laid(sp, b) && i < |b.children|
    ensures Laid(sp, b.children[i])
  {
    KidLaid(sp, b.children, b.Win(sp).base, i);
  }

  /** The windows a bus had before do not matter. */
  lemma AllRebase(b: Bus, io: Window, mem: Window, pref: Window)
    ensures AllocAll(b.(io := io, mem := mem, pref := pref)) == AllocAll(b)
  {
    hide AllocKids;
    hide AllocDevs;
    hide Rounded;
  }

  /** The layout ends below 4G in every space. */
  ghost predicate AllFit(b: Bus)
  {
    forall sp :: AllocAll(b).Win(sp).limit + 1 < W32
  }

  /** What the three passes need to know, one after the other. */
  lemma AllFitSteps(b: Bus)
    requires AllFit(b)
    ensures var b1 := AllocBus(Io, b, PCI_IO_START);
            && b1.io.limit + 1 < W32 && b1.mem == b.mem
            && var b2 := AllocBus(Mem, b1, PCI_MEM_START);
            && b2.mem.base == PCI_MEM_START && 0 <= b2.mem.limit && b2.mem.limit + 1 < W32
            && b2.mem.limit + ONEMEG - 1 < W32
            && var p := Rounded(b2.mem.limit, ONEMEG);
            && 0 < p < W32 && p % ONEMEG == 0
            && AllocAll(b) == AllocBus(Pref, b2, p) && AllocAll(b).pref.limit + 1 < W32
  {
    hide AllocBus;
    hide Laid;
    hide Rounded;
    hide SameKids;
    hide SameDevs;
    var b1 := AllocBus(Io, b, PCI_IO_START);
    var b2 := AllocBus(Mem, b1, PCI_MEM_START);
    AllocBusLaid(Io, b, PCI_IO_START);
    AllocBusLaid(Mem, b1, PCI_MEM_START);
    WindowEnd(Mem, b2);
    var b3 := AllocBus(Pref, b2, After(Mem, b2.mem.limit));
    AllocBusLaid(Pref, b2, After(Mem, b2.mem.limit));
    assert b1.Win(Mem) == b.Win(Mem);
    assert b3.Win(Io) == b2.Win(Io) == b1.Win(Io) && b3.Win(Mem) == b2.Win(Mem);
    assert AllocAll(b).Win(Io).limit + 1 < W32 && AllocAll(b).Win(Mem).limit + 1 < W32
          && AllocAll(b).Win(Pref).limit + 1 < W32;
    ChildLimitFits(Mem, b2.mem.limit);
  }

  /** All the addresses of a pass are below its limit. */
  lemma PassFits(sp: Space, b: Bus, base: nat)
    requires 0 < base && base % sp.Align() == 0 && AllocBus(sp, b, base).Win(sp).limit + 1 < W32
    ensures var (kids, k) := AllocKids(sp, b.children, base);
            && k < W32 && (sp.Io? ==> k % IO_ALIGN == 0)
            && var (devs, e) := AllocDevs(sp, b.devices, k);
            && 0 < e && Rounded(e, sp.Align()) < W32
            && AllocBus(sp, b, base)
               == b.(children := kids, devices := devs).WithWin(sp, Window(base, Rounded(e, sp.Align()) - 1))
  {
    hide AllocKids;
    hide AllocDevs;
    hide Rounded;
    hide KidsLaid;
    hide SameKids;
    hide SameDevs;
    hide Ordered;
    hide AllAligned;
    hide KidsEnd;
    hide DevRanges;
    AllocKidsLaid(sp, b.children, base);
    var k := AllocKids(sp, b.children, base).1;
    MultipleOf16(sp, k);
    DevsLaid(sp, b.devices, k);
  }

  lemma LimitFits(sp: Space, e: Word)
    requires Rounded(e, sp.Align()) < W32
    ensures e + sp.Align() - 1 < W32
  {
    hide Rounded;
    RoundedTo(e, sp.Align());
    MultipleFits(Rounded(e, sp.Align()), sp.Align());
  }

  ghost function DevViews(ds: seq<Device>): seq<Dev>
    reads set d | d in ds
  {
    seq(|ds|, i requires 0 <= i < |ds| reads set d | d in ds => ds[i].View())
  }

  // ----- One register -----

  /** Rounding a length and a base up does not wrap when the result fits. */
  lemma PlaceFits(sp: Space, size: Word, base: nat)
    requires Wants(sp, size) && Next(sp, size, base) < W32
    ensures Length(sp, size) + (if sp.Io? then IO_ALIGN else MEM_ALIGN) - 1 < W32
    ensures !sp.Io? ==> base + Rounded(Length(sp, size), MEM_ALIGN) - 1 < W32
    ensures !sp.Io? ==> 0 < Rounded(Length(sp, size), MEM_ALIGN) < W32
  {
    hide Rounded;
    hide Wants;
    hide Length;
    WantsLength(sp, size);
    var align := if sp.Io? then IO_ALIGN else MEM_ALIGN;
    RoundedTo(Length(sp, size), align);
    MultipleFits(Rounded(Length(sp, size), align), align);
  }

  /** A multiple of the alignment below 2^32 leaves room for the addition inside round. */
  lemma MultipleFits(r: nat, align: nat)
    requires align == IO_ALIGN || align == MEM_ALIGN || align == ONEMEG
    requires r % align == 0 && r < W32
    ensures r + align <= W32
  {
  }

  /** The body of the loop of compute_allocate_io for one register. */
  method AllocateIoBar(size: Word, ioBase: Word, command: Command)
    returns (taken: bool, addr: Word, next: Word, enabled: Command)
    requires ioBase % IO_ALIGN == 0 && (Wants(Io, size) ==> Next(Io, size, ioBase) < W32)
    ensures taken <==> Wants(Io, size)
    ensures taken ==> addr == Stored(Io, Place(Io, size, ioBase)) && next == Next(Io, size, ioBase)
    ensures !taken ==> next == ioBase
    ensures enabled == if taken then command.(io := true) else command
  {
    hide And;
    hide Or;
    hide Rounded;
    taken, addr, next, enabled := false, 0, ioBase, command;
    if And(size, SPACE_IO) != 0 {
      AndLess(size, Not(3));
      var ioSize: Word := And(size, Not(3));
      if ioSize == 0 { return; }
      PlaceFits(Io, size, ioBase);
      OrLiterals16(ioBase);
      addr := Or(ioBase, SPACE_IO);
      var r := Round(ioSize, IO_ALIGN);
      next := ioBase + r;
      enabled := enabled.(io := true);
      taken := true;
    }
  }

  /** The body of the loop of compute_allocate_mem, or of compute_allocate_prefmem, for one register. */
  method AllocateMemBar(prefetch: bool, size: Word, memBase: Word, command: Command)
    returns (taken: bool, addr: Word, next: Word, enabled: Command)
    requires var sp := if prefetch then Pref else Mem; Wants(sp, size) ==> Next(sp, size, memBase) < W32
    ensures var sp := if prefetch then Pref else Mem;
            && (taken <==> Wants(sp, size))
            && (taken ==> addr == Place(sp, size, memBase) && next == Next(sp, size, memBase))
            && (!taken ==> next == memBase)
            && enabled == if taken then command.(memory := true) else command
  {
    hide Or;
    hide Rounded;
    ghost var sp := if prefetch then Pref else Mem;
    taken, addr, next, enabled := false, 0, memBase, command;
    AndLess(size, Not(15));
    KindBits(size);
    hide And;
    var memorySize: Word := And(size, Not(15));
    var kind := And(size, Not(Not(15)));
    if memorySize == 0 { return; }
    if And(kind, SPACE_IO) != 0 { return; }
    if And(kind, TYPE_1M) != 0 { return; }
    if (And(kind, PREFETCH) != 0) != prefetch { return; }
    kind := And(kind, TYPE_1M + TYPE_64);
    if kind == 0 || kind == TYPE_64 {
      PlaceFits(sp, size, memBase);
      var regMem := Round(memorySize, MEM_ALIGN);
      addr := Round(memBase, regMem);
      next := addr + regMem;
      enabled := enabled.(memory := true);
      taken := true;
    }
  }

  /** Testing a flag of the low four bits is testing it in the whole word; the last test is always true. */
  lemma KindBits(size: Word)
    ensures var kind := And(size, Not(Not(15)));
            && And(kind, SPACE_IO) == And(size, SPACE_IO) && And(kind, TYPE_1M) == And(size, TYPE_1M)
            && And(kind, PREFETCH) == And(size, PREFETCH)
            && (And(kind, TYPE_1M) == 0 ==> And(kind, 6) == 0 || And(kind, 6) == TYPE_64)
  {
    hide And;
    FlagBits(size);
    NibbleAnd(size, 1);
    NibbleAnd(size, 2);
    NibbleAnd(size, 8);
    TypeBits(And(size, 15));
  }

  lemma TypeBits(kind: nat)
    ensures And(kind, 2) == 0 ==> And(kind, 6) == 0 || And(kind, 6) == 4
  {
    hide And;
    hide Pow2;
    AndHalf(kind, 2);
    AndHalf(kind, 6);
    Pow2Word();
    Pow2Sixteen();
    AndMask(kind / 2, 1);
    AndMask(kind / 2, 2);
  }

  lemma NibbleAnd(x: nat, f: nat)
    requires f < 16
    ensures And(x, f) == And(x % 16, f)
  {
    hide And;
    hide Pow2;
    Pow2Word();
    AndLow(x, f, 4);
  }

  // ----- A device -----

  /** The two loops over the six registers of a device. */
  method AllocateDevice(sp: Space, d: Device, base: Word) returns (next: Word)
    requires sp.Io? ==> base % IO_ALIGN == 0
    requires AllocBars(sp, d.View(), 0, base).1 < W32
    modifies d`baseAddress, d`command
    ensures (d.View(), next as nat) == AllocBars(sp, old(d.View()), 0, base)
    ensures d.command == Enabled(sp, d.size, old(d.command))
  {
    hide Wants;
    hide Place;
    hide Next;
    hide Stored;
    ghost var goal := AllocBars(sp, d.View(), 0, base);
    next := base;
    var i := 0;
    while i < 6
      invariant 0 <= i <= 6 && (sp.Io? ==> next % IO_ALIGN == 0)
      invariant AllocBars(sp, d.View(), i, next) == goal
      invariant d.command == EnabledBy(sp, d.size, i, old(d.command))
    {
      NextFits(sp, d.View(), i, next);
      var taken, addr, n, enabled;
      if sp.Io? {
        taken, addr, n, enabled := AllocateIoBar(d.size[i], next, d.command);
      } else {
        taken, addr, n, enabled := AllocateMemBar(sp.Pref?, d.size[i], next, d.command);
      }
      if taken {
        ghost var v := d.View();
        d.baseAddress := d.baseAddress[i := addr];
        assert d.View() == v.(addr := v.addr[i := Stored(sp, Place(sp, d.size[i], next))]) by {
          MemStored(sp, Place(sp, d.size[i], next));
        }
        next := n;
        d.command := enabled;
      }
      WantsNext(sp, d.size, i);
      i := i + 1;
    }
  }

  /** After the first n registers. */
  function EnabledBy(sp: Space, size: Words, n: nat, c: Command): Command
    requires n <= 6
  {
    if !WantsAny(sp, size, n) then c else if sp.Io? then c.(io := true) else c.(memory := true)
  }

  lemma WantsNext(sp: Space, size: Words, i: nat)
    requires i < 6
    ensures WantsAny(sp, size, i + 1) <==> WantsAny(sp, size, i) || Wants(sp, size[i])
  {
    hide Wants;
  }

  lemma MemStored(sp: Space, a: nat)
    ensures !sp.Io? ==> Stored(sp, a) == a
  {
  }

  /** The next register still fits below what the device needs in all. */
  lemma NextFits(sp: Space, d: Dev, i: nat, base: nat)
    requires i < 6 && (sp.Io? ==> base % IO_ALIGN == 0) && AllocBars(sp, d, i, base).1 < W32
    ensures Wants(sp, d.size[i]) ==>
              && Next(sp, d.size[i], base) < W32
              && (sp.Io? ==> Next(sp, d.size[i], base) % IO_ALIGN == 0)
  {
    hide Wants;
    hide Place;
    hide Next;
    hide Stored;
    hide BarRanges;
    hide Ordered;
    hide AllAligned;
    hide SameDev;
    if Wants(sp, d.size[i]) {
      Placed(sp, d.size[i], base);
      var a := Place(sp, d.size[i], base);
      BarsLaid(sp, d.(addr := d.addr[i := Stored(sp, a)]), i + 1, Next(sp, d.size[i], base));
    }
  }
}
