/**
 The whole of PCI setup, from reset to enabled devices: the scan, the records the allocator works on, the layout and the
 writes that program it. Every access to configuration space reaches exactly one bus.
 */
module PciBoot {
  import opened Bits
  import opened PciAddress
  import opened PciBusNumbers
  import opened PciTopology
  import opened PciMachine
  import opened PciScan
  import opened PciLayout
  import opened PciDecode
  import opened PciAlloc
  import opened PciReach
  import opened PciIoSpace
  import opened PciIoReach

  // ----- What the allocator starts from -----

  function DevsOf(devices: seq<PciScan.Dev>): seq<PciLayout.Dev>
  {
    seq(|devices|, i requires 0 <= i < |devices| => PciLayout.Dev(devices[i].size, [0, 0, 0, 0, 0, 0]))
  }

  /** The records of a bus after the scan, as the layout sees them. */
  function BusOf(seg: Segment): Bus
    decreases seg, |seg.slots| + 1
  {
    Bus(Window(0, 0), Window(0, 0), Window(0, 0), BusesOf(seg, |seg.slots|), DevsOf(Devices(seg, 0xff)))
  }

  function BusesOf(seg: Segment, i: nat): seq<Bus>
    requires i <= |seg.slots|
    decreases seg, i
  {
    if i == 0 then []
    else if Descended(seg, i - 1) then [BusOf(Behind(seg, i - 1))] + BusesOf(seg, i - 1)
    else BusesOf(seg, i - 1)
  }

  // ----- Linked records that mirror the hardware -----

  ghost predicate DeviceMirrors(d: Device, dev: PciScan.Dev, n: nat, at: Path)
  {
    d.size == dev.size && d.bus == n && d.devfn == dev.devfn && d.at == at
  }

  ghost predicate DevicesMirror(ds: seq<Device>, devs: seq<PciScan.Dev>, n: nat, at: Path)
  {
    |ds| == |devs| && forall j :: 0 <= j < |ds| ==> DeviceMirrors(ds[j], devs[j], n, at)
  }

  /** The records below b are those of the buses and functions below seg, which is at a path and has number n. */
  ghost predicate Mirrors(b: PciBus, seg: Segment, at: Path, n: nat)
    decreases seg, |seg.slots| + 1
  {
    DevicesMirror(b.devices, Devices(seg, 0xff), n, at) && KidsMirror(b.children, b.devices, seg, at, n, |seg.slots|)
  }

  ghost predicate KidsMirror(cs: seq<PciBus>, ds: seq<Device>, seg: Segment, at: Path, n: nat, i: nat)
    requires i <= |seg.slots|
    decreases seg, i
  {
    if i == 0 then cs == []
    else if Descended(seg, i - 1) then
      && cs != [] && IsBridgeOf(cs[0], ds, i - 1)
      && Mirrors(cs[0], Behind(seg, i - 1), at + [i - 1], NumberOf(seg, n, i - 1))
      && KidsMirror(cs[1..], ds, seg, at, n, i - 1)
    else KidsMirror(cs, ds, seg, at, n, i - 1)
  }

  /** The bridge of bus c is the device with that devfn. */
  ghost predicate IsBridgeOf(c: PciBus, ds: seq<Device>, devfn: nat)
  {
    c.self != null && c.self in ds && c.self.devfn == devfn
  }

  /** Records in the order of the chain. */
  ghost predicate InOrder(all: seq<Device>, chain: seq<Entry>)
  {
    |all| == |chain| && forall k :: 0 <= k < |all| ==> EntryMirrors(all[k], chain[k])
  }

  ghost predicate EntryMirrors(d: Device, e: Entry)
  {
    d.size == e.dev.size && d.bus == e.bus && d.devfn == e.dev.devfn
  }

  lemma InOrderConcat(a: seq<Device>, a': seq<Device>, c: seq<Entry>, c': seq<Entry>)
    requires InOrder(a, c) && InOrder(a', c')
    ensures InOrder(a + a', c + c')
  {
    hide EntryMirrors;
  }

  /** The trees of the buses behind the bridges of one bus, with nothing in common. */
  ghost predicate Forest(cs: seq<PciBus>, height: nat)
  {
    && (forall i :: 0 <= i < |cs| ==> cs[i].height < height && cs[i].Tree())
    && (forall i, j :: 0 <= i < j < |cs| ==> cs[i].Footprint() !! cs[j].Footprint())
  }

  ghost function Objects(cs: seq<PciBus>): set<object>
  {
    set i: nat, o: object | i < |cs| && o in cs[i].Footprint() :: o
  }

  /** Devices among these objects are in the list. */
  ghost predicate Listed(objects: set<object>, all: seq<Device>)
  {
    && (forall d: Device :: d in objects ==> d in all)
    && (forall k :: 0 <= k < |all| ==> all[k] in objects)
  }

  ghost predicate Unset(all: seq<Device>)
    reads set d | d in all
  {
    forall k :: 0 <= k < |all| ==> all[k].command == NONE && all[k].baseAddress == [0, 0, 0, 0, 0, 0]
  }

  method LinkDevices(devices: seq<PciScan.Dev>, n: nat, ghost at: Path) returns (ds: seq<Device>)
    ensures DevicesMirror(ds, devices, n, at) && fresh(ds) && Unset(ds)
    ensures forall i, j :: 0 <= i < j < |ds| ==> ds[i] != ds[j]
  {
    ds := [];
    var j := 0;
    while j < |devices|
      invariant 0 <= j <= |devices| && DevicesMirror(ds, devices[..j], n, at) && fresh(ds) && Unset(ds)
      invariant forall i, j :: 0 <= i < j < |ds| ==> ds[i] != ds[j]
    {
      var d := new Device(devices[j].size, n, devices[j].devfn, at);
      ds := ds + [d];
      j := j + 1;
    }
    assert devices[..j] == devices;
  }

  /** The device with a devfn. */
  method DeviceWith(ds: seq<Device>, devfn: nat) returns (d: Device)
    requires exists k :: 0 <= k < |ds| && ds[k].devfn == devfn
    ensures d in ds && d.devfn == devfn
  {
    var k := 0;
    while ds[k].devfn != devfn
      invariant 0 <= k < |ds| && forall j :: 0 <= j < k ==> ds[j].devfn != devfn
      decreases |ds| - k
    {
      k := k + 1;
    }
    d := ds[k];
  }

  /** The highest bridge below slot i that the scan looked behind. */
  lemma {:induction false} KidsStart(seg: Segment, n: nat, i: nat) returns (d: nat)
    requires i <= |seg.slots|
    ensures Kids(seg, n, i) == [] ==>
              BusesOf(seg, i) == [] && ChainBehind(seg, n, i) == [] && forall k :: 0 <= k < i ==> !Descended(seg, k)
    ensures Kids(seg, n, i) != [] ==>
              && d < i && Descended(seg, d)
              && Kids(seg, n, i) == [Record(Behind(seg, d), d, n, NumberOf(seg, n, d))] + Kids(seg, n, d)
              && BusesOf(seg, i) == [BusOf(Behind(seg, d))] + BusesOf(seg, d)
              && ChainBehind(seg, n, i) == ChainBehind(seg, n, d) + ChainOf(Behind(seg, d), NumberOf(seg, n, d))
              && forall k :: d < k < i ==> !Descended(seg, k)
    decreases i
  {
    hide Descended;
    hide Record;
    hide BusOf;
    hide ChainOf;
    d := 0;
    if i > 0 {
      if Descended(seg, i - 1) { d := i - 1; } else { d := KidsStart(seg, n, i - 1); }
    }
  }

  /** One more tree in the forest. */
  lemma ForestMore(c: PciBus, kids: seq<PciBus>, height: nat, more: nat)
    requires c.Tree() && c.height < more && Forest(kids, height) && height <= more && Objects(kids) !! c.Footprint()
    ensures Forest([c] + kids, more) && Objects([c] + kids) == c.Footprint() + Objects(kids)
  {
    hide PciBus.Tree;
    hide PciBus.Footprint;
    var all := [c] + kids;
    forall i: nat | i < |kids|
      ensures kids[i].Footprint() <= Objects(kids)
    {
    }
    forall o | o in Objects(all)
      ensures o in c.Footprint() + Objects(kids)
    {
      var i: nat :| i < |all| && o in all[i].Footprint();
      if i > 0 { assert o in kids[i - 1].Footprint(); }
    }
    forall o | o in c.Footprint() + Objects(kids)
      ensures o in Objects(all)
    {
      if o in c.Footprint() {
        assert o in all[0].Footprint();
      } else {
        var i: nat :| i < |kids| && o in kids[i].Footprint();
        assert o in all[i + 1].Footprint();
      }
    }
  }

  /** The records of the buses behind the bridges of a bus. */
  method LinkKids(cs: seq<BusRecord>, ds: seq<Device>, ghost seg: Segment, ghost at: Path, ghost n: nat, ghost i: nat)
    returns (kids: seq<PciBus>, all: seq<Device>, ghost height: nat)
    requires i <= |seg.slots| && cs == Kids(seg, n, i) && DevicesMirror(ds, Devices(seg, 0xff), n, at)
    ensures KidsMirror(kids, ds, seg, at, n, i) && Forest(kids, height) && fresh(Objects(kids))
    ensures |kids| == |BusesOf(seg, i)| && forall k :: 0 <= k < |kids| ==> kids[k].View() == BusesOf(seg, i)[k]
    ensures InOrder(all, ChainBehind(seg, n, i)) && Listed(Objects(kids), all) && Unset(all)
    decreases seg, i
  {
    hide PciBus.Tree;
    hide PciBus.Footprint;
    hide PciBus.View;
    hide BusOf;
    hide BusesOf;
    hide Kids;
    hide Record;
    hide ChainOf;
    hide ChainBehind;
    hide Descended;
    hide Devices;
    hide Mirrors;
    hide KidsMirror;
    hide IsBridgeOf;
    hide Forest;
    hide Objects;
    hide Listed;
    hide InOrder;
    hide DevicesMirror;
    ghost var d := KidsStart(seg, n, i);
    if cs == [] {
      kids, all, height := [], [], 0;
      NothingLinked(ds, seg, at, n);
      MirrorSkip(kids, ds, seg, at, n, 0, i);
      return;
    }
    RecordIs(Behind(seg, d), d, n, NumberOf(seg, n, d));
    BridgeListed(seg, d, ds, n, at);
    var self := DeviceWith(ds, cs[0].self);
    var child, more := Link(cs[0], self, Behind(seg, d), at + [d]);
    BridgeIs(child, ds, d);
    assert allocated(child.Footprint());
    ghost var h;
    kids, all, h := LinkKids(cs[1..], ds, seg, at, n, d);
    height := if h > child.height then h else child.height + 1;
    ForestMore(child, kids, h, height);
    ListedMore(child.Footprint(), more, Objects(kids), all);
    InOrderConcat(all, more, ChainBehind(seg, n, d), ChainOf(Behind(seg, d), NumberOf(seg, n, d)));
    MirrorMore(child, kids, ds, seg, at, n, d);
    kids, all := [child] + kids, all + more;
    MirrorSkip(kids, ds, seg, at, n, d + 1, i);
  }

  lemma NothingLinked(ds: seq<Device>, seg: Segment, at: Path, n: nat)
    ensures KidsMirror([], ds, seg, at, n, 0) && Forest([], 0) && Objects([]) == {} && Listed({}, []) && InOrder([], [])
  {
  }

  lemma BridgeIs(c: PciBus, ds: seq<Device>, devfn: nat)
    requires c.self != null && c.self in ds && c.self.devfn == devfn
    ensures IsBridgeOf(c, ds, devfn)
  {
  }

  lemma ListedMore(a: set<object>, la: seq<Device>, b: set<object>, lb: seq<Device>)
    requires Listed(a, la) && Listed(b, lb)
    ensures Listed(a + b, lb + la)
  {
  }

  lemma {:induction false} MirrorSkip(cs: seq<PciBus>, ds: seq<Device>, seg: Segment, at: Path, n: nat, d: nat, i: nat)
    requires d <= i <= |seg.slots| && KidsMirror(cs, ds, seg, at, n, d)
    requires forall k :: d <= k < i ==> !Descended(seg, k)
    ensures KidsMirror(cs, ds, seg, at, n, i)
    decreases i
  {
    hide Descended;
    hide Mirrors;
    if d < i { MirrorSkip(cs, ds, seg, at, n, d, i - 1); }
  }

  lemma MirrorMore(c: PciBus, kids: seq<PciBus>, ds: seq<Device>, seg: Segment, at: Path, n: nat, d: nat)
    requires d < |seg.slots| && Descended(seg, d) && IsBridgeOf(c, ds, d)
    requires Mirrors(c, Behind(seg, d), at + [d], NumberOf(seg, n, d)) && KidsMirror(kids, ds, seg, at, n, d)
    ensures KidsMirror([c] + kids, ds, seg, at, n, d + 1)
  {
    hide Descended;
    hide Mirrors;
    hide IsBridgeOf;
    assert ([c] + kids)[1..] == kids;
  }

  lemma LinkedTree(b: PciBus)
    requires Forest(b.children, b.height) && b !in Objects(b.children)
    requires forall d: Device :: d in b.devices ==> d !in Objects(b.children)
    requires forall i, j :: 0 <= i < j < |b.devices| ==> b.devices[i] != b.devices[j]
    ensures b.Tree() && b.Footprint() == {b as object} + b.DevObjects() + Objects(b.children)
  {
    forall i: nat, o | i < |b.children| && o in b.children[i].Footprint()
      ensures o in Objects(b.children)
    {
    }
    hide PciBus.DevObjects;
    hide Objects;
    LinkedBelow(b);
  }

  lemma LinkedBelow(b: PciBus)
    requires Forest(b.children, b.height)
    ensures b.Below() == Objects(b.children)
  {
    hide PciBus.Footprint;
    hide PciBus.Tree;
  }

  lemma LinkedView(b: PciBus, seg: Segment, n: nat, at: Path)
    requires b.Tree() && |b.children| == |BusesOf(seg, |seg.slots|)|
    requires forall k :: 0 <= k < |b.children| ==>
               b.children[k].Tree() && b.children[k].View() == BusesOf(seg, |seg.slots|)[k]
    requires DevicesMirror(b.devices, Devices(seg, 0xff), n, at) && Unset(b.devices)
    requires forall sp :: b.Base(sp) == 0 && b.Limit(sp) == 0
    ensures b.View() == BusOf(seg)
  {
    hide BusesOf;
    hide Devices;
    hide PciBus.Tree;
    hide PciBus.Below;
    b.KidViewsAre();
    LimitIs(b, Io);
    LimitIs(b, Mem);
    LimitIs(b, Pref);
    assert b.KidViews() == BusesOf(seg, |seg.slots|);
    assert DevViews(b.devices) == DevsOf(Devices(seg, 0xff));
  }

  lemma OwnInOrder(ds: seq<Device>, n: nat, at: Path, devices: seq<PciScan.Dev>)
    requires DevicesMirror(ds, devices, n, at)
    ensures InOrder(ds, Tagged(n, devices))
  {
  }

  lemma RecordIs(seg: Segment, self: nat, primary: nat, n: nat)
    ensures var r := Record(seg, self, primary, n);
      && r.self == self && r.primary == primary && r.number == n
      && r.devices == Devices(seg, 0xff) && r.children == Kids(seg, n, |seg.slots|)
  {
  }

  lemma BridgeListed(seg: Segment, d: nat, ds: seq<Device>, n: nat, at: Path)
    requires d < |seg.slots| && Descended(seg, d) && DevicesMirror(ds, Devices(seg, 0xff), n, at)
    ensures exists k :: 0 <= k < |ds| && ds[k].devfn == d
  {
    FoundInside(seg, d);
    var j := DeviceOf(seg, 0xff, d);
    assert ds[j].devfn == d;
  }

  /** Linked records for a bus that was scanned, and its devices in the order of the chain of all devices. */
  method Link(r: BusRecord, self: Device?, ghost seg: Segment, ghost at: Path) returns (b: PciBus, all: seq<Device>)
    requires r == Record(seg, r.self, r.primary, r.number)
    ensures Mirrors(b, seg, at, r.number) && b.self == self && b.Tree() && b.View() == BusOf(seg)
            && fresh(b.Footprint())
    ensures InOrder(all, ChainOf(seg, r.number)) && Listed(b.Footprint(), all) && Unset(all)
    decreases seg, |seg.slots| + 1
  {
    hide PciBus.Tree;
    hide PciBus.Footprint;
    hide PciBus.View;
    hide BusesOf;
    hide Kids;
    hide Record;
    hide ChainOf;
    hide ChainBehind;
    hide Descended;
    hide Devices;
    RecordIs(seg, r.self, r.primary, r.number);
    var ds := LinkDevices(r.devices, r.number, at);
    var kids, more, height := LinkKids(r.children, ds, seg, at, r.number, |seg.slots|);
    assert allocated(Objects(kids));
    assert forall k: nat :: k < |kids| ==> allocated(kids[k].Footprint());
    b := new PciBus(kids, ds, self, height);
    LinkedTree(b);
    assert forall k: nat :: k < |kids| ==> kids[k].Tree() && kids[k].View() == BusesOf(seg, |seg.slots|)[k];
    LinkedView(b, seg, r.number, at);
    OwnInOrder(ds, r.number, at, r.devices);
    InOrderConcat(ds, more, Tagged(r.number, r.devices), ChainBehind(seg, r.number, |seg.slots|));
    ChainIs(seg, r.number);
    all := ds + more;
  }

  // ----- After the scan -----

  /** Of the bridges on a bus only the one for which a number is meant answers to it. */
  lemma SlotOnly(seg: Segment, at: Path, regs: Registers, n: nat, d: nat, x: nat)
    requires Numbered(seg, at, regs, n) && d < |seg.slots| && Descended(seg, d)
    requires NumberOf(seg, n, d) <= x <= NumberOf(seg, n, d) + Total(Behind(seg, d))
    ensures Claims(seg, at, regs, x, 0) == ClaimsSlot(seg, at, regs, x, d)
  {
    hide Claims;
    hide Descended;
    hide Count;
    forall k | 0 <= k < |seg.slots| && k != d
      ensures ClaimsSlot(seg, at, regs, x, k) == []
    {
      assert SlotNumbered(seg, at, regs, n, k);
      CountStep(seg, k);
      CountStep(seg, d);
      if k < d { CountRises(seg, k + 1, d); } else { CountRises(seg, d + 1, k); }
    }
    OnlyOne(seg, at, regs, x, d, 0);
  }

  /** Configuration accesses to the buses below seg go where their numbers say. */
  ghost predicate RoutedBelow(root: Segment, regs: Registers, seg: Segment, at: Path, n: nat)
  {
    && Numbered(seg, at, regs, n) && Routed(root, regs, n) == [at]
    && forall x :: n < x <= n + Total(seg) ==> Routed(root, regs, x) == Claims(seg, at, regs, x, 0)
  }

  lemma RoutedBehind(root: Segment, regs: Registers, seg: Segment, at: Path, n: nat, d: nat)
    requires RoutedBelow(root, regs, seg, at, n) && d < |seg.slots| && Descended(seg, d)
    ensures RoutedBelow(root, regs, Behind(seg, d), at + [d], NumberOf(seg, n, d))
  {
    hide Descended;
    hide Count;
    hide Claims;
    hide Routed;
    var b, behind := NumberOf(seg, n, d), Behind(seg, d);
    CountStep(seg, d);
    CountRises(seg, d + 1, |seg.slots|);
    assert SlotNumbered(seg, at, regs, n, d);
    SlotOnly(seg, at, regs, n, d, b);
    DescendedBridge(seg, d);
    forall x | b < x <= b + Total(behind)
      ensures Routed(root, regs, x) == Claims(behind, at + [d], regs, x, 0)
    {
      SlotOnly(seg, at, regs, n, d, x);
    }
  }

  /** A device that accesses reach and that the scan recorded. */
  ghost predicate DeviceRouted(root: Segment, regs: Registers, seg: Segment, at: Path, d: Device)
  {
    && Routed(root, regs, d.bus) == [d.at]
    && |at| <= |d.at| && d.at[..|at|] == at && Recorded(seg, d.Where()[|at|..])
  }

  lemma {:induction false} AllRouted(root: Segment, regs: Registers, b: PciBus, seg: Segment, at: Path, n: nat)
    requires Mirrors(b, seg, at, n) && b.Tree() && RoutedBelow(root, regs, seg, at, n)
    ensures forall d: Device :: d in b.Footprint() ==> DeviceRouted(root, regs, seg, at, d)
    decreases seg, |seg.slots| + 1
  {
    hide PciBus.Tree;
    hide RoutedBelow;
    hide DeviceRouted;
    hide KidsMirror;
    hide Devices;
    hide PciBus.DevObjects;
    hide PciBus.Below;
    b.KidsApart();
    KidsRouted(root, regs, b.children, b.devices, seg, at, n, |seg.slots|);
    forall d: Device | d in b.Footprint()
      ensures DeviceRouted(root, regs, seg, at, d)
    {
      if d in b.DevObjects() {
        var j := DeviceIndex(b, d);
        OwnRouted(root, regs, d, seg, at, n, j);
      } else {
        var k := KidIndex(b, d);
      }
    }
  }

  lemma DeviceIndex(b: PciBus, d: Device) returns (j: nat)
    requires d in b.DevObjects()
    ensures j < |b.devices| && b.devices[j] == d
  {
    j :| j < |b.devices| && d == b.devices[j];
  }

  lemma KidIndex(b: PciBus, o: object) returns (k: nat)
    requires o in b.Below()
    ensures k < |b.children| && o in b.children[k].Footprint()
  {
    k :| k < |b.children| && o in b.children[k].Footprint();
  }

  lemma OwnRouted(root: Segment, regs: Registers, d: Device, seg: Segment, at: Path, n: nat, j: nat)
    requires RoutedBelow(root, regs, seg, at, n) && j < |Devices(seg, 0xff)|
    requires DeviceMirrors(d, Devices(seg, 0xff)[j], n, at)
    ensures DeviceRouted(root, regs, seg, at, d)
  {
    hide Numbered;
    hide Routed;
    hide Claims;
    hide Found;
    DevicesAre(seg, 0xff);
    assert IsDev(seg, 0xff, Devices(seg, 0xff)[j]);
    assert d.Where()[|at|..] == [d.devfn];
  }

  lemma {:induction false} KidsRouted(root: Segment, regs: Registers, cs: seq<PciBus>, ds: seq<Device>, seg: Segment,
        at: Path, n: nat, i: nat)
    requires i <= |seg.slots| && KidsMirror(cs, ds, seg, at, n, i) && RoutedBelow(root, regs, seg, at, n)
    requires forall k :: 0 <= k < |cs| ==> cs[k].Tree()
    ensures forall k, d: Device :: 0 <= k < |cs| && d in cs[k].Footprint() ==> DeviceRouted(root, regs, seg, at, d)
    decreases seg, i
  {
    hide PciBus.Tree;
    hide RoutedBelow;
    hide DeviceRouted;
    hide Mirrors;
    hide Descended;
    hide PciBus.Footprint;
    if i > 0 {
      if Descended(seg, i - 1) {
        RoutedBehind(root, regs, seg, at, n, i - 1);
        AllRouted(root, regs, cs[0], Behind(seg, i - 1), at + [i - 1], NumberOf(seg, n, i - 1));
        KidsRouted(root, regs, cs[1..], ds, seg, at, n, i - 1);
        forall d: Device | d in cs[0].Footprint()
          ensures DeviceRouted(root, regs, seg, at, d)
        {
          DeeperRouted(root, regs, seg, at, i - 1, d);
        }
        forall k, d: Device | 0 <= k < |cs| && d in cs[k].Footprint()
          ensures DeviceRouted(root, regs, seg, at, d)
        {
          if k > 0 { assert cs[k] == cs[1..][k - 1]; }
        }
      } else {
        KidsRouted(root, regs, cs, ds, seg, at, n, i - 1);
      }
    }
  }

  lemma DeeperRouted(root: Segment, regs: Registers, seg: Segment, at: Path, d: nat, dev: Device)
    requires d < |seg.slots| && Descended(seg, d) && DeviceRouted(root, regs, Behind(seg, d), at + [d], dev)
    ensures DeviceRouted(root, regs, seg, at, dev)
  {
    hide Routed;
    hide Descended;
    var p := dev.Where();
    assert p[..|at| + 1] == at + [d] && p[..|at|] == p[..|at| + 1][..|at|];
    assert p[|at|..][1..] == p[|at| + 1..] && p[|at|] == p[..|at| + 1][|at|] == d;
    assert dev.at[..|at|] == dev.at[..|at| + 1][..|at|];
  }

  lemma NumberHere(root: Segment, regs: Registers, x: nat, p: Path)
    requires Routed(root, regs, x) == [p]
    ensures x == NumberAt(regs, p)
  {
    hide Claims;
    if x > 0 {
      ClaimsNumber(root, [], regs, x, 0);
      assert p in Claims(root, [], regs, x, 0);
    }
  }

  lemma SameEnd(p: Path, d: nat, q: Path, e: nat)
    ensures p + [d] == q + [e] ==> p == q && d == e
  {
    if p + [d] == q + [e] { assert p == (p + [d])[..|p|] && q == (q + [e])[..|q|]; }
  }

  /** The devices of the chain are different functions. */
  lemma FunctionsApart(root: Segment, regs: Registers, all: seq<Device>, chain: seq<Entry>)
    requires InOrder(all, chain) && Distinct(chain)
    requires forall k :: 0 <= k < |all| ==> Routed(root, regs, all[k].bus) == [all[k].at]
    ensures forall i, j :: 0 <= i < j < |all| ==> all[i].Where() != all[j].Where()
  {
    hide Routed;
    forall i, j | 0 <= i < j < |all|
      ensures all[i].Where() != all[j].Where()
    {
      assert EntryMirrors(all[i], chain[i]) && EntryMirrors(all[j], chain[j]);
      NumberHere(root, regs, all[i].bus, all[i].at);
      NumberHere(root, regs, all[j].bus, all[j].at);
      SameEnd(all[i].at, all[i].devfn, all[j].at, all[j].devfn);
    }
  }

  /** The bridges of the buses behind a bus: its own devices, in falling order of devfn. */
  lemma {:induction false} BridgesMirror(cs: seq<PciBus>, ds: seq<Device>, seg: Segment, at: Path, n: nat, i: nat)
    requires i <= |seg.slots| && KidsMirror(cs, ds, seg, at, n, i)
    ensures forall k :: 0 <= k < |cs| ==>
              cs[k].self != null && cs[k].self in ds && cs[k].self.devfn < i && Descended(seg, cs[k].self.devfn)
    ensures forall k, l :: 0 <= k < l < |cs| ==> cs[k].self.devfn > cs[l].self.devfn
    ensures forall d :: 0 <= d < i && Descended(seg, d) ==> exists k :: 0 <= k < |cs| && cs[k].self.devfn == d
    decreases i
  {
    hide Mirrors;
    hide Descended;
    if i > 0 {
      if Descended(seg, i - 1) {
        BridgesMirror(cs[1..], ds, seg, at, n, i - 1);
        forall d | 0 <= d < i && Descended(seg, d)
          ensures exists k :: 0 <= k < |cs| && cs[k].self.devfn == d
        {
          if d < i - 1 {
            var k :| 0 <= k < |cs[1..]| && cs[1..][k].self.devfn == d;
            assert cs[k + 1].self.devfn == d;
          } else {
            assert cs[0].self.devfn == d;
          }
        }
      } else {
        BridgesMirror(cs, ds, seg, at, n, i - 1);
      }
    }
  }

  // ----- The layout of fresh records -----

  /** Only registers that the passes take have addresses. */
  predicate Clean(b: Bus)
  {
    (forall j :: 0 <= j < |b.devices| ==> CleanDev(b.devices[j])) && KidsClean(b.children)
  }

  predicate KidsClean(cs: seq<Bus>)
  {
    cs == [] || (Clean(cs[0]) && KidsClean(cs[1..]))
  }

  predicate CleanDev(d: PciLayout.Dev)
  {
    forall i :: 0 <= i < 6 && d.addr[i] != 0 ==> Sized(d.size[i])
  }

  lemma {:induction false} CleanKept(sp: Space, b: Bus, b': Bus)
    requires SameBut(sp, b, b') && Clean(b)
    ensures Clean(b')
    decreases b
  {
    hide SameKids;
    hide KidsClean;
    hide CleanDev;
    hide SameDev;
    forall j | 0 <= j < |b'.devices|
      ensures CleanDev(b'.devices[j])
    {
      assert SameDev(sp, b.devices[j], b'.devices[j]) && CleanDev(b.devices[j]);
      DevKept(sp, b.devices[j], b'.devices[j]);
    }
    KidsCleanKept(sp, b.children, b'.children);
  }

  lemma {:induction false} KidsCleanKept(sp: Space, cs: seq<Bus>, cs': seq<Bus>)
    requires SameKids(sp, cs, cs') && KidsClean(cs)
    ensures KidsClean(cs')
    decreases cs
  {
    hide SameBut;
    hide Clean;
    if cs != [] {
      CleanKept(sp, cs[0], cs'[0]);
      KidsCleanKept(sp, cs[1..], cs'[1..]);
    }
  }

  lemma DevKept(sp: Space, d: PciLayout.Dev, d': PciLayout.Dev)
    requires SameDev(sp, d, d') && CleanDev(d)
    ensures CleanDev(d')
  {
    hide Sized;
    hide Wants;
    forall i | 0 <= i < 6 && d'.addr[i] != 0
      ensures Sized(d'.size[i])
    {
      SizedFor(sp, d.size[i]);
    }
  }

  lemma {:induction false} FreshClean(seg: Segment)
    ensures Clean(BusOf(seg))
    decreases seg, |seg.slots| + 1
  {
    hide Descended;
    hide Devices;
    KidsFreshClean(seg, |seg.slots|);
  }

  lemma {:induction false} KidsFreshClean(seg: Segment, i: nat)
    requires i <= |seg.slots|
    ensures KidsClean(BusesOf(seg, i))
    decreases seg, i
  {
    hide Descended;
    hide BusOf;
    hide Clean;
    if i > 0 {
      KidsFreshClean(seg, i - 1);
      if Descended(seg, i - 1) {
        FreshClean(Behind(seg, i - 1));
        assert BusesOf(seg, i)[1..] == BusesOf(seg, i - 1);
      }
    }
  }

  /** The finished layout: all spaces laid out in 32 bits, and addresses only where they belong. */
  lemma FinalLayout(seg: Segment)
    requires AllFit(BusOf(seg))
    ensures AllSpaces(AllocAll(BusOf(seg))) && Clean(AllocAll(BusOf(seg)))
    ensures AllocAll(BusOf(seg)).io.base == PCI_IO_START
  {
    hide Laid;
    hide SameBut;
    hide AllocBus;
    hide Clean;
    hide BusOf;
    hide Ordered;
    hide BusRanges;
    var b := BusOf(seg);
    FreshClean(seg);
    AllLaid(b);
    WindowEnd(Io, AllocAll(b));
    assert AllocAll(b).Win(Io).limit + 1 < W32 && AllocAll(b).Win(Pref).limit + 1 < W32;
    var b1 := AllocBus(Io, b, PCI_IO_START);
    AllocBusLaid(Io, b, PCI_IO_START);
    CleanKept(Io, b, b1);
    var b2 := AllocBus(Mem, b1, PCI_MEM_START);
    AllocBusLaid(Mem, b1, PCI_MEM_START);
    CleanKept(Mem, b1, b2);
    WindowEnd(Mem, b2);
    AllocBusLaid(Pref, b2, After(Mem, b2.mem.limit));
    CleanKept(Pref, b2, AllocAll(b));
  }

  // ----- The registers of the hardware in the end -----

  /** The function of d holds its addresses, the bits of its command word, and else what it came up with. */
  ghost predicate DeviceDone(root: Segment, s: Setup, d: Device)
    reads d
  {
    && CommandOf(s.command, d.Where()) == d.command.Bits()
    && forall i: nat :: if i < 6 && d.baseAddress[i] != 0 then Latch(root, s.latches, d.Where(), i) == d.baseAddress[i]
                        else Reading(root, s.latches, d.Where(), i) == AtFirst(FunctionAt(root, d.Where()), i)
  }

  /** Bridges of the root bus are enabled for everything, all other devices for what they were given. */
  ghost predicate CommandDone(root: Segment, d: Device)
    reads d`command
  {
    d.command == if d.at == [] && Descended(root, d.devfn) then Command(true, true, true) else AllEnabled(d.size, NONE)
  }

  ghost predicate AllDone(root: Segment, s: Setup, objects: set<object>)
    reads objects
  {
    forall d: Device :: d in objects ==> DeviceDone(root, s, d) && CommandDone(root, d)
  }

  lemma DoneIsSet(root: Segment, s: Setup, d: Device, seg: Segment, at: Path, dev: PciScan.Dev, n: nat)
    requires DeviceDone(root, s, d) && CommandDone(root, d) && DeviceMirrors(d, dev, n, at)
    requires dev.size == Sizes(FunctionAt(root, at + [dev.devfn]), HowMany(FunctionAt(root, at + [dev.devfn]).header))
    requires at == [] ==> seg == root
    requires forall i :: 0 <= i < 6 ==> (d.baseAddress[i] != 0 <==> Sized(d.size[i]))
    ensures DeviceSet(root, s, at + [dev.devfn], d.View(), CommandFor(seg, at, dev.devfn, d.size))
  {
    hide Descended;
    hide Sized;
    hide Latch;
    hide Reading;
    hide AtFirst;
    hide FunctionAt;
    hide Sizes;
    hide Command.Bits;
    hide AllEnabled;
  }

  /** In a clean layout a register has an address exactly if a pass takes it. */
  lemma GivenExactly(b: Bus, j: nat)
    requires AllSpaces(b) && Clean(b) && j < |b.devices|
    ensures forall i :: 0 <= i < 6 ==> (b.devices[j].addr[i] != 0 <==> Sized(b.devices[j].size[i]))
  {
    hide Laid;
    hide KidsClean;
    hide Wants;
    hide Sized;
    hide KidsEnd;
    assert CleanDev(b.devices[j]);
    forall i | 0 <= i < 6 && Sized(b.devices[j].size[i])
      ensures b.devices[j].addr[i] != 0
    {
      var sp := SpaceOf(b.devices[j].size[i]);
      OwnInside(sp, b, j, i);
      NoAddress(sp);
    }
  }

  lemma NoAddress(sp: Space)
    ensures AddressOf(sp, 0) == 0
  {
  }

  lemma {:induction false} BusIsSet(root: Segment, s: Setup, b: PciBus, seg: Segment, at: Path, n: nat)
    requires Mirrors(b, seg, at, n) && b.Tree() && seg == SegmentAt(root, at) && Descends(root, at)
    requires AllSpaces(b.View()) && Clean(b.View()) && AllDone(root, s, b.Footprint())
    requires at == [] ==> RootWindows(s, b)
    ensures BusSet(root, s, seg, at, b.View())
    decreases seg, |seg.slots| + 1
  {
    hide PciBus.Tree;
    hide KidsMirror;
    hide AllSpaces;
    hide CleanDev;
    hide Devices;
    hide DeviceSet;
    hide SegmentAt;
    hide Descends;
    hide DeviceDone;
    hide CommandDone;
    hide KidsSet;
    hide Found;
    hide PciBus.DevObjects;
    hide PciBus.Below;
    hide KidsClean;
    hide CommandFor;
    hide Sized;
    var v, devs := b.View(), Devices(seg, 0xff);
    DevicesAre(seg, 0xff);
    b.FootprintIs();
    forall j | 0 <= j < |v.devices|
      ensures DeviceSet(root, s, at + [devs[j].devfn], v.devices[j],
                        CommandFor(seg, at, devs[j].devfn, v.devices[j].size))
    {
      GivenExactly(v, j);
      assert IsDev(seg, 0xff, devs[j]) && DeviceMirrors(b.devices[j], devs[j], n, at);
      FunctionIs(root, at, devs[j].devfn);
      RootAt(root, seg, at);
      assert b.devices[j] in b.devices && v.devices[j] == b.devices[j].View();
      DoneIsSet(root, s, b.devices[j], seg, at, devs[j], n);
    }
    KidsAreSet(root, s, b, 0, seg, at, n, |seg.slots|);
  }

  lemma RootAt(root: Segment, seg: Segment, at: Path)
    requires seg == SegmentAt(root, at)
    ensures at == [] ==> seg == root
  {
  }

  /** The bridges of the root bus are programmed with the windows behind them. */
  ghost predicate RootWindows(s: Setup, b: PciBus)
    requires b.Tree()
    reads b.Footprint()
  {
    |b.View().children| == |b.children| &&
    forall k :: 0 <= k < |b.children| ==>
      b.children[k].self != null && WindowsSet(s, [b.children[k].self.devfn], b.View().children[k])
  }

  lemma {:induction false} KidsAreSet(root: Segment, s: Setup, b: PciBus, k: nat, seg: Segment, at: Path, n: nat,
        i: nat)
    requires i <= |seg.slots| && k <= |b.children| && KidsMirror(b.children[k..], b.devices, seg, at, n, i)
    requires b.Tree() && seg == SegmentAt(root, at) && Descends(root, at)
    requires AllSpaces(b.View()) && Clean(b.View()) && AllDone(root, s, b.Footprint())
    requires at == [] ==> RootWindows(s, b)
    ensures |b.View().children| == |b.children| && KidsSet(root, s, seg, at, b.View().children[k..], i)
    decreases seg, i
  {
    hide *;
    b.KidViewsAre();
    ViewKids(b);
    MirrorFirst(b.children[k..], b.devices, seg, at, n, i);
    SetFirst(root, s, seg, at, b.View().children[k..], i);
    if i > 0 && Descended(seg, i - 1) {
      assert b.children[k..][0] == b.children[k] && b.children[k..][1..] == b.children[k + 1..];
      assert b.View().children[k..][0] == b.View().children[k];
      assert b.View().children[k..][1..] == b.View().children[k + 1..];
      KidReady(root, s, b, k);
      BehindSmaller(seg, i - 1);
      DescendsMore(root, at, i - 1);
      BusIsSet(root, s, b.children[k], Behind(seg, i - 1), at + [i - 1], NumberOf(seg, n, i - 1));
      KidsAreSet(root, s, b, k + 1, seg, at, n, i - 1);
      RootWindowsAt(s, b, at, k);
    } else if i > 0 {
      KidsAreSet(root, s, b, k, seg, at, n, i - 1);
    }
  }

  lemma RootWindowsAt(s: Setup, b: PciBus, at: Path, k: nat)
    requires b.Tree() && k < |b.children| && (at == [] ==> RootWindows(s, b))
    ensures at == [] ==> |b.View().children| == |b.children| && b.children[k].self != null
                         && WindowsSet(s, [b.children[k].self.devfn], b.View().children[k])
  {
    hide PciBus.Tree;
    hide PciBus.View;
    hide WindowsSet;
  }

  /** The definitions, unfolded once. */
  lemma MirrorFirst(cs: seq<PciBus>, ds: seq<Device>, seg: Segment, at: Path, n: nat, i: nat)
    requires i <= |seg.slots| && KidsMirror(cs, ds, seg, at, n, i)
    ensures i == 0 ==> cs == []
    ensures i > 0 && Descended(seg, i - 1) ==>
              && cs != [] && cs[0].self != null && cs[0].self.devfn == i - 1
              && Mirrors(cs[0], Behind(seg, i - 1), at + [i - 1], NumberOf(seg, n, i - 1))
              && KidsMirror(cs[1..], ds, seg, at, n, i - 1)
    ensures i > 0 && !Descended(seg, i - 1) ==> KidsMirror(cs, ds, seg, at, n, i - 1)
  {
    hide Mirrors;
    hide Descended;
  }

  lemma SetFirst(root: Segment, s: Setup, seg: Segment, at: Path, cs: seq<Bus>, i: nat)
    requires i <= |seg.slots|
    ensures i == 0 && cs == [] ==> KidsSet(root, s, seg, at, cs, i)
    ensures i > 0 && Descended(seg, i - 1) && cs != [] && BusSet(root, s, Behind(seg, i - 1), at + [i - 1], cs[0])
            && (at == [] ==> WindowsSet(s, [i - 1], cs[0])) && KidsSet(root, s, seg, at, cs[1..], i - 1)
            ==> KidsSet(root, s, seg, at, cs, i)
    ensures i > 0 && !Descended(seg, i - 1) && KidsSet(root, s, seg, at, cs, i - 1) ==> KidsSet(root, s, seg, at, cs, i)
  {
    hide BusSet;
    hide WindowsSet;
    hide Descended;
  }

  /** What is known of a bus is known of the buses behind its bridges. */
  lemma KidReady(root: Segment, s: Setup, b: PciBus, k: nat)
    requires b.Tree() && k < |b.children| && AllSpaces(b.View()) && Clean(b.View()) && AllDone(root, s, b.Footprint())
    ensures |b.View().children| == |b.children| && b.children[k].Tree() && b.children[k].View() == b.View().children[k]
    ensures AllSpaces(b.children[k].View()) && Clean(b.children[k].View())
    ensures AllDone(root, s, b.children[k].Footprint())
  {
    hide *;
    b.KidsApart();
    b.KidView(k);
    b.FootprintIs();
    KidSpaces(b.View(), k);
    KidCleanAt(b.View(), k);
    DoneWithin(root, s, b.children[k].Footprint(), b.Footprint());
  }

  lemma DoneWithin(root: Segment, s: Setup, part: set<object>, all: set<object>)
    requires part <= all && AllDone(root, s, all)
    ensures AllDone(root, s, part)
  {
    hide DeviceDone;
    hide CommandDone;
  }

  lemma ViewKids(b: PciBus)
    requires b.Tree()
    ensures b.View().children == b.KidViews()
  {
    hide PciBus.Tree;
    hide PciBus.KidViews;
  }

  lemma KidCleanAt(b: Bus, k: nat)
    requires Clean(b) && k < |b.children|
    ensures Clean(b.children[k])
  {
    hide CleanDev;
    CleanAt(b.children, k);
  }

  lemma {:induction false} CleanAt(cs: seq<Bus>, k: nat)
    requires KidsClean(cs) && k < |cs|
    ensures Clean(cs[k])
  {
    hide Clean;
    if k > 0 { CleanAt(cs[1..], k - 1); }
  }

  // ----- From reset to enabled devices -----

  /** A machine after reset: no bridge has a number, and no register was written. */
  ghost predicate AtReset(m: Machine)
    reads m
  {
    && (forall p: Path :: Reg(m.regs, p).Are(0, 0, 0))
    && m.command == map[] && m.windows == map[] && Quiet(m.root, m.latches)
  }

  /** The linked records of a scanned machine, and all devices in the order of the chain. */
  ghost predicate Linked(m: Machine, chain: seq<Entry>, root: PciBus, all: seq<Device>)
    reads m`regs
  {
    && root.Tree() && Mirrors(root, m.root, [], 0) && Listed(root.Footprint(), all) && InOrder(all, chain)
    && root.HasBridges(m) && AllReached(m, all)
    && forall k :: 0 <= k < |all| ==> Recorded(m.root, all[k].Where())
  }

  lemma LinkedIs(m: Machine, chain: seq<Entry>, root: PciBus, all: seq<Device>)
    requires root.Tree() && Mirrors(root, m.root, [], 0) && Listed(root.Footprint(), all) && InOrder(all, chain)
    requires Numbered(m.root, [], m.regs, 0) && chain == ChainOf(m.root, 0)
    ensures Linked(m, chain, root, all)
  {
    hide PciBus.Tree;
    hide PciBus.Footprint;
    hide Numbered;
    hide Claims;
    hide Recorded;
    hide ChainOf;
    hide KidsMirror;
    hide EntryMirrors;
    assert RoutedBelow(m.root, m.regs, m.root, [], 0);
    AllRouted(m.root, m.regs, root, m.root, [], 0);
    forall k | 0 <= k < |all|
      ensures Routed(m.root, m.regs, all[k].bus) == [all[k].at] && Recorded(m.root, all[k].Where())
    {
      assert all[k] in root.Footprint() && DeviceRouted(m.root, m.regs, m.root, [], all[k]);
      assert all[k].Where()[0..] == all[k].Where();
    }
    ChainOnce(m.root, 0);
    FunctionsApart(m.root, m.regs, all, chain);
    BridgesMirror(root.children, root.devices, m.root, [], 0, |m.root.slots|);
    root.FootprintIs();
    forall i | 0 <= i < |root.children|
      ensures root.children[i].self != null && root.children[i].self.Reached(m) && root.children[i].self.at == []
    {
      assert root.children[i].self in all;
      OwnBridge(root, m.root, root.children[i].self);
    }
  }

  lemma OwnBridge(b: PciBus, seg: Segment, d: Device)
    requires DevicesMirror(b.devices, Devices(seg, 0xff), 0, []) && d in b.devices
    ensures d.at == [] && d.bus == 0
  {
  }

  /** pci_init, and the records linked. */
  method ScanAll(m: Machine, chain: Chain) returns (root: PciBus, all: seq<Device>)
    requires AtReset(m) && Total(m.root) <= 0xff && chain.devices == []
    modifies m`regs, m`command, m`latches, chain
    ensures Numbered(m.root, [], m.regs, 0) && chain.devices == ChainOf(m.root, 0)
    ensures SameCommands(map[], m.command) && Quiet(m.root, m.latches)
    ensures Linked(m, chain.devices, root, all) && root.View() == BusOf(m.root) && fresh(root.Footprint()) && Unset(all)
  {
    hide PciBus.Tree;
    hide PciBus.Footprint;
    hide PciBus.View;
    hide Quiet;
    hide SameCommands;
    hide Numbered;
    hide Record;
    hide ChainOf;
    hide BusOf;
    hide Mirrors;
    hide Linked;
    hide Listed;
    hide InOrder;
    var r := PciInit(m, chain);
    RecordIs(m.root, 0, 0, 0);
    root, all := Link(r, null, m.root, []);
    LinkedIs(m, chain.devices, root, all);
  }

  /** What pci_configure and pci_enable leave, device by device and bridge by bridge. */
  ghost predicate Programmed(m: Machine, before: Latches, root: PciBus, all: seq<Device>)
    reads m, all, root.children, root.Bridges()
  {
    && (forall i :: 0 <= i < |root.children| ==>
            root.children[i].self != null && root.children[i].Programmed(m.windows))
    && ElsewhereSame(root.BridgePaths(), map[], m.windows)
    && (forall k :: 0 <= k < |all| ==> WrittenBars(m.root, all[k].Where(), before, m.latches, all[k].baseAddress))
    && (forall k :: 0 <= k < |all| ==> CommandOf(m.command, all[k].Where()) == all[k].command.Bits())
    && (forall p: Path :: p !in Functions(all) ==> CommandOf(m.command, p) == 0)
    && (forall k :: 0 <= k < |all| ==> CommandDone(m.root, all[k]))
  }

  lemma DeviceIsDone(root: Segment, s: Setup, d: Device, before: Latches)
    requires Quiet(root, before) && WrittenBars(root, d.Where(), before, s.latches, d.baseAddress)
    requires CommandOf(s.command, d.Where()) == d.command.Bits()
    ensures DeviceDone(root, s, d)
  {
    hide Readback;
    hide FunctionAt;
    hide CellAt;
    hide Latch;
    hide Command.Bits;
    var p := d.Where();
    forall i: nat | !(i < 6 && d.baseAddress[i] != 0)
      ensures Reading(root, s.latches, p, i) == AtFirst(FunctionAt(root, p), i)
    {
      assert Reading(root, before, p, i) == AtFirst(FunctionAt(root, p), i);
    }
  }

  /** The k-th bridge of the root bus holds the windows behind it. */
  lemma RootBridgeSet(m: Machine, root: PciBus, s: Setup, k: nat)
    requires root.Tree() && AllSpaces(root.View()) && k < |root.children| && s.windows == m.windows
    requires root.children[k].self != null && root.children[k].self.at == [] && root.children[k].Programmed(m.windows)
    ensures |root.View().children| == |root.children|
    ensures WindowsSet(s, [root.children[k].self.devfn], root.View().children[k])
    ensures root.children[k].self.command == Command(true, true, true)
  {
    hide PciBus.Tree;
    hide PciBus.View;
    hide Laid;
    hide IoByte;
    hide MemHalf;
    hide WindowAt;
    var c := root.children[k];
    root.KidView(k);
    KidSpaces(root.View(), k);
    var v := c.View();
    LimitIs(c, Io);
    LimitIs(c, Mem);
    LimitIs(c, Pref);
    SpaceStart(v, Io);
    SpaceStart(v, Mem);
    SpaceStart(v, Pref);
    WindowAligned(Io, v);
    WindowAligned(Mem, v);
    WindowAligned(Pref, v);
    assert [] + [c.self.devfn] == [c.self.devfn];
  }

  lemma ElsewhereIs(m: Machine, before: Latches, chain: seq<Entry>, root: PciBus, all: seq<Device>)
    requires Linked(m, chain, root, all) && Programmed(m, before, root, all)
    ensures Elsewhere(m.root, Setup(m.latches, m.windows, m.command))
  {
    hide PciBus.Tree;
    hide PciBus.Footprint;
    hide Descended;
    hide Recorded;
    hide Machine.Reaches;
    hide KidsMirror;
    hide CommandDone;
    hide PciBus.Programmed;
    forall p: Path, r: WindowRegister | !(|p| == 1 && Descended(m.root, p[0]))
      ensures WindowAt(m.windows, p, r) == 0
    {
      assert p !in root.BridgePaths() by { BridgesDescended(m, chain, root, all); }
      assert WindowAt(map[], p, r) == WindowAt(m.windows, p, r);
    }
    forall p: Path | p != [] && !Recorded(m.root, p)
      ensures CommandOf(m.command, p) == 0
    {
      assert p !in Functions(all);
    }
  }

  lemma BridgesDescended(m: Machine, chain: seq<Entry>, root: PciBus, all: seq<Device>)
    requires Linked(m, chain, root, all)
    ensures forall p: Path :: p in root.BridgePaths() ==> |p| == 1 && Descended(m.root, p[0])
  {
    hide PciBus.Tree;
    hide PciBus.Footprint;
    hide Descended;
    hide Recorded;
    hide Machine.Reaches;
    hide KidsMirror;
    BridgesMirror(root.children, root.devices, m.root, [], 0, |m.root.slots|);
    forall p: Path | p in root.BridgePaths()
      ensures |p| == 1 && Descended(m.root, p[0])
    {
      var i: nat :| i < |root.children| && root.children[i].self != null && p == root.children[i].self.Where();
      OwnBridge(root, m.root, root.children[i].self);
      assert p == [root.children[i].self.devfn];
    }
  }

  lemma Finished(m: Machine, before: Latches, chain: seq<Entry>, root: PciBus, all: seq<Device>)
    requires Linked(m, chain, root, all) && Programmed(m, before, root, all) && Quiet(m.root, before)
    requires AllFit(BusOf(m.root)) && root.View() == AllocAll(BusOf(m.root))
    ensures IsSetUp(m.root, Setup(m.latches, m.windows, m.command), AllocAll(BusOf(m.root)))
  {
    hide PciBus.Tree;
    hide PciBus.View;
    hide PciBus.Footprint;
    hide KidsMirror;
    hide AllSpaces;
    hide Clean;
    hide AllocAll;
    hide BusOf;
    hide Descended;
    hide Recorded;
    hide BusSet;
    hide Elsewhere;
    hide WindowsSet;
    hide DeviceDone;
    hide CommandDone;
    hide Quiet;
    hide WrittenBars;
    hide Command.Bits;
    hide PciBus.Programmed;
    hide Machine.Reaches;
    var s := Setup(m.latches, m.windows, m.command);
    FinalLayout(m.root);
    ElsewhereIs(m, before, chain, root, all);
    forall d: Device | d in root.Footprint()
      ensures DeviceDone(m.root, s, d) && CommandDone(m.root, d)
    {
      assert d in all;
      DeviceIsDone(m.root, s, d, before);
    }
    root.KidViewsAre();
    ViewKids(root);
    BridgesMirror(root.children, root.devices, m.root, [], 0, |m.root.slots|);
    forall k | 0 <= k < |root.children|
      ensures root.children[k].self != null && WindowsSet(s, [root.children[k].self.devfn], root.View().children[k])
    {
      OwnBridge(root, m.root, root.children[k].self);
      RootBridgeSet(m, root, s, k);
    }
    BusIsSet(m.root, s, root, m.root, [], 0);
  }

  /** Every device record has its command word. */
  lemma CommandsDone(m: Machine, chain: seq<Entry>, root: PciBus, all: seq<Device>)
    requires Linked(m, chain, root, all) && AllSpaces(root.View())
    requires forall i :: 0 <= i < |root.children| ==> root.children[i].Programmed(m.windows)
    requires forall d: Device :: d in root.Footprint() && d !in root.Bridges() ==> d.command == AllEnabled(d.size, NONE)
    ensures forall k :: 0 <= k < |all| ==> CommandDone(m.root, all[k])
  {
    hide PciBus.Tree;
    hide PciBus.View;
    hide PciBus.Footprint;
    hide KidsMirror;
    hide AllSpaces;
    hide Descended;
    hide Recorded;
    hide AllEnabled;
    hide PciBus.Programmed;
    hide Machine.Reaches;
    BridgesMirror(root.children, root.devices, m.root, [], 0, |m.root.slots|);
    var s := Setup(m.latches, m.windows, m.command);
    forall k | 0 <= k < |all|
      ensures CommandDone(m.root, all[k])
    {
      var d := all[k];
      if d in root.Bridges() {
        var i: nat :| i < |root.children| && root.children[i].self == d;
        OwnBridge(root, m.root, d);
        RootBridgeSet(m, root, s, i);
      } else if d.at == [] && Descended(m.root, d.devfn) {
        DescendedInside(m.root, d.devfn);
        var i :| 0 <= i < |root.children| && root.children[i].self.devfn == d.devfn;
        OwnBridge(root, m.root, root.children[i].self);
        SameRecord(m, chain, root, all, d, root.children[i].self);
      }
    }
  }

  lemma BridgesOwn(m: Machine, chain: seq<Entry>, root: PciBus, all: seq<Device>)
    requires Linked(m, chain, root, all)
    ensures forall d: Device :: d in root.Bridges() ==> d in root.Footprint()
  {
    hide PciBus.Tree;
    hide KidsMirror;
    hide Recorded;
    hide Machine.Reaches;
    hide PciBus.Footprint;
    BridgesMirror(root.children, root.devices, m.root, [], 0, |m.root.slots|);
    root.FootprintIs();
  }

  /** Records with the same function are the same. */
  lemma SameRecord(m: Machine, chain: seq<Entry>, root: PciBus, all: seq<Device>, d: Device, d': Device)
    requires Linked(m, chain, root, all) && d in all && d' in root.devices && d.Where() == d'.Where()
    ensures d == d'
  {
    hide PciBus.Tree;
    hide Mirrors;
    hide Recorded;
    hide Machine.Reaches;
    root.FootprintIs();
    assert d' in all;
    var i :| 0 <= i < |all| && all[i] == d;
    var j :| 0 <= j < |all| && all[j] == d';
  }

  /** pci_configure and pci_enable, on fresh records. */
  method ConfigureAll(m: Machine, root: PciBus, all: seq<Device>, ghost chain: seq<Entry>)
    requires Linked(m, chain, root, all) && Unset(all) && AllFit(root.View()) && AllSpaces(AllocAll(root.View()))
    requires SameCommands(map[], m.command) && m.windows == map[]
    modifies root.Footprint(), m`windows, m`latches, m`command
    ensures Linked(m, chain, root, all) && root.View() == AllocAll(old(root.View()))
    ensures Programmed(m, old(m.latches), root, all)
  {
    hide PciBus.Tree;
    hide PciBus.Footprint;
    hide PciBus.View;
    hide PciBus.Bridges;
    hide PciBus.BridgePaths;
    hide PciBus.Programmed;
    hide AllocAll;
    hide Mirrors;
    hide InOrder;
    hide WrittenBars;
    hide ElsewhereSame;
    hide OthersKept;
    hide Functions;
    hide AllSpaces;
    hide AllFit;
    hide Recorded;
    BridgesOwn(m, chain, root, all);
    root.FootprintKinds();
    assert allocated(root.Footprint());
    PciConfigure(m, root, all);
    EnableResources(m, all);
    CommandsDone(m, chain, root, all);
  }

  /**
   pci_enumerate, pci_configure and pci_enable on a machine after reset: every access to configuration space reaches one
   bus, and in the end the hardware holds the layout computed from the sizes that the scan found in it.
   */
  method Boot(m: Machine, chain: Chain) returns (root: PciBus, all: seq<Device>)
    requires AtReset(m) && Total(m.root) <= 0xff && chain.devices == [] && AllFit(BusOf(m.root))
    modifies m`regs, m`command, m`latches, m`windows, chain
    ensures Numbered(m.root, [], m.regs, 0) && chain.devices == ChainOf(m.root, 0) && InOrder(all, chain.devices)
    ensures root.Tree() && root.View() == AllocAll(BusOf(m.root))
    ensures IsSetUp(m.root, Setup(m.latches, m.windows, m.command), AllocAll(BusOf(m.root)))
  {
    hide PciBus.Tree;
    hide PciBus.Footprint;
    hide PciBus.View;
    hide Quiet;
    hide Numbered;
    hide ChainOf;
    hide BusOf;
    hide AllocAll;
    hide IsSetUp;
    hide AllSpaces;
    hide AllFit;
    hide Programmed;
    hide Linked;
    hide SameCommands;
    root, all := ScanAll(m, chain);
    ghost var before := m.latches;
    FinalLayout(m.root);
    ConfigureAll(m, root, all, chain.devices);
    Finished(m, before, chain.devices, root, all);
    LinkedParts(m, chain.devices, root, all);
  }

  lemma LinkedParts(m: Machine, chain: seq<Entry>, root: PciBus, all: seq<Device>)
    requires Linked(m, chain, root, all)
    ensures root.Tree() && InOrder(all, chain)
  {
  }

  // ----- What is answered in the end -----

  /**
   On a machine that Boot has set up: an address given to a memory register is answered by it if and only if it is not
   behind two or more bridges. All I/O addresses are answered if and only if the same is true of all I/O registers, each
   is on a multiple of its length, and the I/O windows on the root bus are below 64K; for registers of up to 4K the
   second means that on every bus they come in step.
   */
  lemma WhatIsAnswered(root: Segment, s: Setup)
    requires AllFit(BusOf(root)) && AllFormed(root) && IsSetUp(root, s, AllocAll(BusOf(root)))
    ensures forall p: Path, reg, sp: Space, a: Word ::
              !sp.Io? && p != [] && reg < 6 && Wanted(root, p, reg, sp) && GivenAt(root, s, p, reg, sp).Has(a) ==>
                (Answered(root, s, false, a, p, reg) <==> |p| <= 2)
    ensures AllAnswered(root, s) <==> Shallow(root) && AllInPlace(root, s) && Within64K(AllocAll(BusOf(root)))
    ensures AllBlocks(BusOf(root)) && ShortBelow(root, s) ==> (AllInPlace(root, s) <==> AllStepped(BusOf(root)))
  {
    hide BusOf;
    hide AllocAll;
    hide Wanted;
    hide Answered;
    hide GivenAt;
    hide IsSetUp;
    hide AllFormed;
    hide AllSpaces;
    hide AllTight;
    hide AllAnswered;
    hide Shallow;
    hide AllInPlace;
    hide Within64K;
    hide AllBlocks;
    hide ShortBelow;
    hide AllStepped;
    FinalLayout(root);
    FinalIo(BusOf(root));
    forall p: Path, reg, sp: Space, a: Word |
      !sp.Io? && p != [] && reg < 6 && Wanted(root, p, reg, sp) && GivenAt(root, s, p, reg, sp).Has(a)
      ensures Answered(root, s, false, a, p, reg) <==> |p| <= 2
    {
      MemoryAnswered(root, s, AllocAll(BusOf(root)), p, reg, sp, a);
    }
    IoAnswered(root, s, AllocAll(BusOf(root)));
    if AllBlocks(BusOf(root)) && ShortBelow(root, s) { InPlaceInStep(root, s, BusOf(root)); }
  }
}
