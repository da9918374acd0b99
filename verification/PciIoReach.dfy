/**
 Which I/O addresses are answered after the setup: exactly when all of them are, and when that is so. Bridges show only
 64K of I/O space, and I/O registers lose the address bits below their length.
 */
module PciIoReach {
  import opened Bits
  import opened PciAddress
  import opened PciTopology
  import opened PciMachine
  import opened PciScan
  import opened PciLayout
  import opened PciIoSpace
  import opened PciDecode
  import opened PciReach

  // ----- Ranges and the registers they were given to -----

  lemma {:induction false} ListedGiven(sp: Space, ds: seq<PciLayout.Dev>, r: Range) returns (j: nat, i: nat)
    requires r in DevRanges(sp, ds)
    ensures j < |ds| && i < 6 && Wants(sp, ds[j].size[i]) && Given(sp, ds[j], i) == r
  {
    hide Wants;
    hide BarRanges;
    hide Given;
    if r in BarRanges(sp, ds[0], 0) {
      j := 0;
      i := ListedFrom(sp, ds[0], 0, r);
    } else {
      j, i := ListedGiven(sp, ds[1..], r);
      j := j + 1;
    }
  }

  lemma {:induction false} ListedFrom(sp: Space, d: PciLayout.Dev, i0: nat, r: Range) returns (i: nat)
    requires i0 <= 6 && r in BarRanges(sp, d, i0)
    ensures i < 6 && Wants(sp, d.size[i]) && Given(sp, d, i) == r
    decreases 6 - i0
  {
    hide Wants;
    if Wants(sp, d.size[i0]) && r == Given(sp, d, i0) { i := i0; } else { i := ListedFrom(sp, d, i0 + 1, r); }
  }

  lemma {:induction false} ListedKid(sp: Space, cs: seq<Bus>, r: Range) returns (k: nat)
    requires r in KidRanges(sp, cs)
    ensures k < |cs| && r in BusRanges(sp, cs[k])
  {
    hide BusRanges;
    if r in BusRanges(sp, cs[0]) {
      k := 0;
    } else {
      k := ListedKid(sp, cs[1..], r);
      k := k + 1;
    }
  }

  /** The bridge of the k-th bus. */
  lemma {:induction false} SlotOfKid(root: Segment, s: Setup, seg: Segment, at: Path, cs: seq<Bus>, i: nat, k: nat)
    returns (d: nat)
    requires i <= |seg.slots| && KidsSet(root, s, seg, at, cs, i) && k < |cs|
    ensures d < i && Descended(seg, d) && Later(seg, i, d) == k
    decreases i
  {
    hide Descended;
    hide BusSet;
    hide WindowsSet;
    if !Descended(seg, i - 1) {
      d := SlotOfKid(root, s, seg, at, cs, i - 1, k);
    } else if k == 0 {
      d := i - 1;
    } else {
      d := SlotOfKid(root, s, seg, at, cs[1..], i - 1, k - 1);
    }
  }

  lemma SlotOf(root: Segment, s: Setup, seg: Segment, at: Path, b: Bus, k: nat) returns (d: nat)
    requires OnBus(root, s, seg, at, b) && k < |b.children|
    ensures d < |seg.slots| && Descended(seg, d) && Later(seg, |seg.slots|, d) == k
  {
    hide Descended;
    hide DeviceSet;
    hide KidsSet;
    hide Later;
    d := SlotOfKid(root, s, seg, at, b.children, |seg.slots|, k);
  }

  /** Every range of the tree was given to a register of a recorded function. */
  lemma {:induction false} Owner(root: Segment, s: Setup, seg: Segment, at: Path, b: Bus, sp: Space, r: Range)
    returns (p: Path, reg: nat)
    requires OnBus(root, s, seg, at, b) && r in BusRanges(sp, b)
    ensures |p| > |at| && Wanted(root, p, reg, sp) && GivenAt(root, s, p, reg, sp) == r
    ensures r in KidRanges(sp, b.children) ==> |p| > |at| + 1
    decreases b
  {
    hide OnBus;
    hide Found;
    hide Descended;
    hide Later;
    hide Devices;
    hide Wants;
    hide SizesAt;
    hide FunctionAt;
    hide KidRanges;
    hide DevRanges;
    hide Recorded;
    hide Given;
    if r in KidRanges(sp, b.children) {
      var k := ListedKid(sp, b.children, r);
      var d := SlotOf(root, s, seg, at, b, k);
      KidOnBus(root, s, seg, at, b, d);
      p, reg := Owner(root, s, Behind(seg, d), at + [d], b.children[k], sp, r);
    } else {
      var j;
      j, reg := ListedGiven(sp, b.devices, r);
      SetCount(root, s, seg, at, b);
      DeviceAt(root, s, seg, at, b, j, reg, sp);
      p := at + [Devices(seg, 0xff)[j].devfn];
    }
  }

  /** And what a register of a recorded function was given is a range of the tree. */
  lemma {:induction false} Owned(root: Segment, s: Setup, seg: Segment, at: Path, b: Bus, q: Path, reg: nat, sp: Space)
    requires OnBus(root, s, seg, at, b) && Recorded(seg, q) && Wanted(root, at + q, reg, sp)
    ensures GivenAt(root, s, at + q, reg, sp) in BusRanges(sp, b)
    decreases q
  {
    hide OnBus;
    hide Found;
    hide Descended;
    hide GivenAt;
    hide Given;
    hide Later;
    hide KidRanges;
    hide DevRanges;
    if |q| == 1 {
      assert q == [q[0]];
      var j := FoundAt(root, s, seg, at, b, q[0], reg, sp);
      GivenListed(sp, b.devices, j, reg);
    } else {
      var d := q[0];
      assert at + q == at + [d] + q[1..];
      KidOnBus(root, s, seg, at, b, d);
      Owned(root, s, Behind(seg, d), at + [d], KidOf(seg, b, d), q[1..], reg, sp);
      KidListed(sp, b.children, Later(seg, |seg.slots|, d), GivenAt(root, s, at + q, reg, sp));
    }
  }

  lemma {:induction false} KidListed(sp: Space, cs: seq<Bus>, k: nat, r: Range)
    requires k < |cs| && r in BusRanges(sp, cs[k])
    ensures r in KidRanges(sp, cs)
  {
    hide BusRanges;
    if k > 0 { KidListed(sp, cs[1..], k - 1, r); }
  }

  // ----- What is to be shown -----

  /** The register answers from the address it is given. */
  predicate InPlaceAt(root: Segment, s: Setup, p: Path, reg: nat)
    requires p != [] && reg < 6
  {
    var r := GivenAt(root, s, p, reg, Io);
    r.len != 0 && r.start % r.len == 0 && (Short(CellAt(FunctionAt(root, p), reg)) ==> r.start < 0x1_0000)
  }

  /** Every I/O address that is given out is answered by the register it was given to. */
  ghost predicate AllAnswered(root: Segment, s: Setup)
  {
    forall p: Path, reg, a: Word :: Wanted(root, p, reg, Io) && GivenAt(root, s, p, reg, Io).Has(a) ==>
      Answered(root, s, true, a, p, reg)
  }

  ghost predicate Shallow(root: Segment)
  {
    forall p: Path, reg :: Wanted(root, p, reg, Io) ==> |p| <= 2
  }

  ghost predicate AllInPlace(root: Segment, s: Setup)
  {
    forall p: Path, reg :: Wanted(root, p, reg, Io) ==> InPlaceAt(root, s, p, reg)
  }

  /** In terms of one bus. */
  lemma KeptIfInPlace(root: Segment, s: Setup, seg: Segment, at: Path, b: Bus)
    requires OnBus(root, s, seg, at, b) && AllInPlace(root, s)
    ensures SetKept(seg, b, true)
  {
    hide OnBus;
    hide Wants;
    hide Given;
    hide GivenAt;
    hide KeptAt;
    hide Short;
    hide Devices;
    hide Recorded;
    hide FunctionAt;
    hide Pow2;
    hide SizesAt;
    SetCount(root, s, seg, at, b);
    forall j, reg, sp: Space | 0 <= j < |b.devices| && 0 <= reg < 6 && sp.Io? && Wants(sp, b.devices[j].size[reg])
      ensures KeptAt(seg, b, j, reg, sp)
    {
      KeptExactly(root, s, seg, at, b, j, reg, sp);
      DeviceAt(root, s, seg, at, b, j, reg, sp);
      assert InPlaceAt(root, s, at + [Devices(seg, 0xff)[j].devfn], reg);
    }
  }

  /** If the conditions hold every address is answered. */
  lemma Sufficient(root: Segment, s: Setup, b: Bus)
    requires OnBus(root, s, root, [], b) && AllSpaces(b) && Shallow(root) && AllInPlace(root, s) && Within64K(b)
    ensures AllAnswered(root, s)
  {
    hide OnBus;
    hide AllSpaces;
    hide Found;
    hide Descended;
    hide GivenAt;
    hide Answered;
    hide AllInPlace;
    hide Wants;
    hide Later;
    hide SetKept;
    hide Within64K;
    KeptIfInPlace(root, s, root, [], b);
    forall p: Path, reg, a: Word | Wanted(root, p, reg, Io) && GivenAt(root, s, p, reg, Io).Has(a)
      ensures Answered(root, s, true, a, p, reg)
    {
      if |p| == 1 {
        assert p == [p[0]];
        ArrivesHere(root, s, b, p[0], reg, Io, a);
      } else {
        assert p == [p[0], p[1]];
        var d := p[0];
        KidOnBus(root, s, root, [], b, d);
        assert [] + [d] == [d];
        KeptIfInPlace(root, s, Behind(root, d), [d], KidOf(root, b, d));
        ArrivesBehind(root, s, b, d, p[1], reg, Io, a);
      }
    }
  }

  // ----- What fails otherwise -----

  lemma GivenWithin(root: Segment, s: Setup, b: Bus, p: Path, reg: nat)
    requires OnBus(root, s, root, [], b) && AllSpaces(b) && Wanted(root, p, reg, Io)
    ensures p != [] && reg < 6
    ensures var r := GivenAt(root, s, p, reg, Io); PCI_IO_START <= r.start && r.start + r.len <= W32
  {
    hide OnBus;
    hide AllSpaces;
    hide GivenAt;
    hide Recorded;
    assert [] + p == p;
    GivenInside(root, s, root, [], b, p, reg, Io);
    SpaceStart(b, Io);
  }

  lemma WantedLength(root: Segment, s: Setup, p: Path, reg: nat)
    requires Wanted(root, p, reg, Io)
    ensures GivenAt(root, s, p, reg, Io).len > 0
  {
    hide And;
  }

  lemma ShallowNeeded(root: Segment, s: Setup, b: Bus)
    requires OnBus(root, s, root, [], b) && AllSpaces(b) && AllAnswered(root, s)
    ensures Shallow(root)
  {
    hide OnBus;
    hide AllSpaces;
    hide GivenAt;
    hide Answered;
    hide Wanted;
    forall p: Path, reg | Wanted(root, p, reg, Io)
      ensures |p| <= 2
    {
      GivenWithin(root, s, b, p, reg);
      WantedLength(root, s, p, reg);
      var a: Word := GivenAt(root, s, p, reg, Io).start;
      if |p| > 2 { TooDeep(root, s, b, p, reg, Io, a); }
    }
  }

  /** A register that claims the first and the last of the addresses it was given starts there. */
  lemma BothEnds(c: Cell, k: nat, x: Word, place: nat)
    requires IsRegister(c, true, k) && place + Pow2(k) <= W32
    requires Answers(c, x, place) && Answers(c, x, place + Pow2(k) - 1)
    ensures And(x, c.mask) == place
  {
    hide And;
    hide Pow2;
    hide IsRegister;
    hide Answers;
    RegisterClaims(c, true, k, x, place);
    RegisterClaims(c, true, k, x, place + Pow2(k) - 1);
  }

  lemma LastHop(root: Segment, s: Setup, io: bool, a: Word, p: Path, reg: nat)
    requires p != [] && Answered(root, s, io, a, p, reg)
    ensures RegisterTakes(root, s, p, reg, io, a)
  {
    hide RegisterTakes;
    hide BridgeTakes;
    var n := |p| - 1;
    assert Hop(p, reg, n) == Register(p[n], reg);
    assert Only(root, s, p[..n], io, a, Hop(p, reg, n));
    assert p[..n] + [p[n]] == p;
  }

  lemma FirstHop(root: Segment, s: Setup, io: bool, a: Word, p: Path, reg: nat)
    requires |p| > 1 && Answered(root, s, io, a, p, reg)
    ensures Only(root, s, [], io, a, Bridge(p[0]))
  {
    hide RegisterTakes;
    hide BridgeTakes;
    assert p[..0] == [] && Hop(p, reg, 0) == Bridge(p[0]);
  }

  lemma TakesAnswers(root: Segment, s: Setup, p: Path, reg: nat, a: Word)
    requires p != [] && RegisterTakes(root, s, p, reg, true, a)
    ensures Answers(CellAt(FunctionAt(root, p), reg), Latch(root, s.latches, p, reg), a)
  {
    hide Answers;
    hide UpperHalf;
    hide Reading;
  }

  lemma InPlaceNeeded(root: Segment, s: Setup, b: Bus)
    requires OnBus(root, s, root, [], b) && AllSpaces(b) && AllAnswered(root, s)
    ensures AllInPlace(root, s)
  {
    hide OnBus;
    hide AllSpaces;
    hide Answered;
    hide Recorded;
    hide Wants;
    hide And;
    hide Pow2;
    hide FunctionAt;
    hide Sizes;
    hide AddressOf;
    hide Length;
    hide Short;
    hide Answers;
    hide RegisterTakes;
    hide WellFormed;
    hide IsRegister;
    forall p: Path, reg | Wanted(root, p, reg, Io)
      ensures InPlaceAt(root, s, p, reg)
    {
      GivenWithin(root, s, b, p, reg);
      var r := GivenAt(root, s, p, reg, Io);
      WellFormedAt(root, s, b, p);
      var k := SizedRegister(FunctionAt(root, p), reg, Io);
      var c, x := CellAt(FunctionAt(root, p), reg), Latch(root, s.latches, p, reg);
      LastHop(root, s, true, r.start, p, reg);
      TakesAnswers(root, s, p, reg, r.start);
      LastHop(root, s, true, r.start + r.len - 1, p, reg);
      TakesAnswers(root, s, p, reg, r.start + r.len - 1);
      BothEnds(c, k, x, r.start);
      StartsAt(c, Io, k, x);
    }
  }

  lemma WellFormedAt(root: Segment, s: Setup, b: Bus, p: Path)
    requires OnBus(root, s, root, [], b) && p != [] && Recorded(root, p)
    ensures WellFormed(FunctionAt(root, p))
  {
    hide WellFormed;
    hide BusSet;
    hide Recorded;
  }

  // ----- Windows beyond 64K -----

  lemma {:induction false} KidTight(cs: seq<Bus>, k: nat)
    requires KidsTight(cs) && k < |cs|
    ensures AllTight(cs[k])
  {
    hide AllTight;
    if k > 0 { KidTight(cs[1..], k - 1); }
  }

  /** A window that is not empty has a register of its bus in its last page. */
  lemma LastRegister(root: Segment, s: Setup, b: Bus, d: nat) returns (f: nat, reg: nat)
    requires OnBus(root, s, root, [], b) && AllSpaces(b) && AllTight(b) && Shallow(root)
    requires d < |root.slots| && Descended(root, d) && Later(root, |root.slots|, d) < |b.children|
    requires KidOf(root, b, d).io.base <= KidOf(root, b, d).io.limit
    ensures Wanted(root, [d, f], reg, Io) && reg < 6
    ensures var r := GivenAt(root, s, [d, f], reg, Io); var w := KidOf(root, b, d).io;
      w.base <= r.start && r.len > 0 && w.limit + 1 - IO_BRIDGE_ALIGN < r.start + r.len <= w.limit + 1
  {
    hide OnBus;
    hide Laid;
    hide Descended;
    hide Wanted;
    hide GivenAt;
    hide Given;
    hide Later;
    hide DevRanges;
    hide KidRanges;
    hide Devices;
    hide Wants;
    hide KidsEnd;
    hide KidsTight;
    var k := Later(root, |root.slots|, d);
    KidOnBus(root, s, root, [], b, d);
    var seg, c := Behind(root, d), KidOf(root, b, d);
    assert [] + [d] == [d];
    KidSpaces(b, k);
    KidTight(b.children, k);
    NoneBehind(root, s, seg, [d], c);
    assert c.Win(Io) == c.io;
    var rs := DevRanges(Io, c.devices);
    if rs == [] {
      assert BusRanges(Io, c) == [] + [];
      EmptyBus(c);
    }
    var j;
    assert rs[|rs| - 1] in rs;
    j, reg := ListedGiven(Io, c.devices, rs[|rs| - 1]);
    SetCount(root, s, seg, [d], c);
    DeviceAt(root, s, seg, [d], c, j, reg, Io);
    f := Devices(seg, 0xff)[j].devfn;
    assert [d] + [f] == [d, f];
    WantedIs(root, [d, f], reg);
    WantedLength(root, s, [d, f], reg);
    OwnInside(Io, c, j, reg);
  }

  lemma WantedIs(root: Segment, p: Path, reg: nat)
    requires p != [] && Recorded(root, p) && reg < 6 && Wants(Io, SizesAt(root, p)[reg])
    ensures Wanted(root, p, reg, Io)
  {
    hide Recorded;
    hide Wants;
    hide SizesAt;
  }

  /** Behind two bridges there is no I/O register. */
  lemma NoneBehind(root: Segment, s: Setup, seg: Segment, at: Path, b: Bus)
    requires OnBus(root, s, seg, at, b) && Shallow(root) && |at| == 1
    ensures KidRanges(Io, b.children) == []
  {
    hide OnBus;
    hide Wanted;
    hide KidRanges;
    hide DevRanges;
    var rs := KidRanges(Io, b.children);
    if rs != [] {
      var r := rs[0];
      assert r in rs && r in BusRanges(Io, b);
      var p, reg := Owner(root, s, seg, at, b, Io, r);
    }
  }

  /** The bytes of a window that ends past 64K do not show its last page. */
  lemma PastPage(base: Word, limit: Word, a: nat)
    requires base % IO_BRIDGE_ALIGN == 0 && (limit + 1) % IO_BRIDGE_ALIGN == 0 && 0 < base <= limit && limit >= 0x1_0000
    requires limit + 1 - IO_BRIDGE_ALIGN <= a <= limit
    ensures !IoDecodes(IoByte(base), IoByte(limit), a)
  {
    hide IoByte;
    hide IoDecodes;
    var q, r := base / IO_BRIDGE_ALIGN, limit / IO_BRIDGE_ALIGN;
    IoPages(base, limit, q, r);
    DivModUnique(a, 4096, r, a - 4096 * r);
  }

  /** And those of an empty one at 64K show everything below it. */
  lemma EmptyShowsAll(a: nat)
    requires a < 0x1_0000
    ensures IoDecodes(IoByte(0x1_0000), IoByte(0xffff), a)
  {
    hide IoByte;
    PciAddress.Registers(0x1_0000, 16, 0);
    PciAddress.Registers(0xffff, 15, 4095);
  }

  lemma {:induction false} Adjoin(cs: seq<Bus>, lo: int, k: nat)
    requires KidsLaid(Io, cs, lo) && k < |cs|
    ensures cs[k].io.base == if k == 0 then lo else cs[k - 1].io.limit + 1
  {
    hide Laid;
    if k > 0 {
      Adjoin(cs[1..], cs[0].io.limit + 1, k - 1);
    }
  }

  /** Before a window that does not start at the beginning there is one that is not empty and ends where it starts. */
  lemma {:induction false} LastNonempty(cs: seq<Bus>, lo: int, k: nat) returns (k0: nat)
    requires KidsLaid(Io, cs, lo) && k < |cs| && cs[k].io.base > lo
    requires forall i :: 0 <= i < |cs| ==> cs[i].io.base <= cs[i].io.limit + 1
    ensures k0 < k && cs[k0].io.base <= cs[k0].io.limit && cs[k0].io.limit + 1 == cs[k].io.base
    decreases k
  {
    hide KidsLaid;
    Adjoin(cs, lo, k);
    if cs[k - 1].io.base <= cs[k - 1].io.limit { k0 := k - 1; } else { k0 := LastNonempty(cs, lo, k - 1); }
  }

  /** A window that is not empty ends below 64K. */
  lemma NonemptyBelow(root: Segment, s: Setup, b: Bus, d: nat)
    requires OnBus(root, s, root, [], b) && AllSpaces(b) && AllTight(b) && AllAnswered(root, s) && Shallow(root)
    requires d < |root.slots| && Descended(root, d) && Later(root, |root.slots|, d) < |b.children|
    requires KidOf(root, b, d).io.base <= KidOf(root, b, d).io.limit
    ensures KidOf(root, b, d).io.limit < 0x1_0000
  {
    hide OnBus;
    hide AllSpaces;
    hide AllTight;
    hide Shallow;
    hide Descended;
    hide Later;
    hide Wanted;
    hide GivenAt;
    hide Answered;
    hide Takes;
    hide IoDecodes;
    hide IoByte;
    var f, reg := LastRegister(root, s, b, d);
    var w := KidOf(root, b, d).io;
    KidWindows(b, Later(root, |root.slots|, d));
    var r := GivenAt(root, s, [d, f], reg, Io);
    var a: Word := r.start + r.len - 1;
    FirstHop(root, s, true, a, [d, f], reg);
    BridgeShows(root, s, b, d, a);
    if w.limit >= 0x1_0000 { PastPage(w.base, w.limit, a); }
  }

  lemma BridgeShows(root: Segment, s: Setup, b: Bus, d: nat, a: Word)
    requires OnBus(root, s, root, [], b) && AllSpaces(b) && d < |root.slots| && Descended(root, d)
    ensures Later(root, |root.slots|, d) < |b.children|
    ensures var w := KidOf(root, b, d).io;
      InWords(w) && (Takes(root, s, [], true, a, Bridge(d)) <==> IoDecodes(IoByte(w.base), IoByte(w.limit), a))
  {
    hide OnBus;
    hide AllSpaces;
    hide Descended;
    hide Later;
    hide BridgeTakes;
    hide IoDecodes;
    hide IoByte;
    BridgeForwards(root, s, b, d, true, a);
    assert [] + [d] == [d];
  }

  lemma Within64KNeeded(root: Segment, s: Setup, b: Bus)
    requires OnBus(root, s, root, [], b) && AllSpaces(b) && AllTight(b) && AllAnswered(root, s) && Shallow(root)
    requires b.io.base == PCI_IO_START
    ensures Within64K(b)
  {
    hide OnBus;
    hide AllSpaces;
    hide AllTight;
    hide AllAnswered;
    hide Shallow;
    hide Descended;
    hide Later;
    forall k | 0 <= k < |b.children|
      ensures b.children[k].io.base < 0x1_0000 && b.children[k].io.limit < 0x1_0000
    {
      var w := b.children[k].io;
      KidWindows(b, k);
      var d := SlotOf(root, s, root, [], b, k);
      if w.base <= w.limit {
        NonemptyBelow(root, s, b, d);
      } else {
        EmptyBelow(root, s, b, k, d);
      }
    }
  }

  /** An empty window is below 64K as well, or it would claim what belongs to another bus. */
  lemma EmptyBelow(root: Segment, s: Setup, b: Bus, k: nat, d: nat)
    requires OnBus(root, s, root, [], b) && AllSpaces(b) && AllTight(b) && AllAnswered(root, s) && Shallow(root)
    requires b.io.base == PCI_IO_START && k < |b.children|
    requires d < |root.slots| && Descended(root, d) && Later(root, |root.slots|, d) == k
    requires b.children[k].io.limit < b.children[k].io.base
    ensures b.children[k].io.base < 0x1_0000
  {
    hide OnBus;
    hide AllSpaces;
    hide AllTight;
    hide AllAnswered;
    hide Shallow;
    hide Descended;
    hide Later;
    hide Wanted;
    hide GivenAt;
    hide Answered;
    hide Takes;
    hide IoDecodes;
    hide IoByte;
    KidWindows(b, k);
    if b.children[k].io.base >= 0x1_0000 {
      var d0, f, reg, a := NeighbourBelow(root, s, b, k);
      AnsweredAt(root, s, [d0, f], reg, a);
      EmptyShowsAll(a);
      BridgeShows(root, s, b, d, a);
      FirstHop(root, s, true, a, [d0, f], reg);
    }
  }

  /** Before an empty window at 64K or beyond there is one, of another bridge, that ends at 64K and has a register. */
  lemma NeighbourBelow(root: Segment, s: Setup, b: Bus, k: nat) returns (d0: nat, f: nat, reg: nat, a: Word)
    requires OnBus(root, s, root, [], b) && AllSpaces(b) && AllTight(b) && AllAnswered(root, s) && Shallow(root)
    requires b.io.base == PCI_IO_START && k < |b.children| && 0x1_0000 <= b.children[k].io.base
    ensures b.children[k].io.base == 0x1_0000 && a < 0x1_0000
    ensures d0 < |root.slots| && Later(root, |root.slots|, d0) != k
    ensures Wanted(root, [d0, f], reg, Io) && reg < 6 && GivenAt(root, s, [d0, f], reg, Io).Has(a)
  {
    hide OnBus;
    hide AllSpaces;
    hide AllTight;
    hide AllAnswered;
    hide Shallow;
    hide Descended;
    hide Later;
    hide Wanted;
    hide GivenAt;
    forall i | 0 <= i < |b.children| ensures b.children[i].io.base <= b.children[i].io.limit + 1 { KidWindows(b, i); }
    IoKids(b);
    var k0 := LastNonempty(b.children, b.io.base, k);
    d0 := SlotOf(root, s, root, [], b, k0);
    NonemptyBelow(root, s, b, d0);
    f, reg := LastRegister(root, s, b, d0);
    a := GivenAt(root, s, [d0, f], reg, Io).start;
  }

  lemma AnsweredAt(root: Segment, s: Setup, p: Path, reg: nat, a: Word)
    requires AllAnswered(root, s) && Wanted(root, p, reg, Io) && GivenAt(root, s, p, reg, Io).Has(a)
    ensures Answered(root, s, true, a, p, reg)
  {
    hide Answered;
    hide GivenAt;
    hide Wanted;
  }

  lemma IoKids(b: Bus)
    requires AllSpaces(b)
    ensures KidsLaid(Io, b.children, b.io.base)
  {
    hide KidsLaid;
    LaidParts(Io, b);
    assert b.Win(Io) == b.io;
  }

  // ----- When all I/O addresses are answered -----

  /**
   After the setup every I/O address that is given out is answered by the register it was given to, and claimed by
   nothing else on the way, if and only if no I/O register is behind two or more bridges, the length of each divides its
   address (which for a register of 16 address bits is below 64K), and the I/O windows on the root bus are below 64K.
   */
  lemma IoAnswered(root: Segment, s: Setup, b: Bus)
    requires IsSetUp(root, s, b) && AllFormed(root) && AllSpaces(b) && AllTight(b) && b.io.base == PCI_IO_START
    ensures AllAnswered(root, s) <==> Shallow(root) && AllInPlace(root, s) && Within64K(b)
  {
    hide BusSet;
    hide AllSpaces;
    hide AllTight;
    hide AllAnswered;
    hide Shallow;
    hide AllInPlace;
    hide Within64K;
    hide Elsewhere;
    hide AllFormed;
    assert OnBus(root, s, root, [], b);
    hide OnBus;
    if AllAnswered(root, s) {
      ShallowNeeded(root, s, b);
      InPlaceNeeded(root, s, b);
      Within64KNeeded(root, s, b);
    }
    if Shallow(root) && AllInPlace(root, s) && Within64K(b) {
      Sufficient(root, s, b);
    }
  }

  /** No register of 16 address bits is put at 64K or beyond. */
  ghost predicate ShortBelow(root: Segment, s: Setup)
  {
    forall p: Path, reg :: Wanted(root, p, reg, Io) && Short(CellAt(FunctionAt(root, p), reg)) ==>
      GivenAt(root, s, p, reg, Io).start < 0x1_0000
  }

  /** In terms of the ranges of the whole tree. */
  lemma InPlaceRanges(root: Segment, s: Setup, b: Bus)
    requires OnBus(root, s, root, [], b) && ShortBelow(root, s)
    ensures AllInPlace(root, s) <==> InPlace(BusRanges(Io, b))
  {
    hide OnBus;
    hide Wanted;
    hide GivenAt;
    hide Short;
    hide BusRanges;
    hide InPlace;
    hide FunctionAt;
    hide Latched;
    if InPlace(BusRanges(Io, b)) {
      forall p: Path, reg | Wanted(root, p, reg, Io)
        ensures p != [] && reg < 6 && InPlaceAt(root, s, p, reg)
      {
        RecordedPart(root, p, reg);
        Owned(root, s, root, [], b, p, reg, Io);
        ListedInPlace(BusRanges(Io, b), GivenAt(root, s, p, reg, Io));
        WantedLength(root, s, p, reg);
      }
    }
    if AllInPlace(root, s) {
      forall r | r in BusRanges(Io, b)
        ensures Latched(r) == r
      {
        var p, reg := Owner(root, s, root, [], b, Io, r);
        RecordedPart(root, p, reg);
        assert InPlaceAt(root, s, p, reg);
        LatchedFirst(r.start, r.len);
      }
      AllListed(BusRanges(Io, b));
    }
  }

  /** The second condition can be read off the sizes: on every bus the registers come in step. */
  lemma InPlaceInStep(root: Segment, s: Setup, before: Bus)
    requires IsSetUp(root, s, AllocAll(before)) && AllFormed(root) && AllBlocks(before) && ShortBelow(root, s)
    ensures AllInPlace(root, s) <==> AllStepped(before)
  {
    hide BusSet;
    hide AllInPlace;
    hide ShortBelow;
    hide AllStepped;
    hide AllBlocks;
    hide AllocAll;
    hide BusRanges;
    hide InPlace;
    hide Elsewhere;
    hide AllFormed;
    assert OnBus(root, s, root, [], AllocAll(before));
    hide OnBus;
    IoApart(before, PCI_IO_START);
    FinalIo(before);
    InPlaceRanges(root, s, AllocAll(before));
  }

  lemma RecordedPart(root: Segment, p: Path, reg: nat)
    requires Wanted(root, p, reg, Io)
    ensures p != [] && reg < 6 && Recorded(root, p) && [] + p == p
  {
    hide Recorded;
  }

  lemma ListedInPlace(rs: seq<Range>, r: Range)
    requires InPlace(rs) && r in rs
    ensures r.len > 0 ==> r.start % r.len == 0
  {
  }

  lemma AllListed(rs: seq<Range>)
    requires forall r :: r in rs ==> Latched(r) == r
    ensures InPlace(rs)
  {
    hide Latched;
  }
}
