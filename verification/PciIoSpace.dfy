/**
 I/O registers are put one after the other in steps of 16 bytes, whatever their length: when they answer at the
 addresses they are given, and when they get into each other's way.
 */
module PciIoSpace {
  import opened Bits
  import opened PciAddress
  import opened PciLayout

  // ----- The registers of one bus -----

  /** The lengths of the I/O registers of a device from the i-th on. */
  function BarLengths(size: Words, i: nat): seq<Word>
    requires i <= 6
    decreases 6 - i
  {
    if i == 6 then [] else (if Wants(Io, size[i]) then [Length(Io, size[i])] else []) + BarLengths(size, i + 1)
  }

  function DevLengths(ds: seq<Dev>): seq<Word>
  {
    if ds == [] then [] else BarLengths(ds[0].size, 0) + DevLengths(ds[1..])
  }

  /** Where they go. */
  function Placements(lens: seq<Word>, p: nat): seq<Range>
  {
    if lens == [] then [] else [Range(p, lens[0])] + Placements(lens[1..], p + Rounded(lens[0], IO_ALIGN))
  }

  function PlacedEnd(lens: seq<Word>, p: nat): nat
  {
    if lens == [] then p else PlacedEnd(lens[1..], p + Rounded(lens[0], IO_ALIGN))
  }

  /** What the earlier registers take up is a multiple of the length of each. */
  predicate Stepped(lens: seq<Word>, used: nat)
  {
    lens == [] || (lens[0] != 0 && used % lens[0] == 0 && Stepped(lens[1..], used + Rounded(lens[0], IO_ALIGN)))
  }

  /** Lengths that are powers of two up to one page. */
  ghost predicate Blocks(lens: seq<Word>)
  {
    forall i :: 0 <= i < |lens| ==> exists k: nat :: k <= 12 && Pow2(k) == lens[i]
  }

  predicate Overlap(r: Range, r': Range)
  {
    r.start < r'.start + r'.len && r'.start < r.start + r.len
  }

  predicate Disjoint(rs: seq<Range>)
  {
    forall i, j :: 0 <= i < j < |rs| ==> !Overlap(rs[i], rs[j])
  }

  // ----- The registers of a tree of buses -----

  /** On every bus. */
  predicate AllStepped(b: Bus)
  {
    Stepped(DevLengths(b.devices), 0) && KidsStepped(b.children)
  }

  predicate KidsStepped(cs: seq<Bus>)
  {
    cs == [] || (AllStepped(cs[0]) && KidsStepped(cs[1..]))
  }

  ghost predicate AllBlocks(b: Bus)
  {
    Blocks(DevLengths(b.devices)) && KidsBlocks(b.children)
  }

  ghost predicate KidsBlocks(cs: seq<Bus>)
  {
    cs == [] || (AllBlocks(cs[0]) && KidsBlocks(cs[1..]))
  }

  // ----- The layout of one bus -----

  lemma {:induction false} PlacementsConcat(l1: seq<Word>, l2: seq<Word>, p: nat)
    ensures Placements(l1 + l2, p) == Placements(l1, p) + Placements(l2, PlacedEnd(l1, p))
    ensures PlacedEnd(l1 + l2, p) == PlacedEnd(l2, PlacedEnd(l1, p))
  {
    hide Rounded;
    if l1 == [] {
      assert l1 + l2 == l2;
    } else {
      var q := p + Rounded(l1[0], IO_ALIGN);
      assert (l1 + l2)[1..] == l1[1..] + l2;
      PlacementsConcat(l1[1..], l2, q);
      HitsAssoc([Range(p, l1[0])], Placements(l1[1..], q), Placements(l2, PlacedEnd(l1, p)));
      assert Placements(l1 + l2, p) == [Range(p, l1[0])] + Placements(l1[1..] + l2, q);
      assert Placements(l1, p) == [Range(p, l1[0])] + Placements(l1[1..], q);
    }
  }

  lemma {:induction false} BarsPlaced(d: Dev, i: nat, base: nat)
    requires i <= 6 && base % IO_ALIGN == 0
    ensures var (d', n) := AllocBars(Io, d, i, base);
      BarRanges(Io, d', i) == Placements(BarLengths(d.size, i), base) && n == PlacedEnd(BarLengths(d.size, i), base)
    decreases 6 - i
  {
    hide Rounded;
    hide Length;
    hide Wants;
    hide Stored;
    hide AddressOf;
    hide BarRanges;
    hide SameDev;
    hide Aligned;
    if i == 6 {
      BarsNone(Io, d, base);
    } else if Wants(Io, d.size[i]) {
      Placed(Io, d.size[i], base);
      var d1, n1 := d.(addr := d.addr[i := Stored(Io, base)]), Next(Io, d.size[i], base);
      BarsPlaced(d1, i + 1, n1);
      BarsLaid(Io, d1, i + 1, n1);
      var d' := AllocBars(Io, d1, i + 1, n1).0;
      SizesSame(d1, d');
      RangesFrom(d', i);
    } else {
      BarsPlaced(d, i + 1, base);
      BarsLaid(Io, d, i + 1, base);
      BarSkipped(Io, d, AllocBars(Io, d, i + 1, base).0, i);
      assert BarLengths(d.size, i) == BarLengths(d.size, i + 1);
    }
  }

  lemma SizesSame(d: Dev, d': Dev)
    requires SameDev(Io, d, d')
    ensures d.size == d'.size
  {
  }

  lemma RangesFrom(d: Dev, i: nat)
    requires i < 6 && Wants(Io, d.size[i])
    ensures BarRanges(Io, d, i) == [Range(AddressOf(Io, d.addr[i]), Length(Io, d.size[i]))] + BarRanges(Io, d, i + 1)
  {
  }

  lemma {:induction false} DevsPlaced(ds: seq<Dev>, base: nat)
    requires base % IO_ALIGN == 0
    ensures var (ds', n) := AllocDevs(Io, ds, base);
      DevRanges(Io, ds') == Placements(DevLengths(ds), base) && n == PlacedEnd(DevLengths(ds), base)
  {
    hide AllocBars;
    hide BarRanges;
    hide BarLengths;
    hide Placements;
    hide PlacedEnd;
    hide SameDev;
    hide AllAligned;
    hide Ordered;
    if ds == [] {
      NonePlaced(base);
    } else {
      var (d, n) := AllocBars(Io, ds[0], 0, base);
      BarsPlaced(ds[0], 0, base);
      BarsLaid(Io, ds[0], 0, base);
      DevsPlaced(ds[1..], n);
      var (rest, m) := AllocDevs(Io, ds[1..], n);
      assert ([d] + rest)[1..] == rest;
      PlacementsConcat(BarLengths(ds[0].size, 0), DevLengths(ds[1..]), base);
    }
  }

  lemma NonePlaced(base: nat)
    ensures Placements([], base) == [] && PlacedEnd([], base) == base
  {
  }

  // ----- When the registers of one bus are in step -----

  /** A power of two up to a page divides the start of a bus, so only the distance from there counts. */
  lemma SameRemainder(len: nat, k: nat, base: nat, p: nat)
    requires len == Pow2(k) && k <= 12 && base % IO_BRIDGE_ALIGN == 0 && base <= p
    ensures p % len == (p - base) % len
  {
    hide Pow2;
    Pow2Word();
    PowerMultiple(12, k);
    var q, c := (p - base) / len, 4096 / len;
    MulAssoc(base / 4096, c, len);
    SumTimes(q, base / 4096 * c, len);
    DivModUnique(p, len, q + base / 4096 * c, (p - base) % len);
  }

  /** Every multiple of 16 between base and p is taken by one of the ranges. */
  predicate Taken(rs: seq<Range>, base: nat, p: nat)
  {
    forall x: nat :: base <= x < p && x % IO_ALIGN == 0 ==> Holds(rs, x)
  }

  predicate Holds(rs: seq<Range>, x: nat)
  {
    exists i :: 0 <= i < |rs| && rs[i].Has(x)
  }

  /** A register whose length is a power of two takes a multiple of 16, itself if it is not shorter. */
  lemma RoundedBlock(len: nat, k: nat)
    requires len == Pow2(k)
    ensures Rounded(len, IO_ALIGN) == if k >= 4 then len else IO_ALIGN
    ensures Rounded(len, IO_ALIGN) % IO_ALIGN == 0
  {
    hide Rounded;
    hide Pow2;
    Pow2Word();
    RoundedTo(len, IO_ALIGN);
    if k >= 4 { PowerMultiple(k, 4); } else { Pow2Mono(k + 1, 4); Pow2Mono(k, k + 1); RoundedSmall(len); }
  }

  lemma RoundedSmall(len: nat)
    requires 0 < len < IO_ALIGN
    ensures Rounded(len, IO_ALIGN) == IO_ALIGN
  {
    hide Rounded;
    RoundedTo(len, IO_ALIGN);
  }

  /** One more register in step. */
  lemma TakenMore(rs: seq<Range>, base: nat, p: nat, len: nat, k: nat)
    requires Taken(rs, base, p) && p % IO_ALIGN == 0 && len == Pow2(k)
    ensures Taken(rs + [Range(p, len)], base, p + Rounded(len, IO_ALIGN))
  {
    hide Pow2;
    hide Rounded;
    RoundedBlock(len, k);
    var more := rs + [Range(p, len)];
    forall x: nat | base <= x < p + Rounded(len, IO_ALIGN) && x % IO_ALIGN == 0
      ensures Holds(more, x)
    {
      if x < p {
        assert Holds(rs, x);
        var i :| 0 <= i < |rs| && rs[i].Has(x);
        assert more[i].Has(x);
      } else {
        assert more[|rs|].Has(x);
      }
    }
  }

  /** The first register out of step answers at addresses of an earlier one. */
  lemma OutOfStep(rs: seq<Range>, base: nat, p: nat, len: nat, k: nat)
    requires Taken(rs, base, p) && base % IO_BRIDGE_ALIGN == 0 && base <= p && p % IO_ALIGN == 0
    requires len == Pow2(k) && k <= 12 && p % len != 0
    ensures exists i :: 0 <= i < |rs| && Overlap(rs[i], Latched(Range(p, len)))
  {
    hide Pow2;
    var s := p - p % len;
    SameRemainder(len, k, base, p);
    assert base <= s;
    Pow2Word();
    if k < 4 {
      MultipleOfSmaller(p, 4, k);
      assert false;
    }
    PowerMultiple(k, 4);
    BlockStart(p, len, s);
    assert Holds(rs, s);
  }

  lemma BlockStart(p: nat, len: nat, s: nat)
    requires len > 0 && len % 16 == 0 && s == p - p % len
    ensures s % 16 == 0
  {
    var q, c := p / len, len / 16;
    MulAssoc(q, c, 16);
    DivModUnique(s, 16, q * c, 0);
  }

  lemma {:induction false} StepsApart(done: seq<Range>, lens: seq<Word>, base: nat, p: nat)
    requires Blocks(lens) && Taken(done, base, p) && base % IO_BRIDGE_ALIGN == 0 && base <= p && p % IO_ALIGN == 0
    ensures InPlace(Placements(lens, p)) <==> Stepped(lens, p - base)
    ensures Disjoint(done + AllLatched(Placements(lens, p))) ==> Stepped(lens, p - base)
    decreases |lens|
  {
    hide Pow2;
    hide Rounded;
    hide Taken;
    hide Latched;
    hide Overlap;
    hide InPlace;
    hide Disjoint;
    if lens == [] {
      NothingApart();
    } else {
      var len, rest := lens[0], lens[1..];
      var k: nat :| k <= 12 && Pow2(k) == lens[0];
      var next := p + Rounded(len, IO_ALIGN);
      SameRemainder(len, k, base, p);
      InPlaceParts([Range(p, len)], Placements(rest, next));
      LatchedFirst(p, len);
      assert Placements(lens, p)[0] == Range(p, len) && Placements(lens, p)[1..] == Placements(rest, next);
      if p % len == 0 {
        TakenMore(done, base, p, len, k);
        RoundedBlock(len, k);
        SumMultiple(p, Rounded(len, IO_ALIGN));
        StepsApart(done + [Range(p, len)], rest, base, next);
        FirstMoves(done, Range(p, len), AllLatched(Placements(rest, next)));
      } else {
        OutOfStep(done, base, p, len, k);
        FirstOverlaps(done, Latched(Range(p, len)), AllLatched(Placements(rest, next)));
      }
    }
  }

  lemma FirstMoves(done: seq<Range>, r: Range, rest: seq<Range>)
    ensures done + ([r] + rest) == (done + [r]) + rest
  {
  }

  lemma FirstOverlaps(done: seq<Range>, r: Range, rest: seq<Range>)
    requires exists i :: 0 <= i < |done| && Overlap(done[i], r)
    ensures !Disjoint(done + ([r] + rest))
  {
    hide Overlap;
    var i :| 0 <= i < |done| && Overlap(done[i], r);
    var all := done + ([r] + rest);
    assert all[i] == done[i] && all[|done|] == r;
  }

  lemma LatchedFirst(p: nat, len: nat)
    requires len > 0
    ensures InPlace([Range(p, len)]) <==> p % len == 0
    ensures Latched(Range(p, len)) == Range(p, len) <==> p % len == 0
  {
    assert [Range(p, len)][0] == Range(p, len);
  }

  // ----- The whole tree -----

  lemma DisjointParts(r1: seq<Range>, r2: seq<Range>)
    requires Disjoint(r1 + r2)
    ensures Disjoint(r1) && Disjoint(r2)
  {
    hide Overlap;
    forall i, j | 0 <= i < j < |r1|
      ensures !Overlap(r1[i], r1[j])
    {
      assert (r1 + r2)[i] == r1[i] && (r1 + r2)[j] == r1[j];
    }
    forall i, j | 0 <= i < j < |r2|
      ensures !Overlap(r2[i], r2[j])
    {
      assert (r1 + r2)[|r1| + i] == r2[i] && (r1 + r2)[|r1| + j] == r2[j];
    }
  }

  lemma {:induction false} LatchedConcat(r1: seq<Range>, r2: seq<Range>)
    ensures AllLatched(r1 + r2) == AllLatched(r1) + AllLatched(r2)
  {
    if r1 == [] {
      assert r1 + r2 == r2;
    } else {
      assert (r1 + r2)[1..] == r1[1..] + r2;
      LatchedConcat(r1[1..], r2);
    }
  }

  lemma {:induction false} KidsApartExactly(cs: seq<Bus>, base: nat)
    requires 0 < base && base % IO_BRIDGE_ALIGN == 0 && KidsBlocks(cs)
    ensures var rs := KidRanges(Io, AllocKids(Io, cs, base).0);
      && (InPlace(rs) <==> KidsStepped(cs)) && (Disjoint(AllLatched(rs)) ==> KidsStepped(cs))
  {
    hide AllStepped;
    hide AllBlocks;
    hide Disjoint;
    hide InPlace;
    hide Laid;
    hide SameBut;
    hide BusRanges;
    if cs == [] {
      NothingApart();
    } else {
      var c := AllocBus(Io, cs[0], base);
      hide AllocBus;
      BusApart(cs[0], base);
      AllocBusLaid(Io, cs[0], base);
      WindowEnd(Io, c);
      var n := After(Io, c.Win(Io).limit);
      KidsApartExactly(cs[1..], n);
      var rest := AllocKids(Io, cs[1..], n).0;
      assert ([c] + rest)[1..] == rest;
      var r1, r2 := BusRanges(Io, c), KidRanges(Io, rest);
      InPlaceParts(r1, r2);
      LatchedConcat(r1, r2);
      if Disjoint(AllLatched(r1 + r2)) { DisjointParts(AllLatched(r1), AllLatched(r2)); }
    }
  }

  lemma NothingApart()
    ensures InPlace([]) && AllLatched([]) == []
  {
  }

  lemma BusApart(b: Bus, base: nat)
    requires 0 < base && base % IO_BRIDGE_ALIGN == 0 && AllBlocks(b)
    ensures var rs := BusRanges(Io, AllocBus(Io, b, base));
      && (InPlace(rs) <==> AllStepped(b)) && (Disjoint(AllLatched(rs)) ==> AllStepped(b))
    decreases b, 1
  {
    hide Disjoint;
    hide InPlace;
    hide Stepped;
    hide Blocks;
    hide Rounded;
    hide KidRanges;
    hide DevRanges;
    hide KidsLaid;
    hide SameKids;
    var (kids, k) := AllocKids(Io, b.children, base);
    KidsApartExactly(b.children, base);
    AllocKidsLaid(Io, b.children, base);
    MultipleOf16(Io, k);
    DevsPlaced(b.devices, k);
    StepsApart([], DevLengths(b.devices), k, k);
    var r1, r2 := KidRanges(Io, kids), Placements(DevLengths(b.devices), k);
    assert [] + AllLatched(r2) == AllLatched(r2);
    InPlaceParts(r1, r2);
    LatchedConcat(r1, r2);
    if Disjoint(AllLatched(r1 + r2)) { DisjointParts(AllLatched(r1), AllLatched(r2)); }
  }

  /**
   After the I/O pass the registers of the whole tree answer where they were put, and no two of them answer to the same
   address, if and only if on every bus they come in step: what the earlier I/O registers of the bus take up is a
   multiple of the length of each.
   */
  lemma IoApart(b: Bus, base: nat)
    requires 0 < base && base % IO_BRIDGE_ALIGN == 0 && AllBlocks(b)
    ensures var rs := BusRanges(Io, AllocBus(Io, b, base));
      && (InPlace(rs) <==> AllStepped(b)) && (Disjoint(AllLatched(rs)) <==> AllStepped(b))
  {
    hide InPlace;
    hide Disjoint;
    hide AllStepped;
    hide AllBlocks;
    hide AllocBus;
    hide BusRanges;
    hide Laid;
    hide SameBut;
    BusApart(b, base);
    AllocBusLaid(Io, b, base);
    var b' := AllocBus(Io, b, base);
    LaidOrdered(Io, b');
    if InPlace(BusRanges(Io, b')) {
      InPlaceLatched(BusRanges(Io, b'));
      OrderedDisjoint(BusRanges(Io, b'), b'.Win(Io).base, b'.Win(Io).limit + 1);
    }
  }

  lemma OrderedDisjoint(rs: seq<Range>, lo: nat, hi: int)
    requires Ordered(rs, lo, hi)
    ensures Disjoint(rs)
  {
    hide Ordered;
    OrderedApart(rs, lo, hi);
  }

  // ----- Windows are no larger than they have to be -----

  /** An I/O window ends in the page where the last register of the bus ends, or with the windows behind it. */
  predicate Tight(b: Bus)
  {
    var rs := DevRanges(Io, b.devices);
    if rs == [] then b.io.limit + 1 == KidsEnd(Io, b.children, b.io.base)
    else rs[|rs| - 1].start + rs[|rs| - 1].len + IO_BRIDGE_ALIGN > b.io.limit + 1
  }

  predicate AllTight(b: Bus)
  {
    Tight(b) && KidsTight(b.children)
  }

  predicate KidsTight(cs: seq<Bus>)
  {
    cs == [] || (AllTight(cs[0]) && KidsTight(cs[1..]))
  }

  lemma {:induction false} LastPlaced(lens: seq<Word>, p: nat)
    requires lens != []
    ensures var rs := Placements(lens, p);
      |rs| == |lens| && rs[|rs| - 1].start + Rounded(rs[|rs| - 1].len, IO_ALIGN) == PlacedEnd(lens, p)
  {
    hide Rounded;
    if |lens| > 1 { LastPlaced(lens[1..], p + Rounded(lens[0], IO_ALIGN)); }
  }

  lemma {:induction false} PlacedMultiple(lens: seq<Word>, p: nat)
    requires p % IO_ALIGN == 0
    ensures PlacedEnd(lens, p) % IO_ALIGN == 0
    decreases |lens|
  {
    hide Rounded;
    if lens != [] {
      RoundedTo(lens[0], IO_ALIGN);
      SumMultiple(p, Rounded(lens[0], IO_ALIGN));
      PlacedMultiple(lens[1..], p + Rounded(lens[0], IO_ALIGN));
    }
  }

  /** The page in which the window ends holds the last byte of the last register. */
  lemma TightEnd(e: nat, start: nat, len: nat, limit: int)
    requires e % IO_ALIGN == 0 && e == start + Rounded(len, IO_ALIGN) && limit + 1 == Rounded(e, IO_BRIDGE_ALIGN)
    ensures start + len + IO_BRIDGE_ALIGN > limit + 1
  {
    hide Rounded;
    RoundedTo(e, IO_BRIDGE_ALIGN);
    SixteenApart(e, limit + 1);
  }

  lemma SixteenApart(e: int, x: int)
    requires e % 16 == 0 && x % 4096 == 0 && x < e + 4096
    ensures x + 16 <= e + 4096
  {
  }

  lemma BusTight(b: Bus, base: nat)
    requires 0 < base && base % IO_BRIDGE_ALIGN == 0
    ensures AllTight(AllocBus(Io, b, base))
    decreases b, 1
  {
    hide Rounded;
    hide Laid;
    hide KidsLaid;
    hide SameKids;
    hide DevRanges;
    hide KidsTight;
    hide Placements;
    hide PlacedEnd;
    hide AllocKids;
    hide AllocDevs;
    hide Tight;
    hide KidsEnd;
    var (kids, k) := AllocKids(Io, b.children, base);
    var (devs, e) := AllocDevs(Io, b.devices, k);
    KidsTightly(b.children, base);
    AllocKidsLaid(Io, b.children, base);
    MultipleOf16(Io, k);
    DevsPlaced(b.devices, k);
    WindowTight(AllocBus(Io, b, base), DevLengths(b.devices), base, k, e);
  }

  /** The window of a bus whose registers have these lengths and come after the windows behind it. */
  lemma WindowTight(b: Bus, lens: seq<Word>, base: nat, k: nat, e: nat)
    requires k % IO_ALIGN == 0 && k % IO_BRIDGE_ALIGN == 0 && e == PlacedEnd(lens, k)
    requires DevRanges(Io, b.devices) == Placements(lens, k) && b.io == Window(base, Rounded(e, IO_BRIDGE_ALIGN) - 1)
    requires KidsEnd(Io, b.children, base) == k
    ensures Tight(b)
  {
    hide Rounded;
    hide KidsEnd;
    hide DevRanges;
    hide Placements;
    hide PlacedEnd;
    if lens == [] {
      NonePlaced(k);
      RoundedTo(k, IO_BRIDGE_ALIGN);
    } else {
      LastPlaced(lens, k);
      PlacedMultiple(lens, k);
      var rs := Placements(lens, k);
      TightEnd(e, rs[|rs| - 1].start, rs[|rs| - 1].len, Rounded(e, IO_BRIDGE_ALIGN) - 1);
    }
  }

  lemma {:induction false} KidsTightly(cs: seq<Bus>, base: nat)
    requires 0 < base && base % IO_BRIDGE_ALIGN == 0
    ensures KidsTight(AllocKids(Io, cs, base).0)
  {
    hide AllTight;
    hide Laid;
    hide SameBut;
    if cs != [] {
      var c := AllocBus(Io, cs[0], base);
      hide AllocBus;
      BusTight(cs[0], base);
      AllocBusLaid(Io, cs[0], base);
      WindowEnd(Io, c);
      KidsTightly(cs[1..], After(Io, c.Win(Io).limit));
      var rest := AllocKids(Io, cs[1..], After(Io, c.Win(Io).limit)).0;
      assert ([c] + rest)[1..] == rest;
    }
  }

  /** The passes for memory do not change that. */
  lemma {:induction false} TightKept(sp: Space, b: Bus, b': Bus)
    requires !sp.Io? && SameBut(sp, b, b') && AllTight(b)
    ensures AllTight(b')
    decreases b
  {
    hide SameKids;
    hide SameDevs;
    hide DevRanges;
    hide KidsEnd;
    hide KidsTight;
    assert b.Win(Io) == b'.Win(Io);
    DevRangesKept(sp, Io, b.devices, b'.devices);
    KidsKept(sp, Io, b.children, b'.children, b.io.base);
    KidsTightKept(sp, b.children, b'.children);
  }

  lemma {:induction false} KidsTightKept(sp: Space, cs: seq<Bus>, cs': seq<Bus>)
    requires !sp.Io? && SameKids(sp, cs, cs') && KidsTight(cs)
    ensures KidsTight(cs')
    decreases cs
  {
    hide SameBut;
    hide AllTight;
    if cs != [] {
      TightKept(sp, cs[0], cs'[0]);
      KidsTightKept(sp, cs[1..], cs'[1..]);
    }
  }

  /** After all three passes: windows are tight, and I/O registers are where the first pass put them. */
  lemma FinalIo(b: Bus)
    ensures AllTight(AllocAll(b)) && BusRanges(Io, AllocAll(b)) == BusRanges(Io, AllocBus(Io, b, PCI_IO_START))
  {
    hide Laid;
    hide SameBut;
    hide BusRanges;
    hide AllocBus;
    hide AllTight;
    var b1 := AllocBus(Io, b, PCI_IO_START);
    AllocBusLaid(Io, b, PCI_IO_START);
    BusTight(b, PCI_IO_START);
    var b2 := AllocBus(Mem, b1, PCI_MEM_START);
    AllocBusLaid(Mem, b1, PCI_MEM_START);
    WindowEnd(Mem, b2);
    var b3 := AllocBus(Pref, b2, After(Mem, b2.mem.limit));
    AllocBusLaid(Pref, b2, After(Mem, b2.mem.limit));
    BusKept(Mem, Io, b1, b2);
    BusKept(Pref, Io, b2, b3);
    TightKept(Mem, b1, b2);
    TightKept(Pref, b2, b3);
  }

  /** A window without registers behind it is empty. */
  lemma {:induction false} EmptyKids(cs: seq<Bus>, lo: nat)
    requires KidsLaid(Io, cs, lo) && KidsTight(cs) && KidRanges(Io, cs) == []
    ensures KidsEnd(Io, cs, lo) == lo
    decreases cs
  {
    hide Laid;
    hide AllTight;
    hide BusRanges;
    if cs != [] {
      EmptyBus(cs[0]);
      EmptyKids(cs[1..], cs[0].io.limit + 1);
    }
  }

  lemma EmptyBus(b: Bus)
    requires Laid(Io, b) && AllTight(b) && BusRanges(Io, b) == []
    ensures b.io.limit + 1 == b.io.base
    decreases b, 1
  {
    hide KidsLaid;
    hide KidsTight;
    hide KidRanges;
    hide DevRanges;
    hide KidsEnd;
    hide Ordered;
    hide AllAligned;
    assert b.Win(Io) == b.io;
    EmptyKids(b.children, b.io.base);
  }
}
