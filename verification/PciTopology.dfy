/**
 The PCI hardware seen by the bus scan: a tree of functions, the bus number registers of its bridges, and where
 a configuration access goes under their present contents.
 */
module PciTopology {
  import opened Bits
  import opened PciBusNumbers

  /** A base address register: the bits that can be written, what the others read, and what it holds at first. */
  datatype Cell = Cell(mask: Word, fixed: Word, reset: Word)

  /** The base address registers and the word behind them, and the expansion ROM register. */
  datatype Config = Config(cells: seq<Cell>, rom: Word)

  /**
   A function that answers on a bus: device << 16 | vendor, the header type byte, the base class and subclass, its
   registers, and what is behind it if it is a bridge.
   */
  datatype Function = Function(id: nat, header: nat, kind: nat, config: Config, behind: Segment)

  /** A bus, function by function in the order of devfn. */
  datatype Segment = Segment(slots: seq<Function>)

  /** The bridges between the root bus and a bus or function, by devfn. */
  type Path = seq<nat>

  type Registers = map<Path, Numbers>

  function Reg(regs: Registers, p: Path): Numbers
  {
    if p in regs then regs[p] else Numbers(0, 0, 0, 0, 0)
  }

  const Nothing := Function(0xffff_ffff, 0xff, 0xffff, Config([], 0), Segment([]))

  function At(seg: Segment, devfn: nat): Function
  {
    if devfn < |seg.slots| then seg.slots[devfn] else Nothing
  }

  predicate IsBridge(f: Function)
  {
    f.header % 128 == 1
  }

  /** The bus at the end of a path. */
  predicate IsPath(root: Segment, p: Path)
  {
    p == [] || (p[0] < |root.slots| && IsBridge(root.slots[p[0]]) && IsPath(root.slots[p[0]].behind, p[1..]))
  }

  function SegmentAt(root: Segment, p: Path): Segment
    decreases p
  {
    if p == [] then root else SegmentAt(At(root, p[0]).behind, p[1..])
  }

  /** The function at the end of a path. */
  function FunctionAt(root: Segment, p: Path): Function
    requires p != []
  {
    At(SegmentAt(root, p[..|p| - 1]), p[|p| - 1])
  }

  function CellAt(f: Function, reg: nat): Cell
  {
    if reg < |f.config.cells| then f.config.cells[reg] else Cell(0, 0, 0)
  }

  /**
   The buses that answer to a type 1 access to a bus number on seg: a bridge answers for its secondary bus and
   forwards up to its subordinate bus.
   */
  function Claims(seg: Segment, at: Path, regs: Registers, bus: nat, i: nat): seq<Path>
    decreases seg, |seg.slots| - i
  {
    if i >= |seg.slots| then [] else ClaimsSlot(seg, at, regs, bus, i) + Claims(seg, at, regs, bus, i + 1)
  }

  function ClaimsSlot(seg: Segment, at: Path, regs: Registers, bus: nat, i: nat): seq<Path>
    requires i < |seg.slots|
    decreases seg, |seg.slots| - i, 0
  {
    var r := Reg(regs, at + [i]);
    if !IsBridge(seg.slots[i]) then []
    else if r.secondary == bus then [at + [i]]
    else if r.secondary < bus <= r.subordinate then Claims(seg.slots[i].behind, at + [i], regs, bus, 0)
    else []
  }

  /** The buses that answer to a configuration access. */
  function Routed(root: Segment, regs: Registers, bus: nat): seq<Path>
  {
    if bus == 0 then [[]] else Claims(root, [], regs, bus, 0)
  }

  // ----- The state of the registers during a scan -----

  /** A bridge that is finished, or not touched yet, ends below s. */
  predicate EndsBelow(r: Numbers, s: nat)
  {
    r.secondary <= r.subordinate < s
  }

  /**
   From seg (number s0) the path rest leads through bridges open to 0xff with rising numbers, and every other
   bridge on the way ends below the one the path takes.
   */
  predicate Open(seg: Segment, at: Path, regs: Registers, rest: Path, s0: nat)
    decreases rest
  {
    rest == [] ||
    (var d, r := rest[0], Reg(regs, at + [rest[0]]);
     && d < |seg.slots| && IsBridge(seg.slots[d]) && s0 < r.secondary && r.subordinate == 0xff
     && (forall i :: 0 <= i < |seg.slots| && i != d ==> EndsBelow(Reg(regs, at + [i]), r.secondary))
     && Open(seg.slots[d].behind, at + [d], regs, rest[1..], r.secondary))
  }

  /** The number of the bus at the end of a path. */
  function NumberAt(regs: Registers, at: Path): nat
  {
    if at == [] then 0 else Reg(regs, at).secondary
  }

  lemma {:induction false} OpenRises(seg: Segment, at: Path, regs: Registers, rest: Path, s0: nat)
    requires Open(seg, at, regs, rest, s0) && rest != []
    ensures Reg(regs, at + [rest[0]]).secondary <= Reg(regs, at + rest).secondary
    decreases rest
  {
    if |rest| == 1 {
      assert rest == [rest[0]];
    } else {
      OpenRises(seg.slots[rest[0]].behind, at + [rest[0]], regs, rest[1..], Reg(regs, at + [rest[0]]).secondary);
      assert at + [rest[0]] + rest[1..] == at + rest;
    }
  }

  lemma {:induction false} OnlyOne(seg: Segment, at: Path, regs: Registers, bus: nat, d: nat, i: nat)
    requires d < |seg.slots| && i <= |seg.slots|
    requires forall k :: 0 <= k < |seg.slots| && k != d ==> ClaimsSlot(seg, at, regs, bus, k) == []
    ensures Claims(seg, at, regs, bus, i) == if i <= d then ClaimsSlot(seg, at, regs, bus, d) else []
    decreases |seg.slots| - i
  {
    if i < |seg.slots| { OnlyOne(seg, at, regs, bus, d, i + 1); }
  }

  /** On an open path only the bridge the path takes can answer for a number not below its own. */
  lemma OpenLevel(seg: Segment, at: Path, regs: Registers, rest: Path, s0: nat, bus: nat)
    requires Open(seg, at, regs, rest, s0) && rest != [] && Reg(regs, at + [rest[0]]).secondary <= bus
    ensures Claims(seg, at, regs, bus, 0) == ClaimsSlot(seg, at, regs, bus, rest[0])
  {
    hide Claims;
    OnlyOne(seg, at, regs, bus, rest[0], 0);
  }

  /** On an open path, an access to the number at its end arrives there and nowhere else. */
  lemma {:induction false} OpenClaims(seg: Segment, at: Path, regs: Registers, rest: Path, s0: nat, bus: nat)
    requires Open(seg, at, regs, rest, s0) && rest != [] && Reg(regs, at + rest).secondary == bus <= 0xff
    ensures Claims(seg, at, regs, bus, 0) == [at + rest]
    decreases rest
  {
    hide Claims;
    var d := rest[0];
    OpenRises(seg, at, regs, rest, s0);
    OpenLevel(seg, at, regs, rest, s0, bus);
    if |rest| == 1 {
      assert rest == [d];
    } else {
      var s := Reg(regs, at + [d]).secondary;
      OpenRises(seg.slots[d].behind, at + [d], regs, rest[1..], s);
      assert at + [d] + rest[1..] == at + rest;
      OpenClaims(seg.slots[d].behind, at + [d], regs, rest[1..], s, bus);
    }
  }

  /** An access to the bus being scanned reaches exactly that bus. */
  lemma OpenRouted(root: Segment, regs: Registers, at: Path)
    requires Open(root, [], regs, at, 0) && NumberAt(regs, at) <= 0xff
    ensures Routed(root, regs, NumberAt(regs, at)) == [at]
  {
    if at != [] {
      assert [] + at == at;
      OpenRises(root, [], regs, at, 0);
      OpenClaims(root, [], regs, at, 0, NumberAt(regs, at));
    }
  }

  /** Opening one more bridge on the bus at the end of the path. */
  lemma {:induction false} OpenExtend(seg: Segment, at: Path, regs: Registers, rest: Path, s0: nat, n: nat, d: nat,
        b: nat)
    requires Open(seg, at, regs, rest, s0) && IsPath(seg, rest)
    requires n == if rest == [] then s0 else Reg(regs, at + rest).secondary
    requires var end := SegmentAt(seg, rest);
             && d < |end.slots| && IsBridge(end.slots[d])
             && Reg(regs, at + rest + [d]).secondary == b && n < b && Reg(regs, at + rest + [d]).subordinate == 0xff
             && forall i :: 0 <= i < |end.slots| && i != d ==> EndsBelow(Reg(regs, at + rest + [i]), b)
    ensures Open(seg, at, regs, rest + [d], s0) && IsPath(seg, rest + [d])
    ensures SegmentAt(seg, rest + [d]) == At(SegmentAt(seg, rest), d).behind
    decreases rest
  {
    if rest == [] {
      assert [] + [d] == [d] && at + [] == at;
    } else {
      var e := rest[0];
      assert (rest + [d])[1..] == rest[1..] + [d] && at + [e] + rest[1..] == at + rest;
      forall i ensures at + [e] + rest[1..] + [i] == at + rest + [i] { }
      assert |rest| == 1 ==> rest == [e];
      OpenExtend(seg.slots[e].behind, at + [e], regs, rest[1..], Reg(regs, at + [e]).secondary, n, d, b);
    }
  }

  /** Whether an access arrives depends only on the registers above. */
  lemma {:induction false} OpenFrame(seg: Segment, at: Path, regs: Registers, regs': Registers, rest: Path, s0: nat)
    requires Open(seg, at, regs, rest, s0)
    requires forall p: Path :: |p| <= |at| + |rest| ==>
               Reg(regs, p).Are(Reg(regs', p).primary, Reg(regs', p).secondary, Reg(regs', p).subordinate)
    ensures Open(seg, at, regs', rest, s0)
    decreases rest
  {
    if rest != [] {
      OpenFrame(seg.slots[rest[0]].behind, at + [rest[0]], regs, regs', rest[1..], Reg(regs, at + [rest[0]]).secondary);
    }
  }
}
