/**
 ELF files written field by field, as the Executable and Linking Format lays them out for 32 bits, little-endian, and
 what the loader reads of them.
 */
module ElfFile {
  import opened Bits
  import opened ElfBoot
  import opened ElfImage

  type Half = U16

  function Half2(x: Half): (s: seq<Byte>)
    ensures |s| == 2
  {
    [x % 0x100, x / 0x100]
  }

  function Word4(x: Word): (s: seq<Byte>)
    ensures |s| == 4
  {
    [x % 0x100, x / 0x100 % 0x100, x / 0x1_0000 % 0x100, x / 0x100_0000]
  }

  /** The header of the file; any bytes, any numbers. */
  datatype Header = Header(ident: seq<Byte>, kind: Half, machine: Half, version: Word, entry: Word, phoff: Word,
                           shoff: Word, flags: Word, ehsize: Half, phentsize: Half, phnum: Half, shentsize: Half, shnum: Half,
                           shstrndx: Half)
  {
    function Bytes(): (s: seq<Byte>)
      requires |ident| == 16
      ensures |s| == 52
    {
      ident + (Half2(kind) + (Half2(machine) + (Word4(version) + (Word4(entry) + (Word4(phoff) + (Word4(shoff)
      + (Word4(flags) + (Half2(ehsize) + (Half2(phentsize) + (Half2(phnum) + (Half2(shentsize) + (Half2(shnum)
      + Half2(shstrndx)))))))))))))
    }

    /** An executable of the present version for the 386 or 486, with all its program headers in the first 512 bytes. */
    predicate Bootable()
      requires |ident| == 16
    {
      && ident[0] == 0x7f && ident[1] == 'E' as int && ident[2] == 'L' as int && ident[3] == 'F' as int
      && ident[4] == 1 && ident[5] == 1 && ident[6] == 1
      && kind == 2 && (machine == 3 || machine == 6) && version == 1
      && phentsize == 32 && phoff + 32 * phnum <= 512
    }
  }

  /** A program header. */
  datatype Program = Program(kind: Word, offset: Word, vaddr: Word, paddr: Word, filesz: Word, memsz: Word, flags: Word,
                             align: Word)
  {
    function Bytes(): (s: seq<Byte>)
      ensures |s| == 32
    {
      Word4(kind) + (Word4(offset) + (Word4(vaddr) + (Word4(paddr) + (Word4(filesz) + (Word4(memsz) + (Word4(flags)
      + Word4(align)))))))
    }

    /** What the loader goes by: the physical address and not the virtual one. */
    function Seg(): Segment { Segment(kind, offset, paddr, filesz, memsz) }
  }

  function Programs(ps: seq<Program>): (s: seq<Byte>)
    ensures |s| == 32 * |ps|
  {
    if ps == [] then [] else ps[0].Bytes() + Programs(ps[1..])
  }

  function Segs(ps: seq<Program>): (s: seq<Segment>)
    ensures |s| == |ps|
  {
    seq(|ps|, i requires 0 <= i < |ps| => ps[i].Seg())
  }

  // ----- Reading numbers -----

  lemma HalfThere(h: seq<Byte>, i: nat, x: Half)
    requires i + 2 <= |h| && h[i..i + 2] == Half2(x)
    ensures HalfAt(h, i) == x
  {
    assert h[i] == h[i..i + 2][0] && h[i + 1] == h[i..i + 2][1];
  }

  lemma WordThere(h: seq<Byte>, i: nat, x: Word)
    requires i + 4 <= |h| && h[i..i + 4] == Word4(x)
    ensures WordAt(h, i) == x
  {
    assert h[i] == h[i..i + 4][0] && h[i + 1] == h[i..i + 4][1];
    assert h[i + 2] == h[i..i + 4][2] && h[i + 3] == h[i..i + 4][3];
    var a, b, c := x / 0x100, x / 0x1_0000, x / 0x100_0000;
    DivModNest(x, 0x100, 0x100);
    DivModNest(x, 0x1_0000, 0x100);
    assert x == 0x100 * a + x % 0x100 && a == 0x100 * b + a % 0x100 && b == 0x100 * c + b % 0x100;
  }

  /** The bytes from i on start with a, and then come those of b. */
  lemma Then(h: seq<Byte>, i: nat, a: seq<Byte>, b: seq<Byte>)
    requires i + |a + b| <= |h| && h[i..i + |a + b|] == a + b
    ensures h[i..i + |a|] == a && h[i + |a|..i + |a| + |b|] == b
  {
    assert h[i..i + |a|] == (a + b)[..|a|];
    assert h[i + |a|..i + |a| + |b|] == (a + b)[|a|..];
  }

  lemma NextHalf(h: seq<Byte>, i: nat, x: Half, rest: seq<Byte>)
    requires i + 2 + |rest| <= |h| && h[i..i + 2 + |rest|] == Half2(x) + rest
    ensures HalfAt(h, i) == x && h[i + 2..i + 2 + |rest|] == rest
  {
    Then(h, i, Half2(x), rest);
    HalfThere(h, i, x);
  }

  lemma NextWord(h: seq<Byte>, i: nat, x: Word, rest: seq<Byte>)
    requires i + 4 + |rest| <= |h| && h[i..i + 4 + |rest|] == Word4(x) + rest
    ensures WordAt(h, i) == x && h[i + 4..i + 4 + |rest|] == rest
  {
    Then(h, i, Word4(x), rest);
    WordThere(h, i, x);
  }

  /** The fields of the header stand where the loader looks for them. */
  lemma HeaderFields(h: seq<Byte>, e: Header)
    requires |e.ident| == 16 && |h| >= 52 && h[0..52] == e.Bytes()
    ensures h[..16] == e.ident && HalfAt(h, 16) == e.kind && HalfAt(h, 18) == e.machine && WordAt(h, 20) == e.version
    ensures WordAt(h, 24) == e.entry && WordAt(h, 28) == e.phoff && HalfAt(h, 42) == e.phentsize
    ensures HalfAt(h, 44) == e.phnum
  {
    hide HalfAt;
    hide WordAt;
    hide Half2;
    hide Word4;
    var s10 := Half2(e.shentsize) + (Half2(e.shnum) + Half2(e.shstrndx));
    var s9 := Half2(e.phnum) + s10;
    var s8 := Half2(e.phentsize) + s9;
    var s7 := Half2(e.ehsize) + s8;
    var s6 := Word4(e.flags) + s7;
    var s5 := Word4(e.shoff) + s6;
    var s4 := Word4(e.phoff) + s5;
    var s3 := Word4(e.entry) + s4;
    var s2 := Word4(e.version) + s3;
    var s1 := Half2(e.machine) + s2;
    Then(h, 0, e.ident, Half2(e.kind) + s1);
    NextHalf(h, 16, e.kind, s1);
    NextHalf(h, 18, e.machine, s2);
    NextWord(h, 20, e.version, s3);
    NextWord(h, 24, e.entry, s4);
    NextWord(h, 28, e.phoff, s5);
    NextWord(h, 32, e.shoff, s6);
    NextWord(h, 36, e.flags, s7);
    NextHalf(h, 40, e.ehsize, s8);
    NextHalf(h, 42, e.phentsize, s9);
    NextHalf(h, 44, e.phnum, s10);
  }

  /** The header is taken exactly when every one of the fields that are checked is as it should be. */
  lemma SaneExactly(h: seq<Byte>, e: Header)
    requires |h| == ELF_HEAD_SIZE && |e.ident| == 16 && h[0..52] == e.Bytes()
    ensures Sane(h) <==> e.Bootable()
    ensures Entry(h) == e.entry
  {
    hide HalfAt;
    hide WordAt;
    hide Header.Bytes;
    HeaderFields(h, e);
    assert forall i :: 0 <= i < 16 ==> h[i] == h[..16][i];
  }

  /** And the program headers are read back. */
  lemma ProgramFields(h: seq<Byte>, p: nat, g: Program)
    requires p + 32 <= |h| && h[p..p + 32] == g.Bytes()
    ensures SegmentAt(h, p) == g.Seg()
  {
    hide WordAt;
    hide Word4;
    var s6 := Word4(g.flags) + Word4(g.align);
    var s5 := Word4(g.memsz) + s6;
    var s4 := Word4(g.filesz) + s5;
    var s3 := Word4(g.paddr) + s4;
    var s2 := Word4(g.vaddr) + s3;
    var s1 := Word4(g.offset) + s2;
    NextWord(h, p, g.kind, s1);
    NextWord(h, p + 4, g.offset, s2);
    NextWord(h, p + 8, g.vaddr, s3);
    NextWord(h, p + 12, g.paddr, s4);
    NextWord(h, p + 16, g.filesz, s5);
    NextWord(h, p + 20, g.memsz, s6);
  }

  lemma {:induction false} ProgramsFields(h: seq<Byte>, p: nat, ps: seq<Program>)
    requires p + 32 * |ps| <= |h| && h[p..p + 32 * |ps|] == Programs(ps)
    ensures forall i :: 0 <= i < |ps| ==> SegmentAt(h, p + 32 * i) == ps[i].Seg()
    decreases |ps|
  {
    hide SegmentAt;
    hide Program.Bytes;
    if ps != [] {
      Then(h, p, ps[0].Bytes(), Programs(ps[1..]));
      ProgramFields(h, p, ps[0]);
      ProgramsFields(h, p + 32, ps[1..]);
      forall i | 0 <= i < |ps|
        ensures SegmentAt(h, p + 32 * i) == ps[i].Seg()
      {
        if i > 0 { assert p + 32 + 32 * (i - 1) == p + 32 * i && ps[1..][i - 1] == ps[i]; }
      }
    }
  }

  /**
   The first 512 bytes of a file with this header and these program headers; the bytes between and behind are free.
   */
  predicate Starts(h: seq<Byte>, e: Header, ps: seq<Program>)
  {
    && |h| == ELF_HEAD_SIZE && |e.ident| == 16 && h[0..52] == e.Bytes()
    && |ps| == e.phnum && e.Bootable() && h[e.phoff..e.phoff + 32 * |ps|] == Programs(ps)
  }

  /** They are taken, and read back. */
  lemma ReadBack(h: seq<Byte>, e: Header, ps: seq<Program>)
    requires Starts(h, e, ps)
    ensures Sane(h) && Table(h) == Segs(ps) && Entry(h) == e.entry
  {
    hide HalfAt;
    hide WordAt;
    hide SegmentAt;
    hide Header.Bytes;
    hide Programs;
    SaneExactly(h, e);
    HeaderFields(h, e);
    ProgramsFields(h, e.phoff, ps);
  }

  /**
   elfboot on a file whose segments are disjoint in file and memory and whose ends do not wrap, with none over the
   running program: it jumps to the entry point, with the bytes of every loadable segment at its physical address and
   zeros after them, and refuses if a segment does lie over it.
   */
  method LoadFile(st: Stream, mem: array<Byte>, bad: seq<Range>, ghost e: Header, ghost ps: seq<Program>)
    returns (r: Outcome)
    requires st.pos == 0 && mem.Length == W32 && Starts(Prefix(st.file, ELF_HEAD_SIZE), e, ps)
    requires Fits(Segs(ps)) && FileDisjoint(Segs(ps)) && MemoryDisjoint(Segs(ps))
    modifies st, mem
    ensures forall a :: 0 <= a < W32 && Reserved(bad, a) ==> mem[a] == old(mem[a])
    ensures if forall i :: 0 <= i < |ps| ==> Safe(bad, ps[i].paddr, ps[i].memsz)
            then r == Jump(e.entry) && forall k :: 0 <= k < |ps| ==> InMemory(ps[k], st.file, mem[..])
            else r == BadImage
  {
    hide Prefix;
    hide Reserved;
    hide Starts;
    hide Stored;
    hide SomeClears;
    hide Follows;
    hide After;
    hide Over;
    hide Fits;
    hide FileDisjoint;
    hide MemoryDisjoint;
    hide Accepts;
    hide Safe;
    hide Sane;
    hide Table;
    hide Undefined;
    ghost var h := Prefix(st.file, ELF_HEAD_SIZE);
    ghost var was := mem[..];
    ReadBack(h, e, ps);
    EndsIfFits(Segs(ps));
    ghost var order;
    r, order := ElfBoot.ElfBoot(st, mem, bad);
    RefusedExactly(h, bad, ps);
    if r.Jump? {
      forall k | 0 <= k < |ps|
        ensures InMemory(ps[k], st.file, mem[..])
      {
        if ps[k].kind == 1 && ps[k].filesz <= ps[k].memsz {
          EndInside(Segs(ps), k);
          forall a | ps[k].paddr <= a < ps[k].paddr + ps[k].memsz
            ensures mem[a] == if a - ps[k].paddr < ps[k].filesz then st.file(ps[k].offset + (a - ps[k].paddr)) else 0
          {
            ImageInMemory(Segs(ps), order, st.file, k, a, was[a]);
          }
        }
      }
    }
  }

  /** A loadable segment is there: its bytes of the file at its physical address, and zeros. */
  predicate InMemory(p: Program, file: File, m: seq<Byte>)
  {
    p.kind == 1 && p.filesz <= p.memsz ==>
      forall a :: p.paddr <= a < p.paddr + p.memsz ==>
        a < |m| && m[a] == if a - p.paddr < p.filesz then file(p.offset + (a - p.paddr)) else 0
  }

  lemma EndsIfFits(ph: seq<Segment>)
    requires Fits(ph)
    ensures Ends(ph)
  {
    hide Ends;
    EndsWithout(ph);
  }

  lemma EndInside(ph: seq<Segment>, k: nat)
    requires Fits(ph) && k < |ph|
    ensures ph[k].paddr + ph[k].memsz < W32
  {
  }

  lemma RefusedExactly(h: seq<Byte>, bad: seq<Range>, ps: seq<Program>)
    requires |h| == ELF_HEAD_SIZE && Sane(h) && Table(h) == Segs(ps) && Fits(Segs(ps))
    ensures Refused(h, bad) <==> !forall i :: 0 <= i < |ps| ==> Safe(bad, ps[i].paddr, ps[i].memsz)
  {
    hide Sane;
    hide Table;
    hide Accepts;
    hide Safe;
    forall i | 0 <= i < |ps|
      ensures Accepts(bad, ps[i].paddr, ps[i].memsz) == Safe(bad, ps[i].paddr, ps[i].memsz)
    {
      EndInside(Segs(ps), i);
      AcceptsIsSafe(bad, ps[i].paddr, ps[i].memsz);
    }
    assert forall i :: 0 <= i < |ps| ==> Segs(ps)[i].paddr == ps[i].paddr && Segs(ps)[i].memsz == ps[i].memsz;
  }
}
