/**
 The ELF loader of elfboot.c: a program is taken off a byte stream that only moves forward, with the first 512
 bytes kept in a buffer, and has to end up in memory as if the file could be read anywhere.
 */
module ElfBoot {
  import opened Bits
  import BitStream

  type Byte = BitStream.Byte

  const ELF_HEAD_SIZE := 512
  const PT_LOAD := 1

  type File = nat -> Byte

  /** The stream behind get_byte. */
  class Stream {
    const file: File
    var pos: nat

    constructor (f: File)
      ensures file == f && pos == 0
    {
      file := f;
      pos := 0;
    }

    method GetByte() returns (b: Byte)
      modifies this
      ensures b == file(old(pos)) && pos == old(pos) + 1
    {
      b := file(pos);
      pos := pos + 1;
    }
  }

  // ----- The headers -----

  /** The fields of a program header that the loader uses. */
  datatype Segment = Segment(kind: Word, offset: Word, paddr: Word, filesz: Word, memsz: Word)
  {
    /** The loader takes it from the file. */
    predicate Loads()
    {
      kind == PT_LOAD && filesz != 0 && filesz <= memsz
    }

    /** a is one of its file bytes in memory. */
    predicate Holds(a: nat)
    {
      paddr <= a < paddr + filesz
    }

    /** a is one of the bytes after them. */
    predicate Pads(a: nat)
    {
      paddr + filesz <= a < paddr + memsz
    }
  }

  function HalfAt(h: seq<Byte>, i: nat): (x: nat)
    requires i + 2 <= |h|
    ensures x < 0x1_0000
  {
    (h[i] as int) + 0x100 * (h[i + 1] as int)
  }

  function WordAt(h: seq<Byte>, i: nat): (x: nat)
    requires i + 4 <= |h|
    ensures x < W32
  {
    HalfAt(h, i) + 0x1_0000 * HalfAt(h, i + 2)
  }

  function Entry(h: seq<Byte>): nat
    requires |h| == ELF_HEAD_SIZE
  {
    WordAt(h, 24)
  }

  /** The sanity checks on the ELF header: a 32-bit little-endian executable for the 386 whose table is in the
      buffer. */
  predicate Sane(h: seq<Byte>)
    requires |h| == ELF_HEAD_SIZE
  {
    && h[0] == 0x7f && h[1] == 0x45 && h[2] == 0x4c && h[3] == 0x46
    && HalfAt(h, 16) == 2
    && (HalfAt(h, 18) == 3 || HalfAt(h, 18) == 6) && h[4] == 1 && h[5] == 1
    && h[6] == 1 && WordAt(h, 20) == 1
    && WordAt(h, 28) <= ELF_HEAD_SIZE && HalfAt(h, 42) == 32 && WordAt(h, 28) + 32 * HalfAt(h, 44) <= ELF_HEAD_SIZE
  }

  function Table(h: seq<Byte>): seq<Segment>
    requires |h| == ELF_HEAD_SIZE && Sane(h)
  {
    seq(HalfAt(h, 44), i requires 0 <= i < HalfAt(h, 44) => SegmentAt(h, WordAt(h, 28) + 32 * i))
  }

  function SegmentAt(h: seq<Byte>, p: nat): Segment
    requires p + 32 <= |h|
  {
    Segment(WordAt(h, p), WordAt(h, p + 4), WordAt(h, p + 12), WordAt(h, p + 16), WordAt(h, p + 20))
  }

  /** The first n bytes of a file. */
  function Prefix(file: File, n: nat): (s: seq<Byte>)
    ensures |s| == n
  {
    seq(n, i requires 0 <= i < n => file(i))
  }

  /** The sum of two unsigned longs. */
  function Sum32(a: Word, b: Word): Word
  {
    (a + b) % W32
  }

  /** How far one address is behind another, going round. */
  function Ahead(a: Word, b: Word): Word
  {
    if a >= b then a - b else a + W32 - b
  }

  /** No end of an address range, or of a range of the file, is 2^32 or more. */
  predicate Fits(ph: seq<Segment>)
  {
    && NoWrap(ph)
    && forall i :: 0 <= i < |ph| ==> ph[i].paddr + ph[i].memsz < W32 && ph[i].paddr + ph[i].filesz < W32
  }

  predicate NoWrap(ph: seq<Segment>)
  {
    forall i :: 0 <= i < |ph| && ph[i].Loads() ==> ph[i].offset + ph[i].filesz < W32
  }

  // ----- Safe ranges -----

  datatype Range = Range(start: Word, end: Word)

  /** a belongs to the running program. */
  predicate Reserved(bad: seq<Range>, a: nat)
  {
    exists i :: 0 <= i < |bad| && bad[i].start <= a < bad[i].end
  }

  predicate Overlaps(r: Range, start: nat, len: nat)
  {
    start < r.end && start + len > r.start
  }

  predicate Safe(bad: seq<Range>, start: nat, len: nat)
  {
    forall i :: 0 <= i < |bad| ==> !Overlaps(bad[i], start, len)
  }

  /** What safe_range compares: the end wraps at 2^32. */
  predicate Accepts(bad: seq<Range>, start: Word, len: Word)
  {
    forall i :: 0 <= i < |bad| ==> !(start < bad[i].end && Sum32(start, len) > bad[i].start)
  }

  /** safe_range */
  method SafeRange(bad: seq<Range>, start: Word, len: Word) returns (ok: bool)
    ensures ok == Accepts(bad, start, len)
    ensures start + len < W32 ==> ok == Safe(bad, start, len)
  {
    var end := Sum32(start, len);
    var i := 0;
    if start + len < W32 { AcceptsIsSafe(bad, start, len); }
    while i < |bad|
      invariant 0 <= i <= |bad|
      invariant forall j :: 0 <= j < i ==> !(start < bad[j].end && end > bad[j].start)
    {
      if start < bad[i].end && end > bad[i].start {
        return false;
      }
      i := i + 1;
    }
    ok := true;
  }

  lemma AcceptsIsSafe(bad: seq<Range>, start: Word, len: Word)
    requires start + len < W32
    ensures Accepts(bad, start, len) == Safe(bad, start, len)
  {
    assert Sum32(start, len) == start + len;
    assert forall i :: 0 <= i < |bad| ==>
        Overlaps(bad[i], start, len) == (start < bad[i].end && start + len > bad[i].start);
  }

  /**
   safe_range keeps every reserved range safe if and only if the end of the range asked about does not wrap; a range
   that starts at the last address is the one exception, as no reserved range has a byte there.
   */
  lemma SafeRangeExact(start: Word, len: Word)
    ensures (forall bad: seq<Range> :: Accepts(bad, start, len) ==> Safe(bad, start, len))
            <==> start + len < W32 || start == W32 - 1
  {
    if start + len < W32 {
      forall bad: seq<Range>
        ensures Accepts(bad, start, len) == Safe(bad, start, len)
      {
        AcceptsIsSafe(bad, start, len);
      }
    } else if start == W32 - 1 {
    } else {
      var bad := [Range(start, start + 1)];
      WrappedEnd(start, len);
      assert Overlaps(bad[0], start, len);
      assert Accepts(bad, start, len) && !Safe(bad, start, len);
    }
  }

  lemma WrappedEnd(start: Word, len: Word)
    requires start + len >= W32
    ensures Sum32(start, len) == start + len - W32 < start
  {
  }

  /** A range safe_range accepts has no byte of the running program. */
  lemma SafeBytes(bad: seq<Range>, start: nat, len: nat, a: nat)
    requires Safe(bad, start, len) && start <= a < start + len
    ensures !Reserved(bad, a)
  {
    forall i | 0 <= i < |bad|
      ensures !(bad[i].start <= a < bad[i].end)
    {
      assert !Overlaps(bad[i], start, len);
    }
  }

  /** A range up to the very end of memory is accepted though it lies on a reserved one. */
  lemma OverlapAccepted()
    ensures var bad := [Range(0xffff_0000, 0xffff_1000)];
            Accepts(bad, 0xffff_0000, 0x1_0000) && !Safe(bad, 0xffff_0000, 0x1_0000)
  {
    var bad := [Range(0xffff_0000, 0xffff_1000)];
    assert Overlaps(bad[0], 0xffff_0000, 0x1_0000);
  }

  // ----- Zeroing -----

  /** The loop that zeroes the padding of p writes a. Its ends wrap. */
  predicate Clears(p: Segment, a: nat)
  {
    Sum32(p.paddr, p.filesz) <= a < Sum32(p.paddr, p.memsz)
  }

  predicate SomeClears(ph: seq<Segment>, a: nat)
  {
    exists i :: 0 <= i < |ph| && Clears(ph[i], a)
  }

  /** What zeroing the padding of some segments leaves at a. */
  function Cleared(ph: seq<Segment>, a: nat, before: Byte): Byte
  {
    if SomeClears(ph, a) then 0 else before
  }

  /** How many segments are found safe before one is not. */
  function Checked(ph: seq<Segment>, bad: seq<Range>): (n: nat)
    ensures n <= |ph| && (forall i :: 0 <= i < n ==> Accepts(bad, ph[i].paddr, ph[i].memsz))
    ensures n < |ph| ==> !Accepts(bad, ph[n].paddr, ph[n].memsz)
  {
    CheckedFrom(ph, bad, 0)
  }

  function CheckedFrom(ph: seq<Segment>, bad: seq<Range>, i: nat): (n: nat)
    requires i <= |ph|
    ensures i <= n <= |ph| && (forall j :: i <= j < n ==> Accepts(bad, ph[j].paddr, ph[j].memsz))
    ensures n < |ph| ==> !Accepts(bad, ph[n].paddr, ph[n].memsz)
    decreases |ph| - i
  {
    if i == |ph| || !Accepts(bad, ph[i].paddr, ph[i].memsz) then i else CheckedFrom(ph, bad, i + 1)
  }

  /** The loop that zeroes from one address up to another. */
  method ZeroRange(mem: array<Byte>, from: Word, end: Word)
    requires mem.Length == W32
    modifies mem
    ensures forall a :: 0 <= a < W32 ==> mem[a] == if from <= a < end then 0 else old(mem[a])
  {
    var dest := from;
    while dest < end
      invariant from <= dest && (dest <= end || dest == from)
      invariant forall a :: 0 <= a < W32 ==> mem[a] == if from <= a < dest then 0 else old(mem[a])
    {
      mem[dest] := 0;
      dest := dest + 1;
    }
  }

  /** It zeroes exactly the padding if and only if the end of the file bytes does not wrap. */
  lemma ZeroExact(p: Segment)
    requires p.paddr + p.memsz < W32
    ensures (forall a: nat :: Clears(p, a) <==> p.Pads(a)) <==> p.paddr + p.filesz < W32
  {
    if p.paddr + p.filesz >= W32 {
      WrappedEnd(p.paddr, p.filesz);
      var a := Sum32(p.paddr, p.filesz);
      assert !p.Pads(a) && Clears(p, a);
    }
  }

  /** The first loop over the program headers: check each range, then zero what the file does not fill. */
  method CheckAndZero(mem: array<Byte>, ph: seq<Segment>, bad: seq<Range>) returns (ok: bool)
    requires mem.Length == W32
    modifies mem
    ensures ok == forall i :: 0 <= i < |ph| ==> Accepts(bad, ph[i].paddr, ph[i].memsz)
    ensures forall a :: 0 <= a < W32 ==> mem[a] == Cleared(ph[..Checked(ph, bad)], a, old(mem[a]))
    ensures Fits(ph) ==> forall a :: 0 <= a < W32 && Reserved(bad, a) ==> mem[a] == old(mem[a])
  {
    hide Reserved;
    hide Accepts;
    hide Fits;
    var i := 0;
    while i < |ph|
      invariant 0 <= i <= |ph|
      invariant forall j :: 0 <= j < i ==> Accepts(bad, ph[j].paddr, ph[j].memsz)
      invariant forall a :: 0 <= a < W32 ==> mem[a] == Cleared(ph[..i], a, old(mem[a]))
    {
      ok := SafeRange(bad, ph[i].paddr, ph[i].memsz);
      if !ok { break; }
      ghost var now := mem[..];
      ZeroRange(mem, Sum32(ph[i].paddr, ph[i].filesz), Sum32(ph[i].paddr, ph[i].memsz));
      forall a | 0 <= a < W32
        ensures mem[a] == Cleared(ph[..i + 1], a, old(mem[a]))
      {
        assert mem[a] == if Clears(ph[i], a) then 0 else now[a];
        ClearsNext(ph, i, a);
      }
      i := i + 1;
    }
    ok := i == |ph|;
    assert i == Checked(ph, bad);
    if Fits(ph) {
      forall a | 0 <= a < W32 && Reserved(bad, a)
        ensures Cleared(ph[..i], a, old(mem[a])) == old(mem[a])
      {
        ClearsSafe(ph, bad, a, i);
      }
    }
  }

  lemma ClearsNext(ph: seq<Segment>, i: nat, a: nat)
    requires i < |ph|
    ensures SomeClears(ph[..i + 1], a) == (SomeClears(ph[..i], a) || Clears(ph[i], a))
  {
    if SomeClears(ph[..i], a) {
      var j :| 0 <= j < i && Clears(ph[..i][j], a);
      assert Clears(ph[..i + 1][j], a);
    }
    if Clears(ph[i], a) { assert Clears(ph[..i + 1][i], a); }
    if SomeClears(ph[..i + 1], a) {
      var j :| 0 <= j < i + 1 && Clears(ph[..i + 1][j], a);
      if j < i { assert Clears(ph[..i][j], a); }
    }
  }

  /** Zeroing spares the running program as long as no end wraps. */
  lemma ClearsSafe(ph: seq<Segment>, bad: seq<Range>, a: nat, n: nat)
    requires Fits(ph) && Reserved(bad, a) && n <= |ph|
    requires forall i :: 0 <= i < n ==> Accepts(bad, ph[i].paddr, ph[i].memsz)
    ensures !SomeClears(ph[..n], a)
  {
    hide Reserved;
    hide Accepts;
    if SomeClears(ph[..n], a) {
      var i :| 0 <= i < n && Clears(ph[..n][i], a);
      AcceptsIsSafe(bad, ph[i].paddr, ph[i].memsz);
      SafeBytes(bad, ph[i].paddr, ph[i].memsz, a);
    }
  }

  // ----- Loading -----

  /** The first segment of those with the least offset not below the present one. */
  predicate Picks(ph: seq<Segment>, offset: Word, cur: nat)
  {
    && cur < |ph| && ph[cur].Loads() && offset <= ph[cur].offset
    && forall i :: 0 <= i < |ph| && ph[i].Loads() && offset <= ph[i].offset ==>
         ph[cur].offset < ph[i].offset || (ph[cur].offset == ph[i].offset && cur <= i)
  }

  predicate Over(ph: seq<Segment>, offset: Word)
  {
    forall i :: 0 <= i < |ph| && ph[i].Loads() ==> ph[i].offset < offset
  }

  /** The index of the next segment to take off the stream, or -1. */
  method Select(ph: seq<Segment>, offset: Word) returns (cur: int)
    ensures cur == -1 || 0 <= cur
    ensures cur == -1 <==> Over(ph, offset)
    ensures cur >= 0 ==> Picks(ph, offset, cur)
  {
    cur := -1;
    var i := 0;
    while i < |ph|
      invariant 0 <= i <= |ph| && -1 <= cur < i
      invariant cur == -1 <==> forall j :: 0 <= j < i && ph[j].Loads() ==> ph[j].offset < offset
      invariant cur >= 0 ==>
                  && ph[cur].Loads() && offset <= ph[cur].offset
                  && forall j :: 0 <= j < i && ph[j].Loads() && offset <= ph[j].offset ==>
                       ph[cur].offset < ph[j].offset || (ph[cur].offset == ph[j].offset && cur <= j)
    {
      if ph[i].kind == PT_LOAD && ph[i].filesz != 0 && ph[i].filesz <= ph[i].memsz {
        if ph[i].offset >= offset {
          if cur == -1 || ph[cur].offset > ph[i].offset {
            cur := i;
          }
        }
      }
      i := i + 1;
    }
  }

  function Max(a: nat, b: nat): nat { if a < b then b else a }

  /** Where the loader stands: the offset it counts, and how many bytes were taken off the stream. */
  datatype Place = Place(offset: Word, pos: nat)
  {
    predicate InStep() { pos == Max(ELF_HEAD_SIZE, offset) }
  }

  const START := Place(0, ELF_HEAD_SIZE)

  /** How many bytes of a segment are copied from the buffer. */
  function Buffered(p: Segment): Word
  {
    if p.offset >= ELF_HEAD_SIZE then 0
    else if Sum32(p.filesz, p.offset) > ELF_HEAD_SIZE then ELF_HEAD_SIZE - p.offset
    else p.filesz
  }

  /** The copy reads past the buffer, which C leaves undefined. */
  predicate Overruns(p: Segment)
  {
    p.offset < ELF_HEAD_SIZE && p.offset + Buffered(p) > ELF_HEAD_SIZE
  }

  /** The address after the bytes from the buffer, and the one after all file bytes. */
  function Behind(p: Segment): Word
  {
    Sum32(p.paddr, Buffered(p))
  }

  function Middle(p: Segment): Word
  {
    Sum32(p.paddr, p.filesz)
  }

  /** The stream position once the bytes before the segment are skipped. */
  function Reached(at: Place, p: Segment): nat
  {
    at.pos + if at.offset < p.offset then Max(ELF_HEAD_SIZE, p.offset) - Max(ELF_HEAD_SIZE, at.offset) else 0
  }

  /** One round of the loader moves it. */
  function Advance(at: Place, p: Segment): Place
  {
    Place(Sum32(p.offset, p.filesz), Reached(at, p) + if Behind(p) < Middle(p) then Middle(p) - Behind(p) else 0)
  }

  /** And leaves this at a. */
  function Puts(at: Place, p: Segment, file: File, a: Word, before: Byte): Byte
  {
    if Behind(p) <= a < Middle(p) then file(Reached(at, p) + (a - Behind(p)))
    else if Ahead(a, p.paddr) < Buffered(p) then file(p.offset + Ahead(a, p.paddr))
    else before
  }

  /** Skipping, copying from the buffer, and reading one segment. */
  method LoadSegment(st: Stream, mem: array<Byte>, header: seq<Byte>, p: Segment, offset0: Word)
    returns (offset: Word, undefined: bool)
    requires header == Prefix(st.file, ELF_HEAD_SIZE) && mem.Length == W32 && p.Loads() && offset0 <= p.offset
    modifies st, mem
    ensures undefined == Overruns(p)
    ensures !undefined ==> Place(offset, st.pos) == Advance(Place(offset0, old(st.pos)), p)
    ensures !undefined ==> forall a :: 0 <= a < W32 ==>
              mem[a] == Puts(Place(offset0, old(st.pos)), p, st.file, a, old(mem[a]))
  {
    hide Prefix;
    hide Sum32;
    hide Ahead;
    offset, undefined := offset0, false;
    var len := p.filesz;
    if len > p.memsz {
      len := p.memsz;
    }
    var middle := Sum32(p.paddr, len);
    if offset < ELF_HEAD_SIZE {
      if p.offset < ELF_HEAD_SIZE {
        offset := p.offset;
      } else {
        offset := ELF_HEAD_SIZE;
      }
    }
    offset := SkipTo(st, offset, p.offset);
    var dest := p.paddr;
    if offset < ELF_HEAD_SIZE {
      BufferIsFile(st.file, header);
      dest, undefined := CopyBuffered(mem, header, p);
      if undefined { return; }
    } else {
      NothingBuffered(p);
    }
    ReadBytes(st, mem, dest, middle);
    offset := Sum32(offset, p.filesz);
  }

  lemma BufferIsFile(file: File, header: seq<Byte>)
    requires header == Prefix(file, ELF_HEAD_SIZE)
    ensures |header| == ELF_HEAD_SIZE && forall i :: 0 <= i < ELF_HEAD_SIZE ==> header[i] == file(i)
  {
  }

  lemma NothingBuffered(p: Segment)
    requires p.offset >= ELF_HEAD_SIZE
    ensures Behind(p) == p.paddr && Buffered(p) == 0
  {
  }

  /** The bytes of the stream before the segment are dropped. */
  method SkipTo(st: Stream, offset0: Word, start: Word) returns (offset: Word)
    requires offset0 <= start
    modifies st
    ensures offset == start && st.pos == old(st.pos) + (start - offset0)
  {
    offset := offset0;
    while offset < start
      invariant offset <= start && st.pos == old(st.pos) + (offset - offset0)
    {
      offset := offset + 1;
      var skipped := st.GetByte();
    }
  }

  /** The part of the segment that is in the buffer. */
  method CopyBuffered(mem: array<Byte>, header: seq<Byte>, p: Segment) returns (dest: Word, undefined: bool)
    requires |header| == ELF_HEAD_SIZE && p.offset < ELF_HEAD_SIZE && mem.Length == W32
    modifies mem
    ensures undefined == Overruns(p)
    ensures !undefined ==> dest == Behind(p) && forall a :: 0 <= a < W32 ==>
              mem[a] == if Ahead(a, p.paddr) < Buffered(p) then header[p.offset + Ahead(a, p.paddr)] else old(mem[a])
  {
    hide Ahead;
    var n := if Sum32(p.filesz, p.offset) > ELF_HEAD_SIZE then ELF_HEAD_SIZE - p.offset else p.filesz;
    dest := Sum32(p.paddr, n);
    undefined := p.offset + n > ELF_HEAD_SIZE;
    if !undefined { MemCpy(mem, p.paddr, header, p.offset, n); }
  }

  /** The rest of the segment comes off the stream. */
  method ReadBytes(st: Stream, mem: array<Byte>, dest0: Word, middle: Word)
    requires mem.Length == W32
    modifies st, mem
    ensures st.pos == old(st.pos) + if dest0 < middle then middle - dest0 else 0
    ensures forall a :: 0 <= a < W32 ==>
              mem[a] == if dest0 <= a < middle then st.file(old(st.pos) + (a - dest0)) else old(mem[a])
  {
    var dest := dest0;
    while dest < middle
      invariant dest0 <= dest && (dest <= middle || dest == dest0) && st.pos == old(st.pos) + (dest - dest0)
      invariant forall a :: 0 <= a < W32 ==>
                  mem[a] == if dest0 <= a < dest then st.file(old(st.pos) + (a - dest0)) else old(mem[a])
    {
      mem[dest] := st.GetByte();
      dest := dest + 1;
    }
  }

  method MemCpy(mem: array<Byte>, dest: Word, header: seq<Byte>, from: nat, n: nat)
    requires from + n <= |header| <= ELF_HEAD_SIZE && mem.Length == W32
    modifies mem
    ensures forall a :: 0 <= a < W32 ==>
              mem[a] == if Ahead(a, dest) < n then header[from + Ahead(a, dest)] else old(mem[a])
  {
    var i := 0;
    while i < n
      invariant 0 <= i <= n
      invariant forall a :: 0 <= a < W32 ==>
                  mem[a] == if Ahead(a, dest) < i then header[from + Ahead(a, dest)] else old(mem[a])
    {
      OneAhead(dest, i);
      mem[Sum32(dest, i)] := header[from + i];
      i := i + 1;
    }
  }

  lemma OneAhead(dest: Word, i: Word)
    ensures forall a: Word :: Ahead(a, dest) == i <==> a == Sum32(dest, i)
  {
    assert Sum32(dest, i) == if dest + i < W32 then dest + i else dest + i - W32;
  }

  // ----- All segments -----

  predicate Indices(ph: seq<Segment>, order: seq<nat>)
  {
    forall i :: 0 <= i < |order| ==> order[i] < |ph|
  }

  /** The loader after some segments. */
  function After(ph: seq<Segment>, order: seq<nat>): Place
    requires Indices(ph, order)
  {
    if order == [] then START else Advance(After(ph, order[..|order| - 1]), ph[order[|order| - 1]])
  }

  /** What they leave at a. */
  function Stored(ph: seq<Segment>, order: seq<nat>, file: File, a: Word, before: Byte): Byte
    requires Indices(ph, order)
  {
    if order == [] then before
    else
      var init := order[..|order| - 1];
      Puts(After(ph, init), ph[order[|order| - 1]], file, a, Stored(ph, init, file, a, before))
  }

  lemma TakenNext(ph: seq<Segment>, order: seq<nat>, cur: nat)
    requires Indices(ph, order) && cur < |ph|
    ensures Indices(ph, order + [cur]) && After(ph, order + [cur]) == Advance(After(ph, order), ph[cur])
    ensures forall file: File, a: Word, before: Byte ::
              Stored(ph, order + [cur], file, a, before)
              == Puts(After(ph, order), ph[cur], file, a, Stored(ph, order, file, a, before))
  {
    assert (order + [cur])[..|order|] == order;
  }

  /** The segments that the loop takes from the start, in this order. */
  predicate Follows(ph: seq<Segment>, order: seq<nat>)
  {
    && Indices(ph, order)
    && forall i :: 0 <= i < |order| ==> Picks(ph, After(ph, order[..i]).offset, order[i])
  }

  lemma FollowsNext(ph: seq<Segment>, order: seq<nat>, cur: nat)
    requires Follows(ph, order) && Picks(ph, After(ph, order).offset, cur)
    ensures Follows(ph, order + [cur])
  {
    assert cur < |ph|;
    assert Indices(ph, order + [cur]);
    hide Picks;
    hide After;
    var order' := order + [cur];
    forall i | 0 <= i < |order'|
      ensures Picks(ph, After(ph, order'[..i]).offset, order'[i])
    {
      assert order'[..i] == order[..i];
      if i < |order| { assert order'[i] == order[i]; } else { assert order[..i] == order; }
    }
  }

  /** The loop ends, leaving aside that it may run into something undefined. */
  ghost predicate Ends(ph: seq<Segment>)
  {
    exists order: seq<nat> :: Follows(ph, order) && Over(ph, After(ph, order).offset)
  }

  /** The second loop: segment by segment in the order of the file. */
  method LoadAll(st: Stream, mem: array<Byte>, header: seq<Byte>, ph: seq<Segment>)
    returns (ghost order: seq<nat>, undefined: bool)
    requires header == Prefix(st.file, ELF_HEAD_SIZE) && st.pos == ELF_HEAD_SIZE && mem.Length == W32
    requires Ends(ph)
    modifies st, mem
    ensures Follows(ph, order)
    ensures !undefined ==> Over(ph, After(ph, order).offset) && st.pos == After(ph, order).pos
    ensures !undefined ==> forall a :: 0 <= a < W32 ==> mem[a] == Stored(ph, order, st.file, a, old(mem[a]))
    ensures undefined ==> Undefined(ph, order)
  {
    hide Prefix;
    hide Over;
    hide Picks;
    hide Advance;
    hide Puts;
    hide Stored;
    hide Overruns;
    var offset: Word := 0;
    order, undefined := [], false;
    ghost var all: seq<nat> :| Follows(ph, all) && Over(ph, After(ph, all).offset);
    StoredNothing(ph);
    while true
      invariant Follows(ph, order) && After(ph, order) == Place(offset, st.pos)
      invariant |order| <= |all| && order == all[..|order|]
      invariant forall a :: 0 <= a < W32 ==> mem[a] == Stored(ph, order, st.file, a, old(mem[a]))
      decreases |all| - |order|
    {
      hide Follows;
      hide After;
      var cur := Select(ph, offset);
      if cur == -1 {
        break;
      }
      NextTaken(ph, all, |order|, cur);
      FollowsNext(ph, order, cur);
      TakenNext(ph, order, cur);
      offset, undefined := LoadSegment(st, mem, header, ph[cur], offset);
      if undefined { break; }
      order := order + [cur];
    }
  }

  /** The next segment to take is copied from past the end of the buffer. */
  ghost predicate Undefined(ph: seq<Segment>, order: seq<nat>)
    requires Indices(ph, order)
  {
    exists cur: nat :: Picks(ph, After(ph, order).offset, cur) && Overruns(ph[cur])
  }

  lemma StoredNothing(ph: seq<Segment>)
    ensures Follows(ph, []) && After(ph, []) == START
    ensures forall file: File, a: Word, before: Byte :: Stored(ph, [], file, a, before) == before
  {
  }

  /** The loop has only one way to go. */
  lemma NextTaken(ph: seq<Segment>, all: seq<nat>, i: nat, cur: nat)
    requires Follows(ph, all) && Over(ph, After(ph, all).offset) && i <= |all|
    requires Picks(ph, After(ph, all[..i]).offset, cur)
    ensures i < |all| && all[i] == cur && all[..i] + [cur] == all[..i + 1]
  {
    hide After;
    assert all[..|all|] == all;
  }

  /** What the loader ends with: a jump to the entry point, or the message about a bad image. */
  datatype Outcome = Jump(entry: nat) | BadImage | NoMeaning

  /** The image is refused exactly for a bad ELF header or a segment that is not found safe. */
  predicate Refused(h: seq<Byte>, bad: seq<Range>)
    requires |h| == ELF_HEAD_SIZE
  {
    !Sane(h) || Checked(Table(h), bad) < |Table(h)|
  }

  /** elfboot */
  method ElfBoot(st: Stream, mem: array<Byte>, bad: seq<Range>) returns (r: Outcome, ghost order: seq<nat>)
    requires st.pos == 0 && mem.Length == W32
    requires var h := Prefix(st.file, ELF_HEAD_SIZE); Refused(h, bad) || Ends(Table(h))
    modifies st, mem
    ensures r.BadImage? <==> Refused(Prefix(st.file, ELF_HEAD_SIZE), bad)
    ensures !Sane(Prefix(st.file, ELF_HEAD_SIZE)) ==> forall a :: 0 <= a < W32 ==> mem[a] == old(mem[a])
    ensures Sane(Prefix(st.file, ELF_HEAD_SIZE)) ==>
              var ph := Table(Prefix(st.file, ELF_HEAD_SIZE));
              && (r.BadImage? ==>
                    forall a :: 0 <= a < W32 ==> mem[a] == Cleared(ph[..Checked(ph, bad)], a, old(mem[a])))
              && (!r.BadImage? ==> Follows(ph, order))
              && (r.NoMeaning? ==> Undefined(ph, order))
              && (r.Jump? ==>
                    && r.entry == Entry(Prefix(st.file, ELF_HEAD_SIZE))
                    && Over(ph, After(ph, order).offset) && st.pos == After(ph, order).pos
                    && forall a :: 0 <= a < W32 ==>
                         mem[a] == Stored(ph, order, st.file, a, Cleared(ph, a, old(mem[a]))))
              && (Fits(ph) ==>
                    && !r.NoMeaning?
                    && forall a :: 0 <= a < W32 && Reserved(bad, a) ==> mem[a] == old(mem[a]))
  {
    hide Reserved;
    hide Accepts;
    hide Stored;
    hide SomeClears;
    hide Over;
    hide After;
    hide Follows;
    hide Fits;
    hide Undefined;
    hide Prefix;
    var header := ReadHeader(st);
    order := [];
    if !Sane(header) {
      return BadImage, [];
    }
    hide Sane;
    var ph := Table(header);
    hide Table;
    var ok := CheckAndZero(mem, ph, bad);
    assert ok <==> Checked(ph, bad) == |ph|;
    if !ok {
      return BadImage, [];
    }
    assert ph[..|ph|] == ph;
    ghost var zeroed := mem[..];
    var undefined;
    order, undefined := LoadAll(st, mem, header, ph);
    if Fits(ph) { Meaningful(ph, bad, order); }
    if undefined {
      r := NoMeaning;
    } else {
      r := Jump(Entry(header));
    }
  }

  /** As long as no end wraps the loader keeps to its buffer and off the running program. */
  lemma Meaningful(ph: seq<Segment>, bad: seq<Range>, order: seq<nat>)
    requires Fits(ph) && Follows(ph, order)
    requires forall i :: 0 <= i < |ph| ==> Accepts(bad, ph[i].paddr, ph[i].memsz)
    ensures !Undefined(ph, order)
    ensures forall file: File, a: Word, before: Byte ::
              Reserved(bad, a) ==> Stored(ph, order, file, a, before) == before
  {
    hide Accepts;
    hide Reserved;
    hide Stored;
    hide After;
    forall file: File, a: Word, before: Byte | Reserved(bad, a)
      ensures Stored(ph, order, file, a, before) == before
    {
      StoredSafe(ph, bad, order, file, a, before);
    }
  }

  lemma {:induction false} StoredSafe(ph: seq<Segment>, bad: seq<Range>, order: seq<nat>, file: File, a: Word,
        before: Byte)
    requires Fits(ph) && Follows(ph, order) && Reserved(bad, a)
    requires forall i :: 0 <= i < |ph| ==> Accepts(bad, ph[i].paddr, ph[i].memsz)
    ensures Stored(ph, order, file, a, before) == before
  {
    hide Accepts;
    hide Reserved;
    hide Puts;
    if order != [] {
      var init, last := order[..|order| - 1], order[|order| - 1];
      FollowsInit(ph, order);
      StoredSafe(ph, bad, init, file, a, before);
      AcceptsIsSafe(bad, ph[last].paddr, ph[last].memsz);
      if ph[last].Holds(a) { SafeBytes(bad, ph[last].paddr, ph[last].memsz, a); }
      PutsWithin(After(ph, init), ph[last], file, a, before);
    }
  }

  lemma FollowsInit(ph: seq<Segment>, order: seq<nat>)
    requires Follows(ph, order) && order != []
    ensures Follows(ph, order[..|order| - 1])
    ensures Picks(ph, After(ph, order[..|order| - 1]).offset, order[|order| - 1])
  {
    hide Picks;
    hide After;
    var init := order[..|order| - 1];
    forall i | 0 <= i < |init|
      ensures Picks(ph, After(ph, init[..i]).offset, init[i])
    {
      assert init[..i] == order[..i];
    }
  }

  lemma PutsWithin(at: Place, p: Segment, file: File, a: Word, before: Byte)
    requires p.paddr + p.filesz < W32 && !p.Holds(a)
    ensures Puts(at, p, file, a, before) == before
  {
    BufferedBound(p);
  }

  lemma BufferedBound(p: Segment)
    ensures Buffered(p) <= p.filesz
    ensures p.paddr + p.filesz < W32 ==> Behind(p) == p.paddr + Buffered(p) && Middle(p) == p.paddr + p.filesz
  {
    var s := Sum32(p.filesz, p.offset);
    assert s <= p.filesz + p.offset;
  }

  method ReadHeader(st: Stream) returns (header: seq<Byte>)
    requires st.pos == 0
    modifies st
    ensures header == Prefix(st.file, ELF_HEAD_SIZE) && st.pos == ELF_HEAD_SIZE
  {
    header := [];
    var offset := 0;
    while offset < ELF_HEAD_SIZE
      invariant 0 <= offset <= ELF_HEAD_SIZE && st.pos == offset && header == Prefix(st.file, offset)
    {
      var b := st.GetByte();
      header := header + [b];
      offset := offset + 1;
    }
  }
}
