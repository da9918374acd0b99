/**
 Where accesses to I/O and memory addresses go in a bus tree: which registers and which bridges claim them, under the
 present contents of base address, window and command registers.
 */
module PciDecode {
  import opened Bits
  import opened PciAddress
  import opened PciBusNumbers
  import opened PciTopology
  import opened PciMachine
  import opened PciLayout

  // ----- One base address register -----

  /** The address bits a register compares: those it has; for I/O the upper half even if it has none there. */
  function Compared(c: Cell): nat
  {
    if c.fixed % 2 == 1 then Or(c.mask, 0xffff_0000) else c.mask
  }

  /** Whether a register claims an address when x was written to it last. */
  predicate Answers(c: Cell, x: Word, a: Word)
  {
    And(a, Compared(c)) == And(x, c.mask)
  }

  /** Masks of ones from bit k up, perhaps only below bit 16. */
  lemma MaskHigh(x: Word, p: nat, k: nat)
    requires p == Pow2(k) && k <= 31
    ensures p < W32 && (k <= 16 ==> p <= 0x1_0000)
    ensures And(x, W32 - p) == x - x % p
    ensures k <= 16 ==> And(x, 0x1_0000 - p) == x % 0x1_0000 - x % p
  {
    hide And;
    hide Pow2;
    Pow2Word();
    Pow2Mono(k, 31);
    Pow2Mono(31, 32);
    AndComplement(x, p - 1, 32);
    AndMask(x, k);
    if k <= 16 {
      Pow2Mono(k, 16);
      AndLow(x, 0x1_0000 - p, 16);
      AndComplement(x % 0x1_0000, p - 1, 16);
      AndMask(x % 0x1_0000, k);
      PowerMultiple(16, k);
      LowRemainder(x, p);
    }
  }

  lemma LowRemainder(x: nat, p: nat)
    requires p > 0 && 0x1_0000 % p == 0
    ensures x % 0x1_0000 % p == x % p
  {
    var c, h := 0x1_0000 / p, x / 0x1_0000;
    MulAssoc(h, c, p);
    SameLowBits(x, h * c, x % 0x1_0000, p);
  }

  /** All register bits that differ between I/O registers with and without the upper half. */
  lemma ComparedMask(c: Cell, io: bool, k: nat)
    requires IsRegister(c, io, k)
    ensures Compared(c) == W32 - Pow2(k)
  {
    hide Or;
    hide Pow2;
    if io {
      PowerBounds(k, 2, 16);
      OrLiterals(c.mask, 0);
    }
  }

  /** A register of 2^k bytes claims the 2^k addresses from the bits of the word written that it has. */
  lemma RegisterClaims(c: Cell, io: bool, k: nat, x: Word, a: Word)
    requires IsRegister(c, io, k)
    ensures Answers(c, x, a) <==> Range(And(x, c.mask), Pow2(k)).Has(a)
    ensures And(x, c.mask) == if c.mask == W32 - Pow2(k) then x - x % Pow2(k) else x % 0x1_0000 - x % Pow2(k)
    ensures And(x, c.mask) % Pow2(k) == 0
  {
    hide And;
    hide Or;
    hide Pow2;
    ComparedMask(c, io, k);
    var p := Pow2(k);
    if io { PowerBounds(k, 2, 16); }
    MaskHigh(a, p, k);
    MaskHigh(x, p, k);
    if c.mask == W32 - p {
      BlockOf(x, p);
    } else {
      PowerMultiple(16, k);
      Pow2Word();
      LowRemainder(x, p);
      BlockOf(x % 0x1_0000, p);
    }
    SameBlock(a, And(x, c.mask), p);
  }

  lemma BlockOf(x: nat, p: nat)
    requires p > 0
    ensures x >= x % p && (x - x % p) % p == 0
  {
    DivModUnique(x - x % p, p, x / p, 0);
  }

  lemma SameBlock(a: nat, s: nat, p: nat)
    requires p > 0 && s % p == 0
    ensures a - a % p == s <==> s <= a < s + p
  {
    if s <= a < s + p { DivModUnique(a, p, s / p, a - s); }
  }

  /** A register without the upper half of its I/O address. */
  predicate Short(c: Cell)
  {
    c.mask < 0x1_0000
  }

  /**
   A register claims addresses from the one written to it if and only if its length divides that, and a short register's
   is below 64K; otherwise it starts at the block of its length around that address.
   */
  lemma StartsAt(c: Cell, sp: Space, k: nat, x: Word)
    requires IsRegister(c, sp.Io?, k)
    ensures var place := AddressOf(sp, x);
      && (And(x, c.mask) == place <==> place % Pow2(k) == 0 && (Short(c) ==> place < 0x1_0000))
      && ((Short(c) ==> place < 0x1_0000) ==> And(x, c.mask) == Latched(Range(place, Pow2(k))).start)
  {
    hide And;
    hide IsRegister;
    if sp.Io? { IoStartsAt(c, k, x); } else { MemoryStartsAt(c, sp, k, x); }
  }

  lemma IoStartsAt(c: Cell, k: nat, x: Word)
    requires IsRegister(c, true, k)
    ensures var place := AddressOf(Io, x);
      && (And(x, c.mask) == place <==> place % Pow2(k) == 0 && (Short(c) ==> place < 0x1_0000))
      && ((Short(c) ==> place < 0x1_0000) ==> And(x, c.mask) == Latched(Range(place, Pow2(k))).start)
  {
    hide And;
    hide Or;
    hide Pow2;
    var p, place := Pow2(k), AddressOf(Io, x);
    Pow2Word();
    RegisterClaims(c, true, k, x, 0);
    PowerBounds(k, 2, 16);
    TypeBits(x, p, 4);
    TypeBits(x, 0x1_0000, 4);
    SmallWord(place);
    SmallWord(x);
    WhereStarts(x, x % p, x % 4, x % 0x1_0000, place, And(x, c.mask), Short(c));
  }

  lemma SmallWord(x: nat)
    ensures (x < 0x1_0000 <==> x % 0x1_0000 == x) && x % 0x1_0000 <= x
  {
  }

  /** In terms of the remainders: a modulo the length, b modulo 4, h modulo 64K. */
  lemma WhereStarts(x: nat, a: nat, b: nat, h: nat, place: int, word: int, short: bool)
    requires a >= b && h <= x && place == x - b && word == (if short then h - a else x - a) && (place < 0x1_0000 <==> h - b == place)
    ensures word == place <==> a == b && (short ==> place < 0x1_0000)
    ensures (short ==> place < 0x1_0000) ==> word == place - (a - b)
  {
  }

  lemma MemoryStartsAt(c: Cell, sp: Space, k: nat, x: Word)
    requires !sp.Io? && IsRegister(c, false, k)
    ensures var place := AddressOf(sp, x);
      !Short(c) && (And(x, c.mask) == place <==> place % Pow2(k) == 0)
      && And(x, c.mask) == Latched(Range(place, Pow2(k))).start
  {
    hide And;
    hide Or;
    hide Pow2;
    RegisterClaims(c, false, k, x, 0);
    PowerBounds(k, 4, 32);
    TypeBits(x, Pow2(k), 16);
    NeverShort(c, k);
  }

  /** Taking the low bits off a number takes them off its remainder. */
  lemma TypeBits(x: nat, p: nat, t: nat)
    requires t > 0 && p > 0 && p % t == 0
    ensures (x - x % t) % p == x % p - x % t >= 0
  {
    DivNonnegative(x, p);
    DivNonnegative(p, t);
    TypeBitsOf(x, p, t, x / p, p / t, x % p);
  }

  lemma TypeBitsOf(x: nat, p: nat, t: nat, q: nat, c: nat, r: nat)
    requires t > 0 && x == q * p + r && r < p && p == c * t
    ensures (x - x % t) % p == r - x % t >= 0
  {
    MulAssoc(q, c, t);
    SameLowBits(x, q * c, r, t);
    RemainderBelow(r, t);
    DivModUnique(x - x % t, p, q, r - x % t);
  }

  lemma RemainderBelow(r: nat, t: nat)
    requires t > 0
    ensures 0 <= r % t <= r
  {
    DivNonnegative(r, t);
    MulMono(0, r / t, t);
  }

  lemma SameLowBits(x: nat, n: nat, r: nat, t: nat)
    requires t > 0 && x == n * t + r
    ensures x % t == r % t
  {
    SumTimes(n, r / t, t);
    DivModUnique(x, t, n + r / t, r % t);
  }

  lemma NeverShort(c: Cell, k: nat)
    requires IsRegister(c, false, k)
    ensures !Short(c)
  {
    hide Pow2;
    Pow2Word();
    Pow2Add(16, 15);
    Pow2Sixteen();
    Pow2Mono(k, 31);
  }

  /** A device with 16 and 256 bytes of I/O, as it is sized. */
  const SixteenBytes := Cell(0xffff_fff0, 1, 0)
  const WholeBlock := Cell(0xffff_ff00, 1, 0)
  const TwoRegisters := Dev([0x11, 0x101, 0, 0, 0, 0], [0, 0, 0, 0, 0, 0])

  /** The second register is put at 0x1010, where a register of 256 bytes cannot be: both answer from 0x1000 on. */
  lemma Misplaced(a: Word)
    ensures TwoRegisters.size[0] == SizeWord(Readback(SixteenBytes, W32 - 1))
    ensures TwoRegisters.size[1] == SizeWord(Readback(WholeBlock, W32 - 1))
    ensures var d := AllocBars(Io, TwoRegisters, 0, 0x1000).0;
      && d.addr[0] == 0x1001 && d.addr[1] == 0x1011
      && (Answers(SixteenBytes, 0x1001, a) <==> 0x1000 <= a < 0x1010)
      && (Answers(WholeBlock, 0x1011, a) <==> 0x1000 <= a < 0x1100)
  {
    hide And;
    hide Or;
    hide AllocBars;
    hide Answers;
    hide SizeWord;
    hide Readback;
    Powers();
    hide Pow2;
    PciBusNumbers.AndNothing(0xffff_fff0);
    PciBusNumbers.AndNothing(0xffff_ff00);
    IoCell(SixteenBytes, 4);
    IoCell(WholeBlock, 8);
    RegisterClaims(SixteenBytes, true, 4, 0x1001, a);
    RegisterClaims(WholeBlock, true, 8, 0x1011, a);
    TwoPlaced();
  }

  lemma Powers()
    ensures Pow2(4) == 16 && Pow2(8) == 256
  {
    Pow2Sixteen();
    Pow2Word();
  }

  lemma TwoPlaced()
    ensures var d := AllocBars(Io, TwoRegisters, 0, 0x1000).0; d.addr[0] == 0x1001 && d.addr[1] == 0x1011
  {
    hide And;
    hide Or;
    hide Rounded;
    hide Stored;
    FlagBits(0x11);
    FlagBits(0x101);
    FlagBits(0);
    RoundedTo(0x10, IO_ALIGN);
    OrLiterals16(0x1000);
    OrLiterals16(0x1010);
    StoredIo(0x1000);
    StoredIo(0x1010);
    var d0 := TwoRegisters;
    var d1 := d0.(addr := d0.addr[0 := 0x1001]);
    var d2 := d1.(addr := d1.addr[1 := 0x1011]);
    assert AllocBars(Io, d0, 0, 0x1000) == AllocBars(Io, d1, 1, 0x1010);
    assert AllocBars(Io, d1, 1, 0x1010).0 == AllocBars(Io, d2, 2, Next(Io, 0x101, 0x1010)).0;
    NothingMore(d2, 2, Next(Io, 0x101, 0x1010));
  }

  lemma StoredIo(a: nat)
    ensures Stored(Io, a) == Or(a, SPACE_IO)
  {
    hide Or;
  }

  lemma {:induction false} NothingMore(d: Dev, i: nat, base: nat)
    requires i <= 6 && forall j :: i <= j < 6 ==> d.size[j] == 0
    ensures AllocBars(Io, d, i, base).0 == d
    decreases 6 - i
  {
    if i < 6 { NothingMore(d, i + 1, base); }
  }

  // ----- Accesses to addresses -----

  /** The registers that decide where such accesses go. */
  datatype Setup = Setup(latches: Latches, windows: WindowRegisters, command: Commands)

  /** The I/O and the memory bit of a command register. */
  predicate TurnedOn(command: nat, io: bool)
  {
    if io then command % 2 == 1 else command / 2 % 2 == 1
  }

  /** What can claim an access on a bus: a base address register of a function there, or a bridge. */
  datatype Agent = Register(devfn: nat, reg: nat) | Bridge(devfn: nat)

  predicate RegisterTakes(root: Segment, s: Setup, p: Path, reg: nat, io: bool, a: Word)
    requires p != []
  {
    var f := FunctionAt(root, p);
    var c := CellAt(f, reg);
    && reg < HowMany(f.header) && !UpperHalf(FirstReadings(f), reg) && c.mask != 0 && (c.fixed % 2 == 1 <==> io)
    && TurnedOn(CommandOf(s.command, p), io)
    && Answers(c, Latch(root, s.latches, p, reg), a)
    && (UpperHalf(FirstReadings(f), reg + 1) ==> Reading(root, s.latches, p, reg + 1) == 0)
  }

  predicate BridgeTakes(root: Segment, s: Setup, p: Path, io: bool, a: Word)
    requires p != []
  {
    && IsBridge(FunctionAt(root, p)) && TurnedOn(CommandOf(s.command, p), io)
    && if io then IoDecodes(WindowAt(s.windows, p, IoBase), WindowAt(s.windows, p, IoLimit), a)
       else MemDecodes(WindowAt(s.windows, p, MemoryBase), WindowAt(s.windows, p, MemoryLimit), a)
            || MemDecodes(WindowAt(s.windows, p, PrefBase), WindowAt(s.windows, p, PrefLimit), a)
  }

  predicate Takes(root: Segment, s: Setup, at: Path, io: bool, a: Word, g: Agent)
  {
    match g
    case Register(devfn, reg) => RegisterTakes(root, s, at + [devfn], reg, io, a)
    case Bridge(devfn) => BridgeTakes(root, s, at + [devfn], io, a)
  }

  /** Exactly one agent on the bus claims the access. */
  ghost predicate Only(root: Segment, s: Setup, at: Path, io: bool, a: Word, g: Agent)
  {
    Takes(root, s, at, io, a, g) && forall g' :: Takes(root, s, at, io, a, g') ==> g' == g
  }

  /** The bridges of a path and at its end a register. */
  function Hop(p: Path, reg: nat, i: nat): Agent
    requires i < |p|
  {
    if i == |p| - 1 then Register(p[i], reg) else Bridge(p[i])
  }

  /** An access from the root bus arrives at register reg of the function at p; nothing else claims it on any bus. */
  ghost predicate Answered(root: Segment, s: Setup, io: bool, a: Word, p: Path, reg: nat)
  {
    p != [] && forall i :: 0 <= i < |p| ==> Only(root, s, p[..i], io, a, Hop(p, reg, i))
  }
}
