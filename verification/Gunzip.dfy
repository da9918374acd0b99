/** inflate_block, inflate and gunzip: the whole stream, and around it the header, the checksum and the length. */
module Gunzip {
  import opened Bits
  import opened BitStream
  import opened InflateSpec
  import opened Inflater
  import opened InflateCodes
  import opened InflateTrees
  import opened InflateBlocks
  import Crc32

  /** inflate_fixed: a block with the codes that need no description. */
  method InflateFixed(st: State, ghost limit: nat) returns (r: Status)
    requires st.Valid() && st.bk <= 15 && limit <= 8 * |st.input|
    modifies st, st.window
    ensures st.Valid() && (r == Ok ==> st.bk <= 15 && st.Pos() > old(st.Pos()))
    ensures Agrees(RefCodes(st.input, limit, FixedLit(), FixedDist(), old(st.Pos()), old(st.History())),
                   r, st.History(), st.Pos(), st.input, limit)
  {
    hide State.WindowOk;
    hide RefCodes;
    hide TreeOk;
    var tl, td := FixedTrees();
    r := InflateCodes.InflateCodes(st, tl, td, limit, FixedLit(), FixedDist());
  }

  lemma HeaderUnfold(s: seq<Byte>, limit: nat, pos: nat, out: seq<Byte>)
    requires limit <= 8 * |s|
    ensures var goal := RefInflate(s, limit, pos, out);
            var mid := RefBlock(s, limit, Lsb(s, pos + 1, 2), pos + 3, out);
            if pos + 3 > limit then goal == Short
            else if mid.Done? then goal == (if Lsb(s, pos, 1) == 1 then mid else RefInflate(s, limit, mid.pos, mid.out))
            else goal == mid
  {
    hide Lsb;
    hide RefBlock;
  }

  /** inflate_block: the three header bits decide; `last` tells the caller whether this was the last block. */
  method InflateBlock(st: State, ghost limit: nat) returns (r: Status, last: bool)
    requires st.Valid() && st.bk <= 15 && limit <= 8 * |st.input|
    modifies st, st.window
    ensures st.Valid() && (r == Ok ==> st.bk <= 15 && st.Pos() > old(st.Pos()))
    ensures var p, out := old(st.Pos()), old(st.History());
            var goal := RefInflate(st.input, limit, p, out);
            if r == Ok && !last then SameGoal(goal, RefInflate(st.input, limit, st.Pos(), st.History()))
            else Agrees(goal, r, st.History(), st.Pos(), st.input, limit)
  {
    hide State.WindowOk;
    hide RefInflate;
    hide RefCodes;
    hide RefStored;
    hide RefDynamic;
    hide Lsb;
    ghost var s, p, out := st.input, st.Pos(), st.History();
    HeaderUnfold(s, limit, p, out);
    last := false;
    var ok, e := TakeBits(st, 1);
    if !ok { r := OutOfInput; return; }
    last := e == 1;
    var t;
    ok, t := TakeBits(st, 2);
    if !ok { r := OutOfInput; return; }
    if t == 2 {
      r := InflateDynamic(st, limit);
    } else if t == 0 {
      r := InflateStored(st, limit);
    } else if t == 1 {
      r := InflateFixed(st, limit);
    } else {
      r := Err(2);
    }
    BlockEnds(s, limit, p, out, r, last, st.History(), st.Pos());
  }

  /** From the block to the rest of the stream. */
  lemma BlockEnds(s: seq<Byte>, limit: nat, p: nat, out: seq<Byte>, r: Status, last: bool, now: seq<Byte>, pos: int)
    requires limit <= 8 * |s| && p + 3 <= 8 * |s| && (last <==> Lsb(s, p, 1) == 1) && (r == Ok ==> pos > p + 3)
    requires Agrees(RefBlock(s, limit, Lsb(s, p + 1, 2), p + 3, out), r, now, pos, s, limit)
    ensures var goal := RefInflate(s, limit, p, out);
            if r == Ok && !last then SameGoal(goal, RefInflate(s, limit, pos, now))
            else Agrees(goal, r, now, pos, s, limit)
  {
    hide RefInflate;
    hide RefBlock;
    hide Lsb;
    HeaderUnfold(s, limit, p, out);
    if r == Ok { HeaderUnfold(s, limit, pos, now); }
  }

  /**
   inflate. Whatever the reference decoder says of the stream that starts at byte inptr, with any limit up to the end of
   the input, is what happens: the same bytes are written, or the same code returned; afterwards inptr is the first byte
   with no bit of the stream in it. Only a stream that ends, or fails, within two bytes of the limit can run out of
   input where the reference does not, and only if the limit is as close to the end.
   */
  method Inflate(st: State, ghost limit: nat) returns (r: Status)
    requires st.window.Length == WSIZE && st.window as object != st.crcTab && Crc32.Table(st.crcTab[..])
    requires st.inptr <= |st.input| && limit <= 8 * |st.input|
    requires st.output == [] && st.crc == 0xFFFFFFFF && st.bytesOut == 0
    modifies st, st.window
    ensures st.inptr <= |st.input|
    ensures r == Ok ==> st.SumsOk()
    ensures match RefInflate(st.input, limit, 8 * old(st.inptr), [])
            case Done(out, p) => (r == Ok && st.output == out && st.inptr == (p + 7) / 8) || RanOut(r, p, st.input)
            case Error(c) => r == Err(c) || RanOut(r, limit, st.input)
            case Undefined => true
            case Short => r == Ok ==> 8 * st.inptr > limit
  {
    hide RefInflate;
    hide Crc32.Table;
    hide Crc32.Register;
    hide Agrees;
    hide RanOut;
    hide Lsb;
    st.wp := 0;
    st.bk := 0;
    st.bb := 0;
    Startup(st);
    ghost var goal := RefInflate(st.input, limit, st.Pos(), []);
    r := AllBlocks(st, limit);
    AgreesMeans(goal, r, st.History(), st.Pos(), st.input, limit);
    if r != Ok { return; }
    GiveBack(st);
    st.FlushWindow();
  }

  lemma AgreesMeans(goal: Outcome, r: Status, out: seq<Byte>, pos: int, s: seq<Byte>, limit: nat)
    requires Agrees(goal, r, out, pos, s, limit) && pos >= 0
    ensures match goal
            case Done(o, p) => (r == Ok && out == o && pos == p) || RanOut(r, p, s)
            case Error(c) => r == Err(c) || RanOut(r, limit, s)
            case Undefined => true
            case Short => r == Ok ==> pos > limit
    ensures pos <= 8 * ((pos + 7) / 8)
  {
  }

  /** The loop over the blocks. */
  method AllBlocks(st: State, ghost limit: nat) returns (r: Status)
    requires st.Valid() && st.bk == 0 && limit <= 8 * |st.input| && st.History() == []
    modifies st, st.window
    ensures st.Valid() && (r == Ok ==> st.bk <= 15)
    ensures Agrees(RefInflate(st.input, limit, old(st.Pos()), []), r, st.History(), st.Pos(), st.input, limit)
  {
    hide RefInflate;
    hide Crc32.Table;
    ghost var goal := RefInflate(st.input, limit, st.Pos(), []);
    var e := false;
    r := Ok;
    while !e
      invariant st.Valid() && st.bk <= 15 && r == Ok
      invariant if e then Agrees(goal, Ok, st.History(), st.Pos(), st.input, limit)
                else SameGoal(goal, RefInflate(st.input, limit, st.Pos(), st.History()))
      decreases !e, 8 * |st.input| - st.Pos()
    {
      ghost var mid := RefInflate(st.input, limit, st.Pos(), st.History());
      r, e := InflateBlock(st, limit);
      GoalChain(goal, mid, r, st.History(), st.Pos(), RefInflate(st.input, limit, st.Pos(), st.History()),
                st.input, limit);
      if r != Ok {
        return;
      }
    }
  }

  lemma Startup(st: State)
    requires st.window.Length == WSIZE && st.window as object != st.crcTab && Crc32.Table(st.crcTab[..])
    requires st.inptr <= |st.input| && st.output == [] && st.crc == 0xFFFFFFFF && st.bytesOut == 0
    requires st.wp == 0 && st.bk == 0 && st.bb == 0
    ensures st.Valid() && st.History() == []
  {
  }

  /** Whole bytes in the bit buffer are given back. At most one is. */
  method GiveBack(st: State)
    requires st.BufferOk() && st.bk <= 15
    modifies st`inptr, st`bk
    ensures st.inptr == (old(st.Pos()) + 7) / 8 && st.bk < 8 && st.inptr + 1 >= old(st.inptr)
  {
    ghost var p, i := st.Pos(), st.inptr;
    while st.bk >= 8
      invariant st.bk <= 8 * st.inptr && st.Pos() == p
      invariant (st.inptr == i && st.bk <= 15) || (st.inptr == i - 1 && st.bk < 8)
      decreases st.bk
    {
      st.bk := st.bk - 8;
      st.inptr := st.inptr - 1;
    }
    DivModUnique(p + 7, 8, st.inptr, 7 - st.bk);
  }

  // ----- The header -----

  const ENCRYPTED := 0x20
  const CONTINUATION := 0x02
  const RESERVED := 0xc0
  const EXTRA_FIELD := 0x04
  const ORIG_NAME := 0x08
  const COMMENT := 0x10

  /** Where the compressed data starts, or why not: the header is refused, or the input ends in it. */
  datatype Start = At(i: nat) | Refused | Cut

  /** Behind the zero byte that ends the string at i; behind the end of the input if none does. */
  function PastString(s: seq<Byte>, i: nat): (j: nat)
    ensures j > i && (i > |s| ==> j > |s|)
    decreases |s| - i
  {
    if i < |s| && s[i] != 0 then PastString(s, i + 1) else i + 1
  }

  function Le16(lo: Byte, hi: Byte): nat
  {
    (lo as int) + 0x100 * (hi as int)
  }

  /** Behind the extra field, its length first. */
  function PastExtra(s: seq<Byte>, i: nat): (j: nat)
    ensures j > i && (i > |s| ==> j > |s|)
  {
    if i + 2 > |s| then |s| + i + 1 else i + 2 + Le16(s[i], s[i + 1])
  }

  function Skipped(s: seq<Byte>, flags: Byte): nat
  {
    var a := if And(flags, EXTRA_FIELD) != 0 then PastExtra(s, 10) else 10;
    var b := if And(flags, ORIG_NAME) != 0 then PastString(s, a) else a;
    if And(flags, COMMENT) != 0 then PastString(s, b) else b
  }

  /** The header of section 2.3 of RFC 1952, as far as gunzip takes it. */
  function Payload(s: seq<Byte>): Start
  {
    if |s| < 3 then Cut
    else if s[0] != 0x1f || (s[1] != 0x8b && s[1] != 0x9e) || s[2] != 8 then Refused
    else if |s| < 4 then Cut
    else if And(s[3], ENCRYPTED) != 0 || And(s[3], CONTINUATION) != 0 || And(s[3], RESERVED) != 0 then Refused
    else if Skipped(s, s[3]) <= |s| then At(Skipped(s, s[3])) else Cut
  }

  /** get_byte; false at the end of the input. */
  method GetByte(st: State) returns (ok: bool, b: Byte)
    modifies st`inptr
    ensures ok <==> old(st.inptr) < |st.input|
    ensures ok ==> b == st.input[old(st.inptr)] && st.inptr == old(st.inptr) + 1
    ensures !ok ==> st.inptr == old(st.inptr)
  {
    ok, b := st.inptr < |st.input|, 0;
    if ok {
      b := st.input[st.inptr];
      st.inptr := st.inptr + 1;
    }
  }

  /** n bytes that are not looked at. */
  method SkipBytes(st: State, n0: nat) returns (ok: bool)
    requires st.inptr <= |st.input|
    modifies st`inptr
    ensures ok <==> old(st.inptr) + n0 <= |st.input|
    ensures st.inptr <= |st.input| && (ok ==> st.inptr == old(st.inptr) + n0)
  {
    var n: nat := n0;
    var b;
    ok := true;
    while n > 0
      invariant n <= n0 && st.inptr == old(st.inptr) + (n0 - n) <= |st.input| && ok
    {
      n := n - 1;
      ok, b := GetByte(st);
      if !ok { return; }
    }
  }

  /** Bytes up to a zero, and the zero. */
  method SkipString(st: State) returns (ok: bool)
    requires st.inptr <= |st.input|
    modifies st`inptr
    ensures ok <==> PastString(st.input, old(st.inptr)) <= |st.input|
    ensures st.inptr <= |st.input| && (ok ==> st.inptr == PastString(st.input, old(st.inptr)))
  {
    var b;
    ok, b := GetByte(st);
    while ok && b != 0
      invariant st.inptr <= |st.input|
      invariant if !ok then PastString(st.input, old(st.inptr)) > |st.input|
                else st.inptr > 0 && b == st.input[st.inptr - 1]
                     && PastString(st.input, old(st.inptr)) == PastString(st.input, st.inptr - 1)
      decreases |st.input| - st.inptr, ok
    {
      ok, b := GetByte(st);
    }
  }

  /** The optional fields of the header. */
  method SkipFields(st: State, flags: Byte) returns (ok: bool)
    requires st.inptr == 10 <= |st.input|
    modifies st`inptr
    ensures ok <==> Skipped(st.input, flags) <= |st.input|
    ensures st.inptr <= |st.input| && (ok ==> st.inptr == Skipped(st.input, flags))
  {
    hide And;
    ok := true;
    if And(flags, EXTRA_FIELD) != 0 {
      var lo, hi;
      ok, lo := GetByte(st);
      if !ok { return; }
      ok, hi := GetByte(st);
      if !ok { return; }
      ok := SkipBytes(st, Le16(lo, hi));
      if !ok { return; }
    }
    if And(flags, ORIG_NAME) != 0 {
      ok := SkipString(st);
      if !ok { return; }
    }
    if And(flags, COMMENT) != 0 {
      ok := SkipString(st);
    }
  }

  /** The part of gunzip before the call of inflate; Err(1) stands for the return value -1. */
  method ReadHeader(st: State) returns (r: Status)
    requires st.inptr == 0
    modifies st`inptr
    ensures match Payload(st.input)
            case At(i) => r == Ok && st.inptr == i
            case Refused => r == Err(1)
            case Cut => r == OutOfInput
  {
    hide And;
    hide Skipped;
    var ok, m0, m1, kind, flags;
    r := OutOfInput;
    ok, m0 := GetByte(st);
    if !ok { return; }
    ok, m1 := GetByte(st);
    if !ok { return; }
    ok, kind := GetByte(st);
    if !ok { return; }
    if m0 != 0x1f || (m1 != 0x8b && m1 != 0x9e) { return Err(1); }
    if kind != 8 { return Err(1); }
    ok, flags := GetByte(st);
    if !ok { return; }
    if And(flags, ENCRYPTED) != 0 { return Err(1); }
    if And(flags, CONTINUATION) != 0 { return Err(1); }
    if And(flags, RESERVED) != 0 { return Err(1); }
    SkippedTen(st.input, flags);
    ok := SkipBytes(st, 6);
    if !ok { return; }
    ok := SkipFields(st, flags);
    if ok { r := Ok; }
  }

  lemma SkippedTen(s: seq<Byte>, flags: Byte)
    ensures Skipped(s, flags) >= 10
  {
    hide And;
  }

  // ----- The trailer -----

  /** Four bytes, least significant first. */
  function Le32(s: seq<Byte>, i: nat): nat
    requires i + 4 <= |s|
  {
    (s[i] as int) + 0x100 * (s[i + 1] as int) + 0x1_0000 * (s[i + 2] as int) + 0x100_0000 * (s[i + 3] as int)
  }

  /** Four bytes read into a word. */
  method GetLong(st: State) returns (ok: bool, x: nat)
    requires st.inptr <= |st.input|
    modifies st`inptr
    ensures ok <==> old(st.inptr) + 4 <= |st.input|
    ensures st.inptr <= |st.input| && (ok ==> st.inptr == old(st.inptr) + 4 && x == Le32(st.input, old(st.inptr)))
  {
    hide Or;
    hide Pow2;
    var b0, b1, b2, b3;
    x := 0;
    ok, b0 := GetByte(st);
    if !ok { return; }
    ok, b1 := GetByte(st);
    if !ok { return; }
    ok, b2 := GetByte(st);
    if !ok { return; }
    ok, b3 := GetByte(st);
    if !ok { return; }
    BytesOr(b0, b1, b2, b3);
    x := b0;
    x := Or(x, b1 * Pow2(8));
    x := Or(x, b2 * Pow2(16));
    x := Or(x, b3 * Pow2(24));
  }

  lemma BytesOr(b0: Byte, b1: Byte, b2: Byte, b3: Byte)
    ensures b1 * Pow2(8) >= 0 && b2 * Pow2(16) >= 0 && b3 * Pow2(24) >= 0
    ensures Or(Or(Or(b0, b1 * Pow2(8)), b2 * Pow2(16)), b3 * Pow2(24))
            == b0 + 0x100 * b1 + 0x1_0000 * b2 + 0x100_0000 * b3
  {
    hide Or;
    hide Pow2;
    Pow2Sixteen();
    Pow2Add(8, 16);
    OrDisjoint(b0, b1, 8);
    OrDisjoint(b0 + b1 * 0x100, b2, 16);
    OrDisjoint(b0 + b1 * 0x100 + b2 * 0x1_0000, b3, 24);
  }

  /** The eight bytes at i are the checksum and the length of the output. */
  predicate TrailerFits(s: seq<Byte>, i: nat, out: seq<Byte>)
  {
    i + 8 <= |s| && Le32(s, i) == Crc32.Crc(out) && Le32(s, i + 4) == |out| % W32
  }

  /** The part of gunzip after the call of inflate: the stored checksum and length must be those of the output. */
  method CheckTrailer(st: State) returns (r: Status)
    requires st.SumsOk() && st.inptr <= |st.input|
    modifies st`inptr
    ensures r == OutOfInput <==> old(st.inptr) + 8 > |st.input|
    ensures r == Ok <==> TrailerFits(st.input, old(st.inptr), st.output)
    ensures r == Ok || r == Err(1) || r == OutOfInput
  {
    hide Crc32.Register;
    hide Crc32.Table;
    var ok, origCrc, origLen;
    ok, origCrc := GetLong(st);
    if !ok { return OutOfInput; }
    ok, origLen := GetLong(st);
    if !ok { return OutOfInput; }
    if origCrc != Xor(st.crc, 0xFFFFFFFF) { return Err(1); }
    if origLen != st.bytesOut { return Err(1); }
    r := Ok;
  }

  // ----- gunzip -----

  /** The compressed data must leave room for the trailer. */
  function TrailerLimit(s: seq<Byte>): (n: nat)
    ensures n <= 8 * |s|
  {
    if |s| < 8 then 0 else 8 * (|s| - 8)
  }

  /** What the reference decoder makes of the compressed data. */
  ghost function Content(s: seq<Byte>): Outcome
    requires Payload(s).At?
  {
    RefInflate(s, TrailerLimit(s), 8 * Payload(s).i, [])
  }

  /**
   gunzip_setup and gunzip: from the first byte of the input to the return value; Ok stands for 0, Err(1) for -1. When
   the meaning of the compressed data is determined, the result is 0 if and only if the header is taken, the data decode
   and the trailer fits them; the output is then what they decode to.
   */
  method Gunzip(st: State) returns (r: Status)
    requires st.window.Length == WSIZE && st.crcTab.Length == 256 && st.window as object != st.crcTab && st.inptr == 0
    modifies st, st.window, st.crcTab
    ensures match Payload(st.input)
            case Refused => r == Err(1)
            case Cut => r == OutOfInput
            case At(i) =>
              match Content(st.input)
              case Done(out, p) =>
                st.output == out && r == if TrailerFits(st.input, (p + 7) / 8, out) then Ok else Err(1)
              case Error(c) => r == Err(1)
              case Undefined => true
              case Short => r != Ok
  {
    hide Crc32.Table;
    hide Crc32.Crc;
    hide Crc32.Register;
    hide RefInflate;
    hide Payload;
    hide Le32;
    hide TrailerFits;
    st.wp := 0;
    st.bytesOut := 0;
    st.output := [];
    Crc32.MakeCrc(st.crcTab);
    st.crc := 0xFFFFFFFF;
    r := ReadHeader(st);
    if r != Ok { return; }
    PayloadInside(st.input);
    r := Inflate(st, TrailerLimit(st.input));
    TrailerRoom(st.input, st.inptr, st.output);
    if r.Err? { return Err(1); }
    if r != Ok { return; }
    r := CheckTrailer(st);
  }

  /** Data that reach into the last eight bytes leave no trailer. */
  lemma TrailerRoom(s: seq<Byte>, i: nat, out: seq<Byte>)
    ensures 8 * i > TrailerLimit(s) ==> i + 8 > |s|
    ensures TrailerFits(s, i, out) ==> i + 8 <= |s|
    ensures |s| >= 10 ==> TrailerLimit(s) + 16 <= 8 * |s|
  {
    hide Le32;
    hide Crc32.Crc;
  }

  lemma PayloadInside(s: seq<Byte>)
    ensures Payload(s).At? ==> 10 <= Payload(s).i <= |s|
  {
    if Payload(s).At? { SkippedTen(s, s[3]); }
    hide Skipped;
  }
}
