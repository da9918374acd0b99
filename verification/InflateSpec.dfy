/** A reference decoder for RFC 1951: canonical codes, back-references into an unbounded history, no buffers. */
module InflateSpec {
  import opened Bits
  import opened BitStream
  import opened Huffman

  /**
   How decoding ends. Error carries the code inflate() returns; Undefined is a stream on which the C code's
   behaviour is not determined (a code without a symbol in an incomplete set, a distance beyond the output);
   Short means that the stream uses bits at or past `limit`.
   */
  datatype Outcome = Done(out: seq<Byte>, pos: nat) | Error(code: nat) | Undefined | Short

  datatype Sym = Sym(sym: nat, pos: nat) | NoSym(why: Outcome)

  // ----- Tables of the format (section 3.2.5) -----

  const BORDER: seq<nat> := [16, 17, 18, 0, 8, 7, 9, 6, 10, 5, 11, 4, 12, 3, 13, 2, 14, 1, 15]
  const CPLENS: seq<nat> := [3, 4, 5, 6, 7, 8, 9, 10, 11, 13, 15, 17, 19, 23, 27, 31,
                             35, 43, 51, 59, 67, 83, 99, 115, 131, 163, 195, 227, 258, 0, 0]
  const CPLEXT: seq<nat> := [0, 0, 0, 0, 0, 0, 0, 0, 1, 1, 1, 1, 2, 2, 2, 2,
                             3, 3, 3, 3, 4, 4, 4, 4, 5, 5, 5, 5, 0, 99, 99]
  const CPDIST: seq<nat> := [1, 2, 3, 4, 5, 7, 9, 13, 17, 25, 33, 49, 65, 97, 129, 193,
                             257, 385, 513, 769, 1025, 1537, 2049, 3073, 4097, 6145,
                             8193, 12289, 16385, 24577]
  const CPDEXT: seq<nat> := [0, 0, 0, 0, 1, 1, 2, 2, 3, 3, 4, 4, 5, 5, 6, 6,
                             7, 7, 8, 8, 9, 9, 10, 10, 11, 11, 12, 12, 13, 13]

  // ----- Symbols -----

  /** The symbol whose code starts at pos. */
  ghost function NextSymbol(s: seq<Byte>, limit: nat, lens: seq<nat>, pos: nat): (r: Sym)
    ensures r.Sym? ==> Matches(lens, s, pos, r.sym) && pos < r.pos == pos + lens[r.sym] <= limit
    ensures r.NoSym? ==> r.why == Short || r.why == Error(1) || r.why == Undefined
  {
    if pos >= limit then NoSym(Short)
    else if SomeMatch(lens, s, pos) then
      var sym: nat :| Matches(lens, s, pos, sym);
      if pos + lens[sym] <= limit then Sym(sym, pos + lens[sym]) else NoSym(Short)
    else if NoneZero(lens) then NoSym(Error(1))
    else NoSym(Undefined)
  }

  /** Repeat the byte `dist` back, n times; the copy may overlap what it writes. */
  function CopyMatch(out: seq<Byte>, dist: nat, n: nat): (r: seq<Byte>)
    requires 1 <= dist <= |out|
    ensures |r| == |out| + n
    decreases n
  {
    if n == 0 then out else CopyMatch(out + [out[|out| - dist]], dist, n - 1)
  }

  /** A block's symbols from pos to its end-of-block code. */
  ghost function RefCodes(s: seq<Byte>, limit: nat, ll: seq<nat>, dl: seq<nat>, pos: nat, out: seq<Byte>): (r: Outcome)
    ensures r.Done? ==> pos < r.pos <= limit
    decreases limit - pos, 2
  {
    match NextSymbol(s, limit, ll, pos)
    case NoSym(why) => why
    case Sym(sym, p) =>
      if sym < 256 then RefCodes(s, limit, ll, dl, p, out + [sym])
      else if sym == 256 then Done(out, p)
      else if sym >= 286 then Error(1)
      else RefLength(s, limit, ll, dl, p, CPLENS[sym - 257], CPLEXT[sym - 257], out)
  }

  /** The extra bits of a length, and the rest of the block. */
  ghost function RefLength(s: seq<Byte>, limit: nat, ll: seq<nat>, dl: seq<nat>, pos: nat, base: nat, extra: nat,
                           out: seq<Byte>): (r: Outcome)
    requires pos <= limit
    ensures r.Done? ==> pos < r.pos <= limit
    decreases limit - pos, 1
  {
    if pos + extra > limit then Short
    else RefDistance(s, limit, ll, dl, pos + extra, base + Lsb(s, pos, extra), out)
  }

  /** The distance part of a length/distance pair, and the rest of the block. */
  ghost function RefDistance(s: seq<Byte>, limit: nat, ll: seq<nat>, dl: seq<nat>, pos: nat, n: nat,
        out: seq<Byte>): (r: Outcome)
    requires pos <= limit
    ensures r.Done? ==> pos < r.pos <= limit
    decreases limit - pos, 0
  {
    match NextSymbol(s, limit, dl, pos)
    case NoSym(why) => why
    case Sym(sym, p) =>
      if sym >= 30 then Error(1)
      else if p + CPDEXT[sym] > limit then Short
      else
        var dist := CPDIST[sym] + Lsb(s, p, CPDEXT[sym]);
        if dist > |out| then Undefined
        else RefCodes(s, limit, ll, dl, p + CPDEXT[sym], CopyMatch(out, dist, n))
  }

  // ----- Blocks -----

  /** Section 3.2.4: byte-aligned length, its complement, and the bytes themselves. */
  function Aligned(pos: nat): (p: nat)
    ensures pos <= p < pos + 8 && p % 8 == 0
  {
    (pos + 7) / 8 * 8
  }

  function RefStored(s: seq<Byte>, limit: nat, pos: nat, out: seq<Byte>): (r: Outcome)
    requires limit <= 8 * |s|
    ensures r.Done? ==> pos < r.pos <= limit
  {
    var p := Aligned(pos);
    if p + 32 > limit then Short
    else if Lsb(s, p, 16) + Lsb(s, p + 16, 16) != 0xffff then Error(1)
    else
      var n, i := Lsb(s, p, 16), p / 8 + 4;
      if p + 32 + 8 * n > limit then Short
      else Done(out + s[i..i + n], p + 32 + 8 * n)
  }

  /** What huft_build returns for a list of code lengths. */
  predicate TooMany(lens: seq<nat>)
    requires Lengths(lens)
  {
    KraftSum(lens) > 65536
  }

  predicate Incomplete(lens: seq<nat>)
    requires Lengths(lens)
  {
    KraftSum(lens) < 65536 && exists i :: 0 <= i < |lens| && lens[i] > 1
  }

  /** Section 3.2.6. */
  function FixedLit(): (r: seq<nat>)
    ensures |r| == 288 && Lengths(r)
  {
    seq(288, i => if i < 144 then 8 else if i < 256 then 9 else if i < 280 then 7 else 8)
  }

  function FixedDist(): (r: seq<nat>)
    ensures |r| == 30 && Lengths(r)
  {
    seq(30, i => 5)
  }

  function Repeat(x: nat, n: nat): (r: seq<nat>)
    ensures |r| == n && forall i :: 0 <= i < n ==> r[i] == x
  {
    seq(n, i => x)
  }

  datatype Lens = Lens(lens: seq<nat>, pos: nat) | NoLens(why: Outcome)

  /** Section 3.2.7: the run-length coded code lengths. `prev` is the length that code 16 repeats. */
  ghost function RefLengths(s: seq<Byte>, limit: nat, cl: seq<nat>, pos: nat, acc: seq<nat>, prev: nat,
        n: nat): (r: Lens)
    ensures r.NoLens? ==> !r.why.Done?
    ensures r.Lens? ==> pos <= r.pos && (pos <= limit ==> r.pos <= limit) && (|acc| <= n ==> |r.lens| == n)
    ensures r.Lens? && |cl| <= 19 && prev <= 15 && (forall i :: 0 <= i < |acc| ==> acc[i] <= 15)
            ==> forall i :: 0 <= i < |r.lens| ==> r.lens[i] <= 15
    decreases limit - pos
  {
    if |acc| >= n then Lens(acc, pos)
    else
      match NextSymbol(s, limit, cl, pos)
      case NoSym(why) => NoLens(why)
      case Sym(sym, p) =>
        if sym < 16 then RefLengths(s, limit, cl, p, acc + [sym], sym, n)
        else
          var bits := if sym == 16 then 2 else if sym == 17 then 3 else 7;
          var run := (if sym == 18 then 11 else 3) + Lsb(s, p, bits);
          var value := if sym == 16 then prev else 0;
          if p + bits > limit then NoLens(Short)
          else if |acc| + run > n then NoLens(Error(1))
          else RefLengths(s, limit, cl, p + bits, acc + Repeat(value, run), value, n)
  }

  /** The code lengths of the code length alphabet, in the order of BORDER; those not sent are zero. */
  function CodeLengthLens(s: seq<Byte>, pos: nat, nb: nat): (r: seq<nat>)
    ensures |r| == 19 && forall i :: 0 <= i < 19 ==> r[i] <= 7
  {
    seq(19, (i: nat) requires i < 19 =>
      var j := BorderIndex(i);
      ThreeBits(s, pos + 3 * j);
      if j < nb then Lsb(s, pos + 3 * j, 3) else 0)
  }

  lemma ThreeBits(s: seq<Byte>, pos: nat)
    ensures Lsb(s, pos, 3) <= 7
  {
    LsbConcat(s, pos, 3, 0);
    assert Pow2(3) == 8;
  }

  /** Where symbol i of the code length alphabet stands in BORDER. */
  function BorderIndex(i: nat): (j: nat)
    requires i < 19
    ensures j < 19 && BORDER[j] == i
  {
    [3, 17, 15, 13, 11, 9, 7, 5, 4, 6, 8, 10, 12, 14, 16, 18, 0, 1, 2][i]
  }

  ghost function RefDynamic(s: seq<Byte>, limit: nat, pos: nat, out: seq<Byte>): (r: Outcome)
    ensures r.Done? ==> pos < r.pos <= limit
  {
    var nl, nd, nb := 257 + Lsb(s, pos, 5), 1 + Lsb(s, pos + 5, 5), 4 + Lsb(s, pos + 10, 4);
    var p := pos + 14 + 3 * nb;
    if pos + 14 > limit then Short
    else if nl > 286 || nd > 30 then Error(1)
    else if p > limit then Short
    else
      var cl := CodeLengthLens(s, pos + 14, nb);
      if TooMany(cl) then Error(2)
      else if Incomplete(cl) then Error(1)
      else
        match RefLengths(s, limit, cl, p, [], 0, nl + nd)
        case NoLens(why) => why
        case Lens(lens, q) =>
          var ll, dl := lens[..nl], lens[nl..];
          if TooMany(ll) then Error(2)
          else if Incomplete(ll) then Error(1)
          else if TooMany(dl) then Error(2)
          else if Incomplete(dl) then Error(1)
          else RefCodes(s, limit, ll, dl, q, out)
  }

  /** One block after its three header bits (section 3.2.3). */
  ghost function RefBlock(s: seq<Byte>, limit: nat, kind: nat, pos: nat, out: seq<Byte>): (r: Outcome)
    requires limit <= 8 * |s|
    ensures r.Done? ==> pos < r.pos <= limit
  {
    if kind == 0 then RefStored(s, limit, pos, out)
    else if kind == 1 then RefCodes(s, limit, FixedLit(), FixedDist(), pos, out)
    else if kind == 2 then RefDynamic(s, limit, pos, out)
    else Error(2)
  }

  /** Blocks up to and including the one marked last. */
  ghost function RefInflate(s: seq<Byte>, limit: nat, pos: nat, out: seq<Byte>): (r: Outcome)
    requires limit <= 8 * |s|
    ensures r.Done? ==> pos < r.pos <= limit
    decreases limit - pos
  {
    if pos + 3 > limit then Short
    else
      match RefBlock(s, limit, Lsb(s, pos + 1, 2), pos + 3, out)
      case Done(out', p) => if Lsb(s, pos, 1) == 1 then Done(out', p) else RefInflate(s, limit, p, out')
      case r => r
  }
}
