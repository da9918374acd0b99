/**
 An encoder for the whole of RFC 1951, written from the numbers of the standard and not from the tables of the decoder:
 streams as bits, from the blocks and what is in them.
 */
module DeflateEncoder {
  import opened Bits
  import opened BitStream
  import opened Huffman

  type Bit = b: nat | b < 2

  /** A number of n bits, least significant bit first (section 3.1.1). */
  function Least(x: nat, n: nat): (r: seq<Bit>)
    ensures |r| == n
    decreases n
  {
    if n == 0 then [] else [x % 2] + Least(x / 2, n - 1)
  }

  /** A code word of n bits, most significant bit first. */
  function Most(x: nat, n: nat): (r: seq<Bit>)
    ensures |r| == n
    decreases n
  {
    if n == 0 then [] else Most(x / 2, n - 1) + [x % 2]
  }

  // ----- What a block says -----

  datatype Token = Literal(b: Byte) | Match(len: nat, dist: nat)

  /** A match of section 3.2.3: n bytes, each the one dist before it; those before the match come round again. */
  function Echo(out: seq<Byte>, dist: nat, n: nat): (r: seq<Byte>)
    requires 1 <= dist <= |out|
    ensures |r| == |out| + n
  {
    seq(|out| + n, (i: nat) requires i < |out| + n =>
      if i < |out| then out[i] else out[|out| - dist + (i - |out|) % dist])
  }

  predicate TokensOk(tokens: seq<Token>, out: seq<Byte>)
    decreases |tokens|
  {
    tokens == []
    || match tokens[0]
       case Literal(b) => TokensOk(tokens[1..], out + [b])
       case Match(len, dist) =>
         3 <= len <= 258 && 1 <= dist <= 32768 && dist <= |out| && TokensOk(tokens[1..], Echo(out, dist, len))
  }

  function Expand(tokens: seq<Token>, out: seq<Byte>): seq<Byte>
    requires TokensOk(tokens, out)
    decreases |tokens|
  {
    if tokens == [] then out
    else match tokens[0]
         case Literal(b) => Expand(tokens[1..], out + [b])
         case Match(len, dist) => Expand(tokens[1..], Echo(out, dist, len))
  }

  // ----- Lengths and distances (section 3.2.5) -----

  /** A symbol and the bits after its code. */
  datatype Part = Part(sym: nat, extra: nat, bits: nat)

  /** The number of bits of x, less one. */
  function Log(x: nat): nat
  {
    if x < 2 then 0 else 1 + Log(x / 2)
  }

  /** Lengths from 3 to 10 one symbol each, then four symbols to every power of two, and 285 for the longest. */
  function LengthPart(len: nat): Part
    requires 3 <= len <= 258
  {
    var x := len - 3;
    if len == 258 then Part(285, 0, 0)
    else if x < 8 then Part(257 + x, 0, 0)
    else
      LogSplit(x, 2);
      var e := Log(x) - 2;
      DivNonnegative(x, Pow2(e));
      Part(257 + 4 * e + x / Pow2(e), x % Pow2(e), e)
  }

  /** Distances from 1 to 4 one symbol each, then two symbols to every power of two. */
  function DistPart(dist: nat): Part
    requires 1 <= dist
  {
    var x := dist - 1;
    if x < 4 then Part(x, 0, 0)
    else
      var e := Log(x) - 1;
      DivNonnegative(x, Pow2(e));
      Part(2 * e + x / Pow2(e), x % Pow2(e), e)
  }

  lemma {:induction false} LogBound(x: nat)
    requires x > 0
    ensures Pow2(Log(x)) <= x < 2 * Pow2(Log(x))
  {
    if x >= 2 { LogBound(x / 2); }
  }

  /** x in steps of its leading power of two, divided by 2^k. */
  lemma LogSplit(x: nat, k: nat)
    requires Pow2(k) <= x
    ensures k <= Log(x)
    ensures var e := Log(x) - k; Pow2(k) <= x / Pow2(e) < 2 * Pow2(k) && x == x / Pow2(e) * Pow2(e) + x % Pow2(e)
  {
    hide Log;
    hide Pow2;
    LogBound(x);
    if Log(x) < k { Pow2Mono(Log(x), k); }
    var e := Log(x) - k;
    Pow2Add(k, e);
    QuotientBetween(x, Pow2(k), Pow2(e));
  }

  lemma QuotientBetween(x: nat, a: nat, d: nat)
    requires d > 0 && a * d <= x < 2 * (a * d)
    ensures a <= x / d < 2 * a && x == x / d * d + x % d
  {
    var q := x / d;
    assert x == q * d + x % d;
    MulAssoc(2, a, d);
    MulLess(q, 2 * a, d);
    if q < a { MulMono(q + 1, a, d); SumTimes(q, 1, d); }
  }

  /** The symbols of lengths are 257 to 285, with at most 5 bits after them. */
  lemma LengthRange(len: nat)
    requires 3 <= len <= 258
    ensures var p := LengthPart(len); 257 <= p.sym <= 285 && p.bits <= 5 && p.extra < Pow2(p.bits)
    ensures 11 <= len < 258 ==>
              var p := LengthPart(len); var q := p.sym - 257 - 4 * p.bits;
              1 <= p.bits && 4 <= q <= 7 && len == 3 + q * Pow2(p.bits) + p.extra
  {
    hide Pow2;
    hide Log;
    SmallPowers();
    var x := len - 3;
    if x >= 8 {
      LogBound(x);
      LogSplit(x, 2);
      if Log(x) >= 8 { Pow2Mono(8, Log(x)); }
      if Log(x) < 3 { Pow2Mono(Log(x) + 1, 3); assert Pow2(Log(x) + 1) == 2 * Pow2(Log(x)) by { Pow2Next(Log(x)); } }
    }
  }

  /** Those of distances are 0 to 29, with at most 13. */
  lemma DistRange(dist: nat)
    requires 1 <= dist <= 32768
    ensures var p := DistPart(dist); p.sym <= 29 && p.bits <= 13 && p.extra < Pow2(p.bits)
    ensures 5 <= dist ==>
              var p := DistPart(dist); var q := p.sym - 2 * p.bits;
              1 <= p.bits && 2 <= q <= 3 && dist == 1 + q * Pow2(p.bits) + p.extra
  {
    hide Pow2;
    hide Log;
    SmallPowers();
    Pow2Sixteen();
    var x := dist - 1;
    if x >= 4 {
      LogBound(x);
      LogSplit(x, 1);
      if Log(x) >= 15 { Pow2Mono(15, Log(x)); }
      if Log(x) < 2 { Pow2Mono(Log(x) + 1, 2); assert Pow2(Log(x) + 1) == 2 * Pow2(Log(x)) by { Pow2Next(Log(x)); } }
    }
  }

  lemma Pow2Next(n: nat)
    ensures Pow2(n + 1) == 2 * Pow2(n)
  {
  }

  lemma SmallPowers()
    ensures Pow2(0) == 1 && Pow2(1) == 2 && Pow2(2) == 4 && Pow2(3) == 8 && Pow2(8) == 256
  {
    Pow2Sixteen();
  }

  /** The code words of a set of code lengths; symbols that have none get []. */
  type Words = seq<seq<Bit>>

  function WordsOf(lens: seq<nat>): (r: Words)
    ensures |r| == |lens|
  {
    seq(|lens|, (sym: nat) requires sym < |lens| => Most(CodeOf(lens, sym), lens[sym]))
  }

  predicate Has(w: Words, sym: nat)
  {
    sym < |w| && w[sym] != []
  }

  function PartBits(w: Words, p: Part): seq<Bit>
    requires p.sym < |w|
  {
    w[p.sym] + Least(p.extra, p.bits)
  }

  predicate Coded(lw: Words, dw: Words, t: Token)
  {
    match t
    case Literal(b) => Has(lw, b)
    case Match(len, dist) =>
      3 <= len <= 258 && 1 <= dist && Has(lw, LengthPart(len).sym) && Has(dw, DistPart(dist).sym)
  }

  function TokenBits(lw: Words, dw: Words, t: Token): seq<Bit>
    requires Coded(lw, dw, t)
  {
    match t
    case Literal(b) => lw[b]
    case Match(len, dist) => PartBits(lw, LengthPart(len)) + PartBits(dw, DistPart(dist))
  }

  predicate AllCoded(lw: Words, dw: Words, tokens: seq<Token>)
  {
    forall i :: 0 <= i < |tokens| ==> Coded(lw, dw, tokens[i])
  }

  function TokensBits(lw: Words, dw: Words, tokens: seq<Token>): seq<Bit>
    requires AllCoded(lw, dw, tokens)
    decreases |tokens|
  {
    if tokens == [] then [] else TokenBits(lw, dw, tokens[0]) + TokensBits(lw, dw, tokens[1..])
  }

  // ----- Fixed codes (section 3.2.6) -----

  function FixedWord(sym: nat): seq<Bit>
    requires sym < 288
  {
    if sym < 144 then Most(0x30 + sym, 8)
    else if sym < 256 then Most(0x190 + (sym - 144), 9)
    else if sym < 280 then Most(sym - 256, 7)
    else Most(0xc0 + (sym - 280), 8)
  }

  function FixedWords(): (r: Words)
    ensures |r| == 288
  {
    seq(288, (sym: nat) requires sym < 288 => FixedWord(sym))
  }

  function FixedDistWords(): (r: Words)
    ensures |r| == 30
  {
    seq(30, (sym: nat) requires sym < 30 => Most(sym, 5))
  }

  /** Every token has a fixed code. */
  lemma FixedHas(tokens: seq<Token>, out: seq<Byte>)
    requires TokensOk(tokens, out)
    ensures AllCoded(FixedWords(), FixedDistWords(), tokens)
    decreases |tokens|
  {
    hide Pow2;
    hide LengthPart;
    hide DistPart;
    if tokens != [] {
      match tokens[0]
      case Literal(b) => FixedHas(tokens[1..], out + [b]);
      case Match(len, dist) =>
        LengthRange(len);
        DistRange(dist);
        FixedHas(tokens[1..], Echo(out, dist, len));
    }
  }

  // ----- Codes that are sent (section 3.2.7) -----

  /** One code length; the last one 3 to 6 times more; 3 to 10 zeros; 11 to 138 zeros. */
  datatype Run = One(len: nat) | Again(n: nat) | Zeros(n: nat) | ManyZeros(n: nat)
  {
    predicate Ok()
    {
      match this
      case One(len) => len <= 15
      case Again(n) => 3 <= n <= 6
      case Zeros(n) => 3 <= n <= 10
      case ManyZeros(n) => 11 <= n <= 138
    }

    function Symbol(): nat
    {
      match this
      case One(len) => len
      case Again(n) => 16
      case Zeros(n) => 17
      case ManyZeros(n) => 18
    }

    function Extra(): seq<Bit>
      requires Ok()
    {
      match this
      case One(len) => []
      case Again(n) => Least(n - 3, 2)
      case Zeros(n) => Least(n - 3, 3)
      case ManyZeros(n) => Least(n - 11, 7)
    }

    /** The code lengths it adds. The last length before there is one is 0. */
    function After(acc: seq<nat>): (r: seq<nat>)
    {
      match this
      case One(len) => acc + [len]
      case Again(n) => acc + seq(n, i => if acc == [] then 0 else acc[|acc| - 1])
      case Zeros(n) => acc + seq(n, i => 0)
      case ManyZeros(n) => acc + seq(n, i => 0)
    }
  }

  predicate RunsOk(cw: Words, runs: seq<Run>)
  {
    forall i :: 0 <= i < |runs| ==> runs[i].Ok() && Has(cw, runs[i].Symbol())
  }

  function Unroll(runs: seq<Run>, acc: seq<nat>): seq<nat>
    decreases |runs|
  {
    if runs == [] then acc else Unroll(runs[1..], runs[0].After(acc))
  }

  function RunsBits(cw: Words, runs: seq<Run>): seq<Bit>
    requires RunsOk(cw, runs)
    decreases |runs|
  {
    if runs == [] then [] else cw[runs[0].Symbol()] + runs[0].Extra() + RunsBits(cw, runs[1..])
  }

  /** 16, 17, 18, 0, and then outwards from 8 and 7. */
  function Order(j: nat): (i: nat)
    requires j < 19
    ensures i < 19
  {
    if j < 3 then 16 + j else if j == 3 then 0 else if j % 2 == 0 then 6 + j / 2 else 9 - j / 2
  }

  function OrderedBits(cl: seq<nat>, j: nat, n: nat): seq<Bit>
    requires |cl| == 19 && j <= n <= 19
    decreases n - j
  {
    if j == n then [] else Least(cl[Order(j)], 3) + OrderedBits(cl, j + 1, n)
  }

  /** A description: the code lengths, those of the code they are sent in, how many of those are sent, and the runs. */
  datatype Codes = Codes(ll: seq<nat>, dl: seq<nat>, cl: seq<nat>, sent: nat, runs: seq<Run>)
  {
    predicate Ok()
    {
      && 257 <= |ll| <= 286 && 1 <= |dl| <= 30 && Unroll(runs, []) == ll + dl
      && |cl| == 19 && (forall i :: 0 <= i < 19 ==> cl[i] <= 7)
      && 4 <= sent <= 19 && (forall j: nat :: sent <= j < 19 ==> cl[Order(j)] == 0)
      && RunsOk(WordsOf(cl), runs)
    }

    function Bits(): seq<Bit>
      requires Ok()
    {
      Least(|ll| - 257, 5) + Least(|dl| - 1, 5) + Least(sent - 4, 4) + OrderedBits(cl, 0, sent)
      + RunsBits(WordsOf(cl), runs)
    }
  }

  // ----- Blocks -----

  datatype Block = Stored(data: seq<Byte>) | Fixed(tokens: seq<Token>) | Dynamic(codes: Codes, tokens: seq<Token>)

  /** A set of code lengths that the standard allows: complete, at most one code, which then has one bit. */
  predicate Usable(lens: seq<nat>)
  {
    && (forall i :: 0 <= i < |lens| ==> lens[i] <= 15)
    && (Complete(lens) || (KraftSum(lens) <= 65536 && forall i :: 0 <= i < |lens| ==> lens[i] <= 1))
  }

  predicate BlockOk(b: Block, out: seq<Byte>)
  {
    match b
    case Stored(data) => |data| <= 0xffff
    case Fixed(tokens) => TokensOk(tokens, out)
    case Dynamic(codes, tokens) =>
      && TokensOk(tokens, out) && codes.Ok() && Usable(codes.cl) && Usable(codes.ll) && Usable(codes.dl)
      && AllCoded(WordsOf(codes.ll), WordsOf(codes.dl), tokens) && Has(WordsOf(codes.ll), 256)
  }

  function Meaning(b: Block, out: seq<Byte>): seq<Byte>
    requires BlockOk(b, out)
  {
    if b.Stored? then out + b.data else Expand(b.tokens, out)
  }

  function ByteBits(data: seq<Byte>): (r: seq<Bit>)
    ensures |r| == 8 * |data|
  {
    if data == [] then [] else Least(data[0], 8) + ByteBits(data[1..])
  }

  function Padding(n: nat): (r: seq<Bit>)
    ensures |r| == n
  {
    seq(n, i => 0)
  }

  /** Length, complement and data. */
  function StoredBody(data: seq<Byte>): (r: seq<Bit>)
    requires |data| <= 0xffff
    ensures |r| == 32 + 8 * |data|
  {
    Least(|data|, 16) + (Least(0xffff - |data|, 16) + ByteBits(data))
  }

  /** The kind of block and the block, when n bits of the stream are before the kind. */
  function BlockBits(b: Block, out: seq<Byte>, n: nat): seq<Bit>
    requires BlockOk(b, out)
  {
    match b
    case Stored(data) =>
      [0, 0] + (Padding((6 + 7 * n) % 8) + StoredBody(data))
    case Fixed(tokens) =>
      FixedHas(tokens, out);
      [1, 0] + (TokensBits(FixedWords(), FixedDistWords(), tokens) + FixedWord(256))
    case Dynamic(codes, tokens) =>
      [0, 1] + (codes.Bits() + (TokensBits(WordsOf(codes.ll), WordsOf(codes.dl), tokens) + WordsOf(codes.ll)[256]))
  }

  // ----- Streams -----

  predicate BlocksOk(blocks: seq<Block>, out: seq<Byte>)
    decreases |blocks|
  {
    blocks == [] || (BlockOk(blocks[0], out) && BlocksOk(blocks[1..], Meaning(blocks[0], out)))
  }

  function Content(blocks: seq<Block>, out: seq<Byte>): seq<Byte>
    requires BlocksOk(blocks, out)
    decreases |blocks|
  {
    if blocks == [] then out else Content(blocks[1..], Meaning(blocks[0], out))
  }

  /** All blocks, the last one marked. */
  function StreamBits(blocks: seq<Block>, out: seq<Byte>, n: nat): seq<Bit>
    requires BlocksOk(blocks, out) && blocks != []
    decreases |blocks|
  {
    var b := [if |blocks| == 1 then 1 else 0] + BlockBits(blocks[0], out, n + 1);
    if |blocks| == 1 then b else b + StreamBits(blocks[1..], Meaning(blocks[0], out), n + |b|)
  }

  /** Bits in bytes, the first in the least significant place; the last byte is filled up with zeros. */
  function Pack(bits: seq<Bit>): (s: seq<Byte>)
    ensures |s| == (|bits| + 7) / 8
    decreases |bits|
  {
    if bits == [] then []
    else if |bits| < 8 then [Value(bits)]
    else [Value(bits[..8])] + Pack(bits[8..])
  }

  function Value(bits: seq<Bit>): (x: nat)
    requires |bits| <= 8
    ensures x < Pow2(|bits|)
    ensures x < 256
  {
    Pow2Mono(|bits|, 8);
    SmallPowers();
    if bits == [] then 0 else bits[0] + 2 * Value(bits[1..])
  }
}
