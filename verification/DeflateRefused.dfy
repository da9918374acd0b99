/** Streams that break a rule of RFC 1951, bit by bit, and what inflate returns for them. */
module DeflateRefused {
  import opened Bits
  import opened BitStream
  import opened Huffman
  import opened InflateSpec
  import opened DeflateEncoder
  import opened DeflateStream

  /** Block kind 3. */
  lemma KindThree(s: seq<Byte>, limit: nat, pos: nat, out: seq<Byte>)
    requires pos + 3 <= limit <= 8 * |s| && Holds(s, pos + 1, [1, 1])
    ensures RefInflate(s, limit, pos, out) == Error(2)
  {
    hide Holds;
    hide Lsb;
    KindRead(s, pos + 1, 1, 1, []) by { assert [1, 1] + [] == [1, 1]; }
  }

  /** A stored block whose second count is not the complement of the first. */
  lemma WrongComplement(s: seq<Byte>, limit: nat, pos: nat, out: seq<Byte>, n: nat, c: nat)
    requires n <= 0xffff && c <= 0xffff && Holds(s, Aligned(pos), Least(n, 16) + Least(c, 16))
    requires Aligned(pos) + 32 <= limit <= 8 * |s|
    ensures RefStored(s, limit, pos, out).Error? <==> c != 0xffff - n
  {
    hide Holds;
    hide Lsb;
    hide Least;
    hide Aligned;
    HoldsBoth(s, Aligned(pos), Least(n, 16), Least(c, 16));
    Pow2Sixteen();
    LeastRead(s, Aligned(pos), n, 16);
    LeastRead(s, Aligned(pos) + 16, c, 16);
  }

  /** More than 286 literal and length codes, or more than 30 distance codes. */
  lemma TooManyCodes(s: seq<Byte>, limit: nat, pos: nat, out: seq<Byte>, nl: nat, nd: nat, nb: nat)
    requires 257 <= nl < 257 + 32 && 1 <= nd < 1 + 32 && 4 <= nb < 4 + 16 && pos + 14 <= limit
    requires Holds(s, pos, Least(nl - 257, 5) + (Least(nd - 1, 5) + Least(nb - 4, 4))) && (nl > 286 || nd > 30)
    ensures RefDynamic(s, limit, pos, out) == Error(1)
  {
    hide Holds;
    hide Lsb;
    hide Least;
    var a, b, c := Least(nl - 257, 5), Least(nd - 1, 5), Least(nb - 4, 4);
    HoldsBoth(s, pos, a, b + c);
    HoldsBoth(s, pos + 5, b, c);
    Powers();
    LeastRead(s, pos, nl - 257, 5);
    LeastRead(s, pos + 5, nd - 1, 5);
  }

  /** The two length symbols that have a fixed code and no meaning. */
  lemma UnusedLength(s: seq<Byte>, limit: nat, pos: nat, out: seq<Byte>, sym: nat)
    requires 286 <= sym < 288 && Holds(s, pos, FixedWord(sym)) && pos + |FixedWord(sym)| <= limit
    ensures RefCodes(s, limit, FixedLit(), FixedDist(), pos, out) == Error(1)
  {
    FixedIsCanonical();
    WordAt(sym);
    hide NextSymbol;
    hide Holds;
    hide FixedWord;
    hide WordsOf;
    hide Codable;
    SymbolRead(s, limit, FixedLit(), pos, sym);
  }

  /** The two distance codes of five bits that have none. */
  lemma UnusedDistance(s: seq<Byte>, limit: nat, pos: nat, out: seq<Byte>, n: nat, sym: nat)
    requires 30 <= sym < 32 && Holds(s, pos, Most(sym, 5)) && pos < limit
    ensures RefDistance(s, limit, FixedLit(), FixedDist(), pos, n, out) == Error(1)
  {
    Powers();
    hide Pow2;
    MostRead(s, pos, sym, 5);
    forall b: nat
      ensures !Matches(FixedDist(), s, pos, b)
    {
      if b < 30 { FixedDistCode(b); }
    }
  }

  /** Runs that go past the number of lengths announced. */
  lemma LongRun(s: seq<Byte>, limit: nat, cl: seq<nat>, pos: nat, acc: seq<nat>, r: Run, n: nat)
    requires Codable(cl) && r.Ok() && !r.One? && Has(WordsOf(cl), r.Symbol()) && |acc| < n < |r.After(acc)|
    requires Holds(s, pos, WordsOf(cl)[r.Symbol()] + r.Extra())
    requires pos + |WordsOf(cl)[r.Symbol()] + r.Extra()| <= limit
    ensures RefLengths(s, limit, cl, pos, acc, LastOf(acc), n) == NoLens(Error(1))
  {
    hide Holds;
    hide Lsb;
    hide NextSymbol;
    hide WordsOf;
    hide Codable;
    HoldsBoth(s, pos, WordsOf(cl)[r.Symbol()], r.Extra());
    SymbolRead(s, limit, cl, pos, r.Symbol());
    RunExtra(s, pos + |WordsOf(cl)[r.Symbol()]|, r);
  }

  /** Code lengths of the code length code that ask for too many codes, or leave some over. */
  lemma BadLengthCode(s: seq<Byte>, limit: nat, pos: nat, codes: Codes, out: seq<Byte>)
    requires codes.Ok() && !Usable(codes.cl) && Holds(s, pos, codes.Bits()) && pos + |codes.Bits()| <= limit
    ensures RefDynamic(s, limit, pos, out) == Error(if KraftSum(codes.cl) > 65536 then 2 else 1)
  {
    hide Holds;
    hide Lsb;
    hide WordsOf;
    hide RunsBits;
    hide OrderedBits;
    hide Codes.Bits;
    hide CodeLengthLens;
    hide RefDynamic;
    hide KraftSum;
    hide Usable;
    hide Unroll;
    CountsRead(s, pos, codes);
    HoldsBoth(s, pos + 14, OrderedBits(codes.cl, 0, codes.sent), RunsBits(WordsOf(codes.cl), codes.runs));
    CodeLengthsRead(s, pos + 14, codes);
    LengthCodeRefused(s, limit, pos, codes, out);
  }

  lemma LengthCodeRefused(s: seq<Byte>, limit: nat, pos: nat, codes: Codes, out: seq<Byte>)
    requires 257 <= |codes.ll| <= 286 && 1 <= |codes.dl| <= 30 && 4 <= codes.sent <= 19
    requires AllLengths(codes.cl) && !Usable(codes.cl)
    requires Lsb(s, pos, 5) == |codes.ll| - 257 && Lsb(s, pos + 5, 5) == |codes.dl| - 1
    requires Lsb(s, pos + 10, 4) == codes.sent - 4 && pos + 14 + 3 * codes.sent <= limit
    requires CodeLengthLens(s, pos + 14, codes.sent) == codes.cl
    ensures RefDynamic(s, limit, pos, out) == Error(if KraftSum(codes.cl) > 65536 then 2 else 1)
  {
    hide Lsb;
    hide CodeLengthLens;
    hide RefLengths;
    hide KraftSum;
    hide RefCodes;
    Kinds(codes.cl);
    hide Usable;
    hide Incomplete;
    hide TooMany;
  }

  /** The same of the codes that are sent; the literal and length codes come first. */
  lemma BadCodes(s: seq<Byte>, limit: nat, pos: nat, codes: Codes, out: seq<Byte>)
    requires codes.Ok() && Usable(codes.cl) && !(Usable(codes.ll) && Usable(codes.dl))
    requires Holds(s, pos, codes.Bits()) && pos + |codes.Bits()| <= limit
    ensures AllLengths(codes.ll) && AllLengths(codes.dl)
    ensures RefDynamic(s, limit, pos, out)
            == Error(if KraftSum(if Usable(codes.ll) then codes.dl else codes.ll) > 65536 then 2 else 1)
  {
    hide Holds;
    hide Lsb;
    hide WordsOf;
    hide OrderedBits;
    hide RunsBits;
    hide Codes.Bits;
    hide CodeLengthLens;
    hide RefLengths;
    hide KraftSum;
    hide RefCodes;
    hide Unroll;
    CountsRead(s, pos, codes);
    var a, b := OrderedBits(codes.cl, 0, codes.sent), RunsBits(WordsOf(codes.cl), codes.runs);
    HoldsBoth(s, pos + 14, a, b);
    CodeLengthsRead(s, pos + 14, codes);
    RunsRead(s, limit, codes.cl, pos + 14 + |a|, [], codes.runs) by { UsableAccepted(codes.cl); }
    SentLengths(codes);
    hide Usable;
    LengthsRefused(s, limit, pos, codes, out, pos + 14 + |a + b|);
  }

  lemma LengthsRefused(s: seq<Byte>, limit: nat, pos: nat, codes: Codes, out: seq<Byte>, q: nat)
    requires |codes.ll| >= 257 && |codes.ll| <= 286 && 1 <= |codes.dl| <= 30 && 4 <= codes.sent <= 19
    requires AllLengths(codes.ll) && AllLengths(codes.dl) && Usable(codes.cl) && !(Usable(codes.ll) && Usable(codes.dl))
    requires Lsb(s, pos, 5) == |codes.ll| - 257 && Lsb(s, pos + 5, 5) == |codes.dl| - 1
    requires Lsb(s, pos + 10, 4) == codes.sent - 4 && pos + 14 + 3 * codes.sent <= limit
    requires CodeLengthLens(s, pos + 14, codes.sent) == codes.cl
    requires RefLengths(s, limit, codes.cl, pos + 14 + 3 * codes.sent, [], 0, |codes.ll| + |codes.dl|)
             == Lens(codes.ll + codes.dl, q)
    ensures RefDynamic(s, limit, pos, out)
            == Error(if KraftSum(if Usable(codes.ll) then codes.dl else codes.ll) > 65536 then 2 else 1)
  {
    hide Lsb;
    hide CodeLengthLens;
    hide RefLengths;
    hide KraftSum;
    hide RefCodes;
    UsableAccepted(codes.cl);
    Kinds(codes.ll);
    Kinds(codes.dl);
    hide Usable;
    hide Incomplete;
    hide TooMany;
    var l := codes.ll + codes.dl;
    assert l[..|codes.ll|] == codes.ll && l[|codes.ll|..] == codes.dl;
  }

  lemma Kinds(lens: seq<nat>)
    requires AllLengths(lens)
    ensures Lengths(lens) && (Usable(lens) <==> !TooMany(lens) && !Incomplete(lens))
    ensures TooMany(lens) <==> KraftSum(lens) > 65536
  {
    hide KraftSum;
  }

  lemma SentLengths(codes: Codes)
    requires codes.Ok()
    ensures AllLengths(codes.ll) && AllLengths(codes.dl)
  {
    UnrolledLengths(codes.runs, []);
    var l := codes.ll + codes.dl;
    assert forall i :: 0 <= i < |codes.ll| ==> l[i] == codes.ll[i];
    assert forall i :: 0 <= i < |codes.dl| ==> l[|codes.ll| + i] == codes.dl[i];
  }

  predicate AllLengths(lens: seq<nat>)
  {
    forall i :: 0 <= i < |lens| ==> lens[i] <= 15
  }

  lemma {:induction false} UnrolledLengths(runs: seq<Run>, acc: seq<nat>)
    requires AllLengths(acc) && forall i :: 0 <= i < |runs| ==> runs[i].Ok()
    ensures AllLengths(Unroll(runs, acc))
    decreases |runs|
  {
    if runs != [] { UnrolledLengths(runs[1..], runs[0].After(acc)); }
  }
}
