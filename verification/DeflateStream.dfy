/** Every stream of the encoder decodes to what its blocks say, and every gzip file around one unpacks to it. */
module DeflateStream {
  import opened Bits
  import opened BitStream
  import opened Huffman
  import opened InflateSpec
  import opened DeflateEncoder
  import InflateTrees

  // ----- The tables of inflate.c are those of section 3.2.5 -----

  /** The tables tile the ranges: every length and distance belongs to the symbol that starts last before it. */
  lemma TablesTile()
    ensures CPLENS[0] == 3 && CPLENS[28] == 258 && CPLEXT[28] == 0
    ensures forall i :: 0 <= i < 27 ==> CPLENS[i] + Pow2(CPLEXT[i]) == CPLENS[i + 1]
    ensures CPLENS[27] + Pow2(CPLEXT[27]) == CPLENS[28] + 1
    ensures CPDIST[0] == 1 && CPDIST[29] + Pow2(CPDEXT[29]) == 32769
    ensures forall i :: 0 <= i < 29 ==> CPDIST[i] + Pow2(CPDEXT[i]) == CPDIST[i + 1]
  {
    Powers();
    hide Pow2;
  }

  lemma Powers()
    ensures Pow2(0) == 1 && Pow2(1) == 2 && Pow2(2) == 4 && Pow2(3) == 8 && Pow2(4) == 16 && Pow2(5) == 32
    ensures Pow2(6) == 64 && Pow2(7) == 128 && Pow2(8) == 256 && Pow2(9) == 512 && Pow2(10) == 1024
    ensures Pow2(11) == 2048 && Pow2(12) == 4096 && Pow2(13) == 8192
  {
    assert Pow2(6) == 64;
    assert Pow2(11) == 2048;
  }

  /** A symbol and extra bits that the tables turn into the length. */
  predicate GivesLength(p: Part, len: nat)
  {
    && 257 <= p.sym < 286 && p.bits == CPLEXT[p.sym - 257] && p.extra < Pow2(p.bits)
    && len == CPLENS[p.sym - 257] + p.extra
  }

  predicate GivesDist(p: Part, dist: nat)
  {
    p.sym < 30 && p.bits == CPDEXT[p.sym] && p.extra < Pow2(p.bits) && dist == CPDIST[p.sym] + p.extra
  }

  /** Every length from 3 to 258 has them. */
  lemma LengthFound(len: nat)
    requires 3 <= len <= 258
    ensures GivesLength(LengthPart(len), len) && LengthPart(len).extra < Pow2(LengthPart(len).bits)
  {
    hide GivesLength;
    LengthRange(len);
    var p := LengthPart(len);
    if 11 <= len < 258 {
      hide LengthPart;
      LengthRow(p, p.sym - 257 - 4 * p.bits, len);
    } else {
      LengthAlone(p, len);
    }
  }

  lemma LengthAlone(p: Part, len: nat)
    requires p == if len == 258 then Part(285, 0, 0) else Part(254 + len, 0, 0)
    requires 3 <= len <= 10 || len == 258
    ensures GivesLength(p, len)
  {
  }

  lemma LengthRow(p: Part, q: nat, len: nat)
    requires 1 <= p.bits <= 5 && 4 <= q <= 7 && p.sym == 257 + 4 * p.bits + q && p.extra < Pow2(p.bits)
    requires len == 3 + q * Pow2(p.bits) + p.extra
    ensures GivesLength(p, len)
  {
    var d := Pow2(p.bits);
    Powers();
    hide Pow2;
    if p.bits == 1 { assert d == 2; }
    else if p.bits == 2 { assert d == 4; }
    else if p.bits == 3 { assert d == 8; }
    else if p.bits == 4 { assert d == 16; }
    else { assert d == 32; }
  }

  /** And every distance from 1 to 32768. */
  lemma DistFound(dist: nat)
    requires 1 <= dist <= 32768
    ensures GivesDist(DistPart(dist), dist) && DistPart(dist).extra < Pow2(DistPart(dist).bits)
  {
    hide GivesDist;
    hide Pow2;
    hide Log;
    DistRange(dist);
    var p := DistPart(dist);
    if 5 <= dist {
      hide DistPart;
      DistRow(p, p.sym - 2 * p.bits, dist);
    } else {
      DistAlone(p, dist);
    }
  }

  lemma DistAlone(p: Part, dist: nat)
    requires 1 <= dist <= 4 && p == Part(dist - 1, 0, 0)
    ensures GivesDist(p, dist)
  {
  }

  lemma DistRow(p: Part, q: nat, dist: nat)
    requires 1 <= p.bits <= 13 && 2 <= q <= 3 && p.sym == 2 * p.bits + q && p.extra < Pow2(p.bits)
    requires dist == 1 + q * Pow2(p.bits) + p.extra
    ensures GivesDist(p, dist)
  {
    var d := Pow2(p.bits);
    Powers();
    hide Pow2;
    if p.bits == 1 { assert d == 2; }
    else if p.bits == 2 { assert d == 4; }
    else if p.bits == 3 { assert d == 8; }
    else if p.bits == 4 { assert d == 16; }
    else if p.bits == 5 { assert d == 32; }
    else if p.bits == 6 { assert d == 64; }
    else if p.bits == 7 { assert d == 128; }
    else if p.bits == 8 { assert d == 256; }
    else if p.bits == 9 { assert d == 512; }
    else if p.bits == 10 { assert d == 1024; }
    else if p.bits == 11 { assert d == 2048; }
    else if p.bits == 12 { assert d == 4096; }
    else { assert d == 8192; }
  }

  // ----- Reading bits -----

  /** The bits stand at pos. */
  predicate Holds(s: seq<Byte>, pos: nat, bits: seq<Bit>)
  {
    forall i: nat :: i < |bits| ==> BitAt(s, pos + i) == bits[i]
  }

  lemma HoldsBoth(s: seq<Byte>, pos: nat, a: seq<Bit>, b: seq<Bit>)
    requires Holds(s, pos, a + b)
    ensures Holds(s, pos, a) && Holds(s, pos + |a|, b)
  {
    hide BitAt;
    forall i: nat | i < |a|
      ensures BitAt(s, pos + i) == a[i]
    {
      assert (a + b)[i] == a[i];
    }
    forall i: nat | i < |b|
      ensures BitAt(s, pos + |a| + i) == b[i]
    {
      assert BitAt(s, pos + (|a| + i)) == (a + b)[|a| + i];
    }
  }

  lemma {:induction false} LeastRead(s: seq<Byte>, pos: nat, x: nat, n: nat)
    requires Holds(s, pos, Least(x, n)) && x < Pow2(n)
    ensures Lsb(s, pos, n) == x
    decreases n
  {
    hide BitAt;
    if n > 0 {
      HoldsBoth(s, pos, [x % 2], Least(x / 2, n - 1));
      assert BitAt(s, pos + 0) == [x % 2][0];
      LeastRead(s, pos + 1, x / 2, n - 1);
    }
  }

  lemma {:induction false} MostRead(s: seq<Byte>, pos: nat, x: nat, n: nat)
    requires Holds(s, pos, Most(x, n)) && x < Pow2(n)
    ensures Msb(s, pos, n) == x
    decreases n
  {
    hide BitAt;
    if n > 0 {
      HoldsBoth(s, pos, Most(x / 2, n - 1), [x % 2]);
      assert BitAt(s, pos + (n - 1) + 0) == [x % 2][0];
      MostRead(s, pos, x / 2, n - 1);
    }
  }

  // ----- Symbols -----

  /** A set of code lengths whose code words are prefix-free. */
  predicate Codable(lens: seq<nat>)
  {
    Lengths(lens) && KraftSum(lens) <= 65536
  }

  lemma CodeBound(lens: seq<nat>, sym: nat)
    requires Codable(lens) && sym < |lens| && lens[sym] > 0
    ensures CodeOf(lens, sym) < Pow2(lens[sym])
  {
    hide Pow2;
    hide KraftSum;
    hide First;
    var c, k, q := CountsOf(lens), lens[sym], Rank(lens, sym);
    RankBound(lens, sym);
    NextCodeIsFirst(lens, k);
    KraftIsFirst(lens);
    EndOfCode(c, k, q);
    Pow2Add(k, 16 - k);
    Pow2Sixteen();
    CodeFits(NextCode(lens, k), q, Pow2(16 - k), Pow2(k));
  }

  lemma EndOfCode(c: Counts, k: nat, q: nat)
    requires IsCode(c, k, q)
    ensures First(c, k) + q * Pow2(16 - k) + Pow2(16 - k) <= First(c, 17)
  {
    MulMono(q + 1, c[k], Pow2(16 - k));
    SumTimes(q, 1, Pow2(16 - k));
    assert First(c, k + 1) == First(c, k) + c[k] * Pow2(16 - k);
    FirstMono(c, k + 1, 17);
  }

  lemma CodeFits(n: nat, q: nat, d: nat, p: nat)
    requires d > 0 && n * d + q * d + d <= p * d
    ensures n + q < p
  {
    SumTimes(n, q, d);
    SumTimes(n + q, 1, d);
    MulLess(n + q, p, d);
  }

  /** A symbol is found by its code word. */
  lemma SymbolRead(s: seq<Byte>, limit: nat, lens: seq<nat>, pos: nat, sym: nat)
    requires Codable(lens) && Has(WordsOf(lens), sym) && Holds(s, pos, WordsOf(lens)[sym])
    requires pos + |WordsOf(lens)[sym]| <= limit
    ensures NextSymbol(s, limit, lens, pos) == Sym(sym, pos + |WordsOf(lens)[sym]|)
  {
    hide Msb;
    hide KraftSum;
    hide CodeOf;
    hide Holds;
    hide Pow2;
    var k := lens[sym];
    assert WordsOf(lens)[sym] == Most(CodeOf(lens, sym), k);
    CodeBound(lens, sym);
    MostRead(s, pos, CodeOf(lens, sym), k);
    assert Matches(lens, s, pos, sym);
    Found(s, limit, lens, pos, sym);
  }

  lemma Found(s: seq<Byte>, limit: nat, lens: seq<nat>, pos: nat, sym: nat)
    requires Lengths(lens) && Matches(lens, s, pos, sym) && pos + lens[sym] <= limit
    ensures NextSymbol(s, limit, lens, pos) == Sym(sym, pos + lens[sym])
  {
    hide Msb;
    hide CodeOf;
    forall b: nat | Matches(lens, s, pos, b)
      ensures b == sym
    {
      MatchUnique(lens, s, pos, sym, b);
    }
  }

  // ----- Tokens -----

  /** The copy loop repeats what it has written. */
  lemma {:induction false} CopyEchoes(out: seq<Byte>, dist: nat, n: nat)
    requires 1 <= dist <= |out|
    ensures CopyMatch(out, dist, n) == Echo(out, dist, n)
    decreases n
  {
    if n == 0 {
      assert Echo(out, dist, 0) == out;
    } else {
      var x := out[|out| - dist];
      CopyEchoes(out + [x], dist, n - 1);
      EchoNext(out, dist, n);
    }
  }

  lemma EchoNext(out: seq<Byte>, dist: nat, n: nat)
    requires 1 <= dist <= |out| && n > 0
    ensures Echo(out + [out[|out| - dist]], dist, n - 1) == Echo(out, dist, n)
  {
    var o := out + [out[|out| - dist]];
    forall i: nat | i < |out| + n
      ensures Echo(o, dist, n - 1)[i] == Echo(out, dist, n)[i]
    {
      if i > |out| {
        NextRemainder(i - |out| - 1, dist);
      } else if i == |out| {
        assert 0 % dist == 0;
      }
    }
  }

  lemma NextRemainder(j: nat, d: nat)
    requires d > 0
    ensures (j + 1) % d == if j % d + 1 < d then j % d + 1 else 0
  {
    var q := j / d;
    assert j == q * d + j % d;
    if j % d + 1 < d {
      DivModUnique(j + 1, d, q, j % d + 1);
    } else {
      SumTimes(q, 1, d);
      DivModUnique(j + 1, d, q + 1, 0);
    }
  }

  /** A symbol with its extra bits. */
  lemma PartRead(s: seq<Byte>, limit: nat, lens: seq<nat>, pos: nat, p: Part)
    requires Codable(lens) && Has(WordsOf(lens), p.sym) && p.extra < Pow2(p.bits)
    requires Holds(s, pos, PartBits(WordsOf(lens), p)) && pos + |PartBits(WordsOf(lens), p)| <= limit
    ensures var q := pos + |WordsOf(lens)[p.sym]|;
            && NextSymbol(s, limit, lens, pos) == Sym(p.sym, q)
            && Lsb(s, q, p.bits) == p.extra && pos + |PartBits(WordsOf(lens), p)| == q + p.bits
  {
    hide Holds;
    hide Lsb;
    hide KraftSum;
    hide CodeOf;
    hide Pow2;
    var w := WordsOf(lens)[p.sym];
    HoldsBoth(s, pos, w, Least(p.extra, p.bits));
    SymbolRead(s, limit, lens, pos, p.sym);
    LeastRead(s, pos + |w|, p.extra, p.bits);
  }

  lemma LiteralDecodes(s: seq<Byte>, limit: nat, ll: seq<nat>, dl: seq<nat>, pos: nat, out: seq<Byte>, b: Byte)
    requires Codable(ll) && Has(WordsOf(ll), b) && Holds(s, pos, WordsOf(ll)[b]) && pos + |WordsOf(ll)[b]| <= limit
    ensures RefCodes(s, limit, ll, dl, pos, out) == RefCodes(s, limit, ll, dl, pos + |WordsOf(ll)[b]|, out + [b])
  {
    hide NextSymbol;
    hide Holds;
    hide WordsOf;
    hide KraftSum;
    SymbolRead(s, limit, ll, pos, b);
  }

  lemma EndDecodes(s: seq<Byte>, limit: nat, ll: seq<nat>, dl: seq<nat>, pos: nat, out: seq<Byte>)
    requires Codable(ll) && Has(WordsOf(ll), 256) && Holds(s, pos, WordsOf(ll)[256])
    requires pos + |WordsOf(ll)[256]| <= limit
    ensures RefCodes(s, limit, ll, dl, pos, out) == Done(out, pos + |WordsOf(ll)[256]|)
  {
    hide NextSymbol;
    hide Holds;
    hide WordsOf;
    hide KraftSum;
    SymbolRead(s, limit, ll, pos, 256);
  }

  lemma MatchDecodes(s: seq<Byte>, limit: nat, ll: seq<nat>, dl: seq<nat>, pos: nat, out: seq<Byte>, len: nat,
        dist: nat)
    requires Codable(ll) && Codable(dl) && Coded(WordsOf(ll), WordsOf(dl), Match(len, dist)) && 1 <= dist <= 32768
    requires dist <= |out| && Holds(s, pos, TokenBits(WordsOf(ll), WordsOf(dl), Match(len, dist)))
    requires pos + |TokenBits(WordsOf(ll), WordsOf(dl), Match(len, dist))| <= limit
    ensures RefCodes(s, limit, ll, dl, pos, out)
            == RefCodes(s, limit, ll, dl, pos + |TokenBits(WordsOf(ll), WordsOf(dl), Match(len, dist))|,
                        Echo(out, dist, len))
  {
    hide NextSymbol;
    hide Holds;
    hide KraftSum;
    hide WordsOf;
    hide LengthPart;
    hide DistPart;
    hide PartBits;
    hide Lsb;
    hide Pow2;
    hide GivesLength;
    hide GivesDist;
    hide RefCodes;
    hide RefDistance;
    var p, d := LengthPart(len), DistPart(dist);
    var a, b := PartBits(WordsOf(ll), p), PartBits(WordsOf(dl), d);
    LengthFound(len);
    DistFound(dist);
    CopyEchoes(out, dist, len);
    HoldsBoth(s, pos, a, b);
    PartRead(s, limit, ll, pos, p);
    PartRead(s, limit, dl, pos + |a|, d);
    hide Echo;
    hide CopyMatch;
    LengthStep(s, limit, ll, dl, pos, out, p, len);
    DistStep(s, limit, ll, dl, pos + |a|, out, d, len, dist);
  }

  lemma LengthStep(s: seq<Byte>, limit: nat, ll: seq<nat>, dl: seq<nat>, pos: nat, out: seq<Byte>, p: Part, len: nat)
    requires NextSymbol(s, limit, ll, pos).Sym? && NextSymbol(s, limit, ll, pos).sym == p.sym
    requires GivesLength(p, len) && Lsb(s, NextSymbol(s, limit, ll, pos).pos, p.bits) == p.extra
    requires NextSymbol(s, limit, ll, pos).pos + p.bits <= limit
    ensures RefCodes(s, limit, ll, dl, pos, out)
            == RefDistance(s, limit, ll, dl, NextSymbol(s, limit, ll, pos).pos + p.bits, len, out)
  {
    hide NextSymbol;
    hide Lsb;
    hide RefDistance;
    hide Pow2;
    hide RefLength;
    ToLength(s, limit, ll, dl, pos, out, p.sym);
    AfterExtra(s, limit, ll, dl, NextSymbol(s, limit, ll, pos).pos, CPLENS[p.sym - 257], CPLEXT[p.sym - 257], out);
  }

  lemma ToLength(s: seq<Byte>, limit: nat, ll: seq<nat>, dl: seq<nat>, pos: nat, out: seq<Byte>, sym: nat)
    requires NextSymbol(s, limit, ll, pos).Sym? && NextSymbol(s, limit, ll, pos).sym == sym && 257 <= sym < 286
    ensures RefCodes(s, limit, ll, dl, pos, out)
            == RefLength(s, limit, ll, dl, NextSymbol(s, limit, ll, pos).pos, CPLENS[sym - 257], CPLEXT[sym - 257], out)
  {
    hide NextSymbol;
    hide RefLength;
  }

  lemma AfterExtra(s: seq<Byte>, limit: nat, ll: seq<nat>, dl: seq<nat>, pos: nat, base: nat, extra: nat,
        out: seq<Byte>)
    requires pos + extra <= limit
    ensures RefLength(s, limit, ll, dl, pos, base, extra, out)
            == RefDistance(s, limit, ll, dl, pos + extra, base + Lsb(s, pos, extra), out)
  {
    hide RefDistance;
    hide Lsb;
  }

  lemma DistStep(s: seq<Byte>, limit: nat, ll: seq<nat>, dl: seq<nat>, pos: nat, out: seq<Byte>, p: Part, len: nat,
        dist: nat)
    requires pos <= limit && NextSymbol(s, limit, dl, pos).Sym? && NextSymbol(s, limit, dl, pos).sym == p.sym
    requires GivesDist(p, dist) && dist <= |out| && Lsb(s, NextSymbol(s, limit, dl, pos).pos, p.bits) == p.extra
    requires NextSymbol(s, limit, dl, pos).pos + p.bits <= limit
    ensures 1 <= dist
    ensures RefDistance(s, limit, ll, dl, pos, len, out)
            == RefCodes(s, limit, ll, dl, NextSymbol(s, limit, dl, pos).pos + p.bits, CopyMatch(out, dist, len))
  {
    hide NextSymbol;
    hide Lsb;
    hide RefCodes;
    hide CopyMatch;
    hide Pow2;
  }

  /** Tokens, and whatever comes after them. */
  lemma {:induction false} TokensThen(s: seq<Byte>, limit: nat, ll: seq<nat>, dl: seq<nat>, pos: nat, out: seq<Byte>,
        tokens: seq<Token>)
    requires Codable(ll) && Codable(dl) && TokensOk(tokens, out) && AllCoded(WordsOf(ll), WordsOf(dl), tokens)
    requires Holds(s, pos, TokensBits(WordsOf(ll), WordsOf(dl), tokens))
    requires pos + |TokensBits(WordsOf(ll), WordsOf(dl), tokens)| <= limit
    ensures RefCodes(s, limit, ll, dl, pos, out)
            == RefCodes(s, limit, ll, dl, pos + |TokensBits(WordsOf(ll), WordsOf(dl), tokens)|, Expand(tokens, out))
    decreases |tokens|
  {
    hide RefCodes;
    hide Holds;
    hide WordsOf;
    hide Codable;
    hide Echo;
    hide PartBits;
    hide LengthPart;
    hide DistPart;
    var lw, dw := WordsOf(ll), WordsOf(dl);
    if tokens != [] {
      var t, rest := tokens[0], tokens[1..];
      var b := TokenBits(lw, dw, t);
      HoldsBoth(s, pos, b, TokensBits(lw, dw, rest));
      if t.Literal? {
        LiteralDecodes(s, limit, ll, dl, pos, out, t.b);
        TokensThen(s, limit, ll, dl, pos + |b|, out + [t.b], rest);
      } else {
        MatchDecodes(s, limit, ll, dl, pos, out, t.len, t.dist);
        TokensThen(s, limit, ll, dl, pos + |b|, Echo(out, t.dist, t.len), rest);
      }
    }
  }

  /** What comes after the header of a compressed block. */
  lemma TokensDecode(s: seq<Byte>, limit: nat, ll: seq<nat>, dl: seq<nat>, pos: nat, out: seq<Byte>, tokens: seq<Token>)
    requires Codable(ll) && Codable(dl) && TokensOk(tokens, out) && AllCoded(WordsOf(ll), WordsOf(dl), tokens)
    requires Has(WordsOf(ll), 256)
    requires Holds(s, pos, TokensBits(WordsOf(ll), WordsOf(dl), tokens) + WordsOf(ll)[256])
    requires pos + |TokensBits(WordsOf(ll), WordsOf(dl), tokens) + WordsOf(ll)[256]| <= limit
    ensures RefCodes(s, limit, ll, dl, pos, out)
            == Done(Expand(tokens, out), pos + |TokensBits(WordsOf(ll), WordsOf(dl), tokens) + WordsOf(ll)[256]|)
  {
    hide RefCodes;
    hide Holds;
    hide WordsOf;
    hide Codable;
    hide TokensOk;
    hide AllCoded;
    hide TokensBits;
    hide Expand;
    var b := TokensBits(WordsOf(ll), WordsOf(dl), tokens);
    HoldsBoth(s, pos, b, WordsOf(ll)[256]);
    TokensThen(s, limit, ll, dl, pos, out, tokens);
    EndDecodes(s, limit, ll, dl, pos + |b|, Expand(tokens, out));
  }

  // ----- The code lengths that are sent -----

  lemma RunRead(s: seq<Byte>, limit: nat, cl: seq<nat>, pos: nat, acc: seq<nat>, r: Run, n: nat)
    requires Codable(cl) && r.Ok() && Has(WordsOf(cl), r.Symbol()) && |r.After(acc)| <= n
    requires Holds(s, pos, WordsOf(cl)[r.Symbol()] + r.Extra())
    requires pos + |WordsOf(cl)[r.Symbol()] + r.Extra()| <= limit
    ensures RefLengths(s, limit, cl, pos, acc, LastOf(acc), n)
            == RefLengths(s, limit, cl, pos + |WordsOf(cl)[r.Symbol()] + r.Extra()|, r.After(acc), LastOf(r.After(acc)),
                          n)
  {
    hide Holds;
    hide Lsb;
    hide NextSymbol;
    hide WordsOf;
    hide Codable;
    hide RefLengths;
    hide Run.After;
    hide LastOf;
    hide Repeat;
    var w := WordsOf(cl)[r.Symbol()];
    HoldsBoth(s, pos, w, r.Extra());
    SymbolRead(s, limit, cl, pos, r.Symbol());
    RunExtra(s, pos + |w|, r);
    RunAfter(acc, r);
    hide Run.Extra;
    hide Least;
    hide Has;
    match r
    case One(len) => PlainStep(s, limit, cl, pos, acc, LastOf(acc), n, len, pos + |w|);
    case Again(m) => RunStep(s, limit, cl, pos, acc, LastOf(acc), n, 16, pos + |w|, 2, m, LastOf(acc));
    case Zeros(m) => RunStep(s, limit, cl, pos, acc, LastOf(acc), n, 17, pos + |w|, 3, m, 0);
    case ManyZeros(m) => RunStep(s, limit, cl, pos, acc, LastOf(acc), n, 18, pos + |w|, 7, m, 0);
  }

  lemma PlainStep(s: seq<Byte>, limit: nat, cl: seq<nat>, pos: nat, acc: seq<nat>, prev: nat, n: nat, len: nat, p: nat)
    requires |acc| < n && NextSymbol(s, limit, cl, pos) == Sym(len, p) && len < 16
    ensures RefLengths(s, limit, cl, pos, acc, prev, n) == RefLengths(s, limit, cl, p, acc + [len], len, n)
  {
    hide NextSymbol;
    hide Lsb;
  }

  lemma RunStep(s: seq<Byte>, limit: nat, cl: seq<nat>, pos: nat, acc: seq<nat>, prev: nat, n: nat, sym: nat, p: nat,
                bits: nat, run: nat, value: nat)
    requires NextSymbol(s, limit, cl, pos) == Sym(sym, p) && 16 <= sym <= 18
    requires bits == (if sym == 16 then 2 else if sym == 17 then 3 else 7) && p + bits <= limit
    requires run == (if sym == 18 then 11 else 3) + Lsb(s, p, bits) && |acc| + run <= n
    requires value == if sym == 16 then prev else 0
    ensures RefLengths(s, limit, cl, pos, acc, prev, n)
            == RefLengths(s, limit, cl, p + bits, acc + Repeat(value, run), value, n)
  {
    hide NextSymbol;
    hide Lsb;
    hide Repeat;
  }

  /** The length that code 16 repeats. */
  function LastOf(acc: seq<nat>): nat
  {
    if acc == [] then 0 else acc[|acc| - 1]
  }

  lemma RunExtra(s: seq<Byte>, pos: nat, r: Run)
    requires r.Ok() && Holds(s, pos, r.Extra())
    ensures match r
            case One(len) => r.Extra() == []
            case Again(n) => Lsb(s, pos, 2) == n - 3 && |r.Extra()| == 2
            case Zeros(n) => Lsb(s, pos, 3) == n - 3 && |r.Extra()| == 3
            case ManyZeros(n) => Lsb(s, pos, 7) == n - 11 && |r.Extra()| == 7
  {
    Powers();
    hide Pow2;
    hide Holds;
    hide Lsb;
    hide Least;
    match r
    case One(len) =>
    case Again(n) => LeastRead(s, pos, n - 3, 2);
    case Zeros(n) => LeastRead(s, pos, n - 3, 3);
    case ManyZeros(n) => LeastRead(s, pos, n - 11, 7);
  }

  lemma RunAfter(acc: seq<nat>, r: Run)
    requires r.Ok()
    ensures match r
            case One(len) => r.After(acc) == acc + [len] && LastOf(r.After(acc)) == len
            case Again(n) => r.After(acc) == acc + Repeat(LastOf(acc), n) && LastOf(r.After(acc)) == LastOf(acc)
            case Zeros(n) => r.After(acc) == acc + Repeat(0, n) && LastOf(r.After(acc)) == 0
            case ManyZeros(n) => r.After(acc) == acc + Repeat(0, n) && LastOf(r.After(acc)) == 0
  {
    if r.Again? {
      assert r.After(acc) == acc + Repeat(LastOf(acc), r.n);
    } else if !r.One? {
      assert r.After(acc) == acc + Repeat(0, r.n);
    }
  }

  lemma {:induction false} Grows(runs: seq<Run>, acc: seq<nat>)
    ensures |Unroll(runs, acc)| >= |acc|
    decreases |runs|
  {
    if runs != [] { Grows(runs[1..], runs[0].After(acc)); }
  }

  lemma {:induction false} RunsRead(s: seq<Byte>, limit: nat, cl: seq<nat>, pos: nat, acc: seq<nat>, runs: seq<Run>)
    requires Codable(cl) && RunsOk(WordsOf(cl), runs) && Holds(s, pos, RunsBits(WordsOf(cl), runs))
    requires pos + |RunsBits(WordsOf(cl), runs)| <= limit
    ensures RefLengths(s, limit, cl, pos, acc, LastOf(acc), |Unroll(runs, acc)|)
            == Lens(Unroll(runs, acc), pos + |RunsBits(WordsOf(cl), runs)|)
    decreases |runs|
  {
    hide Holds;
    hide NextSymbol;
    hide WordsOf;
    hide Codable;
    hide LastOf;
    hide Run.After;
    hide Run.Extra;
    if runs != [] {
      var r, rest := runs[0], runs[1..];
      var b := WordsOf(cl)[r.Symbol()] + r.Extra();
      HoldsBoth(s, pos, b, RunsBits(WordsOf(cl), rest));
      Grows(rest, r.After(acc));
      RunRead(s, limit, cl, pos, acc, r, |Unroll(runs, acc)|);
      RunsRead(s, limit, cl, pos + |b|, r.After(acc), rest);
    }
  }

  /** The order in which the lengths of the code length code are sent. */
  lemma OrderIsBorder(i: nat)
    requires i < 19
    ensures Order(BorderIndex(i)) == i
  {
  }

  lemma {:induction false} OrderedRead(s: seq<Byte>, pos: nat, cl: seq<nat>, j: nat, n: nat)
    requires |cl| == 19 && (forall i :: 0 <= i < 19 ==> cl[i] <= 7) && j <= n <= 19
    requires Holds(s, pos, OrderedBits(cl, j, n))
    ensures |OrderedBits(cl, j, n)| == 3 * (n - j)
    ensures forall i: nat :: j <= i < n ==> Lsb(s, pos + 3 * (i - j), 3) == cl[Order(i)]
    decreases n - j
  {
    hide Holds;
    hide Lsb;
    hide Order;
    hide Least;
    if j < n {
      HoldsBoth(s, pos, Least(cl[Order(j)], 3), OrderedBits(cl, j + 1, n));
      Powers();
      LeastRead(s, pos, cl[Order(j)], 3);
      OrderedRead(s, pos + 3, cl, j + 1, n);
      forall i: nat | j <= i < n
        ensures Lsb(s, pos + 3 * (i - j), 3) == cl[Order(i)]
      {
        if i > j { assert pos + 3 * (i - j) == pos + 3 + 3 * (i - (j + 1)); }
      }
    }
  }

  lemma CodeLengthsRead(s: seq<Byte>, pos: nat, codes: Codes)
    requires codes.Ok() && Holds(s, pos, OrderedBits(codes.cl, 0, codes.sent))
    ensures CodeLengthLens(s, pos, codes.sent) == codes.cl && |OrderedBits(codes.cl, 0, codes.sent)| == 3 * codes.sent
  {
    hide Holds;
    hide Lsb;
    hide Order;
    hide BorderIndex;
    hide OrderedBits;
    hide WordsOf;
    hide Unroll;
    OrderedRead(s, pos, codes.cl, 0, codes.sent);
    hide CodeLengthLens;
    forall i: nat | i < 19
      ensures CodeLengthLens(s, pos, codes.sent)[i] == codes.cl[i]
    {
      OrderIsBorder(i);
      LengthSent(s, pos, codes.sent, i);
      assert BorderIndex(i) < codes.sent ==> pos + 3 * (BorderIndex(i) - 0) == pos + 3 * BorderIndex(i);
    }
  }

  lemma LengthSent(s: seq<Byte>, pos: nat, nb: nat, i: nat)
    requires i < 19
    ensures CodeLengthLens(s, pos, nb)[i] == if BorderIndex(i) < nb then Lsb(s, pos + 3 * BorderIndex(i), 3) else 0
  {
    hide BorderIndex;
    hide Lsb;
  }

  lemma UsableAccepted(lens: seq<nat>)
    requires Usable(lens)
    ensures Codable(lens) && !TooMany(lens) && !Incomplete(lens)
  {
    hide KraftSum;
  }

  /** The three counts. */
  lemma CountsRead(s: seq<Byte>, pos: nat, codes: Codes)
    requires codes.Ok() && Holds(s, pos, codes.Bits())
    ensures Lsb(s, pos, 5) == |codes.ll| - 257 && Lsb(s, pos + 5, 5) == |codes.dl| - 1
    ensures Lsb(s, pos + 10, 4) == codes.sent - 4
    ensures Holds(s, pos + 14, OrderedBits(codes.cl, 0, codes.sent) + RunsBits(WordsOf(codes.cl), codes.runs))
    ensures |codes.Bits()| == 14 + |OrderedBits(codes.cl, 0, codes.sent) + RunsBits(WordsOf(codes.cl), codes.runs)|
  {
    hide Holds;
    hide Lsb;
    hide Least;
    hide WordsOf;
    hide OrderedBits;
    hide RunsBits;
    Powers();
    hide Pow2;
    var a, b, c := Least(|codes.ll| - 257, 5), Least(|codes.dl| - 1, 5), Least(codes.sent - 4, 4);
    var rest := OrderedBits(codes.cl, 0, codes.sent) + RunsBits(WordsOf(codes.cl), codes.runs);
    assert codes.Bits() == a + (b + (c + rest));
    HoldsBoth(s, pos, a, b + (c + rest));
    HoldsBoth(s, pos + 5, b, c + rest);
    HoldsBoth(s, pos + 10, c, rest);
    LeastRead(s, pos, |codes.ll| - 257, 5);
    LeastRead(s, pos + 5, |codes.dl| - 1, 5);
    LeastRead(s, pos + 10, codes.sent - 4, 4);
  }

  /** A description is read back, and then the tokens. */
  lemma DescriptionRead(s: seq<Byte>, limit: nat, pos: nat, codes: Codes, out: seq<Byte>)
    requires codes.Ok() && Usable(codes.cl) && Usable(codes.ll) && Usable(codes.dl)
    requires Holds(s, pos, codes.Bits()) && pos + |codes.Bits()| <= limit
    ensures RefDynamic(s, limit, pos, out) == RefCodes(s, limit, codes.ll, codes.dl, pos + |codes.Bits()|, out)
  {
    hide Holds;
    hide Lsb;
    hide WordsOf;
    hide OrderedBits;
    hide RunsBits;
    hide Codes.Bits;
    hide CodeLengthLens;
    hide RefCodes;
    hide RefLengths;
    hide KraftSum;
    CountsRead(s, pos, codes);
    var a, b := OrderedBits(codes.cl, 0, codes.sent), RunsBits(WordsOf(codes.cl), codes.runs);
    HoldsBoth(s, pos + 14, a, b);
    CodeLengthsRead(s, pos + 14, codes);
    UsableAccepted(codes.cl);
    UsableAccepted(codes.ll);
    UsableAccepted(codes.dl);
    RunsRead(s, limit, codes.cl, pos + 14 + |a|, [], codes.runs);
    var l := codes.ll + codes.dl;
    assert l[..|codes.ll|] == codes.ll && l[|codes.ll|..] == codes.dl;
  }

  // ----- Blocks -----

  /** The fixed codes are the canonical ones for the fixed code lengths. */
  lemma FixedCounts(n: nat)
    requires n <= 288
    ensures Count(FixedLit()[..n], 8) == (if n <= 144 then n else if n <= 280 then 144 else n - 136)
    ensures Count(FixedLit()[..n], 9) == (if n <= 144 then 0 else if n <= 256 then n - 144 else 112)
    ensures Count(FixedLit()[..n], 7) == (if n <= 256 then 0 else if n <= 280 then n - 256 else 24)
    ensures forall k :: 0 <= k < 7 ==> Count(FixedLit()[..n], k) == 0
  {
    if n > 0 {
      FixedCounts(n - 1);
      assert FixedLit()[..n][..n - 1] == FixedLit()[..n - 1];
    }
  }

  lemma FixedIsCanonical()
    ensures WordsOf(FixedLit()) == FixedWords() && Codable(FixedLit())
  {
    InflateTrees.FixedLitComplete();
    hide KraftSum;
    hide CodeOf;
    hide FixedWord;
    forall sym: nat | sym < 288
      ensures WordsOf(FixedLit())[sym] == FixedWords()[sym]
    {
      FixedWordIs(sym);
    }
  }

  lemma FixedWordIs(sym: nat)
    requires sym < 288
    ensures Most(CodeOf(FixedLit(), sym), FixedLit()[sym]) == FixedWord(sym)
  {
    hide *;
    FixedNext();
    FixedCounts(sym);
    FixedLen(sym);
    CodeParts(FixedLit(), sym);
    FixedWordOf(sym);
  }

  lemma FixedLen(sym: nat)
    requires sym < 288
    ensures FixedLit()[sym] == if sym < 144 then 8 else if sym < 256 then 9 else if sym < 280 then 7 else 8
  {
  }

  lemma CodeParts(lens: seq<nat>, sym: nat)
    requires sym < |lens|
    ensures CodeOf(lens, sym) == NextCode(lens, lens[sym]) + Count(lens[..sym], lens[sym])
  {
  }

  lemma FixedWordOf(sym: nat)
    requires sym < 288
    ensures FixedWord(sym)
            == if sym < 144 then Most(0x30 + sym, 8)
               else if sym < 256 then Most(0x190 + (sym - 144), 9)
               else if sym < 280 then Most(sym - 256, 7)
               else Most(0xc0 + (sym - 280), 8)
  {
    hide Most;
  }

  lemma FixedNext()
    ensures NextCode(FixedLit(), 7) == 0 && NextCode(FixedLit(), 8) == 0x30 && NextCode(FixedLit(), 9) == 0x190
  {
    FixedCounts(288);
    assert FixedLit()[..288] == FixedLit();
    hide Count;
    NextZero(FixedLit(), 7);
  }

  lemma {:induction false} NextZero(lens: seq<nat>, k: nat)
    requires forall i :: 0 < i < k ==> Count(lens, i) == 0
    ensures NextCode(lens, k) == 0
  {
    if k > 0 { NextZero(lens, k - 1); }
  }

  lemma FixedDistCounts(n: nat)
    requires n <= 30
    ensures Count(FixedDist()[..n], 5) == n && forall k :: 0 <= k < 5 ==> Count(FixedDist()[..n], k) == 0
  {
    if n > 0 {
      FixedDistCounts(n - 1);
      assert FixedDist()[..n][..n - 1] == FixedDist()[..n - 1];
    }
  }

  lemma FixedDistIsCanonical()
    ensures WordsOf(FixedDist()) == FixedDistWords() && Codable(FixedDist())
  {
    InflateTrees.FixedDistSum();
    hide KraftSum;
    hide CodeOf;
    hide Most;
    forall sym: nat | sym < 30
      ensures WordsOf(FixedDist())[sym] == FixedDistWords()[sym]
    {
      FixedDistCode(sym);
    }
  }

  lemma FixedDistCode(sym: nat)
    requires sym < 30
    ensures CodeOf(FixedDist(), sym) == sym && FixedDist()[sym] == 5
  {
    FixedDistLen(sym);
    hide *;
    FixedDistCounts(30);
    FixedDistCounts(sym);
    NextZero(FixedDist(), 5);
    CodeParts(FixedDist(), sym);
  }

  lemma FixedDistLen(sym: nat)
    requires sym < 30
    ensures FixedDist()[sym] == 5 && FixedDist()[..30] == FixedDist()
  {
  }

  lemma FixedRead(s: seq<Byte>, limit: nat, pos: nat, out: seq<Byte>, tokens: seq<Token>)
    requires TokensOk(tokens, out) && AllCoded(FixedWords(), FixedDistWords(), tokens)
    requires Holds(s, pos, TokensBits(FixedWords(), FixedDistWords(), tokens) + FixedWord(256))
    requires pos + |TokensBits(FixedWords(), FixedDistWords(), tokens) + FixedWord(256)| <= limit
    ensures RefCodes(s, limit, FixedLit(), FixedDist(), pos, out)
            == Done(Expand(tokens, out), pos + |TokensBits(FixedWords(), FixedDistWords(), tokens) + FixedWord(256)|)
  {
    FixedIsCanonical();
    FixedDistIsCanonical();
    WordAt(256);
    hide *;
    TokensDecode(s, limit, FixedLit(), FixedDist(), pos, out, tokens);
  }

  lemma WordAt(sym: nat)
    requires sym < 288
    ensures FixedWords()[sym] == FixedWord(sym) && Has(FixedWords(), sym)
  {
  }

  lemma {:induction false} BytesRead(s: seq<Byte>, i: nat, data: seq<Byte>)
    requires i + |data| <= |s| && Holds(s, 8 * i, ByteBits(data))
    ensures s[i..i + |data|] == data
    decreases |data|
  {
    hide Holds;
    hide Lsb;
    hide Least;
    if data != [] {
      HoldsBoth(s, 8 * i, Least(data[0], 8), ByteBits(data[1..]));
      Powers();
      LeastRead(s, 8 * i, data[0], 8);
      LsbByte(s, i);
      BytesRead(s, i + 1, data[1..]);
      assert s[i..i + |data|] == [s[i]] + s[i + 1..i + 1 + |data[1..]|];
    }
  }

  /** The padding ends at the byte boundary. */
  lemma PaddingEnds(pos: nat, n: nat)
    requires pos % 8 == n % 8
    ensures Aligned(pos + 2) == pos + 2 + (6 + 7 * n) % 8
  {
    var a, r := pos / 8, pos % 8;
    var m := n / 8;
    assert pos == 8 * a + r && n == 8 * m + r;
    var pad := if r <= 6 then 6 - r else 7;
    DivModUnique(6 + 7 * n, 8, if r <= 6 then 7 * m + r else 7 * m + 6, pad);
    DivModUnique(pos + 9, 8, if r <= 6 then a + 1 else a + 2, if r <= 6 then r + 1 else 0);
  }

  lemma BodyRead(s: seq<Byte>, i: nat, data: seq<Byte>)
    requires |data| <= 0xffff && Holds(s, 8 * i, StoredBody(data)) && i + 4 + |data| <= |s|
    ensures Lsb(s, 8 * i, 16) == |data| && Lsb(s, 8 * i + 16, 16) == 0xffff - |data|
    ensures s[i + 4..i + 4 + |data|] == data
  {
    hide Holds;
    hide Lsb;
    hide Least;
    hide ByteBits;
    var a, c := Least(|data|, 16), Least(0xffff - |data|, 16);
    HoldsBoth(s, 8 * i, a, c + ByteBits(data));
    HoldsBoth(s, 8 * i + 16, c, ByteBits(data));
    Pow2Sixteen();
    LeastRead(s, 8 * i, |data|, 16);
    LeastRead(s, 8 * i + 16, 0xffff - |data|, 16);
    BytesRead(s, i + 4, data);
  }

  lemma StoredRead(s: seq<Byte>, limit: nat, pos: nat, out: seq<Byte>, data: seq<Byte>)
    requires |data| <= 0xffff && Holds(s, Aligned(pos), StoredBody(data))
    requires Aligned(pos) + |StoredBody(data)| <= limit <= 8 * |s|
    ensures RefStored(s, limit, pos, out) == Done(out + data, Aligned(pos) + |StoredBody(data)|)
  {
    hide Holds;
    hide Lsb;
    hide StoredBody;
    AlignedWhole(pos);
    hide Aligned;
    var i := Aligned(pos) / 8;
    assert Aligned(pos) == 8 * i;
    BodyRead(s, i, data);
  }

  lemma AlignedWhole(pos: nat)
    ensures Aligned(pos) % 8 == 0
  {
  }

  /** The two bits that tell the kind. */
  lemma KindRead(s: seq<Byte>, pos: nat, a: Bit, b: Bit, rest: seq<Bit>)
    requires Holds(s, pos, [a, b] + rest)
    ensures Lsb(s, pos, 2) == a + 2 * b && Holds(s, pos + 2, rest)
  {
    hide BitAt;
    HoldsBoth(s, pos, [a, b], rest);
    assert BitAt(s, pos + 0) == [a, b][0] && BitAt(s, pos + 1) == [a, b][1];
  }

  /** One block is read back, from the bits of its kind on. */
  lemma BlockRead(s: seq<Byte>, limit: nat, pos: nat, out: seq<Byte>, b: Block, n: nat)
    requires BlockOk(b, out) && pos % 8 == n % 8 && Holds(s, pos, BlockBits(b, out, n))
    requires pos + |BlockBits(b, out, n)| <= limit <= 8 * |s|
    ensures RefBlock(s, limit, Lsb(s, pos, 2), pos + 2, out) == Done(Meaning(b, out), pos + |BlockBits(b, out, n)|)
  {
    hide Holds;
    hide Lsb;
    hide RefBlock;
    hide BlockBits;
    hide BlockOk;
    match b
    case Stored(data) => KindStored(s, limit, pos, out, data, n);
    case Fixed(tokens) => KindFixed(s, limit, pos, out, tokens, n);
    case Dynamic(codes, tokens) => KindDynamic(s, limit, pos, out, codes, tokens, n);
  }

  lemma KindStored(s: seq<Byte>, limit: nat, pos: nat, out: seq<Byte>, data: seq<Byte>, n: nat)
    requires BlockOk(Stored(data), out) && pos % 8 == n % 8 && Holds(s, pos, BlockBits(Stored(data), out, n))
    requires pos + |BlockBits(Stored(data), out, n)| <= limit <= 8 * |s|
    ensures RefBlock(s, limit, Lsb(s, pos, 2), pos + 2, out)
            == Done(Meaning(Stored(data), out), pos + |BlockBits(Stored(data), out, n)|)
  {
    hide Holds;
    hide Lsb;
    hide StoredBody;
    hide RefStored;
    hide Aligned;
    PaddingEnds(pos, n);
    var pad := Padding((6 + 7 * n) % 8);
    KindRead(s, pos, 0, 0, pad + StoredBody(data));
    HoldsBoth(s, pos + 2, pad, StoredBody(data));
    StoredRead(s, limit, pos + 2, out, data);
  }

  lemma KindFixed(s: seq<Byte>, limit: nat, pos: nat, out: seq<Byte>, tokens: seq<Token>, n: nat)
    requires BlockOk(Fixed(tokens), out) && Holds(s, pos, BlockBits(Fixed(tokens), out, n))
    requires pos + |BlockBits(Fixed(tokens), out, n)| <= limit <= 8 * |s|
    ensures RefBlock(s, limit, Lsb(s, pos, 2), pos + 2, out)
            == Done(Meaning(Fixed(tokens), out), pos + |BlockBits(Fixed(tokens), out, n)|)
  {
    hide Holds;
    hide Lsb;
    hide RefCodes;
    hide TokensBits;
    hide AllCoded;
    hide TokensOk;
    FixedHas(tokens, out);
    hide FixedWord;
    KindRead(s, pos, 1, 0, TokensBits(FixedWords(), FixedDistWords(), tokens) + FixedWord(256));
    FixedRead(s, limit, pos + 2, out, tokens);
  }

  lemma KindDynamic(s: seq<Byte>, limit: nat, pos: nat, out: seq<Byte>, codes: Codes, tokens: seq<Token>, n: nat)
    requires BlockOk(Dynamic(codes, tokens), out) && Holds(s, pos, BlockBits(Dynamic(codes, tokens), out, n))
    requires pos + |BlockBits(Dynamic(codes, tokens), out, n)| <= limit <= 8 * |s|
    ensures RefBlock(s, limit, Lsb(s, pos, 2), pos + 2, out)
            == Done(Meaning(Dynamic(codes, tokens), out), pos + |BlockBits(Dynamic(codes, tokens), out, n)|)
  {
    hide Holds;
    hide Lsb;
    hide RefDynamic;
    hide TokensBits;
    hide Codes.Bits;
    hide Codes.Ok;
    hide Usable;
    hide AllCoded;
    hide TokensOk;
    hide WordsOf;
    var d := codes.Bits();
    var rest := TokensBits(WordsOf(codes.ll), WordsOf(codes.dl), tokens) + WordsOf(codes.ll)[256];
    KindRead(s, pos, 0, 1, d + rest);
    HoldsBoth(s, pos + 2, d, rest);
    DynamicRead(s, limit, pos + 2, out, codes, tokens);
  }

  lemma DynamicRead(s: seq<Byte>, limit: nat, pos: nat, out: seq<Byte>, codes: Codes, tokens: seq<Token>)
    requires BlockOk(Dynamic(codes, tokens), out) && Holds(s, pos, codes.Bits())
    requires var rest := TokensBits(WordsOf(codes.ll), WordsOf(codes.dl), tokens) + WordsOf(codes.ll)[256];
      Holds(s, pos + |codes.Bits()|, rest) && pos + |codes.Bits()| + |rest| <= limit
    ensures RefDynamic(s, limit, pos, out)
            == Done(Expand(tokens, out),
                    pos + |codes.Bits()|
                    + |TokensBits(WordsOf(codes.ll), WordsOf(codes.dl), tokens) + WordsOf(codes.ll)[256]|)
  {
    hide Holds;
    hide RefCodes;
    hide RefDynamic;
    hide TokensBits;
    hide WordsOf;
    hide Codes.Bits;
    hide Usable;
    hide Codable;
    hide AllCoded;
    hide TokensOk;
    UsableAccepted(codes.ll);
    UsableAccepted(codes.dl);
    DescriptionRead(s, limit, pos, codes, out);
    TokensDecode(s, limit, codes.ll, codes.dl, pos + |codes.Bits()|, out, tokens);
  }

  // ----- Streams -----

  /** Any list of blocks of any kinds, with anything around it, decodes to what the blocks say. */
  lemma {:induction false} StreamRead(s: seq<Byte>, limit: nat, pos: nat, out: seq<Byte>, blocks: seq<Block>, n: nat)
    requires BlocksOk(blocks, out) && blocks != [] && pos % 8 == n % 8 && Holds(s, pos, StreamBits(blocks, out, n))
    requires pos + |StreamBits(blocks, out, n)| <= limit <= 8 * |s|
    ensures RefInflate(s, limit, pos, out) == Done(Content(blocks, out), pos + |StreamBits(blocks, out, n)|)
    decreases |blocks|
  {
    hide Holds;
    hide Lsb;
    hide RefBlock;
    hide BlockBits;
    hide BlockOk;
    hide Meaning;
    var mark: Bit := if |blocks| == 1 then 1 else 0;
    var body := BlockBits(blocks[0], out, n + 1);
    var now := Meaning(blocks[0], out);
    var b := [mark] + body;
    if |blocks| > 1 { HoldsBoth(s, pos, b, StreamBits(blocks[1..], now, n + |b|)); }
    HoldsBoth(s, pos, [mark], body);
    MarkRead(s, pos, mark);
    SamePhase(pos, n, 1);
    BlockRead(s, limit, pos + 1, out, blocks[0], n + 1);
    KindThere(blocks[0], out, n + 1);
    if |blocks| > 1 {
      SamePhase(pos, n, |b|);
      StreamRead(s, limit, pos + |b|, now, blocks[1..], n + |b|);
    } else {
      assert blocks[1..] == [];
    }
  }

  lemma KindThere(b: Block, out: seq<Byte>, n: nat)
    requires BlockOk(b, out)
    ensures |BlockBits(b, out, n)| >= 2
  {
  }

  lemma MarkRead(s: seq<Byte>, pos: nat, mark: Bit)
    requires Holds(s, pos, [mark])
    ensures Lsb(s, pos, 1) == mark
  {
    hide BitAt;
    assert BitAt(s, pos + 0) == [mark][0];
    assert Lsb(s, pos + 1, 0) == 0;
  }

  lemma SamePhase(pos: nat, n: nat, k: nat)
    requires pos % 8 == n % 8
    ensures (pos + k) % 8 == (n + k) % 8
  {
  }

  lemma {:induction false} ValueBits(bits: seq<Bit>, k: nat)
    requires k < |bits| <= 8
    ensures Shr(Value(bits), k) % 2 == bits[k]
  {
    hide Shr;
    if k == 0 {
      ShrNone(Value(bits));
    } else {
      ValueBits(bits[1..], k - 1);
      ShrHalf(Value(bits), k);
    }
  }

  lemma ByteHolds(s: seq<Byte>, h: nat, bits: seq<Bit>)
    requires h < |s| && |bits| <= 8 && s[h] == Value(bits)
    ensures Holds(s, 8 * h, bits)
  {
    hide Shr;
    hide Value;
    forall i: nat | i < |bits|
      ensures BitAt(s, 8 * h + i) == bits[i]
    {
      ValueBits(bits, i);
      DivModUnique(8 * h + i, 8, h, i);
    }
  }

  /** The bytes of the stream hold its bits. */
  lemma {:induction false} Packed(s: seq<Byte>, h: nat, bits: seq<Bit>)
    requires h + |Pack(bits)| <= |s| && s[h..h + |Pack(bits)|] == Pack(bits)
    ensures Holds(s, 8 * h, bits)
    decreases |bits|
  {
    hide BitAt;
    if bits != [] {
      assert s[h] == Pack(bits)[0];
      if |bits| < 8 {
        ByteHolds(s, h, bits);
      } else {
        ByteHolds(s, h, bits[..8]);
        assert s[h + 1..h + 1 + |Pack(bits[8..])|] == Pack(bits)[1..];
        Packed(s, h + 1, bits[8..]);
        HoldsAll(s, 8 * h, bits);
      }
    }
  }

  lemma HoldsAll(s: seq<Byte>, pos: nat, bits: seq<Bit>)
    requires |bits| >= 8 && Holds(s, pos, bits[..8]) && Holds(s, pos + 8, bits[8..])
    ensures Holds(s, pos, bits)
  {
    hide BitAt;
    forall i: nat | i < |bits|
      ensures BitAt(s, pos + i) == bits[i]
    {
      if i < 8 { assert bits[..8][i] == bits[i]; } else { assert BitAt(s, pos + 8 + (i - 8)) == bits[8..][i - 8]; }
    }
  }

  function StreamBytes(blocks: seq<Block>): seq<Byte>
    requires BlocksOk(blocks, []) && blocks != []
  {
    Pack(StreamBits(blocks, [], 0))
  }

  /** The bytes of a stream decode to what its blocks say, whatever is around them. */
  lemma RoundTrip(s: seq<Byte>, limit: nat, i: nat, blocks: seq<Block>)
    requires BlocksOk(blocks, []) && blocks != []
    requires i + |StreamBytes(blocks)| <= |s| && s[i..i + |StreamBytes(blocks)|] == StreamBytes(blocks)
    requires 8 * (i + |StreamBytes(blocks)|) <= limit <= 8 * |s|
    ensures var r := RefInflate(s, limit, 8 * i, []);
      r.Done? && r.out == Content(blocks, []) && (r.pos + 7) / 8 == i + |StreamBytes(blocks)|
  {
    var n := |StreamBits(blocks, [], 0)|;
    Packed(s, i, StreamBits(blocks, [], 0));
    hide *;
    assert |StreamBytes(blocks)| == (n + 7) / 8 by { StreamSize(blocks); }
    DivModUnique(8 * i, 8, i, 0);
    WholeBytes(i, n);
    StreamRead(s, limit, 8 * i, [], blocks, 0);
  }

  lemma StreamSize(blocks: seq<Block>)
    requires BlocksOk(blocks, []) && blocks != []
    ensures |StreamBytes(blocks)| == (|StreamBits(blocks, [], 0)| + 7) / 8
  {
    hide StreamBits;
    hide Pack;
  }

  lemma WholeBytes(i: nat, n: nat)
    ensures (8 * i + n + 7) / 8 == i + (n + 7) / 8 && n <= 8 * ((n + 7) / 8)
  {
    var q := (n + 7) / 8;
    assert n + 7 == 8 * q + (n + 7) % 8;
    DivModUnique(8 * i + n + 7, 8, i + q, (n + 7) % 8);
  }
}
