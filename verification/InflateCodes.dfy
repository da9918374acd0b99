/** inflate_codes: table lookups over the bit buffer, literals and copies, against the reference decoder. */
module InflateCodes {
  import opened Bits
  import opened BitStream
  import opened Huffman
  import opened HuftTables
  import opened HuftBuild
  import opened InflateSpec
  import opened Inflater
  import opened InflateCopy

  /** How a function of inflate.c ends: return 0, return code, undetermined, or out of input. */
  datatype Status = Ok | Err(code: nat) | Undef | OutOfInput

  /** The tables huft_build leaves behind, and the bits of the root table (tl and bl, td and bd). */
  datatype Tree = Tree(ts: Tables, m: nat)

  /** The three alphabets, with their simple values and the base values and extra bits of the others. */
  datatype Alphabet = CodeLengths | Literals | Distances
  {
    function Simple(): nat { match this case CodeLengths => 19 case Literals => 257 case Distances => 0 }
    function Base(): seq<nat> { match this case CodeLengths => [] case Literals => CPLENS case Distances => CPDIST }
    function Extra(): (r: seq<nat>)
      ensures |r| == |Base()|
    {
      match this case CodeLengths => [] case Literals => CPLEXT case Distances => CPDEXT
    }
    function Size(): (n: nat)
      ensures n <= Simple() + |Base()|
    {
      match this case CodeLengths => 19 case Literals => 288 case Distances => 30
    }
  }

  predicate Invalid(a: Alphabet, sym: nat)
  {
    a == Literals && sym >= 286
  }

  lemma ExtraBits(a: Alphabet)
    ensures forall i :: 0 <= i < |a.Extra()| ==>
              (a.Extra()[i] <= 13 && !Invalid(a, a.Simple() + i)) || (a.Extra()[i] == 99 && Invalid(a, a.Simple() + i))
  {
  }

  /** The table slot of a symbol. */
  function Slot(a: Alphabet, sym: nat, b: nat): Huft
    requires sym < a.Size()
  {
    Value(sym, b, a.Simple(), a.Base(), a.Extra())
  }

  ghost predicate TreeOk(t: Tree, lens: seq<nat>, a: Alphabet)
  {
    && 0 < |lens| <= a.Size() && Lengths(lens)
    && if AllZero(lens) then |t.ts| == 0 && t.m == 0
       else
         && 1 <= t.m <= 9 && Linked(t.ts) && 0 < |t.ts| && Pow2(t.m) <= |t.ts[0]|
         && Serves(lens, a.Simple(), a.Base(), a.Extra(), t.ts, t.m)
  }

  lemma NoneZeroMatch(lens: seq<nat>, s: seq<Byte>, pos: nat)
    requires AllZero(lens) && 0 < |lens|
    ensures !SomeMatch(lens, s, pos) && !NoneZero(lens)
  {
    assert lens[0] == 0;
  }

  /** Where a walk through the tables stands: slot h of table id, indexed with e bits, after `used` bits. */
  ghost predicate Walking(ts: Tables, m: nat, s: seq<Byte>, pos: nat, id: nat, e: nat, used: nat, h: Huft)
  {
    && Linked(ts) && 0 < |ts| && Pow2(m) <= |ts[0]|
    && id < |ts| && e <= 9 && used + e <= 16 && Pow2(e) <= |ts[id]|
    && Lsb(s, pos + used, e) < |ts[id]| && h == ts[id][Lsb(s, pos + used, e)]
    && WalkSafe(ts, id, e, s, pos + used, used)
    && Walk(ts, 0, m, s, pos) == Walk(ts, id, e, s, pos + used)
  }

  lemma WalkStart(t: Tree, lens: seq<nat>, a: Alphabet, s: seq<Byte>, pos: nat)
    requires TreeOk(t, lens, a) && !AllZero(lens)
    ensures Lsb(s, pos, t.m) < |t.ts[0]|
    ensures Walking(t.ts, t.m, s, pos, 0, t.m, 0, t.ts[0][Lsb(s, pos, t.m)])
  {
    hide Pow2;
    hide Lsb;
    hide Linked;
    hide Unowned;
    LsbConcat(s, pos, t.m, 0);
    var f := Walk(t.ts, 0, t.m, s, pos);
    assert Decodes(lens, a.Simple(), a.Base(), a.Extra(), t.ts, t.m, s, pos);
  }

  /** Following one link. */
  lemma WalkStep(ts: Tables, m: nat, s: seq<Byte>, pos: nat, id: nat, e: nat, used: nat, h: Huft)
    requires Walking(ts, m, s, pos, id, e, used, h) && h.IsLink()
    ensures 16 < h.e <= 24 && 1 <= h.b <= e && id < h.v < |ts| && used + h.b + h.e <= 32
    ensures Lsb(s, pos + used + h.b, h.e - 16) < |ts[h.v]|
    ensures Walking(ts, m, s, pos, h.v, h.e - 16, used + h.b, ts[h.v][Lsb(s, pos + used + h.b, h.e - 16)])
  {
    hide Pow2;
    hide Lsb;
    assert LinkOk(ts, id, h);
    LsbConcat(s, pos + used + h.b, h.e - 16, 0);
    assert WalkSafe(ts, h.v, h.e - 16, s, pos + used + h.b, used + h.b);
    assert pos + used + h.b == pos + (used + h.b);
  }

  lemma WalkEnd(ts: Tables, m: nat, s: seq<Byte>, pos: nat, id: nat, e: nat, used: nat, h: Huft)
    requires Walking(ts, m, s, pos, id, e, used, h) && !h.IsLink()
    ensures Walk(ts, 0, m, s, pos) == Found(h, pos + used, e)
  {
  }

  /** The input ran out at a position so near its end that a lookup could reach beyond it. */
  ghost predicate RanOut(r: Status, pos: int, s: seq<Byte>)
  {
    r == OutOfInput && pos + 16 > 8 * |s|
  }

  /** The symbol found by a lookup, as the reference decoder sees it. */
  ghost predicate SymbolFound(s: seq<Byte>, limit: nat, lens: seq<nat>, a: Alphabet,
                              pos: nat, r: Status, h: Huft, sym: nat, now: int)
    requires |lens| <= a.Size()
  {
    && (r == Ok ==>
          && Matches(lens, s, pos, sym) && now == pos + lens[sym]
          && h.Entry? && h.e <= 16 && h == Slot(a, sym, h.b))
    && (r == OutOfInput ==> RanOut(r, pos, s))
    && match NextSymbol(s, limit, lens, pos)
       case Sym(sym', p) =>
         || (r == Ok && sym == sym' && now == p)
         || (r == Err(1) && Invalid(a, sym'))
         || r == OutOfInput
       case NoSym(why) =>
         && (why == Error(1) ==> r == Err(1) || r == OutOfInput)
         && (why == Short && r == Ok ==> now > limit)
  }

  /** What the last slot of a walk says. */
  lemma SlotMeaning(t: Tree, lens: seq<nat>, a: Alphabet, s: seq<Byte>, pos: nat,
                    used: nat, e: nat, h: Huft) returns (sym: nat)
    requires TreeOk(t, lens, a) && !AllZero(lens)
    requires Walk(t.ts, 0, t.m, s, pos) == Found(h, pos + used, e) && !h.IsLink()
    ensures h.Entry? && h.e != 99 ==>
              && Matches(lens, s, pos, sym) && pos + used + h.b == pos + lens[sym] && 1 <= h.b <= e
              && h == Slot(a, sym, h.b) && h.e <= 16
    ensures h.Entry? && h.e == 99 && Matches(lens, s, pos, sym) ==> Invalid(a, sym)
    ensures h == Wild ==> !SomeMatch(lens, s, pos) && !NoneZero(lens)
    ensures Matches(lens, s, pos, sym) || !SomeMatch(lens, s, pos)
  {
    hide Pow2;
    hide Linked;
    hide Walk;
    hide Matches;
    hide AllZero;
    hide Value;
    hide Alphabet.Simple;
    hide Alphabet.Base;
    hide Alphabet.Extra;
    hide WalkSafe;
    hide Unowned;
    assert Decodes(lens, a.Simple(), a.Base(), a.Extra(), t.ts, t.m, s, pos);
    sym := 0;
    if SomeMatch(lens, s, pos) {
      sym :| Matches(lens, s, pos, sym);
      MatchInRange(lens, s, pos, sym);
      SlotKinds(a, sym, pos + lens[sym] - (pos + used));
    } else {
      UnownedMeans(lens, Msb(s, pos, 16), h);
    }
  }

  lemma SlotKinds(a: Alphabet, sym: nat, b: nat)
    requires sym < a.Size()
    ensures var h := Slot(a, sym, b);
            h.Entry? && h.b == b && if Invalid(a, sym) then h.e == 99 else h.e <= 16
  {
    ExtraBits(a);
  }

  /** Running out of input while looking a symbol up. */
  lemma OutOfBits(s: seq<Byte>, limit: nat, lens: seq<nat>, a: Alphabet, pos: nat, h: Huft, sym: nat, now: int)
    requires |lens| <= a.Size() && pos + 16 > 8 * |s|
    ensures SymbolFound(s, limit, lens, a, pos, OutOfInput, h, sym, now)
  {
  }

  lemma TreeShape(t: Tree, lens: seq<nat>, a: Alphabet)
    requires TreeOk(t, lens, a)
    ensures 0 < |lens| <= a.Size() && Lengths(lens) && (AllZero(lens) <==> |t.ts| == 0)
    ensures |t.ts| > 0 ==> 1 <= t.m <= 9
  {
  }

  /** n bits are fetched and looked at, but not taken. */
  method LookBits(st: State, n: nat) returns (ok: bool, x: nat)
    requires st.BufferOk() && n <= 16
    modifies st`inptr, st`bb, st`bk
    ensures st.BufferOk() && st.Pos() == old(st.Pos())
    ensures ok ==> x == Lsb(st.input, st.Pos(), n)
    ensures ok ==> n <= st.bk && (if old(st.bk) >= n then st.bk == old(st.bk) else st.bk <= n + 7)
    ensures !ok ==> st.Pos() + n > 8 * |st.input| && st.bk < n
  {
    hide Lsb;
    hide Pow2;
    x := 0;
    ok := st.NeedBits(n);
    if ok {
      st.PeekIsLsb(n);
      x := st.Peek(n);
    }
  }

  /** Index the root table and follow links to the last slot. */
  method FollowLinks(st: State, t: Tree, ghost lens: seq<nat>, ghost a: Alphabet)
    returns (ok: bool, h: Huft, ghost used: nat, ghost e: nat)
    requires st.BufferOk() && st.bk <= 15 && TreeOk(t, lens, a) && !AllZero(lens)
    modifies st`inptr, st`bb, st`bk
    ensures st.BufferOk()
    ensures ok ==> !h.IsLink() && st.Pos() == old(st.Pos()) + used && e <= st.bk <= 16
    ensures ok ==> Walk(t.ts, 0, t.m, st.input, old(st.Pos())) == Found(h, st.Pos(), e)
    ensures !ok ==> old(st.Pos()) + 16 > 8 * |st.input|
  {
    hide Pow2;
    hide Lsb;
    hide Walking;
    hide SomeMatch;
    hide Linked;
    hide Serves;
    hide TreeOk;
    hide Lengths;
    hide AllZero;
    hide Walk;
    hide LinkOk;
    ghost var pos := st.Pos();
    h := Wild;
    TreeShape(t, lens, a);
    WalkStart(t, lens, a, st.input, pos);
    var n: nat, id: nat := t.m, 0;
    used, e := 0, n;
    var x;
    ok, x := LookBits(st, n);
    if !ok { return; }
    h := t.ts[id][x];
    while h.IsLink()
      invariant st.BufferOk() && st.Pos() == pos + used && n == e <= st.bk <= 16 && ok
      invariant Walking(t.ts, t.m, st.input, pos, id, n, used, h)
      decreases |t.ts| - id
    {
      WalkStep(t.ts, t.m, st.input, pos, id, n, used, h);
      st.DumpBits(h.b);
      used := used + h.b;
      n := h.e - 16;
      e := n;
      id := h.v;
      ok, x := LookBits(st, n);
      if !ok { return; }
      h := t.ts[id][x];
    }
    WalkEnd(t.ts, t.m, st.input, pos, id, n, used, h);
  }

  /**
   Look a code up: index the root table, follow links, drop the code's bits.
   A slot nobody wrote (or a missing table) makes the rest undetermined.
   */
  method LookUp(st: State, t: Tree, ghost limit: nat, ghost lens: seq<nat>,
                ghost a: Alphabet)
    returns (r: Status, h: Huft, ghost sym: nat)
    requires st.BufferOk() && limit <= 8 * |st.input| && st.bk <= 15
    requires TreeOk(t, lens, a)
    modifies st`inptr, st`bb, st`bk
    ensures st.BufferOk() && (r == Ok ==> st.bk <= 15)
    ensures SymbolFound(st.input, limit, lens, a, old(st.Pos()), r, h, sym, st.Pos())
  {
    hide SomeMatch;
    hide NextSymbol;
    hide Matches;
    hide Slot;
    hide SymbolFound;
    hide TreeOk;
    hide Lengths;
    hide AllZero;
    hide NoneZero;
    hide Walk;
    ghost var pos := st.Pos();
    TreeShape(t, lens, a);
    sym := 0;
    h := Wild;
    if |t.ts| == 0 {
      NoneZeroMatch(lens, st.input, pos);
      r := Undef;
      SlotFound(st.input, limit, lens, a, pos, r, h, sym, st.Pos());
      return;
    }
    var ok;
    ghost var used: nat, e: nat;
    ok, h, used, e := FollowLinks(st, t, lens, a);
    if !ok {
      OutOfBits(st.input, limit, lens, a, pos, h, sym, st.Pos());
      r := OutOfInput;
      return;
    }
    sym := SlotMeaning(t, lens, a, st.input, pos, used, e, h);
    if h == Wild {
      r := Undef;
    } else if h.e == 99 {
      r := Err(1);
    } else {
      st.DumpBits(h.b);
      r := Ok;
    }
    SlotFound(st.input, limit, lens, a, pos, r, h, sym, st.Pos());
  }

  lemma SlotFound(s: seq<Byte>, limit: nat, lens: seq<nat>, a: Alphabet,
                  pos: nat, r: Status, h: Huft, sym: nat, now: int)
    requires |lens| <= a.Size() && Lengths(lens)
    requires Matches(lens, s, pos, sym) || !SomeMatch(lens, s, pos)
    requires match r
      case Ok =>
        && Matches(lens, s, pos, sym) && now == pos + lens[sym]
        && h.Entry? && h.e <= 16 && h == Slot(a, sym, h.b)
      case Err(c) => c == 1 && (Matches(lens, s, pos, sym) ==> Invalid(a, sym))
      case Undef => !SomeMatch(lens, s, pos) && !NoneZero(lens)
      case OutOfInput => false
    ensures SymbolFound(s, limit, lens, a, pos, r, h, sym, now)
  {
    hide Matches;
    match NextSymbol(s, limit, lens, pos)
    case Sym(sym', p) => MatchUnique(lens, s, pos, sym, sym');
    case NoSym(why) =>
      if r == Ok && why == Short { BeyondLimit(s, limit, lens, pos, sym); }
  }

  /** A symbol that is there, but not for the reference decoder, ends past the limit. */
  lemma BeyondLimit(s: seq<Byte>, limit: nat, lens: seq<nat>, pos: nat, sym: nat)
    requires Lengths(lens) && Matches(lens, s, pos, sym) && NextSymbol(s, limit, lens, pos) == NoSym(Short)
    ensures pos + lens[sym] > limit
  {
    MatchPositive(lens, s, pos, sym);
    hide Matches;
    forall m: nat | Matches(lens, s, pos, m)
      ensures m == sym
    {
      MatchUnique(lens, s, pos, m, sym);
    }
  }

  lemma MatchPositive(lens: seq<nat>, s: seq<Byte>, pos: nat, sym: nat)
    requires Matches(lens, s, pos, sym)
    ensures sym < |lens| && lens[sym] > 0
  {
  }

  // ----- The block loop -----

  /**
   What a method ended with, against what the reference decoder says with its limit. Close to the end of the input a
   lookup may ask for more bits than there are; a stream that needs bits past the limit leaves the reader past it.
   */
  ghost predicate Agrees(goal: Outcome, r: Status, out: seq<Byte>, pos: int, s: seq<Byte>, limit: nat)
  {
    match goal
    case Done(o, p) => (r == Ok && out == o && pos == p) || RanOut(r, p, s)
    case Error(c) => r == Err(c) || RanOut(r, limit, s)
    case Undefined => true
    case Short => r == Ok ==> pos > limit
  }

  /** The rest still decodes to the same outcome. */
  ghost predicate SameGoal(goal: Outcome, now: Outcome)
  {
    goal == Undefined || goal == now
  }

  lemma GoalChain(goal: Outcome, mid: Outcome, r: Status, out: seq<Byte>, pos: int, now: Outcome, s: seq<Byte>,
        limit: nat)
    requires SameGoal(goal, mid)
    ensures Agrees(mid, r, out, pos, s, limit) ==> Agrees(goal, r, out, pos, s, limit)
    ensures SameGoal(mid, now) ==> SameGoal(goal, now)
  {
  }

  /** Extra bits are fetched and taken. */
  method TakeBits(st: State, e: nat) returns (ok: bool, x: nat)
    requires st.BufferOk() && e <= 16
    modifies st`inptr, st`bb, st`bk
    ensures st.BufferOk()
    ensures ok ==> x == Lsb(st.input, old(st.Pos()), e) && st.Pos() == old(st.Pos()) + e
    ensures ok ==> (if old(st.bk) >= e then st.bk == old(st.bk) - e else st.bk <= 7)
    ensures !ok ==> old(st.Pos()) + e > 8 * |st.input| && st.bk < e
  {
    hide Lsb;
    hide Pow2;
    x := 0;
    ok := st.NeedBits(e);
    if ok {
      st.PeekIsLsb(e);
      x := st.Peek(e);
      st.DumpBits(e);
    }
  }

  /** What the reference decoder makes of the rest of a block after the symbol of a length. */
  ghost function AfterLength(s: seq<Byte>, limit: nat, ll: seq<nat>, dl: seq<nat>, pos: nat, h: Huft,
        out: seq<Byte>): Outcome
    requires h.Entry?
  {
    if pos > limit then Short else RefLength(s, limit, ll, dl, pos, h.v, h.e, out)
  }

  /** What the loop does with the first symbol of a round. */
  lemma LiteralStep(s: seq<Byte>, limit: nat, ll: seq<nat>, dl: seq<nat>, pos: nat, out: seq<Byte>,
                    r: Status, h: Huft, sym: nat, now: int)
    requires |ll| <= 288 && SymbolFound(s, limit, ll, Literals, pos, r, h, sym, now)
    ensures r != Ok ==> Agrees(RefCodes(s, limit, ll, dl, pos, out), r, out, now, s, limit)
    ensures r == Ok ==> now > pos && h.Entry? && h.e <= 16
    ensures r == Ok && h.e == 16 ==>
              h.v < 256 && SameGoal(RefCodes(s, limit, ll, dl, pos, out), RefCodes(s, limit, ll, dl, now, out + [h.v]))
    ensures r == Ok && h.e == 15 ==> Agrees(RefCodes(s, limit, ll, dl, pos, out), r, out, now, s, limit)
    ensures r == Ok && h.e < 15 ==>
              && h.e <= 5 && h.v >= 3
              && SameGoal(RefCodes(s, limit, ll, dl, pos, out), AfterLength(s, limit, ll, dl, now, h, out))
  {
    hide Matches;
    hide Lsb;
    hide SomeMatch;
    hide RefDistance;
    if r == Ok {
      MatchInRange(ll, s, pos, sym);
      ValueKinds(sym, h);
      hide Value;
      LiteralUnfold(s, limit, ll, dl, pos, out, sym, now);
    } else {
      InvalidLength();
    }
  }

  lemma InvalidLength()
    ensures forall i :: 0 <= i < 31 && CPLEXT[i] == 99 ==> i >= 29
  {
  }

  /** The definition of the reference decoder for a symbol that was found. */
  lemma LiteralUnfold(s: seq<Byte>, limit: nat, ll: seq<nat>, dl: seq<nat>, pos: nat, out: seq<Byte>, sym: nat,
        now: nat)
    requires sym < 288
    requires match NextSymbol(s, limit, ll, pos)
             case Sym(sym', p) => sym == sym' && now == p
             case NoSym(why) => why != Error(1) && (why == Short ==> now > limit)
    ensures var goal := RefCodes(s, limit, ll, dl, pos, out);
            && (sym < 256 ==> SameGoal(goal, RefCodes(s, limit, ll, dl, now, out + [sym])))
            && (sym == 256 ==> goal == Undefined || goal == Done(out, now) || (goal == Short && now > limit))
            && (257 <= sym < 286 ==>
                 SameGoal(goal, AfterLength(s, limit, ll, dl, now, Entry(CPLEXT[sym - 257], 0, CPLENS[sym - 257]), out)))
  {
    hide Matches;
    hide Lsb;
    hide NextSymbol;
    hide RefDistance;
    if now > limit && sym < 256 { PastLimit(s, limit, ll, dl, now, out + [sym]); }
  }

  /** At the limit no symbol starts any more. */
  lemma PastLimit(s: seq<Byte>, limit: nat, ll: seq<nat>, dl: seq<nat>, pos: nat, out: seq<Byte>)
    requires pos >= limit
    ensures RefCodes(s, limit, ll, dl, pos, out) == Short && NextSymbol(s, limit, ll, pos) == NoSym(Short)
  {
  }

  lemma ValueKinds(sym: nat, h: Huft)
    requires sym < 288 && h.Entry? && h == Slot(Literals, sym, h.b) && h.e <= 16
    ensures sym < 256 <==> h.e == 16
    ensures sym == 256 <==> h.e == 15
    ensures h.e < 15 ==> 257 <= sym < 286 && h.e == CPLEXT[sym - 257] <= 5 && h.v == CPLENS[sym - 257] >= 3
    ensures h.e >= 15 ==> h.v == sym
  {
  }

  /** And with the distance symbol after a length. */
  lemma DistanceStep(s: seq<Byte>, limit: nat, ll: seq<nat>, dl: seq<nat>, pos: nat, n: nat, out: seq<Byte>,
                     r: Status, h: Huft, sym: nat, now: int)
    requires |dl| <= 30 && pos <= limit && SymbolFound(s, limit, dl, Distances, pos, r, h, sym, now)
    ensures r != Ok ==> Agrees(RefDistance(s, limit, ll, dl, pos, n, out), r, out, now, s, limit)
    ensures r == Ok ==>
              && now > pos && h.Entry? && h.e <= 13
              && var dist := h.v + Lsb(s, now, h.e);
              && 1 <= dist <= WSIZE
              && SameGoal(RefDistance(s, limit, ll, dl, pos, n, out),
                          if now + h.e > limit then Short
                          else if dist > |out| then Undefined
                          else RefCodes(s, limit, ll, dl, now + h.e, CopyMatch(out, dist, n)))
  {
    hide Matches;
    hide Lsb;
    hide SomeMatch;
    hide RefCodes;
    hide CopyMatch;
    if r == Ok {
      DistanceSlot(s, limit, dl, pos, h, sym, now);
      DistanceUnfold(s, limit, ll, dl, pos, n, out, sym, now);
    }
  }

  /** The definition of the reference decoder for a distance symbol that was found. */
  lemma DistanceUnfold(s: seq<Byte>, limit: nat, ll: seq<nat>, dl: seq<nat>, pos: nat, n: nat, out: seq<Byte>,
        sym: nat, now: nat)
    requires sym < 30 && pos <= limit
    requires match NextSymbol(s, limit, dl, pos)
             case Sym(sym', p) => sym == sym' && now == p
             case NoSym(why) => why != Error(1) && (why == Short ==> now > limit)
    ensures var dist := CPDIST[sym] + Lsb(s, now, CPDEXT[sym]);
            SameGoal(RefDistance(s, limit, ll, dl, pos, n, out),
                     if now + CPDEXT[sym] > limit then Short
                     else if dist > |out| || dist < 1 then Undefined
                     else RefCodes(s, limit, ll, dl, now + CPDEXT[sym], CopyMatch(out, dist, n)))
  {
    hide Lsb;
    hide NextSymbol;
    hide RefCodes;
    hide CopyMatch;
  }

  /** Distances reach exactly as far as the window. */
  lemma DistRange(sym: nat)
    requires sym < 30
    ensures 1 <= CPDIST[sym] && CPDEXT[sym] <= 13 && CPDIST[sym] + Pow2(CPDEXT[sym]) <= WSIZE + 1
  {
    assert Pow2(0) == 1 && Pow2(1) == 2 && Pow2(2) == 4 && Pow2(3) == 8 && Pow2(4) == 16;
    assert Pow2(5) == 32 && Pow2(6) == 64 && Pow2(7) == 128 && Pow2(8) == 256;
    assert Pow2(9) == 512 && Pow2(10) == 1024 && Pow2(11) == 2048 && Pow2(12) == 4096 && Pow2(13) == 8192;
  }

  /** A length's extra bits, the distance, the copy. */
  method OneMatch(st: State, h: Huft, td: Tree, ghost limit: nat, ghost ll: seq<nat>, ghost dl: seq<nat>)
    returns (r: Status)
    requires st.Valid() && st.bk <= 15 && limit <= 8 * |st.input|
    requires TreeOk(td, dl, Distances) && |dl| <= 30 && h.Entry? && h.e <= 5 && h.v >= 3
    modifies st, st.window
    ensures st.Valid() && (r == Ok ==> st.bk <= 15 && st.Pos() > old(st.Pos()))
    ensures var goal := AfterLength(st.input, limit, ll, dl, old(st.Pos()), h, old(st.History()));
            if r == Ok then SameGoal(goal, RefCodes(st.input, limit, ll, dl, st.Pos(), st.History()))
            else Agrees(goal, r, st.History(), st.Pos(), st.input, limit)
  {
    hide Pow2;
    hide Lsb;
    hide RefCodes;
    hide AfterLength;
    hide AfterSize;
    hide TreeOk;
    hide State.WindowOk;
    hide SameGoal;
    AfterLengthFrom(st.input, limit, ll, dl, st.Pos(), h, st.History());
    var ok, x := TakeBits(st, h.e);
    if !ok { return OutOfInput; }
    r := OneDistance(st, h.v + x, td, limit, ll, dl);
  }

  /** What the reference decoder makes of the rest of a block after the size of a match. */
  ghost function AfterSize(s: seq<Byte>, limit: nat, ll: seq<nat>, dl: seq<nat>, pos: nat, n: nat,
        out: seq<Byte>): Outcome
  {
    if pos > limit then Short else RefDistance(s, limit, ll, dl, pos, n, out)
  }

  /** The distance and the copy, for a match of n bytes. */
  method OneDistance(st: State, n: nat, td: Tree, ghost limit: nat, ghost ll: seq<nat>, ghost dl: seq<nat>)
    returns (r: Status)
    requires st.Valid() && st.bk <= 15 && limit <= 8 * |st.input|
    requires TreeOk(td, dl, Distances) && |dl| <= 30 && n >= 3
    modifies st, st.window
    ensures st.Valid() && (r == Ok ==> st.bk <= 15 && st.Pos() > old(st.Pos()))
    ensures var goal := AfterSize(st.input, limit, ll, dl, old(st.Pos()), n, old(st.History()));
            if r == Ok then SameGoal(goal, RefCodes(st.input, limit, ll, dl, st.Pos(), st.History()))
            else Agrees(goal, r, st.History(), st.Pos(), st.input, limit)
  {
    hide Pow2;
    hide Lsb;
    hide SymbolFound;
    hide RefCodes;
    hide AfterSize;
    hide TreeOk;
    hide CopyMatch;
    hide State.WindowOk;
    hide SameGoal;
    hide Agrees;
    ghost var s, p, out := st.input, st.Pos(), st.History();
    var h;
    ghost var sym;
    r, h, sym := LookUp(st, td, limit, dl, Distances);
    ghost var q := st.Pos();
    if r != Ok {
      DistanceFails(s, limit, ll, dl, p, n, out, r, h, sym, q, st.History());
      return;
    }
    DistanceSlot(s, limit, dl, p, h, sym, q);
    var ok, y := TakeBits(st, h.e);
    if !ok {
      r := OutOfInput;
      DistanceCut(s, limit, ll, dl, p, n, out, h, sym, q, st.History(), st.Pos());
      return;
    }
    Copy(st, n, WrapSub(st.wp, h.v + y), h.v + y);
    DistanceDone(s, limit, ll, dl, p, n, out, h, sym, q, st.History());
  }

  lemma DistanceFails(s: seq<Byte>, limit: nat, ll: seq<nat>, dl: seq<nat>, pos: nat, n: nat, out: seq<Byte>,
                      r: Status, h: Huft, sym: nat, now: int, hist: seq<Byte>)
    requires r != Ok && |dl| <= 30 && SymbolFound(s, limit, dl, Distances, pos, r, h, sym, now)
    ensures Agrees(AfterSize(s, limit, ll, dl, pos, n, out), r, hist, now, s, limit)
  {
    hide RefDistance;
    hide SymbolFound;
    if pos <= limit { DistanceStep(s, limit, ll, dl, pos, n, out, r, h, sym, now); }
  }

  lemma DistanceCut(s: seq<Byte>, limit: nat, ll: seq<nat>, dl: seq<nat>, pos: nat, n: nat, out: seq<Byte>,
                    h: Huft, sym: nat, now: nat, hist: seq<Byte>, end: int)
    requires |dl| <= 30 && SymbolFound(s, limit, dl, Distances, pos, Ok, h, sym, now) && h.Entry?
    requires limit <= 8 * |s| < now + h.e
    ensures Agrees(AfterSize(s, limit, ll, dl, pos, n, out), OutOfInput, hist, end, s, limit)
  {
    hide RefDistance;
    hide SymbolFound;
    if pos <= limit { DistanceStep(s, limit, ll, dl, pos, n, out, Ok, h, sym, now); }
  }

  lemma DistanceDone(s: seq<Byte>, limit: nat, ll: seq<nat>, dl: seq<nat>, pos: nat, n: nat, out: seq<Byte>,
                     h: Huft, sym: nat, now: nat, hist: seq<Byte>)
    requires |dl| <= 30 && SymbolFound(s, limit, dl, Distances, pos, Ok, h, sym, now) && h.Entry? && now > pos
    requires var dist := h.v + Lsb(s, now, h.e);
      1 <= dist && (dist <= |out| ==> hist == CopyMatch(out, dist, n))
    ensures SameGoal(AfterSize(s, limit, ll, dl, pos, n, out), RefCodes(s, limit, ll, dl, now + h.e, hist))
  {
    hide RefDistance;
    hide SymbolFound;
    hide RefCodes;
    hide Lsb;
    hide CopyMatch;
    if pos <= limit { DistanceStep(s, limit, ll, dl, pos, n, out, Ok, h, sym, now); }
    if now + h.e > limit { PastLimit(s, limit, ll, dl, now + h.e, hist); }
  }

  lemma AfterLengthFrom(s: seq<Byte>, limit: nat, ll: seq<nat>, dl: seq<nat>, pos: nat, h: Huft, out: seq<Byte>)
    requires h.Entry?
    ensures AfterLength(s, limit, ll, dl, pos, h, out)
            == AfterSize(s, limit, ll, dl, pos + h.e, h.v + Lsb(s, pos, h.e), out)
    ensures pos + h.e > limit ==> AfterLength(s, limit, ll, dl, pos, h, out) == Short
  {
    hide RefDistance;
    hide Lsb;
  }

  lemma DistanceSlot(s: seq<Byte>, limit: nat, dl: seq<nat>, pos: nat, h: Huft, sym: nat, now: int)
    requires |dl| <= 30 && SymbolFound(s, limit, dl, Distances, pos, Ok, h, sym, now)
    ensures now > pos && h.Entry? && h.e <= 13 && 1 <= h.v + Lsb(s, now, h.e) <= WSIZE
    ensures sym < 30 && h.v == CPDIST[sym] >= 1 && h.e == CPDEXT[sym]
  {
    hide Lsb;
    MatchInRange(dl, s, pos, sym);
    DistRange(sym);
    LsbConcat(s, now, h.e, 0);
  }

  /** One round of the loop: a literal, the end of the block, or a match. */
  method OneSymbol(st: State, tl: Tree, td: Tree, ghost limit: nat, ghost ll: seq<nat>, ghost dl: seq<nat>)
    returns (done: bool, r: Status)
    requires st.Valid() && st.bk <= 15 && limit <= 8 * |st.input|
    requires TreeOk(tl, ll, Literals) && TreeOk(td, dl, Distances) && |ll| <= 288 && |dl| <= 30
    modifies st, st.window
    ensures st.Valid() && (r == Ok ==> st.bk <= 15 && st.Pos() > old(st.Pos())) && (!done ==> r == Ok)
    ensures var goal := RefCodes(st.input, limit, ll, dl, old(st.Pos()), old(st.History()));
            if done then Agrees(goal, r, st.History(), st.Pos(), st.input, limit)
            else SameGoal(goal, RefCodes(st.input, limit, ll, dl, st.Pos(), st.History()))
  {
    hide Pow2;
    hide Lsb;
    hide SymbolFound;
    hide RefCodes;
    hide AfterLength;
    hide TreeOk;
    hide State.WindowOk;
    hide Agrees;
    hide SameGoal;
    ghost var s, p, out := st.input, st.Pos(), st.History();
    ghost var goal := RefCodes(s, limit, ll, dl, p, out);
    var h;
    ghost var sym;
    r, h, sym := LookUp(st, tl, limit, ll, Literals);
    LiteralStep(s, limit, ll, dl, p, out, r, h, sym, st.Pos());
    if r != Ok { return true, r; }
    if h.e == 16 {
      Put(st, h.v);
      done := false;
    } else if h.e == 15 {
      done := true;
    } else {
      ghost var q := st.Pos();
      r := OneMatch(st, h, td, limit, ll, dl);
      done := r != Ok;
      GoalChain(goal, AfterLength(s, limit, ll, dl, q, h, out), r, st.History(), st.Pos(),
                RefCodes(s, limit, ll, dl, st.Pos(), st.History()), s, limit);
    }
  }

  /**
   inflate_codes: decode symbols until the end of the block, writing through the window.
   At every symbol boundary at most 15 bits are buffered.
   */
  method InflateCodes(st: State, tl: Tree, td: Tree, ghost limit: nat, ghost ll: seq<nat>, ghost dl: seq<nat>)
    returns (r: Status)
    requires st.Valid() && st.bk <= 15 && limit <= 8 * |st.input|
    requires TreeOk(tl, ll, Literals) && TreeOk(td, dl, Distances) && |ll| <= 288 && |dl| <= 30
    modifies st, st.window
    ensures st.Valid() && (r == Ok ==> st.bk <= 15 && st.Pos() > old(st.Pos()))
    ensures Agrees(RefCodes(st.input, limit, ll, dl, old(st.Pos()), old(st.History())),
                   r, st.History(), st.Pos(), st.input, limit)
  {
    hide Pow2;
    hide Lsb;
    hide SymbolFound;
    hide RefCodes;
    hide TreeOk;
    hide CopyMatch;
    hide State.WindowOk;
    ghost var goal := RefCodes(st.input, limit, ll, dl, st.Pos(), st.History());
    while true
      invariant st.Valid() && st.bk <= 15 && st.Pos() >= old(st.Pos())
      invariant SameGoal(goal, RefCodes(st.input, limit, ll, dl, st.Pos(), st.History()))
      decreases 8 * |st.input| - st.Pos()
    {
      var done;
      done, r := OneSymbol(st, tl, td, limit, ll, dl);
      if done { return; }
    }
  }
}
