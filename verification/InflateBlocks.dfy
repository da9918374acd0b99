/** inflate_stored and inflate_dynamic: the blocks that bring their own bytes or their own codes. */
module InflateBlocks {
  import opened Bits
  import opened BitStream
  import opened Huffman
  import opened HuftTables
  import opened HuftBuild
  import opened InflateSpec
  import opened Inflater
  import opened InflateCodes
  import opened InflateTrees
  import Crc32

  // ----- Stored blocks -----

  /** The number of buffered bits modulo 8 is what takes the reader to the next byte boundary. */
  lemma ToBoundary(inptr: nat, bk: nat)
    requires bk <= 8 * inptr
    ensures And(bk, 7) == bk % 8 && 8 * inptr - bk + bk % 8 == Aligned(8 * inptr - bk)
  {
    assert Pow2(3) == 8;
    AndMask(bk, 3);
    SplitUnique(bk, 3, bk / 8, bk % 8);
    var pos := 8 * inptr - bk;
    DivModUnique(pos + 7, 8, inptr - bk / 8, 7 - bk % 8);
  }

  /** The low 16 bits inverted. */
  lemma Complement(b: nat)
    requires b < W32
    ensures And(0xFFFFFFFF - b, 0xffff) == 0xffff - Low(b, 16)
  {
    Pow2Sixteen();
    AndMask(0xFFFFFFFF - b, 16);
    DivModUnique(0xFFFFFFFF - b, 65536, 0xffff - b / 65536, 0xffff - b % 65536);
  }

  /** A byte at a byte boundary. */
  lemma StoredByte(s: seq<Byte>, i: nat, k: nat)
    requires i + k < |s|
    ensures s[i..i + k + 1] == s[i..i + k] + [s[i + k]]
    ensures Lsb(s, 8 * (i + k), 8) == s[i + k]
  {
    hide Lsb;
    LsbByte(s, i + k);
  }

  /** The data bytes of a stored block. */
  method StoredBytes(st: State, n0: nat, ghost i: nat) returns (ok: bool)
    requires st.Valid() && st.Pos() == 8 * i && st.bk <= 15
    modifies st, st.window
    ensures st.Valid() && st.bk <= 15
    ensures ok ==> i + n0 <= |st.input| && st.Pos() == 8 * (i + n0)
                   && st.History() == old(st.History()) + st.input[i..i + n0]
    ensures !ok ==> i + n0 > |st.input|
  {
    hide State.WindowOk;
    hide Pow2;
    hide Lsb;
    ghost var out := st.History();
    var n := n0;
    ghost var k: nat := 0;
    assert i <= |st.input| && st.input[i..i + 0] == [];
    while n > 0
      invariant st.Valid() && st.bk <= 15 && k + n == n0
      invariant i + k <= |st.input| && st.Pos() == 8 * (i + k)
      invariant st.History() == out + st.input[i..i + k]
    {
      n := n - 1;
      var b;
      ok, b := StoredOne(st, i + k);
      if !ok { return; }
      StoredByte(st.input, i, k);
      Put(st, b);
      k := k + 1;
    }
    ok := true;
  }

  /** One byte of a stored block, through the bit buffer. */
  method StoredOne(st: State, ghost i: nat) returns (ok: bool, b: Byte)
    requires st.BufferOk() && st.Pos() == 8 * i && st.bk <= 15
    modifies st`inptr, st`bb, st`bk
    ensures st.BufferOk() && st.bk <= 15
    ensures ok ==> i < |st.input| && b == st.input[i] && st.Pos() == 8 * i + 8
    ensures !ok ==> i >= |st.input|
  {
    hide Lsb;
    hide Pow2;
    var x;
    ok, x := TakeBits(st, 8);
    b := 0;
    if ok {
      LsbByte(st.input, i);
      b := x;
    }
  }

  /** The reference's view of a stored block whose header starts at byte i. */
  lemma StoredMeaning(s: seq<Byte>, limit: nat, p: nat, out: seq<Byte>, i: nat)
    requires limit <= 8 * |s| && Aligned(p) == 8 * i
    ensures var goal := RefStored(s, limit, p, out); var n := Lsb(s, 8 * i, 16);
            && (8 * i + 32 > 8 * |s| ==> goal == Short)
            && (n + Lsb(s, 8 * i + 16, 16) != 0xffff ==> goal == Short || goal == Error(1))
            && (n + Lsb(s, 8 * i + 16, 16) == 0xffff ==>
                  if i + 4 + n > |s| then goal == Short
                  else goal == Done(out + s[i + 4..i + 4 + n], 8 * (i + 4 + n)) || (goal == Short && 8 * (i + 4 + n) > limit))
  {
    hide Lsb;
    hide Aligned;
  }

  /** The length of a stored block and its complement. */
  method StoredHeader(st: State, ghost i: nat) returns (r: Status, n: nat)
    requires st.BufferOk() && st.Pos() == 8 * i && st.bk <= 15
    modifies st`inptr, st`bb, st`bk
    ensures st.BufferOk()
    ensures r == Ok ==> st.bk <= 15 && st.Pos() == 8 * (i + 4) && n == Lsb(st.input, 8 * i, 16)
                        && n + Lsb(st.input, 8 * i + 16, 16) == 0xffff
    ensures r != Ok ==> (r == OutOfInput && 8 * i + 32 > 8 * |st.input|)
                        || (r == Err(1) && Lsb(st.input, 8 * i, 16) + Lsb(st.input, 8 * i + 16, 16) != 0xffff)
  {
    hide Lsb;
    hide Pow2;
    hide And;
    hide Low;
    var ok;
    ok, n := TakeBits(st, 16);
    if !ok {
      r := OutOfInput;
      return;
    }
    ok := st.NeedBits(16);
    if !ok {
      r := OutOfInput;
      return;
    }
    BufferBound(st);
    Complement(st.bb);
    LsbSplit(st.input, st.Pos(), 16, st.bk);
    if n != And(0xFFFFFFFF - st.bb, 0xffff) {
      r := Err(1);
      return;
    }
    st.DumpBits(16);
    r := Ok;
  }

  /** inflate_stored: the rest of the byte is skipped, then length, complement and data. */
  method InflateStored(st: State, ghost limit: nat) returns (r: Status)
    requires st.Valid() && st.bk <= 15 && limit <= 8 * |st.input|
    modifies st, st.window
    ensures st.Valid() && (r == Ok ==> st.bk <= 15 && st.Pos() > old(st.Pos()))
    ensures Agrees(RefStored(st.input, limit, old(st.Pos()), old(st.History())),
                   r, st.History(), st.Pos(), st.input, limit)
  {
    hide State.WindowOk;
    hide Lsb;
    hide Pow2;
    hide And;
    hide RefStored;
    ghost var p, out := st.Pos(), st.History();
    ToBoundary(st.inptr, st.bk);
    var n := And(st.bk, 7);
    st.DumpBits(n);
    ghost var i: nat := st.Pos() / 8;
    StoredMeaning(st.input, limit, p, out, i);
    r, n := StoredHeader(st, i);
    if r != Ok { return; }
    var ok := StoredBytes(st, n, i + 4);
    r := if ok then Ok else OutOfInput;
  }

  lemma BufferBound(st: State)
    requires st.BufferOk()
    ensures st.bb < W32
  {
    LsbConcat(st.input, st.Pos(), st.bk, 0);
    Crc32.PowThirtyTwo();
    Pow2Mono(st.bk, 32);
  }

  // ----- Dynamic blocks -----

  /** The first j lengths of the code length codes are stored where border[] says. */
  predicate Stored(ll: seq<nat>, s: seq<Byte>, p: nat, nb: nat, j: nat)
  {
    && |ll| == 316 && j <= 19
    && forall i: nat :: i < j ==> ll[BORDER[i]] == if i < nb then Lsb(s, p + 3 * i, 3) else 0
  }

  lemma StoredNext(ll: seq<nat>, s: seq<Byte>, p: nat, nb: nat, j: nat, x: nat)
    requires j < 19 && Stored(ll, s, p, nb, j) && x == if j < nb then Lsb(s, p + 3 * j, 3) else 0
    ensures BORDER[j] < 19 && Stored(ll[BORDER[j] := x], s, p, nb, j + 1)
  {
    hide Lsb;
    BorderDistinct(j);
  }

  lemma StoredAll(ll: seq<nat>, s: seq<Byte>, p: nat, nb: nat)
    requires Stored(ll, s, p, nb, 19)
    ensures ll[..19] == CodeLengthLens(s, p, nb)
  {
    hide Lsb;
    forall i: nat | i < 19
      ensures ll[i] == CodeLengthLens(s, p, nb)[i]
    {
      assert BORDER[BorderIndex(i)] == i;
    }
  }

  lemma BorderDistinct(j: nat)
    requires j < 19
    ensures BORDER[j] < 19 && BorderIndex(BORDER[j]) == j
    ensures forall i: nat :: i < 19 && i != j ==> BORDER[i] != BORDER[j]
  {
    forall i: nat | i < 19 && BORDER[i] == BORDER[j]
      ensures i == j
    {
      BorderInverse(i);
      BorderInverse(j);
    }
    BorderInverse(j);
  }

  lemma BorderInverse(j: nat)
    requires j < 19
    ensures BORDER[j] < 19 && BorderIndex(BORDER[j]) == j
  {
  }

  /** The lengths of the code length codes, in the order of border[]; the rest are zero. */
  method CodeLengthCodes(st: State, ll: array<nat>, nb: nat) returns (ok: bool)
    requires st.BufferOk() && st.bk <= 15 && 4 <= nb <= 19 && ll.Length == 316
    modifies st`inptr, st`bb, st`bk, ll
    ensures st.BufferOk() && st.bk <= 15
    ensures ok ==> st.Pos() == old(st.Pos()) + 3 * nb && ll[..19] == CodeLengthLens(st.input, old(st.Pos()), nb)
    ensures !ok ==> old(st.Pos()) + 3 * nb > 8 * |st.input|
  {
    hide Lsb;
    hide Stored;
    hide CodeLengthLens;
    ghost var p := st.Pos();
    var j: nat := 0;
    StoredNone(ll[..], st.input, p, nb);
    while j < nb
      invariant 0 <= j <= nb && st.BufferOk() && st.bk <= 15 && st.Pos() == p + 3 * j
      invariant Stored(ll[..], st.input, p, nb, j)
    {
      var x;
      ok, x := TakeBits(st, 3);
      if !ok { return; }
      StoreLength(st.input, ll, p, nb, j, x);
      j := j + 1;
    }
    while j < 19
      invariant nb <= j <= 19 && st.BufferOk() && st.bk <= 15 && st.Pos() == p + 3 * nb
      invariant Stored(ll[..], st.input, p, nb, j)
    {
      StoreLength(st.input, ll, p, nb, j, 0);
      j := j + 1;
    }
    StoredAll(ll[..], st.input, p, nb);
    assert ll[..][..19] == ll[..19];
    ok := true;
  }

  lemma StoredNone(ll: seq<nat>, s: seq<Byte>, p: nat, nb: nat)
    requires |ll| == 316
    ensures Stored(ll, s, p, nb, 0)
  {
  }

  /** A length is stored where the order of the code length codes puts it. */
  method StoreLength(ghost s: seq<Byte>, ll: array<nat>, ghost p: nat, ghost nb: nat, j: nat, x: nat)
    requires j < 19 && Stored(ll[..], s, p, nb, j) && ll.Length == 316
    requires x == if j < nb then Lsb(s, p + 3 * j, 3) else 0
    modifies ll
    ensures Stored(ll[..], s, p, nb, j + 1)
  {
    hide Lsb;
    hide Stored;
    StoredNext(ll[..], s, p, nb, j, x);
    ghost var before := ll[..];
    ll[BORDER[j]] := x;
    assert ll[..] == before[BORDER[j] := x];
  }

  // ----- The run-length coded lengths -----

  /** The rest of the lengths is still the same, or bits past the limit have been used. */
  ghost predicate SameLens(goal: Lens, now: Lens, pos: int, limit: nat)
  {
    goal == NoLens(Undefined) || goal == now || (goal == NoLens(Short) && pos > limit)
  }

  /** What a method that reads lengths ended with, against the reference. */
  ghost predicate LensAgree(goal: Lens, r: Status, lens: seq<nat>, pos: int, s: seq<Byte>, limit: nat)
  {
    if r != Ok then LensFails(goal, r, s, limit)
    else match goal
      case Lens(l, p) => lens == l && pos == p
      case NoLens(why) => why == Undefined || (why == Short && pos > limit)
  }

  /** And when it failed. */
  ghost predicate LensFails(goal: Lens, r: Status, s: seq<Byte>, limit: nat)
  {
    match goal
    case Lens(l, p) => RanOut(r, p, s)
    case NoLens(why) => why == Undefined || why == Short || (why.Error? && (r == Err(why.code) || RanOut(r, limit, s)))
  }

  /** A set of 19 nonzero lengths that huft_build returns 0 for is complete. */
  lemma NineteenComplete(cl: seq<nat>)
    requires |cl| == 19 && Lengths(cl) && !TooMany(cl) && !Incomplete(cl) && NoneZero(cl)
    ensures Complete(cl)
  {
    AcceptedKinds(cl);
    if !Complete(cl) { KraftOnes(cl); }
  }

  /** What a lookup in the code length alphabet found, against the reference. */
  ghost predicate Looked(s: seq<Byte>, limit: nat, cl: seq<nat>, pos: nat, r: Status, j: nat, now: int)
  {
    match NextSymbol(s, limit, cl, pos)
    case Sym(sym, p) => (r == Ok && j == sym && now == p) || RanOut(r, pos, s)
    case NoSym(why) => why == Undefined || (why == Short && (r == Ok ==> now > limit))
  }

  /** One code of the code length alphabet, looked up in a single level. */
  method LengthSymbol(st: State, t: Tree, ghost limit: nat, ghost cl: seq<nat>) returns (r: Status, j: nat)
    requires st.BufferOk() && st.bk <= 15 && limit <= 8 * |st.input|
    requires |cl| == 19 && Lengths(cl) && !TooMany(cl) && !Incomplete(cl) && TreeOk(t, cl, CodeLengths)
    requires AllZero(cl) || forall i :: 0 <= i < 19 ==> cl[i] <= t.m
    modifies st`inptr, st`bb, st`bk
    ensures st.BufferOk() && (r == Ok ==> st.bk <= 15 && j < 19)
    ensures r == Ok ==> Matches(cl, st.input, old(st.Pos()), j) && st.Pos() == old(st.Pos()) + cl[j]
    ensures Looked(st.input, limit, cl, old(st.Pos()), r, j, st.Pos())
  {
    hide Pow2;
    hide Lsb;
    hide Linked;
    hide Serves;
    hide KraftSum;
    hide SomeMatch;
    hide Matches;
    hide Walk;
    hide WalkSafe;
    j := 0;
    ghost var pos := st.Pos();
    NoErrorSymbol(st.input, limit, cl, pos);
    if |t.ts| == 0 {
      NoneZeroMatch(cl, st.input, pos);
      r := Undef;
      return;
    }
    var ok := st.NeedBits(t.m);
    if !ok {
      r := OutOfInput;
      return;
    }
    st.PeekIsLsb(t.m);
    RootIndex(t, cl, st.input, pos);
    var h := t.ts[0][st.Peek(t.m)];
    ghost var sym := RootSlot(t, cl, st.input, pos, h);
    if h == Wild || h.IsLink() || h.e == 99 {
      r := Undef;
      return;
    }
    st.DumpBits(h.b);
    j := h.v;
    r := Ok;
    match NextSymbol(st.input, limit, cl, pos)
    case Sym(sym', p) => MatchUnique(cl, st.input, pos, sym, sym');
    case NoSym(why) =>
      if why == Short { BeyondLimit(st.input, limit, cl, pos, sym); }
  }

  lemma NoErrorSymbol(s: seq<Byte>, limit: nat, cl: seq<nat>, pos: nat)
    requires |cl| == 19 && Lengths(cl) && !TooMany(cl) && !Incomplete(cl)
    ensures var g := NextSymbol(s, limit, cl, pos); g.NoSym? ==> g.why == Undefined || g.why == Short
  {
    if NoneZero(cl) {
      NineteenComplete(cl);
      CompleteMatches(cl, s, pos);
    }
  }

  lemma RootIndex(t: Tree, cl: seq<nat>, s: seq<Byte>, pos: nat)
    requires TreeOk(t, cl, CodeLengths) && !AllZero(cl)
    ensures Lsb(s, pos, t.m) < |t.ts[0]|
  {
    LsbConcat(s, pos, t.m, 0);
  }

  /** No code is longer than the root index, so the root slot settles it. */
  lemma RootSlot(t: Tree, cl: seq<nat>, s: seq<Byte>, pos: nat, h: Huft) returns (sym: nat)
    requires |cl| == 19 && TreeOk(t, cl, CodeLengths) && !AllZero(cl) && forall i :: 0 <= i < 19 ==> cl[i] <= t.m
    requires Lsb(s, pos, t.m) < |t.ts[0]| && h == t.ts[0][Lsb(s, pos, t.m)]
    ensures if SomeMatch(cl, s, pos) then
              Matches(cl, s, pos, sym) && sym < 19 && h.Entry? && h.e == 16 && h.v == sym && h.b == cl[sym] && 1 <= h.b <= t.m
            else h == Wild || h.IsLink() || h.e == 99
  {
    hide Pow2;
    hide Lsb;
    hide Matches;
    hide Unowned;
    assert Decodes(cl, 19, [], [], t.ts, t.m, s, pos) by {
      var f := Walk(t.ts, 0, t.m, s, pos);
    }
    assert LinkOk(t.ts, 0, h);
    sym := 0;
    if SomeMatch(cl, s, pos) {
      sym :| Matches(cl, s, pos, sym);
      MatchInRange(cl, s, pos, sym);
      if h.IsLink() {
        WalkAhead(t.ts, h.v, h.e - 16, s, pos + h.b);
      }
    } else if !h.IsLink() {
      UnownedMeans(cl, Msb(s, pos, 16), h);
    }
  }

  /** A walk never moves back. */
  lemma {:induction false} WalkAhead(ts: Tables, t: nat, nb: nat, s: seq<Byte>, pos: nat)
    requires Linked(ts) && t < |ts| && Pow2(nb) <= |ts[t]|
    ensures Walk(ts, t, nb, s, pos).pos >= pos
    decreases |ts| - t
  {
    LsbConcat(s, pos, nb, 0);
    var h := ts[t][Lsb(s, pos, nb)];
    assert LinkOk(ts, t, h);
    if h.IsLink() { WalkAhead(ts, h.v, h.e - 16, s, pos + h.b); }
  }

  /** How a run code continues: its extra bits, then the run if it fits. */
  ghost function AfterRunCode(s: seq<Byte>, limit: nat, cl: seq<nat>, pos: nat, acc: seq<nat>, prev: nat, n: nat,
        sym: nat): Lens
  {
    if pos + RunBits(sym) > limit then NoLens(Short)
    else if |acc| + RunLength(s, pos, sym) > n then NoLens(Error(1))
    else RefLengths(s, limit, cl, pos + RunBits(sym), acc + Repeat(RunValue(prev, sym), RunLength(s, pos, sym)),
                    RunValue(prev, sym), n)
  }

  function RunBits(sym: nat): nat { if sym == 16 then 2 else if sym == 17 then 3 else 7 }
  function RunLength(s: seq<Byte>, pos: nat, sym: nat): nat { (if sym == 18 then 11 else 3) + Lsb(s, pos, RunBits(sym)) }
  function RunValue(prev: nat, sym: nat): nat { if sym == 16 then prev else 0 }

  lemma LengthsUnfold(s: seq<Byte>, limit: nat, cl: seq<nat>, pos: nat, acc: seq<nat>, prev: nat, n: nat,
                      r: Status, j: nat, now: int)
    requires |acc| < n && Looked(s, limit, cl, pos, r, j, now)
    ensures var goal := RefLengths(s, limit, cl, pos, acc, prev, n);
            && (r != Ok ==> LensFails(goal, r, s, limit))
            && (r == Ok && now >= 0 ==>
                  SameLens(goal, if j < 16 then RefLengths(s, limit, cl, now, acc + [j], j, n)
                                 else AfterRunCode(s, limit, cl, now, acc, prev, n, j), now, limit))
  {
    hide Lsb;
    hide NextSymbol;
    hide Repeat;
  }

  /** A run of equal lengths is appended. */
  method StoreRun(ll: array<nat>, i: nat, run: nat, x: nat)
    requires i + run <= ll.Length
    modifies ll
    ensures ll[..i + run] == old(ll[..i]) + Repeat(x, run)
  {
    var j := 0;
    while j < run
      invariant j <= run && ll[..i] == old(ll[..i])
      invariant forall k :: i <= k < i + j ==> ll[k] == x
    {
      ll[i + j] := x;
      j := j + 1;
    }
  }

  /** The codes 16, 17 and 18: a repeated length, or zeros. */
  method OneRun(st: State, ll: array<nat>, i0: nat, l0: nat, j: nat, n: nat, ghost limit: nat, ghost cl: seq<nat>)
    returns (r: Status, i: nat, l: nat)
    requires st.BufferOk() && st.bk <= 15 && limit <= 8 * |st.input|
    requires i0 < n <= ll.Length && 16 <= j <= 18
    modifies st`inptr, st`bb, st`bk, ll
    ensures st.BufferOk()
    ensures r == Ok ==> st.Pos() >= old(st.Pos()) && st.bk <= 15 && i0 < i <= n && l == RunValue(l0, j)
    ensures r == Ok ==> ll[..i] == old(ll[..i0]) + Repeat(l, i - i0)
    ensures var goal := AfterRunCode(st.input, limit, cl, old(st.Pos()), old(ll[..i0]), l0, n, j);
            if r == Ok then SameLens(goal, RefLengths(st.input, limit, cl, st.Pos(), ll[..i], l, n), st.Pos(), limit)
            else LensFails(goal, r, st.input, limit)
  {
    hide Lsb;
    hide Pow2;
    hide RefLengths;
    hide Repeat;
    ghost var pos := st.Pos();
    i, l := i0, l0;
    var ok, x := TakeBits(st, RunBits(j));
    if !ok {
      r := OutOfInput;
      return;
    }
    var run := x + if j == 18 then 11 else 3;
    if i + run > n {
      r := Err(1);
      return;
    }
    l := RunValue(l0, j);
    StoreRun(ll, i, run, l);
    i := i + run;
    r := Ok;
  }

  predicate Short15(lens: seq<nat>)
  {
    forall i :: 0 <= i < |lens| ==> lens[i] <= 15
  }

  lemma ShortGrows(a: seq<nat>, x: nat, n: nat)
    requires Short15(a) && x <= 15
    ensures Short15(a + Repeat(x, n)) && Short15(a + [x])
  {
  }

  lemma SameLensChain(goal: Lens, mid: Lens, now: Lens, p: int, q: int, limit: nat)
    requires SameLens(goal, mid, p, limit) && p <= q
    ensures SameLens(mid, now, q, limit) ==> SameLens(goal, now, q, limit)
  {
  }

  lemma FailsBefore(goal: Lens, mid: Lens, r: Status, p: int, s: seq<Byte>, limit: nat)
    requires SameLens(goal, mid, p, limit) && LensFails(mid, r, s, limit)
    ensures LensFails(goal, r, s, limit)
  {
  }

  /** One pass of the loop over the lengths. */
  method OneLength(st: State, t: Tree, ll: array<nat>, i0: nat, l0: nat, n: nat, ghost limit: nat, ghost cl: seq<nat>)
    returns (r: Status, i: nat, l: nat)
    requires st.BufferOk() && st.bk <= 15 && limit <= 8 * |st.input|
    requires |cl| == 19 && Lengths(cl) && !TooMany(cl) && !Incomplete(cl) && TreeOk(t, cl, CodeLengths)
    requires AllZero(cl) || forall i :: 0 <= i < 19 ==> cl[i] <= t.m
    requires i0 < n <= ll.Length && l0 <= 15 && Short15(ll[..i0])
    modifies st`inptr, st`bb, st`bk, ll
    ensures st.BufferOk()
    ensures r == Ok ==> st.Pos() >= old(st.Pos()) && st.bk <= 15 && i0 < i <= n && l <= 15 && Short15(ll[..i])
    ensures var goal := RefLengths(st.input, limit, cl, old(st.Pos()), old(ll[..i0]), l0, n);
            if r == Ok then SameLens(goal, RefLengths(st.input, limit, cl, st.Pos(), ll[..i], l, n), st.Pos(), limit)
            else LensFails(goal, r, st.input, limit)
  {
    hide Lsb;
    hide Pow2;
    hide RefLengths;
    hide Repeat;
    hide AfterRunCode;
    hide TreeOk;
    hide KraftSum;
    hide Matches;
    hide Short15;
    hide NextSymbol;
    ghost var s, pos, acc := st.input, st.Pos(), ll[..i0];
    i, l := i0, l0;
    var j;
    r, j := LengthSymbol(st, t, limit, cl);
    LengthsUnfold(s, limit, cl, pos, acc, l0, n, r, j, st.Pos());
    if r != Ok { return; }
    if j < 16 {
      ShortGrows(acc, j, 1);
      ll[i] := j;
      l := j;
      i := i + 1;
      assert ll[..i] == acc + [j];
    } else {
      ghost var q := st.Pos();
      r, i, l := OneRun(st, ll, i0, l0, j, n, limit, cl);
      if r == Ok {
        ShortGrows(acc, l, i - i0);
        SameLensChain(RefLengths(s, limit, cl, pos, acc, l0, n), AfterRunCode(s, limit, cl, q, acc, l0, n, j),
                      RefLengths(s, limit, cl, st.Pos(), ll[..i], l, n), q, st.Pos(), limit);
      } else {
        FailsBefore(RefLengths(s, limit, cl, pos, acc, l0, n), AfterRunCode(s, limit, cl, q, acc, l0, n, j),
                    r, q, s, limit);
      }
    }
  }

  /** The nl + nd code lengths of inflate_dynamic. */
  method ReadLengths(st: State, t: Tree, ll: array<nat>, n: nat, ghost limit: nat,
        ghost cl: seq<nat>) returns (r: Status)
    requires st.BufferOk() && st.bk <= 15 && limit <= 8 * |st.input|
    requires |cl| == 19 && Lengths(cl) && !TooMany(cl) && !Incomplete(cl) && TreeOk(t, cl, CodeLengths)
    requires AllZero(cl) || forall i :: 0 <= i < 19 ==> cl[i] <= t.m
    requires n <= ll.Length
    modifies st`inptr, st`bb, st`bk, ll
    ensures st.BufferOk() && (r == Ok ==> st.bk <= 15 && st.Pos() >= old(st.Pos()) && Short15(ll[..n]))
    ensures LensAgree(RefLengths(st.input, limit, cl, old(st.Pos()), [], 0, n), r, ll[..n], st.Pos(), st.input, limit)
  {
    hide RefLengths;
    hide TreeOk;
    hide KraftSum;
    hide Short15;
    hide SameLens;
    ghost var s, pos := st.input, st.Pos();
    ghost var goal := RefLengths(s, limit, cl, pos, [], 0, n);
    var i: nat, l: nat := 0, 0;
    NoLensYet(ll[..i], goal, pos, limit);
    while i < n
      invariant st.BufferOk() && st.bk <= 15 && st.Pos() >= pos && 0 <= i <= n && 0 <= l <= 15 && Short15(ll[..i])
      invariant SameLens(goal, RefLengths(s, limit, cl, st.Pos(), ll[..i], l, n), st.Pos(), limit)
    {
      ghost var mid, q := RefLengths(s, limit, cl, st.Pos(), ll[..i], l, n), st.Pos();
      r, i, l := OneLength(st, t, ll, i, l, n, limit, cl);
      if r != Ok {
        FailsBefore(goal, mid, r, q, s, limit);
        LensFailed(goal, r, ll[..n], st.Pos(), s, limit);
        return;
      }
      SameLensChain(goal, mid, RefLengths(s, limit, cl, st.Pos(), ll[..i], l, n), q, st.Pos(), limit);
    }
    LensDone(goal, s, limit, cl, st.Pos(), ll[..i], l, n);
    r := Ok;
  }

  lemma NoLensYet(none: seq<nat>, goal: Lens, pos: int, limit: nat)
    requires |none| == 0
    ensures Short15(none) && none == [] && SameLens(goal, goal, pos, limit)
  {
  }

  lemma LensFailed(goal: Lens, r: Status, lens: seq<nat>, pos: int, s: seq<Byte>, limit: nat)
    requires r != Ok && LensFails(goal, r, s, limit)
    ensures LensAgree(goal, r, lens, pos, s, limit)
  {
  }

  lemma LensDone(goal: Lens, s: seq<Byte>, limit: nat, cl: seq<nat>, pos: nat, lens: seq<nat>, prev: nat, n: nat)
    requires SameLens(goal, RefLengths(s, limit, cl, pos, lens, prev, n), pos, limit) && |lens| == n
    ensures LensAgree(goal, Ok, lens, pos, s, limit)
  {
  }

  // ----- A dynamic block as a whole -----

  /** The three counts at the start of a dynamic block. */
  method DynamicCounts(st: State) returns (r: Status, nl: nat, nd: nat, nb: nat)
    requires st.BufferOk() && st.bk <= 15
    modifies st`inptr, st`bb, st`bk
    ensures st.BufferOk() && nb <= 19
    ensures r == OutOfInput ==> old(st.Pos()) + 14 > 8 * |st.input|
    ensures r == OutOfInput || (r == Err(1) && (nl > 286 || nd > 30)) || (r == Ok && nl <= 286 && nd <= 30)
    ensures r != OutOfInput ==>
              && nl == 257 + Lsb(st.input, old(st.Pos()), 5) && nd == 1 + Lsb(st.input, old(st.Pos()) + 5, 5)
              && nb == 4 + Lsb(st.input, old(st.Pos()) + 10, 4)
              && st.bk <= 15 && st.Pos() == old(st.Pos()) + 14
  {
    hide Lsb;
    hide Pow2;
    ghost var p := st.Pos();
    var ok, x;
    r, nl, nd, nb := OutOfInput, 0, 0, 4;
    ok, x := TakeBits(st, 5);
    if !ok { return; }
    nl := 257 + x;
    ok, x := TakeBits(st, 5);
    if !ok { return; }
    nd := 1 + x;
    ok, x := TakeBits(st, 4);
    if !ok { return; }
    FourBits(st.input, p + 10);
    nb := 4 + x;
    r := if nl > 286 || nd > 30 then Err(1) else Ok;
  }

  lemma FourBits(s: seq<Byte>, pos: nat)
    ensures Lsb(s, pos, 4) <= 15
  {
    LsbConcat(s, pos, 4, 0);
    assert Pow2(4) == 16;
  }

  /** The code lengths of a dynamic block, from the code length code on. */
  ghost function RefCodeLengths(s: seq<Byte>, limit: nat, pos: nat, nb: nat, n: nat): Lens
  {
    var cl := CodeLengthLens(s, pos, nb);
    if pos + 3 * nb > limit then NoLens(Short)
    else if TooMany(cl) then NoLens(Error(2))
    else if Incomplete(cl) then NoLens(Error(1))
    else RefLengths(s, limit, cl, pos + 3 * nb, [], 0, n)
  }

  /** What the reference does once the counts are read. */
  ghost function AfterCounts(s: seq<Byte>, limit: nat, pos: nat, nl: nat, nd: nat, nb: nat, out: seq<Byte>): Outcome
    requires nl <= 286 && 1 <= nd <= 30
  {
    AfterLengths(s, limit, RefCodeLengths(s, limit, pos, nb, nl + nd), nl, nd, out)
  }

  ghost function AfterLengths(s: seq<Byte>, limit: nat, l: Lens, nl: nat, nd: nat, out: seq<Byte>): Outcome
  {
    match l
    case NoLens(why) => why
    case Lens(lens, q) =>
      if |lens| != nl + nd || !Short15(lens) then Undefined
      else
        var ll, dl := lens[..nl], lens[nl..];
        if TooMany(ll) then Error(2)
        else if Incomplete(ll) then Error(1)
        else if TooMany(dl) then Error(2)
        else if Incomplete(dl) then Error(1)
        else RefCodes(s, limit, ll, dl, q, out)
  }

  lemma CountsUnfold(s: seq<Byte>, limit: nat, pos: nat, out: seq<Byte>)
    requires limit <= 8 * |s|
    ensures var nl, nd, nb := 257 + Lsb(s, pos, 5), 1 + Lsb(s, pos + 5, 5), 4 + Lsb(s, pos + 10, 4);
            var goal := RefDynamic(s, limit, pos, out);
            && (pos + 14 > limit ==> goal == Short)
            && (nl > 286 || nd > 30 ==> goal == Short || goal == Error(1))
            && (nl <= 286 && nd <= 30 ==> SameGoal(goal, AfterCounts(s, limit, pos + 14, nl, nd, nb, out)))
  {
    hide Lsb;
    hide RefCodes;
    hide TooMany;
    hide Incomplete;
    hide CodeLengthLens;
    hide RefLengths;
  }

  /** Both trees are built, and the block decoded. */
  method DynamicBody(st: State, lens: seq<nat>, nl: nat, nd: nat, ghost limit: nat) returns (r: Status)
    requires st.Valid() && st.bk <= 15 && limit <= 8 * |st.input|
    requires 257 <= nl <= 286 && 1 <= nd <= 30 && |lens| == nl + nd && Short15(lens)
    modifies st, st.window
    ensures st.Valid() && (r == Ok ==> st.bk <= 15 && st.Pos() > old(st.Pos()))
    ensures Agrees(AfterLengths(st.input, limit, Lens(lens, old(st.Pos())), nl, nd, old(st.History())),
                   r, st.History(), st.Pos(), st.input, limit)
  {
    hide State.WindowOk;
    hide RefCodes;
    hide KraftSum;
    hide TreeOk;
    var e, tl := BuildTree(lens[..nl], Literals, 9);
    if e != 0 { return Err(e); }
    var td;
    e, td := BuildTree(lens[nl..], Distances, 6);
    if e != 0 { return Err(e); }
    r := InflateCodes.InflateCodes(st, tl, td, limit, lens[..nl], lens[nl..]);
  }

  /** inflate_dynamic: a block that describes its own codes. */
  method InflateDynamic(st: State, ghost limit: nat) returns (r: Status)
    requires st.Valid() && st.bk <= 15 && limit <= 8 * |st.input|
    modifies st, st.window
    ensures st.Valid() && (r == Ok ==> st.bk <= 15 && st.Pos() > old(st.Pos()))
    ensures Agrees(RefDynamic(st.input, limit, old(st.Pos()), old(st.History())),
                   r, st.History(), st.Pos(), st.input, limit)
  {
    hide State.WindowOk;
    hide RefDynamic;
    hide AfterCounts;
    hide Lsb;
    ghost var s, p, out := st.input, st.Pos(), st.History();
    CountsUnfold(s, limit, p, out);
    var nl, nd, nb;
    r, nl, nd, nb := DynamicCounts(st);
    if r != Ok { return; }
    ghost var q := st.Pos();
    r := DynamicRest(st, nl, nd, nb, limit);
    GoalChain(RefDynamic(s, limit, p, out), AfterCounts(s, limit, q, nl, nd, nb, out), r, st.History(), st.Pos(),
              Short, s, limit);
  }

  lemma PosIsNat(st: State)
    requires st.BufferOk()
    ensures st.Pos() >= 0
  {
  }

  lemma CodeLengthsUnfold(s: seq<Byte>, limit: nat, p: nat, nb: nat, n: nat)
    ensures var cl, goal := CodeLengthLens(s, p, nb), RefCodeLengths(s, limit, p, nb, n);
            && (p + 3 * nb > limit ==> goal == NoLens(Short))
            && (TooMany(cl) ==> goal == NoLens(Short) || goal == NoLens(Error(2)))
            && (Incomplete(cl) ==> goal == NoLens(Short) || goal == NoLens(Error(1)))
            && (!TooMany(cl) && !Incomplete(cl) ==>
                 goal == if p + 3 * nb > limit then NoLens(Short) else RefLengths(s, limit, cl, p + 3 * nb, [], 0, n))
  {
    hide CodeLengthLens;
    hide RefLengths;
  }

  /** The code length code and the lengths it codes. */
  method DynamicLengths(st: State, ll: array<nat>, n: nat, nb: nat, ghost limit: nat) returns (r: Status)
    requires st.BufferOk() && st.bk <= 15 && limit <= 8 * |st.input|
    requires ll.Length == 316 && n <= 316 && 4 <= nb <= 19
    modifies st`inptr, st`bb, st`bk, ll
    ensures st.BufferOk() && (r == Ok ==> st.bk <= 15 && st.Pos() >= old(st.Pos()) && Short15(ll[..n]))
    ensures LensAgree(RefCodeLengths(st.input, limit, old(st.Pos()), nb, n), r, ll[..n], st.Pos(), st.input, limit)
  {
    hide *;
    PosIsNat(st);
    ghost var s, p := st.input, st.Pos();
    ghost var goal := RefCodeLengths(s, limit, p, nb, n);
    var ok := CodeLengthCodes(st, ll, nb);
    if !ok {
      LensRanOut(s, limit, p, nb, n, ll[..n], st.Pos());
      return OutOfInput;
    }
    ghost var cl := CodeLengthLens(s, p, nb);
    var e, tl := CodeLengthTree(ll[..19], s, p, nb);
    if e != 0 {
      LensRefused(s, limit, p, nb, n, e, ll[..n], st.Pos());
      return Err(e);
    }
    r := ReadLengths(st, tl, ll, n, limit, cl);
    LensFollow(s, limit, p, nb, n, r, ll[..n], st.Pos());
  }

  /** The tree of the code length code. */
  method CodeLengthTree(lens: seq<nat>, ghost s: seq<Byte>, ghost p: nat, ghost nb: nat) returns (e: nat, tl: Tree)
    requires lens == CodeLengthLens(s, p, nb)
    ensures |lens| == 19 && Lengths(lens) && e <= 2 && (e == 2 <==> TooMany(lens)) && (e == 1 <==> Incomplete(lens))
    ensures e == 0 ==> TreeOk(tl, lens, CodeLengths) && (AllZero(lens) || forall i :: 0 <= i < 19 ==> lens[i] <= tl.m)
  {
    hide TreeOk;
    hide CodeLengthLens;
    hide TooMany;
    hide Incomplete;
    SevenBits(s, p, nb);
    e, tl := BuildTree(lens, CodeLengths, 7);
    if e == 0 { RootCovers(lens, tl.m); }
  }

  lemma LensRanOut(s: seq<Byte>, limit: nat, p: nat, nb: nat, n: nat, lens: seq<nat>, pos: int)
    requires p + 3 * nb > limit
    ensures LensAgree(RefCodeLengths(s, limit, p, nb, n), OutOfInput, lens, pos, s, limit)
  {
    CodeLengthsUnfold(s, limit, p, nb, n);
  }

  lemma LensRefused(s: seq<Byte>, limit: nat, p: nat, nb: nat, n: nat, e: nat, lens: seq<nat>, pos: int)
    requires if e == 2 then TooMany(CodeLengthLens(s, p, nb)) else e == 1 && Incomplete(CodeLengthLens(s, p, nb))
    ensures LensAgree(RefCodeLengths(s, limit, p, nb, n), Err(e), lens, pos, s, limit)
  {
    hide TooMany;
    hide Incomplete;
    CodeLengthsUnfold(s, limit, p, nb, n);
  }

  lemma LensFollow(s: seq<Byte>, limit: nat, p: nat, nb: nat, n: nat, r: Status, lens: seq<nat>, pos: int)
    requires !TooMany(CodeLengthLens(s, p, nb)) && !Incomplete(CodeLengthLens(s, p, nb))
    requires LensAgree(RefLengths(s, limit, CodeLengthLens(s, p, nb), p + 3 * nb, [], 0, n), r, lens, pos, s, limit)
    requires r == Ok ==> pos >= p + 3 * nb
    ensures LensAgree(RefCodeLengths(s, limit, p, nb, n), r, lens, pos, s, limit)
  {
    hide TooMany;
    hide Incomplete;
    hide RefLengths;
    CodeLengthsUnfold(s, limit, p, nb, n);
  }

  /** Everything after the counts. */
  method DynamicRest(st: State, nl: nat, nd: nat, nb: nat, ghost limit: nat) returns (r: Status)
    requires st.Valid() && st.bk <= 15 && limit <= 8 * |st.input|
    requires 257 <= nl <= 286 && 1 <= nd <= 30 && 4 <= nb <= 19
    modifies st, st.window
    ensures st.Valid() && (r == Ok ==> st.bk <= 15 && st.Pos() > old(st.Pos()))
    ensures Agrees(AfterCounts(st.input, limit, old(st.Pos()), nl, nd, nb, old(st.History())),
                   r, st.History(), st.Pos(), st.input, limit)
  {
    hide State.WindowOk;
    hide RefCodeLengths;
    hide AfterLengths;
    hide LensAgree;
    hide Agrees;
    hide Short15;
    ghost var s, p, out := st.input, st.Pos(), st.History();
    var ll := new nat[316](i => 0);
    r := DynamicLengths(st, ll, nl + nd, nb, limit);
    ghost var got := RefCodeLengths(s, limit, p, nb, nl + nd);
    WithinLimit(s, limit, p, nb, nl + nd);
    LengthsFailed(s, limit, got, r, ll[..nl + nd], st.Pos(), nl, nd, out, st.History());
    if r != Ok { return; }
    ghost var q := st.Pos();
    r := DynamicBody(st, ll[..nl + nd], nl, nd, limit);
    LengthsChain(s, limit, got, ll[..nl + nd], q, nl, nd, out, r, st.History(), st.Pos());
  }

  lemma SevenBits(s: seq<Byte>, p: nat, nb: nat)
    ensures forall i :: 0 <= i < 19 ==> CodeLengthLens(s, p, nb)[i] <= 7
  {
  }

  lemma RootCovers(cl: seq<nat>, m: nat)
    requires |cl| == 19 && (forall i :: 0 <= i < 19 ==> cl[i] <= 7)
          && (AllZero(cl) || 7 <= m || forall i :: 0 <= i < 19 ==> cl[i] <= m)
    ensures AllZero(cl) || forall i :: 0 <= i < 19 ==> cl[i] <= m
  {
  }

  lemma WithinLimit(s: seq<Byte>, limit: nat, p: nat, nb: nat, n: nat)
    ensures var got := RefCodeLengths(s, limit, p, nb, n); got.Lens? ==> got.pos <= limit
  {
    hide RefLengths;
    hide CodeLengthLens;
    hide TooMany;
    hide Incomplete;
  }

  lemma LengthsFailed(s: seq<Byte>, limit: nat, got: Lens, r: Status, lens: seq<nat>, pos: int, nl: nat, nd: nat,
                      out: seq<Byte>, now: seq<Byte>)
    requires LensAgree(got, r, lens, pos, s, limit) && (got.Lens? ==> got.pos <= limit)
    ensures r != Ok ==> Agrees(AfterLengths(s, limit, got, nl, nd, out), r, now, pos, s, limit)
  {
  }

  lemma LengthsChain(s: seq<Byte>, limit: nat, got: Lens, lens: seq<nat>, q: nat, nl: nat, nd: nat, out: seq<Byte>,
                     r: Status, now: seq<Byte>, pos: int)
    requires LensAgree(got, Ok, lens, q, s, limit) && (r == Ok ==> pos >= q)
    requires Agrees(AfterLengths(s, limit, Lens(lens, q), nl, nd, out), r, now, pos, s, limit)
    ensures Agrees(AfterLengths(s, limit, got, nl, nd, out), r, now, pos, s, limit)
  {
  }
}
