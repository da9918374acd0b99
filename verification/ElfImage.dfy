/**
 What the one pass of ElfBoot over the stream comes to: the image that reading the file at will would leave in memory,
 and the sums that must not wrap for that.
 */
module ElfImage {
  import opened Bits
  import opened ElfBoot

  // ----- One round -----

  /** What a copy of the segment's bytes of the file leaves at a. */
  function Copied(p: Segment, file: File, a: nat, before: Byte): Byte
  {
    if p.Holds(a) then file(p.offset + (a - p.paddr)) else before
  }

  /** The address after the file bytes does not wrap, or nothing depends on it. */
  predicate MiddleOk(p: Segment)
  {
    p.paddr + p.filesz < W32 || (p.paddr + p.filesz == W32 && Buffered(p) == p.filesz)
  }

  /**
   One round copies its segment, from any file, if and only if that sum does not wrap, and keeps the stream in step with
   the offset if and only if the end in the file does not wrap.
   */
  lemma RoundExact(at: Place, p: Segment)
    requires p.Loads() && at.InStep() && at.offset <= p.offset && !Overruns(p)
    ensures (forall file: File, a: Word, before: Byte :: Puts(at, p, file, a, before) == Copied(p, file, a, before))
            <==> MiddleOk(p)
    ensures MiddleOk(p) ==> (Advance(at, p).InStep() <==> p.offset + p.filesz < W32)
  {
    BufferedBound(p);
    if MiddleOk(p) {
      forall file: File, a: Word, before: Byte
        ensures Puts(at, p, file, a, before) == Copied(p, file, a, before)
      {
        RoundCopies(at, p, file, a, before);
      }
      AdvanceExact(at, p);
    } else {
      var a := Miscopied(at, p);
      assert Puts(at, p, _ => 1, a, 0) != Copied(p, _ => 1, a, 0);
    }
  }

  lemma BufferedShare(p: Segment)
    requires !Overruns(p)
    ensures Buffered(p) == if p.offset >= ELF_HEAD_SIZE then 0
                           else if p.offset + p.filesz > ELF_HEAD_SIZE then ELF_HEAD_SIZE - p.offset else p.filesz
  {
  }

  lemma RoundCopies(at: Place, p: Segment, file: File, a: Word, before: Byte)
    requires p.Loads() && at.InStep() && at.offset <= p.offset && !Overruns(p) && MiddleOk(p)
    ensures Puts(at, p, file, a, before) == Copied(p, file, a, before)
  {
    BufferedBound(p);
    BufferedShare(p);
  }

  lemma AdvanceExact(at: Place, p: Segment)
    requires p.Loads() && at.InStep() && at.offset <= p.offset && !Overruns(p) && MiddleOk(p)
    ensures Advance(at, p).InStep() <==> p.offset + p.filesz < W32
    ensures p.offset + p.filesz < W32 ==> Advance(at, p).offset == p.offset + p.filesz
  {
    BufferedBound(p);
    BufferedShare(p);
  }

  lemma Miscopied(at: Place, p: Segment) returns (a: Word)
    requires p.Loads() && !Overruns(p) && !MiddleOk(p)
    ensures Puts(at, p, _ => 1, a, 0) != Copied(p, _ => 1, a, 0)
  {
    BufferedBound(p);
    WrappedEnd(p.paddr, p.filesz);
    if Buffered(p) == p.filesz {
      a := 0;
    } else {
      a := Sum32(p.paddr, Buffered(p));
    }
  }

  // ----- All rounds -----

  /** Where the last segment taken ends in the file. */
  function EndOf(ph: seq<Segment>, order: seq<nat>): nat
    requires Indices(ph, order)
  {
    if order == [] then 0 else ph[order[|order| - 1]].offset + ph[order[|order| - 1]].filesz
  }

  /** What loading segments in some order leaves at a. */
  function Loaded(ph: seq<Segment>, order: seq<nat>, file: File, a: nat, before: Byte): Byte
    requires Indices(ph, order)
  {
    if order == [] then before
    else Copied(ph[order[|order| - 1]], file, a, Loaded(ph, order[..|order| - 1], file, a, before))
  }

  /** k starts within the file bytes of j. */
  predicate StartsIn(ph: seq<Segment>, k: nat, j: nat)
    requires k < |ph| && j < |ph|
  {
    ph[j].offset <= ph[k].offset < ph[j].offset + ph[j].filesz
  }

  /**
   The order in which a stream that only moves forward is cut up: rising offsets, without overlap, and a segment is
   passed over only if it starts within one that was taken.
   */
  predicate InStreamOrder(ph: seq<Segment>, order: seq<nat>)
  {
    && Indices(ph, order) && (forall i :: 0 <= i < |order| ==> ph[order[i]].Loads())
    && (forall i, j :: 0 <= i < j < |order| ==> ph[order[i]].offset + ph[order[i]].filesz <= ph[order[j]].offset)
  }

  predicate Accounted(ph: seq<Segment>, order: seq<nat>, offset: nat)
    requires Indices(ph, order)
  {
    forall k :: 0 <= k < |ph| && ph[k].Loads() && ph[k].offset < offset ==>
                  k in order || exists j :: 0 <= j < |order| && StartsIn(ph, k, order[j])
  }

  /** The segments of this order are taken, in step with the stream. */
  predicate Taken(ph: seq<Segment>, order: seq<nat>, at: Place)
  {
    && Indices(ph, order) && InStreamOrder(ph, order) && Accounted(ph, order, EndOf(ph, order))
    && EndOf(ph, order) < W32 && at == Place(EndOf(ph, order), Max(ELF_HEAD_SIZE, EndOf(ph, order)))
  }

  /** As long as no end wraps the loop takes the segments in that order. */
  lemma {:induction false} TakesInOrder(ph: seq<Segment>, order: seq<nat>)
    requires Fits(ph) && Follows(ph, order)
    ensures Taken(ph, order, After(ph, order))
    ensures Over(ph, After(ph, order).offset) ==> Accounted(ph, order, W32)
  {
    hide Advance;
    hide Picks;
    if order == [] {
      StoredNothing(ph);
    } else {
      var init, last := order[..|order| - 1], order[|order| - 1];
      FollowsInit(ph, order);
      TakesInOrder(ph, init);
      TakesNext(ph, init, After(ph, init), last);
      assert init + [last] == order;
    }
    AllPassed(ph, order, After(ph, order));
  }

  lemma AllPassed(ph: seq<Segment>, order: seq<nat>, at: Place)
    requires Taken(ph, order, at)
    ensures Over(ph, at.offset) ==> Accounted(ph, order, W32)
  {
  }

  lemma TakesNext(ph: seq<Segment>, order: seq<nat>, at: Place, cur: nat)
    requires Fits(ph) && Taken(ph, order, at) && Picks(ph, at.offset, cur)
    ensures Taken(ph, order + [cur], Advance(at, ph[cur]))
  {
    hide Advance;
    hide InStreamOrder;
    hide Accounted;
    TakeInOrder(ph, order, cur);
    TakeSegment(ph, order, EndOf(ph, order), cur);
    NoOverrun(ph[cur]);
    AdvanceExact(at, ph[cur]);
  }

  lemma NoOverrun(p: Segment)
    requires p.offset + p.filesz < W32
    ensures !Overruns(p)
  {
  }

  /** And leaves in memory what copying them in that order does. */
  lemma {:induction false} StoredIsLoaded(ph: seq<Segment>, order: seq<nat>, file: File, a: Word, before: Byte)
    requires Fits(ph) && Follows(ph, order)
    ensures Stored(ph, order, file, a, before) == Loaded(ph, order, file, a, before)
  {
    hide Advance;
    hide Puts;
    if order != [] {
      var init, last := order[..|order| - 1], order[|order| - 1];
      FollowsInit(ph, order);
      TakesInOrder(ph, init);
      StoredIsLoaded(ph, init, file, a, before);
      NoOverrun(ph[last]);
      RoundCopies(After(ph, init), ph[last], file, a, Loaded(ph, init, file, a, before));
    }
  }

  lemma TakeInOrder(ph: seq<Segment>, order: seq<nat>, cur: nat)
    requires InStreamOrder(ph, order) && cur < |ph| && ph[cur].Loads() && EndOf(ph, order) <= ph[cur].offset
    ensures InStreamOrder(ph, order + [cur]) && EndOf(ph, order + [cur]) == ph[cur].offset + ph[cur].filesz
  {
    EarlierEnd(ph, order);
  }

  lemma TakeSegment(ph: seq<Segment>, order: seq<nat>, offset: nat, cur: nat)
    requires Indices(ph, order) && Accounted(ph, order, offset)
    requires cur < |ph| && ph[cur].Loads() && offset <= ph[cur].offset
    requires forall i :: 0 <= i < |ph| && ph[i].Loads() && offset <= ph[i].offset ==> ph[cur].offset <= ph[i].offset
    ensures Accounted(ph, order + [cur], ph[cur].offset + ph[cur].filesz)
  {
    hide Segment.Loads;
    var n, order' := |order|, order + [cur];
    forall k | 0 <= k < |ph| && ph[k].Loads() && ph[k].offset < ph[cur].offset + ph[cur].filesz
      ensures k in order' || exists j :: 0 <= j < |order'| && StartsIn(ph, k, order'[j])
    {
      if offset <= ph[k].offset {
        assert StartsIn(ph, k, order'[n]);
      } else if k !in order {
        var j :| 0 <= j < n && StartsIn(ph, k, order[j]);
        assert StartsIn(ph, k, order'[j]);
      }
    }
  }

  lemma EarlierEnd(ph: seq<Segment>, order: seq<nat>)
    requires InStreamOrder(ph, order)
    ensures forall i :: 0 <= i < |order| ==> ph[order[i]].offset + ph[order[i]].filesz <= EndOf(ph, order)
  {
  }

  // ----- The image in memory -----

  /** Nothing of the file is in two segments. */
  predicate FileDisjoint(ph: seq<Segment>)
  {
    forall j, k :: 0 <= j < |ph| && 0 <= k < |ph| && j != k && ph[j].Loads() && ph[k].Loads() ==> !StartsIn(ph, k, j)
  }

  /** The loadable segments do not meet in memory. */
  predicate MemoryDisjoint(ph: seq<Segment>)
  {
    forall j, k :: 0 <= j < |ph| && 0 <= k < |ph| && j != k && Present(ph[j]) && Present(ph[k]) ==>
      ph[j].paddr + ph[j].memsz <= ph[k].paddr || ph[k].paddr + ph[k].memsz <= ph[j].paddr
  }

  /** A loadable segment, possibly with no byte in the file. */
  predicate Present(p: Segment)
  {
    p.kind == PT_LOAD && p.filesz <= p.memsz
  }

  /** One pass over the stream takes every segment if and only if they do not overlap in the file. */
  lemma TakesAll(ph: seq<Segment>, order: seq<nat>)
    requires InStreamOrder(ph, order) && Accounted(ph, order, W32)
    ensures (forall k :: 0 <= k < |ph| && ph[k].Loads() ==> k in order) <==> FileDisjoint(ph)
  {
    if FileDisjoint(ph) {
      forall k | 0 <= k < |ph| && ph[k].Loads()
        ensures k in order
      {
      }
    }
    if forall k :: 0 <= k < |ph| && ph[k].Loads() ==> k in order {
      forall j, k | 0 <= j < |ph| && 0 <= k < |ph| && j != k && ph[j].Loads() && ph[k].Loads()
        ensures !StartsIn(ph, k, j)
      {
        var x := IndexOf(order, j);
        var y := IndexOf(order, k);
      }
    }
  }

  lemma IndexOf(order: seq<nat>, k: nat) returns (i: nat)
    requires k in order
    ensures i < |order| && order[i] == k
  {
    i :| 0 <= i < |order| && order[i] == k;
  }

  /** A byte held by one of the segments taken, and by no other of them, comes from that segment. */
  lemma {:induction false} HeldByOne(ph: seq<Segment>, order: seq<nat>, file: File, a: nat, before: Byte, k: nat)
    requires Indices(ph, order)
    requires forall i :: 0 <= i < |order| && order[i] != k ==> !ph[order[i]].Holds(a)
    ensures k in order && ph[k].Holds(a) ==>
              Loaded(ph, order, file, a, before) == file(ph[k].offset + (a - ph[k].paddr))
    ensures k !in order || !ph[k].Holds(a) ==> Loaded(ph, order, file, a, before) == before
  {
    if order != [] { HeldByOne(ph, order[..|order| - 1], file, a, before, k); }
  }

  /**
   When the loadable segments are disjoint in the file and in memory, and no end wraps, each of them ends up as its
   bytes of the file followed by zeros, just as with random access to the file.
   */
  lemma ImageInMemory(ph: seq<Segment>, order: seq<nat>, file: File, k: nat, a: Word, before: Byte)
    requires Fits(ph) && Follows(ph, order) && Over(ph, After(ph, order).offset)
    requires FileDisjoint(ph) && MemoryDisjoint(ph)
    requires k < |ph| && Present(ph[k]) && ph[k].paddr <= a < ph[k].paddr + ph[k].memsz
    ensures Stored(ph, order, file, a, Cleared(ph, a, before))
            == if a < ph[k].paddr + ph[k].filesz then file(ph[k].offset + (a - ph[k].paddr)) else 0
  {
    hide After;
    hide Follows;
    hide Stored;
    TakesInOrder(ph, order);
    TakesAll(ph, order);
    StoredIsLoaded(ph, order, file, a, Cleared(ph, a, before));
    forall i | 0 <= i < |order| && order[i] != k
      ensures !ph[order[i]].Holds(a)
    {
      assert Present(ph[order[i]]);
    }
    HeldByOne(ph, order, file, a, Cleared(ph, a, before), k);
    if a >= ph[k].paddr + ph[k].filesz { assert Clears(ph[k], a); }
  }

  // ----- When the loop over the file ends -----

  /** For segments without overlap in the file the loop ends if and only if no end of a segment in the file wraps. */
  lemma EndsExactly(ph: seq<Segment>)
    requires FileDisjoint(ph)
    ensures Ends(ph) <==> NoWrap(ph)
  {
    if NoWrap(ph) {
      EndsWithout(ph);
    } else if order: seq<nat> :| Follows(ph, order) && Over(ph, After(ph, order).offset) {
      var p :| 0 <= p < |ph| && ph[p].Loads() && ph[p].offset + ph[p].filesz >= W32;
      StaysBelow(ph, p, order);
    }
  }

  /** For any segments it ends if no end wraps. */
  lemma EndsWithout(ph: seq<Segment>)
    requires NoWrap(ph)
    ensures Ends(ph)
  {
    StoredNothing(ph);
    GoesOn(ph, []);
  }

  lemma {:induction false} GoesOn(ph: seq<Segment>, order: seq<nat>)
    requires NoWrap(ph) && Follows(ph, order)
    ensures Ends(ph)
    decreases W32 - After(ph, order).offset
  {
    hide Picks;
    var offset := After(ph, order).offset;
    if !Over(ph, offset) {
      var cur := PickExists(ph, offset, |ph|);
      Moves(ph, offset, cur);
      FollowsNext(ph, order, cur);
      TakenNext(ph, order, cur);
      GoesOn(ph, order + [cur]);
    }
  }

  lemma Moves(ph: seq<Segment>, offset: Word, cur: nat)
    requires NoWrap(ph) && Picks(ph, offset, cur)
    ensures cur < |ph| && Sum32(ph[cur].offset, ph[cur].filesz) > offset
  {
  }

  lemma {:induction false} PickExists(ph: seq<Segment>, offset: Word, n: nat) returns (cur: nat)
    requires n <= |ph| && exists i :: 0 <= i < n && ph[i].Loads() && offset <= ph[i].offset
    ensures Picks(ph[..n], offset, cur)
    ensures n == |ph| ==> Picks(ph, offset, cur)
  {
    var m := n - 1;
    if exists i :: 0 <= i < m && ph[i].Loads() && offset <= ph[i].offset {
      cur := PickExists(ph, offset, m);
      assert forall i :: 0 <= i < m ==> ph[..m][i] == ph[..n][i];
      if ph[m].Loads() && offset <= ph[m].offset < ph[cur].offset { cur := m; }
    } else {
      cur := m;
    }
    assert n == |ph| ==> ph[..n] == ph;
  }

  /** The loop never gets past a segment whose end wraps. */
  lemma {:induction false} StaysBelow(ph: seq<Segment>, p: nat, order: seq<nat>)
    requires FileDisjoint(ph) && p < |ph| && ph[p].Loads() && ph[p].offset + ph[p].filesz >= W32
    requires Follows(ph, order)
    ensures After(ph, order).offset <= ph[p].offset
  {
    hide FileDisjoint;
    hide Segment.Loads;
    if order != [] {
      FollowsInit(ph, order);
      StaysBelow(ph, p, order[..|order| - 1]);
      RoundBelow(ph, p, After(ph, order[..|order| - 1]).offset, order[|order| - 1]);
    }
  }

  lemma RoundBelow(ph: seq<Segment>, p: nat, before: Word, cur: nat)
    requires FileDisjoint(ph) && p < |ph| && ph[p].Loads() && ph[p].offset + ph[p].filesz >= W32
    requires before <= ph[p].offset && Picks(ph, before, cur)
    ensures Sum32(ph[cur].offset, ph[cur].filesz) <= ph[p].offset
  {
    hide Segment.Loads;
    var q := ph[cur];
    assert q.offset <= ph[p].offset;
    if cur == p {
      WrappedEnd(q.offset, q.filesz);
    } else {
      assert !StartsIn(ph, p, cur);
      EndBelow(q.offset, q.filesz, ph[p].offset);
    }
  }

  lemma EndBelow(offset: Word, filesz: Word, limit: Word)
    requires offset + filesz <= limit
    ensures Sum32(offset, filesz) <= limit
  {
  }

  /** A segment of 16 bytes at the very end of the offsets is read for ever. */
  lemma EndlessLoop()
    ensures !Ends([Segment(PT_LOAD, 0xffff_fff0, 0x1000, 16, 16)])
  {
    EndsExactly([Segment(PT_LOAD, 0xffff_fff0, 0x1000, 16, 16)]);
    assert [Segment(PT_LOAD, 0xffff_fff0, 0x1000, 16, 16)][0].Loads();
  }
}
