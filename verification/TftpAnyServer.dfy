/** What the TFTP client does whatever it is sent: every list of replies and timeouts, from any server or none. */
module TftpAnyServer {
  import opened Bits
  import opened Tftp

  ghost predicate Patient(fnc: Callback)
  {
    forall d: Delivery :: fnc(d) < 0
  }

  /** The block at place i was received as a data packet with number i + 1. */
  predicate Received(events: seq<Event>, d: Delivery, i: nat)
  {
    exists k :: 0 <= k < |events| && events[k].Got? && events[k].reply.Data?
                && events[k].reply.number == i + 1 && events[k].reply.payload == d.data
  }

  /** The packets are requests, or acknowledge no block that was not handed over. */
  predicate Honest(sent: seq<Sent>, n: nat)
  {
    forall k :: 0 <= k < |sent| ==> sent[k].msg.Ack? ==> sent[k].msg.number <= n
  }

  predicate Numbered(s: State, events: seq<Event>)
  {
    && s.prevblock == s.bcounter == |s.handed| && s.block <= s.prevblock
    && Honest(s.sent, |s.handed|) && (s.tp.Ack? ==> s.tp.number <= |s.handed|)
    && forall i :: 0 <= i < |s.handed| ==>
         && s.handed[i].number == i + 1 && s.handed[i].len == |s.handed[i].data|
         && Received(events, s.handed[i], i)
  }

  /**
   A block is the last when it is shorter than the block size, and no callback stopped the transfer before the last.
   */
  predicate Decided(s: State, fnc: Callback)
  {
    && (forall i :: 0 <= i < |s.handed| - 1 ==> fnc(s.handed[i]) < 0 && !s.handed[i].last)
    && (s.handed != [] ==>
          var d := s.handed[|s.handed| - 1];
          && d.last == (|d.data| < s.packetsize)
          && (fnc(d) >= 0 || d.last ==> s.status == Returned(if fnc(d) >= 0 then fnc(d) else 1)))
    && (s.status.Returned? && s.status.rc != 0 ==>
          s.handed != [] && var d := s.handed[|s.handed| - 1];
          fnc(d) >= 0 || d.last)
  }

  ghost predicate Invariant(s: State, events: seq<Event>, fnc: Callback)
  {
    Numbered(s, events) && Decided(s, fnc)
  }

  lemma StartHolds(iport: U16, sends: bool, fnc: Callback)
    ensures Invariant(Start(iport, sends), [], fnc)
  {
  }

  lemma ReceivedMore(events: seq<Event>, e: Event, d: Delivery, i: nat)
    requires Received(events, d, i)
    ensures Received(events + [e], d, i)
  {
    var k :| 0 <= k < |events| && events[k].Got? && events[k].reply.Data?
             && events[k].reply.number == i + 1 && events[k].reply.payload == d.data;
    assert (events + [e])[k] == events[k];
  }

  lemma StepHolds(s: State, events: seq<Event>, e: Event, fnc: Callback)
    requires Invariant(s, events, fnc)
    ensures Invariant(Step(s, e, fnc), events + [e], fnc)
  {
    hide Received;
    forall i | 0 <= i < |s.handed|
      ensures Received(events + [e], s.handed[i], i)
    {
      ReceivedMore(events, e, s.handed[i], i);
    }
    if s.status == Running && e.Got? {
      match e.reply
      case Error =>
      case Unknown =>
      case Oack(buf, len, src) =>
        hide OptionSize;
        if s.prevblock == 0 {
          match OptionSize(buf, len, s.packetsize)
          case Refused(p) =>
          case Size(p) => BlockHolds(s.(packetsize := p), events, e, 0, src, [], fnc);
        }
      case Data(number, payload, src) =>
        if |payload| <= s.packetsize { BlockHolds(s, events, e, number, src, payload, fnc); }
    }
  }

  lemma BlockHolds(s: State, events: seq<Event>, e: Event, number: U16, src: U16, payload: seq<Byte>, fnc: Callback)
    requires s.status == Running && Invariant(s, events, fnc)
    requires forall i :: 0 <= i < |s.handed| ==> Received(events + [e], s.handed[i], i)
    requires number == 0 || e == Got(Data(number, payload, src))
    ensures Invariant(OnBlock(s, number, src, payload, fnc), events + [e], fnc)
  {
    hide Received;
    var b := Answered(s, number);
    var t := Transmit(s.(block := b), Ack(b), src);
    AcknowledgeHolds(s, events + [e], b, src);
    if (b - s.prevblock) % 0x1_0000 == 1 {
      assert b == number == s.prevblock + 1;
      var d := Delivery(payload, s.bcounter + 1, |payload|, |payload| < s.packetsize);
      ReceivedNow(events, e, d, s.prevblock, src);
    }
  }

  lemma AcknowledgeHolds(s: State, events: seq<Event>, b: U16, src: U16)
    requires Honest(s.sent, |s.handed|) && (b <= |s.handed| || b == |s.handed| + 1)
    ensures var sent := s.sent + [Sent(Ack(b), s.iport, src)];
      Honest(sent, |s.handed| + 1) && (b <= |s.handed| ==> Honest(sent, |s.handed|))
  {
  }

  lemma ReceivedNow(events: seq<Event>, e: Event, d: Delivery, i: nat, src: U16)
    requires i + 1 < 0x1_0000 && e == Got(Data(i + 1, d.data, src))
    ensures Received(events + [e], d, i)
  {
    assert (events + [e])[|events|] == e;
  }

  lemma {:induction false} RunHolds(s: State, before: seq<Event>, events: seq<Event>, fnc: Callback)
    requires Invariant(s, before, fnc)
    ensures Invariant(Run(s, events, fnc), before + events, fnc)
    decreases |events|
  {
    hide Invariant;
    if events == [] {
      assert before + events == before;
    } else {
      StepHolds(s, before, events[0], fnc);
      RunHolds(Step(s, events[0], fnc), before + [events[0]], events[1..], fnc);
      assert before + [events[0]] + events[1..] == before + events;
    }
  }

  /**
   Whatever arrives: the blocks handed over are numbered from 1 and each arrived in a data packet of that number, at
   most 65535 of them, and no block is acknowledged that was not handed over.
   */
  lemma InOrder(iport: U16, sends: bool, events: seq<Event>, fnc: Callback)
    ensures var r := Run(Start(iport, sends), events, fnc);
      && |r.handed| <= 0xffff && Honest(r.sent, |r.handed|)
      && forall i :: 0 <= i < |r.handed| ==>
           && r.handed[i].number == i + 1 && r.handed[i].len == |r.handed[i].data|
           && Received(events, r.handed[i], i)
  {
    hide Received;
    StartHolds(iport, sends, fnc);
    RunHolds(Start(iport, sends), [], events, fnc);
    assert [] + events == events;
  }

  /**
   Whatever arrives, with a callback that never stops the transfer: 1 is returned if and only if the last block handed
   over is shorter than the block size; only the last block is; and nothing but 0 and 1 is returned.
   */
  lemma OneExactly(iport: U16, sends: bool, events: seq<Event>, fnc: Callback)
    requires Patient(fnc)
    ensures var r := Run(Start(iport, sends), events, fnc);
      && (r.status == Returned(1) <==> r.handed != [] && |r.handed[|r.handed| - 1].data| < r.packetsize)
      && (forall i :: 0 <= i < |r.handed| ==>
            (r.handed[i].last <==> r.status == Returned(1) && i == |r.handed| - 1))
      && (r.status == Running || r.status == Returned(0) || r.status == Returned(1))
  {
    hide Received;
    StartHolds(iport, sends, fnc);
    RunHolds(Start(iport, sends), [], events, fnc);
    assert [] + events == events;
    RunsOnly(Start(iport, sends), events, fnc);
  }

  lemma {:induction false} RunsOnly(s: State, events: seq<Event>, fnc: Callback)
    requires Patient(fnc) && (s.status == Running || s.status == Returned(0) || s.status == Returned(1))
    ensures var r := Run(s, events, fnc); r.status == Running || r.status == Returned(0) || r.status == Returned(1)
    decreases |events|
  {
    if events != [] {
      hide OptionSize;
      RunsOnly(Step(s, events[0], fnc), events[1..], fnc);
    }
  }

  /** A callback that stops the transfer has its number returned, and is not called again. */
  lemma Stopped(iport: U16, sends: bool, events: seq<Event>, fnc: Callback)
    ensures var r := Run(Start(iport, sends), events, fnc);
      && (forall i :: 0 <= i < |r.handed| - 1 ==> fnc(r.handed[i]) < 0)
      && (r.handed != [] && fnc(r.handed[|r.handed| - 1]) >= 0 ==>
            r.status == Returned(fnc(r.handed[|r.handed| - 1])))
  {
    hide Received;
    StartHolds(iport, sends, fnc);
    RunHolds(Start(iport, sends), [], events, fnc);
    assert [] + events == events;
  }

  lemma {:induction false} RunConcat(s: State, a: seq<Event>, b: seq<Event>, fnc: Callback)
    ensures Run(s, a + b, fnc) == Run(Run(s, a, fnc), b, fnc)
    decreases |a|
  {
    hide Step;
    if a == [] {
      assert a + b == b;
    } else {
      assert (a + b)[1..] == a[1..] + b;
      RunConcat(Step(s, a[0], fnc), a[1..], b, fnc);
    }
  }

  /** An error packet, and one of any unknown kind, ends the transfer with 0; nothing is sent or handed over. */
  lemma ErrorEnds(s: State, before: seq<Event>, reply: Reply, after: seq<Event>, fnc: Callback)
    requires Run(s, before, fnc).status == Running && (reply == Error || reply == Unknown)
    ensures var was, r := Run(s, before, fnc), Run(s, before + [Got(reply)] + after, fnc);
      r.status == Returned(0) && r.sent == was.sent && r.handed == was.handed
  {
    RunConcat(s, before + [Got(reply)], after, fnc);
    RunConcat(s, before, [Got(reply)], fnc);
    RunOne(Run(s, before, fnc), Got(reply), fnc);
    RunEnded(Run(s, before + [Got(reply)], fnc), after, fnc);
  }

  lemma RunOne(s: State, e: Event, fnc: Callback)
    ensures Run(s, [e], fnc) == Step(s, e, fnc)
  {
    hide Step;
    assert [e][1..] == [];
    assert Run(Step(s, e, fnc), [], fnc) == Step(s, e, fnc);
  }

  /** Data beyond the block size are as if they had not come. */
  lemma LongIgnored(s: State, before: seq<Event>, n: U16, payload: seq<Byte>, src: U16, after: seq<Event>,
                    fnc: Callback)
    requires |payload| > Run(s, before, fnc).packetsize
    ensures Run(s, before + [Got(Data(n, payload, src))] + after, fnc) == Run(s, before + after, fnc)
  {
    var e := Got(Data(n, payload, src));
    RunConcat(s, before + [e], after, fnc);
    RunConcat(s, before, [e], fnc);
    RunConcat(s, before, after, fnc);
    RunOne(Run(s, before, fnc), e, fnc);
  }

  /** So is an option acknowledgement once a block has been handed over. */
  lemma LateOptionsIgnored(iport: U16, sends: bool, before: seq<Event>, buf: seq<Byte>, len: U16, src: U16,
                           after: seq<Event>, fnc: Callback)
    requires Run(Start(iport, sends), before, fnc).handed != []
    ensures Run(Start(iport, sends), before + [Got(Oack(buf, len, src))] + after, fnc)
            == Run(Start(iport, sends), before + after, fnc)
  {
    hide Received;
    hide OptionSize;
    var s, e := Start(iport, sends), Got(Oack(buf, len, src));
    StartHolds(iport, sends, fnc);
    RunHolds(s, [], before, fnc);
    RunConcat(s, before + [e], after, fnc);
    RunConcat(s, before, [e], fnc);
    RunConcat(s, before, after, fnc);
    RunOne(Run(s, before, fnc), e, fnc);
  }

  /** Refused options are answered with an error to where they came from, and 0 is returned. */
  lemma RefusedEnds(s: State, before: seq<Event>, buf: seq<Byte>, len: U16, src: U16, after: seq<Event>, fnc: Callback)
    requires Run(s, before, fnc).status == Running && Run(s, before, fnc).prevblock == 0
    requires OptionSize(buf, len, Run(s, before, fnc).packetsize).Refused?
    ensures var was, r := Run(s, before, fnc), Run(s, before + [Got(Oack(buf, len, src))] + after, fnc);
      r.status == Returned(0) && r.sent == was.sent + [Sent(OptionError, was.iport, src)] && r.handed == was.handed
  {
    hide OptionSize;
    var e := Got(Oack(buf, len, src));
    RunConcat(s, before + [e], after, fnc);
    RunConcat(s, before, [e], fnc);
    RunOne(Run(s, before, fnc), e, fnc);
    RunEnded(Run(s, before + [e], fnc), after, fnc);
  }

  // ----- A server that is silent -----

  function Timeouts(n: nat): (r: seq<Event>)
    ensures |r| == n
  {
    seq(n, i => TimedOut(true))
  }

  /**
   Without any reply the request is sent 21 times, from the next port each time, always to port 69; the timeout after
   that returns 0.
   */
  lemma {:induction false} Silent(iport: U16, n: nat, fnc: Callback)
    ensures var r := Run(Start(iport, true), Timeouts(n), fnc);
      && |r.sent| == (if n <= 20 then n + 1 else 21) && r.handed == []
      && r.status == (if n <= 20 then Running else Returned(0))
      && r.block == 0 && r.tp == Rrq && (n <= 20 ==> r.retry == n && r.iport == (iport + 1 + n) % 0x1_0000)
      && forall k :: 0 <= k < |r.sent| ==> r.sent[k] == Sent(Rrq, (iport + 1 + k) % 0x1_0000, 69)
  {
    if n == 0 {
      assert Timeouts(0) == [];
    } else {
      Silent(iport, n - 1, fnc);
      var was := Run(Start(iport, true), Timeouts(n - 1), fnc);
      assert Timeouts(n) == Timeouts(n - 1) + [TimedOut(true)];
      RunConcat(Start(iport, true), Timeouts(n - 1), [TimedOut(true)], fnc);
      RunOne(was, TimedOut(true), fnc);
      if n <= 20 { NextAgain(iport + n); }
    }
  }

  lemma NextAgain(x: nat)
    ensures (x % 0x1_0000 + 1) % 0x1_0000 == (x + 1) % 0x1_0000
  {
  }

  /** Once a block has been handed over, a timeout returns 0; so does any packet that cannot be sent. */
  lemma TimeoutEnds(s: State, before: seq<Event>, sends: bool, fnc: Callback)
    requires Run(s, before, fnc).status == Running && (Run(s, before, fnc).block != 0 || !sends)
    ensures var was, r := Run(s, before, fnc), Run(s, before + [TimedOut(sends)], fnc);
      r.status == Returned(0) && r.sent == was.sent && r.handed == was.handed
  {
    RunConcat(s, before, [TimedOut(sends)], fnc);
    RunOne(Run(s, before, fnc), TimedOut(sends), fnc);
  }

  /** When the first request cannot be sent, 0 is returned at once, whatever is yet to come. */
  lemma NotSent(iport: U16, events: seq<Event>, fnc: Callback)
    ensures var r := Run(Start(iport, false), events, fnc); r.status == Returned(0) && r.sent == [] && r.handed == []
  {
    RunEnded(Start(iport, false), events, fnc);
  }

  /**
   A block with another number than the next is answered by acknowledging the last one again, to where it came from.
   */
  lemma OtherNumber(iport: U16, before: seq<Event>, n: U16, payload: seq<Byte>, src: U16, fnc: Callback)
    requires var was := Run(Start(iport, true), before, fnc);
      was.status == Running && |payload| <= was.packetsize && n != |was.handed| + 1
    ensures var was, r := Run(Start(iport, true), before, fnc),
                          Run(Start(iport, true), before + [Got(Data(n, payload, src))], fnc);
      && |was.handed| <= 0xffff && r.status == Running && r.handed == was.handed
      && r.sent == was.sent + [Sent(Ack(|was.handed|), was.iport, src)]
  {
    hide Received;
    StartHolds(iport, true, fnc);
    RunHolds(Start(iport, true), [], before, fnc);
    assert [] + before == before;
    RunConcat(Start(iport, true), before, [Got(Data(n, payload, src))], fnc);
    RunOne(Run(Start(iport, true), before, fnc), Got(Data(n, payload, src)), fnc);
  }

  // ----- The name of the option -----

  /** The letters "blksize", each small or capital, at p; behind them a zero or, as the code takes it too, a blank. */
  predicate Spelled(buf: seq<Byte>, p: nat)
  {
    && (At(buf, p) == 'b' as int || At(buf, p) == 'B' as int)
    && (At(buf, p + 1) == 'l' as int || At(buf, p + 1) == 'L' as int)
    && (At(buf, p + 2) == 'k' as int || At(buf, p + 2) == 'K' as int)
    && (At(buf, p + 3) == 's' as int || At(buf, p + 3) == 'S' as int)
    && (At(buf, p + 4) == 'i' as int || At(buf, p + 4) == 'I' as int)
    && (At(buf, p + 5) == 'z' as int || At(buf, p + 5) == 'Z' as int)
    && (At(buf, p + 6) == 'e' as int || At(buf, p + 6) == 'E' as int)
    && (At(buf, p + 7) == 0 || At(buf, p + 7) == ' ' as int)
  }

  /** The comparison accepts exactly these. */
  lemma NameExactly(buf: seq<Byte>, p: nat)
    ensures CaseDifference(BLKSIZE, buf, p) == 0 <==> Spelled(buf, p)
  {
    hide At;
    hide CaseDifference;
    assert [101][1..] == [] && [122, 101][1..] == [101] && [105, 122, 101][1..] == [122, 101];
    assert [115, 105, 122, 101][1..] == [105, 122, 101] && [107, 115, 105, 122, 101][1..] == [115, 105, 122, 101];
    assert [108, 107, 115, 105, 122, 101][1..] == [107, 115, 105, 122, 101];
    assert BLKSIZE[1..] == [108, 107, 115, 105, 122, 101];
    NextLetter([101], buf, p + 6);
    NextLetter([122, 101], buf, p + 5);
    NextLetter([105, 122, 101], buf, p + 4);
    NextLetter([115, 105, 122, 101], buf, p + 3);
    NextLetter([107, 115, 105, 122, 101], buf, p + 2);
    NextLetter([108, 107, 115, 105, 122, 101], buf, p + 1);
    NextLetter(BLKSIZE, buf, p);
    NameEnds(buf, p + 7);
  }

  /** A small letter matches itself and its capital. */
  lemma NextLetter(a: seq<Byte>, buf: seq<Byte>, p: nat)
    requires a != [] && 97 <= a[0] <= 122
    ensures CaseDifference(a, buf, p) == 0 <==>
              (At(buf, p) == a[0] || At(buf, p) == a[0] - 32) && CaseDifference(a[1..], buf, p + 1) == 0
  {
    hide At;
    OneLetter(a[0], At(buf, p));
  }

  lemma OneLetter(a: Byte, c: Byte)
    requires 97 <= a <= 122
    ensures Folded(a) == a - 32 && (Folded(c) == Folded(a) <==> c == a || c == a - 32)
  {
  }

  lemma NameEnds(buf: seq<Byte>, p: nat)
    ensures CaseDifference([], buf, p) == 0 <==> At(buf, p) == 0 || At(buf, p) == 32
  {
  }

  /**
   An option with any spelling of the name and a number in decimal: the number is the block size from 512 on, and the
   options are refused below that, or when their length ends within the option; only its last zero may be missing.
   */
  lemma AnySpelling(name: seq<Byte>, n: nat, rest: seq<Byte>, len: nat, packetsize: int)
    requires |name| == 7 && Spelled(name + [0], 0) && n < 0x8000_0000 && 0 < len <= 9 + |Digits(n)|
    ensures OptionSize(name + [0] + Digits(n) + [0] + rest, len, packetsize)
            == if n < 512 || len < 8 + |Digits(n)| then Refused(n) else Size(n)
  {
    hide Digits;
    hide CaseDifference;
    var buf := name + [0] + Digits(n) + [0] + rest;
    DigitsCount(n);
    TextParts(name, n, rest);
    SameName(name, buf);
    NameExactly(buf, 0);
    OneOption(buf, 0, len, n, packetsize);
  }

  /** Options one after the other, as long as all are at most 1432 bytes: the last one counts. */
  lemma {:induction false} LastCounts(buf: seq<Byte>, p: nat, sizes: seq<nat>, packetsize: int)
    requires OptionsAt(buf, p, sizes)
    ensures Options(buf, p, Behind(p, sizes), packetsize)
            == Size(if sizes == [] then packetsize else sizes[|sizes| - 1])
    ensures p == 0 && Behind(0, sizes) <= 1432 ==>
              OptionSize(buf, Behind(0, sizes), packetsize) == Options(buf, 0, Behind(0, sizes), packetsize)
    decreases |sizes|
  {
    hide Digits;
    hide CaseDifference;
    hide Number;
    if sizes != [] {
      var q := p + 9 + |Digits(sizes[0])|;
      BehindRises(q, sizes[1..]);
      LastCounts(buf, q, sizes[1..], sizes[0]);
      OneOption(buf, p, Behind(p, sizes), sizes[0], packetsize);
    }
  }

  predicate OptionsAt(buf: seq<Byte>, p: nat, sizes: seq<nat>)
    decreases |sizes|
  {
    sizes == []
    || (512 <= sizes[0] < 0x8000_0000 && OptionAt(buf, p, sizes[0])
        && OptionsAt(buf, p + 9 + |Digits(sizes[0])|, sizes[1..]))
  }

  function Behind(p: nat, sizes: seq<nat>): nat
    decreases |sizes|
  {
    if sizes == [] then p else Behind(p + 9 + |Digits(sizes[0])|, sizes[1..])
  }

  lemma {:induction false} BehindRises(p: nat, sizes: seq<nat>)
    ensures p <= Behind(p, sizes)
    decreases |sizes|
  {
    if sizes != [] { BehindRises(p + 9 + |Digits(sizes[0])|, sizes[1..]); }
  }

  lemma SameName(name: seq<Byte>, buf: seq<Byte>)
    requires |name| == 7 && Spelled(name + [0], 0) && |buf| >= 8 && buf[0..7] == name && buf[7] == 0
    ensures Spelled(buf, 0) && At(buf, 0) != 0
  {
    assert forall i: nat :: i < 7 ==> At(buf, i) == buf[0..7][i] == (name + [0])[i] == At(name + [0], i);
  }

  /** Anything else at the start of the options is refused, and so are options of more than 1432 bytes. */
  lemma OtherRefused(buf: seq<Byte>, len: nat, packetsize: int)
    requires (0 < len && At(buf, 0) != 0 && !Spelled(buf, 0)) || len > 1432
    ensures OptionSize(buf, len, packetsize) == Refused(packetsize)
  {
    hide CaseDifference;
    hide Spelled;
    NameExactly(buf, 0);
  }
}
