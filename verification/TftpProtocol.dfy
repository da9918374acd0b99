/**
 The client of module Tftp against honest servers (RFC 1350, section 2, and the block size option of RFC 2348)
 over a network that loses, duplicates, delays and reorders packets.
 */
module TftpProtocol {
  import opened Bits
  import opened Tftp

  /** The file asked for, and whether and how the server negotiates the block size. */
  datatype Offer = Offer(file: seq<Byte>, options: bool, bs: nat)
  {
    predicate Valid()
    {
      TFTP_DEFAULTSIZE_PACKET <= bs < 0x8000_0000 && (options || bs == TFTP_DEFAULTSIZE_PACKET)
    }

    /** The number of blocks; the last one is shorter than bs, possibly empty. */
    function Blocks(): (n: nat)
      requires bs > 0
      ensures n >= 1 && (n - 1) * bs <= |file| < n * bs
    {
      BlockCount(|file|, bs);
      |file| / bs + 1
    }

    function Block(k: nat): (b: seq<Byte>)
      requires bs > 0 && 1 <= k <= Blocks()
      ensures |b| <= bs && (|b| < bs <==> k == Blocks())
    {
      BlockBounds(k);
      if k == Blocks() then file[(k - 1) * bs..] else file[(k - 1) * bs..k * bs]
    }

    lemma BlockBounds(k: nat)
      requires bs > 0 && 1 <= k <= Blocks()
      ensures 0 <= (k - 1) * bs <= |file| && k * bs == (k - 1) * bs + bs
      ensures k < Blocks() ==> k * bs <= |file|
    {
      Product(k - 1, Blocks() - 1, bs);
      if k < Blocks() { Product(k, Blocks() - 1, bs); }
    }
  }

  lemma Product(a: nat, b: nat, c: nat)
    requires a <= b
    ensures 0 <= a * c <= b * c && (a + 1) * c == a * c + c
  {
  }

  lemma BlockCount(len: nat, bs: nat)
    requires bs > 0
    ensures 0 <= len / bs && (len / bs) * bs <= len < (len / bs + 1) * bs
  {
  }

  /** A transfer is known by the server's port and the client's (section 4 of RFC 1350). */
  datatype Ends = Ends(server: U16, client: U16)

  /** Packets of a transfer; a block is sent with its number modulo 2^16. */
  datatype Packet = OackFrom(ends: Ends) | BlockFrom(ends: Ends, k: nat)

  /**
   The client's log holds every packet that may still reach a server, net every packet that may still reach the
   client: a packet stays there for ever, so it may arrive late, twice, out of order or never. The block a server
   process is at is in sessions, 0 for the option acknowledgement.
   */
  datatype System = System(client: State, sessions: map<Ends, nat>, net: set<Packet>)

  function Wire(o: Offer, p: Packet): Reply
    requires o.Valid() && (p.BlockFrom? ==> 1 <= p.k <= o.Blocks())
  {
    match p
    case OackFrom(ends) => Oack(OptionText(o.bs), OptionLength(o), ends.server)
    case BlockFrom(ends, k) => Data(k % 0x1_0000, o.Block(k), ends.server)
  }

  function OptionLength(o: Offer): U16
    requires o.Valid()
  {
    OptionRoundTrip(o.bs, [], 0);
    |OptionText(o.bs)|
  }

  /** The packet a server process sends at block cur. */
  function Current(ends: Ends, cur: nat): Packet
  {
    if cur == 0 then OackFrom(ends) else BlockFrom(ends, cur)
  }

  datatype Move =
    | Deliver(p: Packet)
    | Timeout(sends: bool)
    | Request(i: nat, server: U16)
    | Acknowledge(i: nat)

  /** The transfer a packet of the client is meant for. */
  function EndsOf(a: Sent): Ends
  {
    Ends(a.dst, a.src)
  }

  predicate Enabled(o: Offer, s: System, m: Move)
    requires o.Valid()
  {
    match m
    case Deliver(p) =>
      s.client.status == Running && p in s.net && p.ends.client == s.client.iport
      && (p.BlockFrom? ==> 1 <= p.k <= o.Blocks())
    case Timeout(sends) => s.client.status == Running
    case Request(i, server) =>
      i < |s.client.sent| && IsRequest(s.client.sent[i]) && Ends(server, s.client.sent[i].src) !in s.sessions
    case Acknowledge(i) =>
      i < |s.client.sent| && s.client.sent[i].msg.Ack? && EndsOf(s.client.sent[i]) in s.sessions
      && var cur := s.sessions[EndsOf(s.client.sent[i])];
      s.client.sent[i].msg.number == cur % 0x1_0000 && cur < o.Blocks()
  }

  predicate IsRequest(a: Sent)
  {
    a.msg == Rrq && a.dst == TFTP_PORT
  }

  function Next(o: Offer, s: System, m: Move, fnc: Callback): System
    requires o.Valid() && Enabled(o, s, m)
  {
    match m
    case Deliver(p) => s.(client := Step(s.client, Got(Wire(o, p)), fnc))
    case Timeout(sends) => s.(client := Step(s.client, TimedOut(sends), fnc))
    case Request(i, server) => Moved(s, Ends(server, s.client.sent[i].src), if o.options then 0 else 1)
    case Acknowledge(i) => Moved(s, EndsOf(s.client.sent[i]), s.sessions[EndsOf(s.client.sent[i])] + 1)
  }

  /** A server process goes to block cur and sends it. */
  function Moved(s: System, ends: Ends, cur: nat): System
  {
    s.(sessions := s.sessions[ends := cur], net := s.net + {Current(ends, cur)})
  }

  function Initial(iport: U16, sends: bool): System
  {
    System(Tftp.Start(iport, sends), map[], {})
  }

  /** A run from the first request on; the request may fail to leave. */
  ghost predicate IsRun(o: Offer, run: seq<System>, moves: seq<Move>, iport: U16, fnc: Callback)
    requires o.Valid()
  {
    IsSteps(o, run, moves, fnc) && (run[0] == Initial(iport, true) || run[0] == Initial(iport, false))
  }

  ghost predicate IsSteps(o: Offer, run: seq<System>, moves: seq<Move>, fnc: Callback)
    requires o.Valid()
  {
    |run| == |moves| + 1
    && forall i :: 0 <= i < |moves| ==> Enabled(o, run[i], moves[i]) && run[i + 1] == Next(o, run[i], moves[i], fnc)
  }

  // ----- What every reachable system keeps -----

  /** What the callback gets as block k. */
  function Handed(o: Offer, k: nat): Delivery
    requires o.Valid() && 1 <= k <= o.Blocks()
  {
    Delivery(o.Block(k), k, |o.Block(k)|, k == o.Blocks())
  }

  /** Blocks 1 to bcounter were handed over, once each and in order. */
  ghost predicate InOrder(o: Offer, c: State)
    requires o.Valid()
  {
    && |c.handed| == c.bcounter <= o.Blocks()
    && forall i :: 0 <= i < |c.handed| ==> c.handed[i] == Handed(o, i + 1)
  }

  ghost predicate Acked(c: State)
  {
    exists i :: 0 <= i < |c.sent| && c.sent[i].msg.Ack?
  }

  /** A request was sent from this port. */
  ghost predicate Asked(c: State, port: U16)
  {
    exists i :: 0 <= i < |c.sent| && IsRequest(c.sent[i]) && c.sent[i].src == port
  }

  /** The port of attempt t. */
  function Port(iport: U16, t: nat): U16
  {
    (iport + t) % 0x1_0000
  }

  /** The ports used so far are those of attempts 1 to tries, and the current one is the last. */
  ghost predicate PortsOk(c: State, iport: U16, tries: nat)
  {
    && 1 <= tries <= MAX_TFTP_RETRIES + 1 && c.iport == Port(iport, tries)
    && (c.block == 0 && c.status == Running ==> tries == c.retry + 1)
    && (c.status == Running && c.tp == Rrq ==> Asked(c, c.iport))
    && forall i :: 0 <= i < |c.sent| ==> UsedPort(c.sent[i].src, iport, tries)
  }

  ghost predicate UsedPort(p: U16, iport: U16, tries: nat)
  {
    exists t: nat :: 1 <= t <= tries && p == Port(iport, t)
  }

  /** Only blocks that have arrived are acknowledged. */
  ghost predicate AcksOk(c: State)
  {
    && (forall i :: 0 <= i < |c.sent| && c.sent[i].msg.Ack? ==> c.sent[i].msg.number <= c.prevblock)
    && (c.tp.Ack? ==> Acked(c) && c.tp.number <= c.prevblock)
  }

  ghost predicate ClientOk(o: Offer, c: State)
    requires o.Valid()
  {
    && c.block == c.prevblock == c.bcounter && InOrder(o, c) && AcksOk(c)
    && (c.status == Running ==> c.bcounter < o.Blocks())
    && c.packetsize == (if o.options && !Acked(c) then TFTP_DEFAULTSIZE_PACKET else o.bs)
  }

  ghost predicate SessionOk(o: Offer, c: State, iport: U16, tries: nat, ends: Ends, cur: nat)
    requires o.Valid()
  {
    && cur <= o.Blocks() && UsedPort(ends.client, iport, tries) && Asked(c, ends.client)
    && (cur > 0 && o.options ==> Acked(c)) && (cur == 0 ==> o.options)
    && (ends.client == c.iport && c.prevblock < 0xffff ==> cur <= c.prevblock + 1)
  }

  ghost predicate PacketOk(o: Offer, s: System, p: Packet)
    requires o.Valid()
  {
    && p.ends in s.sessions
    && match p
       case OackFrom(ends) => o.options
       case BlockFrom(ends, k) => 1 <= k <= s.sessions[ends]
  }

  /** The last block came from this transfer. */
  ghost predicate Serves(s: System, ends: Ends)
  {
    ends in s.sessions && ends.client == s.client.iport && s.sessions[ends] >= s.client.prevblock
  }

  /** What a return value says. */
  ghost predicate Outcome(o: Offer, c: State, fnc: Callback)
    requires o.Valid()
  {
    c.status.Returned? ==>
      || c.status.rc == 0
      || (c.handed != [] && c.status.rc == fnc(c.handed[|c.handed| - 1]) >= 0)
      || (c.status.rc == 1 && c.bcounter == o.Blocks())
  }

  ghost predicate Inv(o: Offer, s: System, iport: U16, tries: nat, fnc: Callback)
    requires o.Valid()
  {
    && ClientOk(o, s.client) && PortsOk(s.client, iport, tries) && Outcome(o, s.client, fnc)
    && (forall e :: e in s.sessions ==> SessionOk(o, s.client, iport, tries, e, s.sessions[e]))
    && (forall e :: e in s.sessions ==> Current(e, s.sessions[e]) in s.net)
    && (forall p :: p in s.net ==> PacketOk(o, s, p))
    && (s.client.prevblock > 0 ==> exists e :: Serves(s, e))
  }

  // ----- The client's moves -----

  /** What a move of the client may change for the others. */
  ghost predicate Further(c: State, c': State)
  {
    c.sent <= c'.sent && c.prevblock <= c'.prevblock
  }

  lemma Remembered(c: State, c': State)
    requires Further(c, c')
    ensures Acked(c) ==> Acked(c')
    ensures forall port :: Asked(c, port) ==> Asked(c', port)
  {
    if Acked(c) {
      var i :| 0 <= i < |c.sent| && c.sent[i].msg.Ack?;
      assert c'.sent[i] == c.sent[i];
    }
    forall port | Asked(c, port)
      ensures Asked(c', port)
    {
      var i :| 0 <= i < |c.sent| && IsRequest(c.sent[i]) && c.sent[i].src == port;
      assert c'.sent[i] == c.sent[i];
    }
  }

  /** Sending an acknowledgement of a block that has arrived. */
  lemma AckSent(c: State, b: U16, dst: U16, iport: U16, tries: nat)
    requires AcksOk(c) && PortsOk(c, iport, tries) && b <= c.prevblock
    ensures var c' := Transmit(c, Ack(b), dst);
            AcksOk(c') && Acked(c') && PortsOk(c', iport, tries) && Further(c, c')
  {
    hide UsedPort;
    hide Port;
    var c' := Transmit(c, Ack(b), dst);
    assert c'.sent[|c.sent|].msg.Ack?;
    PortUsed(iport, tries, tries);
  }

  /** A block that is not the next one only repeats an acknowledgement. */
  lemma BlockRefused(c: State, number: U16, src: U16, payload: seq<Byte>, fnc: Callback)
    requires c.block == c.prevblock == c.bcounter && number != c.prevblock + 1
    ensures OnBlock(c, number, src, payload, fnc) == Transmit(c, Ack(c.prevblock), src)
  {
  }

  /** The next block is acknowledged and handed over. */
  lemma BlockAccepted(o: Offer, c: State, src: U16, k: nat, iport: U16, tries: nat, fnc: Callback)
    requires o.Valid() && ClientOk(o, c) && PortsOk(c, iport, tries) && c.status == Running && c.packetsize == o.bs
    requires k == c.prevblock + 1 < 0x1_0000 && k <= o.Blocks()
    ensures var c' := OnBlock(c, k, src, o.Block(k), fnc);
      && ClientOk(o, c') && PortsOk(c', iport, tries) && Outcome(o, c', fnc)
      && Acked(c') && c'.prevblock == k && c'.iport == c.iport && c'.packetsize == o.bs
      && c'.sent == c.sent + [Sent(Ack(k), c.iport, src)]
      && ((forall d :: fnc(d) < 0) ==> c'.status == if k == o.Blocks() then Returned(1) else Running)
  {
    hide UsedPort;
    hide Offer.Block;
    hide Offer.Blocks;
    hide PortsOk;
    var c' := OnBlock(c, k, src, o.Block(k), fnc);
    assert (k - c.prevblock) % 0x1_0000 == 1;
    assert c'.sent == c.sent + [Sent(Ack(k), c.iport, src)] && c'.tp == Ack(k);
    assert c'.sent[|c.sent|].msg.Ack?;
    assert c'.handed == c.handed + [Handed(o, k)];
    PortKept(c, c', Sent(Ack(k), c.iport, src), iport, tries);
  }

  /** One more packet from the present port. */
  lemma PortKept(c: State, c': State, a: Sent, iport: U16, tries: nat)
    requires PortsOk(c, iport, tries) && c'.sent == c.sent + [a] && a.src == c.iport == c'.iport
    requires c'.block != 0 && c'.tp.Ack?
    ensures PortsOk(c', iport, tries)
  {
    hide UsedPort;
    hide Port;
    hide Asked;
    PortUsed(iport, tries, tries);
  }

  lemma PortUsed(iport: U16, t: nat, tries: nat)
    requires 1 <= t <= tries
    ensures UsedPort(Port(iport, t), iport, tries)
  {
  }

  /** What a move of the client keeps. */
  ghost predicate Keeps(o: Offer, c: State, c': State, iport: U16, tries: nat, fnc: Callback)
    requires o.Valid()
  {
    && ClientOk(o, c') && PortsOk(c', iport, tries) && Outcome(o, c', fnc)
    && Further(c, c') && c'.iport == c.iport
  }

  /** An option acknowledgement sets the block size and is answered, until a block has arrived. */
  lemma OackArrives(o: Offer, c: State, server: U16, iport: U16, tries: nat, fnc: Callback)
    requires o.Valid() && ClientOk(o, c) && PortsOk(c, iport, tries) && c.status == Running && Outcome(o, c, fnc)
    ensures var c' := OnReply(c, Oack(OptionText(o.bs), OptionLength(o), server), fnc);
      && Keeps(o, c, c', iport, tries, fnc) && c'.prevblock == c.prevblock
      && c' == if c.prevblock == 0 then Transmit(c.(packetsize := o.bs), Ack(0), server) else c
  {
    hide InOrder;
    hide PortsOk;
    hide Offer.Blocks;
    hide OptionSize;
    hide OptionText;
    hide OptionLength;
    hide OnBlock;
    if c.prevblock == 0 {
      OptionTaken(o, c.packetsize);
      var d := c.(packetsize := o.bs);
      Resized(o, c, iport, tries);
      BlockRefused(d, 0, server, [], fnc);
      AckSent(d, 0, server, iport, tries);
      Acknowledged(o, d, 0, server);
    }
  }

  /** A block other than the next repeats the acknowledgement of the last one. */
  lemma OldArrives(o: Offer, c: State, k: nat, server: U16, iport: U16, tries: nat, fnc: Callback)
    requires o.Valid() && ClientOk(o, c) && PortsOk(c, iport, tries) && c.status == Running && c.packetsize == o.bs
    requires 1 <= k <= o.Blocks() && k % 0x1_0000 != c.prevblock + 1 && Outcome(o, c, fnc)
    ensures var c' := OnReply(c, Data(k % 0x1_0000, o.Block(k), server), fnc);
      Keeps(o, c, c', iport, tries, fnc) && c' == Transmit(c, Ack(c.prevblock), server)
  {
    hide InOrder;
    hide PortsOk;
    hide Offer.Block;
    hide Offer.Blocks;
    hide OnBlock;
    BlockRefused(c, k % 0x1_0000, server, o.Block(k), fnc);
    AckSent(c, c.prevblock, server, iport, tries);
    Acknowledged(o, c, c.prevblock, server);
  }

  /** The next block is taken. */
  lemma NextArrives(o: Offer, c: State, k: nat, server: U16, iport: U16, tries: nat, fnc: Callback)
    requires o.Valid() && ClientOk(o, c) && PortsOk(c, iport, tries) && c.status == Running && c.packetsize == o.bs
    requires k == c.prevblock + 1 < 0x1_0000 && k <= o.Blocks()
    ensures var c' := OnReply(c, Data(k % 0x1_0000, o.Block(k), server), fnc);
      Keeps(o, c, c', iport, tries, fnc) && c'.prevblock == k
  {
    hide ClientOk;
    hide PortsOk;
    hide Outcome;
    hide Offer.Block;
    hide Offer.Blocks;
    hide OnBlock;
    ModBelow(k);
    BlockAccepted(o, c, server, k, iport, tries, fnc);
  }

  lemma ClientDelivers(o: Offer, s: System, p: Packet, iport: U16, tries: nat, fnc: Callback)
    requires o.Valid() && Inv(o, s, iport, tries, fnc) && Enabled(o, s, Deliver(p))
    ensures p.ends in s.sessions
    ensures var c' := Step(s.client, Got(Wire(o, p)), fnc);
      && Keeps(o, s.client, c', iport, tries, fnc)
      && (c'.prevblock == s.client.prevblock || c'.prevblock <= s.sessions[p.ends])
  {
    hide Keeps;
    hide ClientOk;
    hide PortsOk;
    hide SessionOk;
    hide PacketOk;
    hide Outcome;
    hide Offer.Block;
    hide Offer.Blocks;
    hide OnReply;
    hide OptionText;
    hide OptionLength;
    var c := s.client;
    PacketEnds(o, s, p);
    match p
    case OackFrom(ends) => OackArrives(o, c, ends.server, iport, tries, fnc);
    case BlockFrom(ends, k) =>
      BlockKnown(o, s, ends, k, iport, tries);
      if k % 0x1_0000 == c.prevblock + 1 {
        NumberIs(k, c.prevblock);
        NextArrives(o, c, k, ends.server, iport, tries, fnc);
      } else {
        OldArrives(o, c, k, ends.server, iport, tries, fnc);
      }
  }

  /** A block for the present port comes from a transfer that is at most one block ahead, and the block size is
      settled. */
  lemma BlockKnown(o: Offer, s: System, ends: Ends, k: nat, iport: U16, tries: nat)
    requires o.Valid() && ClientOk(o, s.client) && PacketOk(o, s, BlockFrom(ends, k)) && ends.client == s.client.iport
    requires SessionOk(o, s.client, iport, tries, ends, s.sessions[ends])
    ensures 1 <= k <= s.sessions[ends] && s.client.packetsize == o.bs
    ensures s.client.prevblock < 0xffff ==> k <= s.client.prevblock + 1
  {
    hide InOrder;
    hide AcksOk;
    hide Offer.Blocks;
    hide UsedPort;
  }

  /** A number that is the next one is not 2^16 further. */
  lemma NumberIs(k: nat, last: nat)
    requires k % 0x1_0000 == last + 1 && (last < 0xffff ==> k <= last + 1)
    ensures k == last + 1
  {
  }

  lemma OptionTaken(o: Offer, packetsize: int)
    requires o.Valid()
    ensures OptionSize(OptionText(o.bs), OptionLength(o), packetsize) == Size(o.bs)
  {
    OptionRoundTrip(o.bs, [], packetsize);
    assert OptionText(o.bs) + [] == OptionText(o.bs);
  }

  /** The block size may be set before the acknowledgement is sent. */
  lemma Resized(o: Offer, c: State, iport: U16, tries: nat)
    requires o.Valid() && ClientOk(o, c) && PortsOk(c, iport, tries)
    ensures var d := c.(packetsize := o.bs); AcksOk(d) && PortsOk(d, iport, tries) && InOrder(o, d)
  {
    var d := c.(packetsize := o.bs);
    assert Acked(d) <==> Acked(c);
    assert Asked(d, d.iport) <==> Asked(c, c.iport);
  }

  lemma Acknowledged(o: Offer, c: State, b: U16, dst: U16)
    requires o.Valid() && c.block == c.prevblock == c.bcounter < o.Blocks() && InOrder(o, c) && AcksOk(c)
    requires b <= c.prevblock && c.packetsize == o.bs && c.status == Running
    ensures ClientOk(o, Transmit(c, Ack(b), dst)) && Acked(Transmit(c, Ack(b), dst))
  {
    hide Offer.Block;
    hide Offer.Blocks;
    var c' := Transmit(c, Ack(b), dst);
    assert c'.sent[|c.sent|].msg.Ack?;
  }

  lemma SessionKept(o: Offer, c: State, c': State, iport: U16, tries: nat, ends: Ends, cur: nat)
    requires o.Valid() && SessionOk(o, c, iport, tries, ends, cur) && Further(c, c') && c'.iport == c.iport
    ensures SessionOk(o, c', iport, tries, ends, cur)
  {
    Remembered(c, c');
  }

  lemma DeliverKeeps(o: Offer, s: System, p: Packet, iport: U16, tries: nat, fnc: Callback)
    requires o.Valid() && Inv(o, s, iport, tries, fnc) && Enabled(o, s, Deliver(p))
    ensures Inv(o, Next(o, s, Deliver(p), fnc), iport, tries, fnc)
  {
    hide ClientOk;
    hide PortsOk;
    hide SessionOk;
    hide PacketOk;
    hide Outcome;
    hide Further;
    hide Step;
    hide Wire;
    ClientDelivers(o, s, p, iport, tries, fnc);
    var s' := Next(o, s, Deliver(p), fnc);
    forall e | e in s'.sessions
      ensures SessionOk(o, s'.client, iport, tries, e, s'.sessions[e])
    {
      SessionKept(o, s.client, s'.client, iport, tries, e, s.sessions[e]);
    }
    PacketsKept(o, s, s');
    if s'.client.prevblock == s.client.prevblock {
      if s.client.prevblock > 0 {
        var e :| Serves(s, e);
        assert Serves(s', e);
      }
    } else {
      assert Serves(s', p.ends);
    }
  }

  lemma PacketEnds(o: Offer, s: System, p: Packet)
    requires o.Valid() && PacketOk(o, s, p)
    ensures p.ends in s.sessions
  {
  }

  // ----- Timeouts -----

  lemma PortsDiffer(iport: U16, t: nat, u: nat)
    requires t < u <= MAX_TFTP_RETRIES + 1
    ensures Port(iport, t) != Port(iport, u)
  {
  }

  lemma NextAttempt(iport: U16, t: nat)
    ensures NextPort(Port(iport, t)) == Port(iport, t + 1)
  {
    var q, r := (iport + t) / 0x1_0000, (iport + t) % 0x1_0000;
    if r < 0xffff {
      DivModUnique(iport + t + 1, 0x1_0000, q, r + 1);
    } else {
      DivModUnique(iport + t + 1, 0x1_0000, q + 1, 0);
    }
  }

  lemma UsedLater(p: U16, iport: U16, tries: nat)
    requires UsedPort(p, iport, tries)
    ensures UsedPort(p, iport, tries + 1)
    ensures tries + 1 <= MAX_TFTP_RETRIES + 1 ==> p != Port(iport, tries + 1)
  {
    var t: nat :| 1 <= t <= tries && p == Port(iport, t);
    if tries + 1 <= MAX_TFTP_RETRIES + 1 { PortsDiffer(iport, t, tries + 1); }
  }

  /** A request goes out from the new port exactly when tp still holds one. */
  lemma AskedAgain(c: State, iport: U16, tries: nat)
    requires PortsOk(c, iport, tries) && tries <= MAX_TFTP_RETRIES && c.status == Running
    ensures var port := Port(iport, tries + 1);
      Asked(Transmit(c.(iport := port), c.tp, TFTP_PORT), port) <==> c.tp == Rrq
  {
    hide UsedPort;
    hide Port;
    var port := Port(iport, tries + 1);
    var c' := Transmit(c.(iport := port), c.tp, TFTP_PORT);
    forall i | 0 <= i < |c.sent|
      ensures c.sent[i].src != port
    {
      UsedLater(c.sent[i].src, iport, tries);
    }
    assert c'.sent[|c.sent|] == Sent(c.tp, port, TFTP_PORT);
  }

  /** Asking again uses a new port, so nothing from earlier attempts gets through any more. */
  lemma ClientRetries(o: Offer, c: State, sends: bool, iport: U16, tries: nat)
    requires o.Valid() && ClientOk(o, c) && PortsOk(c, iport, tries) && c.status == Running
    requires c.block == 0 && c.retry < MAX_TFTP_RETRIES
    ensures var c' := OnTimeout(c, sends);
      && ClientOk(o, c') && PortsOk(c', iport, tries + 1) && c'.iport == Port(iport, tries + 1)
      && Further(c, c') && c'.prevblock == c.prevblock && c'.tp == c.tp && c'.handed == c.handed
      && c'.status == (if sends then Running else Returned(0))
      && (sends ==> (Asked(c', c'.iport) <==> c.tp == Rrq))
  {
    hide UsedPort;
    hide Offer.Block;
    hide Offer.Blocks;
    hide Port;
    NextAttempt(iport, tries);
    AskedAgain(c, iport, tries);
    var c' := OnTimeout(c, sends);
    if sends {
      var t := c.(retry := c.retry + 1, iport := NextPort(c.iport));
      assert c' == Transmit(t, c.tp, TFTP_PORT);
      assert c'.sent == Transmit(c.(iport := Port(iport, tries + 1)), c.tp, TFTP_PORT).sent;
    }
    AckedStill(c, c');
    forall i | 0 <= i < |c'.sent|
      ensures UsedPort(c'.sent[i].src, iport, tries + 1)
    {
      if i < |c.sent| { UsedLater(c.sent[i].src, iport, tries); } else { PortUsed(iport, tries + 1, tries + 1); }
    }
  }

  /** Sending tp once more is no new acknowledgement. */
  lemma AckedStill(c: State, c': State)
    requires AcksOk(c) && Further(c, c') && c'.tp == c.tp && c'.prevblock == c.prevblock
    requires |c'.sent| <= |c.sent| + 1 && (|c'.sent| > |c.sent| ==> c'.sent[|c.sent|].msg == c.tp)
    ensures AcksOk(c') && (Acked(c) <==> Acked(c'))
  {
    Remembered(c, c');
    assert forall i :: 0 <= i < |c.sent| ==> c'.sent[i] == c.sent[i];
  }

  lemma SessionOutlived(o: Offer, c: State, c': State, iport: U16, tries: nat, ends: Ends, cur: nat)
    requires o.Valid() && SessionOk(o, c, iport, tries, ends, cur) && tries + 1 <= MAX_TFTP_RETRIES + 1
    requires c'.iport == Port(iport, tries + 1) && Further(c, c')
    ensures SessionOk(o, c', iport, tries + 1, ends, cur)
  {
    hide UsedPort;
    UsedLater(ends.client, iport, tries);
    Remembered(c, c');
  }

  /** Whether a timeout is the start of another attempt. */
  predicate Again(c: State)
  {
    c.block == 0 && c.retry < MAX_TFTP_RETRIES
  }

  lemma TimeoutKeeps(o: Offer, s: System, sends: bool, iport: U16, tries: nat, fnc: Callback)
    requires o.Valid() && Inv(o, s, iport, tries, fnc) && s.client.status == Running
    ensures Inv(o, Next(o, s, Timeout(sends), fnc), iport, if Again(s.client) then tries + 1 else tries, fnc)
  {
    hide PacketOk;
    var c, s' := s.client, Next(o, s, Timeout(sends), fnc);
    if Again(c) {
      ClientRetries(o, c, sends, iport, tries);
      assert c.prevblock == 0 && tries == c.retry + 1;
      hide ClientOk;
      hide PortsOk;
      forall e | e in s'.sessions
        ensures SessionOk(o, s'.client, iport, tries + 1, e, s'.sessions[e])
      {
        SessionOutlived(o, c, s'.client, iport, tries, e, s.sessions[e]);
      }
      assert Outcome(o, s'.client, fnc);
      PacketsKept(o, s, s');
    } else {
      GivesUp(o, c, sends, iport, tries);
      hide ClientOk;
      hide PortsOk;
      forall e | e in s'.sessions
        ensures SessionOk(o, s'.client, iport, tries, e, s'.sessions[e])
      {
        SessionKept(o, c, s'.client, iport, tries, e, s.sessions[e]);
      }
      PacketsKept(o, s, s');
      if c.prevblock > 0 {
        var e :| Serves(s, e);
        assert Serves(s', e);
      }
    }
  }

  lemma PacketsKept(o: Offer, s: System, s': System)
    requires o.Valid() && s.sessions == s'.sessions && s.net == s'.net
    requires forall p :: p in s.net ==> PacketOk(o, s, p)
    ensures forall p :: p in s'.net ==> PacketOk(o, s', p)
  {
    forall q | q in s'.net ensures PacketOk(o, s', q) { assert PacketOk(o, s, q); }
  }

  lemma GivesUp(o: Offer, c: State, sends: bool, iport: U16, tries: nat)
    requires o.Valid() && ClientOk(o, c) && PortsOk(c, iport, tries) && !Again(c)
    ensures var c' := OnTimeout(c, sends);
      && c'.status == Returned(0) && ClientOk(o, c') && PortsOk(c', iport, tries)
      && Further(c, c') && c'.iport == c.iport && c'.prevblock == c.prevblock
  {
    var c' := OnTimeout(c, sends);
    assert Acked(c') <==> Acked(c);
  }

  // ----- The servers' moves -----

  lemma RequestKeeps(o: Offer, s: System, i: nat, server: U16, iport: U16, tries: nat, fnc: Callback)
    requires o.Valid() && Inv(o, s, iport, tries, fnc) && Enabled(o, s, Request(i, server))
    ensures Inv(o, Next(o, s, Request(i, server), fnc), iport, tries, fnc)
  {
    hide ClientOk;
    hide UsedPort;
    hide Outcome;
    var a, cur := s.client.sent[i], if o.options then 0 else 1;
    var ends := Ends(server, a.src);
    assert UsedPort(a.src, iport, tries);
    assert Asked(s.client, a.src);
    MovedKeeps(o, s, ends, cur, iport, tries, fnc);
  }

  /** A server process moves on to a block that is right for it. */
  lemma MovedKeeps(o: Offer, s: System, ends: Ends, cur: nat, iport: U16, tries: nat, fnc: Callback)
    requires o.Valid() && Inv(o, s, iport, tries, fnc) && SessionOk(o, s.client, iport, tries, ends, cur)
    requires ends in s.sessions ==> s.sessions[ends] <= cur
    ensures Inv(o, Moved(s, ends, cur), iport, tries, fnc)
  {
    hide ClientOk;
    hide PortsOk;
    hide SessionOk;
    hide PacketOk;
    hide Outcome;
    var s' := Moved(s, ends, cur);
    forall e | e in s'.sessions
      ensures SessionOk(o, s'.client, iport, tries, e, s'.sessions[e]) && Current(e, s'.sessions[e]) in s'.net
    {
      if e != ends {
        assert e in s.sessions && s'.sessions[e] == s.sessions[e];
        assert Current(e, s.sessions[e]) in s.net;
      }
    }
    CurrentOk(o, s.client, iport, tries, ends, cur);
    PacketsMoved(o, s, ends, cur);
    if s.client.prevblock > 0 {
      var e :| Serves(s, e);
      assert Serves(s', e);
    }
  }

  lemma PacketsMoved(o: Offer, s: System, ends: Ends, cur: nat)
    requires o.Valid() && (cur == 0 ==> o.options) && (ends in s.sessions ==> s.sessions[ends] <= cur)
    requires forall p :: p in s.net ==> PacketOk(o, s, p)
    ensures forall p :: p in Moved(s, ends, cur).net ==> PacketOk(o, Moved(s, ends, cur), p)
  {
    forall q | q in Moved(s, ends, cur).net
      ensures PacketOk(o, Moved(s, ends, cur), q)
    {
      if q in s.net { assert PacketOk(o, s, q); }
    }
  }

  lemma CurrentOk(o: Offer, c: State, iport: U16, tries: nat, ends: Ends, cur: nat)
    requires o.Valid() && SessionOk(o, c, iport, tries, ends, cur)
    ensures cur == 0 ==> o.options
  {
  }

  lemma AcknowledgeKeeps(o: Offer, s: System, i: nat, iport: U16, tries: nat, fnc: Callback)
    requires o.Valid() && Inv(o, s, iport, tries, fnc) && Enabled(o, s, Acknowledge(i))
    ensures Inv(o, Next(o, s, Acknowledge(i), fnc), iport, tries, fnc)
  {
    hide ClientOk;
    hide SessionOk;
    hide Outcome;
    hide PortsOk;
    hide PacketOk;
    var ends := EndsOf(s.client.sent[i]);
    assert SessionOk(o, s.client, iport, tries, ends, s.sessions[ends]);
    SessionMoves(o, s.client, i, iport, tries, ends, s.sessions[ends]);
    MovedKeeps(o, s, ends, s.sessions[ends] + 1, iport, tries, fnc);
  }

  /** The block that was acknowledged had arrived, so the next one may go out. */
  lemma SessionMoves(o: Offer, c: State, i: nat, iport: U16, tries: nat, ends: Ends, cur: nat)
    requires o.Valid() && ClientOk(o, c) && SessionOk(o, c, iport, tries, ends, cur) && cur < o.Blocks()
    requires i < |c.sent| && c.sent[i].msg.Ack? && c.sent[i].msg.number == cur % 0x1_0000
    ensures SessionOk(o, c, iport, tries, ends, cur + 1)
  {
    hide UsedPort;
    hide InOrder;
    hide Offer.Blocks;
    assert Acked(c) && c.sent[i].msg.number <= c.prevblock;
    if c.prevblock < 0xffff && ends.client == c.iport { NotFurther(cur, c.prevblock); }
  }

  lemma NotFurther(cur: nat, last: nat)
    requires cur % 0x1_0000 <= last < 0xffff && cur <= last + 1
    ensures cur <= last
  {
    ModBelow(cur);
  }

  // ----- Safety of every run -----

  lemma InitialOk(o: Offer, iport: U16, sends: bool, fnc: Callback)
    requires o.Valid()
    ensures Inv(o, Initial(iport, sends), iport, 1, fnc)
    ensures sends ==> Asked(Initial(iport, sends).client, Initial(iport, sends).client.iport)
  {
    var c := Initial(iport, sends).client;
    assert c.sent == if sends then [Sent(Rrq, NextPort(iport), TFTP_PORT)] else [];
    assert !Acked(c);
    assert sends ==> IsRequest(c.sent[0]);
    PortUsed(iport, 1, 1);
  }

  lemma {:induction false} RunKeeps(o: Offer, run: seq<System>, moves: seq<Move>, iport: U16,
        fnc: Callback) returns (tries: nat)
    requires o.Valid() && IsRun(o, run, moves, iport, fnc)
    ensures Inv(o, run[|moves|], iport, tries, fnc)
  {
    hide Inv;
    hide IsSteps;
    hide Initial;
    InitialOk(o, iport, true, fnc);
    InitialOk(o, iport, false, fnc);
    StepsCount(o, run, moves, fnc);
    tries := StepsKeep(o, run, moves, iport, 1, fnc);
  }

  lemma StepsCount(o: Offer, run: seq<System>, moves: seq<Move>, fnc: Callback)
    requires o.Valid() && IsSteps(o, run, moves, fnc)
    ensures |run| == |moves| + 1
  {
  }

  lemma {:induction false} StepsKeep(o: Offer, run: seq<System>, moves: seq<Move>, iport: U16, tries0: nat,
        fnc: Callback) returns (tries: nat)
    requires o.Valid() && IsSteps(o, run, moves, fnc) && Inv(o, run[0], iport, tries0, fnc)
    ensures Inv(o, run[|moves|], iport, tries, fnc)
    decreases |moves|
  {
    hide Inv;
    hide Enabled;
    hide Next;
    if moves == [] {
      tries := tries0;
    } else {
      var n := |moves| - 1;
      var before := StepsKeep(o, run[..n + 1], moves[..n], iport, tries0, fnc);
      tries := MoveKeeps(o, run[n], moves[n], iport, before, fnc);
    }
  }

  lemma MoveKeeps(o: Offer, s: System, m: Move, iport: U16, tries: nat, fnc: Callback) returns (tries': nat)
    requires o.Valid() && Inv(o, s, iport, tries, fnc) && Enabled(o, s, m)
    ensures Inv(o, Next(o, s, m, fnc), iport, tries', fnc)
  {
    hide Inv;
    hide Next;
    tries' := tries;
    match m
    case Deliver(p) => DeliverKeeps(o, s, p, iport, tries, fnc);
    case Timeout(sends) =>
      TimeoutKeeps(o, s, sends, iport, tries, fnc);
      tries' := if Again(s.client) then tries + 1 else tries;
    case Request(i, server) => RequestKeeps(o, s, i, server, iport, tries, fnc);
    case Acknowledge(i) => AcknowledgeKeeps(o, s, i, iport, tries, fnc);
  }

  /** The payloads handed over, one after the other. */
  function Contents(handed: seq<Delivery>): seq<Byte>
  {
    if handed == [] then [] else Contents(handed[..|handed| - 1]) + handed[|handed| - 1].data
  }

  lemma {:induction false} ContentsPrefix(o: Offer, c: State, k: nat)
    requires o.Valid() && InOrder(o, c) && k <= |c.handed|
    ensures if k == o.Blocks() then Contents(c.handed[..k]) == o.file
            else k * o.bs <= |o.file| && Contents(c.handed[..k]) == o.file[..k * o.bs]
  {
    hide Offer.Blocks;
    hide Offer.Block;
    if k > 0 {
      ContentsPrefix(o, c, k - 1);
      SliceStep(o, k);
      assert c.handed[..k][..k - 1] == c.handed[..k - 1];
      assert c.handed[k - 1] == Handed(o, k);
    }
  }

  lemma SliceStep(o: Offer, k: nat)
    requires o.Valid() && 1 <= k <= o.Blocks()
    ensures 0 <= (k - 1) * o.bs <= |o.file|
    ensures if k == o.Blocks() then o.file[..(k - 1) * o.bs] + o.Block(k) == o.file
            else k * o.bs <= |o.file| && o.file[..(k - 1) * o.bs] + o.Block(k) == o.file[..k * o.bs]
  {
    hide Offer.Blocks;
    o.BlockBounds(k);
    Slices(o.file, (k - 1) * o.bs, k * o.bs);
  }

  lemma Slices(s: seq<Byte>, a: int, b: int)
    requires 0 <= a <= |s| && a <= b
    ensures s[..a] + s[a..] == s
    ensures b <= |s| ==> s[..a] + s[a..b] == s[..b]
  {
  }

  /**
   In every run: the callback got blocks 1, 2, ... once each and in order, as consecutive slices of the file; every
   acknowledgement names a block that arrived, as all before it did; nothing after block 65535 was accepted; and
   when tftp returns 1 although the callback never asks to stop, the callback got the whole file.
   */
  lemma Safety(o: Offer, run: seq<System>, moves: seq<Move>, iport: U16, fnc: Callback)
    requires o.Valid() && IsRun(o, run, moves, iport, fnc)
    ensures var c := run[|moves|].client;
      && InOrder(o, c) && |c.handed| == c.prevblock <= 0xffff
      && (forall i :: 0 <= i < |c.sent| && c.sent[i].msg.Ack? ==> c.sent[i].msg.number <= |c.handed|)
      && (if |c.handed| == o.Blocks() then Contents(c.handed) == o.file
          else |c.handed| * o.bs <= |o.file| && Contents(c.handed) == o.file[..|c.handed| * o.bs])
      && (c.status == Returned(1) && (forall d :: fnc(d) < 0) ==> Contents(c.handed) == o.file && o.Blocks() <= 0xffff)
  {
    hide Offer.Blocks;
    hide Enabled;
    hide Next;
    hide Initial;
    hide PortsOk;
    hide PacketOk;
    hide SessionOk;
    var tries := RunKeeps(o, run, moves, iport, fnc);
    var c := run[|moves|].client;
    ContentsPrefix(o, c, |c.handed|);
    assert c.handed[..|c.handed|] == c.handed;
  }

  // ----- When a file can still be fetched -----

  /** The client waits for block k, which is on its way. */
  ghost predicate Awaiting(o: Offer, s: System, k: nat, e: Ends, iport: U16, tries: nat)
    requires o.Valid()
  {
    && ClientOk(o, s.client) && PortsOk(s.client, iport, tries) && s.client.status == Running
    && s.client.packetsize == o.bs && s.client.prevblock + 1 == k <= o.Blocks() && e.client == s.client.iport
    && e in s.sessions && s.sessions[e] == k && BlockFrom(e, k) in s.net
  }

  /** Block k arrives and is acknowledged. */
  lemma BlockArrives(o: Offer, s: System, k: nat, e: Ends, iport: U16, tries: nat, fnc: Callback) returns (t: System)
    requires o.Valid() && Awaiting(o, s, k, e, iport, tries) && k <= 0xffff && (forall d :: fnc(d) < 0)
    ensures Enabled(o, s, Deliver(BlockFrom(e, k))) && t == Next(o, s, Deliver(BlockFrom(e, k)), fnc)
    ensures if k == o.Blocks() then t.client.status == Returned(1)
            else
              var a := Acknowledge(|t.client.sent| - 1);
              t.client.sent != [] && Enabled(o, t, a) && Awaiting(o, Next(o, t, a, fnc), k + 1, e, iport, tries)
  {
    hide ClientOk;
    hide PortsOk;
    hide Offer.Blocks;
    hide Offer.Block;
    hide OnBlock;
    ModBelow(k);
    BlockAccepted(o, s.client, e.server, k, iport, tries, fnc);
    t := Next(o, s, Deliver(BlockFrom(e, k)), fnc);
    assert t.client == OnBlock(s.client, k, e.server, o.Block(k), fnc);
  }

  lemma ModBelow(k: nat)
    requires k < 0x1_0000
    ensures k % 0x1_0000 == k
  {
  }

  lemma {:induction false} Finish(o: Offer, s: System, k: nat, e: Ends, iport: U16, tries: nat, fnc: Callback)
    returns (run: seq<System>, moves: seq<Move>)
    requires o.Valid() && Awaiting(o, s, k, e, iport, tries) && o.Blocks() <= 0xffff && (forall d :: fnc(d) < 0)
    ensures IsSteps(o, run, moves, fnc) && run[0] == s && run[|moves|].client.status == Returned(1)
    decreases o.Blocks() - k
  {
    hide Awaiting;
    hide Enabled;
    hide Next;
    hide Offer.Blocks;
    AwaitingBound(o, s, k, e, iport, tries);
    var t := BlockArrives(o, s, k, e, iport, tries, fnc);
    var m := Deliver(BlockFrom(e, k));
    if k == o.Blocks() {
      run, moves := [s, t], [m];
    } else {
      var a := Acknowledge(|t.client.sent| - 1);
      var rest, more := Finish(o, Next(o, t, a, fnc), k + 1, e, iport, tries, fnc);
      run, moves := Prepend(o, t, a, rest, more, fnc);
      run, moves := Prepend(o, s, m, run, moves, fnc);
    }
  }

  lemma AwaitingBound(o: Offer, s: System, k: nat, e: Ends, iport: U16, tries: nat)
    requires o.Valid() && Awaiting(o, s, k, e, iport, tries)
    ensures k <= o.Blocks()
  {
  }

  lemma Prepend(o: Offer, s: System, m: Move, rest: seq<System>, more: seq<Move>, fnc: Callback)
    returns (run: seq<System>, moves: seq<Move>)
    requires o.Valid() && IsSteps(o, rest, more, fnc) && Enabled(o, s, m) && rest[0] == Next(o, s, m, fnc)
    ensures IsSteps(o, run, moves, fnc) && run[0] == s && run[|moves|] == rest[|more|]
  {
    hide Enabled;
    hide Next;
    run, moves := [s] + rest, [m] + more;
  }

  /** A transfer for the present port: one that exists, or else a request that was sent is answered. */
  lemma Served(o: Offer, s: System, iport: U16, tries: nat, fnc: Callback)
    returns (run: seq<System>, moves: seq<Move>, e: Ends)
    requires o.Valid() && Inv(o, s, iport, tries, fnc) && s.client.status == Running && Asked(s.client, s.client.iport)
    ensures IsSteps(o, run, moves, fnc) && run[0] == s && run[|moves|].client == s.client
    ensures Inv(o, run[|moves|], iport, tries, fnc) && Serves(run[|moves|], e)
  {
    hide Inv;
    var c := s.client;
    run, moves, e := [s], [], Ends(1, c.iport);
    ServedBefore(o, s, iport, tries, fnc);
    if c.prevblock > 0 {
      e :| Serves(s, e);
    } else if e !in s.sessions {
      var i: nat :| i < |c.sent| && IsRequest(c.sent[i]) && c.sent[i].src == c.iport;
      var m := Request(i, 1);
      RequestKeeps(o, s, i, 1, iport, tries, fnc);
      run, moves := [s, Next(o, s, m, fnc)], [m];
    }
  }

  lemma ServedBefore(o: Offer, s: System, iport: U16, tries: nat, fnc: Callback)
    requires o.Valid() && Inv(o, s, iport, tries, fnc)
    ensures s.client.prevblock > 0 ==> exists e :: Serves(s, e)
  {
  }

  /** What such a transfer sent last is delivered and acknowledged, unless it is already the next block. */
  lemma Resumed(o: Offer, s: System, e: Ends, iport: U16, tries: nat, fnc: Callback)
    returns (run: seq<System>, moves: seq<Move>)
    requires o.Valid() && Inv(o, s, iport, tries, fnc) && s.client.status == Running && Serves(s, e)
    requires o.Blocks() <= 0xffff
    ensures IsSteps(o, run, moves, fnc) && run[0] == s
    ensures Awaiting(o, run[|moves|], s.client.prevblock + 1, e, iport, tries)
  {
    hide Inv;
    hide Enabled;
    hide Next;
    AtBlock(o, s, e, iport, tries, fnc);
    run, moves := [s], [];
    if s.sessions[e] == s.client.prevblock {
      var p := Current(e, s.sessions[e]);
      Repeated(o, s, e, iport, tries, fnc);
      var t := Next(o, s, Deliver(p), fnc);
      DeliverKeeps(o, s, p, iport, tries, fnc);
      var a := Acknowledge(|t.client.sent| - 1);
      var u := Next(o, t, a, fnc);
      AcknowledgeKeeps(o, t, |t.client.sent| - 1, iport, tries, fnc);
      Advanced(o, t, a, e, fnc);
      AtBlock(o, u, e, iport, tries, fnc);
      run, moves := [s, t, u], [Deliver(p), a];
    }
  }

  /** A transfer for the present port is at the last block received or at the next. */
  lemma AtBlock(o: Offer, s: System, e: Ends, iport: U16, tries: nat, fnc: Callback)
    requires o.Valid() && Inv(o, s, iport, tries, fnc) && s.client.status == Running && Serves(s, e)
    requires o.Blocks() <= 0xffff
    ensures s.sessions[e] == s.client.prevblock || Awaiting(o, s, s.client.prevblock + 1, e, iport, tries)
  {
    hide PortsOk;
    hide InOrder;
    hide AcksOk;
    hide Acked;
    hide Asked;
    hide UsedPort;
    hide PacketOk;
    hide Outcome;
    hide Offer.Blocks;
    assert SessionOk(o, s.client, iport, tries, e, s.sessions[e]);
    assert Current(e, s.sessions[e]) in s.net;
  }

  /** Receiving once more what was received last repeats the acknowledgement. */
  lemma Repeated(o: Offer, s: System, e: Ends, iport: U16, tries: nat, fnc: Callback)
    requires o.Valid() && Inv(o, s, iport, tries, fnc) && s.client.status == Running && Serves(s, e)
    requires s.sessions[e] == s.client.prevblock && o.Blocks() <= 0xffff
    ensures var m := Deliver(Current(e, s.sessions[e]));
      && Enabled(o, s, m)
      && var t := Next(o, s, m, fnc);
      && t.sessions == s.sessions && t.client.status == Running && t.client.prevblock == s.client.prevblock
      && t.client.iport == s.client.iport
      && t.client.sent == s.client.sent + [Sent(Ack(s.client.prevblock), s.client.iport, e.server)]
      && Enabled(o, t, Acknowledge(|t.client.sent| - 1))
  {
    hide PortsOk;
    hide InOrder;
    hide AcksOk;
    hide Acked;
    hide Asked;
    hide UsedPort;
    hide PacketOk;
    hide Keeps;
    hide Outcome;
    hide Offer.Block;
    hide Offer.Blocks;
    hide OnReply;
    hide OptionText;
    hide OptionLength;
    var c, k := s.client, s.client.prevblock;
    assert SessionOk(o, c, iport, tries, e, k);
    assert Current(e, k) in s.net;
    ModBelow(k);
    if k == 0 {
      OackArrives(o, c, e.server, iport, tries, fnc);
    } else {
      OldArrives(o, c, k, e.server, iport, tries, fnc);
    }
  }

  lemma Advanced(o: Offer, s: System, a: Move, e: Ends, fnc: Callback)
    requires o.Valid() && Enabled(o, s, a) && a.Acknowledge? && e == EndsOf(s.client.sent[a.i]) && Serves(s, e)
    ensures Serves(Next(o, s, a, fnc), e) && Next(o, s, a, fnc).client == s.client
    ensures Next(o, s, a, fnc).sessions[e] == s.sessions[e] + 1
  {
  }

  /** No request was sent from the present port, and none will be: only timeouts are left. */
  ghost predicate Lost(c: State)
  {
    !Asked(c, c.iport) && c.tp != Rrq && (c.status == Running || c.status == Returned(0))
  }

  /** Every packet for a port answers a request from it. */
  lemma NothingArrives(o: Offer, s: System, p: Packet, iport: U16, tries: nat, fnc: Callback)
    requires o.Valid() && Inv(o, s, iport, tries, fnc) && !Asked(s.client, s.client.iport)
    ensures !Enabled(o, s, Deliver(p))
  {
    if p in s.net {
      assert PacketOk(o, s, p);
      assert SessionOk(o, s.client, iport, tries, p.ends, s.sessions[p.ends]);
    }
  }

  lemma LostStep(o: Offer, s: System, m: Move, iport: U16, tries: nat, fnc: Callback)
    requires o.Valid() && Inv(o, s, iport, tries, fnc) && Enabled(o, s, m) && Lost(s.client)
    ensures Lost(Next(o, s, m, fnc).client) || Next(o, s, m, fnc).client.status == Returned(0)
  {
    var c := s.client;
    match m
    case Deliver(p) =>
      NothingArrives(o, s, p, iport, tries, fnc);
      assert false;
    case Timeout(sends) =>
      if Again(c) { ClientRetries(o, c, sends, iport, tries); } else { GivesUp(o, c, sends, iport, tries); }
    case _ =>
  }

  lemma {:induction false} LostStays(o: Offer, run: seq<System>, moves: seq<Move>, iport: U16, tries: nat,
        fnc: Callback)
    requires o.Valid() && IsSteps(o, run, moves, fnc) && Inv(o, run[0], iport, tries, fnc)
    requires Lost(run[0].client)
    ensures Lost(run[|moves|].client) || run[|moves|].client.status == Returned(0)
    decreases |moves|
  {
    hide Inv;
    hide Enabled;
    hide Next;
    hide Lost;
    if moves != [] {
      var n := |moves| - 1;
      LostStays(o, run[..n + 1], moves[..n], iport, tries, fnc);
      var now := StepsKeep(o, run[..n + 1], moves[..n], iport, tries, fnc);
      if run[n].client.status == Returned(0) {
        ReturnedStays(o, run[n], moves[n], fnc);
      } else {
        LostStep(o, run[n], moves[n], iport, now, fnc);
      }
    }
  }

  lemma ReturnedStays(o: Offer, s: System, m: Move, fnc: Callback)
    requires o.Valid() && Enabled(o, s, m) && s.client.status.Returned?
    ensures Next(o, s, m, fnc).client == s.client
  {
  }

  lemma RunningLost(o: Offer, s: System, iport: U16, tries: nat, fnc: Callback)
    requires o.Valid() && Inv(o, s, iport, tries, fnc) && s.client.status == Running && !Asked(s.client, s.client.iport)
    ensures Lost(s.client)
  {
  }

  /** From here tftp can return 1. */
  ghost predicate Fetchable(o: Offer, s: System, fnc: Callback)
    requires o.Valid()
  {
    exists run: seq<System>, moves: seq<Move> ::
      IsSteps(o, run, moves, fnc) && run[0] == s && run[|moves|].client.status == Returned(1)
  }

  /**
   At any moment of any run, while tftp is still running, the whole file can still be fetched if and only if it has at
   most 65535 blocks and a request was sent from the port in use. An attempt after an answered option acknowledgement
   sends that acknowledgement instead of a request, and so fails for good.
   */
  lemma StillFetchable(o: Offer, run: seq<System>, moves: seq<Move>, iport: U16, fnc: Callback)
    requires o.Valid() && IsRun(o, run, moves, iport, fnc) && (forall d :: fnc(d) < 0)
    requires run[|moves|].client.status == Running
    ensures var c := run[|moves|].client; Fetchable(o, run[|moves|], fnc) <==> o.Blocks() <= 0xffff && Asked(c, c.iport)
  {
    hide Offer.Blocks;
    hide Enabled;
    hide Next;
    hide Inv;
    hide Initial;
    var s := run[|moves|];
    var tries := RunKeeps(o, run, moves, iport, fnc);
    if o.Blocks() <= 0xffff && Asked(s.client, s.client.iport) {
      CanFinish(o, s, iport, tries, fnc);
    } else {
      forall more: seq<System>, next: seq<Move> | IsSteps(o, more, next, fnc) && more[0] == s
        ensures more[|next|].client.status != Returned(1)
      {
        Unfetched(o, s, more, next, iport, tries, fnc);
      }
    }
  }

  lemma CanFinish(o: Offer, s: System, iport: U16, tries: nat, fnc: Callback)
    requires o.Valid() && Inv(o, s, iport, tries, fnc) && s.client.status == Running && (forall d :: fnc(d) < 0)
    requires o.Blocks() <= 0xffff && Asked(s.client, s.client.iport)
    ensures Fetchable(o, s, fnc)
  {
    hide Inv;
    hide IsSteps;
    hide Awaiting;
    hide Serves;
    var r1, m1, e := Served(o, s, iport, tries, fnc);
    StepsCount(o, r1, m1, fnc);
    var r2, m2 := Resumed(o, r1[|m1|], e, iport, tries, fnc);
    StepsCount(o, r2, m2, fnc);
    var r3, m3 := Finish(o, r2[|m2|], s.client.prevblock + 1, e, iport, tries, fnc);
    StepsCount(o, r3, m3, fnc);
    var r4, m4 := Join(o, r2, m2, r3, m3, fnc);
    StepsCount(o, r4, m4, fnc);
    var r5, m5 := Join(o, r1, m1, r4, m4, fnc);
    StepsCount(o, r5, m5, fnc);
  }

  lemma Unfetched(o: Offer, s: System, run: seq<System>, moves: seq<Move>, iport: U16, tries: nat, fnc: Callback)
    requires o.Valid() && Inv(o, s, iport, tries, fnc) && s.client.status == Running && (forall d :: fnc(d) < 0)
    requires o.Blocks() > 0xffff || !Asked(s.client, s.client.iport)
    requires IsSteps(o, run, moves, fnc) && run[0] == s
    ensures run[|moves|].client.status != Returned(1)
  {
    hide IsSteps;
    hide ClientOk;
    hide PortsOk;
    hide Offer.Blocks;
    StepsCount(o, run, moves, fnc);
    var now := StepsKeep(o, run, moves, iport, tries, fnc);
    if o.Blocks() > 0xffff {
      BlocksShort(o, run[|moves|].client);
    } else {
      RunningLost(o, s, iport, tries, fnc);
      LostStays(o, run, moves, iport, tries, fnc);
    }
  }

  lemma BlocksShort(o: Offer, c: State)
    requires o.Valid() && ClientOk(o, c)
    ensures c.bcounter <= 0xffff
  {
  }

  lemma Join(o: Offer, r1: seq<System>, m1: seq<Move>, r2: seq<System>, m2: seq<Move>, fnc: Callback)
    returns (run: seq<System>, moves: seq<Move>)
    requires o.Valid() && IsSteps(o, r1, m1, fnc) && IsSteps(o, r2, m2, fnc) && r1[|m1|] == r2[0]
    ensures IsSteps(o, run, moves, fnc) && run[0] == r1[0] && run[|moves|] == r2[|m2|]
  {
    hide Enabled;
    hide Next;
    run, moves := r1[..|m1|] + r2, m1 + m2;
  }

  /** A file can be fetched if and only if it has at most 65535 blocks. */
  lemma CanFetch(o: Offer, iport: U16, fnc: Callback)
    requires o.Valid() && (forall d :: fnc(d) < 0)
    ensures Fetchable(o, Initial(iport, true), fnc) <==> o.Blocks() <= 0xffff
  {
    hide Offer.Blocks;
    hide Inv;
    hide Fetchable;
    var s := Initial(iport, true);
    InitialOk(o, iport, true, fnc);
    assert IsRun(o, [s], [], iport, fnc);
    StillFetchable(o, [s], [], iport, fnc);
  }

  /** The answer to an option acknowledgement, and then a timeout: the file cannot be fetched any more. */
  lemma Stranded(o: Offer, iport: U16, fnc: Callback) returns (run: seq<System>, moves: seq<Move>)
    requires o.Valid() && o.options && (forall d :: fnc(d) < 0)
    ensures IsRun(o, run, moves, iport, fnc)
    ensures moves == [Request(0, 1), Deliver(OackFrom(Ends(1, NextPort(iport)))), Timeout(true)]
    ensures run[|moves|].client.status == Running && !Fetchable(o, run[|moves|], fnc)
  {
    hide Offer.Blocks;
    hide OptionSize;
    hide OptionText;
    hide Fetchable;
    var s0 := Initial(iport, true);
    var port := s0.client.iport;
    var m1, m2, m3 := Request(0, 1), Deliver(OackFrom(Ends(1, port))), Timeout(true);
    var s1 := Next(o, s0, m1, fnc);
    OptionTaken(o, s1.client.packetsize);
    var s2 := Next(o, s1, m2, fnc);
    assert s2.client == Transmit(s1.client.(packetsize := o.bs), Ack(0), 1);
    var s3 := Next(o, s2, m3, fnc);
    run, moves := [s0, s1, s2, s3], [m1, m2, m3];
    assert IsRun(o, run, moves, iport, fnc);
    var c := s3.client;
    assert c.sent == [Sent(Rrq, port, TFTP_PORT), Sent(Ack(0), port, 1), Sent(Ack(0), NextPort(port), TFTP_PORT)];
    assert !Asked(c, c.iport);
    StillFetchable(o, run, moves, iport, fnc);
  }
}
