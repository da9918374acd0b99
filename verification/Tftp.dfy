/** The TFTP client of rarp.c, one reply or timeout at a time. */
module Tftp {
  import opened Bits
  import BitStream

  type Byte = BitStream.Byte

  const TFTP_PORT := 69
  const MAX_TFTP_RETRIES := 20
  const TFTP_DEFAULTSIZE_PACKET := 512
  const TFTP_MAX_PACKET := 1432

  /**
   A UDP packet for the client's port, by TFTP opcode; src is the sender's port. The options of an acknowledgement are
   the first len bytes of buf; what follows them is what the receive buffer held before.
   */
  datatype Reply =
    | Data(number: U16, payload: seq<Byte>, src: U16)
    | Oack(buf: seq<Byte>, len: U16, src: U16)
    | Error
    | Unknown

  /** What tp holds. */
  datatype Message = Rrq | Ack(number: U16) | OptionError

  /** A packet given to udp_transmit. */
  datatype Sent = Sent(msg: Message, src: U16, dst: U16)

  /** One call of the callback. */
  datatype Delivery = Delivery(data: seq<Byte>, number: nat, len: nat, last: bool)

  type Callback = Delivery -> int

  /** What await_reply brings: a reply, or a timeout and whether a packet sent then gets out. */
  datatype Event = Got(reply: Reply) | TimedOut(sends: bool)

  datatype Status = Running | Returned(rc: int)

  /** The variables of tftp, with a log of what was sent and handed over. */
  datatype State = State(block: U16, prevblock: U16, bcounter: nat, retry: nat, packetsize: int, iport: U16, tp: Message,
                         sent: seq<Sent>, handed: seq<Delivery>, status: Status)

  function Transmit(s: State, msg: Message, dst: U16): State
  {
    s.(tp := msg, sent := s.sent + [Sent(msg, s.iport, dst)])
  }

  /** The port after p, modulo 2^16. */
  function NextPort(p: U16): U16
  {
    (p + 1) % 0x1_0000
  }

  /** The variables when the loop is entered; iport is static and keeps counting from call to call. */
  function Start(iport: U16, sends: bool): State
  {
    var s := State(0, 0, 0, 0, TFTP_DEFAULTSIZE_PACKET, NextPort(iport), Rrq, [], [], Running);
    if sends then Transmit(s, Rrq, TFTP_PORT) else s.(status := Returned(0))
  }

  /** A timeout: ask again while no block has arrived, but with whatever tp holds. */
  function OnTimeout(s: State, sends: bool): State
  {
    if s.block == 0 then
      if s.retry < MAX_TFTP_RETRIES then
        var t := s.(retry := s.retry + 1, iport := NextPort(s.iport));
        if sends then Transmit(t, s.tp, TFTP_PORT) else t.(status := Returned(0))
      else s.(retry := s.retry + 1, status := Returned(0))
    else s.(status := Returned(0))
  }

  // ----- The options of an acknowledgement -----

  /** A character of the receive buffer; behind it lie zeros. */
  function At(buf: seq<Byte>, i: nat): Byte
  {
    if i < |buf| then buf[i] else 0
  }

  /** The case bit of a letter is cleared, and the same bit of any other character. */
  function Folded(c: Byte): Byte
  {
    if c / 32 % 2 == 1 then c - 32 else c
  }

  /** strcasecmp of a, which holds no zero, with the string at p. */
  function CaseDifference(a: seq<Byte>, buf: seq<Byte>, p: nat): int
  {
    if a != [] && At(buf, p) != 0 && Folded(a[0]) == Folded(At(buf, p)) then CaseDifference(a[1..], buf, p + 1)
    else (if a == [] then 0 else Folded(a[0])) - Folded(At(buf, p))
  }

  predicate IsDigit(c: Byte)
  {
    48 <= c <= 57
  }

  /** A signed 32-bit result. */
  function Int32(x: int): int
  {
    (x + 0x8000_0000) % W32 - 0x8000_0000
  }

  /** The digits from p on, after the value acc, and the place behind them. */
  function Decimal(buf: seq<Byte>, p: nat, acc: int): (r: (int, nat))
    ensures r.1 >= p
    decreases |buf| - p
  {
    if p < |buf| && IsDigit(buf[p]) then Decimal(buf, p + 1, Int32(10 * acc + (buf[p] - 48))) else (acc, p)
  }

  /** getdec */
  function Number(buf: seq<Byte>, p: nat): (r: (int, nat))
    ensures r.1 >= p
  {
    if IsDigit(At(buf, p)) then Decimal(buf, p, 0) else (-1, p)
  }

  /** Behind the string at p, but not beyond e. */
  function PastString(buf: seq<Byte>, p: nat, e: nat): (q: nat)
    ensures q >= p
    decreases e - p
  {
    if p >= e then p else if At(buf, p) == 0 then p + 1 else PastString(buf, p + 1, e)
  }

  /** "blksize" */
  const BLKSIZE: seq<Byte> := [98, 108, 107, 115, 105, 122, 101]

  /** The block size after the options of an acknowledgement. */
  datatype Size = Size(packetsize: int) | Refused(packetsize: int)

  /** The options from p up to e. */
  function Options(buf: seq<Byte>, p: nat, e: nat, packetsize: int): Size
    decreases if p < e then e - p else 0
  {
    if At(buf, p) == 0 || p >= e then
      if p > e then Refused(packetsize) else Size(packetsize)
    else if CaseDifference(BLKSIZE, buf, p) != 0 then Refused(packetsize)
    else
      var (size, q) := Number(buf, p + 8);
      if size < TFTP_DEFAULTSIZE_PACKET then Refused(size) else Options(buf, PastString(buf, q, e), e, size)
  }

  function OptionSize(buf: seq<Byte>, len: nat, packetsize: int): Size
  {
    if len > TFTP_MAX_PACKET then Refused(packetsize) else Options(buf, 0, len, packetsize)
  }

  /** A number in decimal. */
  function Digits(n: nat): (d: seq<Byte>)
    ensures d != [] && IsDigit(d[0])
  {
    if n < 10 then [48 + n] else Digits(n / 10) + [48 + n % 10]
  }

  /** The option with its value, as servers send it. */
  function OptionText(n: nat): seq<Byte>
  {
    BLKSIZE + [0] + Digits(n) + [0]
  }

  lemma {:induction false} DigitsRead(buf: seq<Byte>, p: nat, n: nat)
    requires n < 0x8000_0000 && p + |Digits(n)| <= |buf| && buf[p..p + |Digits(n)|] == Digits(n)
    ensures Decimal(buf, p, 0) == Decimal(buf, p + |Digits(n)|, n)
  {
    var l := |Digits(n)| - 1;
    assert buf[p + l] == Digits(n)[l];
    if n >= 10 {
      assert buf[p..p + l] == buf[p..p + l + 1][..l];
      assert Digits(n)[..l] == Digits(n / 10);
      DigitsRead(buf, p, n / 10);
    }
    assert Int32(n) == n;
  }

  lemma {:induction false} DigitsCount(n: nat)
    requires n < 0x8000_0000
    ensures |Digits(n)| <= 10
  {
    var a := n / 1000;
    var b := a / 1000;
    var c := b / 1000;
    assert c < 3;
    assert |Digits(c)| == 1;
    ThreeDigits(b);
    ThreeDigits(a);
    ThreeDigits(n);
  }

  lemma ThreeDigits(n: nat)
    ensures |Digits(n)| <= |Digits(n / 1000)| + 3
  {
    var h, k := n / 10, n / 100;
    assert k == h / 10 && n / 1000 == k / 10;
    assert |Digits(k)| <= |Digits(k / 10)| + 1 && |Digits(h)| <= |Digits(k)| + 1 && |Digits(n)| <= |Digits(h)| + 1;
  }

  lemma {:induction false} SameText(a: seq<Byte>, buf: seq<Byte>, p: nat)
    requires p + |a| < |buf| && buf[p..p + |a|] == a && buf[p + |a|] == 0 && 0 !in a
    ensures CaseDifference(a, buf, p) == 0
  {
    if a != [] {
      assert buf[p] == a[0] && a[0] in a;
      assert buf[p + 1..p + 1 + |a[1..]|] == a[1..];
      SameText(a[1..], buf, p + 1);
    }
  }

  /** A server's option is understood, whatever else the buffer holds: the size written is the size read. */
  lemma OptionRoundTrip(n: nat, rest: seq<Byte>, packetsize: int)
    requires TFTP_DEFAULTSIZE_PACKET <= n < 0x8000_0000
    ensures |OptionText(n)| <= TFTP_MAX_PACKET
    ensures OptionSize(OptionText(n) + rest, |OptionText(n)|, packetsize) == Size(n)
  {
    DigitsCount(n);
    TextParts(BLKSIZE, n, rest);
    SameText(BLKSIZE, OptionText(n) + rest, 0);
    OneOption(OptionText(n) + rest, 0, |OptionText(n)|, n, packetsize);
  }

  lemma TextParts(name: seq<Byte>, n: nat, rest: seq<Byte>)
    requires |name| == 7
    ensures var buf, d := name + [0] + Digits(n) + [0] + rest, |Digits(n)|;
      && 9 + d <= |buf| && buf[0..7] == name && buf[7] == 0 && buf[8..8 + d] == Digits(n) && buf[8 + d] == 0
  {
    hide Digits;
    var buf, d := name + [0] + Digits(n) + [0] + rest, |Digits(n)|;
    var t := name + [0];
    assert buf == t + (Digits(n) + [0] + rest);
    assert buf[0..7] == t[0..7] == name;
    assert buf[8..8 + d] == (Digits(n) + [0] + rest)[..d] == Digits(n);
  }

  /** A name and a number at p. */
  predicate OptionAt(buf: seq<Byte>, p: nat, n: nat)
  {
    var d := |Digits(n)|;
    && p + 9 + d <= |buf| && CaseDifference(BLKSIZE, buf, p) == 0 && At(buf, p) != 0
    && buf[p + 8..p + 8 + d] == Digits(n) && buf[p + 8 + d] == 0
  }

  /** One option: a block size below 512 is refused. */
  lemma OneOption(buf: seq<Byte>, p: nat, e: nat, n: nat, packetsize: int)
    requires n < 0x8000_0000 && p < e && OptionAt(buf, p, n)
    ensures Options(buf, p, e, packetsize)
            == if n < TFTP_DEFAULTSIZE_PACKET then Refused(n)
               else Options(buf, p + 8 + |Digits(n)| + (if p + 8 + |Digits(n)| < e then 1 else 0), e, n)
  {
    hide Digits;
    hide CaseDifference;
    hide Decimal;
    var d := |Digits(n)|;
    assert buf[p + 8] == buf[p + 8..p + 8 + d][0] == Digits(n)[0];
    DigitsRead(buf, p + 8, n);
    NoMoreDigits(buf, p + 8 + d, n);
    assert Number(buf, p + 8) == (n, p + 8 + d);
    assert p + 8 + d < e ==> PastString(buf, p + 8 + d, e) == p + 9 + d;
  }

  lemma NoMoreDigits(buf: seq<Byte>, p: nat, acc: int)
    requires At(buf, p) == 0
    ensures Decimal(buf, p, acc) == (acc, p)
  {
  }

  // ----- A step -----

  /** What is acknowledged: a block that is the next one, otherwise again the last one received. */
  function Answered(s: State, number: U16): U16
  {
    if (number != 0 || s.bcounter != 0) && number != s.prevblock + 1 then s.prevblock else number
  }

  function OnBlock(s: State, number: U16, src: U16, payload: seq<Byte>, fnc: Callback): State
  {
    var b := Answered(s, number);
    var t := Transmit(s.(block := b), Ack(b), src);
    if (b - s.prevblock) % 0x1_0000 != 1 then t else HandOver(t, payload, fnc)
  }

  /** The present block is given to the callback, which may end the transfer; so does a short block. */
  function HandOver(s: State, payload: seq<Byte>, fnc: Callback): State
  {
    var d := Delivery(payload, s.bcounter + 1, |payload|, |payload| < s.packetsize);
    var u := s.(prevblock := s.block, retry := 0, bcounter := s.bcounter + 1, handed := s.handed + [d]);
    if fnc(d) >= 0 then u.(status := Returned(fnc(d)))
    else if d.last then u.(status := Returned(1)) else u
  }

  function OnReply(s: State, r: Reply, fnc: Callback): State
  {
    match r
    case Error => s.(status := Returned(0))
    case Unknown => s.(status := Returned(0))
    case Oack(buf, len, src) =>
      if s.prevblock != 0 then s
      else (match OptionSize(buf, len, s.packetsize)
            case Refused(p) => Transmit(s.(packetsize := p), OptionError, src).(status := Returned(0))
            case Size(p) => OnBlock(s.(packetsize := p), 0, src, [], fnc))
    case Data(number, payload, src) =>
      if |payload| > s.packetsize then s else OnBlock(s, number, src, payload, fnc)
  }

  function Step(s: State, e: Event, fnc: Callback): State
  {
    if s.status.Returned? then s
    else match e
      case Got(r) => OnReply(s, r, fnc)
      case TimedOut(sends) => OnTimeout(s, sends)
  }

  function Run(s: State, events: seq<Event>, fnc: Callback): State
    decreases |events|
  {
    if events == [] then s else Run(Step(s, events[0], fnc), events[1..], fnc)
  }

  /** The function tftp: its static port counter, its locals, and the request buffer tp. */
  class Client {
    var iport: U16
    var block: U16
    var prevblock: U16
    var bcounter: nat
    var retry: nat
    var packetsize: int
    var tp: Message
    var sent: seq<Sent>
    var handed: seq<Delivery>

    constructor ()
      ensures iport == 2000 && sent == [] && handed == []
    {
      iport, block, prevblock, bcounter, retry := 2000, 0, 0, 0, 0;
      packetsize, tp, sent, handed := TFTP_DEFAULTSIZE_PACKET, Rrq, [], [];
    }

    function View(status: Status): State
      reads this
    {
      State(block, prevblock, bcounter, retry, packetsize, iport, tp, sent, handed, status)
    }

    method UdpTransmit(dst: U16)
      modifies this`sent
      ensures sent == old(sent) + [Sent(tp, iport, dst)]
    {
      sent := sent + [Sent(tp, iport, dst)];
    }

    /** tftp, with the events it meets; Running means the events ended first. */
    method Tftp(events: seq<Event>, sends: bool, fnc: Callback) returns (status: Status)
      modifies this
      ensures View(status) == Run(Start(old(iport), sends), events, fnc)
    {
      block, prevblock, bcounter, retry := 0, 0, 0, 0;
      packetsize, sent, handed := TFTP_DEFAULTSIZE_PACKET, [], [];
      tp := Rrq;
      iport := NextPort(iport);
      if !sends {
        status := Returned(0);
        RunEnded(View(status), events, fnc);
        return;
      }
      UdpTransmit(TFTP_PORT);
      ghost var goal := Run(View(Running), events, fnc);
      var i := 0;
      while i < |events|
        invariant 0 <= i <= |events|
        invariant Run(View(Running), events[i..], fnc) == goal
      {
        match events[i] {
          case TimedOut(out) => status := Timeout(out);
          case Got(r) => status := Receive(r, fnc);
        }
        assert events[i..][1..] == events[i + 1..];
        if status != Running {
          RunEnded(View(status), events[i + 1..], fnc);
          return;
        }
        i := i + 1;
      }
      status := Running;
    }

    method Timeout(out: bool) returns (status: Status)
      modifies this
      ensures View(status) == OnTimeout(old(View(Running)), out)
    {
      status := Running;
      if block == 0 {
        var again := retry < MAX_TFTP_RETRIES;
        retry := retry + 1;
        if again {
          iport := NextPort(iport);
          if !out { return Returned(0); }
          UdpTransmit(TFTP_PORT);
          return;
        }
      }
      status := Returned(0);
    }

    method Receive(r: Reply, fnc: Callback) returns (status: Status)
      modifies this
      ensures View(status) == OnReply(old(View(Running)), r, fnc)
    {
      status := Running;
      hide OnBlock;
      match r {
        case Error => status := Returned(0);
        case Unknown => status := Returned(0);
        case Oack(buf, len, src) =>
          if prevblock != 0 { return; }
          var ok := ReadOptions(buf, len);
          if !ok {
            tp := OptionError;
            UdpTransmit(src);
            return Returned(0);
          }
          status := Block(0, src, [], fnc);
        case Data(number, payload, src) =>
          if |payload| > packetsize { return; }
          status := Block(number, src, payload, fnc);
      }
    }

    /** The loop over the options of an option acknowledgement, character by character. */
    method ReadOptions(buf: seq<Byte>, len: nat) returns (ok: bool)
      modifies this`packetsize
      ensures ok == OptionSize(buf, len, old(packetsize)).Size?
      ensures packetsize == OptionSize(buf, len, old(packetsize)).packetsize
    {
      hide CaseDifference;
      hide Number;
      hide Decimal;
      hide At;
      if len > TFTP_MAX_PACKET {
        return false;
      }
      ghost var goal := Options(buf, 0, len, packetsize);
      var p: int, e: int := 0, len;
      while At(buf, p) != 0 && p < e
        invariant 0 <= p && Options(buf, p, e, packetsize) == goal
        decreases e - p
      {
        var same := StrCaseCmp(BLKSIZE, buf, p);
        if same != 0 {
          return false;
        }
        p := p + 8;
        packetsize, p := GetDec(buf, p);
        if packetsize < TFTP_DEFAULTSIZE_PACKET {
          return false;
        }
        p := SkipString(buf, p, e);
      }
      ok := p <= e;
    }

    static method SkipString(buf: seq<Byte>, p0: nat, e: nat) returns (p: nat)
      ensures p == PastString(buf, p0, e)
    {
      p := p0;
      while p < e && At(buf, p) != 0
        invariant PastString(buf, p, e) == PastString(buf, p0, e)
      {
        p := p + 1;
      }
      if p < e {
        p := p + 1;
      }
    }

    static method StrCaseCmp(a: seq<Byte>, buf: seq<Byte>, p: nat) returns (d: int)
      requires 0 !in a
      ensures d == CaseDifference(a, buf, p)
    {
      var i := 0;
      while i < |a| && At(buf, p + i) != 0 && Folded(a[i]) == Folded(At(buf, p + i))
        invariant 0 <= i <= |a| && CaseDifference(a[i..], buf, p + i) == CaseDifference(a, buf, p)
      {
        assert a[i..][1..] == a[i + 1..];
        i := i + 1;
      }
      d := (if i == |a| then 0 else Folded(a[i])) - Folded(At(buf, p + i));
    }

    static method GetDec(buf: seq<Byte>, p0: nat) returns (ret: int, p: nat)
      ensures (ret, p) == Number(buf, p0)
    {
      if !IsDigit(At(buf, p0)) {
        return -1, p0;
      }
      ret, p := 0, p0;
      while IsDigit(At(buf, p))
        invariant Decimal(buf, p, ret) == Decimal(buf, p0, 0)
        decreases |buf| - p
      {
        ret := Int32(10 * ret + (At(buf, p) - 48));
        p := p + 1;
      }
    }

    /** The rest of the loop body: acknowledge, and hand over a block that is the next one. */
    method Block(number: U16, src: U16, payload: seq<Byte>, fnc: Callback) returns (status: Status)
      modifies this
      ensures View(status) == OnBlock(old(View(Running)), number, src, payload, fnc)
    {
      ghost var was := View(Running);
      hide HandOver;
      status := Running;
      block := number;
      tp := Ack(number);
      if (block != 0 || bcounter != 0) && block != prevblock + 1 {
        block := prevblock;
        tp := Ack(block);
      }
      UdpTransmit(src);
      assert View(Running) == Transmit(was.(block := Answered(was, number)), Ack(Answered(was, number)), src);
      if (block - prevblock) % 0x1_0000 != 1 { return; }
      status := CallBack(payload, fnc);
    }

    method CallBack(payload: seq<Byte>, fnc: Callback) returns (status: Status)
      modifies this
      ensures View(status) == HandOver(old(View(Running)), payload, fnc)
    {
      status := Running;
      var len := |payload|;
      prevblock := block;
      retry := 0;
      bcounter := bcounter + 1;
      var d := Delivery(payload, bcounter, len, len < packetsize);
      handed := handed + [d];
      var rc := fnc(d);
      if rc >= 0 { return Returned(rc); }
      if len < packetsize { return Returned(1); }
    }
  }

  lemma {:induction false} RunEnded(s: State, events: seq<Event>, fnc: Callback)
    requires s.status.Returned?
    ensures Run(s, events, fnc) == s
  {
    if events != [] { RunEnded(s, events[1..], fnc); }
  }
}
