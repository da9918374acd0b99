/** The bus number register of a bridge: the bytes in it, and the mask arithmetic pci_scan_bus does on it. */
module PciBusNumbers {
  import opened Bits
  import opened PciAddress
  import BitStream

  type U8 = BitStream.Byte

  /** PCI_PRIMARY_BUS to PCI_SUBORDINATE_BUS and the latency timer next to them; and PCI_STATUS. */
  datatype Numbers = Numbers(primary: U8, secondary: U8, subordinate: U8, timer: U8, status: U16)
  {
    predicate Are(p: nat, s: nat, u: nat)
    {
      primary == p && secondary == s && subordinate == u
    }
  }

  function Pack(r: Numbers): Word
  {
    r.primary + 0x100 * r.secondary + 0x1_0000 * r.subordinate + 0x100_0000 * r.timer
  }

  function Unpack(w: Word, status: U16): Numbers
  {
    Numbers(w % 0x100, w / 0x100 % 0x100, w / 0x1_0000 % 0x100, w / 0x100_0000, status)
  }

  lemma UnpackPack(r: Numbers)
    ensures Unpack(Pack(r), r.status) == r
  {
    var w := Pack(r);
    DivModUnique(w, 0x100, r.secondary + 0x100 * r.subordinate + 0x1_0000 * r.timer, r.primary);
    DivModUnique(w / 0x100, 0x100, r.subordinate + 0x100 * r.timer, r.secondary);
    DivModUnique(w, 0x1_0000, r.subordinate + 0x100 * r.timer, r.primary + 0x100 * r.secondary);
    DivModUnique(w / 0x1_0000, 0x100, r.timer, r.subordinate);
    DivModUnique(w, 0x100_0000, r.timer, r.primary + 0x100 * r.secondary + 0x1_0000 * r.subordinate);
  }

  /** Or-ing numbers without a common bit adds them. */
  lemma {:induction false} OrAdds(x: nat, y: nat)
    requires And(x, y) == 0
    ensures Or(x, y) == x + y
  {
    hide And;
    hide Or;
    OrHalf(x, y);
    AndHalf(x, y);
    if x == 0 || y == 0 {
      OrZero(x, y);
    } else {
      BitsApart(x % 2, y % 2, And(x / 2, y / 2));
      OrAdds(x / 2, y / 2);
    }
  }

  lemma OrZero(x: nat, y: nat)
    requires x == 0 || y == 0
    ensures Or(x, y) == x + y
  {
  }

  lemma BitsApart(a: nat, b: nat, h: nat)
    requires a < 2 && b < 2 && a * b + 2 * h == 0
    ensures h == 0 && (a == 0 || b == 0)
  {
  }

  lemma {:induction false} AndComm(x: nat, y: nat)
    ensures And(x, y) == And(y, x)
  {
    if x > 0 && y > 0 { AndComm(x / 2, y / 2); }
  }

  /** A value below bit n and a multiple of 2^n have no bit in common. */
  lemma {:induction false} AndApart(x: nat, y: nat, n: nat)
    requires x < Pow2(n) && y % Pow2(n) == 0
    ensures And(x, y) == 0
  {
    hide And;
    AndHalf(x, y);
    if n > 0 && x > 0 && y > 0 {
      HalfMultiple(y, Pow2(n - 1));
      AndApart(x / 2, y / 2, n - 1);
    }
  }

  lemma HalfMultiple(y: nat, p: nat)
    requires p > 0 && y % (2 * p) == 0
    ensures y % 2 == 0 && (y / 2) % p == 0
  {
    var q := y / (2 * p);
    assert y == q * (2 * p);
    assert y == 2 * (q * p);
    DivModUnique(y / 2, p, q, 0);
  }

  /** The timer is kept, the three numbers are put in, the last as 0xff. */
  function OpenWord(w: Word, primary: U8, secondary: U8): nat
  {
    Or(And(w, 0xff00_0000), Or(Or(primary, 0x100 * secondary), 0x1_0000 * 0xff))
  }

  /** The subordinate number is replaced. */
  function CloseWord(w: Word, subordinate: U8): nat
  {
    Or(And(w, 0xff00_ffff), 0x1_0000 * subordinate)
  }

  /** And works on the low n bits and the rest separately. */
  lemma {:induction false} AndSplit(x: nat, m: nat, n: nat)
    ensures And(x, m) == And(Low(x, n), Low(m, n)) + Pow2(n) * And(Shr(x, n), Shr(m, n))
  {
    hide And;
    hide Low;
    hide Shr;
    hide Pow2;
    Pow2Sixteen();
    if n == 0 {
      ShrNone(x);
      ShrNone(m);
      AndHalf(0, 0);
    } else {
      AndHalf(x, m);
      AndSplit(x / 2, m / 2, n - 1);
      LowHalf(x, n);
      LowHalf(m, n);
      ShrHalf(x, n);
      ShrHalf(m, n);
      AndHalf(Low(x, n), Low(m, n));
      TwiceTimes(And(Shr(x, n), Shr(m, n)), n);
    }
  }

  lemma TwiceTimes(a: nat, n: nat)
    requires n > 0
    ensures Pow2(n) * a == 2 * (Pow2(n - 1) * a)
  {
    MulAssoc(2, Pow2(n - 1), a);
  }

  /** AndSplit at bits 16 and 8. */
  lemma AndSplit16(x: nat, m: nat)
    ensures And(x, m) == And(x % 0x1_0000, m % 0x1_0000) + 0x1_0000 * And(x / 0x1_0000, m / 0x1_0000)
    ensures And(x, m) == And(x % 0x100, m % 0x100) + 0x100 * And(x / 0x100, m / 0x100)
  {
    hide And;
    hide Pow2;
    Pow2Sixteen();
    AndSplit(x, m, 16);
    AndSplit(x, m, 8);
  }

  lemma AndNothing(x: nat)
    ensures And(x, 0) == 0 && And(0, x) == 0
  {
  }

  /** The two halves of a packed register. */
  lemma PackHalves(r: Numbers)
    ensures Pack(r) % 0x1_0000 == r.primary + 0x100 * r.secondary
    ensures Pack(r) / 0x1_0000 == r.subordinate + 0x100 * r.timer
  {
    DivModUnique(Pack(r), 0x1_0000, r.subordinate + 0x100 * r.timer, r.primary + 0x100 * r.secondary);
  }

  /** The masks keep what they should. */
  lemma MaskWord(r: Numbers)
    ensures And(Pack(r), 0xff00_0000) == 0x100_0000 * r.timer
    ensures And(Pack(r), 0xff00_ffff) == r.primary + 0x100 * r.secondary + 0x100_0000 * r.timer
  {
    hide And;
    hide Pow2;
    hide Pack;
    var lo, hi := r.primary + 0x100 * r.secondary, r.subordinate + 0x100 * r.timer;
    PackHalves(r);
    AndSplit16(Pack(r), 0xff00_0000);
    AndSplit16(Pack(r), 0xff00_ffff);
    AndNothing(lo);
    LowMask(lo);
    HighByte(r.subordinate, r.timer);
  }

  lemma LowMask(lo: nat)
    requires lo < 0x1_0000
    ensures And(lo, 0xffff) == lo
  {
    hide And;
    hide Pow2;
    Pow2Sixteen();
    AndMask(lo, 16);
    DivModUnique(lo, 0x1_0000, 0, lo);
  }

  lemma HighByte(a: U8, b: U8)
    ensures And(a + 0x100 * b, 0xff00) == 0x100 * b
  {
    hide And;
    hide Pow2;
    Pow2Sixteen();
    DivModUnique(a + 0x100 * b, 0x100, b, a);
    AndSplit16(a + 0x100 * b, 0xff00);
    AndNothing(a);
    AndMask(b, 8);
    DivModUnique(b, 0x100, 0, b);
  }

  /** The word written before the buses behind a bridge are scanned opens it to 0xff. */
  lemma OpenWordIs(r: Numbers, primary: U8, secondary: U8)
    ensures OpenWord(Pack(r), primary, secondary) == Pack(Numbers(primary, secondary, 0xff, r.timer, 0))
  {
    hide And;
    hide Or;
    MaskWord(r);
    OrBytes(primary, 0x100 * secondary);
    OrBytes(primary + 0x100 * secondary, 0x1_0000 * 0xff);
    var lo, hi := primary + 0x100 * secondary + 0x1_0000 * 0xff, 0x100_0000 * r.timer;
    OrBytes(lo, hi);
    OrComm(lo, hi);
  }

  /** Or-ing adjacent bytes. */
  lemma OrBytes(x: nat, y: nat)
    ensures x < 0x100 && y % 0x100 == 0 ==> Or(x, y) == x + y
    ensures x < 0x1_0000 && y % 0x1_0000 == 0 ==> Or(x, y) == x + y
    ensures x < 0x100_0000 && y % 0x100_0000 == 0 ==> Or(x, y) == x + y
  {
    hide And;
    hide Or;
    hide Pow2;
    Pow2Sixteen();
    Pow2Add(16, 8);
    if x < 0x100 && y % 0x100 == 0 { AndApart(x, y, 8); OrAdds(x, y); }
    if x < 0x1_0000 && y % 0x1_0000 == 0 { AndApart(x, y, 16); OrAdds(x, y); }
    if x < 0x100_0000 && y % 0x100_0000 == 0 { AndApart(x, y, 24); OrAdds(x, y); }
  }

  /** And the word written afterwards sets the subordinate number and nothing else. */
  lemma CloseWordIs(r: Numbers, subordinate: U8)
    ensures CloseWord(Pack(r), subordinate) == Pack(r.(subordinate := subordinate))
  {
    hide And;
    hide Or;
    MaskWord(r);
    var lo, t := r.primary + 0x100 * r.secondary, r.timer;
    HoleApart(lo, t, subordinate);
    OrAdds(lo + 0x100_0000 * t, 0x1_0000 * subordinate);
  }

  lemma HoleApart(lo: nat, t: nat, u: U8)
    requires lo < 0x1_0000
    ensures And(lo + 0x100_0000 * t, 0x1_0000 * u) == 0
  {
    hide And;
    hide Pow2;
    Pow2Sixteen();
    var x := lo + 0x100_0000 * t;
    DivModUnique(x, 0x1_0000, 0x100 * t, lo);
    DivModUnique(0x1_0000 * u, 0x1_0000, u, 0);
    AndSplit16(x, 0x1_0000 * u);
    AndNothing(lo);
    AndApart(u, 0x100 * t, 8);
    AndComm(u, 0x100 * t);
  }

  /** Status bits are cleared by writing ones. */
  function ClearOnes(status: U16, x: U16): U16
  {
    AndLess(status, x);
    status - And(status, x)
  }

  lemma ClearAll(status: U16)
    ensures ClearOnes(status, 0xffff) == 0
  {
    hide And;
    Pow2Sixteen();
    AndMask(status, 16);
  }
}
