/** The checksum against known values: the residue that every CRC-32 leaves, and the checksum of the letter a. */
module Crc32Check {
  import opened Bits
  import opened BitStream
  import opened Crc32

  /** A word as four bytes, least significant first, as it stands in the trailer of a gzip file. */
  function Trailer(x: Word): (s: seq<Byte>)
    ensures |s| == 4
  {
    [x % 0x100, x / 0x100 % 0x100, x / 0x1_0000 % 0x100, x / 0x100_0000]
  }

  lemma TrailerMessage(x: Word)
    ensures Message(Trailer(x)) == x
  {
    var t := Trailer(x);
    var a, b, c := x / 0x100, x / 0x1_0000, x / 0x100_0000;
    DivModNest(x, 0x100, 0x100);
    DivModNest(x, 0x1_0000, 0x100);
    assert x == 0x100 * a + x % 0x100 && a == 0x100 * b + a % 0x100 && b == 0x100 * c + b % 0x100;
    FourBytes(t[0], t[1], t[2], t[3]);
  }

  lemma FourBytes(a: Byte, b: Byte, c: Byte, d: Byte)
    ensures Message([a, b, c, d]) == a + 0x100 * b + 0x1_0000 * c + 0x100_0000 * d
  {
    Pow2Sixteen();
    Pow2Add(8, 16);
    hide Pow2;
    assert [a, b, c, d][..3] == [a, b, c] && [a, b, c][..2] == [a, b] && [a, b][..1] == [a] && [a][..0] == [];
    assert Message([]) == 0;
    assert Message([a]) == a;
    assert Message([a, b]) == a + 0x100 * b;
    assert Message([a, b, c]) == a + 0x100 * b + 0x1_0000 * c;
  }

  /** Data followed by their checksum leave the same register, whatever the data are. */
  lemma Residue(s: seq<Byte>)
    ensures Crc(s) < W32 && Register(0xFFFFFFFF, s + Trailer(Crc(s))) == 0xDEBB20E3
  {
    hide Xor;
    hide Register;
    hide Steps;
    hide Message;
    RegisterStart(s);
    PowThirtyTwo();
    hide Pow2;
    var r := Register(0xFFFFFFFF, s);
    XorBound(r, 0xFFFFFFFF, 32);
    hide Trailer;
    var t := Trailer(Crc(s));
    RegisterConcat(0xFFFFFFFF, s, t);
    RegisterIsSteps(r, t);
    TrailerMessage(Crc(s));
    XorAssoc(r, r, 0xFFFFFFFF);
    XorSelf(r);
    XorZero(0xFFFFFFFF);
    AllOnesOut();
  }

  /** The checksum of no data, and of the letter a. */
  lemma KnownChecksums()
    ensures Crc([]) == 0 && Crc(['a' as int]) == 0xE8B7BE43
  {
    hide Xor;
    hide Feed;
    hide Steps;
    var r := 0xFFFFFFFF;
    XorSelf(r);
    assert [97][..0] == [];
    assert Register(r, []) == r;
    assert Register(r, [97]) == Feed(r, 97, 8);
    FeedIsSteps(r, 97, 8) by { EightBits(); }
    LetterIn();
    LetterOut();
  }

  lemma EightBits()
    ensures Pow2(8) == 256
  {
  }

  lemma LetterIn()
    ensures Xor(0xFFFFFFFF, 97) == 0xFFFFFF9E && Xor(0x174841BC, 0xFFFFFFFF) == 0xE8B7BE43
  {
    hide Xor;
    PowThirtyTwo();
    XorComm(0xFFFFFFFF, 97);
    Flipped(97, 32);
    Flipped(0x174841BC, 32);
  }

  /** With ones every bit is flipped. */
  lemma {:induction false} Flipped(x: nat, n: nat)
    requires x < Pow2(n)
    ensures Xor(x, Pow2(n) - 1) == Pow2(n) - 1 - x
  {
    hide Xor;
    XorHalf(x, Pow2(n) - 1);
    Parity(x, Pow2(n) - 1);
    if n > 0 {
      Flipped(x / 2, n - 1);
      FlippedHalf(x, Pow2(n - 1), Xor(x, Pow2(n) - 1));
    } else {
      XorZero(0);
    }
  }

  lemma FlippedHalf(x: nat, p: nat, z: nat)
    requires x < 2 * p && z / 2 == p - 1 - x / 2 && z % 2 == if x % 2 == 1 then 0 else 1
    ensures z == 2 * p - 1 - x
  {
  }

  // ----- Exclusive or, four bits at a time -----

  function Word8(a: nat, b: nat, c: nat, d: nat, e: nat, f: nat, g: nat, h: nat): nat
  {
    0x1000_0000 * a + 0x100_0000 * b + 0x10_0000 * c + 0x1_0000 * d + 0x1000 * e + 0x100 * f + 0x10 * g + h
  }

  lemma LowBit(x: nat, y: nat, p: nat, q: nat)
    requires p < 2 && q < 2
    ensures Xor(2 * x + p, 2 * y + q) == 2 * Xor(x, y) + if p == q then 0 else 1
  {
    hide Xor;
    var a, b := 2 * x + p, 2 * y + q;
    assert a % 2 == p && a / 2 == x && b % 2 == q && b / 2 == y;
    XorHalf(a, b);
    Parity(a, b);
  }

  lemma Nibble(x: nat, y: nat, p: nat, q: nat)
    requires p < 16 && q < 16
    ensures Xor(16 * x + p, 16 * y + q) == 16 * Xor(x, y) + Xor(p, q)
  {
    hide Xor;
    var p2, q2 := p / 4, q / 4;
    TwoBits(4 * x + p2, 4 * y + q2, p % 4, q % 4);
    TwoBits(x, y, p2, q2);
    TwoBits(p2, q2, p % 4, q % 4);
  }

  lemma TwoBits(x: nat, y: nat, p: nat, q: nat)
    requires p < 4 && q < 4
    ensures Xor(4 * x + p, 4 * y + q) == 4 * Xor(x, y) + Xor(p, q)
  {
    hide Xor;
    LowBit(2 * x + p / 2, 2 * y + q / 2, p % 2, q % 2);
    LowBit(x, y, p / 2, q / 2);
    LowBit(p / 2, q / 2, p % 2, q % 2);
    LowBit(0, 0, p / 2, q / 2);
    XorZero(0);
  }

  lemma PolyXor(a: nat, b: nat, c: nat, d: nat, e: nat, f: nat, g: nat, h: nat)
    requires a < 16 && b < 16 && c < 16 && d < 16 && e < 16 && f < 16 && g < 16 && h < 16
    ensures Xor(Word8(a, b, c, d, e, f, g, h), 0xEDB88320)
            == Word8(Xor(a, 14), Xor(b, 13), Xor(c, 11), Xor(d, 8), Xor(e, 8), Xor(f, 3), Xor(g, 2), h)
  {
    hide Xor;
    XorZero(0);
    XorZero(h);
    Nibble(0, 0, a, 14);
    Nibble(a, 0xE, b, 13);
    Nibble(16 * a + b, 0xED, c, 11);
    Nibble(0x100 * a + 16 * b + c, 0xEDB, d, 8);
    Nibble(0x1000 * a + 0x100 * b + 16 * c + d, 0xEDB8, e, 8);
    Nibble(0x1_0000 * a + 0x1000 * b + 0x100 * c + 16 * d + e, 0xEDB88, f, 3);
    Nibble(0x10_0000 * a + 0x1_0000 * b + 0x1000 * c + 0x100 * d + 16 * e + f, 0xEDB883, g, 2);
    Nibble(0x100_0000 * a + 0x10_0000 * b + 0x1_0000 * c + 0x1000 * d + 0x100 * e + 16 * f + g, 0xEDB8832, h, 0);
  }

  /** Tables of four-bit numbers with the digits of the polynomial. */
  lemma Quarters()
    ensures Xor(0, 0) == 0 && Xor(1, 0) == 1 && Xor(2, 0) == 2 && Xor(3, 0) == 3
    ensures Xor(0, 1) == 1 && Xor(1, 1) == 0 && Xor(2, 1) == 3 && Xor(3, 1) == 2
    ensures Xor(0, 2) == 2 && Xor(1, 2) == 3 && Xor(2, 2) == 0 && Xor(3, 2) == 1
    ensures Xor(0, 3) == 3 && Xor(1, 3) == 2 && Xor(2, 3) == 1 && Xor(3, 3) == 0
  {
  }

  /** Four-bit numbers and 14. */
  lemma With14()
    ensures Xor(0, 14) == 14 && Xor(1, 14) == 15 && Xor(2, 14) == 12 && Xor(3, 14) == 13
    ensures Xor(4, 14) == 10 && Xor(5, 14) == 11 && Xor(6, 14) == 8 && Xor(7, 14) == 9
    ensures Xor(8, 14) == 6 && Xor(9, 14) == 7 && Xor(10, 14) == 4 && Xor(11, 14) == 5
    ensures Xor(12, 14) == 2 && Xor(13, 14) == 3 && Xor(14, 14) == 0 && Xor(15, 14) == 1
  {
    hide Xor;
    Quarters();
    TwoBits(0, 3, 0, 2);
    TwoBits(0, 3, 1, 2);
    TwoBits(0, 3, 2, 2);
    TwoBits(0, 3, 3, 2);
    TwoBits(1, 3, 0, 2);
    TwoBits(1, 3, 1, 2);
    TwoBits(1, 3, 2, 2);
    TwoBits(1, 3, 3, 2);
    TwoBits(2, 3, 0, 2);
    TwoBits(2, 3, 1, 2);
    TwoBits(2, 3, 2, 2);
    TwoBits(2, 3, 3, 2);
    TwoBits(3, 3, 0, 2);
    TwoBits(3, 3, 1, 2);
    TwoBits(3, 3, 2, 2);
    TwoBits(3, 3, 3, 2);
  }

  /** Four-bit numbers and 13. */
  lemma With13()
    ensures Xor(0, 13) == 13 && Xor(1, 13) == 12 && Xor(2, 13) == 15 && Xor(3, 13) == 14
    ensures Xor(4, 13) == 9 && Xor(5, 13) == 8 && Xor(6, 13) == 11 && Xor(7, 13) == 10
    ensures Xor(8, 13) == 5 && Xor(9, 13) == 4 && Xor(10, 13) == 7 && Xor(11, 13) == 6
    ensures Xor(12, 13) == 1 && Xor(13, 13) == 0 && Xor(14, 13) == 3 && Xor(15, 13) == 2
  {
    hide Xor;
    Quarters();
    TwoBits(0, 3, 0, 1);
    TwoBits(0, 3, 1, 1);
    TwoBits(0, 3, 2, 1);
    TwoBits(0, 3, 3, 1);
    TwoBits(1, 3, 0, 1);
    TwoBits(1, 3, 1, 1);
    TwoBits(1, 3, 2, 1);
    TwoBits(1, 3, 3, 1);
    TwoBits(2, 3, 0, 1);
    TwoBits(2, 3, 1, 1);
    TwoBits(2, 3, 2, 1);
    TwoBits(2, 3, 3, 1);
    TwoBits(3, 3, 0, 1);
    TwoBits(3, 3, 1, 1);
    TwoBits(3, 3, 2, 1);
    TwoBits(3, 3, 3, 1);
  }

  /** Four-bit numbers and 11. */
  lemma With11()
    ensures Xor(0, 11) == 11 && Xor(1, 11) == 10 && Xor(2, 11) == 9 && Xor(3, 11) == 8
    ensures Xor(4, 11) == 15 && Xor(5, 11) == 14 && Xor(6, 11) == 13 && Xor(7, 11) == 12
    ensures Xor(8, 11) == 3 && Xor(9, 11) == 2 && Xor(10, 11) == 1 && Xor(11, 11) == 0
    ensures Xor(12, 11) == 7 && Xor(13, 11) == 6 && Xor(14, 11) == 5 && Xor(15, 11) == 4
  {
    hide Xor;
    Quarters();
    TwoBits(0, 2, 0, 3);
    TwoBits(0, 2, 1, 3);
    TwoBits(0, 2, 2, 3);
    TwoBits(0, 2, 3, 3);
    TwoBits(1, 2, 0, 3);
    TwoBits(1, 2, 1, 3);
    TwoBits(1, 2, 2, 3);
    TwoBits(1, 2, 3, 3);
    TwoBits(2, 2, 0, 3);
    TwoBits(2, 2, 1, 3);
    TwoBits(2, 2, 2, 3);
    TwoBits(2, 2, 3, 3);
    TwoBits(3, 2, 0, 3);
    TwoBits(3, 2, 1, 3);
    TwoBits(3, 2, 2, 3);
    TwoBits(3, 2, 3, 3);
  }

  /** Four-bit numbers and 8. */
  lemma With8()
    ensures Xor(0, 8) == 8 && Xor(1, 8) == 9 && Xor(2, 8) == 10 && Xor(3, 8) == 11
    ensures Xor(4, 8) == 12 && Xor(5, 8) == 13 && Xor(6, 8) == 14 && Xor(7, 8) == 15
    ensures Xor(8, 8) == 0 && Xor(9, 8) == 1 && Xor(10, 8) == 2 && Xor(11, 8) == 3
    ensures Xor(12, 8) == 4 && Xor(13, 8) == 5 && Xor(14, 8) == 6 && Xor(15, 8) == 7
  {
    hide Xor;
    Quarters();
    TwoBits(0, 2, 0, 0);
    TwoBits(0, 2, 1, 0);
    TwoBits(0, 2, 2, 0);
    TwoBits(0, 2, 3, 0);
    TwoBits(1, 2, 0, 0);
    TwoBits(1, 2, 1, 0);
    TwoBits(1, 2, 2, 0);
    TwoBits(1, 2, 3, 0);
    TwoBits(2, 2, 0, 0);
    TwoBits(2, 2, 1, 0);
    TwoBits(2, 2, 2, 0);
    TwoBits(2, 2, 3, 0);
    TwoBits(3, 2, 0, 0);
    TwoBits(3, 2, 1, 0);
    TwoBits(3, 2, 2, 0);
    TwoBits(3, 2, 3, 0);
  }

  /** Four-bit numbers and 3. */
  lemma With3()
    ensures Xor(0, 3) == 3 && Xor(1, 3) == 2 && Xor(2, 3) == 1 && Xor(3, 3) == 0
    ensures Xor(4, 3) == 7 && Xor(5, 3) == 6 && Xor(6, 3) == 5 && Xor(7, 3) == 4
    ensures Xor(8, 3) == 11 && Xor(9, 3) == 10 && Xor(10, 3) == 9 && Xor(11, 3) == 8
    ensures Xor(12, 3) == 15 && Xor(13, 3) == 14 && Xor(14, 3) == 13 && Xor(15, 3) == 12
  {
    hide Xor;
    Quarters();
    TwoBits(0, 0, 0, 3);
    TwoBits(0, 0, 1, 3);
    TwoBits(0, 0, 2, 3);
    TwoBits(0, 0, 3, 3);
    TwoBits(1, 0, 0, 3);
    TwoBits(1, 0, 1, 3);
    TwoBits(1, 0, 2, 3);
    TwoBits(1, 0, 3, 3);
    TwoBits(2, 0, 0, 3);
    TwoBits(2, 0, 1, 3);
    TwoBits(2, 0, 2, 3);
    TwoBits(2, 0, 3, 3);
    TwoBits(3, 0, 0, 3);
    TwoBits(3, 0, 1, 3);
    TwoBits(3, 0, 2, 3);
    TwoBits(3, 0, 3, 3);
  }

  /** Four-bit numbers and 2. */
  lemma With2()
    ensures Xor(0, 2) == 2 && Xor(1, 2) == 3 && Xor(2, 2) == 0 && Xor(3, 2) == 1
    ensures Xor(4, 2) == 6 && Xor(5, 2) == 7 && Xor(6, 2) == 4 && Xor(7, 2) == 5
    ensures Xor(8, 2) == 10 && Xor(9, 2) == 11 && Xor(10, 2) == 8 && Xor(11, 2) == 9
    ensures Xor(12, 2) == 14 && Xor(13, 2) == 15 && Xor(14, 2) == 12 && Xor(15, 2) == 13
  {
    hide Xor;
    Quarters();
    TwoBits(0, 0, 0, 2);
    TwoBits(0, 0, 1, 2);
    TwoBits(0, 0, 2, 2);
    TwoBits(0, 0, 3, 2);
    TwoBits(1, 0, 0, 2);
    TwoBits(1, 0, 1, 2);
    TwoBits(1, 0, 2, 2);
    TwoBits(1, 0, 3, 2);
    TwoBits(2, 0, 0, 2);
    TwoBits(2, 0, 1, 2);
    TwoBits(2, 0, 2, 2);
    TwoBits(2, 0, 3, 2);
    TwoBits(3, 0, 0, 2);
    TwoBits(3, 0, 1, 2);
    TwoBits(3, 0, 2, 2);
    TwoBits(3, 0, 3, 2);
  }

  /** One step that subtracts the polynomial, for c = 2 * half + 1. */
  lemma Subtracts(c: nat, a: nat, b: nat, d: nat, e: nat, f: nat, g: nat, h: nat, i: nat, next: nat)
    requires a < 16 && b < 16 && d < 16 && e < 16 && f < 16 && g < 16 && h < 16 && i < 16
    requires c == 2 * Word8(a, b, d, e, f, g, h, i) + 1
    requires next == Word8(Xor(a, 14), Xor(b, 13), Xor(d, 11), Xor(e, 8), Xor(f, 8), Xor(g, 3), Xor(h, 2), i)
    ensures Step(c) == next
  {
    hide Xor;
    var half := Word8(a, b, d, e, f, g, h, i);
    PolyXor(a, b, d, e, f, g, h, i);
    hide Word8;
    OddStep(c, half);
  }

  lemma OddStep(c: nat, half: nat)
    requires c == 2 * half + 1
    ensures Step(c) == Xor(half, 0xEDB88320)
  {
    hide Xor;
    assert c / 2 == half && c % 2 == 1;
  }

  // ----- Dividing known registers -----

  lemma Eight(r: nat, a: nat, b: nat, c: nat, d: nat, e: nat, f: nat, g: nat, h: nat)
    requires Step(r) == a && Step(a) == b && Step(b) == c && Step(c) == d
    requires Step(d) == e && Step(e) == f && Step(f) == g && Step(g) == h
    ensures Steps(r, 8) == h
  {
    hide Step;
    assert Steps(d, 4) == h;
  }

  lemma FirstOut()
    ensures Steps(0xFFFFFFFF, 8) == 0x2DFD1072
  {
    hide Xor;
    With14();
    With13();
    With11();
    With8();
    With3();
    With2();
    Subtracts(0xFFFFFFFF, 7, 15, 15, 15, 15, 15, 15, 15, 0x92477CDF);
    Subtracts(0x92477CDF, 4, 9, 2, 3, 11, 14, 6, 15, 0xA49B3D4F);
    Subtracts(0xA49B3D4F, 5, 2, 4, 13, 9, 14, 10, 7, 0xBFF51D87);
    Subtracts(0xBFF51D87, 5, 15, 15, 10, 8, 14, 12, 3, 0xB2420DE3);
    Subtracts(0xB2420DE3, 5, 9, 2, 1, 0, 6, 15, 1, 0xB49985D1);
    Subtracts(0xB49985D1, 5, 10, 4, 12, 12, 2, 14, 8, 0xB7F441C8);
    Eight(0xFFFFFFFF, 0x92477CDF, 0xA49B3D4F, 0xBFF51D87, 0xB2420DE3,
          0xB49985D1, 0xB7F441C8, 0x5BFA20E4, 0x2DFD1072);
  }

  lemma SecondOut()
    ensures Steps(0x2DFD1072, 8) == 0xBE26ED00
  {
    hide Xor;
    With14();
    With13();
    With11();
    With8();
    With3();
    With2();
    Subtracts(0x16FE8839, 0, 11, 7, 15, 4, 4, 1, 12, 0xE6C7C73C);
    Subtracts(0x39B1F1CF, 1, 12, 13, 8, 15, 8, 14, 7, 0xF1607BC7);
    Subtracts(0xF1607BC7, 7, 8, 11, 0, 3, 13, 14, 3, 0x9508BEC3);
    Subtracts(0x9508BEC3, 4, 10, 8, 4, 5, 15, 6, 1, 0xA73CDC41);
    Subtracts(0xA73CDC41, 5, 3, 9, 14, 6, 14, 2, 0, 0xBE26ED00);
    Eight(0x2DFD1072, 0x16FE8839, 0xE6C7C73C, 0x7363E39E, 0x39B1F1CF,
          0xF1607BC7, 0x9508BEC3, 0xA73CDC41, 0xBE26ED00);
  }

  lemma ThirdOut()
    ensures Steps(0xBE26ED00, 8) == 0x00BE26ED
  {
    hide Xor;
    With14();
    With13();
    With11();
    With8();
    With3();
    With2();
    Eight(0xBE26ED00, 0x5F137680, 0x2F89BB40, 0x17C4DDA0, 0x0BE26ED0,
          0x05F13768, 0x02F89BB4, 0x017C4DDA, 0x00BE26ED);
  }

  lemma LastOut()
    ensures Steps(0x00BE26ED, 8) == 0xDEBB20E3
  {
    hide Xor;
    With14();
    With13();
    With11();
    With8();
    With3();
    With2();
    Subtracts(0x00BE26ED, 0, 0, 5, 15, 1, 3, 7, 6, 0xEDE79056);
    Subtracts(0x76F3C82B, 3, 11, 7, 9, 14, 4, 1, 5, 0xD6C16735);
    Subtracts(0xD6C16735, 6, 11, 6, 0, 11, 3, 9, 10, 0x86D830BA);
    Subtracts(0x436C185D, 2, 1, 11, 6, 0, 12, 2, 14, 0xCC0E8F0E);
    Subtracts(0x66074787, 3, 3, 0, 3, 10, 3, 12, 3, 0xDEBB20E3);
    Eight(0x00BE26ED, 0xEDE79056, 0x76F3C82B, 0xD6C16735, 0x86D830BA,
          0x436C185D, 0xCC0E8F0E, 0x66074787, 0xDEBB20E3);
  }

  lemma AllOnesOut()
    ensures Steps(0xFFFFFFFF, 32) == 0xDEBB20E3
  {
    hide Steps;
    FirstOut();
    SecondOut();
    ThirdOut();
    LastOut();
    StepsAdd(0xFFFFFFFF, 8, 24);
    StepsAdd(0x2DFD1072, 8, 16);
    StepsAdd(0xBE26ED00, 8, 8);
  }

  lemma LetterOut()
    ensures Steps(0xFFFFFF9E, 8) == 0x174841BC
  {
    hide Xor;
    With14();
    With13();
    With11();
    With8();
    With3();
    With2();
    Subtracts(0x7FFFFFCF, 3, 15, 15, 15, 15, 15, 14, 7, 0xD2477CC7);
    Subtracts(0xD2477CC7, 6, 9, 2, 3, 11, 14, 6, 3, 0x849B3D43);
    Subtracts(0x849B3D43, 4, 2, 4, 13, 9, 14, 10, 1, 0xAFF51D81);
    Subtracts(0xAFF51D81, 5, 7, 15, 10, 8, 14, 12, 0, 0xBA420DE0);
    Eight(0xFFFFFF9E, 0x7FFFFFCF, 0xD2477CC7, 0x849B3D43, 0xAFF51D81,
          0xBA420DE0, 0x5D2106F0, 0x2E908378, 0x174841BC);
  }
}
