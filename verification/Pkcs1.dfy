/**
 The encrypted session key of OpenPGP: the block built by create.c and taken apart by crypto.c (sections 13.1.1 and
 13.1.2 of RFC 4880) and the session key inside it. The RSA operation between the two is the identity here.
 */
module Pkcs1 {
  import opened Bits
  import BitStream

  type Byte = BitStream.Byte
  type Bytes = seq<Byte>

  // ----- The encoded block -----

  predicate NonZero(s: Bytes)
  {
    forall i :: 0 <= i < |s| ==> s[i] != 0
  }

  /** EME-PKCS1-v1_5: 0, 2, nonzero padding, 0, message. */
  function Encoded(pad: Bytes, m: Bytes): Bytes
  {
    [0, 2] + pad + [0] + m
  }

  ghost predicate Encodes(block: Bytes, pad: Bytes, m: Bytes)
  {
    block == Encoded(pad, m) && NonZero(pad) && |pad| >= 8
  }

  /** There is at most one way to take a block apart. */
  lemma UniqueParse(block: Bytes, p1: Bytes, m1: Bytes, p2: Bytes, m2: Bytes)
    requires Encodes(block, p1, m1) && Encodes(block, p2, m2)
    ensures p1 == p2 && m1 == m2
  {
    assert block[2 + |p1|] == 0 && forall j :: 0 <= j < |p1| ==> block[2 + j] == p1[j] != 0;
    assert block[2 + |p2|] == 0 && forall j :: 0 <= j < |p2| ==> block[2 + j] == p2[j] != 0;
    assert |p1| == |p2|;
    assert p1 == block[2..2 + |p1|] && p2 == block[2..2 + |p2|];
    assert m1 == block[3 + |p1|..] && m2 == block[3 + |p2|..];
  }

  /** Byte by byte: 0 and 2, then no zero before the eleventh byte, and one from there on. */
  lemma BlockIs(block: Bytes)
    ensures (exists pad, m :: Encodes(block, pad, m))
            <==> |block| >= 11 && block[0] == 0 && block[1] == 2 && exists z :: 10 <= z < |block| && Ends(block, z)
  {
    hide Encodes;
    if exists pad, m :: Encodes(block, pad, m) {
      var pad, m :| Encodes(block, pad, m);
      EndsBehind(block, pad, m);
    }
    if |block| >= 11 && block[0] == 0 && block[1] == 2 && exists z :: 10 <= z < |block| && Ends(block, z) {
      var z :| 10 <= z < |block| && Ends(block, z);
      TakenApart(block, z);
    }
  }

  lemma EndsBehind(block: Bytes, pad: Bytes, m: Bytes)
    requires Encodes(block, pad, m)
    ensures |block| >= 11 && block[0] == 0 && block[1] == 2 && |pad| >= 8 && 2 + |pad| < |block| && Ends(block, 2 + |pad|)
  {
    forall j | 2 <= j < 2 + |pad|
      ensures block[j] == pad[j - 2] != 0
    {
    }
  }

  lemma TakenApart(block: Bytes, z: nat)
    requires |block| >= 11 && block[0] == 0 && block[1] == 2 && 10 <= z < |block| && Ends(block, z)
    ensures Encodes(block, block[2..z], block[z + 1..])
  {
    assert block == Encoded(block[2..z], block[z + 1..]);
  }

  /** The padding ends at z. */
  predicate Ends(block: Bytes, z: nat)
    requires 2 <= z < |block|
  {
    block[z] == 0 && forall j :: 2 <= j < z ==> block[j] != 0
  }

  /** A source of random bytes; nonzero ones keep coming. */
  class Random {
    const bytes: nat -> Byte
    var pos: nat

    constructor (b: nat -> Byte)
      ensures bytes == b && pos == 0
    {
      bytes := b;
      pos := 0;
    }

    ghost predicate Fair()
    {
      forall i: nat :: MoreAt(i)
    }

    ghost predicate MoreAt(i: nat)
    {
      exists j: nat :: i <= j && bytes(j) != 0
    }

    method Next() returns (b: Byte)
      modifies this
      ensures b == bytes(old(pos)) && pos == old(pos) + 1
    {
      b := bytes(pos);
      pos := pos + 1;
    }

    method NextNonZero() returns (b: Byte)
      requires Fair()
      modifies this
      ensures b != 0
    {
      assert MoreAt(pos);
      ghost var j: nat :| pos <= j && bytes(j) != 0;
      b := Next();
      while b == 0
        invariant b == 0 ==> pos <= j
        decreases j - pos
      {
        b := Next();
      }
    }
  }

  /** How encode_m_buf ends: with a block, with a refusal, or with a write beyond the k bytes of the buffer. */
  datatype Outcome = Done | Refused | Overrun

  /** The length test; k - 11 is unsigned. */
  predicate Accepts(n: nat, k: nat)
  {
    n <= (k - 11) % W32
  }

  /** Below 11 bytes of modulus the difference wraps, and hardly any message is too long. */
  lemma AcceptsExactly(n: nat, k: nat)
    requires k < W32
    ensures Accepts(n, k) <==> if k < 11 then n <= W32 + k - 11 else n <= k - 11
  {
  }

  /** A 10-byte modulus takes the 19 bytes of a CAST5 session key. */
  lemma ShortModulus()
    ensures Accepts(CAST_KEY_LENGTH + 3, 10) && !Accepts(CAST_KEY_LENGTH + 3, 29)
  {
    AcceptsExactly(CAST_KEY_LENGTH + 3, 10);
  }

  /** encode_m_buf for a modulus of k bytes, the length of em; the result is a proper block exactly when k is large
      enough. */
  method EncodeMBuf(m: Bytes, em: array<Byte>, rng: Random) returns (r: Outcome, ghost pad: Bytes)
    requires em.Length < W32 && |m| < W32 && rng.Fair()
    modifies em, rng
    ensures r.Refused? <==> !Accepts(|m|, em.Length)
    ensures r.Done? <==> Accepts(|m|, em.Length) && |m| + 3 <= em.Length
    ensures r.Done? ==> em[..] == Encoded(pad, m) && NonZero(pad) && |pad| == em.Length - |m| - 3
    ensures r.Done? && Encodes(em[..], pad, m) <==> 11 <= em.Length && |m| <= em.Length - 11
    ensures r.Refused? ==> em[..] == old(em[..])
  {
    var k := em.Length;
    AcceptsExactly(|m|, k);
    pad := [];
    if |m| > (k - 11) % W32 {
      return Refused, [];
    }
    if k < 2 {
      return Overrun, [];
    }
    em[0] := 0;
    em[1] := 2;
    var fits, i;
    fits, i, pad := AddPadding(em, (k - |m| - 1) % W32, rng);
    if !fits || i + 1 + |m| > k {
      return Overrun, pad;
    }
    em[i] := 0;
    i := i + 1;
    var n := 0;
    while n < |m|
      invariant 0 <= n <= |m|
      invariant em[0] == 0 && em[1] == 2 && em[i - 1] == 0
      invariant forall j :: 0 <= j < |pad| ==> em[2 + j] == pad[j]
      invariant forall j :: 0 <= j < n ==> em[i + j] == m[j]
    {
      em[i + n] := m[n];
      n := n + 1;
    }
    assert em[..] == Encoded(pad, m);
    r := Done;
  }

  /** The nonzero bytes at 2 up to the bound, as far as the buffer reaches. */
  method AddPadding(em: array<Byte>, bound: nat, rng: Random) returns (fits: bool, i: nat, ghost pad: Bytes)
    requires 2 <= em.Length && rng.Fair()
    modifies em, rng
    ensures fits <==> bound <= em.Length
    ensures fits ==> i == (if bound < 2 then 2 else bound) && |pad| == i - 2
    ensures fits ==> NonZero(pad) && forall j :: 0 <= j < |pad| ==> em[2 + j] == pad[j]
    ensures em[0] == old(em[0]) && em[1] == old(em[1])
  {
    i, pad := 2, [];
    while i < bound
      invariant 2 <= i <= em.Length && (i <= bound || i == 2) && |pad| == i - 2
      invariant NonZero(pad) && forall j :: 0 <= j < |pad| ==> em[2 + j] == pad[j]
      invariant em[0] == old(em[0]) && em[1] == old(em[1])
    {
      if i == em.Length {
        return false, i, pad;
      }
      var b := rng.NextNonZero();
      em[i] := b;
      pad := pad + [b];
      i := i + 1;
    }
    fits := true;
  }

  /** The part of ops_decrypt_and_unencode_mpi after the decryption: n bytes in block, the message goes to buf. */
  method Unencode(block: array<Byte>, n: int, buf: array<Byte>) returns (r: int, ghost pad: Bytes, ghost m: Bytes)
    requires 2 <= block.Length && n <= block.Length && block != buf
    modifies buf
    ensures r == if n <= 0 then -1 else |m|
    ensures r > 0 ==> Encodes(block[..n], pad, m)
    ensures r == 0 ==> forall p, x :: Encodes(block[..n], p, x) ==> x == []
    ensures 0 <= r <= buf.Length ==> buf[..r] == m && buf[r..] == old(buf[r..])
    ensures r < 0 || r > buf.Length ==> buf[..] == old(buf[..])
  {
    pad, m := [], [];
    if n <= 0 {
      return -1, [], [];
    }
    ghost var all := block[..n];
    if block[0] != 0 || block[1] != 2 {
      HeadWrong(all, block[0], block[1]);
      return 0, [], [];
    }
    var i := 2;
    while i < n && block[i] != 0
      invariant 2 <= i && (i <= n || i == 2)
      invariant forall j :: 2 <= j < i ==> block[j] != 0
    {
      i := i + 1;
    }
    if i >= n || i < 10 {
      PaddingWrong(all, i);
      return 0, [], [];
    }
    pad, m := all[2..i], all[i + 1..];
    assert Encodes(all, pad, m);
    i := i + 1;
    r := n - i;
    if r <= buf.Length {
      var k := 0;
      while k < r
        invariant 0 <= k <= r
        invariant forall j :: 0 <= j < k ==> buf[j] == block[i + j]
        invariant forall j :: k <= j < buf.Length ==> buf[j] == old(buf[j])
        invariant block[..n] == all
      {
        buf[k] := block[i + k];
        k := k + 1;
      }
      assert buf[..r] == m;
    }
    if r == 0 {
      forall p, x | Encodes(all, p, x) ensures x == [] { UniqueParse(all, pad, m, p, x); }
    }
  }

  lemma HeadWrong(all: Bytes, a: Byte, b: Byte)
    requires all != [] && all[0] == a && (|all| > 1 ==> all[1] == b) && (a != 0 || b != 2)
    ensures forall p, x :: Encodes(all, p, x) ==> x == []
  {
    forall p, x
      ensures !Encodes(all, p, x)
    {
      assert Encoded(p, x)[0] == 0 && Encoded(p, x)[1] == 2;
    }
  }

  lemma PaddingWrong(all: Bytes, i: nat)
    requires 2 <= i && (i >= |all| || (i < 10 && all[i] == 0))
    requires forall j :: 2 <= j < i && j < |all| ==> all[j] != 0
    ensures forall p, x :: Encodes(all, p, x) ==> x == []
  {
    forall p, x
      ensures !Encodes(all, p, x)
    {
      var e := Encoded(p, x);
      assert e[2 + |p|] == 0 && forall j :: 2 <= j < 2 + |p| ==> e[j] == p[j - 2];
    }
  }

  // ----- The session key -----

  const CAST5 := 3
  const CAST_KEY_LENGTH := 16

  /** ops_key_size; 0 for the algorithms ops_is_sa_supported refuses. */
  function KeySize(alg: Byte): (n: nat)
    ensures n <= 32
  {
    match alg
    case 1 => 16
    case 2 => 24
    case 3 => 16
    case 7 => 16
    case 9 => 32
    case 11 => 16
    case 12 => 24
    case 13 => 32
    case _ => 0
  }

  function Sum(key: Bytes): nat
  {
    if key == [] then 0 else Sum(key[..|key| - 1]) + key[|key| - 1]
  }

  function Checksum(key: Bytes): Bytes
  {
    [Sum(key) % 65536 / 256, Sum(key) % 256]
  }

  /** Algorithm, key, and the sum of the key bytes modulo 65536, high byte first. */
  function Plain(alg: Byte, key: Bytes): Bytes
  {
    [alg] + key + Checksum(key)
  }

  lemma {:induction false} SumBound(key: Bytes)
    ensures Sum(key) <= 255 * |key|
  {
    if key != [] { SumBound(key[..|key| - 1]); }
  }

  /** ops_calc_session_key_checksum on the key buffer of a supported algorithm. */
  method CalcSessionKeyChecksum(alg: Byte, key: Bytes) returns (ok: bool, cs: Bytes)
    requires KeySize(alg) <= |key|
    ensures ok <==> KeySize(alg) > 0
    ensures ok ==> cs == Checksum(key[..KeySize(alg)])
  {
    hide And;
    hide KeySize;
    hide Pow2;
    if KeySize(alg) == 0 {
      return false, [];
    }
    var sum: nat, i := 0, 0;
    while i < KeySize(alg)
      invariant 0 <= i <= KeySize(alg) && sum == Sum(key[..i])
    {
      assert key[..i + 1][..i] == key[..i];
      sum := sum + key[i];
      i := i + 1;
    }
    SumBound(key[..i]);
    sum := sum % 65536;
    HighByte(sum);
    ok, cs := true, [Shr(sum, 8), And(sum, 0xff)];
  }

  lemma HighByte(x: nat)
    requires x < 65536
    ensures Shr(x, 8) == x / 256 < 256 && And(x, 0xff) == x % 256
  {
    hide And;
    Pow2Sixteen();
    AndMask(x, 8);
  }

  /** create_unencoded_m_buf; only CAST5 session keys are created. */
  method CreateUnencodedMBuf(alg: Byte, key: Bytes, mbuf: array<Byte>) returns (ok: bool)
    requires alg == CAST5 && |key| >= CAST_KEY_LENGTH && mbuf.Length == CAST_KEY_LENGTH + 3
    modifies mbuf
    ensures ok && mbuf[..] == Plain(alg, key[..CAST_KEY_LENGTH])
  {
    mbuf[0] := alg;
    var i := 0;
    while i < CAST_KEY_LENGTH
      invariant 0 <= i <= CAST_KEY_LENGTH
      invariant mbuf[0] == alg && forall j :: 0 <= j < i ==> mbuf[1 + j] == key[j]
    {
      mbuf[1 + i] := key[i];
      i := i + 1;
    }
    var cs;
    ok, cs := CalcSessionKeyChecksum(alg, key);
    mbuf[1 + CAST_KEY_LENGTH], mbuf[2 + CAST_KEY_LENGTH] := cs[0], cs[1];
    assert mbuf[..] == [alg] + key[..CAST_KEY_LENGTH] + cs;
  }

  datatype Recovered = Key(alg: Byte, key: Bytes) | Rejected

  /** A message that carries a session key of a supported algorithm. */
  ghost predicate Carries(m: Bytes, alg: Byte, key: Bytes)
  {
    KeySize(alg) > 0 && |key| == KeySize(alg) && m == Plain(alg, key)
  }

  ghost predicate HasKey(m: Bytes)
  {
    exists alg, key :: Carries(m, alg, key)
  }

  /** The checks of packet-parse.c on an unencoded message said to have n bytes. */
  method RecoverKey(buf: array<Byte>, n: int) returns (r: Recovered)
    requires 35 <= buf.Length
    ensures r.Key? <==> 0 <= n <= buf.Length && HasKey(buf[..n])
    ensures r.Key? ==> Carries(buf[..n], r.alg, r.key)
  {
    if 0 <= n <= buf.Length { Lengths(buf[..n]); }
    if n < 1 {
      return Rejected;
    }
    var alg := buf[0];
    var k := KeySize(alg);
    if k == 0 || n != k + 3 {
      return Rejected;
    }
    ghost var m := buf[..n];
    var key := buf[1..1 + k];
    var ok, cs := CalcSessionKeyChecksum(alg, key);
    assert key[..k] == key;
    assert m[1..1 + k] == key;
    if buf[k + 1] != cs[0] || buf[k + 2] != cs[1] {
      WrongSum(m, k);
      return Rejected;
    }
    assert Carries(buf[..n], alg, key);
    r := Key(alg, key);
  }

  lemma Lengths(m: Bytes)
    ensures forall alg, key :: Carries(m, alg, key) ==> m != [] && |m| == KeySize(m[0]) + 3 && KeySize(m[0]) > 0
  {
    forall alg, key | Carries(m, alg, key)
      ensures m != [] && |m| == KeySize(m[0]) + 3 && KeySize(m[0]) > 0
    {
      assert Plain(alg, key)[0] == alg && |Plain(alg, key)| == |key| + 3;
    }
  }

  lemma WrongSum(m: Bytes, k: nat)
    requires |m| == k + 3 && k == KeySize(m[0]) > 0
    requires m[k + 1] != Checksum(m[1..1 + k])[0] || m[k + 2] != Checksum(m[1..1 + k])[1]
    ensures !HasKey(m)
  {
    forall alg, key
      ensures !Carries(m, alg, key)
    {
      var p := Plain(alg, key);
      assert p[0] == alg && p[1..1 + |key|] == key;
      assert |key| == k ==> p[k + 1] == Checksum(key)[0] && p[k + 2] == Checksum(key)[1];
    }
  }

  /** A plain session key has one reading. */
  lemma PlainUnique(a1: Byte, k1: Bytes, a2: Byte, k2: Bytes)
    requires Plain(a1, k1) == Plain(a2, k2)
    ensures a1 == a2 && k1 == k2
  {
    var p, q := Plain(a1, k1), Plain(a2, k2);
    assert p[0] == a1 && q[0] == a2 && |p| == |k1| + 3 && |q| == |k2| + 3;
    assert p[1..|p| - 2] == k1 && q[1..|q| - 2] == k2;
  }

  /** The checksum shows every change of a single key byte. */
  lemma OneByteChanged(alg: Byte, key: Bytes, i: nat, x: Byte)
    requires i < |key| && x != key[i] && KeySize(alg) == |key|
    ensures Checksum(key[i := x]) != Checksum(key)
  {
    SumUpdate(key, i, x);
    SumBound(key);
    SumBound(key[i := x]);
    var s, t := Sum(key), Sum(key[i := x]);
    assert s < 65536 && t < 65536 && s != t;
    assert s == 256 * (s / 256) + s % 256 && t == 256 * (t / 256) + t % 256;
  }

  lemma {:induction false} SumUpdate(key: Bytes, i: nat, x: Byte)
    requires i < |key|
    ensures Sum(key[i := x]) == Sum(key) - key[i] + x
  {
    var n := |key| - 1;
    if i < n {
      SumUpdate(key[..n], i, x);
      assert key[i := x][..n] == key[..n][i := x];
    } else {
      assert key[i := x][..n] == key[..n];
    }
  }

  /** From the sender to the recipient: the key that was put in comes out, for every modulus of at least 30 bytes. */
  method KeyExchange(key: Bytes, k: nat, rng: Random) returns (r: Recovered)
    requires |key| == CAST_KEY_LENGTH && CAST_KEY_LENGTH + 3 + 11 <= k <= 8192 && rng.Fair()
    modifies rng
    ensures r == Key(CAST5, key)
  {
    var mbuf := new Byte[CAST_KEY_LENGTH + 3];
    var ok := CreateUnencodedMBuf(CAST5, key, mbuf);
    assert key[..CAST_KEY_LENGTH] == key;
    var em := new Byte[k];
    var done;
    ghost var pad;
    done, pad := EncodeMBuf(mbuf[..], em, rng);
    AcceptsExactly(CAST_KEY_LENGTH + 3, k);
    var buf := new Byte[1024];
    var n;
    ghost var p, m;
    n, p, m := Unencode(em, k, buf);
    assert em[..k] == em[..];
    assert Encodes(em[..k], pad, Plain(CAST5, key)) && Plain(CAST5, key) != [];
    if n > 0 { UniqueParse(em[..k], pad, Plain(CAST5, key), p, m); }
    assert Carries(buf[..n], CAST5, key);
    r := RecoverKey(buf, n);
    assert r.Key?;
    if r.Key? { PlainUnique(r.alg, r.key, CAST5, key); }
  }

  // ----- Algorithms -----

  /** The key lengths in bits of section 9.2 of RFC 4880 and of RFC 5581, for the algorithms that are supported. */
  function KeyBits(alg: Byte): nat
  {
    if alg == 1 || alg == 3 || alg == 7 || alg == 11 then 128
    else if alg == 2 || alg == 12 then 192
    else if alg == 9 || alg == 13 then 256
    else 0
  }

  lemma KeySizes(alg: Byte)
    ensures 8 * KeySize(alg) == KeyBits(alg)
  {
  }

  /**
   A message that starts with the number of an algorithm yields a key if and only if it has a key of that algorithm
   and the sum of its bytes, high byte first, behind it.
   */
  method RecoverSent(alg: Byte, key: Bytes, high: Byte, low: Byte, buf: array<Byte>) returns (r: Recovered)
    requires buf.Length >= 35 && |key| + 3 <= buf.Length && buf[..|key| + 3] == [alg] + key + [high, low]
    ensures r == if KeyBits(alg) > 0 && 8 * |key| == KeyBits(alg) && 256 * high + low == Sum(key) % 65536
                 then Key(alg, key) else Rejected
  {
    KeySizes(alg);
    r := RecoverKey(buf, |key| + 3);
    SentParts(alg, key, high, low);
    if r.Key? {
      SentUnique(alg, key, high, low, r.alg, r.key);
    } else if KeyBits(alg) > 0 && 8 * |key| == KeyBits(alg) && 256 * high + low == Sum(key) % 65536 {
      assert Carries(buf[..|key| + 3], alg, key);
    }
  }

  lemma SentParts(alg: Byte, key: Bytes, high: Byte, low: Byte)
    ensures 256 * high + low == Sum(key) % 65536 <==> [alg] + key + [high, low] == Plain(alg, key)
  {
    var s := Sum(key) % 65536;
    var p, q := [alg] + key + [high, low], Plain(alg, key);
    DivModNest(Sum(key), 256, 256);
    assert s % 256 == Sum(key) % 256 && s == 256 * (s / 256) + s % 256;
    assert p[|p| - 2] == high && p[|p| - 1] == low && q[|q| - 2] == s / 256 && q[|q| - 1] == Sum(key) % 256;
  }

  lemma SentUnique(alg: Byte, key: Bytes, high: Byte, low: Byte, a: Byte, k: Bytes)
    requires Plain(a, k) == [alg] + key + [high, low]
    ensures a == alg && k == key
  {
    var p, q := Plain(a, k), [alg] + key + [high, low];
    assert p[0] == a && q[0] == alg && |p| == |k| + 3 && |q| == |key| + 3;
    assert p[1..|p| - 2] == k && q[1..|q| - 2] == key;
  }
}
