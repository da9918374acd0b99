/** A gzip file of blocks of any kinds, with any header, is unpacked by gunzip to what its blocks say. */
module GzipStream {
  import opened Bits
  import opened BitStream
  import opened Inflater
  import opened InflateCodes
  import opened InflateSpec
  import opened StoredStream
  import DeflateEncoder
  import DeflateStream
  import Gunzip
  import Crc32

  type Blocks = b: seq<DeflateEncoder.Block> | b != [] && DeflateEncoder.BlocksOk(b, [])
    witness [DeflateEncoder.Stored([])]

  function Data(blocks: Blocks): seq<Byte>
  {
    DeflateEncoder.Content(blocks, [])
  }

  function File(header: seq<Byte>, blocks: Blocks): seq<Byte>
  {
    Wrap(header, DeflateStream.StreamBytes(blocks), Data(blocks))
  }

  /** The data come out of the file, and its trailer fits them. */
  lemma FileRoundTrip(header: seq<Byte>, blocks: Blocks)
    requires Gunzip.Payload(File(header, blocks)) == Gunzip.At(|header|)
    ensures var s := File(header, blocks);
      Gunzip.Content(s).Done? && Gunzip.Content(s).out == Data(blocks)
      && Gunzip.TrailerFits(s, (Gunzip.Content(s).pos + 7) / 8, Data(blocks))
  {
    hide Wrap;
    hide Gunzip.Payload;
    hide Gunzip.Content;
    hide Gunzip.TrailerFits;
    hide Gunzip.TrailerLimit;
    hide DeflateStream.StreamBytes;
    hide Data;
    hide RefInflate;
    var s, e := File(header, blocks), DeflateStream.StreamBytes(blocks);
    FileParts(header, e, Data(blocks));
    DeflateStream.RoundTrip(s, Gunzip.TrailerLimit(s), |header|, blocks);
    var r := RefInflate(s, Gunzip.TrailerLimit(s), 8 * |header|, []);
    assert r.out == Data(blocks) by { DataIs(blocks); }
    WrapDecodes(header, e, Data(blocks), r.pos);
  }

  lemma DataIs(blocks: Blocks)
    ensures Data(blocks) == DeflateEncoder.Content(blocks, [])
  {
  }

  /** gunzip on such a file. */
  method Unpack(st: State, ghost six: seq<Byte>, ghost extra: Field, ghost name: Field, ghost comment: Field,
        ghost blocks: Blocks) returns (r: Status)
    requires |six| == 6 && (extra.Some? ==> |extra.bytes| < 0x1_0000)
    requires (name.Some? ==> HasNoZero(name.bytes)) && (comment.Some? ==> HasNoZero(comment.bytes))
    requires st.input == File(Header(six, extra, name, comment), blocks)
    requires st.window.Length == WSIZE && st.crcTab.Length == 256 && st.window as object != st.crcTab && st.inptr == 0
    modifies st, st.window, st.crcTab
    ensures r == Ok && st.output == Data(blocks)
  {
    hide *;
    ghost var h := Header(six, extra, name, comment);
    ghost var rest := FileSplit(h, DeflateStream.StreamBytes(blocks), Data(blocks));
    assert st.input == h + rest by { FileIs(h, blocks); }
    HeaderRoundTrip(six, extra, name, comment, rest);
    FileRoundTrip(h, blocks);
    r := Gunzip.Gunzip(st);
  }

  lemma FileIs(header: seq<Byte>, blocks: Blocks)
    ensures File(header, blocks) == Wrap(header, DeflateStream.StreamBytes(blocks), Data(blocks))
  {
    hide Wrap;
    hide Data;
    hide DeflateStream.StreamBytes;
  }

  // ----- What is refused -----

  /** With the trailer of other data, or another length, the file is refused. */
  lemma TrailerExactly(header: seq<Byte>, stream: seq<Byte>, data: seq<Byte>, crc: Word, n: Word)
    ensures var s := header + (stream + (Bytes32(crc) + Bytes32(n)));
      Gunzip.TrailerFits(s, |header| + |stream|, data) <==> crc == Crc32.Crc(data) && n == |data| % 0x1_0000_0000
  {
    hide Bytes32;
    hide Crc32.Crc;
    hide Gunzip.Le32;
    var s, i := header + (stream + (Bytes32(crc) + Bytes32(n))), |header| + |stream|;
    Slices(header, stream, Bytes32(crc), Bytes32(n));
    Word32(crc);
    Word32(n);
    Le32Shift(s, i, Bytes32(crc));
    Le32Shift(s, i + 4, Bytes32(n));
  }

  /**
   A header is refused exactly for a wrong magic number (octal 037 and 0213, or 0236 of the old gzip), a method other
   than 8, or a flag bit 1, 5, 6 or 7.
   */
  lemma RefusedExactly(s: seq<Byte>)
    requires |s| >= 4
    ensures Gunzip.Payload(s).Refused? <==>
              !(s[0] == 31 && (s[1] == 139 || s[1] == 158) && s[2] == 8 && s[3] / 2 % 2 == 0 && s[3] < 32)
  {
    hide And;
    hide Gunzip.Skipped;
    FlagTests(s[3]);
  }

  lemma FlagTests(f: Byte)
    ensures And(f, 2) == 0 <==> f / 2 % 2 == 0
    ensures And(f, 32) == 0 && And(f, 0xc0) == 0 <==> f < 32
  {
    hide And;
    hide Pow2;
    SmallPowers();
    Pow2Sixteen();
    OneFlag(f, 1, f % 4);
    OneFlag(f, 5, f % 64);
    TwoTop(f);
    SecondBit(f);
  }

  lemma SecondBit(f: Byte)
    ensures f % 4 >= 2 <==> f / 2 % 2 == 1
  {
  }

  /** Bits 6 and 7. */
  lemma TwoTop(f: Byte)
    ensures And(f, 0xc0) == 0 <==> f < 64
  {
    hide And;
    hide Pow2;
    SmallPowers();
    if f < 64 {
      AndDisjoint(f, 3, 6);
    } else {
      Shifted(f, 3);
    }
  }

  lemma Shifted(f: Byte, m: nat)
    requires f >= 64 && m == 3
    ensures And(f, 0xc0) != 0
  {
    hide And;
    AndHalf(f, 0xc0);
    AndHalf(f / 2, 0x60);
    AndHalf(f / 4, 0x30);
    AndHalf(f / 8, 0x18);
    AndHalf(f / 16, 0xc);
    AndHalf(f / 32, 6);
    AndHalf(f / 64, 3);
    TopPair(f / 64);
  }

  lemma TopPair(x: nat)
    requires 1 <= x <= 3
    ensures And(x, 3) == x
  {
    AndMask(x, 2);
    SmallPowers();
  }

  /** The flag for text changes nothing. */
  lemma TextIgnored(s: seq<Byte>)
    requires |s| >= 4 && s[3] % 2 == 0
    ensures Gunzip.Payload(s[3 := s[3] + 1]) == Gunzip.Payload(s)
  {
    hide And;
    hide Gunzip.PastExtra;
    hide Gunzip.PastString;
    var f := s[3];
    SameFlag(f, 0x20);
    SameFlag(f, 0x02);
    SameFlag(f, 0xc0);
    SameFlag(f, 0x04);
    SameFlag(f, 0x08);
    SameFlag(f, 0x10);
    SameTail(s, 10);
  }

  lemma SameFlag(f: Byte, m: nat)
    requires f % 2 == 0 && m % 2 == 0
    ensures And(f + 1, m) == And(f, m)
  {
    hide And;
    AndHalf(f, m);
    AndHalf(f + 1, m);
    assert (f + 1) / 2 == f / 2;
  }

  lemma SameTail(s: seq<Byte>, i: nat)
    requires |s| >= 4 && s[3] < 255 && i >= 4
    ensures forall j: nat :: j >= i ==> Gunzip.PastString(s[3 := s[3] + 1], j) == Gunzip.PastString(s, j)
    ensures forall j: nat :: j >= i ==> Gunzip.PastExtra(s[3 := s[3] + 1], j) == Gunzip.PastExtra(s, j)
  {
    forall j: nat | j >= i
      ensures Gunzip.PastString(s[3 := s[3] + 1], j) == Gunzip.PastString(s, j)
    {
      SameString(s, s[3 := s[3] + 1], j);
    }
  }

  lemma {:induction false} SameString(s: seq<Byte>, t: seq<Byte>, j: nat)
    requires j >= 4 && |s| == |t| && forall k :: 4 <= k < |s| ==> s[k] == t[k]
    ensures Gunzip.PastString(s, j) == Gunzip.PastString(t, j)
    decreases |s| - j
  {
    if j < |s| { SameString(s, t, j + 1); }
  }
}
