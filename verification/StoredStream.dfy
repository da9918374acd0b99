/** A plain encoder: every byte sequence has a stream, of stored blocks only, and a gzip file that unpack to it. */
module StoredStream {
  import opened Bits
  import opened BitStream
  import opened InflateSpec
  import opened Inflater
  import opened InflateCodes
  import opened Gunzip
  import Crc32

  const MOST := 0xffff

  /** One stored block at a byte boundary: header byte, length, complement, bytes. */
  function Block(last: bool, data: seq<Byte>): (s: seq<Byte>)
    requires |data| <= MOST
    ensures |s| == 5 + |data|
  {
    var n := |data|;
    var c := MOST - n;
    [if last then 1 else 0, n % 256, n / 256, c % 256, c / 256] + data
  }

  function Encode(data: seq<Byte>): seq<Byte>
    decreases |data|
  {
    if |data| <= MOST then Block(true, data) else Block(false, data[..MOST]) + Encode(data[MOST..])
  }

  /** The header bits of a block. */
  lemma HeaderBits(s: seq<Byte>, i: nat)
    requires i < |s| && s[i] <= 1
    ensures Lsb(s, 8 * i, 1) == s[i] && Lsb(s, 8 * i + 1, 2) == 0
    ensures Aligned(8 * i + 3) == 8 * (i + 1)
  {
    hide Lsb;
    LsbByte(s, i);
    LsbSplit(s, 8 * i, 1, 8);
    LsbSplit(s, 8 * i + 1, 2, 7);
    SmallByte(s[i]);
    DivModUnique(8 * i + 10, 8, i + 1, 2);
  }

  lemma SmallByte(b: Byte)
    requires b <= 1
    ensures Low(b, 1) == b && Shr(b, 1) == 0 && Low(0, 2) == 0
  {
    assert Pow2(1) == 2;
  }

  /** Two bytes as a number. */
  lemma TwoBytes(s: seq<Byte>, i: nat)
    ensures Lsb(s, 8 * i, 16) == ByteAt(s, i) + 256 * ByteAt(s, i + 1)
  {
    hide Lsb;
    LsbConcat(s, 8 * i, 8, 8);
    LsbByte(s, i);
    LsbByte(s, i + 1);
    assert Pow2(8) == 256;
  }

  /** The bytes of a block, where it stands. */
  lemma BlockBytes(s: seq<Byte>, i: nat, last: bool, data: seq<Byte>)
    requires |data| <= MOST && i + 5 + |data| <= |s| && s[i..i + 5 + |data|] == Block(last, data)
    ensures s[i] == (if last then 1 else 0) && s[i + 5..i + 5 + |data|] == data
    ensures ByteAt(s, i + 1) == |data| % 256 && ByteAt(s, i + 2) == |data| / 256
    ensures ByteAt(s, i + 3) == (MOST - |data|) % 256 && ByteAt(s, i + 4) == (MOST - |data|) / 256
  {
    var b, n := Block(last, data), |data|;
    assert forall k :: 0 <= k < 5 ==> s[i + k] == b[k];
    assert s[i..i + 5 + n][5..] == b[5..] == data;
  }

  /** Length and complement. */
  lemma BlockLength(s: seq<Byte>, i: nat, n: nat)
    requires n <= MOST
    requires ByteAt(s, i + 1) == n % 256 && ByteAt(s, i + 2) == n / 256
    requires ByteAt(s, i + 3) == (MOST - n) % 256 && ByteAt(s, i + 4) == (MOST - n) / 256
    ensures Lsb(s, 8 * (i + 1), 16) == n && Lsb(s, 8 * (i + 3), 16) == MOST - n
  {
    hide *;
    TwoBytes(s, i + 1);
    TwoBytes(s, i + 3);
    assert i + 1 + 1 == i + 2 && i + 3 + 1 == i + 4;
  }

  /** What the reference decoder makes of one stored block. */
  lemma BlockDecodes(s: seq<Byte>, limit: nat, i: nat, last: bool, data: seq<Byte>, out: seq<Byte>)
    requires |data| <= MOST && i + 5 + |data| <= |s| && s[i..i + 5 + |data|] == Block(last, data)
    requires 8 * (i + 5 + |data|) <= limit <= 8 * |s|
    ensures Lsb(s, 8 * i, 1) == (if last then 1 else 0) && Lsb(s, 8 * i + 1, 2) == 0
    ensures RefStored(s, limit, 8 * i + 3, out) == Done(out + data, 8 * (i + 5 + |data|))
  {
    hide Lsb;
    hide ByteAt;
    hide Block;
    hide Aligned;
    BlockBytes(s, i, last, data);
    HeaderBits(s, i);
    BlockLength(s, i, |data|);
  }

  /** A stream of stored blocks, with anything around it, decodes to the data. */
  lemma {:induction false} StoredRoundTrip(s: seq<Byte>, limit: nat, i: nat, data: seq<Byte>, out: seq<Byte>)
    requires i + |Encode(data)| <= |s| && s[i..i + |Encode(data)|] == Encode(data)
    requires 8 * (i + |Encode(data)|) <= limit <= 8 * |s|
    ensures RefInflate(s, limit, 8 * i, out) == Done(out + data, 8 * (i + |Encode(data)|))
    decreases |data|
  {
    hide RefInflate;
    hide RefStored;
    hide Lsb;
    hide Block;
    if |data| <= MOST {
      BlockDecodes(s, limit, i, true, data, out);
      BlockFirst(s, limit, i, out, out + data, i + |Encode(data)|);
    } else {
      var d, rest := data[..MOST], data[MOST..];
      var b, e := Block(false, d), Encode(rest);
      var j := i + |b|;
      Parts(s, i, b, e);
      BlockDecodes(s, limit, i, false, d, out);
      BlockFirst(s, limit, i, out, out + d, j);
      StoredRoundTrip(s, limit, j, rest, out + d);
      assert d + rest == data;
      assert out + d + rest == out + (d + rest);
    }
  }

  lemma Parts(s: seq<Byte>, i: nat, b: seq<Byte>, e: seq<Byte>)
    requires i + |b + e| <= |s| && s[i..i + |b + e|] == b + e
    ensures s[i..i + |b|] == b && s[i + |b|..i + |b| + |e|] == e
  {
    assert s[i..i + |b|] == (b + e)[..|b|];
    assert s[i + |b|..i + |b| + |e|] == (b + e)[|b|..];
  }

  /** A stored block at a byte boundary, and what follows it. */
  lemma BlockFirst(s: seq<Byte>, limit: nat, i: nat, out: seq<Byte>, now: seq<Byte>, j: nat)
    requires limit <= 8 * |s| && i < j && 8 * j <= limit && Lsb(s, 8 * i + 1, 2) == 0
    requires RefStored(s, limit, 8 * i + 3, out) == Done(now, 8 * j)
    ensures RefInflate(s, limit, 8 * i, out)
            == if Lsb(s, 8 * i, 1) == 1 then Done(now, 8 * j) else RefInflate(s, limit, 8 * j, now)
  {
    hide Lsb;
    hide RefStored;
    HeaderUnfold(s, limit, 8 * i, out);
    hide RefInflate;
  }

  // ----- A gzip file -----

  datatype Field = None | Some(bytes: seq<Byte>)

  predicate HasNoZero(s: seq<Byte>)
  {
    forall i :: 0 <= i < |s| ==> s[i] != 0
  }

  function Flags(extra: Field, name: Field, comment: Field): Byte
  {
    (if extra.Some? then 4 else 0) + (if name.Some? then 8 else 0) + (if comment.Some? then 16 else 0)
  }

  function ExtraField(extra: Field): seq<Byte>
    requires extra.Some? ==> |extra.bytes| < 0x1_0000
  {
    if extra.None? then [] else [|extra.bytes| % 256, |extra.bytes| / 256] + extra.bytes
  }

  function StringField(name: Field): seq<Byte>
  {
    if name.None? then [] else name.bytes + [0]
  }

  /** A header with any optional fields; the six bytes of time, extra flags and operating system are free. */
  function Header(six: seq<Byte>, extra: Field, name: Field, comment: Field): seq<Byte>
    requires extra.Some? ==> |extra.bytes| < 0x1_0000
  {
    [0x1f, 0x8b, 8, Flags(extra, name, comment)] + six
    + (ExtraField(extra) + (StringField(name) + StringField(comment)))
  }

  lemma {:induction false} StringPassed(s: seq<Byte>, i: nat, name: seq<Byte>)
    requires i + |name| < |s| && s[i..i + |name|] == name && s[i + |name|] == 0 && HasNoZero(name)
    ensures PastString(s, i) == i + |name| + 1
    decreases |name|
  {
    if name != [] {
      assert s[i] == name[0];
      assert s[i + 1..i + 1 + |name[1..]|] == name[1..];
      StringPassed(s, i + 1, name[1..]);
    }
  }

  lemma FieldPassed(s: seq<Byte>, i: nat, name: Field, rest: seq<Byte>)
    requires i <= |s| && s[i..] == StringField(name) + rest && name.Some? && HasNoZero(name.bytes)
    ensures PastString(s, i) == i + |StringField(name)| <= |s| && s[i + |StringField(name)|..] == rest
  {
    var f := name.bytes;
    assert s[i..i + |f|] == s[i..][..|f|] == f && s[i + |f|] == s[i..][|f|] == 0;
    assert s[i + |f| + 1..] == s[i..][|f| + 1..] == rest;
    StringPassed(s, i, f);
  }

  lemma ExtraPassed(s: seq<Byte>, i: nat, extra: Field, rest: seq<Byte>)
    requires extra.Some? && |extra.bytes| < 0x1_0000
    requires i <= |s| && s[i..] == ExtraField(extra) + rest
    ensures PastExtra(s, i) == i + |ExtraField(extra)| <= |s| && s[i + |ExtraField(extra)|..] == rest
  {
    var n := |extra.bytes|;
    assert s[i] == s[i..][0] == n % 256 && s[i + 1] == s[i..][1] == n / 256;
    assert s[i + 2 + n..] == s[i..][2 + n..] == rest;
  }

  /** The three flags that say which fields there are. */
  lemma FlagsRead(extra: Field, name: Field, comment: Field)
    ensures var f := Flags(extra, name, comment);
      && (And(f, EXTRA_FIELD) != 0 <==> extra.Some?) && (And(f, ORIG_NAME) != 0 <==> name.Some?)
      && (And(f, COMMENT) != 0 <==> comment.Some?)
      && And(f, ENCRYPTED) == 0 && And(f, CONTINUATION) == 0 && And(f, RESERVED) == 0
  {
    var e, n, c := if extra.Some? then 1 else 0, if name.Some? then 1 else 0, if comment.Some? then 1 else 0;
    var f := Flags(extra, name, comment);
    assert f == 4 * (e + 2 * (n + 2 * c));
    FlagBits(e, n, c);
  }

  /** Bit by bit. */
  lemma FlagBits(e: nat, n: nat, c: nat)
    requires e < 2 && n < 2 && c < 2
    ensures var f := 4 * (e + 2 * (n + 2 * c));
      && And(f, 4) == 4 * e && And(f, 8) == 8 * n && And(f, 16) == 16 * c
      && And(f, 0x20) == 0 && And(f, 0x02) == 0 && And(f, 0xc0) == 0
  {
    hide And;
    hide Pow2;
    var f := 4 * (e + 2 * (n + 2 * c));
    SmallPowers();
    FlagParts(e, n, c);
    OneFlag(f, 2, 4 * e);
    OneFlag(f, 3, 4 * (e + 2 * n));
    OneFlag(f, 4, f);
    OneFlag(f, 1, 0);
    AndDisjoint(f, 1, 5);
    AndDisjoint(f, 3, 6);
  }

  /** Testing bit n. */
  lemma OneFlag(f: nat, n: nat, low: nat)
    requires low == Low(f, n + 1)
    ensures And(f, Pow2(n)) == if low >= Pow2(n) then Pow2(n) else 0
  {
    hide And;
    Pow2Mono(n, n + 1);
    AndLow(f, Pow2(n), n + 1);
    TopBit(low, n);
  }

  lemma FlagParts(e: nat, n: nat, c: nat)
    requires e < 2 && n < 2 && c < 2
    ensures var f := 4 * (e + 2 * (n + 2 * c));
      f < 32 && Low(f, 3) == 4 * e && Low(f, 4) == 4 * (e + 2 * n) && Low(f, 5) == f && Low(f, 2) == 0
  {
    var f := 4 * (e + 2 * (n + 2 * c));
    SmallPowers();
    hide Pow2;
    assert f % 8 == 4 * e && f % 16 == 4 * (e + 2 * n) && f % 32 == f && f % 4 == 0;
  }

  lemma SmallPowers()
    ensures Pow2(1) == 2 && Pow2(2) == 4 && Pow2(3) == 8 && Pow2(4) == 16 && Pow2(5) == 32 && Pow2(6) == 64
  {
  }

  /** Every such header is passed over exactly. */
  lemma HeaderRoundTrip(six: seq<Byte>, extra: Field, name: Field, comment: Field, rest: seq<Byte>)
    requires |six| == 6 && (extra.Some? ==> |extra.bytes| < 0x1_0000)
    requires (name.Some? ==> HasNoZero(name.bytes)) && (comment.Some? ==> HasNoZero(comment.bytes))
    ensures Payload(Header(six, extra, name, comment) + rest) == At(|Header(six, extra, name, comment)|)
  {
    hide And;
    hide Flags;
    hide ExtraField;
    hide StringField;
    hide PastString;
    hide PastExtra;
    hide Skipped;
    var s := Header(six, extra, name, comment) + rest;
    FlagsRead(extra, name, comment);
    var e, n, c := ExtraField(extra), StringField(name), StringField(comment);
    assert s[10..] == e + (n + (c + rest)) by { Behind(s[..10], e, n, c, rest); }
    FieldsPassed(s, extra, name, comment, rest);
  }

  lemma Behind(h: seq<Byte>, e: seq<Byte>, n: seq<Byte>, c: seq<Byte>, rest: seq<Byte>)
    ensures (h + (e + (n + c)) + rest)[|h|..] == e + (n + (c + rest))
  {
    assert h + (e + (n + c)) + rest == h + (e + (n + (c + rest)));
  }

  /** One optional field after the other. */
  lemma FieldsPassed(s: seq<Byte>, extra: Field, name: Field, comment: Field, rest: seq<Byte>)
    requires extra.Some? ==> |extra.bytes| < 0x1_0000
    requires (name.Some? ==> HasNoZero(name.bytes)) && (comment.Some? ==> HasNoZero(comment.bytes))
    requires |s| >= 10 && s[10..] == ExtraField(extra) + (StringField(name) + (StringField(comment) + rest))
    ensures Skipped(s, Flags(extra, name, comment))
            == 10 + |ExtraField(extra)| + |StringField(name)| + |StringField(comment)| <= |s|
  {
    hide And;
    hide Flags;
    hide ExtraField;
    hide StringField;
    hide PastString;
    hide PastExtra;
    hide HasNoZero;
    var e, n, c := ExtraField(extra), StringField(name), StringField(comment);
    FlagsRead(extra, name, comment);
    FieldsEmpty(extra, name, comment);
    NothingAdded(n + (c + rest), c + rest, rest);
    if extra.Some? { ExtraPassed(s, 10, extra, n + (c + rest)); }
    if name.Some? { FieldPassed(s, 10 + |e|, name, c + rest); }
    if comment.Some? { FieldPassed(s, 10 + |e| + |n|, comment, rest); }
  }

  lemma NothingAdded(a: seq<Byte>, b: seq<Byte>, c: seq<Byte>)
    ensures [] + a == a && [] + b == b && [] + c == c
  {
  }

  lemma FieldsEmpty(extra: Field, name: Field, comment: Field)
    requires extra.Some? ==> |extra.bytes| < 0x1_0000
    ensures extra.None? ==> ExtraField(extra) == []
    ensures name.None? ==> StringField(name) == []
    ensures comment.None? ==> StringField(comment) == []
  {
  }

  function Bytes32(x: Word): (s: seq<Byte>)
    ensures |s| == 4
  {
    [x % 0x100, x / 0x100 % 0x100, x / 0x1_0000 % 0x100, x / 0x100_0000]
  }

  /** A whole file: header, a stream for the data, checksum and length. */
  function Wrap(header: seq<Byte>, stream: seq<Byte>, data: seq<Byte>): seq<Byte>
  {
    CrcIsWord(data);
    header + (stream + (Bytes32(Crc32.Crc(data)) + Bytes32(|data| % W32)))
  }

  function GzipFile(header: seq<Byte>, data: seq<Byte>): seq<Byte>
  {
    Wrap(header, Encode(data), data)
  }

  lemma CrcIsWord(data: seq<Byte>)
    ensures Crc32.Crc(data) < W32
  {
    Crc32.PowThirtyTwo();
    Crc32.RegisterBound(0xFFFFFFFF, data);
    XorBound(Crc32.Register(0xFFFFFFFF, data), 0xFFFFFFFF, 32);
  }

  lemma Word32(x: Word)
    ensures Le32(Bytes32(x), 0) == x
  {
    var a, b, c := x / 0x100, x / 0x1_0000, x / 0x100_0000;
    DivModNest(x, 0x100, 0x100);
    DivModNest(x, 0x1_0000, 0x100);
    assert x == 0x100 * a + x % 0x100 && a == 0x100 * b + a % 0x100 && b == 0x100 * c + b % 0x100;
  }

  lemma Le32Shift(s: seq<Byte>, i: nat, t: seq<Byte>)
    requires i + 4 <= |s| && |t| == 4 && s[i..i + 4] == t
    ensures Le32(s, i) == Le32(t, 0)
  {
    assert s[i] == t[0] && s[i + 1] == t[1] && s[i + 2] == t[2] && s[i + 3] == t[3];
  }

  /** The data come out of their file, and its trailer fits them. */
  lemma FileDecodes(header: seq<Byte>, data: seq<Byte>)
    requires Payload(GzipFile(header, data)) == At(|header|)
    ensures var s, p := GzipFile(header, data), 8 * (|header| + |Encode(data)|);
      Content(s) == Done(data, p) && TrailerFits(s, (p + 7) / 8, data)
  {
    hide *;
    var s, h, e := GzipFile(header, data), |header|, Encode(data);
    assert s == Wrap(header, e, data) by { IsWrapped(header, data); }
    FileParts(header, e, data);
    StoredRoundTrip(s, TrailerLimit(s), h, data, []);
    assert [] + data == data;
    DivModUnique(8 * (h + |e|) + 7, 8, h + |e|, 7);
    WrapDecodes(header, e, data, 8 * (h + |e|));
  }

  lemma IsWrapped(header: seq<Byte>, data: seq<Byte>)
    ensures GzipFile(header, data) == Wrap(header, Encode(data), data)
  {
    hide Wrap;
    hide Encode;
  }

  /** The same of any stream for the data. */
  lemma WrapDecodes(header: seq<Byte>, stream: seq<Byte>, data: seq<Byte>, p: nat)
    requires Payload(Wrap(header, stream, data)) == At(|header|) && (p + 7) / 8 == |header| + |stream|
    requires var s := Wrap(header, stream, data); RefInflate(s, TrailerLimit(s), 8 * |header|, []) == Done(data, p)
    ensures var s := Wrap(header, stream, data); Content(s) == Done(data, p) && TrailerFits(s, (p + 7) / 8, data)
  {
    hide *;
    var s, i := Wrap(header, stream, data), |header| + |stream|;
    FileParts(header, stream, data);
    Word32(Crc32.Crc(data));
    Word32(|data| % W32);
    Le32Shift(s, i, Bytes32(Crc32.Crc(data)));
    Le32Shift(s, i + 4, Bytes32(|data| % W32));
    ContentIs(s, |header|);
    FitsIs(s, i, data);
  }

  lemma FileParts(header: seq<Byte>, stream: seq<Byte>, data: seq<Byte>)
    ensures Crc32.Crc(data) < W32
    ensures var s, h, e := Wrap(header, stream, data), |header|, stream;
      && |s| == h + |e| + 8 && s[h..h + |e|] == e && TrailerLimit(s) == 8 * (h + |e|)
      && s[h + |e|..h + |e| + 4] == Bytes32(Crc32.Crc(data)) && s[h + |e| + 4..h + |e| + 8] == Bytes32(|data| % W32)
  {
    hide Bytes32;
    hide Crc32.Crc;
    CrcIsWord(data);
    var c, l := Bytes32(Crc32.Crc(data)), Bytes32(|data| % W32);
    Slices(header, stream, c, l);
  }

  lemma Slices(h: seq<Byte>, e: seq<Byte>, c: seq<Byte>, l: seq<Byte>)
    requires |c| == |l| == 4
    ensures var s, i := h + (e + (c + l)), |h| + |e|;
      |s| == i + 8 && s[|h|..i] == e && s[i..i + 4] == c && s[i + 4..i + 8] == l
  {
    var s, i := h + (e + (c + l)), |h| + |e|;
    assert s == (h + e) + (c + l) && s == ((h + e) + c) + l;
    assert s[|h|..i] == e;
    assert s[i..i + 4] == c;
  }

  lemma ContentIs(s: seq<Byte>, i: nat)
    requires Payload(s) == At(i)
    ensures Content(s) == RefInflate(s, TrailerLimit(s), 8 * i, [])
  {
    hide Payload;
    hide RefInflate;
  }

  lemma FitsIs(s: seq<Byte>, i: nat, out: seq<Byte>)
    requires i + 8 <= |s| && Le32(s, i) == Crc32.Crc(out) && Le32(s, i + 4) == |out| % W32
    ensures TrailerFits(s, i, out)
  {
    hide Le32;
    hide Crc32.Crc;
  }

  /** gunzip unpacks every such file, whatever its optional fields, and returns 0. */
  method Unpack(st: State, ghost six: seq<Byte>, ghost extra: Field, ghost name: Field, ghost comment: Field,
        ghost data: seq<Byte>) returns (r: Status)
    requires |six| == 6 && (extra.Some? ==> |extra.bytes| < 0x1_0000)
    requires (name.Some? ==> HasNoZero(name.bytes)) && (comment.Some? ==> HasNoZero(comment.bytes))
    requires st.input == GzipFile(Header(six, extra, name, comment), data)
    requires st.window.Length == WSIZE && st.crcTab.Length == 256 && st.window as object != st.crcTab && st.inptr == 0
    modifies st, st.window, st.crcTab
    ensures r == Ok && st.output == data
  {
    hide *;
    ghost var h := Header(six, extra, name, comment);
    IsWrapped(h, data);
    ghost var rest := FileSplit(h, Encode(data), data);
    HeaderRoundTrip(six, extra, name, comment, rest);
    FileDecodes(h, data);
    r := Gunzip.Gunzip(st);
  }

  lemma FileSplit(header: seq<Byte>, stream: seq<Byte>, data: seq<Byte>) returns (rest: seq<Byte>)
    ensures Wrap(header, stream, data) == header + rest
  {
    CrcIsWord(data);
    rest := stream + (Bytes32(Crc32.Crc(data)) + Bytes32(|data| % W32));
  }
}
