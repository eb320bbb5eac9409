/** Where the decoder departs from the layout MySQL writes, side by side:
    for each departure, a lemma exhibiting the decoder's reading on an input
    that shows it, and the intended reading with the property it was meant
    to have. */
module Corrections {
  import opened Wrappers
  import opened Java
  import opened ParserHelper
  import opened RowImages
  import opened ColumnValues
  import opened TableMaps
  import opened RowsEvents
  import opened PreviousGtidsEvents

  // ------------------------------------------------------------ the table map's nullability bitmap

  /** The bytes of a bitmap with one bit per column, as MySQL sizes the
      table map's nullability bitmap: (count + 7) / 8. */
  function NullBitmapBytes(count: nat): nat {
    (count + 7) / 8
  }

  /** (count + 7) / 8 is the fewest bytes that hold count bits. */
  lemma NullBitmapBytesLeast(count: nat)
    ensures 8 * NullBitmapBytes(count) >= count
    ensures NullBitmapBytes(count) > 0 ==> 8 * (NullBitmapBytes(count) - 1) < count
  {
  }

  /** The decoder's (count + 8) / 7 is never shorter than the bitmap, so
      it copies every bitmap byte, but for 20 columns it copies 4 bytes
      where MySQL wrote 3, and the optional metadata starts one byte late. */
  lemma NullableLengthOverreads(count: nat)
    requires count < 0x7fff_fff8
    ensures NullableLength(count) >= NullBitmapBytes(count)
    ensures NullableLength(20) == 4 && NullBitmapBytes(20) == 3
  {
    var q := (count + 8) / 7;
    assert 7 * q + 7 > count + 8;
    assert 8 * q + 8 > count + 7;
  }

  // ------------------------------------------------------------ eight-byte unsigned reads

  /** The unsigned value of 1 to 8 bytes in the given order: the value of
      the bytes taken least significant first, whatever their length. */
  function UnsignedValue(bytes: seq<byte>, order: ByteOrder): (r: Result<nat>)
    ensures r.Ok? <==> 1 <= |bytes| <= 8
    ensures r.Ok? ==> r.value < Pow256(|bytes|)
  {
    if |bytes| == 0 || |bytes| > 8 then Err(NumberFormat)
    else Ok(LittleEndianValue(Ordered(bytes, order)))
  }

  /** Below eight bytes getUnsignedNumber already reads this way. */
  lemma UnsignedValueBelowEight(bytes: seq<byte>, order: ByteOrder)
    requires |bytes| < 8
    ensures UnsignedValue(bytes, order) == UnsignedNumber(bytes, order)
  {
  }

  /** A rotate event's position, written as eight little-endian bytes,
      reads back as itself, followed by any name. */
  lemma RotatePositionRoundTrip(position: nat, name: seq<byte>)
    requires position < Pow256(8)
    ensures UnsignedValue((EncodeLittleEndian(position, 8) + name)[..8], LittleEndian) == Ok(position)
  {
    var e := EncodeLittleEndian(position, 8);
    assert (e + name)[..8] == e;
    DecodeEncodeLittleEndian(position, 8);
  }

  /** Position 4 written little-endian: getUnsignedNumber reads the first
      byte as the most significant and gets 4 * 2^56. */
  lemma RotatePositionFourMisread()
    ensures UnsignedNumber([4, 0, 0, 0, 0, 0, 0, 0], LittleEndian) == Ok(4 * Pow256(7))
    ensures UnsignedValue([4, 0, 0, 0, 0, 0, 0, 0], LittleEndian) == Ok(4)
  {
    var bs: seq<byte> := [4, 0, 0, 0, 0, 0, 0, 0];
    LeadingByteMisread(bs);
    LeadingByteValue(bs);
  }

  /** The same bytes read least significant first: the first byte's value. */
  lemma LeadingByteValue(bs: seq<byte>)
    requires |bs| == 8 && forall i :: 1 <= i < 8 ==> bs[i] == 0
    ensures UnsignedValue(bs, LittleEndian) == Ok(bs[0] as nat)
  {
    ZerosValue(bs[1..]);
  }

  /** Eight bytes of which only the first is set: getUnsignedNumber takes
      that byte as the most significant one. */
  lemma LeadingByteMisread(bs: seq<byte>)
    requires |bs| == 8 && forall i :: 1 <= i < 8 ==> bs[i] == 0
    ensures UnsignedNumber(bs, LittleEndian) == Ok(bs[0] * Pow256(7))
  {
    var z := bs[1..];
    ReversedZeros(z);
    assert Reversed(bs) == z + [bs[0]];
    TopByteValue(z, bs[0]);
    assert Pow256(7) * bs[0] == bs[0] * Pow256(7);
  }

  lemma ReversedZeros(zs: seq<byte>)
    requires forall i :: 0 <= i < |zs| ==> zs[i] == 0
    ensures Reversed(zs) == zs
  {
    if zs != [] {
      ReversedZeros(zs[1..]);
      assert zs == zs[1..] + [zs[0]];
    }
  }

  lemma ZerosValue(zs: seq<byte>)
    requires forall i :: 0 <= i < |zs| ==> zs[i] == 0
    ensures LittleEndianValue(zs) == 0
  {
    if zs != [] {
      ZerosValue(zs[1..]);
    }
  }

  /** Zero bytes and then b: the value b * 256^|z|. */
  lemma TopByteValue(z: seq<byte>, b: byte)
    requires forall i :: 0 <= i < |z| ==> z[i] == 0
    ensures LittleEndianValue(z + [b]) == Pow256(|z|) * b
  {
    var s := z + [b];
    LittleEndianSplitLast(s);
    assert s[..|s| - 1] == z && s[|s| - 1] == b;
    ZerosValue(z);
  }

  // ------------------------------------------------------------ packed integers

  /** A length-encoded integer at from: a marker below 0xFB is the value
      itself; 0xFC, 0xFD and 0xFE announce 2, 3 and 8 little-endian bytes
      after the marker. The value and the bytes taken, marker included. */
  function PackedIntegerAt(buffer: seq<byte>, from: int): (r: Result<(nat, nat)>)
    ensures r.Ok? ==> r.value.1 >= 1
  {
    if !(0 <= from < |buffer|) then Err(IndexOutOfBounds)
    else
      var marker := buffer[from];
      var n := PackedIntegerLength(marker);
      if n == -1 then Err(NumberFormat)
      else if n == 1 then Ok((marker as nat, 1))
      else if from + 1 + n > |buffer| then Err(IndexOutOfBounds)
      else Ok((LittleEndianValue(buffer[from + 1..from + 1 + n]), 1 + n))
  }

  /** The length-encoded form of n. */
  function EncodePackedInteger(n: nat): (r: seq<byte>)
    requires n < Pow256(8)
    ensures 1 <= |r| <= 9
  {
    if n < 0xFB then [n as byte]
    else if n < 0x1_0000 then [0xFC] + EncodeLittleEndian(n, 2)
    else if n < 0x100_0000 then [0xFD] + EncodeLittleEndian(n, 3)
    else [0xFE] + EncodeLittleEndian(n, 8)
  }

  /** Every length-encoded integer reads back as itself, and the reader
      takes exactly its bytes, whatever follows. */
  lemma PackedIntegerRoundTrip(n: nat, rest: seq<byte>)
    requires n < Pow256(8)
    ensures PackedIntegerAt(EncodePackedInteger(n) + rest, 0) == Ok((n, |EncodePackedInteger(n)|))
  {
    var e := EncodePackedInteger(n);
    var b := e + rest;
    assert Pow256(2) == 0x1_0000 && Pow256(3) == 0x100_0000;
    if n >= 0xFB {
      var k := |e| - 1;
      assert b[1..1 + k] == e[1..];
      DecodeEncodeLittleEndian(n, k);
    }
  }

  /** A column count of 300, packed as 0xFC 0x2C 0x01: the decoder reads
      the marker and the first byte after it, 11516. */
  lemma PackedCountOf300Misread()
    ensures EncodePackedInteger(300) == [0xFC, 0x2C, 0x01]
    ensures GetPackedInteger([0xFC, 0x2C, 0x01], 0) == Ok([0xFC, 0x2C])
    ensures GetUnsignedInteger([0xFC, 0x2C], LittleEndian) == Ok(11516)
    ensures PackedIntegerAt([0xFC, 0x2C, 0x01], 0) == Ok((300, 3))
  {
    assert Pow256(2) == 0x1_0000;
    var bs: seq<byte> := [0xFC, 0x2C, 0x01];
    PackedIntegerRoundTrip(300, []);
    assert bs + [] == bs;
    PackedIntegerTwoByteQuirk([0xFC, 0x2C, 0x01], 0);
  }

  // ------------------------------------------------------------ INT24 and TIME

  /** An INT24 (or old TIME) column as MySQL stores it: three little-endian
      bytes, signed. */
  function Int24Cell(bodyData: seq<byte>, pos: int): (r: Result<Cell>)
    ensures r.Ok? ==> r.value.next == pos + 3
  {
    if !(0 <= pos && pos + 3 <= |bodyData|) then Err(IndexOutOfBounds)
    else Ok(Cell(Some(IntValue(SignedNumber(bodyData[pos..pos + 3], LittleEndian).value)), pos + 3))
  }

  /** The three bytes of a 24-bit signed value. */
  function EncodeInt24(x: int): (r: seq<byte>)
    requires -0x80_0000 <= x < 0x80_0000
    ensures |r| == 3
  {
    assert Pow256(3) == 0x100_0000;
    EncodeLittleEndian(if x < 0 then x + 0x100_0000 else x, 3)
  }

  /** Every 24-bit value reads back as itself, and the next column starts
      right after its three bytes. */
  lemma Int24RoundTrip(front: seq<byte>, x: int, rest: seq<byte>)
    requires -0x80_0000 <= x < 0x80_0000
    ensures Int24Cell(front + EncodeInt24(x) + rest, |front|) == Ok(Cell(Some(IntValue(x)), |front| + 3))
  {
    var e := EncodeInt24(x);
    var b := front + e + rest;
    assert b[|front|..|front| + 3] == e;
    var u := if x < 0 then x + 0x100_0000 else x;
    assert Pow256(3) == 0x100_0000 && Pow256(2) == 0x1_0000;
    DecodeEncodeLittleEndian(u, 3);
    LittleEndianSplitLast(e);
    TwosComplementStep(e[2], 0x1_0000, LittleEndianValue(e[..2]));
  }

  lemma ThreeBytesValue()
    ensures SignedNumber([1, 0, 0], LittleEndian) == Ok(1)
  {
    var bs: seq<byte> := [1, 0, 0];
    assert Ordered(bs, LittleEndian) == bs;
    assert bs[..2] == [1, 0] && bs[..2][1..] == [0] && bs[..2][1..][1..] == [];
    assert LittleEndianValue(bs[..2]) == 1;
    assert SignedByte(0) == 0;
  }

  lemma FourBytesValue()
    ensures SignedNumber([1, 0, 0, 5], LittleEndian) == Ok(1 + 5 * 0x100_0000)
  {
    var bs: seq<byte> := [1, 0, 0, 5];
    assert Ordered(bs, LittleEndian) == bs;
    var low := bs[..3];
    assert low == [1, 0, 0] && low[1..] == [0, 0];
    ZerosValue(low[1..]);
    assert LittleEndianValue(low) == 1;
    assert Pow256(3) == 0x100_0000;
    assert SignedByte(5) == 5;
  }

  /** An INT24 column holding 1 followed by a TINY column holding 5: the
      decoder reads four bytes, folds the 5 into the INT24's value and
      starts the next column past it. */
  lemma Int24ReadsNextColumn()
    ensures IntegerWidth(0x09) == 4
    ensures IntCell([1, 0, 0, 5], 0, IntegerWidth(0x09), LittleEndian)
         == Ok(Cell(Some(IntValue(1 + 5 * 0x100_0000)), 4))
    ensures Int24Cell([1, 0, 0, 5], 0) == Ok(Cell(Some(IntValue(1)), 3))
  {
    var bs: seq<byte> := [1, 0, 0, 5];
    IntCellValue(bs, 0, 4, LittleEndian);
    assert bs[0..4] == bs && bs[0..3] == [1, 0, 0];
    FourBytesValue();
    ThreeBytesValue();
  }

  // ------------------------------------------------------------ the after-image bitmap of updates

  /** Where the row images start: UPDATE_ROWS_EVENT carries a second
      columns-present bitmap, for the after-images, right after the first. */
  function RowImagesStart(head: RowsHead, isUpdate: bool): int {
    if isUpdate then head.next + BitmapLength(head.columnCount) else head.next
  }

  /** An update body laid out as the head, the two bitmaps, then the row
      images: the images start right after the second bitmap. */
  lemma UpdateImagesFollowBothBitmaps(bodyData: seq<byte>, head: RowsHead, front: seq<byte>,
                                      bitmap1: seq<byte>, bitmap2: seq<byte>, images: seq<byte>)
    requires bodyData == front + bitmap1 + bitmap2 + images
    requires head.next == |front| + |bitmap1|
    requires |bitmap2| == BitmapLength(head.columnCount)
    ensures 0 <= RowImagesStart(head, true) <= |bodyData|
    ensures bodyData[RowImagesStart(head, true)..] == images
  {
    assert bodyData[|front| + |bitmap1| + |bitmap2|..] == images;
  }

  /** In the same body the decoder starts the row images at the head's end,
      so the first image's null bitmap is copied from the second bitmap. */
  lemma FirstImageReadsBitmap2(bodyData: seq<byte>, head: RowsHead, front: seq<byte>,
                               bitmap1: seq<byte>, bitmap2: seq<byte>, images: seq<byte>)
    requires bodyData == front + bitmap1 + bitmap2 + images
    requires head.next == |front| + |bitmap1|
    ensures CopyOfRange(bodyData, head.next, head.next + |bitmap2|) == Ok(bitmap2)
  {
    assert bodyData[head.next..head.next + |bitmap2|] == bitmap2;
    CopyOfRangeInside(bodyData, head.next, head.next + |bitmap2|);
  }

  // ------------------------------------------------------------ previous GTIDs

  /** The intervals of one SID, "start-end" each, separated by ':'. */
  function SidIntervalsText(ivs: seq<Interval>): string
    decreases |ivs|
  {
    if ivs == [] then ""
    else if |ivs| == 1 then IntervalRange(ivs[0])
    else SidIntervalsText(ivs[..|ivs| - 1]) + ":" + IntervalRange(ivs[|ivs| - 1])
  }

  /** One entry per SID, each holding that SID's own intervals only. */
  function SidEntries(sids: seq<SidBlock>): (r: seq<string>)
    requires UuidsRead(sids)
    ensures |r| == |sids|
    decreases |sids|
  {
    if sids == [] then []
    else SidEntries(sids[..|sids| - 1]) + [Entry(sids[|sids| - 1].uuid, SidIntervalsText(sids[|sids| - 1].intervals))]
  }

  /** The previous-GTIDs set MySQL means: the SIDs the body holds, read as
      the decoder reads them, each rendered on its own. */
  function IntendedPreviousGtidSet(bodyData: seq<byte>): (r: Result<seq<string>>)
    ensures r.Ok? ==> |r.value| == Max(GtidCount(bodyData), 0)
  {
    var sids :- ReadSids(bodyData, SidCountLength, GtidCount(bodyData));
    Ok(SidEntries(sids.0))
  }

  /** The occurrences of c in s. */
  function Occurrences(s: string, c: char): nat
    decreases |s|
  {
    if s == [] then 0 else Occurrences(s[..|s| - 1], c) + (if s[|s| - 1] == c then 1 else 0)
  }

  lemma {:induction false} OccurrencesConcat(a: string, b: string, c: char)
    ensures Occurrences(a + b, c) == Occurrences(a, c) + Occurrences(b, c)
    decreases |b|
  {
    if b != [] {
      assert (a + b)[..|a + b| - 1] == a + b[..|b| - 1];
      OccurrencesConcat(a, b[..|b| - 1], c);
    } else {
      assert a + b == a;
    }
  }

  lemma {:induction false} DigitsHaveNoColon(s: string)
    requires AllDigits(s)
    ensures Occurrences(s, ':') == 0
    decreases |s|
  {
    if s != [] {
      DigitsHaveNoColon(s[..|s| - 1]);
    }
  }

  lemma DecimalHasNoColon(x: int)
    ensures Occurrences(LongToString(x), ':') == 0
  {
    if x < 0 {
      DigitsHaveNoColon(NatToString(-x));
      OccurrencesConcat("-", NatToString(-x), ':');
      assert Occurrences("-", ':') == 0 by {
        assert "-"[..0] == "";
      }
    } else {
      DigitsHaveNoColon(NatToString(x));
    }
  }

  lemma RangeHasNoColon(iv: Interval)
    ensures Occurrences(IntervalRange(iv), ':') == 0
  {
    DecimalHasNoColon(iv.start);
    DecimalHasNoColon(iv.end);
    OccurrencesConcat(LongToString(iv.start), "-", ':');
    OccurrencesConcat(LongToString(iv.start) + "-", LongToString(iv.end), ':');
    assert Occurrences("-", ':') == 0 by {
      assert "-"[..0] == "";
    }
  }

  /** A SID's intervals are separated by exactly one ':' each: n intervals
      hold n - 1 of them. */
  lemma {:induction false} SidIntervalsSeparated(ivs: seq<Interval>)
    requires ivs != []
    ensures Occurrences(SidIntervalsText(ivs), ':') == |ivs| - 1
    decreases |ivs|
  {
    var last := ivs[|ivs| - 1];
    RangeHasNoColon(last);
    if |ivs| > 1 {
      var init := ivs[..|ivs| - 1];
      SidIntervalsSeparated(init);
      OccurrencesConcat(SidIntervalsText(init), ":", ':');
      OccurrencesConcat(SidIntervalsText(init) + ":", IntervalRange(last), ':');
      assert Occurrences(":", ':') == 1 by {
        assert ":"[..0] == "";
      }
    }
  }

  /** Each entry is its SID's uuid and its SID's intervals alone. */
  lemma {:induction false} SidEntryOwn(sids: seq<SidBlock>, k: nat)
    requires UuidsRead(sids) && k < |sids|
    ensures SidEntries(sids)[k] == Entry(sids[k].uuid, SidIntervalsText(sids[k].intervals))
    decreases |sids|
  {
    var init := sids[..|sids| - 1];
    if k < |sids| - 1 {
      assert UuidsRead(init) by {
        forall m | 0 <= m < |init| ensures |init[m].uuid| == UuidLength {
          assert init[m] == sids[m];
        }
      }
      SidEntryOwn(init, k);
      assert init[k] == sids[k];
    }
  }

  /** A body written from SIDs decodes to each SID's own entry. */
  lemma DecodeEncodeIntended(sids: seq<SidBlock>)
    requires SidsFit(sids)
    ensures UuidsRead(sids)
    ensures IntendedPreviousGtidSet(EncodePreviousGtids(sids)) == Ok(SidEntries(sids))
  {
    var bd := EncodePreviousGtids(sids);
    var es := EncodeSids(sids);
    SliceOfConcat(bd, 0, 8, |bd|, EncodeLong(|sids|), es);
    ReadLongEncoded(bd, 0, |sids|);
    ReadSidsEncoded(bd, 8, |bd|, sids);
  }

  /** The single SID of SingleSidRunsTogether, its intervals now apart. */
  lemma SingleSidSeparated(uuid: seq<byte>)
    requires |uuid| == UuidLength
    ensures SidEntries([SidBlock(uuid, [Interval(1, 5), Interval(7, 9)])])
         == [FormattedUuid(uuid).value + ":" + "1-5:7-9"]
  {
    var ivs := [Interval(1, 5), Interval(7, 9)];
    assert ivs[..1] == [Interval(1, 5)];
    assert NatToString(1) == "1" && NatToString(5) == "5";
    assert NatToString(7) == "7" && NatToString(9) == "9";
    assert SidIntervalsText(ivs) == "1-5:7-9";
    var sids := [SidBlock(uuid, ivs)];
    assert sids[..0] == [];
  }
}
