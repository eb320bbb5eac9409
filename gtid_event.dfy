/** GTID_LOG_EVENT and ANONYMOUS_GTID_LOG_EVENT: the global transaction id
    of the transaction that follows, and its logical clock.
      1 flags, 16 sid (the server uuid), 8 gno (the transaction number),
      1 lt_type, 8 last_committed, 8 sequence_number, then optionally
      7 immediate commit timestamp, 1 skipped byte and the transaction
      length up to the checksum */
module GtidEvents {
  import opened Wrappers
  import opened Java
  import opened ParserHelper
  import opened EventBodies
  import opened Gtids

  datatype GtidLogEventBody = GtidLogEventBody(
    flags: int,
    sid: seq<byte>,
    gno: seq<byte>,
    ltType: int,
    lastCommitted: int,
    sequenceNumber: int,
    immediateTimestamp: Option<seq<byte>>,
    originalTimestamp: Option<seq<byte>>,
    transactionLength: int)

  const SidStart: int := 1
  const GnoStart: int := 17
  const LtTypeStart: int := 25
  const LastCommittedStart: int := 26
  const SequenceNumberStart: int := 34
  const FixedPartLength: int := 42
  const TimestampLength: int := 7

  /** The int difference the constructor tests for the optional part. */
  function RemainBytes(ctx: BodyContext): int {
    Int32(ctx.BodyDataLength() - FixedPartLength)
  }

  /** The constructor reads the timestamps and the transaction length when
      9 to 16 bytes are left before the checksum. */
  predicate HasTransactionLength(ctx: BodyContext) {
    9 <= RemainBytes(ctx) <= 16
  }

  /** The layout of a GTID event body holding e. The fixed part must lie in
      the body, except that the sequence number may run into the copy's
      zero padding; the two 8-byte clock values are decoded BIG_ENDIAN,
      which counts their bytes least significant first. Both timestamps are
      the immediate one, and the transaction length is the file-order
      unsigned decode of the bytes from 50 to the body data length. */
  predicate GtidEventEncodes(ctx: BodyContext, e: GtidLogEventBody) {
    var bd := ctx.bodyData;
    && SequenceNumberStart <= |bd|
    && e.flags == SignedByte(bd[0])
    && e.sid == bd[SidStart..GnoStart]
    && e.gno == bd[GnoStart..LtTypeStart]
    && e.ltType == SignedByte(bd[LtTypeStart])
    && e.lastCommitted == Int64(LittleEndianValue(bd[LastCommittedStart..SequenceNumberStart]))
    && e.sequenceNumber == Int64(LittleEndianValue(CopyOfRange(bd, SequenceNumberStart, FixedPartLength).value))
    && if HasTransactionLength(ctx) then
         && FixedPartLength + TimestampLength + 1 <= |bd|
         && e.immediateTimestamp == Some(bd[FixedPartLength..FixedPartLength + TimestampLength])
         && e.originalTimestamp == e.immediateTimestamp
         && e.transactionLength == GetUnsignedLong(CopyOfRange(bd, 50, ctx.BodyDataLength()).value, ctx.order).value
       else
         e.immediateTimestamp == None && e.originalTimestamp == None && e.transactionLength == 0
  }

  /** The test on the int difference holds exactly for body data lengths 51
      to 58, so the transaction length has 1 to 8 bytes. */
  lemma TransactionLengthWidth(ctx: BodyContext)
    ensures HasTransactionLength(ctx) <==> 51 <= ctx.BodyDataLength() <= 58
  {
    var d := ctx.BodyDataLength() - FixedPartLength;
    if IsInt(d) {
      Int32Identity(d);
    } else {
      assert d < -0x8000_0000;
      assert Int32(d) == d + 0x1_0000_0000;
    }
  }

  /** The GtidLogEventBody constructor: the fields at a moving position, as
      in GtidEventEncodes. It fails exactly when the body holds no such
      event, always with an index out of bounds. */
  method DecodeGtidEvent(ctx: BodyContext) returns (r: Result<GtidLogEventBody>)
    ensures r.Ok? ==> GtidEventEncodes(ctx, r.value)
    ensures r.Err? ==> r.error == IndexOutOfBounds && forall e :: !GtidEventEncodes(ctx, e)
  {
    var head := ReadGtidFixedPart(ctx.bodyData, ctx.order);
    if head.Err? {
      return Err(head.error);
    }
    var h := head.value;
    var pos := FixedPartLength;
    var remainBytes := Int32(ctx.BodyDataLength() - pos);
    var immediate, original, transactionLength := None, None, 0;
    if 9 <= remainBytes <= 16 {
      TransactionLengthWidth(ctx);
      var ts :- CopyOfRange(ctx.bodyData, pos, pos + TimestampLength);
      pos := pos + TimestampLength;
      immediate := Some(ts);
      original := immediate;
      pos := pos + 1;
      var rawTransactionLength :- CopyOfRange(ctx.bodyData, pos, ctx.BodyDataLength());
      transactionLength := GetUnsignedLong(rawTransactionLength, ctx.order).value;
      CopyOfRangeInside(ctx.bodyData, FixedPartLength, FixedPartLength + TimestampLength);
    }
    r := Ok(h.(immediateTimestamp := immediate, originalTimestamp := original, transactionLength := transactionLength));
  }

  /** The fixed part, up to the sequence number; the optional fields of the
      result are left empty. */
  method ReadGtidFixedPart(bodyData: seq<byte>, order: ByteOrder) returns (r: Result<GtidLogEventBody>)
    ensures r.Ok? <==> SequenceNumberStart <= |bodyData|
    ensures r.Err? ==> r.error == IndexOutOfBounds
    ensures r.Ok? ==> var e := r.value;
      && e.flags == SignedByte(bodyData[0])
      && e.sid == bodyData[SidStart..GnoStart]
      && e.gno == bodyData[GnoStart..LtTypeStart]
      && e.ltType == SignedByte(bodyData[LtTypeStart])
      && e.lastCommitted == Int64(LittleEndianValue(bodyData[LastCommittedStart..SequenceNumberStart]))
      && e.sequenceNumber == Int64(LittleEndianValue(CopyOfRange(bodyData, SequenceNumberStart, FixedPartLength).value))
      && e.immediateTimestamp == None && e.originalTimestamp == None && e.transactionLength == 0
  {
    var bd := bodyData;
    var pos := 0;
    // the copy starts at 0 and is padded, so this read never fails
    var flags := GetIntegerAt(bd, pos, pos + 1, order).value;
    pos := pos + 1;
    var sid :- CopyOfRange(bd, pos, pos + 16);
    pos := pos + 16;
    var gno :- CopyOfRange(bd, pos, pos + 8);
    pos := pos + 8;
    var lt :- CopyOfRange(bd, pos, pos + 1);
    var ltType := SignedByte(lt[0]);
    pos := pos + 1;
    var rawLastCommit :- CopyOfRange(bd, pos, pos + 8);
    var lastCommit := GetUnsignedLong(rawLastCommit, BigEndian).value;
    pos := pos + 8;
    var rawSequenceNumber :- CopyOfRange(bd, pos, pos + 8);
    var sequenceNumber := GetUnsignedLong(rawSequenceNumber, BigEndian).value;
    FixedPartRead(bd, order);
    r := Ok(GtidLogEventBody(flags, sid, gno, ltType, lastCommit, sequenceNumber, None, None, 0));
  }

  /** The copies of the fixed part, once the body reaches the sequence number. */
  lemma FixedPartRead(bd: seq<byte>, order: ByteOrder)
    requires SequenceNumberStart <= |bd|
    ensures GetIntegerAt(bd, 0, 1, order) == Ok(SignedByte(bd[0]))
    ensures CopyOfRange(bd, SidStart, GnoStart) == Ok(bd[SidStart..GnoStart])
    ensures CopyOfRange(bd, GnoStart, LtTypeStart) == Ok(bd[GnoStart..LtTypeStart])
    ensures CopyOfRange(bd, LtTypeStart, LtTypeStart + 1).value[0] == bd[LtTypeStart]
    ensures GetUnsignedLong(CopyOfRange(bd, LastCommittedStart, SequenceNumberStart).value, BigEndian)
         == Ok(Int64(LittleEndianValue(bd[LastCommittedStart..SequenceNumberStart])))
    ensures GetUnsignedLong(CopyOfRange(bd, SequenceNumberStart, FixedPartLength).value, BigEndian)
         == Ok(Int64(LittleEndianValue(CopyOfRange(bd, SequenceNumberStart, FixedPartLength).value)))
  {
    CopyOfRangeInside(bd, SidStart, GnoStart);
    CopyOfRangeInside(bd, GnoStart, LtTypeStart);
    OneByteCopy(bd, LtTypeStart);
    CopyOfRangeInside(bd, LastCommittedStart, SequenceNumberStart);
    EightBytesBigEndian(bd[LastCommittedStart..SequenceNumberStart]);
    EightBytesBigEndian(CopyOfRange(bd, SequenceNumberStart, FixedPartLength).value);
  }

  /** A body holds at most one such event. */
  lemma GtidEventEncodingUnique(ctx: BodyContext, a: GtidLogEventBody, b: GtidLogEventBody)
    requires GtidEventEncodes(ctx, a) && GtidEventEncodes(ctx, b)
    ensures a == b
  {
  }

  /** The clock values round-trip: a long written as its eight bytes least
      significant first is read back. */
  lemma LastCommittedRoundTrip(ctx: BodyContext, e: GtidLogEventBody, x: int)
    requires GtidEventEncodes(ctx, e) && IsLong(x)
    requires ctx.bodyData[LastCommittedStart..SequenceNumberStart]
          == EncodeLittleEndian(x % 0x1_0000_0000_0000_0000, 8)
    ensures e.lastCommitted == x
  {
    assert Pow256(8) == 0x1_0000_0000_0000_0000;
    DecodeEncodeLittleEndian(x % 0x1_0000_0000_0000_0000, 8);
    Int64OfUnsigned(x);
  }

  /** With at most 7 bytes of transaction length inside the body, the
      transaction length is their plain unsigned value. */
  lemma TransactionLengthValue(ctx: BodyContext, e: GtidLogEventBody)
    requires GtidEventEncodes(ctx, e) && HasTransactionLength(ctx)
    requires ctx.BodyDataLength() <= |ctx.bodyData| && ctx.BodyDataLength() < 58
    ensures e.transactionLength == UnsignedNumber(ctx.bodyData[50..ctx.BodyDataLength()], ctx.order).value
  {
    TransactionLengthWidth(ctx);
    CopyOfRangeInside(ctx.bodyData, 50, ctx.BodyDataLength());
    NarrowUnsignedLong(ctx.bodyData[50..ctx.BodyDataLength()], ctx.order);
  }

  // ------------------------------------------------------------ derived views

  /** The uuid text the four inserts make of a hex string: dashes before the
      chars at 8, 12, 16 and 20. */
  function Dashed(h: string): (r: string)
    requires |h| >= 20
    ensures |r| == |h| + 4
  {
    h[..8] + "-" + h[8..12] + "-" + h[12..16] + "-" + h[16..20] + "-" + h[20..]
  }

  /** getUUID(): the lower-cased hex of the sid, with '-' inserted at 8, 13,
      18 and 23. An empty sid has no hex string (null), and a sid shorter
      than 10 bytes makes one of the inserts run past the end. */
  method GetUuid(sid: seq<byte>) returns (r: Result<string>)
    ensures r.Ok? <==> |sid| >= 10
    ensures sid == [] ==> r == Err(NullPointer)
    ensures 0 < |sid| < 10 ==> r == Err(IndexOutOfBounds)
    ensures r.Ok? ==> r.value == Dashed(ToLower(HexText(sid)))
    ensures |sid| == 16 ==> r == FormattedUuid(sid)
  {
    var hex := GetHexString(sid);
    if hex.None? {
      return Err(NullPointer);
    }
    var uuid := ToLower(hex.value);
    var u1 :- Insert(uuid, 8, '-');
    var u2 :- Insert(u1, 13, '-');
    var u3 :- Insert(u2, 18, '-');
    var u4 :- Insert(u3, 23, '-');
    InsertsMakeDashed(uuid, u1, u2, u3, u4);
    if |sid| == 16 {
      FormattedIsDashed(sid);
    }
    r := Ok(u4);
  }

  /** The four inserts at 8, 13, 18 and 23 put the dashes where Dashed does. */
  lemma InsertsMakeDashed(h: string, u1: string, u2: string, u3: string, u4: string)
    requires |h| >= 20
    requires Insert(h, 8, '-') == Ok(u1) && Insert(u1, 13, '-') == Ok(u2)
    requires Insert(u2, 18, '-') == Ok(u3) && Insert(u3, 23, '-') == Ok(u4)
    ensures u4 == Dashed(h)
  {
    assert u1 == h[..8] + "-" + h[8..];
    assert u2 == h[..8] + "-" + h[8..12] + "-" + h[12..];
    assert u3 == h[..8] + "-" + h[8..12] + "-" + h[12..16] + "-" + h[16..];
  }

  /** For a 16-byte sid getUUID and getFormattedUuid agree: lower-casing
      commutes with the dashes. */
  lemma FormattedIsDashed(sid: seq<byte>)
    requires |sid| == 16
    ensures FormattedUuid(sid) == Ok(Dashed(ToLower(HexText(sid))))
  {
    var h := HexText(sid);
    assert |h| == 32;
    DashedGroups(h);
    LowerDashed(h);
  }

  /** Of 32 hex digits, the groups 8-4-4-4-12 joined by dashes are Dashed. */
  lemma DashedGroups(h: string)
    requires |h| == 32
    ensures h[0..8] + "-" + h[8..12] + "-" + h[12..16] + "-" + h[16..20] + "-" + h[20..32] == Dashed(h)
  {
    assert h[20..32] == h[20..];
  }

  lemma LowerDashed(h: string)
    requires |h| >= 20
    ensures ToLower(Dashed(h)) == Dashed(ToLower(h))
  {
    var a, b := ToLower(Dashed(h)), Dashed(ToLower(h));
    forall k | 0 <= k < |a| ensures a[k] == b[k] {
      if k < 8 {
      } else if k == 8 || k == 13 || k == 18 || k == 23 {
      } else if k < 13 {
        assert Dashed(h)[k] == h[k - 1];
      } else if k < 18 {
        assert Dashed(h)[k] == h[k - 2];
      } else if k < 23 {
        assert Dashed(h)[k] == h[k - 3];
      } else {
        assert Dashed(h)[k] == h[k - 4];
      }
    }
  }

  /** getTransactionId(): the gno as a signed long in the file's order. */
  function TransactionId(e: GtidLogEventBody, order: ByteOrder): (r: Result<int>)
    ensures r.Ok? <==> 1 <= |e.gno| <= 8
    ensures 1 <= |e.gno| <= 8 ==> r == SignedNumber(e.gno, order)
  {
    assert 1 <= |e.gno| <= 8 ==> GetLong(e.gno, order) == SignedNumber(e.gno, order) by {
      if 1 <= |e.gno| <= 8 {
        SignedLongView(e.gno, order);
      }
    }
    GetLong(e.gno, order)
  }

  /** getGtid(): "uuid:transaction id", the id printed as a signed long (it
      is negative when its top bit is set). For a decoded event it succeeds,
      and whenever the transaction id is not negative the Gtid constructor
      parses the text back into the uuid and the id. */
  method GetGtid(e: GtidLogEventBody, order: ByteOrder) returns (r: Result<string>)
    ensures |e.sid| == 16 && |e.gno| == 8 ==> r.Ok?
    ensures r.Ok? ==> |e.sid| >= 10 && TransactionId(e, order).Ok?
    ensures r.Ok? ==>
      r.value == Dashed(ToLower(HexText(e.sid))) + ":" + LongToString(TransactionId(e, order).value)
    ensures |e.sid| == 16 && |e.gno| == 8 && TransactionId(e, order).value >= 0 ==>
      ParseGtid(r.value) == Ok(Gtid(FormattedUuid(e.sid).value, TransactionId(e, order).value))
  {
    var uuid :- GetUuid(e.sid);
    var id :- TransactionId(e, order);
    r := Ok(uuid + ":" + LongToString(id));
    if |e.sid| == 16 && |e.gno| == 8 && id >= 0 {
      FormattedUuidIsUuidText(e.sid);
      ParseGtidCanonical(uuid, id);
    }
  }

  /** getCommittedTimestamp(ts): the timestamp with a zero byte appended,
      decoded BIG_ENDIAN, split into seconds and microseconds. Without a
      timestamp passing it throws a null pointer exception; more than 7
      bytes make the decode throw. */
  function CommittedTimestamp(ts: Option<seq<byte>>): (r: Result<(int, int)>)
    ensures ts.None? ==> r == Err(NullPointer)
    ensures ts.Some? ==> (r.Ok? <==> |ts.value| <= 7)
    ensures r.Ok? ==> 0 <= r.value.1 < 1000000 && r.value.0 >= 0
  {
    match ts
    case None => Err(NullPointer)
    case Some(t) =>
      var padded := t + [0];
      match GetUnsignedLong(padded, BigEndian)
      case Err(e) => Err(e)
      case Ok(tsValue) =>
        assert tsValue >= 0 by {
          UnsignedLongView(padded, BigEndian);
          assert Pow256(8) == 0x1_0000_0000_0000_0000;
          UnsignedNumberPadded(t);
        }
        Ok((tsValue / 1000000, tsValue % 1000000))
  }

  /** The padded decode: for 7 bytes the bytes least significant first (the
      microseconds as MySQL writes them); for fewer, the bytes most
      significant first, shifted up one byte. Either way below 2^56. */
  lemma UnsignedNumberPadded(t: seq<byte>)
    requires |t| <= 7
    ensures UnsignedNumber(t + [0], BigEndian).value
         == if |t| == 7 then LittleEndianValue(t) else 256 * BigEndianValue(t)
    ensures UnsignedNumber(t + [0], BigEndian).value < 0x100_0000_0000_0000
  {
    if |t| == 7 {
      PaddedSeven(t);
    } else {
      PaddedShort(t);
    }
  }

  lemma PaddedSeven(t: seq<byte>)
    requires |t| == 7
    ensures UnsignedNumber(t + [0], BigEndian).value == LittleEndianValue(t) < 0x100_0000_0000_0000
  {
    var padded := t + [0];
    assert UnsignedNumber(padded, BigEndian).value == LittleEndianValue(Reversed(Reversed(padded)));
    ReversedTwice(padded);
    LittleEndianPadded(t);
    assert Pow256(7) == 0x100_0000_0000_0000;
  }

  lemma PaddedShort(t: seq<byte>)
    requires |t| < 7
    ensures UnsignedNumber(t + [0], BigEndian).value == 256 * BigEndianValue(t) < 0x100_0000_0000_0000
  {
    var padded := t + [0];
    assert UnsignedNumber(padded, BigEndian).value == LittleEndianValue(Reversed(padded));
    ReversedAppend(t, 0);
    var rt := Reversed(t);
    assert ([0] + rt)[1..] == rt;
    assert LittleEndianValue([0] + rt) == 256 * LittleEndianValue(rt);
    Pow256Monotone(|t|, 6);
    assert Pow256(6) == 0x1_0000_0000_0000;
  }

  /** A zero byte at the top does not change a little-endian value. */
  lemma {:induction false} LittleEndianPadded(t: seq<byte>)
    ensures LittleEndianValue(t + [0]) == LittleEndianValue(t)
  {
    if t != [] {
      assert (t + [0])[1..] == t[1..] + [0];
      LittleEndianPadded(t[1..]);
    }
  }

  /** A 7-byte timestamp of m microseconds gives m back as seconds and
      microseconds. */
  lemma CommittedTimestampRoundTrip(m: nat)
    requires m < 0x100_0000_0000_0000
    ensures var r := CommittedTimestamp(Some(EncodeLittleEndian(m, 7)));
      r.Ok? && r.value.0 * 1000000 + r.value.1 == m
  {
    assert Pow256(7) == 0x100_0000_0000_0000;
    var t := EncodeLittleEndian(m, 7);
    DecodeEncodeLittleEndian(m, 7);
    UnsignedNumberPadded(t);
    var padded := t + [0];
    UnsignedLongView(padded, BigEndian);
    assert Pow256(8) == 0x1_0000_0000_0000_0000;
  }
}
