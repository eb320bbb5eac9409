/** What every event body shares: the body bytes, the lengths that locate
    the checksum trailer, and the slice-and-decode helpers the decoders call. */
module EventBodies {
  import opened Wrappers
  import opened Java
  import opened ParserHelper

  /** An undecoded body: the bytes read for it, the header's body length,
      and the file's checksum length and byte order. */
  datatype BodyContext = BodyContext(
    bodyData: seq<byte>,
    eventBodyLength: int,
    checksumLength: int,
    order: ByteOrder)
  {
    /** getBodyDataLength: the body less its checksum trailer (int arithmetic). */
    function BodyDataLength(): (r: int)
      ensures IsInt(r)
      ensures IsInt(eventBodyLength - checksumLength) ==> r + checksumLength == eventBodyLength
    {
      Int32(eventBodyLength - checksumLength)
    }

    /** getChecksumValue: the last checksumLength bytes of the body, or null
        when there is no checksum. A trailer longer than the body starts
        before index 0 and throws. */
    function ChecksumValue(): (r: Result<Option<seq<byte>>>)
      ensures checksumLength <= 0 ==> r == Ok(None)
      ensures checksumLength > |bodyData| ==> r == Err(IndexOutOfBounds)
      ensures 0 < checksumLength <= |bodyData| ==>
        r.Ok? && r.value.Some? && |r.value.value| == checksumLength
        && bodyData[..|bodyData| - checksumLength] + r.value.value == bodyData
    {
      if checksumLength > 0 then
        var crc :- CopyOfRange(bodyData, |bodyData| - checksumLength, |bodyData|);
        Ok(Some(crc))
      else Ok(None)
    }
  }

  /** getUnsignedLong(bytes, from, to): an unsigned decode of
      `copyOfRange(bytes, from, to)` in the file's byte order. It succeeds
      when from lies in bytes and the width is 1 to 8; up to 7 bytes inside
      bytes it is their plain unsigned value. */
  function GetUnsignedLongAt(bytes: seq<byte>, from: int, to: int, order: ByteOrder): (r: Result<int>)
    ensures r.Ok? <==> 0 <= from <= |bytes| && from < to <= from + 8
    ensures from <= to && !(0 <= from <= |bytes|) ==> r == Err(IndexOutOfBounds)
    ensures r.Ok? ==> IsLong(r.value)
    ensures 0 <= from && to <= |bytes| && from < to <= from + 7 ==> r == UnsignedNumber(bytes[from..to], order)
  {
    match CopyOfRange(bytes, from, to)
    case Err(e) => Err(e)
    case Ok(raw) =>
      assert 0 <= from && to <= |bytes| && from < to <= from + 7 ==>
        GetUnsignedLong(raw, order) == UnsignedNumber(bytes[from..to], order) by {
        if 0 <= from && to <= |bytes| && from < to <= from + 7 {
          CopyOfRangeInside(bytes, from, to);
          NarrowUnsignedLong(raw, order);
        }
      }
      GetUnsignedLong(raw, order)
  }

  /** getUnsignedInteger(bytes, from, to): the same in int arithmetic; up to
      3 bytes inside bytes it is their plain unsigned value, and one byte
      just past the end reads as the padding 0. */
  function GetUnsignedIntegerAt(bytes: seq<byte>, from: int, to: int, order: ByteOrder): (r: Result<int>)
    ensures r.Ok? <==> 0 <= from <= |bytes| && from < to <= from + 8
    ensures from <= to && !(0 <= from <= |bytes|) ==> r == Err(IndexOutOfBounds)
    ensures r.Ok? ==> IsInt(r.value)
    ensures 0 <= from && to <= |bytes| && from < to <= from + 3 ==> r == UnsignedNumber(bytes[from..to], order)
    ensures 0 <= from <= |bytes| && to == from + 1 ==> r == Ok(if from < |bytes| then bytes[from] as int else 0)
  {
    match CopyOfRange(bytes, from, to)
    case Err(e) => Err(e)
    case Ok(raw) =>
      assert 0 <= from && to <= |bytes| && from < to <= from + 3 ==>
        GetUnsignedInteger(raw, order) == UnsignedNumber(bytes[from..to], order) by {
        if 0 <= from && to <= |bytes| && from < to <= from + 3 {
          CopyOfRangeInside(bytes, from, to);
          NarrowUnsigned(raw, order);
        }
      }
      assert 0 <= from <= |bytes| && to == from + 1 ==>
        GetUnsignedInteger(raw, order) == Ok(if from < |bytes| then bytes[from] as int else 0) by {
        if 0 <= from <= |bytes| && to == from + 1 {
          OneByteCopy(bytes, from);
          UnsignedOneByte(raw[0], order);
        }
      }
      GetUnsignedInteger(raw, order)
  }

  /** The one-byte copy at from holds bytes[from], or the padding 0 at the end. */
  lemma OneByteCopy(bytes: seq<byte>, from: int)
    requires 0 <= from <= |bytes|
    ensures CopyOfRange(bytes, from, from + 1) == Ok([if from < |bytes| then bytes[from] else 0])
  {
    if from < |bytes| {
      CopyOfRangeInside(bytes, from, from + 1);
      assert bytes[from..from + 1] == [bytes[from]];
    } else {
      assert bytes[from..] + Zeros(1) == [0];
    }
  }

  /** getInteger(bytes, from, to): a signed decode in int arithmetic; up to 4
      bytes inside bytes it is their plain two's-complement value. */
  function GetIntegerAt(bytes: seq<byte>, from: int, to: int, order: ByteOrder): (r: Result<int>)
    ensures r.Ok? <==> 0 <= from <= |bytes| && from < to <= from + 8
    ensures from <= to && !(0 <= from <= |bytes|) ==> r == Err(IndexOutOfBounds)
    ensures r.Ok? ==> IsInt(r.value)
    ensures 0 <= from && to <= |bytes| && from < to <= from + 4 ==> r == SignedNumber(bytes[from..to], order)
    ensures 0 <= from <= |bytes| && to == from + 1 ==> r == Ok(if from < |bytes| then SignedByte(bytes[from]) else 0)
  {
    match CopyOfRange(bytes, from, to)
    case Err(e) => Err(e)
    case Ok(raw) =>
      assert 0 <= from && to <= |bytes| && from < to <= from + 4 ==>
        GetInteger(raw, order) == SignedNumber(bytes[from..to], order) by {
        if 0 <= from && to <= |bytes| && from < to <= from + 4 {
          CopyOfRangeInside(bytes, from, to);
          NarrowSigned(raw, order);
        }
      }
      assert 0 <= from <= |bytes| && to == from + 1 ==>
        GetInteger(raw, order) == Ok(if from < |bytes| then SignedByte(bytes[from]) else 0) by {
        if 0 <= from <= |bytes| && to == from + 1 {
          OneByteCopy(bytes, from);
          SignedOneByte(raw[0], order);
        }
      }
      GetInteger(raw, order)
  }

  /** getLong(bytes, from, to): a signed decode in long arithmetic; inside
      bytes it is their plain two's-complement value at every width. */
  function GetLongAt(bytes: seq<byte>, from: int, to: int, order: ByteOrder): (r: Result<int>)
    ensures r.Ok? <==> 0 <= from <= |bytes| && from < to <= from + 8
    ensures from <= to && !(0 <= from <= |bytes|) ==> r == Err(IndexOutOfBounds)
    ensures r.Ok? ==> IsLong(r.value)
    ensures 0 <= from && to <= |bytes| && from < to <= from + 8 ==> r == SignedNumber(bytes[from..to], order)
  {
    match CopyOfRange(bytes, from, to)
    case Err(e) => Err(e)
    case Ok(raw) =>
      assert 0 <= from && to <= |bytes| && from < to <= from + 8 ==>
        GetLong(raw, order) == SignedNumber(bytes[from..to], order) by {
        if 0 <= from && to <= |bytes| && from < to <= from + 8 {
          CopyOfRangeInside(bytes, from, to);
          SignedLongView(raw, order);
        }
      }
      GetLong(raw, order)
  }

  /** getNulTerminatedString(bytes, from, to): the slice getNulTerminatedString
      selects; when that is null (from >= to), taking its length throws. */
  function NulTerminatedText(bytes: seq<byte>, from: int, to: int): (r: Result<seq<byte>>)
    ensures from >= to ==> r == Err(NullPointer)
    ensures r.Ok? <==> NulTerminatedSlice(bytes, from, to).Ok? && from < to
    ensures r.Err? ==> NulTerminatedSlice(bytes, from, to).Err? || NulTerminatedSlice(bytes, from, to).value.None?
    ensures r.Ok? ==>
      && NulTerminatedSlice(bytes, from, to) == Ok(Some(r.value))
      && 1 <= |r.value| <= to - from && r.value == bytes[from..from + |r.value|]
  {
    var raw :- NulTerminatedSlice(bytes, from, to);
    if raw.None? then Err(NullPointer)
    else
      NulTerminatedSliceShape(bytes, from, to);
      Ok(raw.value)
  }
}
