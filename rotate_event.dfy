/** ROTATE_EVENT: the last event of a binlog file, naming the next one.
      post-header  from binlog version 2 on, 8 position
      payload      the next binlog's name, up to the checksum */
module RotateEvents {
  import opened Wrappers
  import opened Java
  import opened ParserHelper
  import opened EventBodies

  datatype RotateEventBody = RotateEventBody(position: int, nextBinlogName: seq<byte>)

  const PositionLength: int := 8

  /** Where the name starts: after the position when there is one. */
  function NameStart(binlogVersion: int): (r: int)
    ensures r == 0 || r == PositionLength
    ensures r == PositionLength <==> binlogVersion > 1
  {
    if binlogVersion > 1 then PositionLength else 0
  }

  /** b is what the constructor reads from ctx: the name is the bytes from
      the name's start up to the body data length (zero-padded past the end
      of the body), and the position is -1 before binlog version 2 and the
      unsigned long of the first eight bytes from version 2 on. */
  predicate RotateEncodes(ctx: BodyContext, binlogVersion: int, b: RotateEventBody) {
    var start, until := NameStart(binlogVersion), ctx.BodyDataLength();
    && start <= |ctx.bodyData| && start <= until
    && CopyOfRange(ctx.bodyData, start, until) == Ok(b.nextBinlogName)
    && (binlogVersion <= 1 ==> b.position == -1)
    && (binlogVersion > 1 ==> b.position == GetUnsignedLong(ctx.bodyData[..PositionLength], ctx.order).value)
  }

  /** The RotateEventBody constructor. From binlog version 2 on the position
      is the unsigned decode of the first eight bytes; before that it is -1
      and the name starts at offset 0. The name runs up to the body data
      length, so it leaves the checksum trailer out. The name copy fails when
      its start lies past the body data length or past the body. */
  method DecodeRotate(ctx: BodyContext, binlogVersion: int) returns (r: Result<RotateEventBody>)
    ensures var start, until := NameStart(binlogVersion), ctx.BodyDataLength();
      && (r.Ok? <==> start <= |ctx.bodyData| && start <= until)
      && (start > until ==> r == Err(IllegalArgument))
      && (start <= until && start > |ctx.bodyData| ==> r == Err(IndexOutOfBounds))
      && (r.Ok? ==> |r.value.nextBinlogName| == until - start)
      && (r.Ok? && until <= |ctx.bodyData| ==> r.value.nextBinlogName == ctx.bodyData[start..until])
    ensures r.Ok? && binlogVersion <= 1 ==> r.value.position == -1
    ensures r.Ok? && binlogVersion > 1 ==>
      IsLong(r.value.position)
      && SameBits64(UnsignedNumber(ctx.bodyData[..PositionLength], ctx.order).value, r.value.position)
    ensures r.Ok? ==> RotateEncodes(ctx, binlogVersion, r.value)
  {
    var bd := ctx.bodyData;
    var pos := 0;
    var position := -1;
    if binlogVersion > 1 {
      // the copy is padded, so the read itself never fails
      var raw := CopyOfRange(bd, pos, pos + PositionLength).value;
      position := GetUnsignedLong(raw, ctx.order).value;
      pos := pos + PositionLength;
      if pos <= |bd| {
        CopyOfRangeInside(bd, 0, PositionLength);
      }
    }
    var name := CopyOfRange(bd, pos, ctx.BodyDataLength());
    if name.Err? {
      return Err(name.error);
    }
    if ctx.BodyDataLength() <= |bd| {
      CopyOfRangeInside(bd, pos, ctx.BodyDataLength());
    }
    r := Ok(RotateEventBody(position, name.value));
  }

  /** In a little-endian file the eight position bytes are read with the
      first byte most significant: getUnsignedLong hands eight bytes to a
      big-endian BigInteger without reversing them for little-endian input. */
  lemma PositionReadMostSignificantFirst(bodyData: seq<byte>)
    requires PositionLength <= |bodyData|
    ensures UnsignedNumber(bodyData[..PositionLength], LittleEndian).value
         == LittleEndianValue(Reversed(bodyData[..PositionLength]))
  {
  }

  /** The name and the checksum trailer together make up the rest of a body
      that holds exactly the header's body length. */
  lemma NameThenChecksum(ctx: BodyContext, start: int, name: seq<byte>)
    requires |ctx.bodyData| == ctx.eventBodyLength && IsInt(ctx.eventBodyLength) && 0 < ctx.checksumLength
    requires 0 <= start <= ctx.eventBodyLength - ctx.checksumLength
    requires name == ctx.bodyData[start..ctx.BodyDataLength()]
    ensures ctx.ChecksumValue().Ok? && ctx.ChecksumValue().value.Some?
    ensures name + ctx.ChecksumValue().value.value == ctx.bodyData[start..]
  {
    var bd := ctx.bodyData;
    var crc := ctx.ChecksumValue().value.value;
    assert bd[..|bd| - ctx.checksumLength] + crc == bd;
    assert crc == bd[|bd| - ctx.checksumLength..];
  }
}
