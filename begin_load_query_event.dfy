/** BEGIN_LOAD_QUERY_EVENT: the first block of a file a LOAD DATA statement
    reads.
      payload  4 file id, then the block data to the end of the body */
module BeginLoadQueryEvents {
  import opened Wrappers
  import opened Java
  import opened ParserHelper
  import opened EventBodies

  datatype BeginLoadQueryEventBody = BeginLoadQueryEventBody(fileId: int, blockData: seq<byte>)
  {
    /** toString(). */
    function ToString(): string {
      "file_id: " + LongToString(fileId) + " block_len: " + LongToString(|blockData|)
    }
  }

  const FileIdLength: int := 4

  /** The BeginLoadQueryEvent constructor: the file id, then the bytes from
      offset 4 up to the header's event body length. That length counts the
      checksum trailer too, so the block data ends with the checksum. The
      block copy fails when the body length is below 4 or the body holds
      fewer than 4 bytes; past the end of the body it is padded with zeros. */
  function DecodeBeginLoadQuery(ctx: BodyContext): (r: Result<BeginLoadQueryEventBody>)
    ensures r.Ok? <==> FileIdLength <= |ctx.bodyData| && FileIdLength <= ctx.eventBodyLength
    ensures ctx.eventBodyLength < FileIdLength ==> r == Err(IllegalArgument)
    ensures FileIdLength <= ctx.eventBodyLength && |ctx.bodyData| < FileIdLength ==> r == Err(IndexOutOfBounds)
    ensures r.Ok? ==> UnsignedNumber(ctx.bodyData[..FileIdLength], ctx.order) == Ok(r.value.fileId)
    ensures r.Ok? ==> |r.value.blockData| == ctx.eventBodyLength - FileIdLength
    ensures r.Ok? && ctx.eventBodyLength <= |ctx.bodyData| ==>
      r.value.blockData == ctx.bodyData[FileIdLength..ctx.eventBodyLength]
  {
    var bd := ctx.bodyData;
    var fileId := GetUnsignedLongAt(bd, 0, FileIdLength, ctx.order).value;
    match CopyOfRange(bd, FileIdLength, ctx.eventBodyLength)
    case Err(e) => Err(e)
    case Ok(blockData) =>
      assert ctx.eventBodyLength <= |bd| ==> blockData == bd[FileIdLength..ctx.eventBodyLength] by {
        if ctx.eventBodyLength <= |bd| {
          CopyOfRangeInside(bd, FileIdLength, ctx.eventBodyLength);
        }
      }
      Ok(BeginLoadQueryEventBody(fileId, blockData))
  }

  /** When the body holds exactly the header's body length, the block data is
      everything after the file id, and its last checksumLength bytes are the
      body's checksum value. */
  lemma BlockDataHoldsChecksum(ctx: BodyContext)
    requires |ctx.bodyData| == ctx.eventBodyLength
    requires FileIdLength <= ctx.eventBodyLength - ctx.checksumLength && 0 < ctx.checksumLength
    ensures var r := DecodeBeginLoadQuery(ctx);
      && r.Ok? && r.value.blockData == ctx.bodyData[FileIdLength..]
      && ctx.ChecksumValue().Ok? && ctx.ChecksumValue().value.Some?
      && r.value.blockData[|r.value.blockData| - ctx.checksumLength..] == ctx.ChecksumValue().value.value
  {
    var bd := ctx.bodyData;
    var block := DecodeBeginLoadQuery(ctx).value.blockData;
    var crc := ctx.ChecksumValue().value.value;
    assert block == bd[FileIdLength..];
    assert bd[..|bd| - ctx.checksumLength] + crc == bd;
    assert crc == bd[|bd| - ctx.checksumLength..];
    assert block[|block| - ctx.checksumLength..] == bd[|bd| - ctx.checksumLength..];
  }
}
