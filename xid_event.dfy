/** XID_EVENT: the transaction id written at a COMMIT.
      payload  8 xid */
module XidEvents {
  import opened Wrappers
  import opened Java
  import opened ParserHelper
  import opened EventBodies

  datatype XidEventBody = XidEventBody(xid: int)
  {
    /** toString(). */
    function ToString(): (r: string)
      ensures |r| == |LongToString(xid)| + 7
      ensures r[..6] == "Xid = " && r[|r| - 1] == '\n'
      ensures r[6..|r| - 1] == LongToString(xid)
    {
      "Xid = " + LongToString(xid) + "\n"
    }
  }

  const XidLength: int := 8

  /** The eight bytes the xid is read from: past the end of a short body the
      copy is padded with zeros. */
  function XidBytes(bodyData: seq<byte>): (r: seq<byte>)
    ensures |r| == XidLength
    ensures |bodyData| >= XidLength ==> r == bodyData[..XidLength]
    ensures |bodyData| < XidLength ==> r == bodyData + Zeros(XidLength - |bodyData|)
  {
    var raw := CopyOfRange(bodyData, 0, XidLength).value;
    CopyOfRangeContents(bodyData, 0, XidLength);
    raw
  }

  /** The XidEventBody constructor. It always succeeds: the copy is taken
      from offset 0 and padded, and the value is decoded BIG_ENDIAN whatever
      the file's byte order. getUnsignedLong reverses big-endian input and
      then hands the eight bytes to a most-significant-first BigInteger, so
      the two reversals cancel and the xid is the eight bytes read least
      significant byte first, as a long. */
  function DecodeXid(ctx: BodyContext): (r: XidEventBody)
    ensures IsLong(r.xid)
    ensures r.xid == Int64(LittleEndianValue(XidBytes(ctx.bodyData)))
  {
    var raw := XidBytes(ctx.bodyData);
    ReversedTwice(raw);
    XidEventBody(GetUnsignedLong(raw, BigEndian).value)
  }

  /** The xid does not depend on the file's byte order. */
  lemma XidIgnoresOrder(ctx: BodyContext, order: ByteOrder)
    ensures DecodeXid(ctx.(order := order)) == DecodeXid(ctx)
  {
  }

  /** Only the first eight bytes count: what follows (the checksum trailer)
      never changes the xid. */
  lemma XidIgnoresRest(bodyData: seq<byte>, rest: seq<byte>, ctx: BodyContext)
    requires |bodyData| >= XidLength && ctx.bodyData == bodyData + rest
    ensures DecodeXid(ctx).xid == DecodeXid(ctx.(bodyData := bodyData)).xid
  {
    assert (bodyData + rest)[..XidLength] == bodyData[..XidLength];
  }

  /** Writing a long as eight little-endian bytes and decoding the body gives
      the long back. */
  lemma XidRoundTrip(x: int, ctx: BodyContext)
    requires IsLong(x)
    requires ctx.bodyData == EncodeLittleEndian(x % Pow256(XidLength), XidLength)
    ensures DecodeXid(ctx).xid == x
  {
    var v := x % Pow256(XidLength);
    assert Pow256(8) == 0x1_0000_0000_0000_0000;
    DecodeEncodeLittleEndian(v, XidLength);
    assert XidBytes(ctx.bodyData) == ctx.bodyData;
    Int64OfUnsigned(x);
  }

  /** The number in the text is the xid: reading the digits between
      "Xid = " and the newline gives it back. */
  lemma XidTextRoundTrip(e: XidEventBody)
    requires IsLong(e.xid)
    ensures var s := e.ToString(); ParseLong(s[6..|s| - 1]) == Ok(e.xid)
  {
    ParseLongToString(e.xid);
  }
}
