/** What the bootstrap learns about a binlog file from its first event (byte
    order, versions, header and post-header lengths, checksum settings), the
    string-decoding settings, and the cache of table maps seen so far,
    keyed by table id. */
module FileMetas {
  import opened Wrappers
  import opened Java
  import opened ParserHelper
  import opened EventTypes
  import opened TableMaps

  /** Every binlog file starts with these four bytes. */
  const MagicNumberLength: int := 4
  const MagicNumber: seq<byte> := [0xfe, 0x62, 0x69, 0x6e]

  lemma MagicNumberShape()
    ensures |MagicNumber| == MagicNumberLength
    ensures MagicNumber[1..] == [0x62, 0x69, 0x6e]  // "bin"
  {
  }

  class BinlogFileMeta {
    const fileName: string
    const order: ByteOrder
    var createTimestamp: Option<int>          // a java.util.Date, as milliseconds
    var binlogVersion: int
    var serverVersion: Option<seq<byte>>
    var commonHeaderLength: int
    var postHeaderLengths: Option<seq<byte>>
    var checksumLength: int
    var checksumAlg: int
    var decodeString: bool
    var defaultCharsetName: string
    var tableMapEventBodys: map<int, TableMapEventBody>

    /** A meta with no settings read yet: checksum length and algorithm 0,
        strings not decoded, charset utf8 and an empty table cache. */
    constructor(fileName: string, order: ByteOrder)
      ensures this.fileName == fileName && this.order == order
      ensures createTimestamp == None && binlogVersion == 0 && serverVersion == None
      ensures commonHeaderLength == 0 && postHeaderLengths == None
      ensures checksumLength == 0 && checksumAlg == 0
      ensures !decodeString && defaultCharsetName == "utf8"
      ensures tableMapEventBodys == map[]
    {
      this.fileName := fileName;
      this.order := order;
      createTimestamp := None;
      binlogVersion := 0;
      serverVersion := None;
      commonHeaderLength := 0;
      postHeaderLengths := None;
      checksumLength := 0;
      checksumAlg := 0;
      decodeString := false;
      defaultCharsetName := "utf8";
      tableMapEventBodys := map[];
    }

    method SetCreateTimestamp(millis: int)
      modifies this
      ensures createTimestamp == Some(millis)
      ensures binlogVersion == old(binlogVersion) && serverVersion == old(serverVersion)
      ensures commonHeaderLength == old(commonHeaderLength) && postHeaderLengths == old(postHeaderLengths)
      ensures checksumLength == old(checksumLength) && checksumAlg == old(checksumAlg)
      ensures decodeString == old(decodeString) && defaultCharsetName == old(defaultCharsetName)
      ensures tableMapEventBodys == old(tableMapEventBodys)
    {
      createTimestamp := Some(millis);
    }

    method SetServerVersion(version: seq<byte>)
      modifies this
      ensures serverVersion == Some(version)
      ensures createTimestamp == old(createTimestamp) && binlogVersion == old(binlogVersion)
      ensures commonHeaderLength == old(commonHeaderLength) && postHeaderLengths == old(postHeaderLengths)
      ensures checksumLength == old(checksumLength) && checksumAlg == old(checksumAlg)
      ensures decodeString == old(decodeString) && defaultCharsetName == old(defaultCharsetName)
      ensures tableMapEventBodys == old(tableMapEventBodys)
    {
      serverVersion := Some(version);
    }

    method SetBinlogVersion(version: int)
      modifies this
      ensures binlogVersion == version
      ensures createTimestamp == old(createTimestamp) && serverVersion == old(serverVersion)
      ensures commonHeaderLength == old(commonHeaderLength) && postHeaderLengths == old(postHeaderLengths)
      ensures checksumLength == old(checksumLength) && checksumAlg == old(checksumAlg)
      ensures decodeString == old(decodeString) && defaultCharsetName == old(defaultCharsetName)
      ensures tableMapEventBodys == old(tableMapEventBodys)
    {
      binlogVersion := version;
    }

    method SetCommonHeaderLength(length: int)
      modifies this
      ensures commonHeaderLength == length
      ensures createTimestamp == old(createTimestamp) && binlogVersion == old(binlogVersion)
      ensures serverVersion == old(serverVersion) && postHeaderLengths == old(postHeaderLengths)
      ensures checksumLength == old(checksumLength) && checksumAlg == old(checksumAlg)
      ensures decodeString == old(decodeString) && defaultCharsetName == old(defaultCharsetName)
      ensures tableMapEventBodys == old(tableMapEventBodys)
    {
      commonHeaderLength := length;
    }

    method SetPostHeaderLengths(lengths: seq<byte>)
      modifies this
      ensures postHeaderLengths == Some(lengths)
      ensures createTimestamp == old(createTimestamp) && binlogVersion == old(binlogVersion)
      ensures serverVersion == old(serverVersion) && commonHeaderLength == old(commonHeaderLength)
      ensures checksumLength == old(checksumLength) && checksumAlg == old(checksumAlg)
      ensures decodeString == old(decodeString) && defaultCharsetName == old(defaultCharsetName)
      ensures tableMapEventBodys == old(tableMapEventBodys)
    {
      postHeaderLengths := Some(lengths);
    }

    method SetChecksumLength(length: int)
      modifies this
      ensures checksumLength == length
      ensures createTimestamp == old(createTimestamp) && binlogVersion == old(binlogVersion)
      ensures serverVersion == old(serverVersion) && commonHeaderLength == old(commonHeaderLength)
      ensures postHeaderLengths == old(postHeaderLengths) && checksumAlg == old(checksumAlg)
      ensures decodeString == old(decodeString) && defaultCharsetName == old(defaultCharsetName)
      ensures tableMapEventBodys == old(tableMapEventBodys)
    {
      checksumLength := length;
    }

    method SetChecksumAlg(alg: int)
      modifies this
      ensures checksumAlg == alg
      ensures createTimestamp == old(createTimestamp) && binlogVersion == old(binlogVersion)
      ensures serverVersion == old(serverVersion) && commonHeaderLength == old(commonHeaderLength)
      ensures postHeaderLengths == old(postHeaderLengths) && checksumLength == old(checksumLength)
      ensures decodeString == old(decodeString) && defaultCharsetName == old(defaultCharsetName)
      ensures tableMapEventBodys == old(tableMapEventBodys)
    {
      checksumAlg := alg;
    }

    /** decodeString(b). */
    method SetDecodeString(decode: bool)
      modifies this
      ensures decodeString == decode
      ensures createTimestamp == old(createTimestamp) && binlogVersion == old(binlogVersion)
      ensures serverVersion == old(serverVersion) && commonHeaderLength == old(commonHeaderLength)
      ensures postHeaderLengths == old(postHeaderLengths) && checksumLength == old(checksumLength)
      ensures checksumAlg == old(checksumAlg) && defaultCharsetName == old(defaultCharsetName)
      ensures tableMapEventBodys == old(tableMapEventBodys)
    {
      decodeString := decode;
    }

    /** setDefaultCharsetName(name): a null name keeps the current one. */
    method SetDefaultCharsetName(name: Option<string>)
      modifies this
      ensures defaultCharsetName == if name.Some? then name.value else old(defaultCharsetName)
      ensures createTimestamp == old(createTimestamp) && binlogVersion == old(binlogVersion)
      ensures serverVersion == old(serverVersion) && commonHeaderLength == old(commonHeaderLength)
      ensures postHeaderLengths == old(postHeaderLengths) && checksumLength == old(checksumLength)
      ensures checksumAlg == old(checksumAlg) && decodeString == old(decodeString)
      ensures tableMapEventBodys == old(tableMapEventBodys)
    {
      if name.Some? {
        defaultCharsetName := name.value;
      }
    }

    /** putTableMapEventBody(b): caches b under its table's id, replacing
        whatever was cached under that id; every other id is unchanged. */
    method PutTableMapEventBody(body: TableMapEventBody)
      modifies this
      ensures tableMapEventBodys == MapPut(old(tableMapEventBodys), body.tableDefine.tableId, body)
      ensures createTimestamp == old(createTimestamp) && binlogVersion == old(binlogVersion)
      ensures serverVersion == old(serverVersion) && commonHeaderLength == old(commonHeaderLength)
      ensures postHeaderLengths == old(postHeaderLengths) && checksumLength == old(checksumLength)
      ensures checksumAlg == old(checksumAlg) && decodeString == old(decodeString)
      ensures defaultCharsetName == old(defaultCharsetName)
    {
      tableMapEventBodys := tableMapEventBodys[body.tableDefine.tableId := body];
    }

    /** getTableMapEventBody(id): the cached body, or null for an id never put. */
    function GetTableMapEventBody(tableId: int): (r: Option<TableMapEventBody>)
      reads this
      ensures r.Some? <==> tableId in tableMapEventBodys
      ensures r.Some? ==> r.value == tableMapEventBodys[tableId]
    {
      if tableId in tableMapEventBodys then Some(tableMapEventBodys[tableId]) else None
    }

    /** getPostHeaderLength(t): the unsigned byte at index typeCode - 1 of the
        post-header table. */
    function GetPostHeaderLength(t: EventType): (r: Result<int>)
      reads this
    {
      PostHeaderLengthIn(postHeaderLengths, t)
    }

    /** getChecksumAlgName(). */
    function ChecksumAlgName(): (r: string)
      reads this
    {
      AlgName(checksumAlg)
    }
  }

  /** The post-header length of t in a post-header table: a missing table is
      a null dereference, and a type whose code is 0 or past the table's end
      is an index out of bounds. */
  function PostHeaderLengthIn(lengths: Option<seq<byte>>, t: EventType): (r: Result<int>)
    ensures lengths.None? ==> r == Err(NullPointer)
    ensures lengths.Some? ==>
      (r.Ok? <==> 1 <= Code(t) <= |lengths.value|)
      && (r.Ok? ==> r.value == lengths.value[Code(t) - 1] && 0 <= r.value < 256)
      && (r.Err? ==> r.error == IndexOutOfBounds)
  {
    match lengths
    case None => Err(NullPointer)
    case Some(table) =>
      var index := Code(t) - 1;
      if 0 <= index < |table| then Ok(table[index]) else Err(IndexOutOfBounds)
  }

  /** UNKNOWN_EVENT has code 0, so it has no entry in any table. */
  lemma UnknownHasNoPostHeader(lengths: seq<byte>)
    ensures PostHeaderLengthIn(Some(lengths), UnknownEvent) == Err(IndexOutOfBounds)
  {
  }

  /** The name getChecksumAlgName gives an algorithm number. */
  function AlgName(alg: int): (r: string)
    ensures alg == 0 ==> r == "NONE"
    ensures alg == 1 ==> r == "CRC32"
    ensures alg != 0 && alg != 1 ==> r == "UNKNOWN{" + LongToString(alg) + "}"
  {
    if alg == 0 then "NONE"
    else if alg == 1 then "CRC32"
    else "UNKNOWN{" + LongToString(alg) + "}"
  }

  /** The three kinds of name are told apart by their first letter, so the
      name determines the algorithm number. */
  lemma AlgNameInjective(a: int, b: int)
    requires IsInt(a) && IsInt(b) && AlgName(a) == AlgName(b)
    ensures a == b
  {
    if a != 0 && a != 1 && b != 0 && b != 1 {
      var ta, tb := LongToString(a), LongToString(b);
      assert "UNKNOWN{" + ta + "}" == "UNKNOWN{" + tb + "}";
      assert ta == ("UNKNOWN{" + ta + "}")[8..|ta| + 8];
      assert tb == ("UNKNOWN{" + tb + "}")[8..|tb| + 8];
      ParseLongToString(a);
      ParseLongToString(b);
    } else {
      assert AlgName(a)[0] == AlgName(b)[0];
      assert AlgName(a)[1] == AlgName(b)[1];
    }
  }
}
