# BinlogMiner core, modelled in Dafny

BinlogMiner reads MySQL binary log files, event by event, and turns the row
events into redo and undo SQL. This project models the decoding core of that
library and proves properties of the model:

- **Primitive decoding** (`ParserHelper`, `Java`): unsigned and
  two's-complement integers of 1 to 8 bytes in either byte order, packed
  (length-encoded) integers and strings, NUL-terminated slices, version
  comparison, padding and hex text, and the temporal unpackers. Java's
  `int`/`long` wrap-around is written out where a value decoded from the
  data is added to a position or sign-converted, and `Arrays.copyOfRange`
  keeps its zero padding and its exceptions. Java exceptions become the
  `Error` case of a `Result`.
- **The mapped file cursor** (`MappedBuffer`): a class holding the file's
  bytes, its byte order and a position that every read advances.
- **Event types, headers and the file meta** (`EventTypes`, `EventHeaders`,
  `FileMetas`): the type-code table, the v1 (13-byte) and v4 (19-byte) common
  header, and the per-file settings with the table-map cache.
- **The bootstrap** (`ParserBuilders`): the magic number check, then either
  START_EVENT_V3 or FORMAT_DESCRIPTION_EVENT. The latter gives the
  post-header table and the checksum length.
- **The event iterator** (`BinlogParsers`): it reads a header, decodes the
  body when the type filter lets it through, caches TABLE_MAP bodies, and
  always moves on to the header's next position.
- **The body factory and the body decoders** (`EventBodyFactory`,
  `EventBodies`, and one module per event body): query,
  execute-load-query, user variable, rotate, XID, begin-load-query, stop,
  GTID, previous GTIDs, table map with its optional metadata, and rows
  events. Rows events cover every column type (`ColumnValues`), with
  DECIMAL in `Decimals`.
- **The helpers those decoders fill**: `ColumnDefines`, `TableDefines`,
  `RowImages`, and the text form of a GTID (`Gtids`).
- **The SQL builder** (`RowsSql`): the redo/undo statement pairs of WRITE,
  UPDATE and DELETE rows events.

Parts of the source that update objects in place are classes with
`modifies` clauses: the buffer, the header, the file meta, the table define,
the row image, the parser and the builder. Decoders that advance a position
cursor are methods, each proved against a specification function. For each
body there is a layout predicate (`…Encodes`/`…Layout`) that says which
bytes hold which field. Lemmas give the round trips, the if-and-only-if
conditions for success, and the invariants the operations keep.

Where the decoder departs from the layout MySQL writes, the decoder
modules follow the code as written. The `Corrections` module sets each
intended reading beside it, and "## Findings" lists both halves.

## Model

| member | source | states |
|---|---|---|
| ParserHelper.ReversedTwice | src/org/littlestar/mysql/binlog/parser/ParserHelper.java:39-48 | reversing the bytes twice gives them back, so getReverse loses nothing |
| ParserHelper.GetReverse | src/org/littlestar/mysql/binlog/parser/ParserHelper.java:39-48 | a fresh array holding the input's bytes in reverse order |
| ParserHelper.DecodeEncodeLittleEndian | src/org/littlestar/mysql/binlog/parser/ParserHelper.java:186-234 | the n-byte little-endian encoding of a value below 256^n reads back as that value |
| ParserHelper.EncodeDecodeLittleEndian | src/org/littlestar/mysql/binlog/parser/ParserHelper.java:186-234 | re-encoding the little-endian value of a byte string gives the same bytes |
| ParserHelper.SignedNumber | src/org/littlestar/mysql/binlog/parser/ParserHelper.java:186-209 | the signed decode succeeds exactly for one to eight bytes; any other length throws NumberFormatException |
| ParserHelper.UnsignedNumber | src/org/littlestar/mysql/binlog/parser/ParserHelper.java:211-234 | the unsigned decode succeeds exactly for one to eight bytes, is below 256^n, and otherwise throws NumberFormatException |
| ParserHelper.SignedIsTwosComplement | src/org/littlestar/mysql/binlog/parser/ParserHelper.java:50-177 | the signed decode is the two's-complement reading of the ordered bytes: the unsigned value less 256^n exactly when the top bit is set, lying in [-256^n/2, 256^n/2) |
| ParserHelper.UnsignedNumberValue | src/org/littlestar/mysql/binlog/parser/ParserHelper.java:55-184 | one to seven bytes read the ordered bytes little endian; eight bytes hand them to BigInteger, which reads them big endian |
| ParserHelper.UnsignedNumberRoundTrip | src/org/littlestar/mysql/binlog/parser/ParserHelper.java:211-234 | for one to seven bytes, decoding an encoding made in the same byte order gives the value back |
| ParserHelper.UnsignedLongOrderSwapped | src/org/littlestar/mysql/binlog/parser/ParserHelper.java:179-184 | a witness of the swap: 01 followed by seven zeros read LITTLE_ENDIAN gives 2^56, as do the reversed bytes read BIG_ENDIAN |
| ParserHelper.UnsignedLongSwapped | src/org/littlestar/mysql/binlog/parser/ParserHelper.java:179-184 | for every eight bytes, the LITTLE_ENDIAN read is their big-endian value, equal to the BIG_ENDIAN read of the reversed bytes |
| ParserHelper.ByteInteger | src/org/littlestar/mysql/binlog/parser/ParserHelper.java:236-238 | a byte read as a Java byte: the value itself or the value less 256, within [-128, 128) |
| ParserHelper.GetInteger | src/org/littlestar/mysql/binlog/parser/ParserHelper.java:244-246 | succeeds exactly for one to eight bytes, and is the signed decode cut to its low 32 bits as a Java int |
| ParserHelper.GetUnsignedInteger | src/org/littlestar/mysql/binlog/parser/ParserHelper.java:248-250 | succeeds exactly for one to eight bytes, and is the unsigned decode cut to its low 32 bits as a Java int |
| ParserHelper.GetLong | src/org/littlestar/mysql/binlog/parser/ParserHelper.java:252-254 | succeeds exactly for one to eight bytes, and is the signed decode cut to its low 64 bits as a Java long |
| ParserHelper.GetUnsignedLong | src/org/littlestar/mysql/binlog/parser/ParserHelper.java:256-258 | succeeds exactly for one to eight bytes, and is the unsigned decode cut to its low 64 bits as a Java long |
| ParserHelper.UnsignedIntegerView | src/org/littlestar/mysql/binlog/parser/ParserHelper.java:248-250 | up to four bytes, the int view is the unsigned value, made negative by 2^32 exactly when it is 2^31 or more |
| ParserHelper.UnsignedLongView | src/org/littlestar/mysql/binlog/parser/ParserHelper.java:256-258 | the long view is the unsigned value, made negative by 2^64 exactly when it is 2^63 or more |
| ParserHelper.SignedLongView | src/org/littlestar/mysql/binlog/parser/ParserHelper.java:252-254 | the long view of a signed decode is the signed value itself at every width |
| ParserHelper.EightBytesBigEndian | src/org/littlestar/mysql/binlog/parser/ParserHelper.java:179-184 | eight bytes read BIG_ENDIAN give the long view of their little-endian value |
| ParserHelper.NarrowUnsigned | src/org/littlestar/mysql/binlog/parser/ParserHelper.java:248-258 | up to three bytes, the int and long views of the unsigned decode are the value itself |
| ParserHelper.NarrowUnsignedLong | src/org/littlestar/mysql/binlog/parser/ParserHelper.java:256-258 | up to seven bytes, the long view of the unsigned decode is the value itself |
| ParserHelper.NarrowSigned | src/org/littlestar/mysql/binlog/parser/ParserHelper.java:244-254 | up to four bytes, the int and long views of the signed decode are the value itself |
| ParserHelper.PackedIntegerLength | src/org/littlestar/mysql/binlog/parser/ParserHelper.java:404-417 | the announced length is one of -1, 1, 2, 3 and 8; it is -1 exactly for 0xFB and 0xFF, and 1 exactly below 0xFB |
| ParserHelper.GetPackedInteger | src/org/littlestar/mysql/binlog/parser/ParserHelper.java:425-428 | succeeds exactly when from indexes the buffer and the marker is not 0xFB or 0xFF; the slice has the announced length and starts at the marker byte |
| ParserHelper.PackedIntegerOneByte | src/org/littlestar/mysql/binlog/parser/ParserHelper.java:404-428 | a marker below 0xFB is a one-byte packed integer whose value is the marker |
| ParserHelper.PackedIntegerTwoByteQuirk | src/org/littlestar/mysql/binlog/parser/ParserHelper.java:404-428 | a 0xFC marker yields the slice [0xFC, next byte], which reads as 0xFC + 256 * next byte |
| ParserHelper.GetPackedString | src/org/littlestar/mysql/binlog/parser/ParserHelper.java:459-469 | succeeds exactly when the prefix reads, the data starts inside the array, the length is non-negative and the int sum `pos += stringLength` stays at or below Integer.MAX_VALUE; the data is exactly that many bytes after the prefix and consumed counts both; a failed prefix is the string's error |
| Java.IntAdvance | src/org/littlestar/mysql/binlog/parser/ParserHelper.java:465 | `pos += n` on a non-negative int position keeps the sum while it fits in an int, and past Integer.MAX_VALUE wraps below the position, so the copy that follows throws |
| ParserHelper.PackedStringShort | src/org/littlestar/mysql/binlog/parser/ParserHelper.java:459-469 | in a Java array, with a one-byte prefix n, the string is the n bytes after the prefix and 1 + n bytes are consumed |
| ParserHelper.NulScanEnd | src/org/littlestar/mysql/binlog/parser/ParserHelper.java:474-487 | the scan stops one past the first 0x00 or at the bound, sees no 0x00 before that, and throws when it reads outside the array |
| ParserHelper.NulTerminatedSliceShape | src/org/littlestar/mysql/binlog/parser/ParserHelper.java:474-487 | null exactly when from >= to; otherwise a prefix of bytes[from..to) with no 0x00 except possibly its last byte, stopping short of to only at a 0x00 |
| ParserHelper.GetNulTerminatedString | src/org/littlestar/mysql/binlog/parser/ParserHelper.java:474-487 | the eofPos loop computes NulTerminatedSlice |
| ParserHelper.ParseIntOrZero | src/org/littlestar/mysql/binlog/parser/ParserHelper.java:391-397 | Integer.parseInt when it succeeds, 0 when it throws; always a Java int |
| ParserHelper.ComparePartsFrom | src/org/littlestar/mysql/binlog/parser/ParserHelper.java:371-389 | the comparison of the version parts is -1, 0 or 1 |
| ParserHelper.CompareVersionAntisymmetric | src/org/littlestar/mysql/binlog/parser/ParserHelper.java:371-389 | swapping the two versions negates the result, and a version compares equal to itself |
| ParserHelper.CompareVersionEqual | src/org/littlestar/mysql/binlog/parser/ParserHelper.java:371-389 | two versions compare equal exactly when every part agrees, a missing part counting as 0 |
| ParserHelper.CompareVersion | src/org/littlestar/mysql/binlog/parser/ParserHelper.java:371-389 | the loop computes the specified comparison, and the result is -1, 0 or 1 |
| ParserHelper.CompareParts | src/org/littlestar/mysql/binlog/parser/ParserHelper.java:377-388 | the loop over the two part lists computes the part comparison from index 0 |
| ParserHelper.LeftPad | src/org/littlestar/mysql/binlog/parser/ParserHelper.java:430-437 | the result is max(len, \|s\|) long, ends with s, and every character before s is the pad |
| ParserHelper.Lpad | src/org/littlestar/mysql/binlog/parser/ParserHelper.java:430-437 | the StringBuilder loop computes LeftPad |
| ParserHelper.LeftPadUnique | src/org/littlestar/mysql/binlog/parser/ParserHelper.java:430-437 | every string of that length that ends with s after pads is the left padding |
| ParserHelper.FixedLengthString | src/org/littlestar/mysql/binlog/parser/ParserHelper.java:524-526 | the decimal text of the value, padded to at least len characters |
| ParserHelper.ByteToHex | src/org/littlestar/mysql/binlog/parser/ParserHelper.java:303-305 | one hex digit below 16, otherwise two |
| ParserHelper.HexOfByte | src/org/littlestar/mysql/binlog/parser/ParserHelper.java:307-313 | one digit only for a byte below 16 without lpad, otherwise two |
| ParserHelper.HexTextRoundTrip | src/org/littlestar/mysql/binlog/parser/ParserHelper.java:315-329 | the hex text of bytes reads back as the same bytes |
| ParserHelper.GetHexString | src/org/littlestar/mysql/binlog/parser/ParserHelper.java:315-329 | null for an empty array, otherwise the two padded upper-case digits of every byte in turn |
| ParserHelper.FormattedUuid | src/org/littlestar/mysql/binlog/parser/ParserHelper.java:712-717 | succeeds exactly when at least 16 bytes are given; fewer throw at substring |
| ParserHelper.FormattedUuidShape | src/org/littlestar/mysql/binlog/parser/ParserHelper.java:712-717 | the text is 36 characters, '-' at 8, 13, 18 and 23 and lower-case hex digits elsewhere |
| ParserHelper.FormattedUuidIsUuidText | src/org/littlestar/mysql/binlog/parser/ParserHelper.java:712-717 | the formatted UUID is UUID text |
| ParserHelper.ToBinaryString | src/org/littlestar/mysql/binlog/parser/ParserHelper.java:439-443 | Integer.toBinaryString yields at least one digit |
| ParserHelper.ToBinaryStringLength | src/org/littlestar/mysql/binlog/parser/ParserHelper.java:439-443 | a value below 2^n has at most n binary digits, so lpad to 8 makes exactly eight |
| ParserHelper.BinaryStringLength | src/org/littlestar/mysql/binlog/parser/ParserHelper.java:445-454 | the binary text has exactly eight digits per byte |
| ParserHelper.DateV1 | src/org/littlestar/mysql/binlog/parser/ParserHelper.java:514-522 | succeeds exactly for one to eight bytes |
| ParserHelper.DateV1Fields | src/org/littlestar/mysql/binlog/parser/ParserHelper.java:514-522 | a non-negative packed date gives year v / 512, month (v / 32) % 16 and day v % 32 |
| ParserHelper.TimeV1 | src/org/littlestar/mysql/binlog/parser/ParserHelper.java:537-562 | succeeds exactly for one to eight bytes |
| ParserHelper.TimeV1WithinDay | src/org/littlestar/mysql/binlog/parser/ParserHelper.java:537-562 | a value within one day splits into hours below 24, minutes and seconds below 60 that add back to it |
| ParserHelper.TimeOfIntWithinDay | src/org/littlestar/mysql/binlog/parser/ParserHelper.java:545-561 | the same split stated on the int value |
| ParserHelper.TimeOfIntMinValue | src/org/littlestar/mysql/binlog/parser/ParserHelper.java:545-561 | a witness: for the smallest int, the int subtraction wraps, giving 24858 hours, 14 minutes and 8 seconds |
| ParserHelper.TimeV2 | src/org/littlestar/mysql/binlog/parser/ParserHelper.java:576-598 | succeeds exactly for at least three bytes; the sign is always 1 because the string test uses ==; hour below 1024, minute and second below 64 |
| ParserHelper.DateTimeV1 | src/org/littlestar/mysql/binlog/parser/ParserHelper.java:606-629 | succeeds exactly when both ints are one to eight bytes |
| ParserHelper.DateTimeV1Fields | src/org/littlestar/mysql/binlog/parser/ParserHelper.java:606-629 | YYYYMMDD and HHMMSS give back year, day, hour and second, while month and minute keep their factor 100 |
| ParserHelper.DateTimeV2 | src/org/littlestar/mysql/binlog/parser/ParserHelper.java:637-665 | succeeds exactly for at least five bytes; month below 13, day and hour below 32, minute and second below 64; year * 13 + month is bits 1..17 |
| ParserHelper.TimestampV1 | src/org/littlestar/mysql/binlog/parser/ParserHelper.java:667-670 | succeeds exactly for one to eight bytes, giving a Java int |
| ParserHelper.TimestampV2 | src/org/littlestar/mysql/binlog/parser/ParserHelper.java:672-675 | succeeds exactly for one to eight bytes, giving a Java int |
| ParserHelper.TimeFractionalLengths | src/org/littlestar/mysql/binlog/parser/ParserHelper.java:707-710 | precisions 0..6 store 0, 1, 1, 2, 2, 3 and 3 bytes |
| ParserHelper.TimeFractionalLengthBound | src/org/littlestar/mysql/binlog/parser/ParserHelper.java:707-710 | the fractional length is non-negative and at most (fsp + 1) / 2 |
| ParserHelper.Cardinality | src/org/littlestar/mysql/binlog/parser/ParserHelper.java:677-682 | the number of set bits below n is at most n |
| EventTypes.CodesDistinct | src/org/littlestar/mysql/binlog/event/EventType.java:21-53 | no two event types share a code |
| EventTypes.FromCodeOfCode | src/org/littlestar/mysql/binlog/event/EventType.java:65-102 | looking up a type's own code gives the type back, except APPEND_BLOCK_EVENT: its code 9 has no case and gives UNKNOWN_EVENT, while case 8 names it |
| EventTypes.FromCodeUnknown | src/org/littlestar/mysql/binlog/event/EventType.java:65-102 | a code gives UNKNOWN_EVENT exactly when the switch has no case for it or it is 0 |
| EventTypes.FromName | src/org/littlestar/mysql/binlog/event/EventType.java:104-139 | a name some constant matches ignoring case gives such a constant; any other name gives UNKNOWN_EVENT |
| EventHeaders.HeaderLengthsAreFieldSums | src/org/littlestar/mysql/binlog/event/header/EventHeader.java:40-49 | the common header lengths of versions 1 to 4 are the sums of the field widths they hold |
| EventHeaders.EventHeader.constructor | src/org/littlestar/mysql/binlog/event/header/EventHeader.java:59-61 | a header of the given length, every other field at its Java default |
| EventHeaders.EventHeader.SetTimestamp | src/org/littlestar/mysql/binlog/event/header/EventHeader.java:67-69 | sets the timestamp and leaves every other field |
| EventHeaders.EventHeader.SetEventType | src/org/littlestar/mysql/binlog/event/header/EventHeader.java:75-77 | sets the event type and leaves every other field |
| EventHeaders.EventHeader.SetServerId | src/org/littlestar/mysql/binlog/event/header/EventHeader.java:83-85 | sets the server id and leaves every other field |
| EventHeaders.EventHeader.SetEventSize | src/org/littlestar/mysql/binlog/event/header/EventHeader.java:91-93 | sets the event size and leaves every other field |
| EventHeaders.EventHeader.SetNextPosition | src/org/littlestar/mysql/binlog/event/header/EventHeader.java:103-105 | sets the next position and leaves every other field |
| EventHeaders.EventHeader.SetEventFlags | src/org/littlestar/mysql/binlog/event/header/EventHeader.java:126-128 | sets the flags and leaves every other field |
| EventHeaders.EventHeader.StartPosition | src/org/littlestar/mysql/binlog/event/header/EventHeader.java:95-97 | a Java long which, when the long subtraction does not wrap, plus the event size is the next position |
| EventHeaders.EventHeader.EventBodyLength | src/org/littlestar/mysql/binlog/event/header/EventHeader.java:138-140 | a Java int which, when the int subtraction does not wrap, plus the header length is the event size |
| FileMetas.MagicNumberShape | src/org/littlestar/mysql/binlog/parser/BinlogFileMeta.java:29-31 | the magic number is four bytes, the last three spelling "bin" |
| FileMetas.BinlogFileMeta.constructor | src/org/littlestar/mysql/binlog/parser/BinlogFileMeta.java:32-50 | checksum length and algorithm 0, strings not decoded, charset utf8 and an empty table cache |
| FileMetas.BinlogFileMeta.SetCreateTimestamp | src/org/littlestar/mysql/binlog/parser/BinlogFileMeta.java:56-58 | sets the creation time and leaves every other field |
| FileMetas.BinlogFileMeta.SetServerVersion | src/org/littlestar/mysql/binlog/parser/BinlogFileMeta.java:64-66 | sets the server version and leaves every other field |
| FileMetas.BinlogFileMeta.SetBinlogVersion | src/org/littlestar/mysql/binlog/parser/BinlogFileMeta.java:72-74 | sets the binlog version and leaves every other field |
| FileMetas.BinlogFileMeta.SetCommonHeaderLength | src/org/littlestar/mysql/binlog/parser/BinlogFileMeta.java:88-90 | sets the common header length and leaves every other field |
| FileMetas.BinlogFileMeta.SetPostHeaderLengths | src/org/littlestar/mysql/binlog/parser/BinlogFileMeta.java:97-99 | sets the post-header table and leaves every other field |
| FileMetas.BinlogFileMeta.SetChecksumLength | src/org/littlestar/mysql/binlog/parser/BinlogFileMeta.java:114-116 | sets the checksum length and leaves every other field |
| FileMetas.BinlogFileMeta.SetChecksumAlg | src/org/littlestar/mysql/binlog/parser/BinlogFileMeta.java:122-124 | sets the checksum algorithm and leaves every other field |
| FileMetas.BinlogFileMeta.SetDecodeString | src/org/littlestar/mysql/binlog/parser/BinlogFileMeta.java:143-145 | sets the decode flag and leaves every other field |
| FileMetas.BinlogFileMeta.SetDefaultCharsetName | src/org/littlestar/mysql/binlog/parser/BinlogFileMeta.java:138-141 | a null name keeps the current charset, any other name replaces it; nothing else changes |
| FileMetas.BinlogFileMeta.PutTableMapEventBody | src/org/littlestar/mysql/binlog/parser/BinlogFileMeta.java:80-82 | the cache maps the body's table id to the body, every other id as before; no other field changes |
| FileMetas.BinlogFileMeta.GetTableMapEventBody | src/org/littlestar/mysql/binlog/parser/BinlogFileMeta.java:84-86 | the cached body exactly when the id was put, null otherwise |
| FileMetas.PostHeaderLengthIn | src/org/littlestar/mysql/binlog/parser/BinlogFileMeta.java:107-112 | a missing table is a NullPointerException; otherwise the entry at code - 1 exactly when 1 <= code <= table length, else an index out of bounds |
| FileMetas.UnknownHasNoPostHeader | src/org/littlestar/mysql/binlog/parser/BinlogFileMeta.java:107-112 | UNKNOWN_EVENT, code 0, has no entry in any table |
| FileMetas.AlgName | src/org/littlestar/mysql/binlog/parser/BinlogFileMeta.java:130-136 | 0 names NONE, 1 names CRC32 and any other number n names UNKNOWN{n} |
| FileMetas.AlgNameInjective | src/org/littlestar/mysql/binlog/parser/BinlogFileMeta.java:130-136 | different algorithm numbers get different names |
| MappedBuffer.BinlogFileMappedByteBuffer.constructor | src/org/littlestar/mysql/binlog/parser/BinlogFileMappedByteBuffer.java:42-48 | a mapping of the whole file, positioned at its start |
| MappedBuffer.BinlogFileMappedByteBuffer.Remaining | src/org/littlestar/mysql/binlog/parser/BinlogFileMappedByteBuffer.java:84-88 | the bytes between the position and the limit |
| MappedBuffer.BinlogFileMappedByteBuffer.SetPosition | src/org/littlestar/mysql/binlog/parser/BinlogFileMappedByteBuffer.java:78-82 | moves the cursor exactly when the position lies in [0, limit]; otherwise IllegalArgumentException and the cursor stays |
| MappedBuffer.BinlogFileMappedByteBuffer.Skip | src/org/littlestar/mysql/binlog/parser/BinlogFileMappedByteBuffer.java:105-110 | advances the cursor by n exactly when it stays within [0, limit]; otherwise IllegalArgumentException and the cursor stays |
| MappedBuffer.BinlogFileMappedByteBuffer.GetBytes | src/org/littlestar/mysql/binlog/parser/BinlogFileMappedByteBuffer.java:112-118 | the next n bytes, with the cursor past them; a failure moves nothing |
| MappedBuffer.BinlogFileMappedByteBuffer.GetByte | src/org/littlestar/mysql/binlog/parser/BinlogFileMappedByteBuffer.java:120-124 | the byte at the cursor, with the cursor past it; at the limit a BufferUnderflowException |
| MappedBuffer.BinlogFileMappedByteBuffer.GetInteger | src/org/littlestar/mysql/binlog/parser/BinlogFileMappedByteBuffer.java:126-130 | getInteger of the next n bytes in the buffer's order; the bytes are consumed even when the decode throws |
| MappedBuffer.BinlogFileMappedByteBuffer.GetUnsignedInteger | src/org/littlestar/mysql/binlog/parser/BinlogFileMappedByteBuffer.java:132-136 | getUnsignedInteger of the next n bytes, consumed as for GetInteger |
| MappedBuffer.BinlogFileMappedByteBuffer.GetLong | src/org/littlestar/mysql/binlog/parser/BinlogFileMappedByteBuffer.java:138-142 | getLong of the next n bytes, consumed as for GetInteger |
| MappedBuffer.BinlogFileMappedByteBuffer.GetUnsignedLong | src/org/littlestar/mysql/binlog/parser/BinlogFileMappedByteBuffer.java:144-148 | getUnsignedLong of the next n bytes, consumed as for GetInteger |
| MappedBuffer.BinlogFileMappedByteBuffer.GetString | src/org/littlestar/mysql/binlog/parser/BinlogFileMappedByteBuffer.java:150-154 | the next n bytes as raw text, with the cursor past them |
| MappedBuffer.UIntAt | src/org/littlestar/mysql/binlog/parser/BinlogFileMappedByteBuffer.java:132-136 | succeeds exactly for one to eight bytes that remain; too few remaining is a BufferUnderflowException; the value is a Java int |
| MappedBuffer.ULongAt | src/org/littlestar/mysql/binlog/parser/BinlogFileMappedByteBuffer.java:144-148 | succeeds exactly for one to eight bytes that remain; too few remaining is a BufferUnderflowException; the value is a Java long |
| MappedBuffer.Take | src/org/littlestar/mysql/binlog/parser/BinlogFileMappedByteBuffer.java:112-118 | succeeds exactly for 0 <= n <= remaining and gives those bytes; a negative n is a NegativeArraySizeException, too many a BufferUnderflowException |
| MappedBuffer.TakeTwice | src/org/littlestar/mysql/binlog/parser/BinlogFileMappedByteBuffer.java:112-118 | reading n bytes and then m bytes reads the same bytes as reading n + m at once |
| EventBodies.BodyContext.BodyDataLength | src/org/littlestar/mysql/binlog/event/body/impl/EventBodyDefaultImpl.java:55-57 | a Java int which, when the int subtraction does not wrap, plus the checksum length is the event body length |
| EventBodies.BodyContext.ChecksumValue | src/org/littlestar/mysql/binlog/event/body/impl/EventBodyDefaultImpl.java:71-78 | null without a checksum; an index out of bounds for a trailer longer than the body; otherwise exactly the trailing checksum-length bytes, the rest of the body before them |
| EventBodies.GetUnsignedLongAt | src/org/littlestar/mysql/binlog/event/body/impl/EventBodyDefaultImpl.java:131-134 | succeeds exactly when from lies in the body and the width is 1 to 8; a from outside is an index out of bounds; up to seven bytes inside the body it is their unsigned value |
| EventBodies.GetUnsignedIntegerAt | src/org/littlestar/mysql/binlog/event/body/impl/EventBodyDefaultImpl.java:113-116 | succeeds exactly when from lies in the body and the width is 1 to 8; up to three bytes inside it is their unsigned value; one byte at the very end reads as the padding 0 |
| EventBodies.OneByteCopy | src/org/littlestar/mysql/binlog/event/body/impl/EventBodyDefaultImpl.java:113-116 | the one-byte copy at from holds that byte, or the padding 0 at the end |
| EventBodies.GetIntegerAt | src/org/littlestar/mysql/binlog/event/body/impl/EventBodyDefaultImpl.java:100-103 | as GetUnsignedIntegerAt, and up to four bytes inside the body it is their two's-complement value |
| EventBodies.GetLongAt | src/org/littlestar/mysql/binlog/event/body/impl/EventBodyDefaultImpl.java:122-125 | as GetUnsignedIntegerAt, and at every width inside the body it is their two's-complement value |
| EventBodies.NulTerminatedText | src/org/littlestar/mysql/binlog/event/body/impl/EventBodyDefaultImpl.java:180-183 | null (from >= to) is a NullPointerException; otherwise the slice getNulTerminatedString selects, a prefix of the body from from |
| XidEvents.XidEventBody.ToString | src/org/littlestar/mysql/binlog/event/body/impl/XidEventBody.java:53-55 | "Xid = ", the decimal xid and a newline |
| XidEvents.XidBytes | src/org/littlestar/mysql/binlog/event/body/impl/XidEventBody.java:41-46 | the first eight body bytes, padded with zeros when the body is shorter |
| XidEvents.DecodeXid | src/org/littlestar/mysql/binlog/event/body/impl/XidEventBody.java:41-46 | the xid is the Java long of the little-endian value of those eight bytes, whatever the file's order |
| XidEvents.XidIgnoresOrder | src/org/littlestar/mysql/binlog/event/body/impl/XidEventBody.java:41-46 | the file's byte order never changes the xid |
| XidEvents.XidIgnoresRest | src/org/littlestar/mysql/binlog/event/body/impl/XidEventBody.java:41-46 | bytes past the first eight, such as the checksum, never change the xid |
| XidEvents.XidRoundTrip | src/org/littlestar/mysql/binlog/event/body/impl/XidEventBody.java:41-46 | a long written as eight little-endian bytes decodes back to itself |
| XidEvents.XidTextRoundTrip | src/org/littlestar/mysql/binlog/event/body/impl/XidEventBody.java:53-55 | the digits in the text parse back to the xid |
| BeginLoadQueryEvents.DecodeBeginLoadQuery | src/org/littlestar/mysql/binlog/event/body/impl/BeginLoadQueryEvent.java:40-44 | succeeds exactly when the body and the body length both cover the file id; the id is the unsigned first four bytes; the block runs from offset 4 to the body length |
| BeginLoadQueryEvents.BlockDataHoldsChecksum | src/org/littlestar/mysql/binlog/event/body/impl/BeginLoadQueryEvent.java:40-44 | the block data ends with the checksum trailer, because the body length counts it |
| StopEvents.NextSequenceText | src/org/littlestar/mysql/binlog/event/body/impl/StopEventBody.java:48-56 | the number zero-padded to the width when its text is shorter than the width, otherwise 1 padded to the width |
| StopEvents.AssumeNextFile | src/org/littlestar/mysql/binlog/event/body/impl/StopEventBody.java:34-46 | null exactly when no '.' follows the first character; a NumberFormatException exactly when the suffix is not a long; otherwise a name of the same length keeping everything up to the last '.' |
| StopEvents.NextFileAfter | src/org/littlestar/mysql/binlog/event/body/impl/StopEventBody.java:40-45 | fails exactly when the suffix does not parse, and otherwise keeps the prefix and the length |
| StopEvents.NextFileName | src/org/littlestar/mysql/binlog/event/body/impl/StopEventBody.java:44-45 | the prefix up to the '.', then the next sequence number at the old suffix's width |
| StopEvents.LeadingZerosValue | src/org/littlestar/mysql/binlog/event/body/impl/StopEventBody.java:48-56 | leading zeros do not change the value of a digit string |
| StopEvents.ParseDigits | src/org/littlestar/mysql/binlog/event/body/impl/StopEventBody.java:40-43 | a digit string that fits in a long parses as the number it denotes |
| StopEvents.PaddedDigits | src/org/littlestar/mysql/binlog/event/body/impl/StopEventBody.java:48-56 | zero padding keeps the digits and their value |
| StopEvents.NextSequenceValue | src/org/littlestar/mysql/binlog/event/body/impl/StopEventBody.java:48-56 | the padded text parses as the number when it has fewer digits than the width, and as 1 otherwise |
| StopEvents.NextFileSequence | src/org/littlestar/mysql/binlog/event/body/impl/StopEventBody.java:34-46 | for a decimal suffix v, the guessed name keeps the prefix and its suffix parses as v + 1 when v + 1 has fewer digits than the suffix, otherwise as 1: "mysql-bin.123456" is followed by "mysql-bin.000001" |
| StopEvents.NextFileNameValue | src/org/littlestar/mysql/binlog/event/body/impl/StopEventBody.java:44-56 | the suffix written after v parses as v + 1 when v + 1 has fewer digits than the suffix, otherwise as 1 |
| RotateEvents.NameStart | src/org/littlestar/mysql/binlog/event/body/impl/RotateEventBody.java:47-54 | the name starts after the eight position bytes exactly from binlog version 2 on |
| RotateEvents.DecodeRotate | src/org/littlestar/mysql/binlog/event/body/impl/RotateEventBody.java:47-54 | succeeds exactly when the name start lies in the body and before the body data length; the name is the bytes in between; the position is -1 before version 2 and otherwise the long of the unsigned decode |
| RotateEvents.PositionReadMostSignificantFirst | src/org/littlestar/mysql/binlog/event/body/impl/RotateEventBody.java:47-54 | in a little-endian file the position bytes are read with the first byte most significant |
| RotateEvents.NameThenChecksum | src/org/littlestar/mysql/binlog/event/body/impl/RotateEventBody.java:47-54 | the name and the checksum trailer together make up the rest of the body |
| QueryEvents.ReadStatementTail | src/org/littlestar/mysql/binlog/event/body/impl/QueryEventBody.java:72-82 | succeeds exactly when the body holds a tail at start: svl status-var bytes when svl is positive, the schema bytes, one skipped byte, then the NUL-terminated query below the body data length; the result is that tail |
| QueryEvents.StatusRead | src/org/littlestar/mysql/binlog/event/body/impl/QueryEventBody.java:76-78 | the status variables are the svl bytes copied from start, or none when svl is not positive |
| QueryEvents.QueryRead | src/org/littlestar/mysql/binlog/event/body/impl/QueryEventBody.java:82 | the query read by getNulTerminatedString is the tail's query |
| QueryEvents.SchemaRead | src/org/littlestar/mysql/binlog/event/body/impl/QueryEventBody.java:78 | the schema copied from s is the tail's raw schema |
| QueryEvents.TailQueryBounds | src/org/littlestar/mysql/binlog/event/body/impl/QueryEventBody.java:80-82 | the query is a non-empty run of the body after the skipped byte, below the body data length, with no 0x00 before its end; it never reaches into the checksum trailer |
| QueryEvents.TailDetermined | src/org/littlestar/mysql/binlog/event/body/impl/QueryEventBody.java:72-82 | a body holds at most one tail at a given place |
| QueryEvents.StatusVarsStart | src/org/littlestar/mysql/binlog/event/body/impl/QueryEventBody.java:72-74 | the status variables start at 13 from binlog version 4 on, where the length field exists, and at 11 before |
| QueryEvents.DecodeQuery | src/org/littlestar/mysql/binlog/event/body/impl/QueryEventBody.java:62-83 | fails exactly when the body holds no query event and otherwise returns the one it holds: unsigned thread id, execution time, schema length and error code, the status-vars length read signed from version 4 on, then the tail |
| QueryEvents.QueryEncodingUnique | src/org/littlestar/mysql/binlog/event/body/impl/QueryEventBody.java:62-83 | a body holds at most one query event, so the decode is determined by the bytes |
| ExecuteLoadQueryEvents.DecodeExecuteLoadQuery | src/org/littlestar/mysql/binlog/event/body/impl/ExecuteLoadQueryEvent.java:69-87 | fails exactly when the body holds no such event and otherwise returns the one it holds: the 26 bytes of fixed fields, then the query payload from offset 26 |
| ExecuteLoadQueryEvents.ReadLoadQueryHeader | src/org/littlestar/mysql/binlog/event/body/impl/ExecuteLoadQueryEvent.java:72-82 | the fixed reads succeed exactly when the last one starts inside the body; from 26 bytes on they are the plain decodes of their slices |
| ExecuteLoadQueryEvents.HeaderDetermined | src/org/littlestar/mysql/binlog/event/body/impl/ExecuteLoadQueryEvent.java:72-82 | the fixed fields are determined by the body's bytes |
| ExecuteLoadQueryEvents.ExecuteLoadQueryEncodingUnique | src/org/littlestar/mysql/binlog/event/body/impl/ExecuteLoadQueryEvent.java:69-87 | a body holds at most one such event |
| ExecuteLoadQueryEvents.DuplicateHandleFlagString | src/org/littlestar/mysql/binlog/event/body/impl/ExecuteLoadQueryEvent.java:141-148 | flags 0 to 2 name a LOAD_DUP_ mode; every other flag gives "" |
| ExecuteLoadQueryEvents.DuplicateHandleFlagNamesDistinct | src/org/littlestar/mysql/binlog/event/body/impl/ExecuteLoadQueryEvent.java:141-148 | the three flags have three different names |
| UserVarEvents.NameEnd | src/org/littlestar/mysql/binlog/event/body/impl/UserVarEvent.java:62-63 | the name ends 4 plus the unsigned name length into the body, below 4 + 2^32 |
| UserVarEvents.AdvanceWraps | src/org/littlestar/mysql/binlog/event/body/impl/UserVarEvent.java:62-69 | advancing the int position by a length keeps the sum when it fits in an int, and otherwise wraps to below the start |
| UserVarEvents.DecodeUserVar | src/org/littlestar/mysql/binlog/event/body/impl/UserVarEvent.java:60-75 | fails exactly when the body holds no user-variable event and otherwise returns the one it holds: the name, the is-null byte, and for a non-null value the type, charset, value and flags |
| UserVarEvents.ReadUserVarName | src/org/littlestar/mysql/binlog/event/body/impl/UserVarEvent.java:62-63 | succeeds exactly when the body has the four length bytes and the int sum does not wrap; the name is the copy from 4 to that sum |
| UserVarEvents.ReadUserVarValue | src/org/littlestar/mysql/binlog/event/body/impl/UserVarEvent.java:65-73 | fails exactly when the body holds no value fields at p and otherwise returns the fields it holds |
| UserVarEvents.ValueFieldsRead | src/org/littlestar/mysql/binlog/event/body/impl/UserVarEvent.java:66-68 | once the last fixed read starts inside the body, the type, charset and value length are the plain decodes of their slices |
| UserVarEvents.UserVarEncodingUnique | src/org/littlestar/mysql/binlog/event/body/impl/UserVarEvent.java:60-75 | a body holds at most one user-variable event |
| UserVarEvents.FlagsMarkMoreData | src/org/littlestar/mysql/binlog/event/body/impl/UserVarEvent.java:70-73 | flags is 1 exactly when the value ends before the body data length |
| UserVarEvents.ValueType | src/org/littlestar/mysql/binlog/event/body/impl/UserVarEvent.java:109-119 | types 0 to 5 have names, 0 to 4 ending in _TYPE; every other number is UNKNOWN_TYPE |
| UserVarEvents.ValueTypeInjective | src/org/littlestar/mysql/binlog/event/body/impl/UserVarEvent.java:109-119 | different type numbers with names have different names |
| Gtids.ParseGtid | src/org/littlestar/mysql/binlog/parser/Gtid.java:8-16 | text whose trimmed, lower-cased form does not match the pattern throws; matching text is split at ':' and its fields are taken as given |
| Gtids.GtidOfFields | src/org/littlestar/mysql/binlog/parser/Gtid.java:10-12 | succeeds exactly when there are two fields and the second parses as a long; the uuid is the first field and the id the second |
| Gtids.ParseGtidMatched | src/org/littlestar/mysql/binlog/parser/Gtid.java:8-16 | matching text has its one ':' 36 characters past the leading blanks; the uuid keeps those blanks and its case, and the constructor fails exactly when the number after the ':' does not parse |
| Gtids.CompareTo | src/org/littlestar/mysql/binlog/parser/Gtid.java:32-44 | succeeds exactly for equal uuids; then 0, 1 or -1 as the id is equal to, greater than or less than the other's; different uuids throw |
| Gtids.CompareToAntisymmetric | src/org/littlestar/mysql/binlog/parser/Gtid.java:32-44 | swapping the two GTIDs negates the result |
| Gtids.CompareToTransitive | src/org/littlestar/mysql/binlog/parser/Gtid.java:32-44 | greater-than is transitive among ids of one server |
| Gtids.ParseGtidCanonical | src/org/littlestar/mysql/binlog/parser/Gtid.java:8-16 | a uuid text and a non-negative long written as "uuid:n" parse back to that GTID |
| Gtids.CanonicalIsGtidText | src/org/littlestar/mysql/binlog/parser/Gtid.java:4 | the canonical text is trimmed and lower case and matches the pattern |
| Gtids.ParseGtidTrailingBlank | src/org/littlestar/mysql/binlog/parser/Gtid.java:8-16 | a trailing blank passes the trimmed match but stays in the number, so the constructor throws NumberFormatException |
| GtidEvents.TransactionLengthWidth | src/org/littlestar/mysql/binlog/event/body/impl/GtidLogEventBody.java:113-120 | the optional part is read exactly for body data lengths 51 to 58 |
| GtidEvents.DecodeGtidEvent | src/org/littlestar/mysql/binlog/event/body/impl/GtidLogEventBody.java:103-123 | fails, always with an index out of bounds, exactly when the body holds no GTID event, and otherwise returns the one it holds |
| GtidEvents.ReadGtidFixedPart | src/org/littlestar/mysql/binlog/event/body/impl/GtidLogEventBody.java:105-112 | succeeds exactly when the body reaches the sequence number; the flags and lt type are signed bytes, the sid and gno slices, and the two clock values the longs of their little-endian value |
| GtidEvents.FixedPartRead | src/org/littlestar/mysql/binlog/event/body/impl/GtidLogEventBody.java:105-112 | each copy of the fixed part is the body's slice, and getUnsignedLong BIG_ENDIAN of the clock bytes is the long of their little-endian value |
| GtidEvents.GtidEventEncodingUnique | src/org/littlestar/mysql/binlog/event/body/impl/GtidLogEventBody.java:103-123 | a body holds at most one GTID event |
| GtidEvents.LastCommittedRoundTrip | src/org/littlestar/mysql/binlog/event/body/impl/GtidLogEventBody.java:109-110 | a long written least significant byte first is read back as last committed |
| GtidEvents.TransactionLengthValue | src/org/littlestar/mysql/binlog/event/body/impl/GtidLogEventBody.java:117-118 | up to seven transaction-length bytes inside the body give their plain unsigned value |
| GtidEvents.Dashed | src/org/littlestar/mysql/binlog/event/body/impl/GtidLogEventBody.java:144-152 | the four inserted dashes make the text four characters longer |
| GtidEvents.GetUuid | src/org/littlestar/mysql/binlog/event/body/impl/GtidLogEventBody.java:144-152 | succeeds exactly for a sid of at least 10 bytes; an empty sid is a NullPointerException, a short one an index out of bounds; the text is the dashed lower-case hex, and for 16 bytes it is getFormattedUuid's |
| GtidEvents.InsertsMakeDashed | src/org/littlestar/mysql/binlog/event/body/impl/GtidLogEventBody.java:147-150 | the inserts at 8, 13, 18 and 23 put the dashes where Dashed does |
| GtidEvents.FormattedIsDashed | src/org/littlestar/mysql/binlog/event/body/impl/GtidLogEventBody.java:144-152 | for a 16-byte sid, getUUID and getFormattedUuid agree |
| GtidEvents.DashedGroups | src/org/littlestar/mysql/binlog/event/body/impl/GtidLogEventBody.java:144-152 | 32 hex digits come out as groups 8-4-4-4-12 joined by dashes |
| GtidEvents.TransactionId | src/org/littlestar/mysql/binlog/event/body/impl/GtidLogEventBody.java:158-160 | succeeds exactly for a gno of one to eight bytes and is its signed decode in the file's order |
| GtidEvents.GetGtid | src/org/littlestar/mysql/binlog/event/body/impl/GtidLogEventBody.java:162-164 | succeeds for a decoded event; the text is the uuid, ':' and the signed transaction id, and a non-negative id parses back through the Gtid constructor |
| GtidEvents.CommittedTimestamp | src/org/littlestar/mysql/binlog/event/body/impl/GtidLogEventBody.java:125-134 | a null timestamp throws; up to seven bytes give non-negative seconds and microseconds below 10^6; more throw |
| GtidEvents.UnsignedNumberPadded | src/org/littlestar/mysql/binlog/event/body/impl/GtidLogEventBody.java:125-128 | with the zero appended, seven bytes read least significant first, and fewer read most significant first shifted up one byte |
| GtidEvents.CommittedTimestampRoundTrip | src/org/littlestar/mysql/binlog/event/body/impl/GtidLogEventBody.java:125-134 | a seven-byte timestamp of m microseconds gives m back as seconds and microseconds |
| PreviousGtidsEvents.ReadLong | src/org/littlestar/mysql/binlog/event/body/impl/PreviousGtidsLogEventBody.java:53-65 | fails with an index out of bounds exactly when pos lies outside the body; inside it gives the long of the eight little-endian bytes |
| PreviousGtidsEvents.LongOfBytes | src/org/littlestar/mysql/binlog/event/body/impl/PreviousGtidsLogEventBody.java:54 | eight bytes give a Java long |
| PreviousGtidsEvents.ReadLongIsJava | src/org/littlestar/mysql/binlog/event/body/impl/PreviousGtidsLogEventBody.java:53-54 | a read is copyOfRange of eight bytes then getUnsignedLong BIG_ENDIAN, failing exactly when the copy fails |
| PreviousGtidsEvents.ReadIntervals | src/org/littlestar/mysql/binlog/event/body/impl/PreviousGtidsLogEventBody.java:60-68 | count intervals end 16 bytes each further on; a failed read is an index out of bounds |
| PreviousGtidsEvents.IntervalAt | src/org/littlestar/mysql/binlog/event/body/impl/PreviousGtidsLogEventBody.java:62-65 | an interval is the start read and the end read less one, in long arithmetic |
| PreviousGtidsEvents.ReadSids | src/org/littlestar/mysql/binlog/event/body/impl/PreviousGtidsLogEventBody.java:56-71 | n SIDs read, each with its 16 uuid bytes; a failed read is an index out of bounds |
| PreviousGtidsEvents.UuidAt | src/org/littlestar/mysql/binlog/event/body/impl/PreviousGtidsLogEventBody.java:57 | the uuid is the 16 bytes at pos |
| PreviousGtidsEvents.IntervalCountAt | src/org/littlestar/mysql/binlog/event/body/impl/PreviousGtidsLogEventBody.java:58-59 | the interval count is the long read after the uuid |
| PreviousGtidsEvents.GtidCount | src/org/littlestar/mysql/binlog/event/body/impl/PreviousGtidsLogEventBody.java:53-54 | the SID count is a long, the long of the first eight bytes when the body has them |
| PreviousGtidsEvents.IntervalText | src/org/littlestar/mysql/binlog/event/body/impl/PreviousGtidsLogEventBody.java:66-68 | the appended text ends in ':' exactly when j is below the SID count less one |
| PreviousGtidsEvents.IntervalRange | src/org/littlestar/mysql/binlog/event/body/impl/PreviousGtidsLogEventBody.java:66 | "start-end" never ends in ':' |
| PreviousGtidsEvents.DecimalNotColon | src/org/littlestar/mysql/binlog/event/body/impl/PreviousGtidsLogEventBody.java:66 | a long in decimal never ends in ':' |
| PreviousGtidsEvents.Entries | src/org/littlestar/mysql/binlog/event/body/impl/PreviousGtidsLogEventBody.java:70 | one entry per SID |
| PreviousGtidsEvents.PreviousGtidSet | src/org/littlestar/mysql/binlog/event/body/impl/PreviousGtidsLogEventBody.java:51-72 | either an index out of bounds or one entry per SID of the count |
| PreviousGtidsEvents.DecodePreviousGtids | src/org/littlestar/mysql/binlog/event/body/impl/PreviousGtidsLogEventBody.java:51-72 | the two nested loops compute PreviousGtidSet |
| PreviousGtidsEvents.ReadSidHead | src/org/littlestar/mysql/binlog/event/body/impl/PreviousGtidsLogEventBody.java:57-59 | succeeds exactly when the uuid and count lie in the body, giving both |
| PreviousGtidsEvents.AppendIntervals | src/org/littlestar/mysql/binlog/event/body/impl/PreviousGtidsLogEventBody.java:60-69 | the inner loop appends the interval text of ReadIntervals to the builder and ends where it does, or fails as it does |
| PreviousGtidsEvents.AppendInterval | src/org/littlestar/mysql/binlog/event/body/impl/PreviousGtidsLogEventBody.java:62-68 | one pass appends the interval text exactly when both longs lie in the body |
| PreviousGtidsEvents.EntryShape | src/org/littlestar/mysql/binlog/event/body/impl/PreviousGtidsLogEventBody.java:55-71 | entry k is SID k's uuid, ':' and the intervals of SIDs 0 to k, since the builder is never reset |
| PreviousGtidsEvents.EntriesLast | src/org/littlestar/mysql/binlog/event/body/impl/PreviousGtidsLogEventBody.java:55-71 | the last entry holds the intervals of every SID |
| PreviousGtidsEvents.SetTextGrows | src/org/littlestar/mysql/binlog/event/body/impl/PreviousGtidsLogEventBody.java:55-71 | the builder only grows: its text after k SIDs is a prefix of its text after m >= k |
| PreviousGtidsEvents.EntriesAccumulate | src/org/littlestar/mysql/binlog/event/body/impl/PreviousGtidsLogEventBody.java:55-71 | past the uuid, each entry's text begins with every earlier entry's text |
| PreviousGtidsEvents.EntryText | src/org/littlestar/mysql/binlog/event/body/impl/PreviousGtidsLogEventBody.java:70 | an entry is 36 uuid characters, ':' and the text |
| PreviousGtidsEvents.SingleSidRunsTogether | src/org/littlestar/mysql/binlog/event/body/impl/PreviousGtidsLogEventBody.java:67-68 | with a single SID and intervals 1-5 and 7-9 the entry reads "1-57-9" |
| PreviousGtidsEvents.EncodeLong | src/org/littlestar/mysql/binlog/event/body/impl/PreviousGtidsLogEventBody.java:54 | a long is written as eight bytes |
| PreviousGtidsEvents.EncodeIntervals | src/org/littlestar/mysql/binlog/event/body/impl/PreviousGtidsLogEventBody.java:60-65 | each interval is written as 16 bytes |
| PreviousGtidsEvents.DecodeEncodePreviousGtids | src/org/littlestar/mysql/binlog/event/body/impl/PreviousGtidsLogEventBody.java:51-72 | a body written from SIDs decodes to the entries those SIDs render to |
| PreviousGtidsEvents.IntervalAtEncoded | src/org/littlestar/mysql/binlog/event/body/impl/PreviousGtidsLogEventBody.java:62-65 | an interval written as its start and exclusive end reads back as itself |
| PreviousGtidsEvents.LinesAppend | src/org/littlestar/mysql/binlog/event/body/impl/PreviousGtidsLogEventBody.java:85-87 | the listing lines of two runs of entries are the lines of each in turn |
| PreviousGtidsEvents.ListingFirstLine | src/org/littlestar/mysql/binlog/event/body/impl/PreviousGtidsLogEventBody.java:79-89 | a non-empty set is listed after the heading from its first entry on |
| PreviousGtidsEvents.ToString | src/org/littlestar/mysql/binlog/event/body/impl/PreviousGtidsLogEventBody.java:79-89 | the StringBuilder loop builds the listing: the heading, then "# [EMPTY]" or one "# " line per entry |
| TableDefines.TableDefine.constructor | src/org/littlestar/mysql/binlog/event/body/helper/TableDefine.java:26-29 | a table with its id, no names and no columns |
| TableDefines.TableDefine.SetSchemaName | src/org/littlestar/mysql/binlog/event/body/helper/TableDefine.java:35-37 | sets the schema name and leaves the table name and columns |
| TableDefines.TableDefine.SetTableName | src/org/littlestar/mysql/binlog/event/body/helper/TableDefine.java:43-45 | sets the table name and leaves the schema name and columns |
| TableDefines.TableDefine.SetColumnDefine | src/org/littlestar/mysql/binlog/event/body/helper/TableDefine.java:66-68 | the define is stored under its own id, every other id as before |
| TableDefines.TableDefine.UpdateColumnDefine | src/org/littlestar/mysql/binlog/event/body/helper/TableDefine.java:51-58 | a setter on a stored define changes that entry alone and keeps the keys |
| TableDefines.TableDefine.GetColumnDefine | src/org/littlestar/mysql/binlog/event/body/helper/TableDefine.java:70-72 | the define stored under the id, or null when there is none |
| TableDefines.TableDefine.ColumnCount | src/org/littlestar/mysql/binlog/event/body/helper/TableDefine.java:74-76 | the number of distinct ids stored |
| TableDefines.TableDefine.SetColumnName | src/org/littlestar/mysql/binlog/event/body/helper/TableDefine.java:51-58 | the columns become Renamed of the old columns |
| TableDefines.TableDefine.GetColumnName | src/org/littlestar/mysql/binlog/event/body/helper/TableDefine.java:60-64 | the name of the define under the index; an index with no define dereferences null |
| TableDefines.RenamedPuts | src/org/littlestar/mysql/binlog/event/body/helper/TableDefine.java:51-58 | both branches of setColumnName store the renamed define as Renamed says |
| TableDefines.Renamed | src/org/littlestar/mysql/binlog/event/body/helper/TableDefine.java:51-58 | an existing column changes only its name; for an absent index a fresh define with id 0 is stored under key 0 and the index stays absent; every other column is kept |
| ColumnDefines.ClassesDisjoint | src/org/littlestar/mysql/binlog/event/body/helper/ColumnDefine.java:77-123 | no type code is in two of the number, string and date-time classes |
| ColumnDefines.ColumnTypeString | src/org/littlestar/mysql/binlog/event/body/helper/ColumnDefine.java:126-163 | a named code gives a name; any other code gives "0x" and two hex digits that read back as the code |
| RowImages.RowImage.constructor | src/org/littlestar/mysql/binlog/event/body/helper/RowImage.java:28-31 | an image of the table with no columns, positions -1 and not all-null |
| RowImages.RowImage.SetStartPosition | src/org/littlestar/mysql/binlog/event/body/helper/RowImage.java:37-39 | sets the start position and leaves every other field |
| RowImages.RowImage.SetEndPosition | src/org/littlestar/mysql/binlog/event/body/helper/RowImage.java:41-43 | sets the end position and leaves every other field |
| RowImages.RowImage.SetNullImage | src/org/littlestar/mysql/binlog/event/body/helper/RowImage.java:73-75 | isNullImage reads back the flag set; nothing else changes |
| RowImages.RowImage.SetColumnImage | src/org/littlestar/mysql/binlog/event/body/helper/RowImage.java:53-55 | the column image is stored under its own id |
| RowImages.RowImage.SetColumnImageAt | src/org/littlestar/mysql/binlog/event/body/helper/RowImage.java:57-59 | the column image is stored under the id given, whatever its own id |
| RowImages.RowImage.GetColumnImage | src/org/littlestar/mysql/binlog/event/body/helper/RowImage.java:61-63 | the image stored under the id, or null |
| RowImages.RowImage.Snapshot | src/org/littlestar/mysql/binlog/event/body/helper/RowImage.java:33-75 | the value holds every field of the image |
| RowImages.RowImage.ColumnCount | src/org/littlestar/mysql/binlog/event/body/helper/RowImage.java:65-67 | the number of distinct ids stored |
| OptionalMetaDatas.OptionalMetaData.FieldValue | src/org/littlestar/mysql/binlog/event/body/impl/TableMapEventOptionalMetaData.java:79-152 | the stored bytes of a field type exactly when it was read, otherwise null |
| OptionalMetaDatas.FieldName | src/org/littlestar/mysql/binlog/event/body/impl/TableMapEventOptionalMetaData.java:154-169 | types 1 to 11 have names; any other type gives "Type{n}" with n reading back as the type |
| OptionalMetaDatas.TlvFields | src/org/littlestar/mysql/binlog/event/body/impl/TableMapEventOptionalMetaData.java:49-75 | the loop only adds fields, and never stores an empty value |
| OptionalMetaDatas.TlvFieldsAfter | src/org/littlestar/mysql/binlog/event/body/impl/TableMapEventOptionalMetaData.java:49-75 | the rest of the loop after one field only adds fields and never stores an empty value |
| OptionalMetaDatas.TlvField | src/org/littlestar/mysql/binlog/event/body/impl/TableMapEventOptionalMetaData.java:64-71 | one field moves past pos, has an int type and a non-empty value when it has one |
| OptionalMetaDatas.TlvValue | src/org/littlestar/mysql/binlog/event/body/impl/TableMapEventOptionalMetaData.java:69-72 | no value for a length that is not positive; otherwise the copy succeeds exactly when it starts inside the body and the int sum `pos += fieldLength` stays at or below Integer.MAX_VALUE, and a sum past it is an IllegalArgumentException |
| OptionalMetaDatas.TlvFieldLayout | src/org/littlestar/mysql/binlog/event/body/impl/TableMapEventOptionalMetaData.java:64-71 | a field is its signed type byte, a packed length read unsigned, and, exactly when that length is positive, that many value bytes, ending at or below Integer.MAX_VALUE |
| OptionalMetaDatas.TlvFieldLengthWraps | src/org/littlestar/mysql/binlog/event/body/impl/TableMapEventOptionalMetaData.java:66-70 | a field whose 8-byte packed length FE FF FF 7F 00 00 00 00 reads 0x7FFFFFFE BIG_ENDIAN throws IllegalArgumentException wherever it starts, because the int position wraps |
| OptionalMetaDatas.TlvFieldsStoresList | src/org/littlestar/mysql/binlog/event/body/impl/TableMapEventOptionalMetaData.java:49-75 | the loop succeeds exactly when the field list reads, and builds the map storing those fields in order |
| OptionalMetaDatas.StoreUntouched | src/org/littlestar/mysql/binlog/event/body/impl/TableMapEventOptionalMetaData.java:69-71 | a type no field stores keeps its entry, present or absent |
| OptionalMetaDatas.StoreLastWins | src/org/littlestar/mysql/binlog/event/body/impl/TableMapEventOptionalMetaData.java:69-71 | for a repeated field type the last stored value wins |
| OptionalMetaDatas.StoreOnlyRead | src/org/littlestar/mysql/binlog/event/body/impl/TableMapEventOptionalMetaData.java:69-71 | a type no field stores is absent from the map |
| OptionalMetaDatas.ParseOptionalMetaData | src/org/littlestar/mysql/binlog/event/body/impl/TableMapEventOptionalMetaData.java:44-77 | the constructor computes OptionalMetaDataOf: the TLV loop followed by the getSimplePrimaryKey call, every stored value non-empty |
| OptionalMetaDatas.ReadTlvFields | src/org/littlestar/mysql/binlog/event/body/impl/TableMapEventOptionalMetaData.java:49-75 | the loop computes TlvFields from an empty map |
| OptionalMetaDatas.GetColumnNames | src/org/littlestar/mysql/binlog/event/body/impl/TableMapEventOptionalMetaData.java:97-113 | no COLUMN_NAME field gives no names; otherwise the packed strings of that field |
| OptionalMetaDatas.ReadPackedStrings | src/org/littlestar/mysql/binlog/event/body/impl/TableMapEventOptionalMetaData.java:101-111 | the loop computes PackedStrings from position 0 |
| OptionalMetaDatas.ReadPackedString | src/org/littlestar/mysql/binlog/event/body/impl/TableMapEventOptionalMetaData.java:104-110 | one pass moves forward and leaves the rest of the loop's result unchanged |
| OptionalMetaDatas.GetSimplePrimaryKey | src/org/littlestar/mysql/binlog/event/body/impl/TableMapEventOptionalMetaData.java:127-140 | no SIMPLE_PRIMARY_KEY field gives no key; otherwise the packed integers of that field |
| OptionalMetaDatas.ReadPackedIntegers | src/org/littlestar/mysql/binlog/event/body/impl/TableMapEventOptionalMetaData.java:130-138 | the loop computes PackedIntegers from position 0 |
| TableMaps.IdWidth | src/org/littlestar/mysql/binlog/event/body/impl/TableMapEventBody.java:75-81 | the table id is 4 bytes exactly when TABLE_MAP_EVENT's post-header is 6 bytes long, and 6 bytes otherwise |
| TableMaps.UnsignedByteAt | src/org/littlestar/mysql/binlog/event/body/impl/TableMapEventBody.java:88 | a one-byte read succeeds exactly up to the end of the body and is below 256 |
| TableMaps.NameAt | src/org/littlestar/mysql/binlog/event/body/impl/TableMapEventBody.java:88-96 | a name reads exactly when its length byte lies in the body; it is the copy of that many bytes after the length, and one NUL is skipped after it |
| TableMaps.NameAtInside | src/org/littlestar/mysql/binlog/event/body/impl/TableMapEventBody.java:88-96 | a name whose bytes lie inside the body is that slice of the body |
| TableMaps.HeadOf | src/org/littlestar/mysql/binlog/event/body/impl/TableMapEventBody.java:75-97 | the head reads exactly when both length bytes lie in the body; the schema name starts after the id and two reserved bytes, the table name after the schema's NUL |
| TableMaps.HeadTableId | src/org/littlestar/mysql/binlog/event/body/impl/TableMapEventBody.java:75-81 | the table id is the unsigned decode of the first 4 or 6 bytes |
| TableMaps.MetaWidthCodes | src/org/littlestar/mysql/binlog/event/body/impl/TableMapEventBody.java:130-156 | exactly seven type codes carry one metadata byte and five carry two; the rest carry none |
| TableMaps.ColumnMetas | src/org/littlestar/mysql/binlog/event/body/impl/TableMapEventBody.java:126-157 | the metadata loop yields one entry per column and keeps the entries before it |
| TableMaps.ColumnMetasLayout | src/org/littlestar/mysql/binlog/event/body/impl/TableMapEventBody.java:126-157 | column k's metadata is none exactly when its type has none, and otherwise the bytes past the metadata of the columns before it, as wide as its type says |
| TableMaps.ColumnMetasOk | src/org/littlestar/mysql/binlog/event/body/impl/TableMapEventBody.java:126-157 | the metadata loop succeeds exactly when no column's metadata starts past the end of the body |
| TableMaps.TypesAt | src/org/littlestar/mysql/binlog/event/body/impl/TableMapEventBody.java:100-105 | the packed column count, then as many type codes copied after it |
| TableMaps.CountNoWrap | src/org/littlestar/mysql/binlog/event/body/impl/TableMapEventBody.java:105 | an int sum that does not fall below its first operand equals the true sum |
| TableMaps.MetaBlockAt | src/org/littlestar/mysql/binlog/event/body/impl/TableMapEventBody.java:117-119 | the metadata block's length is the packed integer at p, read as an unsigned long, and its content starts after it |
| TableMaps.NullableLength | src/org/littlestar/mysql/binlog/event/body/impl/TableMapEventBody.java:159 | the nullability bitmap is (count + 8) / 7 bytes, for counts whose int sum does not wrap |
| TableMaps.ColumnsOf | src/org/littlestar/mysql/binlog/event/body/impl/TableMapEventBody.java:100-160 | the columns part holds one metadata entry per type code |
| TableMaps.ColumnsLayout | src/org/littlestar/mysql/binlog/event/body/impl/TableMapEventBody.java:100-160 | the columns decode exactly when the type codes, the block length, the per-column metadata and the bitmap do; the bitmap starts the declared block length after the block start |
| TableMaps.NullBitsLength | src/org/littlestar/mysql/binlog/event/body/impl/TableMapEventBody.java:159-160 | a copied bitmap is (count + 8) / 7 bytes long |
| TableMaps.Defines | src/org/littlestar/mysql/binlog/event/body/impl/TableMapEventBody.java:106-164 | there is a define for exactly the columns 0..count-1, and define i has id i, type code i, metadata i, bit i of the bitmap and no name |
| TableMaps.RenamedFromInRange | src/org/littlestar/mysql/binlog/event/body/impl/TableMapEventBody.java:176-181 | when every named index has a define, name i lands on column i and nothing else changes |
| TableMaps.RenamedPastEnd | src/org/littlestar/mysql/binlog/event/body/impl/TableMapEventBody.java:176-181 | with more names than columns, the first name past the last column replaces column 0 by a fresh define, losing its type and metadata |
| TableMaps.TableMapOf | src/org/littlestar/mysql/binlog/event/body/impl/TableMapEventBody.java:72-182 | a decoded table map holds one metadata entry per type code |
| TableMaps.TableMapParts | src/org/littlestar/mysql/binlog/event/body/impl/TableMapEventBody.java:72-182 | a decoded table map is a decoded head, the columns after it, the optional metadata from after the bitmap to the body data length, and the column names of its COLUMN_NAME field |
| TableMaps.TableMapColumns | src/org/littlestar/mysql/binlog/event/body/impl/TableMapEventBody.java:106-181 | column i has id i, its name when there is one, type code i, metadata i and nullability bit i |
| TableMaps.DecodeTableMap | src/org/littlestar/mysql/binlog/event/body/impl/TableMapEventBody.java:72-182 | succeeds exactly when the body holds a table map; the fresh TableDefine holds its id, names and columns, and the optional metadata is the one decoded |
| TableMaps.ReadHead | src/org/littlestar/mysql/binlog/event/body/impl/TableMapEventBody.java:75-97 | the cursor reads compute HeadOf |
| TableMaps.ReadName | src/org/littlestar/mysql/binlog/event/body/impl/TableMapEventBody.java:88-90 | the cursor reads compute NameAt |
| TableMaps.ReadColumns | src/org/littlestar/mysql/binlog/event/body/impl/TableMapEventBody.java:100-164 | the three loops compute ColumnsOf and leave its defines in the TableDefine |
| TableMaps.DefinesOfColumns | src/org/littlestar/mysql/binlog/event/body/impl/TableMapEventBody.java:106-164 | what the type, metadata and nullability loops leave are the defines of the part read |
| TableMaps.SetColumnTypes | src/org/littlestar/mysql/binlog/event/body/impl/TableMapEventBody.java:106-114 | the type loop gives define i id i and type code i |
| TableMaps.SetColumnType | src/org/littlestar/mysql/binlog/event/body/impl/TableMapEventBody.java:107-113 | one pass stores a define with id i and the type code |
| TableMaps.SetColumnMetas | src/org/littlestar/mysql/binlog/event/body/impl/TableMapEventBody.java:126-157 | the metadata loop computes ColumnMetas and sets each define's metadata accordingly |
| TableMaps.WithNullability | src/org/littlestar/mysql/binlog/event/body/impl/TableMapEventBody.java:161-164 | the nullability loop keeps the set of ids |
| TableMaps.SetNullability | src/org/littlestar/mysql/binlog/event/body/impl/TableMapEventBody.java:161-164 | column i becomes nullable exactly when bit i is set |
| TableMaps.SetColumnNames | src/org/littlestar/mysql/binlog/event/body/impl/TableMapEventBody.java:176-181 | the column-name loop renames by setColumnName(i, name i) for every name |
| ColumnValues.MetaValue | src/org/littlestar/mysql/binlog/event/body/impl/EventBodyDefaultImpl.java:118-120 | a missing column meta is a null dereference; a present meta of 1 to 8 bytes reads as a Java int, and up to 3 bytes it is the plain unsigned number in the stream's order |
| ColumnValues.CharsetOf | src/org/littlestar/mysql/binlog/event/body/impl/RowsEventBody.java:229-234 | no charset exactly when strings are not decoded; otherwise the column's own charset wins over the default |
| ColumnValues.TextOrBytes | src/org/littlestar/mysql/binlog/event/body/impl/RowsEventBody.java:272-276 | a charset makes the raw bytes a text value in that charset, no charset leaves them as bytes |
| ColumnValues.IntCell | src/org/littlestar/mysql/binlog/event/body/impl/RowsEventBody.java:244-252 | TINY, SHORT and LONG succeed exactly when the start is inside the body, give an integer and advance by the column's width |
| ColumnValues.LongCell | src/org/littlestar/mysql/binlog/event/body/impl/RowsEventBody.java:259-262 | LONGLONG succeeds exactly when the start is inside the body, gives an integer and advances by 8 |
| ColumnValues.FloatingCell | src/org/littlestar/mysql/binlog/event/body/impl/RowsEventBody.java:253-258 | FLOAT and DOUBLE succeed exactly when the start is inside the body, advance by 4 or 8 and give a float or double value |
| ColumnValues.YearCell | src/org/littlestar/mysql/binlog/event/body/impl/RowsEventBody.java:390-394 | YEAR succeeds exactly when the start is inside the body, gives an integer and advances by 1 |
| ColumnValues.DateCell | src/org/littlestar/mysql/binlog/event/body/impl/RowsEventBody.java:395-408 | DATE and NEWDATE succeed exactly when the start is inside the body, give a date and advance by 3 |
| ColumnValues.TimeCell | src/org/littlestar/mysql/binlog/event/body/impl/RowsEventBody.java:409-414 | TIME succeeds exactly when the start is inside the body, gives an h:m:s text and advances by 4 |
| ColumnValues.DateTimeCell | src/org/littlestar/mysql/binlog/event/body/impl/RowsEventBody.java:415-428 | DATETIME needs its first four bytes within the body (the second half is zero-padded), gives a text and advances by 8 |
| ColumnValues.TimestampCell | src/org/littlestar/mysql/binlog/event/body/impl/RowsEventBody.java:429-434 | TIMESTAMP succeeds exactly when the start is inside the body, gives an instant and advances by 4 |
| ColumnValues.FractionAt | src/org/littlestar/mysql/binlog/event/body/impl/RowsEventBody.java:448-455 | reading a fractional-seconds part needs the column meta and never moves the cursor back |
| ColumnValues.Timestamp2Cell | src/org/littlestar/mysql/binlog/event/body/impl/RowsEventBody.java:435-456 | a decoded TIMESTAMP2 starts inside the body, advances by at least 4 and gives a seconds value with its fraction |
| ColumnValues.DateTime2Cell | src/org/littlestar/mysql/binlog/event/body/impl/RowsEventBody.java:457-475 | a decoded DATETIME2 starts inside the body, advances by at least 5 and gives a text |
| ColumnValues.Time2Cell | src/org/littlestar/mysql/binlog/event/body/impl/RowsEventBody.java:476-489 | a decoded TIME2 starts inside the body, advances by at least 3 and gives a text |
| ColumnValues.StringCell | src/org/littlestar/mysql/binlog/event/body/impl/RowsEventBody.java:266-276 | a STRING column succeeds exactly when the packed string does, yields a value and ends after pos and at or below Integer.MAX_VALUE |
| ColumnValues.BytesAfterLength | src/org/littlestar/mysql/binlog/event/body/impl/RowsEventBody.java:283-288 | the bytes after a length prefix are read exactly when the length was read, is non-negative, the start is inside the body and the int sum `pos += length` stays at or below Integer.MAX_VALUE; the cursor moves past them, and a sum past Integer.MAX_VALUE is an IllegalArgumentException |
| ColumnValues.VarcharPrefix | src/org/littlestar/mysql/binlog/event/body/impl/RowsEventBody.java:280-285 | a VARCHAR length prefix is one or two bytes |
| ColumnValues.VarcharCell | src/org/littlestar/mysql/binlog/event/body/impl/RowsEventBody.java:277-293 | a decoded VARCHAR needs the column meta, consumes at least its prefix byte, ends at or below Integer.MAX_VALUE and yields a value |
| ColumnValues.BlobCell | src/org/littlestar/mysql/binlog/event/body/impl/RowsEventBody.java:490-509 | a decoded BLOB needs the column meta, never moves the cursor back, ends at or below Integer.MAX_VALUE and yields a value |
| ColumnValues.BlobCellAt | src/org/littlestar/mysql/binlog/event/body/impl/RowsEventBody.java:500-508 | a BLOB read with an n-byte prefix never moves the cursor back, ends at or below Integer.MAX_VALUE and yields a value |
| ColumnValues.BlobLengthWraps | src/org/littlestar/mysql/binlog/event/body/impl/RowsEventBody.java:500-503 | a BLOB with meta 4 and length bytes FF FF FF 7F read LITTLE_ENDIAN throws IllegalArgumentException wherever it starts, because `pos += blobLength` wraps |
| ColumnValues.GeometryCell | src/org/littlestar/mysql/binlog/event/body/impl/RowsEventBody.java:526-532 | a decoded GEOMETRY needs the column meta, ends at or below Integer.MAX_VALUE and yields raw bytes |
| ColumnValues.BitCell | src/org/littlestar/mysql/binlog/event/body/impl/RowsEventBody.java:517-525 | a decoded BIT needs the column meta and yields raw bytes |
| ColumnValues.DecimalCell | src/org/littlestar/mysql/binlog/event/body/impl/RowsEventBody.java:294-382 | a decoded DECIMAL or NEWDECIMAL needs the column meta and yields a decimal value |
| ColumnValues.DecimalCellAt | src/org/littlestar/mysql/binlog/event/body/impl/RowsEventBody.java:294-382 | a decimal read over w bytes advances by exactly w and yields a decimal value |
| ColumnValues.DecimalCellOf | src/org/littlestar/mysql/binlog/event/body/impl/RowsEventBody.java:294-382 | a decimal decoded from its raw bytes yields a decimal value and keeps the given end position |
| ColumnValues.FixedWidthTypes | src/org/littlestar/mysql/binlog/event/body/impl/RowsEventBody.java:242-265 | the types read with a fixed width are exactly the numeric and the pre-5.6.4 temporal types |
| ColumnValues.IntegerWidth | src/org/littlestar/mysql/binlog/event/body/impl/RowsEventBody.java:244-265 | an integer column is read over 1 to 4 bytes |
| ColumnValues.NumericCell | src/org/littlestar/mysql/binlog/event/body/impl/RowsEventBody.java:244-265 | a numeric column never moves the cursor back |
| ColumnValues.DateTypeCell | src/org/littlestar/mysql/binlog/event/body/impl/RowsEventBody.java:390-408 | a YEAR, DATE or NEWDATE column never moves the cursor back |
| ColumnValues.ClockTypeCell | src/org/littlestar/mysql/binlog/event/body/impl/RowsEventBody.java:409-434 | a TIME, DATETIME or TIMESTAMP column never moves the cursor back |
| ColumnValues.Temporal2Cell | src/org/littlestar/mysql/binlog/event/body/impl/RowsEventBody.java:435-489 | a TIMESTAMP2, DATETIME2 or TIME2 column never moves the cursor back |
| ColumnValues.TextCell | src/org/littlestar/mysql/binlog/event/body/impl/RowsEventBody.java:266-293 | a STRING, VARCHAR or VAR_STRING column never moves the cursor back |
| ColumnValues.OtherCell | src/org/littlestar/mysql/binlog/event/body/impl/RowsEventBody.java:490-532 | a DECIMAL, BLOB, BIT or GEOMETRY column never moves the cursor back |
| ColumnValues.ColumnCell | src/org/littlestar/mysql/binlog/event/body/impl/RowsEventBody.java:242-533 | a column never moves the cursor back, and a type the switch has no case for yields no value and leaves the cursor where it was |
| ColumnValues.DecimalCellOfSteps | src/org/littlestar/mysql/binlog/event/body/impl/RowsEventBody.java:294-382 | an empty decimal is out of bounds; otherwise the magnitude's error or value is the cell's, negated when the encoding marks it negative |
| ColumnValues.DecimalCellIsAt | src/org/littlestar/mysql/binlog/event/body/impl/RowsEventBody.java:294-382 | a DECIMAL column is read over exactly the width its precision and scale lay out |
| ColumnValues.ReadDecimal | src/org/littlestar/mysql/binlog/event/body/impl/RowsEventBody.java:294-382 | the decimal read computes the DECIMAL cell |
| ColumnValues.ReadDecimalAt | src/org/littlestar/mysql/binlog/event/body/impl/RowsEventBody.java:294-382 | the decimal read over w bytes computes the specified cell |
| ColumnValues.DecimalCellAtCopy | src/org/littlestar/mysql/binlog/event/body/impl/RowsEventBody.java:294-382 | a failed copy is the decimal's error, a successful one is decoded with the end just after it |
| ColumnValues.ReadDecimalBytes | src/org/littlestar/mysql/binlog/event/body/impl/RowsEventBody.java:294-382 | the decimal decode of raw bytes computes the specified cell |
| ColumnValues.ReadColumn | src/org/littlestar/mysql/binlog/event/body/impl/RowsEventBody.java:242-533 | one column's read computes the specified cell |
| ColumnValues.ColumnCellIsVarchar | src/org/littlestar/mysql/binlog/event/body/impl/RowsEventBody.java:277-293 | types 0x0f and 0xfd dispatch to the VARCHAR read |
| ColumnValues.ColumnCellIsBlob | src/org/littlestar/mysql/binlog/event/body/impl/RowsEventBody.java:490-509 | type 0xfc dispatches to the BLOB read |
| ColumnValues.ColumnCellIsBit | src/org/littlestar/mysql/binlog/event/body/impl/RowsEventBody.java:517-525 | type 0x10 dispatches to the BIT read |
| ColumnValues.ColumnCellIsDecimal | src/org/littlestar/mysql/binlog/event/body/impl/RowsEventBody.java:294-382 | types 0x00 and 0xf6 dispatch to the DECIMAL read |
| ColumnValues.ColumnCellIsTemporal2 | src/org/littlestar/mysql/binlog/event/body/impl/RowsEventBody.java:435-489 | types 0x11, 0x12 and 0x13 dispatch to the fractional temporal reads |
| ColumnValues.NumericCellDefined | src/org/littlestar/mysql/binlog/event/body/impl/RowsEventBody.java:244-265 | a numeric column succeeds exactly when the start is inside the body, yields a value and advances by its fixed width |
| ColumnValues.DateTypeCellDefined | src/org/littlestar/mysql/binlog/event/body/impl/RowsEventBody.java:390-408 | a YEAR or DATE column succeeds exactly when the start is inside the body, yields a value and advances by its fixed width |
| ColumnValues.ClockTypeCellDefined | src/org/littlestar/mysql/binlog/event/body/impl/RowsEventBody.java:409-434 | TIME and TIMESTAMP succeed when the start is inside the body, DATETIME when its first four bytes are; each yields a value and advances by its fixed width |
| ColumnValues.FixedWidthDefined | src/org/littlestar/mysql/binlog/event/body/impl/RowsEventBody.java:242-434 | every fixed-width column succeeds under those bounds, yields a value and advances by exactly its width |
| ColumnValues.IntCellValue | src/org/littlestar/mysql/binlog/event/body/impl/RowsEventBody.java:244-252 | within bounds an integer column is the signed number of its bytes |
| ColumnValues.LongCellValue | src/org/littlestar/mysql/binlog/event/body/impl/RowsEventBody.java:259-262 | within bounds a LONGLONG column is the signed number of its eight bytes |
| ColumnValues.FloatingCellValue | src/org/littlestar/mysql/binlog/event/body/impl/RowsEventBody.java:253-258 | within bounds a FLOAT or DOUBLE column carries exactly its four or eight raw bytes |
| ColumnValues.YearCellValue | src/org/littlestar/mysql/binlog/event/body/impl/RowsEventBody.java:390-394 | within bounds a YEAR column is its byte read as a signed Java byte |
| ColumnValues.LengthPrefix | src/org/littlestar/mysql/binlog/event/body/impl/RowsEventBody.java:280-285 | a length prefix written on n bytes has n bytes |
| ColumnValues.PrefixValue | src/org/littlestar/mysql/binlog/event/body/impl/RowsEventBody.java:280-285 | a written length prefix reads back as its length |
| ColumnValues.PrefixedBody | src/org/littlestar/mysql/binlog/event/body/impl/RowsEventBody.java:277-293 | a body made of a prefix, the data and anything around them, within a Java array, holds that data at the prefix's position |
| ColumnValues.PrefixedLength | src/org/littlestar/mysql/binlog/event/body/impl/RowsEventBody.java:280-285 | in such a body the prefix bytes read back as the data's length |
| ColumnValues.PrefixedData | src/org/littlestar/mysql/binlog/event/body/impl/RowsEventBody.java:286-292 | in such a body the bytes after the prefix are exactly the data, and the cursor ends just after it |
| ColumnValues.BytesAfterLengthRead | src/org/littlestar/mysql/binlog/event/body/impl/RowsEventBody.java:286-292 | a length whose bytes are present in a Java array reads exactly those bytes |
| ColumnValues.VarcharCellIsAfter | src/org/littlestar/mysql/binlog/event/body/impl/RowsEventBody.java:277-293 | a VARCHAR is its data read after a prefix of the width its meta selects |
| ColumnValues.VarcharCellRoundTrip | src/org/littlestar/mysql/binlog/event/body/impl/RowsEventBody.java:277-293 | a VARCHAR written with its prefix reads back as its data, with the cursor after it |
| ColumnValues.VarcharRoundTrip | src/org/littlestar/mysql/binlog/event/body/impl/RowsEventBody.java:277-293 | the same round trip through the column dispatch |
| ColumnValues.BlobCellAtAfter | src/org/littlestar/mysql/binlog/event/body/impl/RowsEventBody.java:500-508 | a BLOB is its data read after its length prefix |
| ColumnValues.BlobCellRoundTrip | src/org/littlestar/mysql/binlog/event/body/impl/RowsEventBody.java:490-509 | a BLOB written with an n-byte prefix (n from the meta) reads back as its data, with the cursor after it |
| ColumnValues.BlobRoundTrip | src/org/littlestar/mysql/binlog/event/body/impl/RowsEventBody.java:490-509 | the same round trip through the column dispatch |
| ColumnValues.BitCellWidth | src/org/littlestar/mysql/binlog/event/body/impl/RowsEventBody.java:517-525 | a BIT column succeeds exactly when the start is inside the body and takes the fewest whole bytes that hold its bits |
| ColumnValues.BitColumnWidth | src/org/littlestar/mysql/binlog/event/body/impl/RowsEventBody.java:517-525 | the same width through the column dispatch |
| ColumnValues.FractionAtWidth | src/org/littlestar/mysql/binlog/parser/ParserHelper.java:707-710 | a fractional-seconds part of precision fsp takes (fsp+1)/2 bytes and is present exactly when fsp > 0 |
| ColumnValues.Temporal2CellWidth | src/org/littlestar/mysql/binlog/event/body/impl/RowsEventBody.java:435-489 | a fractional temporal column takes its base width plus (fsp+1)/2 bytes and yields a value |
| ColumnValues.Temporal2Width | src/org/littlestar/mysql/binlog/event/body/impl/RowsEventBody.java:435-489 | the same width through the column dispatch |
| ColumnValues.DecimalCellValue | src/org/littlestar/mysql/binlog/event/body/impl/RowsEventBody.java:294-382 | a DECIMAL column holding a well-formed encoding is the value the reference formatter gives, with the cursor just after it |
| ColumnValues.DecimalWidthFits | src/org/littlestar/mysql/binlog/event/body/impl/RowsEventBody.java:318-335 | a well-formed encoding is exactly as long as the layout its precision and scale give |
| ColumnValues.DecimalCellAtOf | src/org/littlestar/mysql/binlog/event/body/impl/RowsEventBody.java:294-382 | a decimal whose bytes are present is decoded from exactly those bytes |
| ColumnValues.DecimalCellOfValue | src/org/littlestar/mysql/binlog/event/body/impl/RowsEventBody.java:294-382 | a well-formed encoding decodes to the reference formatter's value |
| ColumnValues.DecimalColumnValue | src/org/littlestar/mysql/binlog/event/body/impl/RowsEventBody.java:294-382 | the same value through the column dispatch |
| ColumnValues.WholeWordDecimalColumnFails | src/org/littlestar/mysql/binlog/event/body/impl/RowsEventBody.java:294-382 | through the column dispatch, a DECIMAL whose scale is a positive multiple of 9 always fails |
| ColumnValues.WholeWordDecimalFails | src/org/littlestar/mysql/binlog/event/body/impl/RowsEventBody.java:294-382 | a DECIMAL whose scale is a positive multiple of 9 always fails |
| ColumnValues.WholeWordCopyFails | src/org/littlestar/mysql/binlog/event/body/impl/RowsEventBody.java:294-382 | such a decimal fails whatever its bytes are |
| Decimals.Pow10 | src/org/littlestar/mysql/binlog/event/body/impl/RowsEventBody.java:352-380 | a power of ten is at least 1 |
| Decimals.LeftoverBytes | src/org/littlestar/mysql/binlog/event/body/impl/RowsEventBody.java:541-553 | a leftover of 1 to 9 digits takes 1 to 4 bytes, any other count takes none |
| Decimals.LeftoverBytesIsDig2Bytes | src/org/littlestar/mysql/binlog/event/body/impl/RowsEventBody.java:541-553 | the leftover widths agree with MySQL's dig2bytes table for 0 to 9 digits |
| Decimals.LeftoverDigitsFit | src/org/littlestar/mysql/binlog/event/body/impl/RowsEventBody.java:541-553 | the bytes given to n leftover digits hold any n-digit value with its sign bit to spare |
| Decimals.LayoutOf | src/org/littlestar/mysql/binlog/event/body/impl/RowsEventBody.java:318-334 | the leftover widths of a column's layout are never negative |
| Decimals.FractionWithinScale | src/org/littlestar/mysql/binlog/event/body/impl/RowsEventBody.java:318-334 | a layout with fraction bytes has a positive scale and no more whole fraction words than the scale allows |
| Decimals.LayoutOfNatural | src/org/littlestar/mysql/binlog/event/body/impl/RowsEventBody.java:318-334 | for 0 <= scale <= precision the layout is the integer and fraction digits cut into nines and their leftovers |
| Decimals.FlipTop | src/org/littlestar/mysql/binlog/event/body/impl/RowsEventBody.java:340 | flipping the top bit turns a byte with it set into one without it and back |
| Decimals.Inverted | src/org/littlestar/mysql/binlog/event/body/impl/RowsEventBody.java:342-346 | inverting every byte keeps the length |
| Decimals.Magnitude | src/org/littlestar/mysql/binlog/event/body/impl/RowsEventBody.java:338-346 | the magnitude has the stored value's length and its first byte has no sign bit |
| Decimals.Stored | src/org/littlestar/mysql/binlog/event/body/impl/RowsEventBody.java:338-346 | storing a magnitude with a sign keeps its length |
| Decimals.MagnitudeOfStored | src/org/littlestar/mysql/binlog/event/body/impl/RowsEventBody.java:338-346 | a magnitude stored with a sign reads back as that sign and that magnitude |
| Decimals.StoredOfMagnitude | src/org/littlestar/mysql/binlog/event/body/impl/RowsEventBody.java:338-346 | every stored value is its magnitude stored with its sign, so the two are inverse |
| Decimals.FlippedFirst | src/org/littlestar/mysql/binlog/event/body/impl/RowsEventBody.java:340 | after the top-bit flip, only the first byte differs |
| Decimals.InvertedAll | src/org/littlestar/mysql/binlog/event/body/impl/RowsEventBody.java:342-346 | a loop that inverts every byte produces the inverted sequence |
| Decimals.RestoreMagnitude | src/org/littlestar/mysql/binlog/event/body/impl/RowsEventBody.java:338-346 | in place on the copied bytes: an empty value is out of bounds; otherwise the array becomes the magnitude and the result says whether the value is negative |
| Decimals.GroupValueIsBigEndian | src/org/littlestar/mysql/binlog/event/body/impl/RowsEventBody.java:348-357 | a group's value is its bytes read big-endian |
| Decimals.FormatOf | src/org/littlestar/mysql/binlog/event/body/impl/RowsEventBody.java:318-334 | MySQL's format splits precision - scale and scale into whole nine-digit words and a leftover below nine |
| Decimals.FormatWidthIsLayoutWidth | src/org/littlestar/mysql/binlog/event/body/impl/RowsEventBody.java:318-334 | the reader's layout and MySQL's format agree on every group count and on the total width |
| Decimals.GroupRead | src/org/littlestar/mysql/binlog/event/body/impl/RowsEventBody.java:350-351 | a group of 1 to 4 bytes whose value fits a Java int reads as that value |
| Decimals.DigitsRead | src/org/littlestar/mysql/binlog/event/body/impl/RowsEventBody.java:348-351 | a leftover group holding fewer than 10^n reads as its value |
| Decimals.WordRead | src/org/littlestar/mysql/binlog/event/body/impl/RowsEventBody.java:352-357 | a whole word holding fewer than 10^9 reads as its value |
| Decimals.LeadRead | src/org/littlestar/mysql/binlog/event/body/impl/RowsEventBody.java:347-351 | the integer part's leading leftover group reads as its value, or 0 when there is none |
| Decimals.IntegerWordsRead | src/org/littlestar/mysql/binlog/event/body/impl/RowsEventBody.java:352-357 | at most one whole integer word is read as MySQL's format gives it |
| Decimals.MagnitudeValueOfStages | src/org/littlestar/mysql/binlog/event/body/impl/RowsEventBody.java:347-382 | the magnitude's value is the integer stage followed by the fraction stage |
| Decimals.IntegerPartRead | src/org/littlestar/mysql/binlog/event/body/impl/RowsEventBody.java:347-357 | when the layout has the format's shape and the groups fit, the integer stage yields the integer part and its end offset |
| Decimals.AfterFractionStep | src/org/littlestar/mysql/binlog/event/body/impl/RowsEventBody.java:370-375 | the trailing fraction group is added to the scaled integer part and the words read so far |
| Decimals.AfterIntegerStep | src/org/littlestar/mysql/binlog/event/body/impl/RowsEventBody.java:360-375 | the stage after the integer part reads the whole fraction words and then the trailing group |
| Decimals.NoFractionRead | src/org/littlestar/mysql/binlog/event/body/impl/RowsEventBody.java:370-375 | a layout with no fraction bytes ends with the integer part at scale 0 |
| Decimals.LeftoverFractionRead | src/org/littlestar/mysql/binlog/event/body/impl/RowsEventBody.java:370-375 | a scale of 1 to 8 is read as a single trailing group, giving the format's scaled value |
| Decimals.OneFractionWordRead | src/org/littlestar/mysql/binlog/event/body/impl/RowsEventBody.java:361-366 | one whole fraction word is read at its place below the point |
| Decimals.WordAndLeftoverFractionRead | src/org/littlestar/mysql/binlog/event/body/impl/RowsEventBody.java:360-375 | a scale of 10 to 17 is read as one word and a trailing group, giving the format's scaled value |
| Decimals.WordAndLeftoverStages | src/org/littlestar/mysql/binlog/event/body/impl/RowsEventBody.java:360-375 | the value after one word and a trailing group is their weighted sum |
| Decimals.OneFractionWordStage | src/org/littlestar/mysql/binlog/event/body/impl/RowsEventBody.java:360-366 | with one whole fraction word, the stage is that word at its weight followed by the trailing group |
| Decimals.WordAndLeftoverValue | src/org/littlestar/mysql/binlog/event/body/impl/RowsEventBody.java:360-375 | the format's scaled value with one word and a trailing group is their weighted sum |
| Decimals.FractionRead | src/org/littlestar/mysql/binlog/event/body/impl/RowsEventBody.java:360-375 | for every fraction shape the reader handles, the fraction stage gives the format's scaled value |
| Decimals.MagnitudeMatches | src/org/littlestar/mysql/binlog/event/body/impl/RowsEventBody.java:347-377 | when the shapes match and the groups fit, the reader's magnitude value is the format's |
| Decimals.SmallShapes | src/org/littlestar/mysql/binlog/event/body/impl/RowsEventBody.java:318-334 | with at most one whole word on each side and a scale that is not a positive multiple of 9, the reader's layout has the format's shape and width |
| Decimals.FormatAgreement | src/org/littlestar/mysql/binlog/event/body/impl/RowsEventBody.java:294-382 | for those precisions and scales, a well-formed encoding decodes to exactly the value MySQL's format gives it |
| Decimals.FormatValueOf | src/org/littlestar/mysql/binlog/event/body/impl/RowsEventBody.java:376-381 | the format's value is the magnitude's value, negated for a negative encoding, at the column's scale |
| Decimals.DecimalOfMagnitude | src/org/littlestar/mysql/binlog/event/body/impl/RowsEventBody.java:376-381 | the decoded decimal is the magnitude's value, negated for a negative encoding |
| Decimals.WholeWordFractionFails | src/org/littlestar/mysql/binlog/event/body/impl/RowsEventBody.java:370-375 | a scale that is a positive multiple of 9 always fails, because the trailing group read has no bytes |
| Decimals.MagnitudeValueFails | src/org/littlestar/mysql/binlog/event/body/impl/RowsEventBody.java:370-375 | a layout with fraction bytes but no trailing group always fails |
| Decimals.EmptyLeftoverFails | src/org/littlestar/mysql/binlog/event/body/impl/RowsEventBody.java:370-375 | reading a trailing group of no bytes fails |
| Decimals.TwoIntegerWordsMisread | src/org/littlestar/mysql/binlog/event/body/impl/RowsEventBody.java:352-357 | a DECIMAL(18,0) holding 1 is read as 16777216, because the second word copy grows to 8 bytes |
| Decimals.MisreadMagnitude | src/org/littlestar/mysql/binlog/event/body/impl/RowsEventBody.java:338-346 | the encoding of +1 as DECIMAL(18,0) has magnitude 0,0,0,0,0,0,0,1 and is not negative |
| Decimals.MisreadFormat | src/org/littlestar/mysql/binlog/event/body/impl/RowsEventBody.java:294-382 | MySQL's format reads that magnitude as 1 |
| Decimals.TwoWordsFormat | src/org/littlestar/mysql/binlog/event/body/impl/RowsEventBody.java:352-357 | with two whole integer words, the format's value is the first word times 10^9 plus the second |
| Decimals.MisreadRead | src/org/littlestar/mysql/binlog/event/body/impl/RowsEventBody.java:294-382 | the reader decodes that encoding as 16777216 |
| Decimals.MisreadLayout | src/org/littlestar/mysql/binlog/event/body/impl/RowsEventBody.java:318-357 | the reader's layout for DECIMAL(18,0) reads that magnitude as 16777216 |
| Decimals.TwoWordsLayout | src/org/littlestar/mysql/binlog/event/body/impl/RowsEventBody.java:318-334 | DECIMAL(18,0) lays out as two whole integer words and nothing else |
| Decimals.MisreadWords | src/org/littlestar/mysql/binlog/event/body/impl/RowsEventBody.java:352-357 | two whole integer words over that magnitude read as 16777216 |
| Decimals.MisreadSecondWord | src/org/littlestar/mysql/binlog/event/body/impl/RowsEventBody.java:352-355 | the second word's copy runs from offset 4 to 12 and reads as 16777216 |
| RowsEvents.RowsEventFlagsName | src/org/littlestar/mysql/binlog/event/body/impl/RowsEventBody.java:159-171 | flags 1, 2, 4 and 8 have their rows_event.h names (the first with its leading space); any other value is its decimal text |
| RowsEvents.RowsEventFlagsNameInjective | src/org/littlestar/mysql/binlog/event/body/impl/RowsEventBody.java:159-171 | two Java ints with the same flag name are equal |
| RowsEvents.RowEventVersion | src/org/littlestar/mysql/binlog/event/body/impl/RowsEventBody.java:179-189 | the row-event version is 0, 1 or 2 |
| RowsEvents.RowEventVersionOrder | src/org/littlestar/mysql/binlog/event/body/impl/RowsEventBody.java:179-189 | version 2 exactly for servers from 5.6 on, 0 only before 5.1.15, 1 only from 5.1.15 to before 5.6 |
| RowsEvents.GetRowEventVersion | src/org/littlestar/mysql/binlog/event/body/impl/RowsEventBody.java:179-189 | the method computes the row-event version |
| RowsEvents.RowEventVersionOf | src/org/littlestar/mysql/binlog/event/body/impl/RowsEventBody.java:110 | a missing server version is a null dereference; a present one gives its row-event version |
| RowsEvents.BitmapLength | src/org/littlestar/mysql/binlog/event/body/impl/RowsEventBody.java:121 | a bitmap for n columns takes (n+7)/8 bytes while the sum does not overflow |
| RowsEvents.HeadOf | src/org/littlestar/mysql/binlog/event/body/impl/RowsEventBody.java:100-123 | a decoded head never has more present columns than columns |
| RowsEvents.HeadAfterFlags | src/org/littlestar/mysql/binlog/event/body/impl/RowsEventBody.java:110-123 | the head after the flags keeps at most as many present columns as columns |
| RowsEvents.HeadAfterExtra | src/org/littlestar/mysql/binlog/event/body/impl/RowsEventBody.java:115-123 | the head after the extra data keeps at most as many present columns as columns |
| RowsEvents.HeadAfterCount | src/org/littlestar/mysql/binlog/event/body/impl/RowsEventBody.java:120-123 | the present bitmap is cut to the column count, so its cardinality is at most that count, and a negative count fails |
| RowsEvents.ReadRowsHead | src/org/littlestar/mysql/binlog/event/body/impl/RowsEventBody.java:100-123 | the head read computes the specified head |
| RowsEvents.ReadExtraData | src/org/littlestar/mysql/binlog/event/body/impl/RowsEventBody.java:110-123 | the read after the flags computes the specified head |
| RowsEvents.ReadPresentBitmap | src/org/littlestar/mysql/binlog/event/body/impl/RowsEventBody.java:115-123 | the read after the extra data computes the specified head |
| RowsEvents.ReadPresentBits | src/org/littlestar/mysql/binlog/event/body/impl/RowsEventBody.java:120-123 | the present-bitmap read computes the specified head |
| RowsEvents.TypeSwitchAdvances | src/org/littlestar/mysql/binlog/event/body/impl/RowsEventBody.java:242-533 | the column type switch never moves the cursor back |
| RowsEvents.ScopeOf | src/org/littlestar/mysql/binlog/event/body/impl/RowsEventBody.java:228-234 | an image is read with the body, the string-decoding switch and default charset of the file, and the column type switch |
| RowsEvents.ColumnDefineAt | src/org/littlestar/mysql/binlog/event/body/impl/RowsEventBody.java:228 | the define looked up for a column is the table's entry for it, or nothing when there is none |
| RowsEvents.ColumnStep | src/org/littlestar/mysql/binlog/event/body/impl/RowsEventBody.java:228-537 | a missing define is a null dereference when strings are decoded or the column is not null; a null column with its define yields no value and leaves the cursor |
| RowsEvents.ColumnsFrom | src/org/littlestar/mysql/binlog/event/body/impl/RowsEventBody.java:227-537 | the column loop never moves the cursor back |
| RowsEvents.ColumnsAfter | src/org/littlestar/mysql/binlog/event/body/impl/RowsEventBody.java:227-537 | the loop after one step never moves the cursor back |
| RowsEvents.ColumnsFromStep | src/org/littlestar/mysql/binlog/event/body/impl/RowsEventBody.java:227-537 | the column loop is its first step followed by the rest |
| RowsEvents.RowImageOf | src/org/littlestar/mysql/binlog/event/body/impl/RowsEventBody.java:207-539 | a row image keeps its table id and start position, and its null bitmap length is not negative |
| RowsEvents.RowImageWith | src/org/littlestar/mysql/binlog/event/body/impl/RowsEventBody.java:214-539 | the image after the null bitmap keeps its table id and start and ends no earlier than the bitmap |
| RowsEvents.RowImageAfterBitmap | src/org/littlestar/mysql/binlog/event/body/impl/RowsEventBody.java:211-212 | the image is read after exactly the null bitmap's bytes |
| RowsEvents.ColumnsFromShape | src/org/littlestar/mysql/binlog/event/body/impl/RowsEventBody.java:227-537 | the loop adds one image per remaining column, keyed and numbered by the column, null where the bitmap says so, and keeps every earlier entry |
| RowsEvents.ColumnsAfterShape | src/org/littlestar/mysql/binlog/event/body/impl/RowsEventBody.java:227-537 | the same shape after one step |
| RowsEvents.RowImageShape | src/org/littlestar/mysql/binlog/event/body/impl/RowsEventBody.java:207-539 | a row image has one column image per table column, numbered by the column, null where the null bitmap says so, is all-null exactly when every bit is set, and ends after the bitmap |
| RowsEvents.NullColumnsReadNothing | src/org/littlestar/mysql/binlog/event/body/impl/RowsEventBody.java:237-238 | columns whose null bit is set read no bytes |
| RowsEvents.AllNullImageSpan | src/org/littlestar/mysql/binlog/event/body/impl/RowsEventBody.java:218-226 | an image whose every column is null is all-null and ends right after its null bitmap |
| RowsEvents.ImagesFrom | src/org/littlestar/mysql/binlog/event/body/impl/RowsEventBody.java:125-135 | the image loop keeps every image collected before it |
| RowsEvents.ImagesAfter | src/org/littlestar/mysql/binlog/event/body/impl/RowsEventBody.java:125-135 | the loop after one image keeps every image collected before it |
| RowsEvents.ImagesFromStep | src/org/littlestar/mysql/binlog/event/body/impl/RowsEventBody.java:125-135 | the image loop is its first image followed by the rest |
| RowsEvents.ImagesFromCases | src/org/littlestar/mysql/binlog/event/body/impl/RowsEventBody.java:125-135 | a failed image fails the loop; an image that does not advance never terminates; an all-null image is skipped and any other is appended, the loop going on from its end |
| RowsEvents.ImagesFromShape | src/org/littlestar/mysql/binlog/event/body/impl/RowsEventBody.java:125-135 | every image the loop keeps is not all-null, lies after the start, and each ends before the next begins |
| RowsEvents.ImagesAfterShape | src/org/littlestar/mysql/binlog/event/body/impl/RowsEventBody.java:125-135 | the same after one image |
| RowsEvents.EmptyTableDiverges | src/org/littlestar/mysql/binlog/event/body/impl/RowsEventBody.java:125-135 | with a table of no columns and room left in the body the image loop never ends |
| RowsEvents.Lookup | src/org/littlestar/mysql/binlog/event/body/impl/RowsEventBody.java:214 | the table looked up is the cached define for the id, or nothing when there is none |
| RowsEvents.RowsShape | src/org/littlestar/mysql/binlog/event/body/impl/RowsEventBody.java:98-136 | in a decoded rows event every image belongs to the cached table, is not all-null, lies after the head, has one column image per table column, and the images are in order without overlap |
| RowsEvents.IsAllNull | src/org/littlestar/mysql/binlog/event/body/impl/RowsEventBody.java:218-226 | the all-null check computes whether every column's null bit is set |
| RowsEvents.ReadImageColumn | src/org/littlestar/mysql/binlog/event/body/impl/RowsEventBody.java:228-537 | one column's read computes the specified step |
| RowsEvents.FillColumns | src/org/littlestar/mysql/binlog/event/body/impl/RowsEventBody.java:227-537 | the loop sets the image's columns to the specified ones and changes nothing else of the image |
| RowsEvents.CachedColumns | src/org/littlestar/mysql/binlog/parser/BinlogFileMeta.java:80-86 | the cached tables, by id, with the columns of each one's define |
| RowsEvents.TableColumns | src/org/littlestar/mysql/binlog/event/body/impl/RowsEventBody.java:214-215 | the columns of a table id are its entry among the cached tables |
| RowsEvents.GetRowImage | src/org/littlestar/mysql/binlog/event/body/impl/RowsEventBody.java:207-539 | the method builds a fresh row image holding the specified value |
| RowsEvents.CompleteRowImage | src/org/littlestar/mysql/binlog/event/body/impl/RowsEventBody.java:214-539 | the rest of the image after the null bitmap, fresh and holding the specified value |
| RowsEvents.ReadRowImages | src/org/littlestar/mysql/binlog/event/body/impl/RowsEventBody.java:125-135 | the image loop gives fresh row images holding the specified sequence |
| RowsEvents.ServerVersionText | src/org/littlestar/mysql/binlog/event/body/impl/RowsEventBody.java:110 | the server version text is present exactly when the bytes are, with one character per byte |
| RowsEvents.DecodeRowsEvent | src/org/littlestar/mysql/binlog/event/body/impl/RowsEventBody.java:98-136 | the constructor's result holds the specified rows event for the file's cached tables, server version and table-map post-header length |
| EventBodyFactory.RowsTypesDecodeAsRows | src/org/littlestar/mysql/binlog/event/body/EventBodyFactory.java:62-69 | exactly the six rows event types are decoded as rows bodies |
| EventBodyFactory.GtidTypesDecodeAsGtid | src/org/littlestar/mysql/binlog/event/body/EventBodyFactory.java:70-73 | exactly GTID_LOG_EVENT and ANONYMOUS_GTID_LOG_EVENT are decoded as GTID bodies |
| EventBodyFactory.UnlistedTypesStayUndecoded | src/org/littlestar/mysql/binlog/event/body/EventBodyFactory.java:92-94 | exactly the types the switch does not list get the default body |
| EventBodyFactory.OwnDecoder | src/org/littlestar/mysql/binlog/event/body/EventBodyFactory.java:47-91 | every other decoder is chosen by exactly one event type |
| EventBodyFactory.ContextOf | src/org/littlestar/mysql/binlog/event/body/impl/EventBodyDefaultImpl.java:35-40 | every body keeps its bytes, the header's body length and the file's checksum length and byte order |
| EventBodyFactory.XidContent | src/org/littlestar/mysql/binlog/event/body/EventBodyFactory.java:56-58 | an XID body always decodes, to what the XID decoder reads |
| EventBodyFactory.BeginLoadQueryContent | src/org/littlestar/mysql/binlog/event/body/EventBodyFactory.java:83-85 | a decoded BEGIN_LOAD_QUERY body is what its decoder reads |
| EventBodyFactory.QueryContent | src/org/littlestar/mysql/binlog/event/body/EventBodyFactory.java:53-55 | a decoded QUERY body is one the query encoding relates to the bytes |
| EventBodyFactory.TableMapContent | src/org/littlestar/mysql/binlog/event/body/EventBodyFactory.java:59-61 | a TABLE_MAP body decodes exactly when the file has the table-map post-header length and the table map reads under it, and then holds what is read |
| EventBodyFactory.RowsContent | src/org/littlestar/mysql/binlog/event/body/EventBodyFactory.java:62-69 | a rows body decodes exactly when the rows decoder succeeds, fails with its error, and holds the specified event |
| EventBodyFactory.GtidContent | src/org/littlestar/mysql/binlog/event/body/EventBodyFactory.java:70-73 | a decoded GTID body is one the GTID encoding relates to the bytes |
| EventBodyFactory.RotateContent | src/org/littlestar/mysql/binlog/event/body/EventBodyFactory.java:74-76 | a decoded ROTATE body is one the rotate encoding relates to the bytes |
| EventBodyFactory.PreviousGtidsContent | src/org/littlestar/mysql/binlog/event/body/EventBodyFactory.java:77-79 | a decoded PREVIOUS_GTIDS body is the GTID set read from the bytes |
| EventBodyFactory.UserVarContent | src/org/littlestar/mysql/binlog/event/body/EventBodyFactory.java:86-88 | a decoded USER_VAR body is one the user-variable encoding relates to the bytes |
| EventBodyFactory.ExecuteLoadQueryContent | src/org/littlestar/mysql/binlog/event/body/EventBodyFactory.java:89-91 | a decoded EXECUTE_LOAD_QUERY body is one its encoding relates to the bytes |
| EventBodyFactory.DecodeContent | src/org/littlestar/mysql/binlog/event/body/EventBodyFactory.java:45-95 | a decoded body has the kind asked for and is what that kind's decoder reads; the default, format-description, start, XID and stop bodies never fail, and a rows body decodes exactly when its decoder succeeds |
| EventBodyFactory.DecodeValueContent | src/org/littlestar/mysql/binlog/event/body/EventBodyFactory.java:45-95 | the same for every kind but the table map and rows |
| EventBodyFactory.DecodeCursorContent | src/org/littlestar/mysql/binlog/event/body/EventBodyFactory.java:53-91 | for the query, GTID, rotate, previous-GTIDs, user-variable and execute-load-query kinds, a decoded body has that kind and is what its decoder reads |
| EventBodyFactory.DecodeFixedContent | src/org/littlestar/mysql/binlog/event/body/EventBodyFactory.java:47-94 | for the default, format-description, start, XID, stop and begin-load-query kinds, a decoded body has that kind and is what its decoder reads, and all but begin-load-query always decode |
| EventBodyFactory.CreateEventBody | src/org/littlestar/mysql/binlog/event/body/EventBodyFactory.java:39-97 | without decoding the body is the default one; with decoding a missing event type is a null dereference, and otherwise the body has the kind the switch picks for the type, is what that kind's decoder reads, and never fails for the kinds that cannot throw |
| BinlogParsers.HeaderAt | src/org/littlestar/mysql/binlog/parser/impl/BinlogParser4.java:133-157 | a header is read exactly when its whole common header lies in the file, else the buffer underflows; the cursor ends after the bytes the header length reads |
| BinlogParsers.HeaderStartAt | src/org/littlestar/mysql/binlog/parser/impl/BinlogParser4.java:134-139 | the thirteen bytes every header starts with are read exactly when present; the event size is a Java int, and the next position and flags start as -1 |
| BinlogParsers.HeaderEndAt | src/org/littlestar/mysql/binlog/parser/impl/BinlogParser4.java:140-148 | the rest of a header is read exactly when the common header length's bytes are present, and the cursor ends after them |
| BinlogParsers.Encoded | src/org/littlestar/mysql/binlog/parser/impl/BinlogParser4.java:133-157 | a field written on n bytes has n bytes |
| BinlogParsers.FieldRoundTrip | src/org/littlestar/mysql/binlog/parser/impl/BinlogParser4.java:135-145 | a written field reads back as its value, as an unsigned long and, when it fits a Java int, as an unsigned int |
| BinlogParsers.HeaderStartRoundTrip | src/org/littlestar/mysql/binlog/parser/impl/BinlogParser4.java:134-139 | a written timestamp, type code, server id and event size read back, the timestamp in milliseconds |
| BinlogParsers.HeaderV4RoundTrip | src/org/littlestar/mysql/binlog/parser/impl/BinlogParser4.java:143-145 | with a 19-byte common header the next position and flags read back as written |
| BinlogParsers.HeaderV1RoundTrip | src/org/littlestar/mysql/binlog/parser/impl/BinlogParser4.java:146-147 | with a 13-byte common header the next position is the event's start plus its size and there are no flags |
| BinlogParsers.BinlogParser4.constructor | src/org/littlestar/mysql/binlog/parser/impl/BinlogParser4.java:39-44 | a parser maps its meta's file, with the cursor at 0 and no event filter |
| BinlogParsers.BinlogParser4.NewParser | src/org/littlestar/mysql/binlog/parser/impl/BinlogParser4.java:48-54 | a parser is made exactly when the file holds the magic number, which it skips; it keeps the meta and the filter, and a shorter file is an illegal position |
| BinlogParsers.BinlogParser4.HasEvent | src/org/littlestar/mysql/binlog/parser/impl/BinlogParser4.java:106-110 | there is an event exactly when a common header's length remains, which for the two header lengths is exactly when a header can be read |
| BinlogParsers.BinlogParser4.GetEventHeader | src/org/littlestar/mysql/binlog/parser/impl/BinlogParser4.java:133-157 | the header read fails exactly when the header cannot be read, with its error; otherwise it is a fresh header holding the fields read, and the cursor is after them |
| BinlogParsers.BinlogParser4.ReadHeaderStart | src/org/littlestar/mysql/binlog/parser/impl/BinlogParser4.java:134-139 | the first thirteen bytes are read as specified and the cursor is after them |
| BinlogParsers.BinlogParser4.ReadHeaderEnd | src/org/littlestar/mysql/binlog/parser/impl/BinlogParser4.java:140-148 | the rest of the header is read as specified and the cursor is after it |
| BinlogParsers.BinlogParser4.GetEventBody | src/org/littlestar/mysql/binlog/parser/impl/BinlogParser4.java:159-171 | the body is the header's body length of bytes at the cursor, decoded by the factory; a table map is put into the meta's cache under its id, and nothing else of the meta changes |
| BinlogParsers.BinlogParser4.DecodeBody | src/org/littlestar/mysql/binlog/parser/impl/BinlogParser4.java:162 | the body is what the factory builds from the raw bytes |
| BinlogParsers.BinlogParser4.NextEvent | src/org/littlestar/mysql/binlog/parser/impl/BinlogParser4.java:76-94 | a header that cannot be read fails and reads no event; otherwise the cursor moves to the header's next position cast to a Java int, the body is read exactly when the filter lets the type through and holds the body bytes decoded, a body let through that fails to decode fails the call, and on every path, including a cursor move that throws, the cache gains exactly the table map that was decoded and is otherwise unchanged |
| BinlogParsers.BinlogParser4.FilteredBody | src/org/littlestar/mysql/binlog/parser/impl/BinlogParser4.java:79-87 | a filtered-out type reads no body and cannot fail; a type let through reads and decodes its body; the cache gains the table map exactly when one decoded and is otherwise unchanged, a failed decode included |
| BinlogParsers.KindOfTableMap | src/org/littlestar/mysql/binlog/parser/impl/BinlogParser4.java:163-166 | only a TABLE_MAP_EVENT is decoded as a table map body |
| BinlogParsers.TableMapKindOnly | src/org/littlestar/mysql/binlog/parser/impl/BinlogParser4.java:163-166 | a body of the table map kind holds a table map |
| ParserBuilders.StartFieldsAt | src/org/littlestar/mysql/binlog/parser/BinlogParserBuilder.java:157-164 | the binlog version, server version and creation time are read exactly when their 56 bytes are present, and the cursor ends after them |
| ParserBuilders.FirstEventOf | src/org/littlestar/mysql/binlog/parser/BinlogParserBuilder.java:131-141 | the first event's type and size are read exactly when the 13 bytes after the magic number are present; the size is a Java int |
| ParserBuilders.IntIncrement | src/org/littlestar/mysql/binlog/parser/BinlogParserBuilder.java:141 | adding one to a Java int keeps it below the maximum and wraps to the minimum at the maximum |
| ParserBuilders.BootstrapChecksMagic | src/org/littlestar/mysql/binlog/parser/BinlogParserBuilder.java:124-129 | a file too short for the magic number underflows, and one whose first four bytes are not the magic number is rejected as not a binlog |
| ParserBuilders.BootstrapFirstEvent | src/org/littlestar/mysql/binlog/parser/BinlogParserBuilder.java:130-141 | after the magic number the first event's type code and size are read from their header places, and a first event that is neither START_EVENT_V3 nor FORMAT_DESCRIPTION_EVENT is an unknown binlog version |
| ParserBuilders.StartEventV3Header | src/org/littlestar/mysql/binlog/parser/BinlogParserBuilder.java:148-165 | a START_EVENT_V3 larger than 69 bytes gives a 19-byte common header and its fields after the 6 skipped bytes, else a 13-byte header; there are no post-header lengths and no checksum; the meta holds the start fields |
| ParserBuilders.StartFieldsContent | src/org/littlestar/mysql/binlog/parser/BinlogParserBuilder.java:157-164 | the binlog version is the first two bytes, the server version the next 50 trimmed, and the creation time the next four in milliseconds |
| ParserBuilders.FormatDescriptionWithChecksum | src/org/littlestar/mysql/binlog/parser/BinlogParserBuilder.java:185-206 | a format description whose size leaves room after the post-header table gives that table, the algorithm byte and a checksum length of what follows it |
| ParserBuilders.FormatDescriptionWithoutChecksum | src/org/littlestar/mysql/binlog/parser/BinlogParserBuilder.java:185-206 | a format description with no room after the post-header table gives that table and no checksum |
| ParserBuilders.FormatDescriptionHeader | src/org/littlestar/mysql/binlog/parser/BinlogParserBuilder.java:166-206 | a FORMAT_DESCRIPTION_EVENT gives a 19-byte common header, post-header lengths and the start fields after the 6 skipped bytes, and succeeds exactly when the table and its tail can be read |
| ParserBuilders.GetBinlogFileMeta | src/org/littlestar/mysql/binlog/parser/BinlogParserBuilder.java:123-212 | the bootstrap fails exactly when the specified bootstrap does, with its error; otherwise it gives a fresh meta for the buffer's file and order holding the bootstrap's settings and an empty table cache |
| ParserBuilders.ReadFirstEvent | src/org/littlestar/mysql/binlog/parser/BinlogParserBuilder.java:131-141 | the first event's read computes the specified fields and leaves the cursor after the event size |
| ParserBuilders.ReadStartFields | src/org/littlestar/mysql/binlog/parser/BinlogParserBuilder.java:157-164 | the read computes the specified fields, stores them in the meta and changes none of its other settings |
| ParserBuilders.ReadStartEventV3 | src/org/littlestar/mysql/binlog/parser/BinlogParserBuilder.java:148-165 | the START_EVENT_V3 branch fails exactly when its specified settings do and otherwise stores them in the meta |
| ParserBuilders.ReadFormatDescription | src/org/littlestar/mysql/binlog/parser/BinlogParserBuilder.java:166-206 | the FORMAT_DESCRIPTION_EVENT branch fails exactly when its specified settings do and otherwise stores them in the meta |
| ParserBuilders.ReadTail | src/org/littlestar/mysql/binlog/parser/BinlogParserBuilder.java:181-206 | the post-header table and checksum are read as specified and stored; the common header length is 19 and nothing else of the meta changes |
| ParserBuilders.ReadChecksum | src/org/littlestar/mysql/binlog/parser/BinlogParserBuilder.java:195-206 | the checksum settings are computed as specified and stored, the rest of the meta unchanged |
| ParserBuilders.BinlogParserBuilder.constructor | src/org/littlestar/mysql/binlog/parser/BinlogParserBuilder.java:66-73 | a builder starts with the native byte order, no event filter, string and body decoding on, and no charset |
| ParserBuilders.BinlogParserBuilder.NewBuilder | src/org/littlestar/mysql/binlog/parser/BinlogParserBuilder.java:81-83 | a missing file name is rejected; otherwise a fresh builder with those defaults |
| ParserBuilders.BinlogParserBuilder.WithByteOrder | src/org/littlestar/mysql/binlog/parser/BinlogParserBuilder.java:85-88 | sets the byte order and keeps every other setting |
| ParserBuilders.BinlogParserBuilder.WithEventFilter | src/org/littlestar/mysql/binlog/parser/BinlogParserBuilder.java:90-93 | sets the event filter and keeps every other setting |
| ParserBuilders.BinlogParserBuilder.DecodeString | src/org/littlestar/mysql/binlog/parser/BinlogParserBuilder.java:95-98 | sets string decoding and keeps every other setting |
| ParserBuilders.BinlogParserBuilder.DecodeEventBody | src/org/littlestar/mysql/binlog/parser/BinlogParserBuilder.java:100-103 | sets body decoding and keeps every other setting |
| ParserBuilders.BinlogParserBuilder.WithCharSet | src/org/littlestar/mysql/binlog/parser/BinlogParserBuilder.java:105-108 | sets the default charset and keeps every other setting |
| ParserBuilders.BinlogParserBuilder.Build | src/org/littlestar/mysql/binlog/parser/BinlogParserBuilder.java:110-121 | the build fails exactly when the bootstrap does; otherwise a fresh parser over the file's bytes just after the magic number, with the builder's filter, and a meta holding the bootstrap settings, the builder's string decoding, the builder's charset or utf8, and an empty table cache |
| RowsSql.TrailingJoin | src/org/littlestar/mysql/binlog/sql/RowsEvent2SQL.java:175-178 | appending each item and the separator gives the items joined by the separator, followed by one more separator |
| RowsSql.TrailingLonger | src/org/littlestar/mysql/binlog/sql/RowsEvent2SQL.java:177-178 | with at least one non-empty item the built text is longer than the separator, so the trailing separator is always removed |
| RowsSql.CollectOk | src/org/littlestar/mysql/binlog/sql/RowsEvent2SQL.java:83-93 | collecting n results succeeds exactly when each does, and then holds the n values in order |
| RowsSql.CollectStep | src/org/littlestar/mysql/binlog/sql/RowsEvent2SQL.java:83-93 | one more successful result appends its value |
| RowsSql.CollectStops | src/org/littlestar/mysql/binlog/sql/RowsEvent2SQL.java:83-93 | the first failure is the whole collection's failure |
| RowsSql.CollectSame | src/org/littlestar/mysql/binlog/sql/RowsEvent2SQL.java:83-93 | collections of pointwise equal results are equal |
| RowsSql.ColumnChanged | src/org/littlestar/mysql/binlog/sql/RowsEvent2SQL.java:283-302 | comparing a column fails with a null dereference unless both images have it; otherwise it changed exactly when the two values differ, byte arrays by content |
| RowsSql.ChangedUpToMeaning | src/org/littlestar/mysql/binlog/sql/RowsEvent2SQL.java:281-305 | the changed columns are found exactly when both images have every column; they are exactly the columns whose values differ, in increasing order |
| RowsSql.ChangedStops | src/org/littlestar/mysql/binlog/sql/RowsEvent2SQL.java:281-305 | a column missing from either image fails the whole comparison with a null dereference |
| RowsSql.ChangedSymmetric | src/org/littlestar/mysql/binlog/sql/RowsEvent2SQL.java:281-305 | the changed columns do not depend on which image is the before image |
| RowsSql.UpdateStatementsOf | src/org/littlestar/mysql/binlog/sql/RowsEvent2SQL.java:115-124 | both statements of a changed row start with "update " |
| RowsSql.UpdatePairCases | src/org/littlestar/mysql/binlog/sql/RowsEvent2SQL.java:108-125 | a row with no changed column gives the not-changed marker for both statements; otherwise the update pair over the changed columns |
| RowsSql.ColumnNameCases | src/org/littlestar/mysql/binlog/sql/RowsEvent2SQL.java:155-163 | a column name fails with a null dereference exactly when the table has no define for it; a named column uses its own name |
| RowsSql.SqlValueCases | src/org/littlestar/mysql/binlog/sql/RowsEvent2SQL.java:261-279 | a missing column image, or a value whose define is missing, is a null dereference; a null value is null; a non-numeric value is quoted |
| RowsSql.AssignmentHasEquals | src/org/littlestar/mysql/binlog/sql/RowsEvent2SQL.java:175 | every assignment item is non-empty |
| RowsSql.ListOfCases | src/org/littlestar/mysql/binlog/sql/RowsEvent2SQL.java:234-237 | a failed item fails the list; an empty list cannot drop its separator and is out of bounds; otherwise the items joined by the separator |
| RowsSql.PositionalName | src/org/littlestar/mysql/binlog/sql/RowsEvent2SQL.java:224-233 | an unnamed column with no reference name is at-sign followed by its position |
| RowsSql.NamesOk | src/org/littlestar/mysql/binlog/sql/RowsEvent2SQL.java:220-238 | when the table defines every column, the column list fails exactly when the table has none, as out of bounds |
| RowsSql.WriteCount | src/org/littlestar/mysql/binlog/sql/RowsEvent2SQL.java:78-95 | a write event gives one insert/delete pair per row image, in order, and fails exactly when one image does |
| RowsSql.UpdateCount | src/org/littlestar/mysql/binlog/sql/RowsEvent2SQL.java:97-130 | an update event gives one pair per before/after pair of images, in order, and fails exactly when one pair does |
| RowsSql.DeleteMirrorsWrite | src/org/littlestar/mysql/binlog/sql/RowsEvent2SQL.java:132-148 | a delete event's redo and undo statements are the write event's undo and redo for the same images |
| RowsSql.NotChangedExactly | src/org/littlestar/mysql/binlog/sql/RowsEvent2SQL.java:108-125 | the not-changed marker appears exactly when no column changed, and for redo exactly when for undo |
| RowsSql.UndoRevertsRedo | src/org/littlestar/mysql/binlog/sql/RowsEvent2SQL.java:115-124 | swapping the before and after images swaps the redo and undo statements |
| RowsSql.AppendItems | src/org/littlestar/mysql/binlog/sql/RowsEvent2SQL.java:154-176 | the loop appends every item followed by the separator, or fails with the first item's failure |
| RowsSql.DeleteSeparator | src/org/littlestar/mysql/binlog/sql/RowsEvent2SQL.java:236 | removing a separator longer than the text is out of bounds; otherwise the text without its last separator's length |
| RowsSql.BuildList | src/org/littlestar/mysql/binlog/sql/RowsEvent2SQL.java:220-259 | building a list computes the specified list of items |
| RowsSql.GetInsertColumnList | src/org/littlestar/mysql/binlog/sql/RowsEvent2SQL.java:220-238 | the column list is the specified one |
| RowsSql.GetInsertValueList | src/org/littlestar/mysql/binlog/sql/RowsEvent2SQL.java:240-259 | the value list is the specified one |
| RowsSql.GetWhereCondition | src/org/littlestar/mysql/binlog/sql/RowsEvent2SQL.java:190-218 | the where condition is the specified one |
| RowsSql.GetUpdateAssignmentList | src/org/littlestar/mysql/binlog/sql/RowsEvent2SQL.java:150-180 | the assignment list is the specified one |
| RowsSql.GetChangedColumns | src/org/littlestar/mysql/binlog/sql/RowsEvent2SQL.java:281-305 | the loop computes the specified changed columns |
| RowsSql.GetInsertStatement | src/org/littlestar/mysql/binlog/sql/RowsEvent2SQL.java:86-87 | the insert statement is the specified one |
| RowsSql.GetDeleteStatement | src/org/littlestar/mysql/binlog/sql/RowsEvent2SQL.java:88-89 | the delete statement is the specified one |
| RowsSql.GetWritePair | src/org/littlestar/mysql/binlog/sql/RowsEvent2SQL.java:84-92 | a write row's pair is the insert as redo and the delete as undo |
| RowsSql.GetDeletePair | src/org/littlestar/mysql/binlog/sql/RowsEvent2SQL.java:138-145 | a delete row's pair is the delete as redo and the insert as undo |
| RowsSql.GetPairOf | src/org/littlestar/mysql/binlog/sql/RowsEvent2SQL.java:84-92 | the pair chosen for a write or delete row is the specified one |
| RowsSql.CollectPairs | src/org/littlestar/mysql/binlog/sql/RowsEvent2SQL.java:83-93 | the loop over the images computes the specified collection |
| RowsSql.GetWriteRowsEventStatements | src/org/littlestar/mysql/binlog/sql/RowsEvent2SQL.java:78-95 | the write event's statements are the specified ones |
| RowsSql.GetDeleteRowsEventStatements | src/org/littlestar/mysql/binlog/sql/RowsEvent2SQL.java:132-148 | the delete event's statements are the specified ones |
| RowsSql.GetUpdatePair | src/org/littlestar/mysql/binlog/sql/RowsEvent2SQL.java:106-126 | the update pair of two images is the specified one |
| RowsSql.GetUpdateStatements | src/org/littlestar/mysql/binlog/sql/RowsEvent2SQL.java:115-124 | the two update statements are the specified ones |
| RowsSql.Halves | src/org/littlestar/mysql/binlog/sql/RowsEvent2SQL.java:102-106 | even positions hold before images and odd ones after images, pairing image 2k with image 2k+1 |
| RowsSql.UpdateStep | src/org/littlestar/mysql/binlog/sql/RowsEvent2SQL.java:106-126 | one pass at an after image extends the pairs of the first k rows by the pair of row k, or its failure is the failure of the whole loop |
| RowsSql.CollectUpdatePairs | src/org/littlestar/mysql/binlog/sql/RowsEvent2SQL.java:102-128 | the loop computes one pair per before/after pair as specified |
| RowsSql.GetUpdateRowsEventStatements | src/org/littlestar/mysql/binlog/sql/RowsEvent2SQL.java:97-130 | the update event's statements are the specified ones |
| RowsSql.GetRowsEventStatements | src/org/littlestar/mysql/binlog/sql/RowsEvent2SQL.java:58-76 | the statements of a rows event are the specified ones for its table, reference and images |
| RowsSql.GetStatementsOf | src/org/littlestar/mysql/binlog/sql/RowsEvent2SQL.java:60-75 | write, update and delete events go to their own builders and any other type gives no statements |
| Corrections.NullBitmapBytesLeast | src/org/littlestar/mysql/binlog/event/body/impl/TableMapEventBody.java:159-164 | (count+7)/8 bytes hold count bits, and one byte fewer would not |
| Corrections.NullableLengthOverreads | src/org/littlestar/mysql/binlog/event/body/impl/TableMapEventBody.java:159 | the decoder's (count+8)/7 is never shorter than the bitmap MySQL writes, and for 20 columns reads 4 bytes where MySQL writes 3 |
| Corrections.UnsignedValue | src/org/littlestar/mysql/binlog/event/body/impl/RotateEventBody.java:49-51 | an unsigned value of 1 to 8 bytes in the stream's order is below 256 to the length, and other lengths fail |
| Corrections.UnsignedValueBelowEight | src/org/littlestar/mysql/binlog/parser/ParserHelper.java:211-234 | below eight bytes the intended reading agrees with the decoder's |
| Corrections.RotatePositionRoundTrip | src/org/littlestar/mysql/binlog/event/body/impl/RotateEventBody.java:49-51 | a position written little-endian on 8 bytes before the next file's name reads back as that position |
| Corrections.RotatePositionFourMisread | src/org/littlestar/mysql/binlog/event/body/impl/RotateEventBody.java:49-51 | the decoder reads position 4 written little-endian as 4·256^7, the intended reading gives 4 |
| Corrections.PackedIntegerAt | src/org/littlestar/mysql/binlog/parser/ParserHelper.java:404-428 | a length-encoded integer reads at least its first byte |
| Corrections.EncodePackedInteger | src/org/littlestar/mysql/binlog/parser/ParserHelper.java:404-428 | a length-encoded integer takes 1 to 9 bytes |
| Corrections.PackedIntegerRoundTrip | src/org/littlestar/mysql/binlog/parser/ParserHelper.java:404-428 | every length-encoded integer below 256^8 reads back as its value and its length, whatever follows |
| Corrections.PackedCountOf300Misread | src/org/littlestar/mysql/binlog/event/body/impl/RowsEventBody.java:115-118 | the column count 300, encoded 0xFC 0x2C 0x01, is read as the two bytes 0xFC 0x2C giving 11516, where the intended reading gives 300 over three bytes |
| Corrections.Int24Cell | src/org/littlestar/mysql/binlog/event/body/impl/RowsEventBody.java:263-265 | an INT24 column advances by exactly 3 bytes |
| Corrections.EncodeInt24 | src/org/littlestar/mysql/binlog/event/body/impl/RowsEventBody.java:263-265 | an INT24 value is written on 3 bytes |
| Corrections.Int24RoundTrip | src/org/littlestar/mysql/binlog/event/body/impl/RowsEventBody.java:263-265 | every value in the 24-bit range written as INT24 reads back as itself, with the cursor after its 3 bytes, whatever is around it |
| Corrections.Int24ReadsNextColumn | src/org/littlestar/mysql/binlog/event/body/impl/RowsEventBody.java:263-265 | the decoder reads INT24 over 4 bytes, so an INT24 of 1 followed by a byte 5 reads as 1 + 5·2^24, where the intended reading gives 1 |
| Corrections.UpdateImagesFollowBothBitmaps | src/org/littlestar/mysql/binlog/event/body/impl/RowsEventBody.java:120-125 | when an UPDATE event's second present bitmap is skipped, the row images start right after it |
| Corrections.FirstImageReadsBitmap2 | src/org/littlestar/mysql/binlog/event/body/impl/RowsEventBody.java:120-125 | the decoder starts the first image where the UPDATE event's second present bitmap is, and reads that bitmap as the null bitmap |
| Corrections.SidEntries | src/org/littlestar/mysql/binlog/event/body/impl/PreviousGtidsLogEventBody.java:51-72 | one entry per SID block |
| Corrections.IntendedPreviousGtidSet | src/org/littlestar/mysql/binlog/event/body/impl/PreviousGtidsLogEventBody.java:51-72 | a decoded set has one entry per SID the body counts |
| Corrections.SidIntervalsSeparated | src/org/littlestar/mysql/binlog/event/body/impl/PreviousGtidsLogEventBody.java:60-69 | the intervals of one SID are joined by exactly one colon between each two |
| Corrections.SidEntryOwn | src/org/littlestar/mysql/binlog/event/body/impl/PreviousGtidsLogEventBody.java:56-70 | each entry holds only its own SID and that SID's intervals |
| Corrections.DecodeEncodeIntended | src/org/littlestar/mysql/binlog/event/body/impl/PreviousGtidsLogEventBody.java:51-72 | every encoded previous-GTIDs body decodes to one entry per SID, each with its own intervals |
| Corrections.SingleSidSeparated | src/org/littlestar/mysql/binlog/event/body/impl/PreviousGtidsLogEventBody.java:60-69 | a SID with intervals 1-5 and 7-9 gives its UUID, a colon, then 1-5:7-9 |

## Left out

- File I/O: `RandomAccessFile`, the `FileChannel` memory mapping, remapping when the file grows, the `lock` object and `close` are not modelled. A buffer is the file's bytes, given as a parameter, and the file does not change while it is read.
- MappedBuffer.BinlogFileMappedByteBuffer: files are bounded at 2^30 bytes, so that every position and every `position + n` stays a Java `int`. Larger mappings, and the `int` overflow of the cursor arithmetic they would allow, are not modelled.
- Positions inside a body that advance by a fixed width, or by a width bounded by the column meta (at most 65535), are not wrapped to an `int`. A Java array holds fewer than 2^31 bytes, so such a sum cannot pass Integer.MAX_VALUE while the read still succeeds. Every sum of a position and a length decoded from the data (packed strings, TLV fields, the table-map column count, user-variable name and value lengths, BLOB and GEOMETRY lengths) is wrapped with `Java.Int32`, as Java's `int` addition does.
- The platform's native byte order (`ByteOrder.nativeOrder()`) is a parameter. `BinlogParser4`'s constructor tests `order != null` on its own still-null field (BinlogParser4.java:40-42), so that branch never runs. The model's parser therefore takes no order of its own. Its buffer uses the meta's byte order.
- ParserBuilders.BinlogParserBuilder.WithByteOrder: a `null` byte order is not modelled, because the model's `ByteOrder` has no null value.
- ParserBuilders.BinlogParserBuilder.Build: the `decodeEventBody` setting is kept but not passed on. `build()` calls a three-argument `newParser` that `BinlogParser4` does not declare, so the parser always decodes bodies. This is the two-argument `newParser` plus the factory called with decode = true.
- Names and text are kept as bytes. Schema, table and column names, query and schema text, the rotate file name, the server version, STRING/VARCHAR/BLOB column values and user-variable values stay the raw bytes the body holds. Java's `new String(bytes)` and `String.trim()` are modelled on those bytes. `trim()` becomes dropping leading and trailing bytes ≤ 0x20, which is Java's rule for ASCII-compatible charsets.
- Charset decoding is not modelled. `ParserHelper.getCharset` and `getString(bytes, charset)` are left out. A decoded text column is its bytes plus the charset name (ColumnValues.TextCell). The SQL builder takes the decoding as a function parameter (`RowsSql.Texts`).
- FLOAT and DOUBLE values stay their 4 or 8 raw bytes (ColumnValues.FloatingCell). `getFloat`/`getDouble` and IEEE 754 are not modelled. Only the width consumed is stated.
- DATE, DATETIME, TIMESTAMP and TIMESTAMP2 values are kept as their integer fields. These are not modelled:
  - `SimpleDateFormat`'s lenient parse of an out-of-range DATE;
  - the default timezone;
  - the local-time formatting of TIMESTAMP and TIMESTAMP2;
  - `EventHeader.getText`.
- The debugging `System.out.println` in the optional-metadata loop (TableMapEventOptionalMetaData.java:72) is console output and is not modelled.
- Java.ToLower and Java.EqualsIgnoreCase fold ASCII letters only. Java's Unicode case mapping of other letters is not modelled, so `EventTypes.FromName` is exact only on ASCII names. Every event-type name is ASCII.
- Java.ParseDecimal accepts ASCII digits only. `Long.parseLong` also accepts other Unicode decimal digits. This affects only non-ASCII file-name suffixes (StopEvents.AssumeNextFile) and GTID transaction ids, which are already restricted to ASCII digits (Gtids.ParseGtid).
- `getChecksumString`, `getFormattedHexString` and every `toString`/`getText` display method are left out, because they are presentation only. The exceptions are `XidEventBody.toString`, `BeginLoadQueryEvent.toString` and `PreviousGtidsLogEventBody.toString`, which are short.
- `ParserHelper.getFloat`, `getDouble` and `getCharset` call Java library code and are left out.
- FORMAT_DESCRIPTION_EVENT, START_EVENT_V3 and STOP_EVENT bodies only delegate to the file meta or carry no fields. The factory gives them a content tag and their context (EventBodyFactory.CreateEventBody).
- RowsEvents.ReadRowImages: when an image consumes no bytes, Java's `while (true)` row loop never ends. The model returns the distinguished error `Diverges` there instead of looping.
- RowsEvents: the table-map cache is read through `TableColumns`, the defines of one cached table. This is equal to a lookup in `CachedColumns`.
- ColumnValues.ColumnCell: a NULL-type (0x06) column is read as an 8-byte LONGLONG, as in the source. A NULL-type column always has its null bit set, so that branch is never reached on a file the server wrote.
- RowsSql.GetRowsEventStatements:
  - the event type and the library conversions are parameters;
  - `DatabaseReference`'s JDBC queries are two maps, from column index to name and to charset;
  - `Integer` and `Long` values are one integer case;
  - row images are read through their snapshots;
  - `equals` on Java objects is structural equality of the modelled values.
- PreviousGtidsEvents.DecodePreviousGtids: the builder is never reset, so entry k holds the interval text of SIDs 0..k. The model states this as `EntriesAccumulate`, which says that each entry's text extends the text of every earlier one. The exact concatenation is stated on the specification function `Entries`, not as a separate all-inputs lemma.
- BinlogParsers.BinlogParser4.GetEventBody: a successful decode is stated in full. When the factory fails, only the fact that some error is returned is stated, not which one.
- Collations/Collation (a static table), the applications (BinlogMiner, BinlogMinerApp, BinlogParserApp, the demos), threads, JDBC, XML configuration, `ConnectionFactory` and logging are outside the decoding core and are not part of this model.

## Findings

| source | as written | input that shows it | evidently intended | confidence | as-written member | corrected member |
|---|---|---|---|---|---|---|
| src/org/littlestar/mysql/binlog/event/body/impl/RowsEventBody.java:352-375 | each whole integer word after the first is copied as 8 bytes from its offset, and a fraction of whole words still reads an empty trailing group | DECIMAL(18,0) holding 1, stored as 80 00 00 00 00 00 00 01, reads 16777216; every DECIMAL(p, 9k) with k > 0 fails to decode | every 4-byte word is 9 decimal digits, and the value is the digits weighted by their place, as MySQL's decimal format has it | not executed | Decimals.TwoIntegerWordsMisread, Decimals.WholeWordFractionFails | Decimals.FormatValue, Decimals.MisreadFormat, Decimals.FormatAgreement |
| src/org/littlestar/mysql/binlog/event/body/impl/RowsEventBody.java:263-265 | INT24 is read as 4 bytes | an INT24 column holding 1 followed by a TINY column holding 5 (bytes 01 00 00 05) reads 83886081, and the next column starts one byte late | INT24 is 3 little-endian bytes, signed | not executed | Corrections.Int24ReadsNextColumn | Corrections.Int24Cell, Corrections.Int24RoundTrip |
| src/org/littlestar/mysql/binlog/parser/ParserHelper.java:404-428 | the packed column count is decoded from bytes that include the marker byte | a count of 300 (FC 2C 01) reads as 11516 | the marker announces 2, 3 or 8 little-endian bytes after it, which hold the value | not executed | Corrections.PackedCountOf300Misread | Corrections.PackedIntegerAt, Corrections.PackedIntegerRoundTrip |
| src/org/littlestar/mysql/binlog/event/body/impl/RowsEventBody.java:120-125 | an UPDATE rows event's second columns-present bitmap is never read, so the first image starts inside it | any UPDATE_ROWS_EVENT: the head, bitmap1, bitmap2, then the images; the reader starts at bitmap2 | the images start after both bitmaps | not executed | Corrections.FirstImageReadsBitmap2 | Corrections.RowImagesStart, Corrections.UpdateImagesFollowBothBitmaps |
| src/org/littlestar/mysql/binlog/event/body/impl/TableMapEventBody.java:159 | the nullability bitmap is (count + 8) / 7 bytes | 20 columns: 4 bytes copied where MySQL wrote 3, so the optional metadata starts one byte late | (count + 7) / 8 bytes, the fewest that hold count bits | not executed | Corrections.NullableLengthOverreads | Corrections.NullBitmapBytes, Corrections.NullBitmapBytesLeast |
| src/org/littlestar/mysql/binlog/event/body/impl/RotateEventBody.java:49-51 | the 8-byte position is read with the first byte most significant in a little-endian file | position 4, stored as 04 00 00 00 00 00 00 00, reads 4 · 2^56 | the position is 8 little-endian bytes | not executed | Corrections.RotatePositionFourMisread, RotateEvents.PositionReadMostSignificantFirst | Corrections.UnsignedValue, Corrections.RotatePositionRoundTrip |
| src/org/littlestar/mysql/binlog/event/body/impl/PreviousGtidsLogEventBody.java:55-70 | the ":" between intervals is tested against the SID count, and the interval text is never reset between SIDs | one SID with intervals 1-5 and 7-9 gives "uuid:1-57-9"; with two SIDs the second entry repeats the first's intervals | each entry is its own SID's uuid and intervals, with the intervals separated by ":" | not executed | PreviousGtidsEvents.SingleSidRunsTogether, PreviousGtidsEvents.EntriesAccumulate | Corrections.IntendedPreviousGtidSet, Corrections.DecodeEncodeIntended, Corrections.SidEntryOwn, Corrections.SidIntervalsSeparated, Corrections.SingleSidSeparated |
