/** The read cursor over a binlog file: a position into the file's bytes,
    moved by every read, skip and reposition. The file mapping is replaced by
    the bytes themselves. */
module MappedBuffer {
  import opened Wrappers
  import opened Java
  import opened ParserHelper

  /** The largest MySQL binlog file is 1 GiB, so positions fit a Java int. */
  const MaxFileSize: int := 0x4000_0000

  class BinlogFileMappedByteBuffer {
    const fileName: string
    const data: seq<byte>
    const order: ByteOrder
    var position: int

    ghost predicate Valid()
      reads this
    {
      |data| <= MaxFileSize && 0 <= position <= |data|
    }

    /** A fresh mapping of the whole file, positioned at its start; data is
        what the file named fileName holds. */
    constructor(fileName: string, data: seq<byte>, order: ByteOrder)
      requires |data| <= MaxFileSize
      ensures Valid()
      ensures this.fileName == fileName && this.data == data && this.order == order && position == 0
    {
      this.fileName := fileName;
      this.data := data;
      this.order := order;
      position := 0;
    }

    /** The mapping's limit: the length of the file. */
    function Limit(): int {
      |data|
    }

    /** remaining(): the bytes between the position and the limit. */
    function Remaining(): (r: int)
      reads this
      requires Valid()
      ensures 0 <= r <= |data| && position + r == Limit()
    {
      |data| - position
    }

    /** setPosition(p): `Buffer.position(p)`, which throws for a position
        outside [0, limit] and leaves the cursor where it was. */
    method SetPosition(newPosition: int) returns (r: Result<()>)
      requires Valid()
      modifies this
      ensures Valid()
      ensures r.Ok? <==> 0 <= newPosition <= |data|
      ensures r.Ok? ==> position == newPosition
      ensures r.Err? ==> r.error == IllegalArgument && position == old(position)
    {
      if 0 <= newPosition <= |data| {
        position := newPosition;
        r := Ok(());
      } else {
        r := Err(IllegalArgument);
      }
    }

    /** skip(n): setPosition(position + n). */
    method Skip(length: int) returns (r: Result<()>)
      requires Valid()
      modifies this
      ensures Valid()
      ensures r.Ok? <==> 0 <= old(position) + length <= |data|
      ensures r.Ok? ==> position == old(position) + length
      ensures r.Err? ==> r.error == IllegalArgument && position == old(position)
    {
      r := SetPosition(position + length);
    }

    /** getBytes(n): the next n bytes, with the cursor moved past them. A
        negative n fails to allocate; more than remain is a buffer underflow,
        which reads nothing and leaves the cursor in place. */
    method GetBytes(length: int) returns (r: Result<seq<byte>>)
      requires Valid()
      modifies this
      ensures Valid()
      ensures r == Take(data, old(position), length)
      ensures r.Ok? ==> position == old(position) + length
      ensures r.Err? ==> position == old(position)
    {
      if length < 0 {
        return Err(NegativeArraySize);
      }
      if length > |data| - position {
        return Err(BufferUnderflow);
      }
      r := Ok(data[position..position + length]);
      position := position + length;
    }

    /** getByte(): one byte, with the cursor moved past it. */
    method GetByte() returns (r: Result<byte>)
      requires Valid()
      modifies this
      ensures Valid()
      ensures r.Ok? <==> old(position) < |data|
      ensures r.Ok? ==> r.value == data[old(position)] && position == old(position) + 1
      ensures r.Err? ==> r.error == BufferUnderflow && position == old(position)
    {
      if position == |data| {
        return Err(BufferUnderflow);
      }
      r := Ok(data[position]);
      position := position + 1;
    }

    /** getInteger(n): ParserHelper.getInteger of getBytes(n) in the buffer's
        byte order. The bytes are consumed even when the decode then throws. */
    method GetInteger(length: int) returns (r: Result<int>)
      requires Valid()
      modifies this
      ensures Valid()
      ensures r == Decoded(Take(data, old(position), length), ParserHelper.GetInteger, order)
      ensures position == old(position) + Consumed(data, old(position), length)
    {
      var raw :- GetBytes(length);
      r := ParserHelper.GetInteger(raw, order);
    }

    /** getUnsignedInteger(n). */
    method GetUnsignedInteger(length: int) returns (r: Result<int>)
      requires Valid()
      modifies this
      ensures Valid()
      ensures r == Decoded(Take(data, old(position), length), ParserHelper.GetUnsignedInteger, order)
      ensures position == old(position) + Consumed(data, old(position), length)
    {
      var raw :- GetBytes(length);
      r := ParserHelper.GetUnsignedInteger(raw, order);
    }

    /** getLong(n). */
    method GetLong(length: int) returns (r: Result<int>)
      requires Valid()
      modifies this
      ensures Valid()
      ensures r == Decoded(Take(data, old(position), length), ParserHelper.GetLong, order)
      ensures position == old(position) + Consumed(data, old(position), length)
    {
      var raw :- GetBytes(length);
      r := ParserHelper.GetLong(raw, order);
    }

    /** getUnsignedLong(n). */
    method GetUnsignedLong(length: int) returns (r: Result<int>)
      requires Valid()
      modifies this
      ensures Valid()
      ensures r == Decoded(Take(data, old(position), length), ParserHelper.GetUnsignedLong, order)
      ensures position == old(position) + Consumed(data, old(position), length)
    {
      var raw :- GetBytes(length);
      r := ParserHelper.GetUnsignedLong(raw, order);
    }

    /** getString(n): the next n bytes as text, with the cursor moved past
        them. The text keeps its raw bytes: the platform charset's decoding
        is not modelled. */
    method GetString(length: int) returns (r: Result<seq<byte>>)
      requires Valid()
      modifies this
      ensures Valid()
      ensures r == Take(data, old(position), length)
      ensures position == old(position) + Consumed(data, old(position), length)
    {
      r := GetBytes(length);
    }
  }

  /** What getUnsignedInteger(n) at position p returns. */
  function UIntAt(data: seq<byte>, p: int, length: int, order: ByteOrder): (r: Result<int>)
    requires 0 <= p <= |data|
    ensures r.Ok? <==> 1 <= length <= 8 && length <= |data| - p
    ensures length > |data| - p ==> r == Err(BufferUnderflow)
    ensures r.Ok? ==> IsInt(r.value)
  {
    Decoded(Take(data, p, length), ParserHelper.GetUnsignedInteger, order)
  }

  /** What getUnsignedLong(n) at position p returns. */
  function ULongAt(data: seq<byte>, p: int, length: int, order: ByteOrder): (r: Result<int>)
    requires 0 <= p <= |data|
    ensures r.Ok? <==> 1 <= length <= 8 && length <= |data| - p
    ensures length > |data| - p ==> r == Err(BufferUnderflow)
    ensures r.Ok? ==> IsLong(r.value)
  {
    Decoded(Take(data, p, length), ParserHelper.GetUnsignedLong, order)
  }

  /** What getBytes(n) at position p of data returns. */
  function Take(data: seq<byte>, p: int, length: int): (r: Result<seq<byte>>)
    requires 0 <= p <= |data|
    ensures r.Ok? <==> 0 <= length <= |data| - p
    ensures r.Ok? ==> r.value == data[p..p + length]
    ensures length < 0 ==> r == Err(NegativeArraySize)
    ensures length > |data| - p ==> r == Err(BufferUnderflow)
  {
    if length < 0 then Err(NegativeArraySize)
    else if length > |data| - p then Err(BufferUnderflow)
    else Ok(data[p..p + length])
  }

  /** How far getBytes(n) at position p moves the cursor: n, or 0 when it throws. */
  function Consumed(data: seq<byte>, p: int, length: int): int
    requires 0 <= p <= |data|
  {
    if Take(data, p, length).Ok? then length else 0
  }

  /** A decode applied to bytes that were read, or the read's own failure. */
  function Decoded(raw: Result<seq<byte>>, decode: (seq<byte>, ByteOrder) -> Result<int>, order: ByteOrder): Result<int> {
    match raw
    case Ok(bs) => decode(bs, order)
    case Err(e) => Err(e)
  }

  /** Reading n bytes and then m bytes is reading n + m bytes and splitting them. */
  lemma TakeTwice(data: seq<byte>, p: int, n: nat, m: nat)
    requires 0 <= p && p + n + m <= |data|
    ensures Take(data, p, n + m) == Ok(Take(data, p, n).value + Take(data, p + n, m).value)
  {
    assert data[p..p + n + m] == data[p..p + n] + data[p + n..p + n + m];
  }
}
