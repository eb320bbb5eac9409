/** The common header every binlog event starts with:
      4 timestamp, 1 event type, 4 server id, 4 event size,
      and from binlog version 2 on, 4 next position and 2 flags. */
module EventHeaders {
  import opened Wrappers
  import opened Java
  import opened EventTypes

  const CommonHeaderLengthV1: int := 13
  const CommonHeaderLengthV2: int := 19
  const CommonHeaderLengthV3: int := 19
  const CommonHeaderLengthV4: int := 19
  const TimestampLength: int := 4
  const EventTypeLength: int := 1
  const ServerIdLength: int := 4
  const EventSizeLength: int := 4
  const NextPosLength: int := 4
  const FlagsLength: int := 2

  /** The header lengths are the sums of the field widths they hold. */
  lemma HeaderLengthsAreFieldSums()
    ensures CommonHeaderLengthV1 == TimestampLength + EventTypeLength + ServerIdLength + EventSizeLength
    ensures CommonHeaderLengthV2 == CommonHeaderLengthV1 + NextPosLength + FlagsLength
    ensures CommonHeaderLengthV3 == CommonHeaderLengthV2 && CommonHeaderLengthV4 == CommonHeaderLengthV2
  {
  }

  class EventHeader {
    const commonHeaderLength: int
    var timestamp: Option<int>        // a java.util.Date, as milliseconds since the epoch
    var eventType: Option<EventType>
    var serverId: int
    var eventSize: int
    var nextPosition: int
    var flags: int

    /** A header of the given length; every other field at its Java default. */
    constructor(length: int)
      ensures commonHeaderLength == length
      ensures timestamp == None && eventType == None
      ensures serverId == 0 && eventSize == 0 && nextPosition == 0 && flags == 0
    {
      commonHeaderLength := length;
      timestamp := None;
      eventType := None;
      serverId := 0;
      eventSize := 0;
      nextPosition := 0;
      flags := 0;
    }

    /** setTimestamp(ms): `new Date(ms)`. */
    method SetTimestamp(millis: int)
      modifies this
      ensures timestamp == Some(millis)
      ensures eventType == old(eventType) && serverId == old(serverId) && eventSize == old(eventSize)
      ensures nextPosition == old(nextPosition) && flags == old(flags)
    {
      timestamp := Some(millis);
    }

    method SetEventType(t: EventType)
      modifies this
      ensures eventType == Some(t)
      ensures timestamp == old(timestamp) && serverId == old(serverId) && eventSize == old(eventSize)
      ensures nextPosition == old(nextPosition) && flags == old(flags)
    {
      eventType := Some(t);
    }

    method SetServerId(id: int)
      modifies this
      ensures serverId == id
      ensures timestamp == old(timestamp) && eventType == old(eventType) && eventSize == old(eventSize)
      ensures nextPosition == old(nextPosition) && flags == old(flags)
    {
      serverId := id;
    }

    method SetEventSize(size: int)
      modifies this
      ensures eventSize == size
      ensures timestamp == old(timestamp) && eventType == old(eventType) && serverId == old(serverId)
      ensures nextPosition == old(nextPosition) && flags == old(flags)
    {
      eventSize := size;
    }

    method SetNextPosition(pos: int)
      modifies this
      ensures nextPosition == pos
      ensures timestamp == old(timestamp) && eventType == old(eventType) && serverId == old(serverId)
      ensures eventSize == old(eventSize) && flags == old(flags)
    {
      nextPosition := pos;
    }

    method SetEventFlags(f: int)
      modifies this
      ensures flags == f
      ensures timestamp == old(timestamp) && eventType == old(eventType) && serverId == old(serverId)
      ensures eventSize == old(eventSize) && nextPosition == old(nextPosition)
    {
      flags := f;
    }

    /** getStartPosition: where the event began, its size back from the next
        position (long arithmetic). */
    function StartPosition(): (r: int)
      reads this
      ensures IsLong(r)
      ensures IsLong(nextPosition - eventSize) ==> r + eventSize == nextPosition
    {
      Int64(nextPosition - eventSize)
    }

    /** getEventBodyLength: the event size less the header (int arithmetic),
        so a checksum trailer counts as body. */
    function EventBodyLength(): (r: int)
      reads this
      ensures IsInt(r)
      ensures IsInt(eventSize - commonHeaderLength) ==> commonHeaderLength + r == eventSize
    {
      Int32(eventSize - commonHeaderLength)
    }
  }
}
