/** PREVIOUS_GTIDS_LOG_EVENT: the GTID set executed in the earlier binlog
    files.
      payload  8 SID count, then per SID: 16 uuid, 8 interval count, and per
               interval 8 start and 8 end (exclusive)
    Every 8-byte number is read with getUnsignedLong(raw, BIG_ENDIAN), which
    at eight bytes decodes little-endian (see EightBytesBigEndian). */
module PreviousGtidsEvents {
  import opened Wrappers
  import opened Java
  import opened ParserHelper
  import opened EventBodies

  /** One interval as printed: its start and its end less one. */
  datatype Interval = Interval(start: int, end: int)

  /** One SID of the set: its 16 uuid bytes and its intervals. */
  datatype SidBlock = SidBlock(uuid: seq<byte>, intervals: seq<Interval>)

  const SidCountLength: int := 8
  const UuidLength: int := 16

  // ------------------------------------------------------------ reading

  /** A long field read at pos: getUnsignedLong of the 8 bytes copied from
      pos, BIG_ENDIAN, which for 8 bytes is the long of their little-endian
      value (ReadLongIsJava). The copy is zero-padded past the end of the
      body and fails only when pos lies outside it. */
  function ReadLong(bodyData: seq<byte>, pos: int): (r: Result<int>)
    ensures r.Ok? <==> 0 <= pos <= |bodyData|
    ensures r.Err? ==> r.error == IndexOutOfBounds
    ensures r.Ok? ==> IsLong(r.value)
    ensures r.Ok? && pos + 8 <= |bodyData| ==> r.value == LongOfBytes(bodyData[pos..pos + 8])
  {
    if 0 <= pos <= |bodyData| then
      var raw := CopyOfRange(bodyData, pos, pos + 8).value;
      assert pos + 8 <= |bodyData| ==> raw == bodyData[pos..pos + 8] by {
        if pos + 8 <= |bodyData| {
          CopyOfRangeInside(bodyData, pos, pos + 8);
        }
      }
      Ok(LongOfBytes(raw))
    else Err(IndexOutOfBounds)
  }

  /** The long whose 64 bits are the little-endian value of 8 bytes. */
  function LongOfBytes(raw: seq<byte>): (r: int)
    requires |raw| == 8
    ensures IsLong(r)
  {
    assert Pow256(8) == 0x1_0000_0000_0000_0000;
    SignedLong(LittleEndianValue(raw))
  }

  /** ReadLong is what the constructor does: copyOfRange(pos, pos + 8), then
      getUnsignedLong of the copy with BIG_ENDIAN. */
  lemma ReadLongIsJava(bodyData: seq<byte>, pos: int)
    ensures CopyOfRange(bodyData, pos, pos + 8).Err? <==> ReadLong(bodyData, pos).Err?
    ensures CopyOfRange(bodyData, pos, pos + 8).Err? ==>
      CopyOfRange(bodyData, pos, pos + 8).error == ReadLong(bodyData, pos).error
    ensures CopyOfRange(bodyData, pos, pos + 8).Ok? ==>
      GetUnsignedLong(CopyOfRange(bodyData, pos, pos + 8).value, BigEndian) == ReadLong(bodyData, pos)
  {
    var raw := CopyOfRange(bodyData, pos, pos + 8);
    if raw.Ok? {
      EightBytesBigEndian(raw.value);
      assert Pow256(8) == 0x1_0000_0000_0000_0000;
      SignedLongIsInt64(LittleEndianValue(raw.value));
    }
  }

  /** The intervals a SID with count intervals holds from pos on, and the
      position after them; the end is the long read less one, in long
      arithmetic. A non-positive count reads nothing. */
  function ReadIntervals(bodyData: seq<byte>, pos: int, count: int): (r: Result<(seq<Interval>, int)>)
    ensures r.Err? ==> r.error == IndexOutOfBounds
    ensures r.Ok? ==> |r.value.0| == Max(count, 0) && r.value.1 == pos + 16 * Max(count, 0)
    decreases count
  {
    if count <= 0 then Ok(([], pos))
    else if !IntervalInside(bodyData, pos) then Err(IndexOutOfBounds)
    else
      var rest :- ReadIntervals(bodyData, pos + 16, count - 1);
      Ok(([IntervalAt(bodyData, pos)] + rest.0, rest.1))
  }

  /** Both copies of an interval succeed: the start's copy begins inside the
      body and so does the end's, 8 bytes later. */
  predicate IntervalInside(bodyData: seq<byte>, pos: int) {
    0 <= pos && pos + 8 <= |bodyData|
  }

  /** The interval read at pos: its start, and its end less one in long
      arithmetic. */
  function IntervalAt(bodyData: seq<byte>, pos: int): (iv: Interval)
    requires IntervalInside(bodyData, pos)
    ensures IsLong(iv.start) && IsLong(iv.end)
    ensures iv.start == ReadLong(bodyData, pos).value
    ensures iv.end == LongDecrement(ReadLong(bodyData, pos + 8).value)
  {
    Interval(ReadLong(bodyData, pos).value, LongDecrement(ReadLong(bodyData, pos + 8).value))
  }

  /** The n SIDs held from pos on, and the position after them. */
  function ReadSids(bodyData: seq<byte>, pos: int, n: int): (r: Result<(seq<SidBlock>, int)>)
    ensures r.Err? ==> r.error == IndexOutOfBounds
    ensures r.Ok? ==> |r.value.0| == Max(n, 0) && UuidsRead(r.value.0)
    decreases n
  {
    if n <= 0 then Ok(([], pos))
    else if !SidHeadInside(bodyData, pos) then Err(IndexOutOfBounds)
    else
      var ivs :- ReadIntervals(bodyData, pos + UuidLength + 8, IntervalCountAt(bodyData, pos));
      var rest :- ReadSids(bodyData, ivs.1, n - 1);
      Ok(([SidBlock(UuidAt(bodyData, pos), ivs.0)] + rest.0, rest.1))
  }

  /** Both copies of a SID's head succeed: the uuid's begins inside the body
      and so does the interval count's, 16 bytes later. */
  predicate SidHeadInside(bodyData: seq<byte>, pos: int) {
    0 <= pos && pos + UuidLength <= |bodyData|
  }

  /** The 16 uuid bytes copied from pos. */
  function UuidAt(bodyData: seq<byte>, pos: int): (u: seq<byte>)
    requires SidHeadInside(bodyData, pos)
    ensures u == bodyData[pos..pos + UuidLength]
  {
    CopyOfRangeInside(bodyData, pos, pos + UuidLength);
    CopyOfRange(bodyData, pos, pos + UuidLength).value
  }

  /** The interval count read after the uuid at pos. */
  function IntervalCountAt(bodyData: seq<byte>, pos: int): (c: int)
    requires SidHeadInside(bodyData, pos)
    ensures IsLong(c) && c == ReadLong(bodyData, pos + UuidLength).value
  {
    ReadLong(bodyData, pos + UuidLength).value
  }

  /** Every uuid is a 16-byte copy. */
  predicate UuidsRead(sids: seq<SidBlock>) {
    forall k :: 0 <= k < |sids| ==> |sids[k].uuid| == UuidLength
  }

  /** What reading the SIDs after those already read gives, continued. */
  function AfterSids(done: seq<SidBlock>, rest: Result<(seq<SidBlock>, int)>): Result<(seq<SidBlock>, int)> {
    match rest
    case Err(e) => Err(e)
    case Ok(v) => Ok((done + v.0, v.1))
  }

  function AfterIntervals(done: seq<Interval>, rest: Result<(seq<Interval>, int)>): Result<(seq<Interval>, int)> {
    match rest
    case Err(e) => Err(e)
    case Ok(v) => Ok((done + v.0, v.1))
  }

  /** The SID count: the first 8 bytes, zero-padded when the body is shorter. */
  function GtidCount(bodyData: seq<byte>): (r: int)
    ensures IsLong(r)
    ensures 8 <= |bodyData| ==> r == LongOfBytes(bodyData[..8])
  {
    ReadLong(bodyData, 0).value
  }

  // ---------------------------------------------------------- rendering

  /** The text appended for interval j: "start-end", then ':' when j is below
      the SID count less one. The separator is decided by the SID count and
      not by the SID's own interval count. */
  function IntervalText(iv: Interval, j: int, gtidCount: int): (r: string)
    ensures r != [] && (r[|r| - 1] == ':' <==> j < gtidCount - 1)
  {
    DecimalNotColon(iv.end);
    IntervalRange(iv) + Separator(j, gtidCount)
  }

  /** "start-end". */
  function IntervalRange(iv: Interval): (r: string)
    ensures r != [] && r[|r| - 1] != ':'
  {
    DecimalNotColon(iv.end);
    LongToString(iv.start) + "-" + LongToString(iv.end)
  }

  function Separator(j: int, gtidCount: int): string {
    if j < gtidCount - 1 then ":" else ""
  }

  /** A long in decimal does not end in ':'. */
  lemma DecimalNotColon(x: int)
    ensures var t := LongToString(x); t[|t| - 1] != ':'
  {
    if x < 0 {
      NatToStringDigits(-x);
    } else {
      NatToStringDigits(x);
    }
  }

  lemma NatToStringDigits(n: nat)
    ensures var t := NatToString(n); IsDigit(t[|t| - 1])
  {
    NatToStringValue(n);
  }

  /** The text the intervals of one SID append, in order. */
  function IntervalsText(ivs: seq<Interval>, gtidCount: int): string
    decreases |ivs|
  {
    if ivs == [] then ""
    else IntervalsText(ivs[..|ivs| - 1], gtidCount) + IntervalText(ivs[|ivs| - 1], |ivs| - 1, gtidCount)
  }

  /** The shared builder after the given SIDs: it is never reset, so it
      holds the intervals of every SID so far. */
  function SetText(sids: seq<SidBlock>, gtidCount: int): string
    decreases |sids|
  {
    if sids == [] then ""
    else SetText(sids[..|sids| - 1], gtidCount) + IntervalsText(sids[|sids| - 1].intervals, gtidCount)
  }

  /** The entry added for a SID: its formatted uuid, ':' and the builder's
      text. */
  function Entry(uuid: seq<byte>, text: string): string
    requires |uuid| == UuidLength
  {
    FormattedUuid(uuid).value + ":" + text
  }

  /** previousGtidSet after the given SIDs: one entry per SID. */
  function Entries(sids: seq<SidBlock>, gtidCount: int): (r: seq<string>)
    requires UuidsRead(sids)
    ensures |r| == |sids|
    decreases |sids|
  {
    if sids == [] then []
    else Entries(sids[..|sids| - 1], gtidCount) + [Entry(sids[|sids| - 1].uuid, SetText(sids, gtidCount))]
  }

  /** The set the constructor builds, or the exception it throws. */
  function PreviousGtidSet(bodyData: seq<byte>): (r: Result<seq<string>>)
    ensures r.Err? ==> r.error == IndexOutOfBounds
    ensures r.Ok? ==> |r.value| == Max(GtidCount(bodyData), 0)
  {
    var gtidCount := GtidCount(bodyData);
    var sids :- ReadSids(bodyData, SidCountLength, gtidCount);
    Ok(Entries(sids.0, gtidCount))
  }

  // ------------------------------------------------------------- decoder

  /** The PreviousGtidsLogEventBody constructor: the SID count, then for
      each SID its uuid, its interval count and its intervals, appended to a
      builder shared by all SIDs; each SID adds its formatted uuid, ':' and
      the builder's text. */
  method DecodePreviousGtids(ctx: BodyContext) returns (r: Result<seq<string>>)
    ensures r == PreviousGtidSet(ctx.bodyData)
  {
    var bd := ctx.bodyData;
    var pos := 0;
    var rawGtidCount := CopyOfRange(bd, pos, pos + 8).value;
    pos := pos + 8;
    var gtidCount := GetUnsignedLong(rawGtidCount, BigEndian).value;
    ReadLongIsJava(bd, 0);
    assert gtidCount == GtidCount(bd);
    var intervalsSet := "";
    var previousGtidSet: seq<string> := [];
    ghost var sids: seq<SidBlock> := [];
    ghost var all := ReadSids(bd, SidCountLength, gtidCount);
    var i := 0;
    ghost var left := gtidCount;
    AfterNoSids(ReadSids(bd, pos, left));
    while i < gtidCount
      invariant 0 <= i && (0 < gtidCount ==> i <= gtidCount) && left == gtidCount - i
      invariant |sids| == i && UuidsRead(sids)
      invariant all == AfterSids(sids, ReadSids(bd, pos, left))
      invariant intervalsSet == SetText(sids, gtidCount)
      invariant previousGtidSet == Entries(sids, gtidCount)
      decreases gtidCount - i
    {
      var head := ReadSidHead(bd, pos);
      if head.Err? {
        SidHeadFails(bd, pos, left);
        return Err(head.error);
      }
      var rawUuid, intervalsCount := head.value.0, head.value.1;
      var more := AppendIntervals(bd, pos + UuidLength + 8, intervalsCount, gtidCount, intervalsSet);
      ghost var ivs := ReadIntervals(bd, pos + UuidLength + 8, intervalsCount);
      if more.Err? {
        SidIntervalsFail(bd, pos, left);
        return Err(more.error);
      }
      ghost var sid := SidBlock(rawUuid, ivs.value.0);
      SetTextAppend(sids, sid, gtidCount);
      intervalsSet := more.value.0;
      previousGtidSet := previousGtidSet + [FormattedUuid(rawUuid).value + ":" + intervalsSet];
      EntriesAppend(sids, sid, gtidCount);
      ghost var sids0, pos0, left0 := sids, pos, left;
      sids := sids + [sid];
      pos := more.value.1;
      i := i + 1;
      left := left - 1;
      SidsStep(bd, all, sids0, pos0, left0, sids, pos, left);
    }
    NoSidsLeft(bd, pos, left, sids);
    r := Ok(previousGtidSet);
  }

  /** A SID's uuid and interval count from pos on. */
  method ReadSidHead(bodyData: seq<byte>, pos: int) returns (r: Result<(seq<byte>, int)>)
    ensures r.Ok? <==> SidHeadInside(bodyData, pos)
    ensures r.Err? ==> r.error == IndexOutOfBounds
    ensures r.Ok? ==> r.value == (UuidAt(bodyData, pos), IntervalCountAt(bodyData, pos))
  {
    var rawUuid :- CopyOfRange(bodyData, pos, pos + UuidLength);
    var rawIntervalsCount :- CopyOfRange(bodyData, pos + UuidLength, pos + UuidLength + 8);
    var intervalsCount := GetUnsignedLong(rawIntervalsCount, BigEndian).value;
    ReadLongIsJava(bodyData, pos + UuidLength);
    r := Ok((rawUuid, intervalsCount));
  }

  /** The inner loop: count intervals from pos on appended to the builder,
      and the position after them. */
  method AppendIntervals(bodyData: seq<byte>, pos: int, count: int, gtidCount: int, builder: string)
    returns (r: Result<(string, int)>)
    ensures ReadIntervals(bodyData, pos, count).Err? ==> r == Err(IndexOutOfBounds)
    ensures ReadIntervals(bodyData, pos, count).Ok? ==>
      var v := ReadIntervals(bodyData, pos, count).value;
      r == Ok((builder + IntervalsText(v.0, gtidCount), v.1))
  {
    var at := pos;
    var intervalsSet := builder;
    ghost var ivs: seq<Interval> := [];
    ghost var all := ReadIntervals(bodyData, pos, count);
    var j := 0;
    ghost var left := count;
    AfterNoIntervals(ReadIntervals(bodyData, at, left));
    while j < count
      invariant 0 <= j && (0 < count ==> j <= count) && |ivs| == j && left == count - j
      invariant all == AfterIntervals(ivs, ReadIntervals(bodyData, at, left))
      invariant intervalsSet == builder + IntervalsText(ivs, gtidCount)
      decreases count - j
    {
      var next := AppendInterval(bodyData, at, j, gtidCount, intervalsSet);
      if next.Err? {
        IntervalFails(bodyData, at, left);
        return Err(next.error);
      }
      ghost var iv := IntervalAt(bodyData, at);
      IntervalsTextAppend(ivs, iv, gtidCount);
      ConcatAssoc(builder, IntervalsText(ivs, gtidCount), IntervalText(iv, j, gtidCount));
      intervalsSet := next.value;
      ghost var ivs0, at0, left0 := ivs, at, left;
      ivs := ivs + [iv];
      at := at + 16;
      j := j + 1;
      left := left - 1;
      IntervalsStep(bodyData, all, ivs0, at0, left0, ivs, at, left);
    }
    assert ivs + [] == ivs;
    r := Ok((intervalsSet, at));
  }

  /** One pass of the inner loop: the interval's start and end read from at,
      and "start-end" appended to the builder, then ':' when j is below the
      SID count less one. */
  method AppendInterval(bodyData: seq<byte>, at: int, j: int, gtidCount: int, builder: string)
    returns (r: Result<string>)
    ensures r.Ok? <==> IntervalInside(bodyData, at)
    ensures r.Err? ==> r.error == IndexOutOfBounds
    ensures r.Ok? ==> r.value == builder + IntervalText(IntervalAt(bodyData, at), j, gtidCount)
  {
    var rawStartInterval :- CopyOfRange(bodyData, at, at + 8);
    var startInterval := GetUnsignedLong(rawStartInterval, BigEndian).value;
    var rawEndInterval :- CopyOfRange(bodyData, at + 8, at + 16);
    var endInterval := Int64(GetUnsignedLong(rawEndInterval, BigEndian).value - 1);
    ReadLongIsJava(bodyData, at);
    ReadLongIsJava(bodyData, at + 8);
    LongDecrementIsInt64(ReadLong(bodyData, at + 8).value);
    assert Interval(startInterval, endInterval) == IntervalAt(bodyData, at);
    var range := LongToString(startInterval) + "-" + LongToString(endInterval);
    var intervalsSet := builder + range;
    if j < gtidCount - 1 {
      intervalsSet := intervalsSet + ":";
    }
    ConcatAssoc(builder, range, Separator(j, gtidCount));
    r := Ok(intervalsSet);
  }

  lemma ConcatAssoc(a: string, b: string, c: string)
    ensures a + b + c == a + (b + c)
  {
  }

  /** An interval whose longs cannot be copied fails the read. */
  lemma IntervalFails(bodyData: seq<byte>, pos: int, count: int)
    requires 0 < count && !IntervalInside(bodyData, pos)
    ensures ReadIntervals(bodyData, pos, count) == Err(IndexOutOfBounds)
  {
  }

  /** The inner loop's invariant carried over one interval. */
  lemma IntervalsStep(bodyData: seq<byte>, all: Result<(seq<Interval>, int)>,
                      ivs: seq<Interval>, pos: int, count: int, ivs': seq<Interval>, pos': int, count': int)
    requires 0 < count && IntervalInside(bodyData, pos)
    requires all == AfterIntervals(ivs, ReadIntervals(bodyData, pos, count))
    requires ivs' == ivs + [IntervalAt(bodyData, pos)] && pos' == pos + 16 && count' == count - 1
    ensures all == AfterIntervals(ivs', ReadIntervals(bodyData, pos', count'))
  {
    AfterIntervalsAppend(ivs, IntervalAt(bodyData, pos), ReadIntervals(bodyData, pos', count'));
  }

  lemma AfterNoIntervals(rest: Result<(seq<Interval>, int)>)
    ensures AfterIntervals([], rest) == rest
  {
    if rest.Ok? {
      assert [] + rest.value.0 == rest.value.0;
    }
  }

  lemma AfterIntervalsAppend(ivs: seq<Interval>, iv: Interval, rest: Result<(seq<Interval>, int)>)
    ensures AfterIntervals(ivs, AfterIntervals([iv], rest)) == AfterIntervals(ivs + [iv], rest)
  {
    if rest.Ok? {
      assert ivs + ([iv] + rest.value.0) == (ivs + [iv]) + rest.value.0;
    }
  }

  lemma IntervalsTextAppend(ivs: seq<Interval>, iv: Interval, gtidCount: int)
    ensures IntervalsText(ivs + [iv], gtidCount) == IntervalsText(ivs, gtidCount) + IntervalText(iv, |ivs|, gtidCount)
  {
    assert (ivs + [iv])[..|ivs|] == ivs;
  }

  /** A SID whose uuid or interval count cannot be copied fails the read. */
  lemma SidHeadFails(bodyData: seq<byte>, pos: int, n: int)
    requires 0 < n && !SidHeadInside(bodyData, pos)
    ensures ReadSids(bodyData, pos, n) == Err(IndexOutOfBounds)
  {
  }

  /** A SID whose intervals cannot be read fails the read. */
  lemma SidIntervalsFail(bodyData: seq<byte>, pos: int, n: int)
    requires 0 < n && SidHeadInside(bodyData, pos)
    requires ReadIntervals(bodyData, pos + UuidLength + 8, IntervalCountAt(bodyData, pos)).Err?
    ensures ReadSids(bodyData, pos, n) == Err(IndexOutOfBounds)
  {
  }

  /** With no SIDs left to read, those read are all there are. */
  lemma NoSidsLeft(bodyData: seq<byte>, pos: int, n: int, sids: seq<SidBlock>)
    requires n <= 0
    ensures AfterSids(sids, ReadSids(bodyData, pos, n)) == Ok((sids, pos))
  {
    assert sids + [] == sids;
  }

  /** The outer loop's invariant carried over one SID. */
  lemma SidsStep(bodyData: seq<byte>, all: Result<(seq<SidBlock>, int)>,
                 sids: seq<SidBlock>, pos: int, n: int, sids': seq<SidBlock>, pos': int, n': int)
    requires 0 < n && SidHeadInside(bodyData, pos)
    requires all == AfterSids(sids, ReadSids(bodyData, pos, n))
    requires var ivs := ReadIntervals(bodyData, pos + UuidLength + 8, IntervalCountAt(bodyData, pos));
      && ivs.Ok?
      && sids' == sids + [SidBlock(UuidAt(bodyData, pos), ivs.value.0)] && pos' == ivs.value.1 && n' == n - 1
    ensures all == AfterSids(sids', ReadSids(bodyData, pos', n'))
  {
    var ivs := ReadIntervals(bodyData, pos + UuidLength + 8, IntervalCountAt(bodyData, pos));
    AfterSidsAppend(sids, SidBlock(UuidAt(bodyData, pos), ivs.value.0), ReadSids(bodyData, pos', n'));
  }

  lemma AfterNoSids(rest: Result<(seq<SidBlock>, int)>)
    ensures AfterSids([], rest) == rest
  {
    if rest.Ok? {
      assert [] + rest.value.0 == rest.value.0;
    }
  }

  lemma AfterSidsAppend(sids: seq<SidBlock>, sid: SidBlock, rest: Result<(seq<SidBlock>, int)>)
    ensures AfterSids(sids, AfterSids([sid], rest)) == AfterSids(sids + [sid], rest)
  {
    if rest.Ok? {
      assert sids + ([sid] + rest.value.0) == (sids + [sid]) + rest.value.0;
    }
  }

  lemma SetTextAppend(sids: seq<SidBlock>, sid: SidBlock, gtidCount: int)
    ensures SetText(sids + [sid], gtidCount) == SetText(sids, gtidCount) + IntervalsText(sid.intervals, gtidCount)
  {
    assert (sids + [sid])[..|sids|] == sids;
  }

  lemma EntriesAppend(sids: seq<SidBlock>, sid: SidBlock, gtidCount: int)
    requires UuidsRead(sids) && |sid.uuid| == UuidLength
    ensures UuidsRead(sids + [sid])
    ensures Entries(sids + [sid], gtidCount) == Entries(sids, gtidCount) + [Entry(sid.uuid, SetText(sids + [sid], gtidCount))]
  {
    assert (sids + [sid])[..|sids|] == sids;
  }

  // ------------------------------------------------- what the set holds

  /** Entry k is SID k's formatted uuid, ':' and the intervals of SIDs 0
      to k: the builder is never reset between SIDs. */
  lemma {:induction false} EntryShape(sids: seq<SidBlock>, gtidCount: int, k: int)
    requires UuidsRead(sids) && 0 <= k < |sids|
    ensures Entries(sids, gtidCount)[k] == Entry(sids[k].uuid, SetText(sids[..k + 1], gtidCount))
  {
    var n := |sids|;
    if k == n - 1 {
      EntriesLast(sids, gtidCount);
    } else {
      var front := sids[..n - 1];
      EntriesFront(sids, gtidCount, k);
      EntryShape(front, gtidCount, k);
      PrefixOfFront(sids, k);
    }
  }

  /** The last entry is the one the last SID added. */
  lemma EntriesLast(sids: seq<SidBlock>, gtidCount: int)
    requires UuidsRead(sids) && sids != []
    ensures Entries(sids, gtidCount)[|sids| - 1] == Entry(sids[|sids| - 1].uuid, SetText(sids[..|sids|], gtidCount))
  {
    assert sids[..|sids|] == sids;
  }

  /** The SIDs before the last, cut after k, are the SIDs cut after k. */
  lemma PrefixOfFront(sids: seq<SidBlock>, k: int)
    requires 0 <= k < |sids| - 1
    ensures sids[..|sids| - 1][k] == sids[k] && sids[..|sids| - 1][..k + 1] == sids[..k + 1]
  {
  }

  /** An entry before the last is the same entry of the SIDs before the last. */
  lemma EntriesFront(sids: seq<SidBlock>, gtidCount: int, k: int)
    requires UuidsRead(sids) && 0 <= k < |sids| - 1
    ensures UuidsRead(sids[..|sids| - 1])
    ensures Entries(sids, gtidCount)[k] == Entries(sids[..|sids| - 1], gtidCount)[k]
  {
    var front := sids[..|sids| - 1];
    assert UuidsRead(front) by {
      forall m | 0 <= m < |front| ensures |front[m].uuid| == UuidLength {
        assert front[m] == sids[m];
      }
    }
  }

  /** The builder only grows: its text after the first k SIDs begins its
      text after the first m, for k <= m. */
  lemma {:induction false} SetTextGrows(sids: seq<SidBlock>, gtidCount: int, k: int, m: int)
    requires 0 <= k <= m <= |sids|
    ensures SetText(sids[..k], gtidCount) <= SetText(sids[..m], gtidCount)
    decreases m
  {
    if k < m {
      SetTextGrows(sids, gtidCount, k, m - 1);
      var t := sids[..m];
      assert t[..m - 1] == sids[..m - 1];
      assert SetText(t, gtidCount) == SetText(sids[..m - 1], gtidCount) + IntervalsText(t[m - 1].intervals, gtidCount);
    }
  }

  /** After its 36-char uuid and ':', each entry repeats the interval text
      of every earlier entry before adding its own SID's intervals. */
  lemma EntriesAccumulate(sids: seq<SidBlock>, gtidCount: int, k: int, m: int)
    requires UuidsRead(sids) && 0 <= k <= m < |sids|
    ensures var e := Entries(sids, gtidCount);
      |e[k]| >= 37 && |e[m]| >= 37 && e[k][37..] <= e[m][37..]
  {
    EntryShape(sids, gtidCount, k);
    EntryShape(sids, gtidCount, m);
    EntryTexts(Entries(sids, gtidCount)[k], Entries(sids, gtidCount)[m], sids, gtidCount, k, m);
  }

  /** Two entries of the shape EntryShape gives: the earlier one's text is a
      prefix of the later one's. */
  lemma EntryTexts(ek: string, em: string, sids: seq<SidBlock>, gtidCount: int, k: int, m: int)
    requires UuidsRead(sids) && 0 <= k <= m < |sids|
    requires ek == Entry(sids[k].uuid, SetText(sids[..k + 1], gtidCount))
    requires em == Entry(sids[m].uuid, SetText(sids[..m + 1], gtidCount))
    ensures |ek| >= 37 && |em| >= 37 && ek[37..] <= em[37..]
  {
    EntryText(sids[k].uuid, SetText(sids[..k + 1], gtidCount));
    EntryText(sids[m].uuid, SetText(sids[..m + 1], gtidCount));
    SetTextGrows(sids, gtidCount, k + 1, m + 1);
  }

  /** An entry is 37 chars of uuid and ':', then the text. */
  lemma EntryText(uuid: seq<byte>, text: string)
    requires |uuid| == UuidLength
    ensures |Entry(uuid, text)| >= 37 && Entry(uuid, text)[37..] == text
  {
    FormattedUuidShape(uuid);
  }

  /** With a single SID no interval is followed by ':', since the separator
      is tested against the SID count: two intervals run together. */
  lemma SingleSidRunsTogether(uuid: seq<byte>)
    requires |uuid| == UuidLength
    ensures Entries([SidBlock(uuid, [Interval(1, 5), Interval(7, 9)])], 1)
         == [FormattedUuid(uuid).value + ":" + "1-57-9"]
  {
    var ivs := [Interval(1, 5), Interval(7, 9)];
    assert ivs[..1] == [Interval(1, 5)];
    assert [Interval(1, 5)][..0] == [];
    assert NatToString(1) == "1" && NatToString(5) == "5";
    assert NatToString(7) == "7" && NatToString(9) == "9";
    assert IntervalsText(ivs, 1) == "1-57-9";
    var sids := [SidBlock(uuid, ivs)];
    assert sids[..0] == [];
    assert SetText(sids, 1) == "1-57-9";
  }

  // ----------------------------------------------------------- encoding

  /** The 8 bytes that read back as the long x. */
  function EncodeLong(x: int): (r: seq<byte>)
    requires IsLong(x)
    ensures |r| == 8
  {
    assert Pow256(8) == 0x1_0000_0000_0000_0000;
    EncodeLittleEndian(UnsignedLong(x), 8)
  }

  /** An interval whose start, end and exclusive end are longs. */
  predicate IntervalFits(iv: Interval) {
    IsLong(iv.start) && IsLong(iv.end) && IsLong(iv.end + 1)
  }

  /** A SID writable in the event: a 16-byte uuid and fitting intervals. */
  predicate SidFits(sid: SidBlock) {
    && |sid.uuid| == UuidLength && IsLong(|sid.intervals|)
    && forall m :: 0 <= m < |sid.intervals| ==> IntervalFits(sid.intervals[m])
  }

  predicate SidsFit(sids: seq<SidBlock>) {
    IsLong(|sids|) && forall k :: 0 <= k < |sids| ==> SidFits(sids[k])
  }

  /** Each interval as its start and its exclusive end. */
  function EncodeIntervals(ivs: seq<Interval>): (r: seq<byte>)
    requires forall m :: 0 <= m < |ivs| ==> IntervalFits(ivs[m])
    ensures |r| == 16 * |ivs|
  {
    if ivs == [] then []
    else
      assert IntervalFits(ivs[0]);
      EncodeLong(ivs[0].start) + EncodeLong(ivs[0].end + 1) + EncodeIntervals(ivs[1..])
  }

  function EncodeSids(sids: seq<SidBlock>): (r: seq<byte>)
    requires forall k :: 0 <= k < |sids| ==> SidFits(sids[k])
  {
    if sids == [] then []
    else
      assert SidFits(sids[0]);
      assert forall k :: 0 <= k < |sids| - 1 ==> SidFits(sids[1..][k]) by {
        forall k | 0 <= k < |sids| - 1 ensures SidFits(sids[1..][k]) {
          assert sids[1..][k] == sids[k + 1];
        }
      }
      sids[0].uuid + EncodeLong(|sids[0].intervals|) + EncodeIntervals(sids[0].intervals) + EncodeSids(sids[1..])
  }

  /** The body of a PREVIOUS_GTIDS_LOG_EVENT holding sids. */
  function EncodePreviousGtids(sids: seq<SidBlock>): (r: seq<byte>)
    requires SidsFit(sids)
  {
    EncodeLong(|sids|) + EncodeSids(sids)
  }

  /** A body written from SIDs decodes to the set those SIDs render to. */
  lemma DecodeEncodePreviousGtids(sids: seq<SidBlock>)
    requires SidsFit(sids)
    ensures UuidsRead(sids)
    ensures PreviousGtidSet(EncodePreviousGtids(sids)) == Ok(Entries(sids, |sids|))
  {
    var bd := EncodePreviousGtids(sids);
    var es := EncodeSids(sids);
    SliceOfConcat(bd, 0, 8, |bd|, EncodeLong(|sids|), es);
    ReadLongEncoded(bd, 0, |sids|);
    ReadSidsEncoded(bd, 8, |bd|, sids);
  }

  lemma ReadLongEncoded(bodyData: seq<byte>, pos: int, x: int)
    requires IsLong(x) && 0 <= pos && pos + 8 <= |bodyData| && bodyData[pos..pos + 8] == EncodeLong(x)
    ensures ReadLong(bodyData, pos) == Ok(x)
  {
    assert Pow256(8) == 0x1_0000_0000_0000_0000;
    DecodeEncodeLittleEndian(UnsignedLong(x), 8);
  }

  lemma {:induction false} ReadIntervalsEncoded(bodyData: seq<byte>, pos: int, end: int, ivs: seq<Interval>)
    requires forall m :: 0 <= m < |ivs| ==> IntervalFits(ivs[m])
    requires 0 <= pos && end == pos + 16 * |ivs| && end <= |bodyData|
    requires bodyData[pos..end] == EncodeIntervals(ivs)
    ensures ReadIntervals(bodyData, pos, |ivs|) == Ok((ivs, end))
    decreases |ivs|
  {
    if ivs != [] {
      var iv, rest := ivs[0], ivs[1..];
      EncodedIntervalsSplit(bodyData, pos, end, ivs);
      IntervalAtEncoded(bodyData, pos, iv);
      ReadIntervalsEncoded(bodyData, pos + 16, end, rest);
      IntervalsCons(bodyData, pos, ivs, rest, end, end);
    } else {
      NoIntervalsRead(bodyData, pos, end, ivs);
    }
  }

  lemma NoIntervalsRead(bodyData: seq<byte>, pos: int, end: int, ivs: seq<Interval>)
    requires ivs == [] && end == pos + 16 * |ivs|
    ensures ReadIntervals(bodyData, pos, |ivs|) == Ok((ivs, end))
  {
  }

  /** The bytes of the first interval, and the rest encoded after them. */
  lemma EncodedIntervalsSplit(bodyData: seq<byte>, pos: int, end: int, ivs: seq<Interval>)
    requires ivs != [] && forall m :: 0 <= m < |ivs| ==> IntervalFits(ivs[m])
    requires 0 <= pos && end == pos + 16 * |ivs| && end <= |bodyData|
    requires bodyData[pos..end] == EncodeIntervals(ivs)
    ensures IntervalFits(ivs[0]) && forall m :: 0 <= m < |ivs| - 1 ==> IntervalFits(ivs[1..][m])
    ensures end == pos + 16 + 16 * |ivs[1..]|
    ensures bodyData[pos..pos + 16] == EncodeLong(ivs[0].start) + EncodeLong(ivs[0].end + 1)
    ensures bodyData[pos + 16..end] == EncodeIntervals(ivs[1..])
  {
    var rest := ivs[1..];
    assert forall m :: 0 <= m < |rest| ==> IntervalFits(rest[m]) by {
      forall m | 0 <= m < |rest| ensures IntervalFits(rest[m]) {
        assert rest[m] == ivs[m + 1];
      }
    }
    var head := EncodeLong(ivs[0].start) + EncodeLong(ivs[0].end + 1);
    EncodeIntervalsCons(ivs);
    SliceOfConcat(bodyData, pos, pos + 16, end, head, EncodeIntervals(rest));
  }

  lemma EncodeIntervalsCons(ivs: seq<Interval>)
    requires ivs != [] && forall m :: 0 <= m < |ivs| ==> IntervalFits(ivs[m])
    requires forall m :: 0 <= m < |ivs| - 1 ==> IntervalFits(ivs[1..][m])
    ensures IntervalFits(ivs[0])
    ensures EncodeIntervals(ivs) == EncodeLong(ivs[0].start) + EncodeLong(ivs[0].end + 1) + EncodeIntervals(ivs[1..])
  {
    assert IntervalFits(ivs[0]);
  }

  /** A slice from pos to end holding a + b holds a up to mid and b after. */
  lemma SliceOfConcat(bodyData: seq<byte>, pos: int, mid: int, end: int, a: seq<byte>, b: seq<byte>)
    requires 0 <= pos && mid == pos + |a| && end == mid + |b| && end <= |bodyData|
    requires bodyData[pos..end] == a + b
    ensures bodyData[pos..mid] == a && bodyData[mid..end] == b
  {
    var w := bodyData[pos..end];
    assert bodyData[pos..mid] == w[..|a|];
    assert bodyData[mid..end] == w[|a|..];
  }

  /** An interval written as its start and exclusive end reads back. */
  lemma IntervalAtEncoded(bodyData: seq<byte>, pos: int, iv: Interval)
    requires IntervalFits(iv) && 0 <= pos && pos + 16 <= |bodyData|
    requires bodyData[pos..pos + 16] == EncodeLong(iv.start) + EncodeLong(iv.end + 1)
    ensures IntervalInside(bodyData, pos) && IntervalAt(bodyData, pos) == iv
  {
    SliceOfConcat(bodyData, pos, pos + 8, pos + 16, EncodeLong(iv.start), EncodeLong(iv.end + 1));
    ReadLongEncoded(bodyData, pos, iv.start);
    ReadLongEncoded(bodyData, pos + 8, iv.end + 1);
  }

  /** Reading one interval more in front of intervals already read. */
  lemma IntervalsCons(bodyData: seq<byte>, pos: int, ivs: seq<Interval>, rest: seq<Interval>, after: int, end: int)
    requires ivs != [] && rest == ivs[1..] && after == end
    requires IntervalInside(bodyData, pos) && IntervalAt(bodyData, pos) == ivs[0]
    requires ReadIntervals(bodyData, pos + 16, |rest|) == Ok((rest, after))
    ensures ReadIntervals(bodyData, pos, |ivs|) == Ok((ivs, end))
  {
    assert [ivs[0]] + ivs[1..] == ivs;
  }

  lemma {:induction false} ReadSidsEncoded(bodyData: seq<byte>, pos: int, end: int, sids: seq<SidBlock>)
    requires forall k :: 0 <= k < |sids| ==> SidFits(sids[k])
    requires 0 <= pos && end == pos + |EncodeSids(sids)| && end <= |bodyData|
    requires bodyData[pos..end] == EncodeSids(sids)
    ensures UuidsRead(sids)
    ensures ReadSids(bodyData, pos, |sids|) == Ok((sids, end))
    decreases |sids|
  {
    if sids != [] {
      var sid, rest := sids[0], sids[1..];
      var after := EncodedSidsSplit(bodyData, pos, end, sids);
      ReadIntervalsEncoded(bodyData, pos + 24, after, sid.intervals);
      ReadSidsEncoded(bodyData, after, end, rest);
      SidsCons(bodyData, pos, sids, rest, after, end);
      UuidsReadCons(sids, rest);
    } else {
      NoSidsRead(bodyData, pos, end, sids);
    }
  }

  lemma NoSidsRead(bodyData: seq<byte>, pos: int, end: int, sids: seq<SidBlock>)
    requires sids == [] && end == pos + |EncodeSids(sids)|
    ensures UuidsRead(sids)
    ensures ReadSids(bodyData, pos, |sids|) == Ok((sids, end))
  {
    assert EncodeSids(sids) == [];
  }

  /** The head and intervals of the first SID, and the rest encoded after
      them, from the returned position on. */
  lemma EncodedSidsSplit(bodyData: seq<byte>, pos: int, end: int, sids: seq<SidBlock>) returns (after: int)
    requires sids != [] && forall k :: 0 <= k < |sids| ==> SidFits(sids[k])
    requires 0 <= pos && end == pos + |EncodeSids(sids)| && end <= |bodyData|
    requires bodyData[pos..end] == EncodeSids(sids)
    ensures SidFits(sids[0]) && forall k :: 0 <= k < |sids| - 1 ==> SidFits(sids[1..][k])
    ensures after == pos + 24 + 16 * |sids[0].intervals|
    ensures end == after + |EncodeSids(sids[1..])|
    ensures SidHeadInside(bodyData, pos) && UuidAt(bodyData, pos) == sids[0].uuid
    ensures IntervalCountAt(bodyData, pos) == |sids[0].intervals|
    ensures bodyData[pos + 24..after] == EncodeIntervals(sids[0].intervals)
    ensures bodyData[after..end] == EncodeSids(sids[1..])
  {
    var sid, rest := sids[0], sids[1..];
    assert SidFits(sid);
    assert forall k :: 0 <= k < |rest| ==> SidFits(rest[k]) by {
      forall k | 0 <= k < |rest| ensures SidFits(rest[k]) {
        assert rest[k] == sids[k + 1];
      }
    }
    var n := |sid.intervals|;
    var head := sid.uuid + EncodeLong(n);
    var ei, er := EncodeIntervals(sid.intervals), EncodeSids(rest);
    assert EncodeSids(sids) == head + (ei + er) by {
      ConcatAssocBytes(sid.uuid, EncodeLong(n), ei, er);
    }
    after := pos + 24 + 16 * n;
    SliceOfConcat(bodyData, pos, pos + 24, end, head, ei + er);
    SliceOfConcat(bodyData, pos, pos + 16, pos + 24, sid.uuid, EncodeLong(n));
    SliceOfConcat(bodyData, pos + 24, after, end, ei, er);
    ReadLongEncoded(bodyData, pos + 16, n);
  }

  lemma ConcatAssocBytes(a: seq<byte>, b: seq<byte>, c: seq<byte>, d: seq<byte>)
    ensures a + b + c + d == (a + b) + (c + d)
  {
  }

  /** Reading one SID more in front of SIDs already read. */
  lemma SidsCons(bodyData: seq<byte>, pos: int, sids: seq<SidBlock>, rest: seq<SidBlock>, after: int, end: int)
    requires sids != [] && rest == sids[1..]
    requires SidHeadInside(bodyData, pos) && UuidAt(bodyData, pos) == sids[0].uuid
    requires IntervalCountAt(bodyData, pos) == |sids[0].intervals|
    requires ReadIntervals(bodyData, pos + 24, |sids[0].intervals|) == Ok((sids[0].intervals, after))
    requires ReadSids(bodyData, after, |rest|) == Ok((rest, end))
    ensures ReadSids(bodyData, pos, |sids|) == Ok((sids, end))
  {
    assert [SidBlock(sids[0].uuid, sids[0].intervals)] + rest == sids;
  }

  lemma UuidsReadCons(sids: seq<SidBlock>, rest: seq<SidBlock>)
    requires sids != [] && rest == sids[1..] && |sids[0].uuid| == UuidLength && UuidsRead(rest)
    ensures UuidsRead(sids)
  {
    forall k | 0 <= k < |sids| ensures |sids[k].uuid| == UuidLength {
      if k > 0 {
        assert sids[k] == rest[k - 1];
      }
    }
  }

  lemma UuidAtRead(bodyData: seq<byte>, pos: int, uuid: seq<byte>)
    requires 0 <= pos && pos + UuidLength <= |bodyData| && bodyData[pos..pos + UuidLength] == uuid
    ensures SidHeadInside(bodyData, pos) && UuidAt(bodyData, pos) == uuid
  {
  }

  // ----------------------------------------------------------- toString

  /** "# " and the entry, one line per entry. */
  function Lines(gtids: seq<string>): string
    decreases |gtids|
  {
    if gtids == [] then "" else Lines(gtids[..|gtids| - 1]) + "# " + gtids[|gtids| - 1] + "\n"
  }

  /** toString(): a heading, then "# [EMPTY]" for an empty set or one line per
      entry. */
  function Listing(gtids: seq<string>): string {
    "Previous-GTIDs: \n" + if gtids == [] then "# [EMPTY]\n" else Lines(gtids)
  }

  /** The lines of two sets of entries one after the other. */
  lemma {:induction false} LinesAppend(a: seq<string>, b: seq<string>)
    ensures Lines(a + b) == Lines(a) + Lines(b)
    decreases |b|
  {
    if b != [] {
      var front := b[..|b| - 1];
      LinesAppend(a, front);
      assert (a + b)[..|a + b| - 1] == a + front;
      ConcatAssoc(Lines(a), Lines(front), "# " + b[|b| - 1] + "\n");
    } else {
      assert a + b == a;
    }
  }

  /** A non-empty set is listed from its first entry on, after the heading. */
  lemma ListingFirstLine(gtids: seq<string>)
    requires gtids != []
    ensures Listing(gtids) == "Previous-GTIDs: \n" + "# " + gtids[0] + "\n" + Lines(gtids[1..])
  {
    LinesAppend([gtids[0]], gtids[1..]);
    assert [gtids[0]] + gtids[1..] == gtids;
    assert Lines([gtids[0]]) == "# " + gtids[0] + "\n";
  }

  /** toString() with a StringBuilder. */
  method ToString(gtids: seq<string>) returns (s: string)
    ensures s == Listing(gtids)
  {
    s := "Previous-GTIDs: \n";
    if |gtids| == 0 {
      s := s + "# [EMPTY]\n";
      return;
    }
    var k := 0;
    while k < |gtids|
      invariant 0 <= k <= |gtids|
      invariant s == "Previous-GTIDs: \n" + Lines(gtids[..k])
    {
      assert gtids[..k + 1][..k] == gtids[..k];
      s := s + "# " + gtids[k] + "\n";
      k := k + 1;
    }
    assert gtids[..k] == gtids;
  }
}
