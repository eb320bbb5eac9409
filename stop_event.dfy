/** STOP_EVENT: written when the server stops; it has no post-header and no
    payload. Its one operation guesses the name of the next binlog file from
    the current one: the numeric suffix after the last '.' plus one, padded
    with zeros to the suffix's width. */
module StopEvents {
  import opened Wrappers
  import opened Java
  import opened ParserHelper

  /** getFixedLenghtString(l, length): l in decimal, zero-padded to length;
      when l does not fit in fewer than length characters the sequence starts
      over at 1, also padded to length. */
  function NextSequenceText(l: int, length: int): (r: string)
    ensures |r| == Max(length, 1)
    ensures |LongToString(l)| < length ==> r == LeftPad(LongToString(l), length, '0')
    ensures |LongToString(l)| >= length ==> r == LeftPad("1", length, '0')
  {
    var s := LongToString(l);
    if |s| < length then LeftPad(s, length, '0') else LeftPad("1", length, '0')
  }

  /** assumeNextFile(): null when the file name has no '.' after its first
      character; otherwise the name up to and including the last '.',
      followed by the next sequence number. A suffix that is not a long
      throws NumberFormatException. currSeq + 1 is long arithmetic. */
  function AssumeNextFile(current: string): (r: Result<Option<string>>)
    ensures r == Ok(None) <==> LastIndexOf(current, '.') < 1
    ensures r.Err? <==>
      LastIndexOf(current, '.') >= 1 && ParseLong(current[LastIndexOf(current, '.') + 1..]).Err?
    ensures r.Err? ==> r.error == NumberFormat
    ensures r.Ok? && r.value.Some? ==> |r.value.value| == |current|
    ensures r.Ok? && r.value.Some? ==>
      r.value.value[..LastIndexOf(current, '.') + 1] == current[..LastIndexOf(current, '.') + 1]
  {
    var idx := LastIndexOf(current, '.');
    if idx < 1 then Ok(None) else NextFileAfter(current, idx, ParseLong(current[idx + 1..]))
  }

  /** The second half of assumeNextFile, given what parsing the suffix after
      the '.' at idx gave. */
  function NextFileAfter(current: string, idx: int, currSeq: Result<int>): (r: Result<Option<string>>)
    requires 0 <= idx < |current|
    requires currSeq.Ok? ==> idx < |current| - 1
    ensures r.Err? <==> currSeq.Err?
    ensures r.Err? ==> r.error == currSeq.error
    ensures r.Ok? ==>
      r.value.Some? && |r.value.value| == |current| && r.value.value[..idx + 1] == current[..idx + 1]
  {
    match currSeq
    case Err(e) => Err(e)
    case Ok(v) => Ok(Some(NextFileName(current, idx, v)))
  }

  /** The name up to and including the '.' at idx, then the sequence
      number after currSeq at the width of the old suffix. */
  function NextFileName(current: string, idx: int, currSeq: int): (r: string)
    requires 0 <= idx < |current| - 1
    ensures |r| == |current| && r[..idx + 1] == current[..idx + 1]
    ensures r[idx + 1..] == NextSequenceText(Int64(currSeq + 1), |current| - idx - 1)
  {
    var prefix := current[..idx + 1];
    var next := prefix + NextSequenceText(Int64(currSeq + 1), |current| - idx - 1);
    assert next[..idx + 1] == prefix;
    next
  }

  /** Leading zeros do not change the number a string of digits denotes. */
  lemma {:induction false} LeadingZerosValue(z: string, s: string)
    requires forall k :: 0 <= k < |z| ==> z[k] == '0'
    requires AllDigits(s)
    ensures AllDigits(z + s) && DigitsValue(z + s) == DigitsValue(s)
  {
    if s == [] {
      assert z + s == z;
      ZerosValue(z);
    } else {
      LeadingZerosValue(z, s[..|s| - 1]);
      assert (z + s)[..|z + s| - 1] == z + s[..|s| - 1];
    }
  }

  lemma {:induction false} ZerosValue(z: string)
    requires forall k :: 0 <= k < |z| ==> z[k] == '0'
    ensures AllDigits(z) && DigitsValue(z) == 0
  {
    if z != [] {
      ZerosValue(z[..|z| - 1]);
    }
  }

  /** A run of digits parses as the number it denotes, whenever that fits in
      a long. */
  lemma ParseDigits(s: string)
    requires s != [] && AllDigits(s) && DigitsValue(s) <= 0x7FFF_FFFF_FFFF_FFFF
    ensures ParseLong(s) == Ok(DigitsValue(s) as int)
  {
  }

  /** Zero padding keeps a run of digits a run of digits with the same value. */
  lemma PaddedDigits(s: string, length: int)
    requires AllDigits(s)
    ensures var t := LeftPad(s, length, '0'); AllDigits(t) && DigitsValue(t) == DigitsValue(s)
  {
    var t := LeftPad(s, length, '0');
    var z := t[..|t| - |s|];
    assert t == z + s;
    LeadingZerosValue(z, s);
  }

  /** The padded text holds the number it was made from: l while l has fewer
      digits than the width, and 1 once its digits fill the width or more
      (only a text shorter than the width is padded). */
  lemma NextSequenceValue(l: int, length: int)
    requires 0 <= l < 0x8000_0000_0000_0000 && length >= 1
    ensures var t := NextSequenceText(l, length);
      AllDigits(t) && ParseLong(t) == Ok(if |NatToString(l)| < length then l else 1)
  {
    var s := LongToString(l);
    assert s == NatToString(l);
    if |s| < length {
      NatToStringValue(l);
      PaddedDigits(s, length);
      ParseDigits(LeftPad(s, length, '0'));
    } else {
      assert DigitsValue("1") == 1;
      PaddedDigits("1", length);
      ParseDigits(LeftPad("1", length, '0'));
    }
  }

  /** The guessed name of a file whose suffix is a plain decimal number v
      below Long.MAX_VALUE: the same prefix, and the suffix holds v + 1 when
      v + 1 has fewer digits than the suffix, and 1 otherwise, because only
      a text shorter than the width is padded. So "mysql-bin.000041" is
      followed by "mysql-bin.000042", while "mysql-bin.123456" (123457 has
      as many digits as the suffix) and "mysql-bin.999" are followed by
      "mysql-bin.000001" and "mysql-bin.001". */
  lemma NextFileSequence(current: string)
    requires var idx := LastIndexOf(current, '.');
      && idx >= 1 && idx + 1 < |current| && AllDigits(current[idx + 1..])
      && DigitsValue(current[idx + 1..]) < 0x7FFF_FFFF_FFFF_FFFF
    ensures var idx := LastIndexOf(current, '.');
      var v := DigitsValue(current[idx + 1..]);
      var r := AssumeNextFile(current);
      && r.Ok? && r.value.Some?
      && r.value.value[..idx + 1] == current[..idx + 1]
      && ParseLong(r.value.value[idx + 1..]) == Ok(if |NatToString(v + 1)| < |current| - idx - 1 then v + 1 else 1)
  {
    var idx := LastIndexOf(current, '.');
    var v := DigitsValue(current[idx + 1..]);
    ParseDigits(current[idx + 1..]);
    assert AssumeNextFile(current) == Ok(Some(NextFileName(current, idx, v)));
    NextFileNameValue(current, idx, v);
  }

  /** The suffix NextFileName writes after a sequence number v below
      Long.MAX_VALUE: v + 1 when it has fewer digits than the suffix, else 1. */
  lemma NextFileNameValue(current: string, idx: int, v: int)
    requires 0 <= idx < |current| - 1 && 0 <= v < 0x7FFF_FFFF_FFFF_FFFF
    ensures ParseLong(NextFileName(current, idx, v)[idx + 1..])
         == Ok(if |NatToString(v + 1)| < |current| - idx - 1 then v + 1 else 1)
  {
    var w := |current| - idx - 1;
    Int64Identity(v + 1);
    assert NextFileName(current, idx, v)[idx + 1..] == NextSequenceText(v + 1, w);
    NextSequenceValue(v + 1, w);
  }
}
