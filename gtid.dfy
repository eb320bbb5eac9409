/** A global transaction id "uuid:n": its parsing from text and the order of
    two ids of the same server. */
module Gtids {
  import opened Wrappers
  import opened Java
  import opened ParserHelper

  datatype Gtid = Gtid(uuid: string, transactionId: int)

  /** The pattern the constructor matches the whole text against:
      8-4-4-4-12 lower-case hex digits, ':', then one or more ASCII digits. */
  predicate IsGtidText(t: string) {
    |t| > 37 && IsUuidText(t[..36]) && t[36] == ':' && AllDigits(t[37..])
  }

  /** The Gtid constructor. The trimmed, lower-cased text must match the
      pattern, or it throws; the fields are then taken from the text as
      given, split at ':'. */
  function ParseGtid(s: string): (r: Result<Gtid>)
    ensures !IsGtidText(ToLower(Trim(s))) ==> r == Err(NotGtid)
    ensures IsGtidText(ToLower(Trim(s))) ==> r == GtidOfFields(Split(s, ':'))
  {
    if !IsGtidText(ToLower(Trim(s))) then Err(NotGtid) else GtidOfFields(Split(s, ':'))
  }

  /** The uuid is the first field and the transaction id the second, parsed
      as a long; a missing second field is an index out of bounds. */
  function GtidOfFields(tmp: seq<string>): (r: Result<Gtid>)
    ensures r.Ok? <==> |tmp| >= 2 && ParseLong(tmp[1]).Ok?
    ensures |tmp| >= 2 && r.Err? ==> r.error == NumberFormat
    ensures r.Ok? ==> r.value.uuid == tmp[0] && Ok(r.value.transactionId) == ParseLong(tmp[1])
  {
    if |tmp| < 2 then Err(IndexOutOfBounds)
    else
      match ParseLong(tmp[1])
      case Err(e) => Err(e)
      case Ok(id) => Ok(Gtid(tmp[0], id))
  }

  /** Matching text has its one ':' 36 chars after the leading blanks. The
      uuid is the text before it, leading blanks and upper-case letters
      kept; the number is parsed from the text after it, trailing blanks
      kept, so trailing blanks make parseLong throw. The split always has
      the second field the constructor reads. */
  lemma ParseGtidMatched(s: string, i: nat, t: string)
    requires i == TrimStart(s, 0) && t == Trim(s) && IsGtidText(ToLower(t))
    ensures i + 37 < |s|
    ensures ParseGtid(s) == GtidOfFields([s[..i + 36], s[i + 37..]])
    ensures ParseGtid(s).Ok? <==> ParseLong(s[i + 37..]).Ok?
    ensures ParseGtid(s).Err? ==> ParseGtid(s).error == NumberFormat
    ensures ParseGtid(s).Ok? ==> ParseGtid(s).value.uuid == s[..i + 36]
  {
    MatchedSplit(s, i, t);
    TwoFields(s[..i + 36], s[i + 37..]);
  }

  lemma MatchedSplit(s: string, i: nat, t: string)
    requires i == TrimStart(s, 0) && t == Trim(s) && IsGtidText(ToLower(t))
    ensures i + 37 < |s| && Split(s, ':') == [s[..i + 36], s[i + 37..]]
  {
    TrimAround(s);
    GtidTextSplit(s, i, t);
  }

  /** s is blanks, then t at i, then blanks. */
  predicate BlanksAround(s: string, i: int, t: string) {
    && 0 <= i && i + |t| <= |s| && t == s[i..i + |t|]
    && (forall m :: 0 <= m < i ==> IsTrimmed(s[m]))
    && (forall m :: i + |t| <= m < |s| ==> IsTrimmed(s[m]))
  }

  /** trim drops the blanks around what it keeps. */
  lemma TrimAround(s: string)
    ensures BlanksAround(s, TrimStart(s, 0), Trim(s))
  {
    TrimShape(s);
  }

  /** Two fields: the second is the transaction id's text. */
  lemma TwoFields(a: string, b: string)
    ensures GtidOfFields([a, b]).Ok? <==> ParseLong(b).Ok?
    ensures GtidOfFields([a, b]).Err? ==> GtidOfFields([a, b]).error == NumberFormat
    ensures GtidOfFields([a, b]).Ok? ==> GtidOfFields([a, b]).value == Gtid(a, ParseLong(b).value)
  {
    assert [a, b][1] == b;
  }

  /** A char that lower-cases to ':' was ':'. */
  lemma LowerColon(c: char)
    requires LowerChar(c) == ':'
    ensures c == ':'
  {
  }

  /** Text made of blanks, then at i a part t whose lower-cased form matches,
      then blanks, has exactly one ':', 36 chars into t, with something after
      it; so split gives the two sides. */
  lemma GtidTextSplit(s: string, i: int, t: string)
    requires BlanksAround(s, i, t) && IsGtidText(ToLower(t))
    ensures i + 37 < |s| && Split(s, ':') == [s[..i + 36], s[i + 37..]]
  {
    GtidTextColon(t, 36);
    forall m | 0 <= m < |s| && m != i + 36 ensures s[m] != ':' {
      if i <= m < i + |t| {
        assert s[m] == t[m - i];
        GtidTextColon(t, m - i);
      }
    }
    SplitAtOnlyColon(s, i + 36);
  }

  /** In text whose lower-cased form matches, the one ':' is at 36. */
  lemma GtidTextColon(t: string, j: int)
    requires IsGtidText(ToLower(t)) && 0 <= j < |t|
    ensures t[j] == ':' <==> j == 36
  {
    var lower := ToLower(t);
    if j < 36 {
      assert UuidCharAt(lower[..36], j);
      assert lower[..36][j] == lower[j];
    } else if j > 36 {
      assert lower[37..][j - 37] == lower[j];
    }
    if t[j] != LowerChar(t[j]) {
      assert 'a' <= lower[j] <= 'z';
    }
  }

  /** A string with a single ':', at k, and something after it, splits at k. */
  lemma SplitAtOnlyColon(s: string, k: int)
    requires 0 <= k < |s| - 1 && s[k] == ':'
    requires forall m :: 0 <= m < |s| && m != k ==> s[m] != ':'
    ensures Split(s, ':') == [s[..k], s[k + 1..]]
  {
    var rest := s[k + 1..];
    assert ':' !in rest by {
      forall j | 0 <= j < |rest| ensures rest[j] != ':' {
        assert rest[j] == s[k + 1 + j];
      }
    }
    assert rest[0] == s[k + 1];
    assert Fields(rest, ':') == [rest];
    assert Fields(s, ':') == [s[..k]] + Fields(rest, ':');
  }

  /** compareTo(g): with the same uuid, 0, 1 or -1 as the transaction id is
      equal to, greater than or less than g's; with different uuids it
      throws. */
  function CompareTo(a: Gtid, b: Gtid): (r: Result<int>)
    ensures r.Ok? <==> a.uuid == b.uuid
    ensures r.Err? ==> r.error == NotComparable
    ensures r.Ok? ==> -1 <= r.value <= 1
    ensures r.Ok? ==> (r.value == 0 <==> a.transactionId == b.transactionId)
    ensures r.Ok? ==> (r.value == 1 <==> a.transactionId > b.transactionId)
  {
    if a.uuid == b.uuid then
      if a.transactionId == b.transactionId then Ok(0)
      else if a.transactionId > b.transactionId then Ok(1)
      else Ok(-1)
    else Err(NotComparable)
  }

  /** Swapping the arguments negates the result. */
  lemma CompareToAntisymmetric(a: Gtid, b: Gtid)
    requires a.uuid == b.uuid
    ensures CompareTo(a, b).value == -CompareTo(b, a).value
  {
  }

  /** Greater-than is transitive among ids of one server. */
  lemma CompareToTransitive(a: Gtid, b: Gtid, c: Gtid)
    requires CompareTo(a, b) == Ok(1) && CompareTo(b, c) == Ok(1)
    ensures CompareTo(a, c) == Ok(1)
  {
  }

  /** A uuid text and a non-negative transaction id, written as
      "uuid:n", parse back to that Gtid. */
  lemma ParseGtidCanonical(u: string, x: int)
    requires IsUuidText(u) && 0 <= x < 0x8000_0000_0000_0000
    ensures ParseGtid(u + ":" + LongToString(x)) == Ok(Gtid(u, x))
  {
    var digits := LongToString(x);
    var s := u + ":" + digits;
    CanonicalIsGtidText(u, digits);
    ParseGtidMatched(s, 0, s);
    assert s[..36] == u && s[37..] == digits;
    ParseLongToString(x);
  }

  /** The canonical text is its own trimmed, lower-cased form and matches. */
  lemma CanonicalIsGtidText(u: string, digits: string)
    requires IsUuidText(u) && digits != [] && AllDigits(digits)
    ensures var s := u + ":" + digits;
      Trim(s) == s && TrimStart(s, 0) == 0 && ToLower(s) == s && IsGtidText(s)
  {
    var s := u + ":" + digits;
    assert UuidCharAt(u, 0);
    assert s[0] == u[0];
    assert s[..36] == u && s[36] == ':' && s[37..] == digits;
    assert s[|s| - 1] == digits[|digits| - 1];
    assert TrimStart(s, 0) == 0;
    assert TrimEnd(s, |s|, 0) == |s|;
    forall m | 0 <= m < |s| ensures LowerChar(s[m]) == s[m] {
      if m < 36 {
        assert UuidCharAt(u, m);
        assert s[m] == u[m];
      } else if m > 36 {
        assert s[m] == digits[m - 37];
      }
    }
  }

  /** With a trailing blank the text still matches the pattern after trim,
      but the number is parsed with the blank, so the constructor throws
      NumberFormatException. */
  lemma ParseGtidTrailingBlank(u: string, x: int)
    requires IsUuidText(u) && 0 <= x < 0x8000_0000_0000_0000
    ensures ParseGtid(u + ":" + LongToString(x) + " ") == Err(NumberFormat)
  {
    var digits := LongToString(x);
    var s := u + ":" + digits;
    var s' := s + " ";
    CanonicalIsGtidText(u, digits);
    TrimBlankEnd(s);
    ParseGtidMatched(s', 0, s);
    var tail := s'[37..];
    assert tail[|tail| - 1] == ' ';
    assert !AllDigits(tail);
  }

  /** Trimming a trimmed text with a blank after it gives the text. */
  lemma TrimBlankEnd(s: string)
    requires s != [] && Trim(s) == s && TrimStart(s, 0) == 0
    ensures TrimStart(s + " ", 0) == 0 && Trim(s + " ") == s
  {
    var s' := s + " ";
    TrimShape(s);
    assert s'[0] == s[0];
    assert TrimEnd(s', |s'|, 0) == TrimEnd(s', |s|, 0) by {
      assert s'[|s'| - 1] == ' ';
    }
    assert s'[|s| - 1] == s[|s| - 1];
    assert s'[..|s|] == s;
  }
}
