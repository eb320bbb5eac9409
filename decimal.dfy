/** DECIMAL and NEWDECIMAL values in a rows event: MySQL's binary decimal
    format and the way RowsEventBody reads it back.

    The format (decimal2bin in MySQL's decimal.c) cuts the integer digits
    and the fraction digits into groups of nine, each stored in four
    big-endian bytes; the integer part's leading leftover digits and the
    fraction part's trailing leftover digits take 1 to 4 bytes. The top bit
    of the first byte is flipped, and a negative value has every byte
    inverted. */
module Decimals {
  import opened Wrappers
  import opened Java
  import opened ParserHelper

  function Pow10(n: nat): (r: nat)
    ensures r >= 1
  {
    if n == 0 then 1 else 10 * Pow10(n - 1)
  }

  // ------------------------------------------------------------ layout

  /** getLeftoverBytes: the bytes a group of 1 to 9 leftover digits takes;
      0 for any other count. */
  function LeftoverBytes(leftover: int): (r: int)
    ensures 0 <= r <= 4
    ensures r == 0 <==> !(1 <= leftover <= 9)
  {
    if 1 <= leftover <= 2 then 1
    else if 3 <= leftover <= 4 then 2
    else if 5 <= leftover <= 6 then 3
    else if 7 <= leftover <= 9 then 4
    else 0
  }

  /** MySQL's table of the bytes a group of n < 10 digits takes (dig2bytes). */
  const Dig2Bytes: seq<int> := [0, 1, 1, 2, 2, 3, 3, 4, 4, 4]

  lemma LeftoverBytesIsDig2Bytes(n: int)
    requires 0 <= n <= 9
    ensures LeftoverBytes(n) == Dig2Bytes[n]
  {
  }

  /** Every value of n digits fits the bytes getLeftoverBytes gives, with the
      top bit, which the format flips, still clear. */
  lemma LeftoverDigitsFit(n: int)
    requires 1 <= n <= 9
    ensures 2 * Pow10(n) <= Pow256(LeftoverBytes(n))
  {
    assert Pow256(1) == 256 && Pow256(2) == 65536;
    assert Pow256(3) == 16777216 && Pow256(4) == 4294967296;
    assert Pow10(2) == 100 && Pow10(4) == 10000 && Pow10(6) == 1000000 && Pow10(9) == 1000000000;
  }

  /** The sizes RowsEventBody computes from precision and scale: the number
      of nine-digit words and the leftover bytes of each part, with Java's
      truncating / and %. */
  datatype Layout = Layout(integerQuotient: int, integerLeftoverBytes: int,
                           fractionQuotient: int, fractionLeftoverBytes: int)
  {
    function IntegerBytes(): int { 4 * integerQuotient + integerLeftoverBytes }
    function FractionBytes(): int { 4 * fractionQuotient + fractionLeftoverBytes }
    /** The bytes the value takes in the row image. */
    function Width(): int { IntegerBytes() + FractionBytes() }
  }

  function LayoutOf(precision: int, scale: int): (l: Layout)
    ensures 0 <= l.integerLeftoverBytes && 0 <= l.fractionLeftoverBytes
  {
    var integerDigits := precision - scale;
    Layout(Quot(integerDigits, 9), LeftoverBytes(Rem(integerDigits, 9)),
           Quot(scale, 9), LeftoverBytes(Rem(scale, 9)))
  }

  /** There are fraction bytes only for a positive scale, and the fraction
      words end within the scale's digits. */
  lemma FractionWithinScale(precision: int, scale: int)
    ensures var l := LayoutOf(precision, scale);
      l.FractionBytes() > 0 ==> 0 < scale && 0 <= l.fractionQuotient && 9 * l.fractionQuotient <= scale
  {
    QuotRem(scale, 9);
  }

  /** For 0 <= scale <= precision the sizes are the digit counts' quotients
      and remainders by 9. */
  lemma LayoutOfNatural(precision: int, scale: int)
    requires 0 <= scale <= precision
    ensures LayoutOf(precision, scale) == Layout((precision - scale) / 9, LeftoverBytes((precision - scale) % 9),
                                                 scale / 9, LeftoverBytes(scale % 9))
  {
    RemOfNatural(precision - scale, 9);
    RemOfNatural(scale, 9);
  }

  // ------------------------------------------------------------ sign

  /** `b ^ 0x80` on a byte: the top bit flipped. */
  function FlipTop(b: byte): (r: byte)
    ensures (r < 0x80) == (b >= 0x80)
  {
    if b >= 0x80 then b - 0x80 else b + 0x80
  }

  /** `b ^ 0xFF` on a byte: every bit flipped. */
  function Invert(b: byte): byte { 255 - b }

  function Inverted(s: seq<byte>): (r: seq<byte>)
    ensures |r| == |s|
  {
    seq(|s|, i requires 0 <= i < |s| => Invert(s[i]))
  }

  /** A stored value is negative when the top bit of its first byte is clear. */
  predicate IsNegative(raw: seq<byte>)
    requires |raw| >= 1
  {
    raw[0] < 0x80
  }

  /** What the reader leaves in rawDecimalValue: the first byte's top bit
      flipped, then, for a negative value, every byte inverted. */
  function Magnitude(raw: seq<byte>): (r: seq<byte>)
    requires |raw| >= 1
    ensures |r| == |raw| && r[0] < 0x80
  {
    var flipped := [FlipTop(raw[0])] + raw[1..];
    if IsNegative(raw) then Inverted(flipped) else flipped
  }

  /** decimal2bin's last step: a magnitude stored with its sign. */
  function Stored(mag: seq<byte>, negative: bool): (r: seq<byte>)
    requires |mag| >= 1
    ensures |r| == |mag|
  {
    var s := if negative then Inverted(mag) else mag;
    [FlipTop(s[0])] + s[1..]
  }

  /** The reader recovers the sign and the magnitude of every stored value
      whose magnitude keeps the top bit clear, as the format's do. */
  lemma MagnitudeOfStored(mag: seq<byte>, negative: bool)
    requires |mag| >= 1 && mag[0] < 0x80
    ensures IsNegative(Stored(mag, negative)) == negative
    ensures Magnitude(Stored(mag, negative)) == mag
  {
    var st := Stored(mag, negative);
    forall k | 0 <= k < |mag|
      ensures Magnitude(st)[k] == mag[k]
    {
    }
  }

  /** Every byte string is the stored form of its magnitude and sign, so the
      reader's view loses nothing. */
  lemma StoredOfMagnitude(raw: seq<byte>)
    requires |raw| >= 1
    ensures Stored(Magnitude(raw), IsNegative(raw)) == raw
  {
    var st := Stored(Magnitude(raw), IsNegative(raw));
    forall k | 0 <= k < |raw|
      ensures st[k] == raw[k]
    {
    }
  }

  lemma FlippedFirst(stored: seq<byte>, flipped: seq<byte>)
    requires |stored| == |flipped| >= 1 && flipped[0] == FlipTop(stored[0])
    requires forall k :: 1 <= k < |stored| ==> flipped[k] == stored[k]
    ensures flipped == [FlipTop(stored[0])] + stored[1..]
  {
  }

  lemma InvertedAll(s: seq<byte>, t: seq<byte>)
    requires |s| == |t| && forall k :: 0 <= k < |s| ==> t[k] == Invert(s[k])
    ensures t == Inverted(s)
  {
  }

  /** The sign handling on rawDecimalValue, in place: the sign is read from
      the top bit of the first byte, that bit is flipped, and a negative
      value has every byte inverted. Reading the first byte of an empty
      value throws. */
  method RestoreMagnitude(raw: array<byte>) returns (r: Result<bool>)
    modifies raw
    ensures raw.Length == 0 ==> r == Err(IndexOutOfBounds)
    ensures raw.Length > 0 ==> r == Ok(IsNegative(old(raw[..]))) && raw[..] == Magnitude(old(raw[..]))
  {
    if raw.Length == 0 {
      return Err(IndexOutOfBounds);
    }
    ghost var stored := raw[..];
    var negative := raw[0] >= 0x80;
    raw[0] := FlipTop(raw[0]);
    negative := !negative;
    ghost var flipped := raw[..];
    FlippedFirst(stored, flipped);
    if negative {
      var i := 0;
      while i < raw.Length
        invariant 0 <= i <= raw.Length
        invariant forall k :: 0 <= k < i ==> raw[k] == Invert(flipped[k])
        invariant forall k :: i <= k < raw.Length ==> raw[k] == flipped[k]
      {
        raw[i] := Invert(raw[i]);
        i := i + 1;
      }
      InvertedAll(flipped, raw[..]);
    }
    r := Ok(negative);
  }

  // ------------------------------------------------------------ value as read

  /** One group as the reader takes it from the magnitude:
      `getUnsignedInteger(copyOfRange(mag, from, from + n), BIG_ENDIAN)`. */
  function GroupAt(mag: seq<byte>, from: int, n: int): (r: Result<int>)
  {
    match CopyOfRange(mag, from, from + n)
    case Err(e) => Err(e)
    case Ok(raw) => GetUnsignedInteger(raw, BigEndian)
  }

  /** The integer-word loop as written, from word i on: word i is read as
      (i + 1) * 4 bytes and shifts the value so far by (i + 1) * 9 digits.
      The result is the integer value and the offset after the words. */
  function IntegerWords(mag: seq<byte>, offset: int, i: nat, quotient: int, acc: int): (r: Result<(int, int)>)
    decreases quotient - i
  {
    if i >= quotient then Ok((acc, offset))
    else IntegerWordsAfter(mag, offset, i, quotient, acc, GroupAt(mag, offset, (i + 1) * 4))
  }

  function IntegerWordsAfter(mag: seq<byte>, offset: int, i: nat, quotient: int, acc: int,
                             word: Result<int>): (r: Result<(int, int)>)
    requires i < quotient
    decreases quotient - i, 0
  {
    match word
    case Err(e) => Err(e)
    case Ok(v) => IntegerWords(mag, offset + (i + 1) * 4, i + 1, quotient, acc * Pow10((i + 1) * 9) + v)
  }

  /** The fraction-word loop as written, from word i on: word i is read as
      (i + 1) * 4 bytes and counts (i + 1) * 9 digits after the point. The
      result is the fraction's value in units of 10^-scale and the offset
      after the words. */
  function FractionWords(mag: seq<byte>, offset: int, i: nat, quotient: int, scale: int, acc: int)
    : (r: Result<(int, int)>)
    requires 9 * quotient <= scale
    decreases quotient - i
  {
    if i >= quotient then Ok((acc, offset))
    else FractionWordsAfter(mag, offset, i, quotient, scale, acc, GroupAt(mag, offset, (i + 1) * 4))
  }

  function FractionWordsAfter(mag: seq<byte>, offset: int, i: nat, quotient: int, scale: int, acc: int,
                              word: Result<int>): (r: Result<(int, int)>)
    requires i < quotient && 9 * quotient <= scale
    decreases quotient - i, 0
  {
    match word
    case Err(e) => Err(e)
    case Ok(v) =>
      FractionWords(mag, offset + (i + 1) * 4, i + 1, quotient, scale, acc + v * Pow10(scale - 9 * (i + 1)))
  }

  /** The BigDecimal the reader builds from the magnitude, as its unscaled
      value and scale: the integer leftover group (when it has bytes), the
      integer words, then, when there are fraction bytes, the fraction words
      and the fraction leftover group. The leftover read is guarded by the
      fraction bytes, not by the leftover bytes, so a fraction of whole words
      reads an empty group, which throws. */
  function MagnitudeValue(mag: seq<byte>, l: Layout, scale: int): (r: Result<(int, nat)>)
    requires l.FractionBytes() > 0 ==> 0 < scale && 0 <= 9 * l.fractionQuotient <= scale
  {
    var lead := if l.integerLeftoverBytes > 0 then GroupAt(mag, 0, l.integerLeftoverBytes) else Ok(0);
    match lead
    case Err(e) => Err(e)
    case Ok(v) => MagnitudeAfterInteger(mag, l, scale, IntegerWords(mag, Max(l.integerLeftoverBytes, 0), 0, l.integerQuotient, v))
  }

  function MagnitudeAfterInteger(mag: seq<byte>, l: Layout, scale: int, integer: Result<(int, int)>)
    : (r: Result<(int, nat)>)
    requires l.FractionBytes() > 0 ==> 0 < scale && 0 <= 9 * l.fractionQuotient <= scale
  {
    match integer
    case Err(e) => Err(e)
    case Ok((a, offset)) =>
      if l.FractionBytes() <= 0 then Ok((a, 0))
      else MagnitudeAfterFraction(mag, l, scale, a, FractionWords(mag, offset, 0, l.fractionQuotient, scale, 0))
  }

  function MagnitudeAfterFraction(mag: seq<byte>, l: Layout, scale: int, a: int, fraction: Result<(int, int)>)
    : (r: Result<(int, nat)>)
    requires 0 < scale
  {
    match fraction
    case Err(e) => Err(e)
    case Ok((f, offset)) =>
      match GroupAt(mag, offset, l.fractionLeftoverBytes)
      case Err(e) => Err(e)
      case Ok(v) => Ok((a * Pow10(scale) + f + v, scale))
  }

  /** The DECIMAL value RowsEventBody reads from the stored bytes of a
      DECIMAL(precision, scale) column, as unscaled value and scale: the sign
      from the first byte, the value from the magnitude, negated for a
      negative sign. Reading the first byte of an empty value throws. */
  function DecimalOf(raw: seq<byte>, precision: int, scale: int): (r: Result<(int, nat)>)
  {
    if |raw| == 0 then Err(IndexOutOfBounds)
    else
      FractionWithinScale(precision, scale);
      match MagnitudeValue(Magnitude(raw), LayoutOf(precision, scale), scale)
      case Err(e) => Err(e)
      case Ok((u, s)) => Ok((if IsNegative(raw) then -u else u, s))
  }

  // ------------------------------------------------------------ the format

  /** The number the bytes hold, most significant byte first. */
  function GroupValue(bs: seq<byte>): nat
  {
    if bs == [] then 0 else 256 * GroupValue(bs[..|bs| - 1]) + bs[|bs| - 1]
  }

  lemma {:induction false} GroupValueIsBigEndian(bs: seq<byte>)
    ensures GroupValue(bs) == BigEndianValue(bs)
  {
    if bs != [] {
      var init, last := bs[..|bs| - 1], bs[|bs| - 1];
      assert bs == init + [last];
      ReversedAppend(init, last);
      GroupValueIsBigEndian(init);
      assert ([last] + Reversed(init))[1..] == Reversed(init);
    }
  }

  /** MySQL's layout (decimal2bin) of DECIMAL(precision, scale): the integer
      part's leading leftover digits, its nine-digit words, the fraction's
      nine-digit words and its trailing leftover digits; each word takes four
      bytes and each leftover the bytes of its digit count. */
  datatype Format = Format(integerLeftover: nat, integerWords: nat, fractionWords: nat, fractionLeftover: nat)
  {
    function LeadBytes(): nat { LeftoverBytes(integerLeftover) }
    function TailBytes(): nat { LeftoverBytes(fractionLeftover) }
    function IntegerBytes(): nat { LeadBytes() + 4 * integerWords }
    function FractionBytes(): nat { 4 * fractionWords + TailBytes() }
    function Width(): nat { IntegerBytes() + FractionBytes() }
  }

  function FormatOf(precision: nat, scale: nat): (f: Format)
    requires scale <= precision
    ensures 9 * f.integerWords + f.integerLeftover == precision - scale && f.integerLeftover < 9
    ensures 9 * f.fractionWords + f.fractionLeftover == scale && f.fractionLeftover < 9
  {
    Format((precision - scale) % 9, (precision - scale) / 9, scale / 9, scale % 9)
  }

  /** The reader's sizes are the format's. */
  lemma FormatWidthIsLayoutWidth(precision: nat, scale: nat)
    requires scale <= precision
    ensures var f, l := FormatOf(precision, scale), LayoutOf(precision, scale);
      && l.integerQuotient == f.integerWords && l.integerLeftoverBytes == f.LeadBytes()
      && l.fractionQuotient == f.fractionWords && l.fractionLeftoverBytes == f.TailBytes()
      && l.Width() == f.Width()
  {
    LayoutOfNatural(precision, scale);
  }

  /** n words from offset on, each appended as nine digits to acc. */
  function WordsValue(mag: seq<byte>, offset: nat, n: nat, acc: int): int
    requires offset + 4 * n <= |mag|
    decreases n
  {
    if n == 0 then acc
    else WordsValue(mag, offset + 4, n - 1, acc * Pow10(9) + GroupValue(mag[offset..offset + 4]))
  }

  /** Each of the n words from offset on holds at most nine digits. */
  predicate WordsFit(mag: seq<byte>, offset: nat, n: nat)
    requires offset + 4 * n <= |mag|
    decreases n
  {
    n == 0 || (GroupValue(mag[offset..offset + 4]) < Pow10(9) && WordsFit(mag, offset + 4, n - 1))
  }

  /** The integer part of the magnitude: the leading group, then the words. */
  function IntegerPart(mag: seq<byte>, f: Format): int
    requires f.IntegerBytes() <= |mag|
  {
    WordsValue(mag, f.LeadBytes(), f.integerWords, GroupValue(mag[..f.LeadBytes()]))
  }

  /** The integer part a followed by the fraction digits stored from offset. */
  function Scaled(mag: seq<byte>, f: Format, offset: nat, a: int): int
    requires offset + f.FractionBytes() <= |mag|
  {
    var tail := offset + 4 * f.fractionWords;
    WordsValue(mag, offset, f.fractionWords, a) * Pow10(f.fractionLeftover)
      + GroupValue(mag[tail..tail + f.TailBytes()])
  }

  /** MySQL's reading (bin2decimal) of a magnitude laid out as f, in units
      of 10^-scale. */
  function FormatMagnitude(mag: seq<byte>, f: Format): int
    requires |mag| == f.Width()
  {
    Scaled(mag, f, f.IntegerBytes(), IntegerPart(mag, f))
  }

  /** The leading group and the integer words hold no more digits than
      they have room for. */
  predicate IntegerFits(mag: seq<byte>, f: Format)
    requires f.IntegerBytes() <= |mag|
  {
    GroupValue(mag[..f.LeadBytes()]) < Pow10(f.integerLeftover) && WordsFit(mag, f.LeadBytes(), f.integerWords)
  }

  /** The fraction words and the trailing group from offset on hold no more
      digits than they have room for. */
  predicate FractionFits(mag: seq<byte>, f: Format, offset: nat)
    requires offset + f.FractionBytes() <= |mag|
  {
    var tail := offset + 4 * f.fractionWords;
    WordsFit(mag, offset, f.fractionWords) && GroupValue(mag[tail..tail + f.TailBytes()]) < Pow10(f.fractionLeftover)
  }

  /** Every group holds no more digits than it has room for, as decimal2bin
      writes them. */
  predicate FormatFits(mag: seq<byte>, f: Format)
    requires |mag| == f.Width()
  {
    IntegerFits(mag, f) && FractionFits(mag, f, f.IntegerBytes())
  }

  /** The value, as unscaled value and scale, that MySQL gives the stored
      bytes raw of a DECIMAL(precision, scale). */
  function FormatValue(raw: seq<byte>, precision: nat, scale: nat): (r: (int, nat))
    requires 1 <= |raw| && scale <= precision && |raw| == FormatOf(precision, scale).Width()
  {
    var v := FormatMagnitude(Magnitude(raw), FormatOf(precision, scale));
    (if IsNegative(raw) then -v else v, scale)
  }

  // ------------------------------------------------------------ agreement

  lemma {:induction false} Pow10Add(m: nat, n: nat)
    ensures Pow10(m + n) == Pow10(m) * Pow10(n)
  {
    if m > 0 {
      Pow10Add(m - 1, n);
    }
  }

  lemma {:induction false} Pow10Monotone(m: nat, n: nat)
    requires m <= n
    ensures Pow10(m) <= Pow10(n)
    decreases n - m
  {
    if m < n {
      Pow10Monotone(m, n - 1);
    }
  }

  /** A group of 1 to 4 bytes inside the magnitude whose value stays below
      2^31 is read as its plain big-endian value. */
  lemma GroupRead(mag: seq<byte>, from: nat, n: nat)
    requires from + n <= |mag| && 1 <= n <= 4
    requires GroupValue(mag[from..from + n]) < 0x8000_0000
    ensures GroupAt(mag, from, n) == Ok(GroupValue(mag[from..from + n]))
  {
    GroupValueIsBigEndian(mag[from..from + n]);
    CopyOfRangeInside(mag, from, from + n);
    UnsignedIntegerView(mag[from..from + n], BigEndian);
  }

  /** A group of 1 to 9 digits that fits them is read as its value. */
  lemma DigitsRead(mag: seq<byte>, from: nat, digits: nat)
    requires 1 <= digits <= 9 && from + LeftoverBytes(digits) <= |mag|
    requires GroupValue(mag[from..from + LeftoverBytes(digits)]) < Pow10(digits)
    ensures GroupAt(mag, from, LeftoverBytes(digits)) == Ok(GroupValue(mag[from..from + LeftoverBytes(digits)]))
  {
    Pow10Monotone(digits, 9);
    assert Pow10(9) == 1000000000;
    GroupRead(mag, from, LeftoverBytes(digits));
  }

  /** A word that fits nine digits is read as its value. */
  lemma WordRead(mag: seq<byte>, from: nat)
    requires from + 4 <= |mag| && GroupValue(mag[from..from + 4]) < Pow10(9)
    ensures GroupAt(mag, from, 4) == Ok(GroupValue(mag[from..from + 4]))
  {
    DigitsRead(mag, from, 9);
  }

  /** The leading group, guarded as the reader guards it. */
  lemma LeadRead(mag: seq<byte>, digits: nat)
    requires digits <= 8 && LeftoverBytes(digits) <= |mag|
    requires GroupValue(mag[..LeftoverBytes(digits)]) < Pow10(digits)
    ensures (if LeftoverBytes(digits) > 0 then GroupAt(mag, 0, LeftoverBytes(digits)) else Ok(0))
      == Ok(GroupValue(mag[..LeftoverBytes(digits)]))
  {
    assert mag[..LeftoverBytes(digits)] == mag[0..0 + LeftoverBytes(digits)];
    if digits > 0 {
      DigitsRead(mag, 0, digits);
    }
  }

  /** With at most one integer word the loop as written reads the format's
      words. */
  lemma IntegerWordsRead(mag: seq<byte>, offset: nat, n: nat, acc: int)
    requires n <= 1 && offset + 4 * n <= |mag| && WordsFit(mag, offset, n)
    ensures IntegerWords(mag, offset, 0, n, acc) == Ok((WordsValue(mag, offset, n, acc), offset + 4 * n))
  {
    if n == 1 {
      WordRead(mag, offset);
    }
  }

  /** MagnitudeValue put together from the results of its stages. */
  lemma MagnitudeValueOfStages(mag: seq<byte>, l: Layout, scale: int, lead: int, a: int, offset: int)
    requires l.FractionBytes() > 0 ==> 0 < scale && 0 <= 9 * l.fractionQuotient <= scale
    requires (if l.integerLeftoverBytes > 0 then GroupAt(mag, 0, l.integerLeftoverBytes) else Ok(0)) == Ok(lead)
    requires IntegerWords(mag, Max(l.integerLeftoverBytes, 0), 0, l.integerQuotient, lead) == Ok((a, offset))
    ensures MagnitudeValue(mag, l, scale) == MagnitudeAfterInteger(mag, l, scale, Ok((a, offset)))
  {
  }

  /** MagnitudeValue's demand on the layout and the scale. */
  predicate ScaleGuard(l: Layout, scale: int) {
    l.FractionBytes() > 0 ==> 0 < scale && 0 <= 9 * l.fractionQuotient <= scale
  }

  /** The reader's integer sizes are the format's, with at most one word. */
  predicate IntegerShape(l: Layout, f: Format) {
    && f.integerLeftover <= 8 && f.integerWords <= 1
    && l.integerLeftoverBytes == f.LeadBytes() && l.integerQuotient == f.integerWords
  }

  /** The reader's fraction sizes are the format's, with at most one word
      and a leftover unless the scale is 0. */
  predicate FractionShape(l: Layout, f: Format, scale: int) {
    && 9 * f.fractionWords + f.fractionLeftover == scale && f.fractionWords <= 1 && f.fractionLeftover < 9
    && (f.fractionLeftover != 0 || scale == 0)
    && l.fractionQuotient == f.fractionWords && l.fractionLeftoverBytes == f.TailBytes()
  }

  /** The integer part, with at most one word: the reader's stages leave
      the format's integer value and the offset after the integer groups. */
  lemma IntegerPartRead(mag: seq<byte>, l: Layout, scale: int, f: Format)
    requires ScaleGuard(l, scale) && IntegerShape(l, f)
    requires f.IntegerBytes() <= |mag| && IntegerFits(mag, f)
    ensures MagnitudeValue(mag, l, scale) == MagnitudeAfterInteger(mag, l, scale, Ok((IntegerPart(mag, f), f.IntegerBytes())))
  {
    var lead := GroupValue(mag[..f.LeadBytes()]);
    LeadRead(mag, f.integerLeftover);
    IntegerWordsRead(mag, f.LeadBytes(), f.integerWords, lead);
    MagnitudeValueOfStages(mag, l, scale, lead, IntegerPart(mag, f), f.IntegerBytes());
  }

  /** The last stage: the fraction leftover group read as v. */
  lemma AfterFractionStep(mag: seq<byte>, l: Layout, scale: nat, a: int, fv: int, offset: int, v: int)
    requires 0 < scale && GroupAt(mag, offset, l.fractionLeftoverBytes) == Ok(v)
    ensures MagnitudeAfterFraction(mag, l, scale, a, Ok((fv, offset))) == Ok((a * Pow10(scale) + fv + v, scale))
  {
  }

  /** The fraction stage, with the fraction words read as fv. */
  lemma AfterIntegerStep(mag: seq<byte>, l: Layout, scale: nat, a: int, offset: int, fv: int, next: int)
    requires l.FractionBytes() > 0 && 0 < scale && 0 <= 9 * l.fractionQuotient <= scale
    requires FractionWords(mag, offset, 0, l.fractionQuotient, scale, 0) == Ok((fv, next))
    ensures MagnitudeAfterInteger(mag, l, scale, Ok((a, offset))) == MagnitudeAfterFraction(mag, l, scale, a, Ok((fv, next)))
  {
  }

  /** No fraction digits: the read ends after the integer part. */
  lemma NoFractionRead(mag: seq<byte>, l: Layout, f: Format, a: int, offset: nat)
    requires l.FractionBytes() == 0 && f.fractionWords == 0 && f.fractionLeftover == 0 && offset <= |mag|
    ensures MagnitudeAfterInteger(mag, l, 0, Ok((a, offset))) == Ok((Scaled(mag, f, offset, a), 0))
  {
    assert mag[offset..offset] == [];
  }

  /** A fraction of 1 to 8 digits: the leftover group alone. */
  lemma LeftoverFractionRead(mag: seq<byte>, l: Layout, f: Format, scale: nat, a: int, offset: nat)
    requires f.fractionWords == 0 && f.fractionLeftover == scale && 1 <= scale <= 8
    requires l.fractionQuotient == 0 && l.fractionLeftoverBytes == f.TailBytes()
    requires offset + f.FractionBytes() <= |mag|
    requires GroupValue(mag[offset..offset + f.TailBytes()]) < Pow10(scale)
    ensures MagnitudeAfterInteger(mag, l, scale, Ok((a, offset))) == Ok((Scaled(mag, f, offset, a), scale))
  {
    var v := GroupValue(mag[offset..offset + f.TailBytes()]);
    DigitsRead(mag, offset, scale);
    AfterIntegerStep(mag, l, scale, a, offset, 0, offset);
    AfterFractionStep(mag, l, scale, a, 0, offset, v);
  }

  /** One fraction word as the loop reads it, counting scale - 9 digits
      after the point. */
  lemma OneFractionWordRead(mag: seq<byte>, offset: nat, scale: nat)
    requires 9 <= scale && offset + 4 <= |mag| && GroupValue(mag[offset..offset + 4]) < Pow10(9)
    ensures FractionWords(mag, offset, 0, 1, scale, 0)
      == Ok((GroupValue(mag[offset..offset + 4]) * Pow10(scale - 9), offset + 4))
  {
    WordRead(mag, offset);
  }

  lemma OneWordValue(mag: seq<byte>, offset: nat, a: int)
    requires offset + 4 <= |mag|
    ensures WordsValue(mag, offset, 1, a) == a * Pow10(9) + GroupValue(mag[offset..offset + 4])
  {
  }

  lemma ShiftedSum(a: int, w: int, v: int, p9: int, pr: int, ps: int)
    requires ps == p9 * pr
    ensures (a * p9 + w) * pr + v == a * ps + w * pr + v
  {
  }

  /** A fraction of 10 to 17 digits: one word, then the leftover group. */
  lemma WordAndLeftoverFractionRead(mag: seq<byte>, l: Layout, f: Format, scale: nat, a: int, offset: nat)
    requires f.fractionWords == 1 && 9 + f.fractionLeftover == scale && 10 <= scale <= 17
    requires l.fractionQuotient == 1 && l.fractionLeftoverBytes == f.TailBytes()
    requires offset + f.FractionBytes() <= |mag|
    requires GroupValue(mag[offset..offset + 4]) < Pow10(9)
    requires GroupValue(mag[offset + 4..offset + 4 + f.TailBytes()]) < Pow10(scale - 9)
    ensures MagnitudeAfterInteger(mag, l, scale, Ok((a, offset))) == Ok((Scaled(mag, f, offset, a), scale))
  {
    var w := GroupValue(mag[offset..offset + 4]);
    var v := GroupValue(mag[offset + 4..offset + 4 + f.TailBytes()]);
    DigitsRead(mag, offset + 4, scale - 9);
    WordAndLeftoverStages(mag, l, scale, a, offset, w, v);
    WordAndLeftoverValue(mag, f, scale, a, offset, w, v);
  }

  /** The reader's stages for one fraction word w and the leftover group v. */
  lemma WordAndLeftoverStages(mag: seq<byte>, l: Layout, scale: nat, a: int, offset: nat, w: int, v: int)
    requires l.fractionQuotient == 1 && 10 <= scale <= 17 && l.fractionLeftoverBytes == LeftoverBytes(scale - 9)
    requires offset + 4 <= |mag| && w == GroupValue(mag[offset..offset + 4]) < Pow10(9)
    requires GroupAt(mag, offset + 4, l.fractionLeftoverBytes) == Ok(v)
    ensures MagnitudeAfterInteger(mag, l, scale, Ok((a, offset))) == Ok((a * Pow10(scale) + w * Pow10(scale - 9) + v, scale))
  {
    var fv := w * Pow10(scale - 9);
    OneFractionWordStage(mag, l, scale, a, offset, w);
    AfterFractionStep(mag, l, scale, a, fv, offset + 4, v);
  }

  lemma OneFractionWordStage(mag: seq<byte>, l: Layout, scale: nat, a: int, offset: nat, w: int)
    requires l.fractionQuotient == 1 && 10 <= scale <= 17 && l.fractionLeftoverBytes == LeftoverBytes(scale - 9)
    requires offset + 4 <= |mag| && w == GroupValue(mag[offset..offset + 4]) < Pow10(9)
    ensures MagnitudeAfterInteger(mag, l, scale, Ok((a, offset)))
      == MagnitudeAfterFraction(mag, l, scale, a, Ok((w * Pow10(scale - 9), offset + 4)))
  {
    OneFractionWordRead(mag, offset, scale);
    AfterIntegerStep(mag, l, scale, a, offset, w * Pow10(scale - 9), offset + 4);
  }

  /** The format's value of one fraction word w and the leftover group v. */
  lemma WordAndLeftoverValue(mag: seq<byte>, f: Format, scale: nat, a: int, offset: nat, w: int, v: int)
    requires f.fractionWords == 1 && 9 + f.fractionLeftover == scale
    requires offset + f.FractionBytes() <= |mag|
    requires w == GroupValue(mag[offset..offset + 4]) && v == GroupValue(mag[offset + 4..offset + 4 + f.TailBytes()])
    ensures Scaled(mag, f, offset, a) == a * Pow10(scale) + w * Pow10(scale - 9) + v
  {
    OneWordValue(mag, offset, a);
    Pow10Add(9, scale - 9);
    ShiftedSum(a, w, v, Pow10(9), Pow10(scale - 9), Pow10(scale));
  }

  /** The fraction part, for a scale of 0 or one that is not a multiple of
      nine, with at most one word. */
  lemma FractionRead(mag: seq<byte>, l: Layout, f: Format, scale: nat, a: int, offset: nat)
    requires FractionShape(l, f, scale)
    requires offset + f.FractionBytes() <= |mag| && FractionFits(mag, f, offset)
    ensures ScaleGuard(l, scale)
    ensures MagnitudeAfterInteger(mag, l, scale, Ok((a, offset))) == Ok((Scaled(mag, f, offset, a), scale))
  {
    if scale == 0 {
      NoFractionRead(mag, l, f, a, offset);
    } else if f.fractionWords == 0 {
      LeftoverFractionRead(mag, l, f, scale, a, offset);
    } else {
      WordAndLeftoverFractionRead(mag, l, f, scale, a, offset);
    }
  }

  /** With the reader's sizes the format's, at most one word in each part
      and a leftover unless the scale is 0, the reader's magnitude is the
      format's. */
  lemma MagnitudeMatches(mag: seq<byte>, scale: nat, l: Layout, f: Format)
    requires IntegerShape(l, f) && FractionShape(l, f, scale)
    requires |mag| == f.Width() && FormatFits(mag, f)
    ensures ScaleGuard(l, scale)
    ensures MagnitudeValue(mag, l, scale) == Ok((FormatMagnitude(mag, f), scale))
  {
    FractionRead(mag, l, f, scale, IntegerPart(mag, f), f.IntegerBytes());
    IntegerPartRead(mag, l, scale, f);
  }

  /** The sizes of DECIMAL(precision, scale) with at most one nine-digit
      word in each part and a scale of 0 or not a multiple of nine. */
  lemma SmallShapes(precision: nat, scale: nat)
    requires scale <= precision
    requires (precision - scale) / 9 <= 1 && scale / 9 <= 1 && (scale % 9 != 0 || scale == 0)
    ensures var l, f := LayoutOf(precision, scale), FormatOf(precision, scale);
      IntegerShape(l, f) && FractionShape(l, f, scale) && l.Width() == f.Width()
  {
    FormatWidthIsLayoutWidth(precision, scale);
  }

  /** For DECIMAL(precision, scale) with at most one nine-digit word in each
      part and a scale of 0 or not a multiple of nine, RowsEventBody reads
      every value MySQL writes as MySQL's value, sign included. */
  lemma FormatAgreement(raw: seq<byte>, precision: nat, scale: nat)
    requires 1 <= |raw| && scale <= precision && |raw| == FormatOf(precision, scale).Width()
    requires (precision - scale) / 9 <= 1 && scale / 9 <= 1 && (scale % 9 != 0 || scale == 0)
    requires FormatFits(Magnitude(raw), FormatOf(precision, scale))
    ensures DecimalOf(raw, precision, scale) == Ok(FormatValue(raw, precision, scale))
  {
    var mag, l, f := Magnitude(raw), LayoutOf(precision, scale), FormatOf(precision, scale);
    SmallShapes(precision, scale);
    MagnitudeMatches(mag, scale, l, f);
    var v := FormatMagnitude(mag, f);
    DecimalOfMagnitude(raw, precision, scale, mag, v);
    FormatValueOf(raw, precision, scale, v);
  }

  lemma FormatValueOf(raw: seq<byte>, precision: nat, scale: nat, v: int)
    requires 1 <= |raw| && scale <= precision && |raw| == FormatOf(precision, scale).Width()
    requires v == FormatMagnitude(Magnitude(raw), FormatOf(precision, scale))
    ensures FormatValue(raw, precision, scale) == (if IsNegative(raw) then -v else v, scale)
  {
  }

  /** DecimalOf from the value of the magnitude. */
  lemma DecimalOfMagnitude(raw: seq<byte>, precision: int, scale: nat, mag: seq<byte>, v: int)
    requires 1 <= |raw| && mag == Magnitude(raw)
    requires ScaleGuard(LayoutOf(precision, scale), scale)
    requires MagnitudeValue(mag, LayoutOf(precision, scale), scale) == Ok((v, scale))
    ensures DecimalOf(raw, precision, scale) == Ok((if IsNegative(raw) then -v else v, scale))
  {
  }

  // ------------------------------------------------------------ where the reader departs

  /** A fraction of whole words (a positive scale that is a multiple of
      nine) has no leftover bytes, yet the reader still reads the leftover
      group, an empty one, whenever there are fraction bytes: every such
      value fails to decode. */
  lemma WholeWordFractionFails(raw: seq<byte>, precision: int, scale: int)
    requires 0 < scale && scale % 9 == 0
    ensures DecimalOf(raw, precision, scale).Err?
  {
    if |raw| > 0 {
      var mag, l := Magnitude(raw), LayoutOf(precision, scale);
      FractionWithinScale(precision, scale);
      assert l.fractionLeftoverBytes == 0 && l.FractionBytes() > 0;
      MagnitudeValueFails(mag, l, scale);
    }
  }

  lemma MagnitudeValueFails(mag: seq<byte>, l: Layout, scale: int)
    requires 0 < scale && 0 <= 9 * l.fractionQuotient <= scale
    requires l.fractionLeftoverBytes == 0 && l.FractionBytes() > 0
    ensures MagnitudeValue(mag, l, scale).Err?
  {
    var lead := if l.integerLeftoverBytes > 0 then GroupAt(mag, 0, l.integerLeftoverBytes) else Ok(0);
    if lead.Ok? {
      var integer := IntegerWords(mag, Max(l.integerLeftoverBytes, 0), 0, l.integerQuotient, lead.value);
      if integer.Ok? {
        var (a, offset) := integer.value;
        EmptyLeftoverFails(mag, l, scale, a, FractionWords(mag, offset, 0, l.fractionQuotient, scale, 0));
      }
    }
  }

  /** The last stage with no leftover bytes reads an empty group. */
  lemma EmptyLeftoverFails(mag: seq<byte>, l: Layout, scale: int, a: int, fraction: Result<(int, int)>)
    requires 0 < scale && l.fractionLeftoverBytes == 0
    ensures MagnitudeAfterFraction(mag, l, scale, a, fraction).Err?
  {
    if fraction.Ok? {
      var (f, offset) := fraction.value;
      var group := CopyOfRange(mag, offset, offset);
      if group.Ok? {
        assert group.value == [];
      }
    }
  }

  /** DECIMAL(18, 0) holding 1: the format is two four-byte words, 0 and 1.
      The reader takes the second word as eight bytes from offset 4, the
      last four past the end and zero-filled, reads them as 2^24, and
      shifts the first word by 18 digits instead of 9. */
  lemma TwoIntegerWordsMisread()
    ensures FormatValue([0x80, 0, 0, 0, 0, 0, 0, 1], 18, 0) == (1, 0)
    ensures DecimalOf([0x80, 0, 0, 0, 0, 0, 0, 1], 18, 0) == Ok((16777216, 0))
  {
    var raw: seq<byte> := [0x80, 0, 0, 0, 0, 0, 0, 1];
    var mag: seq<byte> := [0, 0, 0, 0, 0, 0, 0, 1];
    MisreadMagnitude(raw, mag);
    MisreadFormat(raw, mag, 18, 0);
    MisreadRead(raw, mag, 18, 0);
  }

  lemma MisreadMagnitude(raw: seq<byte>, mag: seq<byte>)
    requires raw == [0x80, 0, 0, 0, 0, 0, 0, 1] && mag == [0, 0, 0, 0, 0, 0, 0, 1]
    ensures Magnitude(raw) == mag && !IsNegative(raw)
    ensures mag[..4] == [0, 0, 0, 0] && mag[4..] == [0, 0, 0, 1]
  {
  }

  lemma MisreadFormat(raw: seq<byte>, mag: seq<byte>, precision: nat, scale: nat)
    requires precision == 18 && scale == 0
    requires |raw| == 8 && Magnitude(raw) == mag && !IsNegative(raw)
    requires mag[..4] == [0, 0, 0, 0] && mag[4..] == [0, 0, 0, 1]
    ensures FormatValue(raw, precision, scale) == (1, 0)
  {
    var f := FormatOf(precision, scale);
    assert f == Format(0, 2, 0, 0);
    GroupValueOfFour(mag[..4]);
    GroupValueOfFour(mag[4..]);
    TwoWordsFormat(mag, f, 0, 1);
    FormatValueOf(raw, precision, scale, 1);
  }

  /** Two integer words and nothing else: the format's value is the first
      word's nine digits followed by the second's. */
  lemma TwoWordsFormat(mag: seq<byte>, f: Format, w0: nat, w1: nat)
    requires f == Format(0, 2, 0, 0) && |mag| == 8
    requires GroupValue(mag[..4]) == w0 && GroupValue(mag[4..]) == w1
    ensures FormatMagnitude(mag, f) == w0 * Pow10(9) + w1
  {
    assert mag[..0] == [] && mag[8..8] == [] && mag[0..4] == mag[..4] && mag[4..8] == mag[4..];
    assert WordsValue(mag, 0, 2, 0) == WordsValue(mag, 4, 1, w0);
  }

  lemma GroupValueOfFour(bs: seq<byte>)
    requires |bs| == 4
    ensures GroupValue(bs) == ((bs[0] as int * 256 + bs[1]) * 256 + bs[2]) * 256 + bs[3]
  {
    assert bs[..3][..2] == bs[..2] && bs[..2][..1] == bs[..1] && bs[..1][..0] == [];
    assert GroupValue(bs[..1]) == bs[0];
    assert GroupValue(bs[..2]) == bs[0] as int * 256 + bs[1];
    assert GroupValue(bs[..3]) == (bs[0] as int * 256 + bs[1]) * 256 + bs[2];
  }

  lemma MisreadRead(raw: seq<byte>, mag: seq<byte>, precision: nat, scale: nat)
    requires precision == 18 && scale == 0
    requires |raw| == 8 && Magnitude(raw) == mag && !IsNegative(raw)
    requires mag[..4] == [0, 0, 0, 0] && mag[4..] == [0, 0, 0, 1]
    ensures DecimalOf(raw, precision, scale) == Ok((16777216, 0))
  {
    MisreadLayout(mag, precision, scale);
    DecimalOfMagnitude(raw, precision, scale, mag, 16777216);
  }

  lemma MisreadLayout(mag: seq<byte>, precision: nat, scale: nat)
    requires precision == 18 && scale == 0 && |mag| == 8
    requires mag[..4] == [0, 0, 0, 0] && mag[4..] == [0, 0, 0, 1]
    ensures ScaleGuard(LayoutOf(precision, scale), scale)
    ensures MagnitudeValue(mag, LayoutOf(precision, scale), scale) == Ok((16777216, 0))
  {
    TwoWordsLayout(precision, scale);
    MisreadWords(mag, LayoutOf(precision, scale));
  }

  lemma TwoWordsLayout(precision: nat, scale: nat)
    requires precision == 18 && scale == 0
    ensures LayoutOf(precision, scale) == Layout(2, 0, 0, 0)
  {
    LayoutOfNatural(precision, scale);
  }

  lemma MisreadWords(mag: seq<byte>, l: Layout)
    requires l == Layout(2, 0, 0, 0) && |mag| == 8
    requires mag[..4] == [0, 0, 0, 0] && mag[4..] == [0, 0, 0, 1]
    ensures MagnitudeValue(mag, l, 0) == Ok((16777216, 0))
  {
    assert mag[0..4] == mag[..4];
    GroupValueOfFour(mag[..4]);
    GroupRead(mag, 0, 4);
    MisreadSecondWord(mag, 4, 8);
    assert IntegerWords(mag, 0, 0, 2, 0) == IntegerWords(mag, 4, 1, 2, 0);
    assert IntegerWords(mag, 4, 1, 2, 0) == IntegerWords(mag, 12, 2, 2, 16777216);
  }

  /** The second word's read: eight bytes, the last four zero-filled. */
  lemma MisreadSecondWord(mag: seq<byte>, from: nat, n: nat)
    requires |mag| == 8 && mag[4..] == [0, 0, 0, 1] && from == 4 && n == 8
    ensures GroupAt(mag, from, n) == Ok(16777216)
  {
    var second := mag[4..] + Zeros(4);
    CopyOfRangeSecond(mag, from, n, second);
    ReversedTwice(second);
    EightBytesLittleEndian(second);
  }

  lemma CopyOfRangeSecond(mag: seq<byte>, from: nat, n: nat, second: seq<byte>)
    requires |mag| == 8 && from == 4 && n == 8 && second == mag[4..] + Zeros(4)
    ensures CopyOfRange(mag, from, from + n) == Ok(second)
  {
    assert Min(from + n, |mag|) == 8;
    assert mag[from..8] == mag[4..];
  }

  lemma EightBytesLittleEndian(second: seq<byte>)
    requires |second| == 8 && second[..4] == [0, 0, 0, 1] && second[4..] == Zeros(4)
    ensures LittleEndianValue(second) == 16777216
  {
    assert second[0] == 0 && second[1] == 0 && second[2] == 0 && second[3] == 1 by {
      assert second[..4][0] == second[0] && second[..4][1] == second[1];
      assert second[..4][2] == second[2] && second[..4][3] == second[3];
    }
    assert second[1..][1..] == second[2..] && second[2..][1..] == second[3..] && second[3..][1..] == second[4..];
    ZerosValue(4);
    assert LittleEndianValue(second[3..]) == 1;
    assert LittleEndianValue(second[2..]) == 256;
    assert LittleEndianValue(second[1..]) == 65536;
  }

  lemma {:induction false} ZerosValue(n: nat)
    ensures LittleEndianValue(Zeros(n)) == 0
  {
    if n > 0 {
      assert Zeros(n)[1..] == Zeros(n - 1);
      ZerosValue(n - 1);
    }
  }
}
