/** The primitive codec of the binlog reader: fixed-width integers of one to
    eight bytes in either byte order, MySQL packed integers and packed strings,
    NUL-terminated slices, version comparison, left padding, hex and UUID
    text, and the bit-field layouts of the temporal column types. */
module ParserHelper {
  import opened Wrappers
  import opened Java

  datatype ByteOrder = LittleEndian | BigEndian

  function Pow256(n: nat): (r: nat)
    ensures r >= 1
  {
    if n == 0 then 1 else 256 * Pow256(n - 1)
  }

  function Pow2(n: nat): (r: nat)
    ensures r >= 1
  {
    if n == 0 then 1 else 2 * Pow2(n - 1)
  }

  // ------------------------------------------------------------ getReverse

  function Reversed(s: seq<byte>): (r: seq<byte>)
    ensures |r| == |s|
  {
    if s == [] then [] else Reversed(s[1..]) + [s[0]]
  }

  lemma {:induction false} ReversedAt(s: seq<byte>, k: nat)
    requires k < |s|
    ensures Reversed(s)[k] == s[|s| - 1 - k]
  {
    if k < |s| - 1 {
      ReversedAt(s[1..], k);
    }
  }

  lemma ReversedTwice(s: seq<byte>)
    ensures Reversed(Reversed(s)) == s
  {
    forall k | 0 <= k < |s|
      ensures Reversed(Reversed(s))[k] == s[k]
    {
      ReversedAt(Reversed(s), k);
      ReversedAt(s, |s| - 1 - k);
    }
  }

  /** getReverse: a copy of bytes in reverse order; bytes itself is untouched. */
  method GetReverse(bytes: array<byte>) returns (newBytes: array<byte>)
    ensures fresh(newBytes)
    ensures newBytes[..] == Reversed(bytes[..])
  {
    newBytes := new byte[bytes.Length](k requires 0 <= k < bytes.Length reads bytes => bytes[k]);
    var n := newBytes.Length;
    var i := 0;
    while i < n / 2
      invariant 0 <= i <= n / 2
      invariant forall k :: 0 <= k < i ==> newBytes[k] == bytes[n - 1 - k] && newBytes[n - 1 - k] == bytes[k]
      invariant forall k :: i <= k < n - i ==> newBytes[k] == bytes[k]
    {
      var j := n - 1 - i;
      var t := newBytes[i];
      newBytes[i] := newBytes[j];
      newBytes[j] := t;
      i := i + 1;
    }
    forall k | 0 <= k < n
      ensures newBytes[..][k] == Reversed(bytes[..])[k]
    {
      ReversedAt(bytes[..], k);
    }
  }

  // ------------------------------------------------------------ fixed-width integers

  /** The unsigned value of bs with bs[0] least significant: the sum of bs[i] * 256^i. */
  function LittleEndianValue(bs: seq<byte>): (r: nat)
    ensures r < Pow256(|bs|)
  {
    if bs == [] then 0 else bs[0] + 256 * LittleEndianValue(bs[1..])
  }

  /** `new BigInteger(1, magnitude)`: the magnitude is read most significant byte first. */
  function BigEndianValue(bs: seq<byte>): (r: nat)
    ensures r < Pow256(|bs|)
  {
    LittleEndianValue(Reversed(bs))
  }

  /** The bytes in little-endian order: the decoders reverse big-endian input first. */
  function Ordered(bs: seq<byte>, order: ByteOrder): (r: seq<byte>)
    ensures |r| == |bs|
  {
    if order == BigEndian then Reversed(bs) else bs
  }

  /** The n little-endian bytes of v: the inverse of LittleEndianValue. */
  function EncodeLittleEndian(v: nat, n: nat): (r: seq<byte>)
    requires v < Pow256(n)
    ensures |r| == n
  {
    if n == 0 then [] else [v % 256] + EncodeLittleEndian(v / 256, n - 1)
  }

  lemma {:induction false} DecodeEncodeLittleEndian(v: nat, n: nat)
    requires v < Pow256(n)
    ensures LittleEndianValue(EncodeLittleEndian(v, n)) == v
  {
    if n > 0 {
      DecodeEncodeLittleEndian(v / 256, n - 1);
      var e := EncodeLittleEndian(v, n);
      assert e[1..] == EncodeLittleEndian(v / 256, n - 1);
    }
  }

  lemma {:induction false} EncodeDecodeLittleEndian(bs: seq<byte>)
    ensures EncodeLittleEndian(LittleEndianValue(bs), |bs|) == bs
  {
    if bs != [] {
      EncodeDecodeLittleEndian(bs[1..]);
      var v := LittleEndianValue(bs);
      assert v % 256 == bs[0] && v / 256 == LittleEndianValue(bs[1..]);
    }
  }

  /** The value of the top byte as a multiple of 256^(|s|-1), plus the rest. */
  lemma {:induction false} LittleEndianSplitLast(s: seq<byte>)
    requires |s| >= 1
    ensures LittleEndianValue(s) == LittleEndianValue(s[..|s| - 1]) + Pow256(|s| - 1) * s[|s| - 1]
  {
    if |s| > 1 {
      var n := |s|;
      var init := s[..n - 1];
      var last: int := s[n - 1];
      LittleEndianSplitLast(s[1..]);
      assert s[1..][..n - 2] == init[1..];
      assert s[1..][n - 2] == s[n - 1];
      var low := LittleEndianValue(init[1..]);
      var p := Pow256(n - 2);
      assert LittleEndianValue(init) == s[0] + 256 * low;
      ShiftSplit(s[0], low, p, last, LittleEndianValue(s[1..]));
    }
  }

  /** The arithmetic of LittleEndianSplitLast's inductive step. */
  lemma ShiftSplit(b: int, low: int, p: int, last: int, rest: int)
    requires rest == low + p * last
    ensures b + 256 * rest == (b + 256 * low) + (256 * p) * last
  {
  }

  /** getSignedNumber (getInt, getInt16 ... getInt64): the lower bytes unsigned,
      the most significant byte read as a signed Java byte and shifted into place.
      Length 0 or more than 8 throws NumberFormatException. */
  function SignedNumber(bytes: seq<byte>, order: ByteOrder): (r: Result<int>)
    ensures r.Ok? <==> 1 <= |bytes| <= 8
    ensures r.Err? ==> r.error == NumberFormat
  {
    if |bytes| == 0 || |bytes| > 8 then Err(NumberFormat)
    else
      var le := Ordered(bytes, order);
      var n := |le|;
      Ok(SignedByte(le[n - 1]) * Pow256(n - 1) + LittleEndianValue(le[..n - 1]))
  }

  /** getUnsignedNumber (getUInt, getUInt16 ... getUInt64). Lengths 1..7 mask
      the signed value, which gives the little-endian value of the ordered
      bytes; length 8 hands the ordered bytes to `new BigInteger(1, ...)`,
      which reads them most significant byte first. */
  function UnsignedNumber(bytes: seq<byte>, order: ByteOrder): (r: Result<nat>)
    ensures r.Ok? <==> 1 <= |bytes| <= 8
    ensures r.Err? ==> r.error == NumberFormat
    ensures r.Ok? ==> r.value < Pow256(|bytes|)
  {
    if |bytes| == 0 || |bytes| > 8 then Err(NumberFormat)
    else if |bytes| < 8 then Ok(LittleEndianValue(Ordered(bytes, order)))
    else Ok(BigEndianValue(Ordered(bytes, order)))
  }

  lemma MulLe(a: int, b: int, c: nat)
    requires a <= b
    ensures a * c <= b * c
  {
  }

  /** Reading the top byte signed moves the value down by 256 * p exactly when
      its top bit is set, and keeps it within [-128 * p, 128 * p). */
  lemma TwosComplementStep(top: byte, p: nat, low: nat)
    requires low < p
    ensures var v := SignedByte(top) * p + low;
      var u := low + p * top;
      v == (if top >= 128 then u - 256 * p else u) && -128 * p <= v < 128 * p
  {
    if top >= 128 {
      assert SignedByte(top) * p == top * p - 256 * p;
      MulLe(-128, top - 256, p);
      MulLe(top - 256, -1, p);
    } else {
      MulLe(0, top, p);
      MulLe(top, 127, p);
    }
  }

  /** The signed decode is the two's-complement reading of the unsigned
      little-endian value: it is that value less 256^n exactly when the top bit
      of the most significant byte is set, and lies in [-256^n/2, 256^n/2). */
  lemma SignedIsTwosComplement(bytes: seq<byte>, order: ByteOrder)
    requires 1 <= |bytes| <= 8
    ensures var n := |bytes|;
      var le := Ordered(bytes, order);
      var u := LittleEndianValue(le);
      SignedNumber(bytes, order) == Ok(if le[n - 1] >= 128 then u - Pow256(n) else u)
    ensures var half: int := Pow256(|bytes|) / 2;
      -half <= SignedNumber(bytes, order).value < half
  {
    SignedValueCases(bytes, order);
  }

  /** SignedIsTwosComplement on the value of the decode. */
  lemma SignedValueCases(bytes: seq<byte>, order: ByteOrder)
    requires 1 <= |bytes| <= 8
    ensures var le := Ordered(bytes, order);
      var v := SignedNumber(bytes, order).value;
      var u := LittleEndianValue(le);
      var big := Pow256(|bytes|);
      && SignedNumber(bytes, order).Ok?
      && v == (if le[|bytes| - 1] >= 128 then u - big else u)
      && -(big / 2) <= v < big / 2
  {
    var n := |bytes|;
    var le := Ordered(bytes, order);
    SignedNumberParts(bytes, order);
    LittleEndianSplitLast(le);
    TwosComplementRange(SignedNumber(bytes, order).value, LittleEndianValue(le), Pow256(n),
      le[n - 1], Pow256(n - 1), LittleEndianValue(le[..n - 1]));
  }

  /** The signed decode splits into the signed top byte and the unsigned rest. */
  lemma SignedNumberParts(bytes: seq<byte>, order: ByteOrder)
    requires 1 <= |bytes| <= 8
    ensures var n := |bytes|;
      var le := Ordered(bytes, order);
      && SignedNumber(bytes, order).Ok?
      && SignedNumber(bytes, order).value
         == SignedByte(le[n - 1]) * Pow256(n - 1) + LittleEndianValue(le[..n - 1])
      && Pow256(n) == 256 * Pow256(n - 1)
  {
  }

  /** TwosComplementStep with the values named: v the signed reading, u the
      unsigned one, and big == 256 * p the modulus. */
  lemma TwosComplementRange(v: int, u: int, big: int, top: byte, p: nat, low: nat)
    requires low < p && big == 256 * p
    requires v == SignedByte(top) * p + low && u == low + p * top
    ensures v == (if top >= 128 then u - big else u)
    ensures -(big / 2) <= v < big / 2
  {
    TwosComplementStep(top, p, low);
  }

  /** For one to seven bytes the unsigned decode reads the ordered bytes little
      endian; for eight bytes it reads them big endian. */
  lemma UnsignedNumberValue(bytes: seq<byte>, order: ByteOrder)
    requires 1 <= |bytes| <= 8
    ensures |bytes| < 8 ==> UnsignedNumber(bytes, order) == Ok(LittleEndianValue(Ordered(bytes, order)))
    ensures |bytes| == 8 ==> UnsignedNumber(bytes, order) == Ok(BigEndianValue(Ordered(bytes, order)))
  {
  }

  /** Decoding the n-byte encoding of v in the same byte order gives v back,
      for n from 1 to 7. */
  lemma UnsignedNumberRoundTrip(v: nat, n: nat, order: ByteOrder)
    requires 1 <= n < 8 && v < Pow256(n)
    ensures var le := EncodeLittleEndian(v, n);
      UnsignedNumber(if order == BigEndian then Reversed(le) else le, order) == Ok(v)
  {
    var le := EncodeLittleEndian(v, n);
    DecodeEncodeLittleEndian(v, n);
    ReversedTwice(le);
  }

  lemma {:induction false} LittleEndianOfZeros(n: nat)
    ensures LittleEndianValue(Zeros(n)) == 0
  {
    if n > 0 {
      assert Zeros(n)[1..] == Zeros(n - 1);
      LittleEndianOfZeros(n - 1);
    }
  }

  /** getUInt64 swaps the byte order: any eight bytes read LITTLE_ENDIAN
      give their big-endian value, the value the reversed bytes give read
      BIG_ENDIAN, so each order reads the way the other should. */
  lemma UnsignedLongSwapped(b: seq<byte>)
    requires |b| == 8
    ensures UnsignedNumber(b, LittleEndian) == Ok(BigEndianValue(b))
    ensures UnsignedNumber(b, LittleEndian) == UnsignedNumber(Reversed(b), BigEndian)
  {
    ReversedTwice(b);
    assert Ordered(Reversed(b), BigEndian) == b;
  }

  /** A witness of the swap: eight bytes 01 00 .. 00 read little endian
      give 2^56, not 1, and the same bytes reversed read big endian give
      2^56 too. */
  lemma UnsignedLongOrderSwapped()
    ensures UnsignedNumber([1] + Zeros(7), LittleEndian) == Ok(Pow256(7))
    ensures UnsignedNumber(Zeros(7) + [1], BigEndian) == Ok(Pow256(7))
    ensures Pow256(7) == 0x0100_0000_0000_0000
  {
    var a := [1] + Zeros(7);
    var b := Zeros(7) + [1];
    ReversedOneThenZeros();
    assert Reversed(a) == b;
    UnsignedLongSwapped(a);
    LittleEndianTopOnly(7);
    assert Pow256(3) == 0x100_0000;
  }

  lemma ReversedOneThenZeros()
    ensures Reversed([1] + Zeros(7)) == Zeros(7) + [1]
  {
    var a := [1] + Zeros(7);
    assert Reversed(Zeros(7)) == Zeros(7) by {
      forall k | 0 <= k < 7 ensures Reversed(Zeros(7))[k] == 0 { ReversedAt(Zeros(7), k); }
    }
    assert a[1..] == Zeros(7);
  }

  /** n zero bytes followed by a one read little endian give 256^n. */
  lemma LittleEndianTopOnly(n: nat)
    ensures LittleEndianValue(Zeros(n) + [1]) == Pow256(n)
  {
    var s := Zeros(n) + [1];
    LittleEndianSplitLast(s);
    assert s[..n] == Zeros(n);
    LittleEndianOfZeros(n);
  }

  /** getInteger(byte): the byte read as a signed Java byte. (getUnsignedInteger(byte)
      is `b & 0xFF`, the byte value itself.) */
  function ByteInteger(b: byte): (r: int)
    ensures -128 <= r < 128 && (r == b || r == b - 256)
  {
    SignedByte(b)
  }

  /** getInteger(bytes, order): the signed decode through `intValue()`. */
  function GetInteger(bytes: seq<byte>, order: ByteOrder): (r: Result<int>)
    ensures r.Ok? <==> 1 <= |bytes| <= 8
    ensures r.Ok? ==> IsInt(r.value)
    ensures r.Ok? ==> SameBits32(SignedNumber(bytes, order).value, r.value)
  {
    var v :- SignedNumber(bytes, order);
    Ok(Int32(v))
  }

  /** getUnsignedInteger(bytes, order): the unsigned decode through
      `intValue()`, so four bytes of 2^31 or more come out negative. */
  function GetUnsignedInteger(bytes: seq<byte>, order: ByteOrder): (r: Result<int>)
    ensures r.Ok? <==> 1 <= |bytes| <= 8
    ensures r.Ok? ==> IsInt(r.value)
    ensures r.Ok? ==> SameBits32(UnsignedNumber(bytes, order).value, r.value)
  {
    var v :- UnsignedNumber(bytes, order);
    Ok(Int32(v))
  }

  /** getLong(bytes, order): the signed decode through `longValue()`. */
  function GetLong(bytes: seq<byte>, order: ByteOrder): (r: Result<int>)
    ensures r.Ok? <==> 1 <= |bytes| <= 8
    ensures r.Ok? ==> IsLong(r.value)
    ensures r.Ok? ==> SameBits64(SignedNumber(bytes, order).value, r.value)
  {
    var v :- SignedNumber(bytes, order);
    Ok(Int64(v))
  }

  /** getUnsignedLong(bytes, order): the unsigned decode through `longValue()`,
      so eight bytes of 2^63 or more come out negative. */
  function GetUnsignedLong(bytes: seq<byte>, order: ByteOrder): (r: Result<int>)
    ensures r.Ok? <==> 1 <= |bytes| <= 8
    ensures r.Ok? ==> IsLong(r.value)
    ensures r.Ok? ==> SameBits64(UnsignedNumber(bytes, order).value, r.value)
  {
    var v :- UnsignedNumber(bytes, order);
    Ok(Int64(v))
  }

  /** Below four bytes the int view of an unsigned decode is the unsigned value
      itself; at four bytes it is negative exactly when the value is 2^31 or more. */
  lemma UnsignedIntegerView(bytes: seq<byte>, order: ByteOrder)
    requires 1 <= |bytes| <= 4
    ensures var u := UnsignedNumber(bytes, order).value;
      GetUnsignedInteger(bytes, order) == Ok(if u >= 0x8000_0000 then u - 0x1_0000_0000 else u)
  {
    assert Pow256(4) == 0x1_0000_0000;
    assert Pow256(3) == 0x100_0000;
  }

  /** Below eight bytes the long view of an unsigned decode is the value itself;
      at eight bytes it is negative exactly when the value is 2^63 or more. */
  lemma UnsignedLongView(bytes: seq<byte>, order: ByteOrder)
    requires 1 <= |bytes| <= 8
    ensures var u := UnsignedNumber(bytes, order).value;
      GetUnsignedLong(bytes, order) == Ok(if u >= 0x8000_0000_0000_0000 then u - 0x1_0000_0000_0000_0000 else u)
  {
    assert Pow256(8) == 0x1_0000_0000_0000_0000;
    assert Pow256(7) == 0x100_0000_0000_0000;
  }

  /** The long view of a signed decode is the value itself at every width. */
  lemma SignedLongView(bytes: seq<byte>, order: ByteOrder)
    requires 1 <= |bytes| <= 8
    ensures GetLong(bytes, order) == SignedNumber(bytes, order)
  {
    SignedValueCases(bytes, order);
    Pow256Monotone(|bytes|, 8);
    assert Pow256(8) == 0x1_0000_0000_0000_0000;
    Int64Identity(SignedNumber(bytes, order).value);
  }

  /** Eight bytes decoded BIG_ENDIAN: getUnsignedLong reverses them and the
      BigInteger reads the reversed bytes most significant first, so the
      bytes count least significant first. */
  lemma EightBytesBigEndian(raw: seq<byte>)
    requires |raw| == 8
    ensures GetUnsignedLong(raw, BigEndian) == Ok(Int64(LittleEndianValue(raw)))
  {
    ReversedTwice(raw);
  }

  /** Appending a byte puts it first in the reversal. */
  lemma {:induction false} ReversedAppend(s: seq<byte>, b: byte)
    ensures Reversed(s + [b]) == [b] + Reversed(s)
  {
    if s != [] {
      assert (s + [b])[1..] == s[1..] + [b];
      ReversedAppend(s[1..], b);
    }
  }

  /** 256^m grows with m. */
  lemma {:induction false} Pow256Monotone(m: nat, n: nat)
    requires m <= n
    ensures Pow256(m) <= Pow256(n)
    decreases n - m
  {
    if m < n {
      Pow256Monotone(m, n - 1);
    }
  }

  /** Up to three bytes, both the int and the long view give the unsigned
      value itself. */
  lemma NarrowUnsigned(bytes: seq<byte>, order: ByteOrder)
    requires 1 <= |bytes| <= 3
    ensures GetUnsignedInteger(bytes, order) == UnsignedNumber(bytes, order)
    ensures GetUnsignedLong(bytes, order) == UnsignedNumber(bytes, order)
  {
    var u := UnsignedNumber(bytes, order).value;
    Pow256Monotone(|bytes|, 3);
    assert Pow256(3) == 0x100_0000;
    assert u < 0x100_0000;
    Int32Identity(u);
    Int64Identity(u);
  }

  /** Up to seven bytes the long view of an unsigned decode is the value itself. */
  lemma NarrowUnsignedLong(bytes: seq<byte>, order: ByteOrder)
    requires 1 <= |bytes| <= 7
    ensures GetUnsignedLong(bytes, order) == UnsignedNumber(bytes, order)
  {
    var u := UnsignedNumber(bytes, order).value;
    Pow256Monotone(|bytes|, 7);
    assert Pow256(7) == 0x0100_0000_0000_0000;
    assert u < 0x0100_0000_0000_0000;
    Int64Identity(u);
  }

  /** Up to four bytes the int and long views of a signed decode are the value itself. */
  lemma NarrowSigned(bytes: seq<byte>, order: ByteOrder)
    requires 1 <= |bytes| <= 4
    ensures GetInteger(bytes, order) == SignedNumber(bytes, order)
    ensures GetLong(bytes, order) == SignedNumber(bytes, order)
  {
    SignedValueCases(bytes, order);
    var v := SignedNumber(bytes, order).value;
    Pow256Monotone(|bytes|, 4);
    assert Pow256(4) == 0x1_0000_0000;
    assert -0x8000_0000 <= v < 0x8000_0000;
    Int32Identity(v);
    Int64Identity(v);
  }

  // ------------------------------------------------------------ packed integers and strings

  /** getPackedIntegerLength: the length the MySQL length-encoded integer
      marker announces, or -1 for 0xFB and 0xFF. */
  function PackedIntegerLength(firstByte: byte): (r: int)
    ensures r in {-1, 1, 2, 3, 8}
    ensures r == -1 <==> firstByte == 0xFB || firstByte == 0xFF
    ensures r == 1 <==> firstByte < 0xFB
  {
    if firstByte < 0xFB then 1
    else if firstByte == 0xFC then 2
    else if firstByte == 0xFD then 3
    else if firstByte == 0xFE then 8
    else -1
  }

  /** getPackedInteger: `copyOfRange(buffer, from, from + length)`, so the
      slice starts at the marker byte itself. */
  function GetPackedInteger(buffer: seq<byte>, from: int): (r: Result<seq<byte>>)
    ensures r.Ok? <==> 0 <= from < |buffer| && PackedIntegerLength(buffer[from]) != -1
    ensures !(0 <= from < |buffer|) ==> r == Err(IndexOutOfBounds)
    ensures r.Ok? ==> |r.value| == PackedIntegerLength(buffer[from]) && r.value[0] == buffer[from]
    ensures r.Ok? ==> r == CopyOfRange(buffer, from, from + |r.value|)
  {
    if !(0 <= from < |buffer|) then Err(IndexOutOfBounds)
    else CopyOfRange(buffer, from, from + PackedIntegerLength(buffer[from]))
  }

  /** A marker byte below 0xFB is a one-byte packed integer holding its own value. */
  lemma PackedIntegerOneByte(buffer: seq<byte>, from: int, order: ByteOrder)
    requires 0 <= from < |buffer| && buffer[from] < 0xFB
    ensures GetPackedInteger(buffer, from) == Ok([buffer[from]])
    ensures GetUnsignedInteger([buffer[from]], order) == Ok(buffer[from])
  {
    CopyOfRangeInside(buffer, from, from + 1);
    assert buffer[from..from + 1] == [buffer[from]];
    UnsignedOneByte(buffer[from], order);
  }

  /** One byte, in either order, is its own unsigned value. */
  lemma UnsignedOneByte(b: byte, order: ByteOrder)
    ensures GetUnsignedInteger([b], order) == Ok(b as int)
  {
    assert Reversed([b]) == [b];
    assert LittleEndianValue([b]) == b + 256 * LittleEndianValue([b][1..]);
    assert UnsignedNumber([b], order) == Ok(b as int);
    assert Int32(b) == b;
  }

  lemma SignedOneByte(b: byte, order: ByteOrder)
    ensures GetInteger([b], order) == Ok(SignedByte(b))
  {
    assert Reversed([b]) == [b];
    assert SignedNumber([b], order) == Ok(SignedByte(b));
  }

  /** An 0xFC marker announces two bytes, but the slice starts at the marker,
      so the value read is the marker plus 256 times the next byte. */
  lemma PackedIntegerTwoByteQuirk(buffer: seq<byte>, from: int)
    requires 0 <= from && from + 1 < |buffer| && buffer[from] == 0xFC
    ensures GetPackedInteger(buffer, from) == Ok([0xFC, buffer[from + 1]])
    ensures GetUnsignedInteger([0xFC, buffer[from + 1]], LittleEndian) == Ok(0xFC + 256 * (buffer[from + 1] as int))
  {
    CopyOfRangeInside(buffer, from, from + 2);
    assert buffer[from..from + 2] == [0xFC, buffer[from + 1]];
    var t: seq<byte> := [0xFC, buffer[from + 1]];
    assert t[1..][1..] == [];
    assert LittleEndianValue(t) == 0xFC + 256 * (buffer[from + 1] as int);
  }

  /** getPackedString's result: the bytes consumed (prefix and data) and the data. */
  datatype PackedString = PackedString(consumed: int, data: seq<byte>)

  /** getPackedString: a packed-integer length prefix, then that many bytes.
      The copy ends at the int sum `pos += stringLength`, so a length that
      carries the end past Integer.MAX_VALUE wraps and the copy throws. */
  function GetPackedString(data: seq<byte>, from: int, order: ByteOrder): (r: Result<PackedString>)
    ensures r.Ok? <==>
      && GetPackedInteger(data, from).Ok?
      && var prefix := GetPackedInteger(data, from).value;
         var len := GetUnsignedInteger(prefix, order).value;
         from + |prefix| <= |data| && 0 <= len && from + |prefix| + len <= 0x7FFF_FFFF
    ensures r.Ok? ==>
      var prefix := GetPackedInteger(data, from).value;
      var len := GetUnsignedInteger(prefix, order).value;
      && |r.value.data| == len
      && r.value.consumed == |prefix| + len
      && CopyOfRange(data, from + |prefix|, from + |prefix| + len) == Ok(r.value.data)
    ensures GetPackedInteger(data, from).Err? ==> r == Err(GetPackedInteger(data, from).error)
    ensures r.Ok? ==> r.value.consumed > |r.value.data|
  {
    var prefix :- GetPackedInteger(data, from);
    var pos := from + |prefix|;
    var len := GetUnsignedInteger(prefix, order).value;
    IntAdvance(pos, len);
    var raw :- CopyOfRange(data, pos, Int32(pos + len));
    Ok(PackedString(|prefix| + |raw|, raw))
  }

  /** With a one-byte prefix n the packed string is the n bytes after it
      (in a Java array, which holds fewer than 2^31 bytes). */
  lemma PackedStringShort(data: seq<byte>, from: int, order: ByteOrder)
    requires 0 <= from < |data| && data[from] < 0xFB && from + 1 + data[from] <= |data| < 0x8000_0000
    ensures GetPackedString(data, from, order) ==
      Ok(PackedString(1 + data[from], data[from + 1..from + 1 + data[from]]))
  {
    PackedIntegerOneByte(data, from, order);
    CopyOfRangeInside(data, from + 1, from + 1 + data[from]);
  }

  // ------------------------------------------------------------ NUL-terminated slices

  /** One past the first 0x00 in bytes[k..until), or until; reading an index
      outside bytes throws. */
  function NulScanEnd(bytes: seq<byte>, k: int, until: int): (r: Result<int>)
    requires k < until
    ensures r.Ok? ==> k < r.value <= until && 0 <= k && r.value <= |bytes|
    ensures r.Ok? ==> forall m :: k <= m < r.value - 1 ==> bytes[m] != 0
    ensures r.Ok? ==> r.value == until || bytes[r.value - 1] == 0
    ensures r.Err? ==> r.error == IndexOutOfBounds
    decreases until - k
  {
    if !(0 <= k < |bytes|) then Err(IndexOutOfBounds)
    else if bytes[k] == 0 || k + 1 == until then Ok(k + 1)
    else NulScanEnd(bytes, k + 1, until)
  }

  /** Skipping bytes already seen to be in range and non-zero does not change
      where the scan ends. */
  lemma {:induction false} NulScanEndSkip(bytes: seq<byte>, from: int, k: int, until: int)
    requires from <= k < until
    requires from < k ==> 0 <= from && k <= |bytes|
    requires forall m :: from <= m < k ==> bytes[m] != 0
    ensures NulScanEnd(bytes, from, until) == NulScanEnd(bytes, k, until)
    decreases k - from
  {
    if from < k {
      NulScanEndSkip(bytes, from + 1, k, until);
    }
  }

  /** What getNulTerminatedString returns: null when from >= until, else
      bytes[from..e) for e one past the first 0x00 in [from, until), or until. */
  function NulTerminatedSlice(bytes: seq<byte>, from: int, until: int): (r: Result<Option<seq<byte>>>)
  {
    if from >= until then Ok(None)
    else
      var e :- NulScanEnd(bytes, from, until);
      Ok(Some(bytes[from..e]))
  }

  /** The slice is never longer than until - from, holds no 0x00 except
      possibly its last byte, and stops short of until only at a 0x00. */
  lemma NulTerminatedSliceShape(bytes: seq<byte>, from: int, until: int)
    requires NulTerminatedSlice(bytes, from, until).Ok?
    ensures var r := NulTerminatedSlice(bytes, from, until).value;
      (r.None? <==> from >= until)
      && (r.Some? ==>
        && 1 <= |r.value| <= until - from
        && r.value == bytes[from..from + |r.value|]
        && (forall m :: 0 <= m < |r.value| - 1 ==> r.value[m] != 0)
        && (|r.value| == until - from || r.value[|r.value| - 1] == 0))
  {
  }

  /** getNulTerminatedString(bytes, from, to): the eofPos loop. */
  method GetNulTerminatedString(bytes: seq<byte>, from: int, until: int) returns (r: Result<Option<seq<byte>>>)
    ensures r == NulTerminatedSlice(bytes, from, until)
  {
    if from >= until {
      return Ok(None);
    }
    var max := until - from;
    var eofPos := from;
    var i := 0;
    while i < max
      invariant 0 <= i <= max && eofPos == from + i
      invariant i > 0 ==> 0 <= from && eofPos <= |bytes|
      invariant forall m :: from <= m < eofPos ==> bytes[m] != 0
    {
      if !(0 <= eofPos < |bytes|) {
        NulScanEndSkip(bytes, from, eofPos, until);
        return Err(IndexOutOfBounds);
      }
      var b := bytes[eofPos];
      if b == 0 {
        NulScanEndSkip(bytes, from, eofPos, until);
        eofPos := eofPos + 1;
        break;
      }
      assert bytes[eofPos] != 0;
      eofPos := eofPos + 1;
      i := i + 1;
    }
    if i == max {
      NulScanEndSkip(bytes, from, until - 1, until);
    }
    assert NulScanEnd(bytes, from, until) == Ok(eofPos);
    CopyOfRangeInside(bytes, from, eofPos);
    r := Ok(Some(CopyOfRange(bytes, from, eofPos).value));
  }

  // ------------------------------------------------------------ version comparison

  /** The private parseInt(v, 0): Integer.parseInt, or 0 when it throws. */
  function ParseIntOrZero(v: string): (r: int)
    ensures IsInt(r)
    ensures ParseInt(v).Ok? ==> r == ParseInt(v).value
    ensures ParseInt(v).Err? ==> r == 0
  {
    match ParseInt(v)
    case Ok(n) => n
    case Err(_) => 0
  }

  /** `source.replaceAll("-", ".").split("\\.")`. */
  function VersionParts(version: string): seq<string> {
    Split(Replace(version, '-', '.'), '.')
  }

  /** Part i of a version, with missing parts counted as 0. */
  function PartAt(parts: seq<string>, i: nat): int {
    if i < |parts| then ParseIntOrZero(parts[i]) else 0
  }

  /** The comparison of the parts from index i on, the first difference deciding. */
  function ComparePartsFrom(src: seq<string>, tgt: seq<string>, i: nat): (r: int)
    ensures r in {-1, 0, 1}
    decreases Max(|src|, |tgt|) - i
  {
    if i >= Max(|src|, |tgt|) then 0
    else if PartAt(tgt, i) > PartAt(src, i) then -1
    else if PartAt(tgt, i) < PartAt(src, i) then 1
    else ComparePartsFrom(src, tgt, i + 1)
  }

  /** compareVersion(source, target): 1 when source is the higher version, -1
      when target is, 0 when they are equal part by part. */
  function CompareVersionSpec(source: string, target: string): int {
    ComparePartsFrom(VersionParts(source), VersionParts(target), 0)
  }

  lemma {:induction false} ComparePartsAntisymmetric(src: seq<string>, tgt: seq<string>, i: nat)
    ensures ComparePartsFrom(src, tgt, i) == -ComparePartsFrom(tgt, src, i)
    decreases Max(|src|, |tgt|) - i
  {
    if i < Max(|src|, |tgt|) {
      ComparePartsAntisymmetric(src, tgt, i + 1);
    }
  }

  lemma {:induction false} ComparePartsZero(src: seq<string>, tgt: seq<string>, i: nat)
    ensures ComparePartsFrom(src, tgt, i) == 0 <==>
      forall k :: i <= k < Max(|src|, |tgt|) ==> PartAt(src, k) == PartAt(tgt, k)
    decreases Max(|src|, |tgt|) - i
  {
    if i < Max(|src|, |tgt|) {
      ComparePartsZero(src, tgt, i + 1);
    }
  }

  /** Swapping the arguments negates the comparison. */
  lemma CompareVersionAntisymmetric(a: string, b: string)
    ensures CompareVersionSpec(a, b) == -CompareVersionSpec(b, a)
    ensures CompareVersionSpec(a, a) == 0
  {
    ComparePartsAntisymmetric(VersionParts(a), VersionParts(b), 0);
    ComparePartsAntisymmetric(VersionParts(a), VersionParts(a), 0);
  }

  /** Two versions compare equal exactly when every part agrees, a missing part
      standing for 0. */
  lemma CompareVersionEqual(a: string, b: string)
    ensures var pa, pb := VersionParts(a), VersionParts(b);
      CompareVersionSpec(a, b) == 0 <==> forall k :: 0 <= k < Max(|pa|, |pb|) ==> PartAt(pa, k) == PartAt(pb, k)
  {
    ComparePartsZero(VersionParts(a), VersionParts(b), 0);
  }

  /** compareVersion: the loop over the longer of the two part lists. */
  method CompareVersion(source: string, target: string) returns (r: int)
    ensures r == CompareVersionSpec(source, target)
    ensures r in {-1, 0, 1}
  {
    var arrSrc := VersionParts(source);
    var arrTgt := VersionParts(target);
    r := CompareParts(arrSrc, arrTgt);
  }

  /** The loop of compareVersion over the two part lists. */
  method CompareParts(arrSrc: seq<string>, arrTgt: seq<string>) returns (r: int)
    ensures r == ComparePartsFrom(arrSrc, arrTgt, 0)
  {
    var maxLength := Max(|arrSrc|, |arrTgt|);
    var i := 0;
    while i < maxLength
      invariant 0 <= i <= maxLength
      invariant ComparePartsFrom(arrSrc, arrTgt, 0) == ComparePartsFrom(arrSrc, arrTgt, i)
    {
      var numSrc := 0;
      if i < |arrSrc| {
        numSrc := ParseIntOrZero(arrSrc[i]);
      }
      var numTgt := 0;
      if i < |arrTgt| {
        numTgt := ParseIntOrZero(arrTgt[i]);
      }
      assert numSrc == PartAt(arrSrc, i) && numTgt == PartAt(arrTgt, i);
      if numTgt > numSrc {
        return -1;
      } else if numTgt < numSrc {
        return 1;
      }
      i := i + 1;
    }
    return 0;
  }

  // ------------------------------------------------------------ padding

  /** lpad(s, len, pad): s preceded by as many pads as bring it to len chars. */
  function LeftPad(s: string, len: int, pad: char): (r: string)
    ensures |r| == Max(len, |s|)
    ensures r[|r| - |s|..] == s
    ensures forall k :: 0 <= k < |r| - |s| ==> r[k] == pad
    decreases len - |s|
  {
    if |s| >= len then s
    else
      var r := LeftPad([pad] + s, len, pad);
      assert |r| == len;
      var tail := r[len - |s| - 1..];
      assert tail == [pad] + s;
      assert r[len - |s|..] == tail[1..];
      assert r[len - |s| - 1] == tail[0];
      assert forall k :: 0 <= k < len - |s| ==> r[k] == pad by {
        forall k | 0 <= k < len - |s|
          ensures r[k] == pad
        {
          if k == len - |s| - 1 {
            assert r[k] == tail[0];
          }
        }
      }
      r
  }

  /** lpad: the StringBuilder loop. */
  method Lpad(s: string, len: int, pad: char) returns (r: string)
    ensures r == LeftPad(s, len, pad)
  {
    var padded := "";
    while |s| + |padded| < len
      invariant forall k :: 0 <= k < |padded| ==> padded[k] == pad
      invariant |padded| <= Max(0, len - |s|)
      decreases len - |s| - |padded|
    {
      padded := padded + [pad];
    }
    r := padded + s;
    assert |r| == Max(len, |s|);
    LeftPadUnique(r, s, len, pad);
  }

  /** A left padding of s is determined by its length. */
  lemma LeftPadUnique(r: string, s: string, len: int, pad: char)
    requires |r| == Max(len, |s|) && r[|r| - |s|..] == s
    requires forall k :: 0 <= k < |r| - |s| ==> r[k] == pad
    ensures r == LeftPad(s, len, pad)
  {
    var p := LeftPad(s, len, pad);
    assert |p| == |r|;
    forall k | 0 <= k < |r| ensures r[k] == p[k] {
      if k >= |r| - |s| {
        assert r[k] == r[|r| - |s|..][k - (|r| - |s|)];
        assert p[k] == p[|p| - |s|..][k - (|p| - |s|)];
      }
    }
  }

  /** getFixedLengthString(value, len): the decimal value, zero-padded on the left. */
  function FixedLengthString(value: int, len: int): (r: string)
    ensures |r| == Max(len, |LongToString(value)|)
  {
    LeftPad(LongToString(value), len, '0')
  }

  // ------------------------------------------------------------ hex and UUID text

  function HexDigitUpper(d: int): (c: char)
    requires 0 <= d < 16
  {
    "0123456789ABCDEF"[d]
  }

  function HexDigitValue(c: char): int {
    if '0' <= c <= '9' then c as int - '0' as int
    else if 'A' <= c <= 'F' then c as int - 'A' as int + 10
    else if 'a' <= c <= 'f' then c as int - 'a' as int + 10
    else -1
  }

  lemma HexDigitRoundTrip(d: int)
    requires 0 <= d < 16
    ensures HexDigitValue(HexDigitUpper(d)) == d
  {
  }

  /** `Integer.toHexString(b).toUpperCase()` for a byte value. */
  function ByteToHex(b: byte): (r: string)
    ensures |r| == (if b < 16 then 1 else 2)
  {
    if b < 16 then [HexDigitUpper(b)] else [HexDigitUpper(b / 16), HexDigitUpper(b % 16)]
  }

  /** getHexString(b, lpad): one or two upper-case digits, left-padded with "0"
      to two when lpad is set. */
  function HexOfByte(b: byte, lpad: bool): (r: string)
    ensures |r| == (if b < 16 && !lpad then 1 else 2)
  {
    var s := ByteToHex(b);
    if b < 16 && lpad then "0" + s else s
  }

  /** The two upper-case hex digits of every byte in turn. */
  function HexText(bytes: seq<byte>): (r: string)
    ensures |r| == 2 * |bytes|
  {
    if bytes == [] then "" else HexOfByte(bytes[0], true) + HexText(bytes[1..])
  }

  /** Reading the digits of HexText back in pairs. */
  function HexBytes(s: string): seq<int>
    decreases |s|
  {
    if |s| < 2 then [] else [16 * HexDigitValue(s[0]) + HexDigitValue(s[1])] + HexBytes(s[2..])
  }

  /** Hex text is lossless: reading it back gives the bytes. */
  lemma {:induction false} HexTextRoundTrip(bytes: seq<byte>)
    ensures HexBytes(HexText(bytes)) == bytes
  {
    if bytes != [] {
      HexTextRoundTrip(bytes[1..]);
      var b := bytes[0];
      var h := HexText(bytes);
      var d := HexOfByte(b, true);
      assert h == d + HexText(bytes[1..]);
      assert h[0] == d[0] && h[1] == d[1] && h[2..] == HexText(bytes[1..]);
      HexByteRoundTrip(b);
      assert HexBytes(h) == [16 * HexDigitValue(h[0]) + HexDigitValue(h[1])] + HexBytes(h[2..]);
    }
  }

  /** The two digits of one byte read back as that byte. */
  lemma HexByteRoundTrip(b: byte)
    ensures var d := HexOfByte(b, true);
      16 * HexDigitValue(d[0]) + HexDigitValue(d[1]) == b
  {
    HexDigitRoundTrip(b / 16);
    HexDigitRoundTrip(b % 16);
    if b < 16 {
      assert HexOfByte(b, true) == ['0', HexDigitUpper(b)];
    } else {
      assert HexOfByte(b, true) == [HexDigitUpper(b / 16), HexDigitUpper(b % 16)];
    }
  }

  lemma {:induction false} HexTextAppend(s: seq<byte>, b: byte)
    ensures HexText(s + [b]) == HexText(s) + HexOfByte(b, true)
  {
    if s != [] {
      assert (s + [b])[1..] == s[1..] + [b];
      HexTextAppend(s[1..], b);
    } else {
      assert [b][1..] == [];
    }
  }

  /** getHexString(bytes): null for an empty array, otherwise HexText. */
  method GetHexString(bytes: seq<byte>) returns (r: Option<string>)
    ensures bytes == [] ==> r == None
    ensures bytes != [] ==> r == Some(HexText(bytes))
  {
    if |bytes| == 0 {
      return None;
    }
    var builder := "";
    var i := 0;
    while i < |bytes|
      invariant 0 <= i <= |bytes|
      invariant builder == HexText(bytes[..i])
    {
      var v := bytes[i];
      var hv := ByteToHex(v);
      if |hv| < 2 {
        builder := builder + "0";
      }
      builder := builder + hv;
      assert bytes[..i + 1] == bytes[..i] + [v];
      HexTextAppend(bytes[..i], v);
      i := i + 1;
    }
    assert bytes[..i] == bytes;
    return Some(builder);
  }

  predicate IsLowerHexDigit(c: char) { '0' <= c <= '9' || 'a' <= c <= 'f' }

  /** getFormattedUuid(raw): the lower-cased hex of raw in groups 8-4-4-4-12.
      An empty array gives null (a NullPointerException at substring), fewer
      than 16 bytes a StringIndexOutOfBoundsException. */
  function FormattedUuid(raw: seq<byte>): (r: Result<string>)
    ensures r.Ok? <==> |raw| >= 16
  {
    if raw == [] then Err(NullPointer)
    else
      var hex := HexText(raw);
      if |hex| < 32 then Err(IndexOutOfBounds)
      else Ok(ToLower(hex[0..8] + "-" + hex[8..12] + "-" + hex[12..16] + "-" + hex[16..20] + "-" + hex[20..32]))
  }

  lemma {:induction false} HexTextLowerDigits(bytes: seq<byte>)
    ensures forall k :: 0 <= k < |HexText(bytes)| ==> IsLowerHexDigit(LowerChar(HexText(bytes)[k]))
  {
    if bytes != [] {
      HexTextLowerDigits(bytes[1..]);
      var head := HexOfByte(bytes[0], true);
      var tail := HexText(bytes[1..]);
      HexOfByteLowerDigits(bytes[0]);
      var h := HexText(bytes);
      assert h == head + tail;
      forall k | 0 <= k < |h| ensures IsLowerHexDigit(LowerChar(h[k])) {
        if k < 2 { assert h[k] == head[k]; } else { assert h[k] == tail[k - 2]; }
      }
    }
  }

  /** Both digits of a padded byte lower-case to hex digits. */
  lemma HexOfByteLowerDigits(b: byte)
    ensures var h := HexOfByte(b, true);
      IsLowerHexDigit(LowerChar(h[0])) && IsLowerHexDigit(LowerChar(h[1]))
  {
    UpperDigitLowers(b / 16);
    UpperDigitLowers(b % 16);
  }

  lemma UpperDigitLowers(d: int)
    requires 0 <= d < 16
    ensures IsLowerHexDigit(LowerChar(HexDigitUpper(d)))
  {
  }

  /** The UUID text is 36 chars, '-' at 8, 13, 18 and 23 and lower-case hex
      digits everywhere else. */
  lemma FormattedUuidShape(raw: seq<byte>)
    requires |raw| >= 16
    ensures var u := FormattedUuid(raw).value;
      |u| == 36
      && (forall k :: k in {8, 13, 18, 23} ==> u[k] == '-')
      && (forall k :: 0 <= k < 36 && k !in {8, 13, 18, 23} ==> IsLowerHexDigit(u[k]))
  {
    HexTextLowerDigits(raw);
    var hex := HexText(raw);
    var u := FormattedUuid(raw).value;
    var t := hex[0..8] + "-" + hex[8..12] + "-" + hex[12..16] + "-" + hex[16..20] + "-" + hex[20..32];
    assert u == ToLower(t);
    assert |t| == 36;
    forall k | 0 <= k < 36 && k !in {8, 13, 18, 23} ensures IsLowerHexDigit(u[k]) {
      assert u[k] == LowerChar(t[k]);
      if k < 8 { assert t[k] == hex[k]; }
      else if k < 13 { assert t[k] == hex[k - 1]; }
      else if k < 18 { assert t[k] == hex[k - 2]; }
      else if k < 23 { assert t[k] == hex[k - 3]; }
      else { assert t[k] == hex[k - 4]; }
    }
  }

  /** Where the 8-4-4-4-12 UUID text has its dashes. */
  predicate IsDashPosition(k: int) { k == 8 || k == 13 || k == 18 || k == 23 }

  /** 36 chars: '-' at the dash positions, lower-case hex digits elsewhere
      (the layout of section 3 of RFC 4122, in lower case). */
  predicate IsUuidText(u: string) {
    |u| == 36 && forall k :: 0 <= k < 36 ==> UuidCharAt(u, k)
  }

  /** The char at k of a uuid text: a dash or a lower-case hex digit. */
  predicate UuidCharAt(u: string, k: int)
    requires 0 <= k < |u|
  {
    if IsDashPosition(k) then u[k] == '-' else IsLowerHexDigit(u[k])
  }

  lemma FormattedUuidIsUuidText(raw: seq<byte>)
    requires |raw| >= 16
    ensures IsUuidText(FormattedUuid(raw).value)
  {
    FormattedUuidShape(raw);
    var u := FormattedUuid(raw).value;
    forall k | 0 <= k < 36 ensures UuidCharAt(u, k) {
      if IsDashPosition(k) {
        assert k in {8, 13, 18, 23};
      }
    }
  }

  // ------------------------------------------------------------ binary text

  /** `Integer.toBinaryString(v)`: the shortest binary digits of v. */
  function ToBinaryString(v: nat): (r: string)
    ensures r != []
  {
    if v < 2 then [if v == 0 then '0' else '1'] else ToBinaryString(v / 2) + [if v % 2 == 0 then '0' else '1']
  }

  predicate IsBinary(s: string) { forall k :: 0 <= k < |s| ==> s[k] in {'0', '1'} }

  /** `Integer.parseInt(s, 2)` for a string of binary digits. */
  function ParseBinary(s: string): (r: nat)
    ensures r < Pow2(|s|)
  {
    if s == [] then 0 else 2 * ParseBinary(s[..|s| - 1]) + (if s[|s| - 1] == '1' then 1 else 0)
  }

  /** The private getBinaryString(b): eight binary digits, most significant first. */
  function ByteBinaryString(b: byte): (r: string)
  {
    LeftPad(ToBinaryString(b), 8, '0')
  }

  /** getBinaryString(bytes, order): the eight digits of each byte in array
      order (the order argument does not affect single-byte reads). */
  function BinaryString(bytes: seq<byte>): string {
    if bytes == [] then "" else ByteBinaryString(bytes[0]) + BinaryString(bytes[1..])
  }

  lemma {:induction false} ToBinaryStringLength(v: nat, n: nat)
    requires v < Pow2(n) && n >= 1
    ensures |ToBinaryString(v)| <= n
  {
    if v >= 2 {
      ToBinaryStringLength(v / 2, n - 1);
    }
  }

  lemma {:induction false} BinaryStringLength(bytes: seq<byte>)
    ensures |BinaryString(bytes)| == 8 * |bytes|
  {
    if bytes != [] {
      assert Pow2(8) == 256;
      ToBinaryStringLength(bytes[0], 8);
      BinaryStringLength(bytes[1..]);
    }
  }

  // ------------------------------------------------------------ temporal values

  datatype DateParts = DateParts(year: int, month: int, day: int)
  datatype TimeParts = TimeParts(hours: int, minutes: int, seconds: int)
  datatype SignedTimeParts = SignedTimeParts(sign: int, hour: int, minute: int, second: int)
  datatype DateTimeParts = DateTimeParts(year: int, month: int, day: int, hour: int, minute: int, second: int)

  /** getDateV1: the little-endian int v, day = v % 32, then the unsigned shift
      v >>>= 5, month = v % 16, year = v >> 4. */
  function DateV1(bytes: seq<byte>): (r: Result<DateParts>)
    ensures r.Ok? <==> 1 <= |bytes| <= 8
  {
    var v :- GetInteger(bytes, LittleEndian);
    var shifted := (v % 0x1_0000_0000) / 32;
    Ok(DateParts(shifted / 16, shifted % 16, Rem(v, 32)))
  }

  /** For a non-negative packed date YYYY*16*32 + MM*32 + DD the fields come back. */
  lemma DateV1Fields(bytes: seq<byte>)
    requires 1 <= |bytes| <= 8 && GetInteger(bytes, LittleEndian).value >= 0
    ensures var v := GetInteger(bytes, LittleEndian).value;
      DateV1(bytes) == Ok(DateParts(v / 512, (v / 32) % 16, v % 32))
  {
    var v := GetInteger(bytes, LittleEndian).value;
    DateV1Shifts(v);
  }

  /** The shifts of getDateV1 on a non-negative int: v >>> 5 >> 4 is v / 512. */
  lemma DateV1Shifts(v: int)
    requires 0 <= v < 0x8000_0000
    ensures (v % 0x1_0000_0000) / 32 / 16 == v / 512
    ensures (v % 0x1_0000_0000) / 32 % 16 == (v / 32) % 16
    ensures Rem(v, 32) == v % 32
  {
    assert v % 0x1_0000_0000 == v;
    RemOfNatural(v, 32);
    var q := v / 32;
    DivModOf(v, 512, q / 16, 32 * (q % 16) + v % 32);
  }

  /** getTimeV1: seconds, minutes of the hour, and hours with the day count of
      v / 86400 added as hours, all by Java's truncating % and /. */
  function TimeV1(bytes: seq<byte>): (r: Result<TimeParts>)
    ensures r.Ok? <==> 1 <= |bytes| <= 8
  {
    var v :- GetInteger(bytes, LittleEndian);
    Ok(TimeOfInt(v))
  }

  /** The field arithmetic of getTimeV1 on the decoded int; the two
      subtractions are int arithmetic and wrap below Integer.MIN_VALUE. */
  function TimeOfInt(v0: int): TimeParts {
    var seconds := Abs(Rem(v0, 60));
    var v1 := Int32(v0 - seconds);
    var msInSeconds := Abs(Rem(v1, 3600));
    var minutes := Quot(msInSeconds, 60);
    var v2 := Int32(v1 - msInSeconds);
    var hsInSeconds := Abs(Rem(v2, 86400));
    var hours := Abs(Quot(hsInSeconds, 3600));
    var dsInHours := Quot(v2, 86400);
    TimeParts(if dsInHours < 0 then -(hours as int) + dsInHours else hours + dsInHours, minutes, seconds)
  }

  /** Within one day, a non-negative time value is hours*3600 + minutes*60 + seconds. */
  lemma TimeV1WithinDay(bytes: seq<byte>)
    requires 1 <= |bytes| <= 8
    requires 0 <= GetInteger(bytes, LittleEndian).value < 86400
    ensures var t := TimeV1(bytes).value;
      var v := GetInteger(bytes, LittleEndian).value;
      t.hours * 3600 + t.minutes * 60 + t.seconds == v
      && 0 <= t.minutes < 60 && 0 <= t.seconds < 60 && 0 <= t.hours < 24
  {
    TimeOfIntWithinDay(GetInteger(bytes, LittleEndian).value);
  }

  lemma TimeOfIntWithinDay(v: int)
    requires 0 <= v < 86400
    ensures var t := TimeOfInt(v);
      t.hours * 3600 + t.minutes * 60 + t.seconds == v
      && 0 <= t.minutes < 60 && 0 <= t.seconds < 60 && 0 <= t.hours < 24
  {
    var q := v / 60;
    TimeOfIntNatural(v, q / 60, q % 60, v % 60);
  }

  /** TimeOfInt of v = 3600 h + 60 m + s within a day: no wrap, no day count. */
  lemma TimeOfIntNatural(v: int, h: int, m: int, s: int)
    requires 0 <= h < 24 && 0 <= m < 60 && 0 <= s < 60 && v == 3600 * h + 60 * m + s
    ensures TimeOfInt(v) == TimeParts(h, m, s)
  {
    RemOfNatural(v, 60);
    DivModOf(v, 60, 60 * h + m, s);
    var v1 := 3600 * h + 60 * m;
    Int32Identity(v - s);
    RemOfNatural(v1, 3600);
    DivModOf(v1, 3600, h, 60 * m);
    RemOfNatural(60 * m, 60);
    DivModOf(60 * m, 60, m, 0);
    var v2 := 3600 * h;
    Int32Identity(v1 - 60 * m);
    RemOfNatural(v2, 86400);
    DivModOf(v2, 86400, 0, v2);
    RemOfNatural(v2, 3600);
    DivModOf(v2, 3600, h, 0);
  }

  /** A witness of the one input where the subtraction of the seconds
      wraps, the smallest int (TimeOfIntWithinDay covers every value within
      a day): -2^31 is 8 seconds past a whole minute, and taking them away
      wraps to 2^31 - 8, so the hours come out positive. */
  lemma TimeOfIntMinValue()
    ensures TimeOfInt(-0x8000_0000) == TimeParts(24858, 14, 8)
  {
    assert Rem(-0x8000_0000, 60) == -8;
    assert Int32(-0x8000_0000 - 8) == 0x7FFF_FFF8;
    assert Rem(0x7FFF_FFF8, 3600) == 840;
    assert Int32(0x7FFF_FFF8 - 840) == 0x7FFF_FCB0;
  }

  /** getTimeV2: sign bit, one unused bit, 10 bits hour, 6 minute, 6 second of
      the binary text. The sign test compares strings with `==`, which a fresh
      substring never satisfies, so the sign is always 1. */
  function TimeV2(bytes: seq<byte>): (r: Result<SignedTimeParts>)
    ensures r.Ok? <==> |bytes| >= 3
    ensures r.Ok? ==> r.value.sign == 1
    ensures r.Ok? ==> r.value.hour < 1024 && r.value.minute < 64 && r.value.second < 64
  {
    var bin := BinaryString(bytes);
    BinaryStringLength(bytes);
    if |bin| < 24 then Err(IndexOutOfBounds)
    else
      assert Pow2(10) == 1024 && Pow2(6) == 64;
      Ok(SignedTimeParts(1, ParseBinary(bin[2..12]), ParseBinary(bin[12..18]), ParseBinary(bin[18..24])))
  }

  /** getDateTimeV1: the date int gives day = v % 100, month = (v - day) % 10000
      and year = the rest / 10000; the time int the same way. Month and minute
      therefore keep their factor 100. */
  function DateTimeV1(rawDate: seq<byte>, rawTime: seq<byte>): (r: Result<DateTimeParts>)
    ensures r.Ok? <==> 1 <= |rawDate| <= 8 && 1 <= |rawTime| <= 8
  {
    var d :- GetInteger(rawDate, LittleEndian);
    var t :- GetInteger(rawTime, LittleEndian);
    var (year, month, day) := HundredsSplit(d);
    var (hour, minute, second) := HundredsSplit(t);
    Ok(DateTimeParts(year, month, day, hour, minute, second))
  }

  /** The split getDateTimeV1 applies to both ints: low = v % 100,
      mid = (v - low) % 10000, high = (v - low - mid) / 10000. */
  function HundredsSplit(v: int): (int, int, int) {
    var low := Rem(v, 100);
    var mid := Rem(v - low, 10000);
    (Quot(v - low - mid, 10000), mid, low)
  }

  lemma HundredsSplitOf(hi: nat, mid: nat, lo: nat)
    requires mid < 100 && lo < 100
    ensures HundredsSplit(hi * 10000 + mid * 100 + lo) == (hi, mid * 100, lo)
  {
    var v := hi * 10000 + mid * 100 + lo;
    RemOfNatural(v, 100);
    DivModOf(v, 100, 100 * hi + mid, lo);
    var w := hi * 10000 + mid * 100;
    RemOfNatural(w, 10000);
    DivModOf(w, 10000, hi, mid * 100);
    var top := hi * 10000;
    RemOfNatural(top, 10000);
    DivModOf(top, 10000, hi, 0);
  }

  /** For YYYYMMDD and HHMMSS the day, year, second and hour come back, and the
      month and minute come back multiplied by 100. */
  lemma DateTimeV1Fields(rawDate: seq<byte>, rawTime: seq<byte>, y: nat, mo: nat, d: nat, h: nat, mi: nat, s: nat)
    requires mo < 100 && d < 100 && mi < 100 && s < 100
    requires GetInteger(rawDate, LittleEndian) == Ok(y * 10000 + mo * 100 + d)
    requires GetInteger(rawTime, LittleEndian) == Ok(h * 10000 + mi * 100 + s)
    ensures DateTimeV1(rawDate, rawTime) == Ok(DateTimeParts(y, mo * 100, d, h, mi * 100, s))
  {
    HundredsSplitOf(y, mo, d);
    HundredsSplitOf(h, mi, s);
  }

  /** getDateTimeV2: after the sign bit, 17 bits year*13+month, then 5 bits
      day, 5 hour, 6 minute and 6 second. */
  function DateTimeV2(bytes: seq<byte>): (r: Result<DateTimeParts>)
    ensures r.Ok? <==> |bytes| >= 5
    ensures r.Ok? ==> (0 <= r.value.month < 13 && 0 <= r.value.year && r.value.day < 32
                       && r.value.hour < 32 && r.value.minute < 64 && r.value.second < 64)
    ensures r.Ok? ==> var bin := BinaryString(bytes);
      |bin| >= 40 && r.value.year * 13 + r.value.month == ParseBinary(bin[1..18])
  {
    var bin := BinaryString(bytes);
    BinaryStringLength(bytes);
    if |bin| < 40 then Err(IndexOutOfBounds)
    else
      var yearMonth := ParseBinary(bin[1..18]);
      assert Pow2(5) == 32 && Pow2(6) == 64;
      Ok(DateTimeParts(yearMonth / 13, yearMonth % 13, ParseBinary(bin[18..23]), ParseBinary(bin[23..28]),
                       ParseBinary(bin[28..34]), ParseBinary(bin[34..40])))
  }

  /** getTimestampV1: the seconds as a little-endian int. */
  function TimestampV1(bytes: seq<byte>): (r: Result<int>)
    ensures r.Ok? <==> 1 <= |bytes| <= 8
    ensures r.Ok? ==> IsInt(r.value)
  {
    GetInteger(bytes, LittleEndian)
  }

  /** getTimestampV2: the seconds as a big-endian int. */
  function TimestampV2(bytes: seq<byte>): (r: Result<int>)
    ensures r.Ok? <==> 1 <= |bytes| <= 8
    ensures r.Ok? ==> IsInt(r.value)
  {
    GetInteger(bytes, BigEndian)
  }

  /** getTimeFractionalLength(fsp) = (fsp + 1) / 2. */
  function TimeFractionalLength(fsp: int): int {
    Quot(fsp + 1, 2)
  }

  /** The fractional-seconds storage for precisions 0..6 is 0, 1, 1, 2, 2, 3, 3 bytes. */
  lemma TimeFractionalLengths()
    ensures TimeFractionalLength(0) == 0 && TimeFractionalLength(1) == 1
    ensures TimeFractionalLength(2) == 1 && TimeFractionalLength(3) == 2
    ensures TimeFractionalLength(4) == 2 && TimeFractionalLength(5) == 3
    ensures TimeFractionalLength(6) == 3
  {
  }

  lemma TimeFractionalLengthBound(fsp: int)
    requires fsp >= 0
    ensures 0 <= TimeFractionalLength(fsp) && 2 * TimeFractionalLength(fsp) <= fsp + 1
  {
  }

  // ------------------------------------------------------------ bit sets

  /** `BitSet.valueOf(bytes).get(n)`: bit n % 8 of byte n / 8; bits past the
      end are clear. The byte order plays no part. */
  predicate BitSetGet(bytes: seq<byte>, n: nat) {
    n / 8 < |bytes| && (bytes[n / 8] / Pow2(n % 8)) % 2 == 1
  }

  /** `BitSet.valueOf(bytes).get(0, n).cardinality()`: the set bits below n. */
  function Cardinality(bytes: seq<byte>, n: nat): (r: nat)
    ensures r <= n
  {
    if n == 0 then 0 else Cardinality(bytes, n - 1) + (if BitSetGet(bytes, n - 1) then 1 else 0)
  }
}
