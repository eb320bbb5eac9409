/** The pieces of Java semantics the decoder relies on: byte values, the `int`
    and `long` views of a mathematical integer, truncating division,
    Arrays.copyOfRange, and the String operations the decoders use. */
module Java {
  import opened Wrappers

  /** An unsigned byte value 0..255; `b & 0xFF` in Java. */
  type byte = b: int | 0 <= b < 256

  predicate IsInt(x: int) { -0x8000_0000 <= x < 0x8000_0000 }
  predicate IsLong(x: int) { -0x8000_0000_0000_0000 <= x < 0x8000_0000_0000_0000 }

  /** x and y agree in their low 32 bits: what an int cast keeps. */
  predicate SameBits32(x: int, y: int) { (x - y) % 0x1_0000_0000 == 0 }
  /** x and y agree in their low 64 bits: what a long cast keeps. */
  predicate SameBits64(x: int, y: int) { (x - y) % 0x1_0000_0000_0000_0000 == 0 }

  /** The Java signed byte whose bits are b: `(int) b`. */
  function SignedByte(b: byte): (r: int)
    ensures -128 <= r < 128
    ensures r == b || r == b - 256
  {
    if b < 128 then b else b - 256
  }

  /** `Number.intValue()`: the low 32 bits of x read as a two's-complement int. */
  function Int32(x: int): (r: int)
    ensures IsInt(r)
    ensures SameBits32(x, r)
  {
    var m := x % 0x1_0000_0000;
    if m >= 0x8000_0000 then m - 0x1_0000_0000 else m
  }

  /** `Number.longValue()`: the low 64 bits of x read as a two's-complement long. */
  function Int64(x: int): (r: int)
    ensures IsLong(r)
    ensures SameBits64(x, r)
  {
    var m := x % 0x1_0000_0000_0000_0000;
    if m >= 0x8000_0000_0000_0000 then m - 0x1_0000_0000_0000_0000 else m
  }

  lemma Int32Identity(x: int)
    requires IsInt(x)
    ensures Int32(x) == x
  {
  }

  /** `p += n` on an int position p >= 0: the sum while it fits in an int;
      past Integer.MAX_VALUE it wraps to a value below p. */
  lemma IntAdvance(p: int, n: int)
    requires IsInt(n)
    ensures 0 <= p && p + n < 0x8000_0000 ==> Int32(p + n) == p + n
    ensures 0 <= p && p + n >= 0x8000_0000 ==> Int32(p + n) < p
  {
    var x := p + n;
    if p < 0 {
    } else if x >= 0x1_0000_0000 {
      assert x / 0x1_0000_0000 >= 1;
      assert x % 0x1_0000_0000 <= x - 0x1_0000_0000;
    } else if x >= 0x8000_0000 {
      DivModOf(x, 0x1_0000_0000, 0, x);
    }
  }

  lemma Int64Identity(x: int)
    requires IsLong(x)
    ensures Int64(x) == x
  {
  }

  /** A long is its own low 64 bits: reducing it modulo 2^64 and reading
      the result back as a long gives it again. */
  lemma Int64OfUnsigned(x: int)
    requires IsLong(x)
    ensures Int64(x % 0x1_0000_0000_0000_0000) == x
  {
    if x < 0 {
      assert x % 0x1_0000_0000_0000_0000 == x + 0x1_0000_0000_0000_0000;
    }
  }

  /** A long made of 64 bits given as their unsigned value: the same as
      Int64 on that range, written without the remainder. */
  function SignedLong(u: int): (r: int)
    requires 0 <= u < 0x1_0000_0000_0000_0000
    ensures IsLong(r)
  {
    if u >= 0x8000_0000_0000_0000 then u - 0x1_0000_0000_0000_0000 else u
  }

  lemma SignedLongIsInt64(u: int)
    requires 0 <= u < 0x1_0000_0000_0000_0000
    ensures SignedLong(u) == Int64(u)
  {
    assert u % 0x1_0000_0000_0000_0000 == u;
  }

  /** The long `x - 1`: Long.MIN_VALUE - 1 wraps to Long.MAX_VALUE. */
  function LongDecrement(x: int): (r: int)
    requires IsLong(x)
    ensures IsLong(r)
  {
    if x == -0x8000_0000_0000_0000 then 0x7FFF_FFFF_FFFF_FFFF else x - 1
  }

  lemma LongDecrementIsInt64(x: int)
    requires IsLong(x)
    ensures LongDecrement(x) == Int64(x - 1)
  {
    if x == -0x8000_0000_0000_0000 {
      assert (x - 1) % 0x1_0000_0000_0000_0000 == 0x7FFF_FFFF_FFFF_FFFF;
    } else if x - 1 < 0 {
      assert (x - 1) % 0x1_0000_0000_0000_0000 == x - 1 + 0x1_0000_0000_0000_0000;
    } else {
      assert (x - 1) % 0x1_0000_0000_0000_0000 == x - 1;
    }
  }

  /** The unsigned value of a long's 64 bits. */
  function UnsignedLong(x: int): (u: nat)
    requires IsLong(x)
    ensures u < 0x1_0000_0000_0000_0000 && SameBits64(x, u)
  {
    if x < 0 then x + 0x1_0000_0000_0000_0000 else x
  }

  function Abs(x: int): nat { if x < 0 then -x else x }

  /** Java's `a / b`: the quotient rounded toward zero. */
  function Quot(a: int, b: int): int
    requires b != 0
  {
    var q := Abs(a) / Abs(b);
    if (a < 0) == (b < 0) then q else -q
  }

  /** Java's `a % b`: the remainder of truncating division, with the sign of a. */
  function Rem(a: int, b: int): int
    requires b != 0
  {
    var m := Abs(a) % Abs(b);
    if a < 0 then -m else m
  }

  /** Java's division identity `(a / b) * b + a % b == a`, with the remainder
      smaller than the divisor and carrying the sign of the dividend. */
  lemma QuotRem(a: int, b: int)
    requires b != 0
    ensures a == b * Quot(a, b) + Rem(a, b)
    ensures Abs(Rem(a, b)) < Abs(b)
    ensures Rem(a, b) == 0 || (Rem(a, b) < 0) == (a < 0)
  {
    var q := Abs(a) / Abs(b);
    var m := Abs(a) % Abs(b);
    assert Abs(a) == Abs(b) * q + m;
    if a >= 0 && b < 0 {
      assert Abs(b) * q == b * (-q);
    } else if a < 0 && b > 0 {
      assert -(Abs(b) * q) == b * (-q);
    } else if a < 0 && b < 0 {
      assert Abs(b) * q == -(b * q);
    }
  }

  lemma RemOfNatural(a: int, b: int)
    requires a >= 0 && b > 0
    ensures Rem(a, b) == a % b && Quot(a, b) == a / b
  {
  }

  /** A quotient and remainder that fit the division identity are the ones
      division gives. */
  lemma DivModOf(v: int, d: int, q: int, r: int)
    requires d > 0 && v == q * d + r && 0 <= r < d
    ensures v / d == q && v % d == r
  {
    var q0, r0 := v / d, v % d;
    assert v == q0 * d + r0;
    var k := q0 - q;
    assert k * d == q0 * d - q * d;
    if k > 0 {
      MulAtLeast(k, d);
    } else if k < 0 {
      assert (-k) * d == -(k * d);
      MulAtLeast(-k, d);
    }
  }

  lemma MulAtLeast(k: int, d: int)
    requires k >= 1 && d > 0
    ensures k * d >= d
  {
    assert k * d == (k - 1) * d + d;
    assert (k - 1) * d >= 0;
  }

  function Zeros(n: nat): (r: seq<byte>)
    ensures |r| == n && forall i :: 0 <= i < n ==> r[i] == 0
  {
    seq(n, _ => 0)
  }

  function Min(a: int, b: int): int { if a < b then a else b }
  function Max(a: int, b: int): int { if a < b then b else a }

  /** `Arrays.copyOfRange(bs, from, to)`: a new array of to - from elements,
      padded with zeros where the range runs past the end of bs. */
  function CopyOfRange(bs: seq<byte>, from: int, to: int): (r: Result<seq<byte>>)
    ensures r.Ok? <==> 0 <= from <= |bs| && from <= to
    ensures from > to ==> r == Err(IllegalArgument)
    ensures from <= to && !(0 <= from <= |bs|) ==> r == Err(IndexOutOfBounds)
    ensures r.Ok? ==> |r.value| == to - from
  {
    if from > to then Err(IllegalArgument)
    else if from < 0 || from > |bs| then Err(IndexOutOfBounds)
    else
      var end := Min(to, |bs|);
      Ok(bs[from..end] + Zeros(to - end))
  }

  /** The copy holds bs[from + i] at i, and 0 past the end of bs. */
  lemma CopyOfRangeContents(bs: seq<byte>, from: int, to: int)
    requires 0 <= from <= |bs| && from <= to
    ensures forall i :: 0 <= i < to - from ==>
      CopyOfRange(bs, from, to).value[i] == if from + i < |bs| then bs[from + i] else 0
  {
  }

  lemma CopyOfRangeInside(bs: seq<byte>, from: int, to: int)
    requires 0 <= from <= to <= |bs|
    ensures CopyOfRange(bs, from, to) == Ok(bs[from..to])
  {
    assert bs[from..to] + Zeros(0) == bs[from..to];
  }

  /** A copy of bytes that lie inside bs is exactly those bytes. */
  lemma CopyOfRangeSlice(bs: seq<byte>, from: int, raw: seq<byte>)
    requires 0 <= from && from + |raw| <= |bs| && bs[from..from + |raw|] == raw
    ensures CopyOfRange(bs, from, from + |raw|) == Ok(raw)
  {
    CopyOfRangeInside(bs, from, from + |raw|);
  }

  // ---------------------------------------------------------------- text

  /** `Character.isWhitespace` is not what `trim` uses: trim drops every char <= ' '. */
  predicate IsTrimmed(c: char) { c <= ' ' }
  predicate IsTrimmedByte(b: byte) { b <= 0x20 }

  /** `String.trim()`. */
  function Trim(s: string): (r: string)
    ensures |r| <= |s|
  {
    var i := TrimStart(s, 0);
    var j := TrimEnd(s, |s|, i);
    s[i..j]
  }

  /** What trim keeps: the chars from the first to the last one above ' ';
      everything it drops is <= ' '. */
  lemma TrimShape(s: string)
    ensures var r, i := Trim(s), TrimStart(s, 0);
      && (r != [] ==> !IsTrimmed(r[0]) && !IsTrimmed(r[|r| - 1]))
      && i + |r| <= |s| && r == s[i..i + |r|]
      && (forall k :: i + |r| <= k < |s| ==> IsTrimmed(s[k]))
  {
  }

  function TrimStart(s: string, i: nat): (k: nat)
    requires i <= |s|
    ensures i <= k <= |s|
    ensures forall m :: i <= m < k ==> IsTrimmed(s[m])
    ensures k < |s| ==> !IsTrimmed(s[k])
    decreases |s| - i
  {
    if i < |s| && IsTrimmed(s[i]) then TrimStart(s, i + 1) else i
  }

  function TrimEnd(s: string, j: nat, lo: nat): (k: nat)
    requires lo <= j <= |s|
    ensures lo <= k <= j
    ensures forall m :: k <= m < j ==> IsTrimmed(s[m])
    ensures k > lo ==> !IsTrimmed(s[k - 1])
  {
    if j > lo && IsTrimmed(s[j - 1]) then TrimEnd(s, j - 1, lo) else j
  }

  /** `new String(bytes, charset).trim()`, taken on the encoded bytes: the text
      keeps its raw bytes, and bytes 0x00..0x20 are the chars trim removes in
      UTF-8 and in every single-byte charset the server writes. */
  function TrimBytes(s: seq<byte>): (r: seq<byte>)
    ensures |r| <= |s|
  {
    var i := TrimBytesStart(s, 0);
    var j := TrimBytesEnd(s, |s|, i);
    s[i..j]
  }

  /** What TrimBytes keeps: a run of s beginning past the leading bytes
      <= 0x20, followed only by such bytes, and neither starting nor ending
      with one. */
  lemma TrimBytesShape(s: seq<byte>)
    ensures var r, i := TrimBytes(s), TrimBytesStart(s, 0);
      && (r != [] ==> !IsTrimmedByte(r[0]) && !IsTrimmedByte(r[|r| - 1]))
      && i + |r| <= |s| && r == s[i..i + |r|] && (forall k :: i + |r| <= k < |s| ==> IsTrimmedByte(s[k]))
  {
  }

  function TrimBytesStart(s: seq<byte>, i: nat): (k: nat)
    requires i <= |s|
    ensures i <= k <= |s|
    ensures forall m :: i <= m < k ==> IsTrimmedByte(s[m])
    ensures k < |s| ==> !IsTrimmedByte(s[k])
    decreases |s| - i
  {
    if i < |s| && IsTrimmedByte(s[i]) then TrimBytesStart(s, i + 1) else i
  }

  function TrimBytesEnd(s: seq<byte>, j: nat, lo: nat): (k: nat)
    requires lo <= j <= |s|
    ensures lo <= k <= j
    ensures forall m :: k <= m < j ==> IsTrimmedByte(s[m])
    ensures k > lo ==> !IsTrimmedByte(s[k - 1])
  {
    if j > lo && IsTrimmedByte(s[j - 1]) then TrimBytesEnd(s, j - 1, lo) else j
  }

  /** `Character.toLowerCase` on the ASCII letters. */
  function LowerChar(c: char): (r: char)
    ensures 'A' <= c <= 'Z' ==> r as int == c as int + 32
    ensures !('A' <= c <= 'Z') ==> r == c
  {
    if 'A' <= c <= 'Z' then (c as int + 32) as char else c
  }

  function ToLower(s: string): (r: string)
    ensures |r| == |s| && forall i :: 0 <= i < |s| ==> r[i] == LowerChar(s[i])
  {
    seq(|s|, i requires 0 <= i < |s| => LowerChar(s[i]))
  }

  /** `String.equalsIgnoreCase` with ASCII case folding. */
  predicate EqualsIgnoreCase(a: string, b: string) {
    ToLower(a) == ToLower(b)
  }

  /** `String.substring(begin, end)`. */
  function Substring(s: string, begin: int, end: int): (r: Result<string>)
    ensures r.Ok? <==> 0 <= begin <= end <= |s|
    ensures r.Ok? ==> r.value == s[begin..end]
  {
    if 0 <= begin <= end <= |s| then Ok(s[begin..end]) else Err(IndexOutOfBounds)
  }

  /** `StringBuilder.insert(offset, c)`: c goes in before the char at offset;
      an offset outside 0..length throws. */
  function Insert(s: string, offset: int, c: char): (r: Result<string>)
    ensures r.Ok? <==> 0 <= offset <= |s|
    ensures r.Err? ==> r.error == IndexOutOfBounds
    ensures r.Ok? ==> |r.value| == |s| + 1 && r.value[offset] == c
    ensures r.Ok? ==> r.value[..offset] == s[..offset] && r.value[offset + 1..] == s[offset..]
  {
    if 0 <= offset <= |s| then Ok(s[..offset] + [c] + s[offset..]) else Err(IndexOutOfBounds)
  }

  /** `String.lastIndexOf(c)`: the index of the last c, or -1. */
  function LastIndexOf(s: string, c: char): (r: int)
    ensures -1 <= r < |s|
    ensures r >= 0 ==> s[r] == c
    ensures forall k :: r < k < |s| ==> s[k] != c
  {
    if s == [] then -1
    else if s[|s| - 1] == c then |s| - 1
    else LastIndexOf(s[..|s| - 1], c)
  }

  /** `String.indexOf(c)`: the index of the first c, or -1. */
  function IndexOf(s: string, c: char): (r: int)
    ensures -1 <= r < |s|
    ensures r >= 0 ==> s[r] == c
    ensures forall k :: 0 <= k < |s| && (r < 0 || k < r) ==> s[k] != c
  {
    if s == [] then -1
    else if s[0] == c then 0
    else var k := IndexOf(s[1..], c); if k < 0 then -1 else k + 1
  }

  /** `String.replace(from, to)` on single characters. */
  function Replace(s: string, from: char, to: char): (r: string)
    ensures |r| == |s|
    ensures forall i :: 0 <= i < |s| ==> r[i] == if s[i] == from then to else s[i]
  {
    seq(|s|, i requires 0 <= i < |s| => if s[i] == from then to else s[i])
  }

  /** The fields of s between the separators c, including empty ones. */
  function Fields(s: string, c: char): (r: seq<string>)
    ensures |r| >= 1
    ensures forall k :: 0 <= k < |r| ==> c !in r[k]
    decreases |s|
  {
    var k := IndexOf(s, c);
    if k < 0 then [s] else [s[..k]] + Fields(s[k + 1..], c)
  }

  function Join(fields: seq<string>, c: char): string
    requires |fields| >= 1
  {
    if |fields| == 1 then fields[0] else fields[0] + [c] + Join(fields[1..], c)
  }

  lemma {:induction false} JoinFields(s: string, c: char)
    ensures Join(Fields(s, c), c) == s
    decreases |s|
  {
    var k := IndexOf(s, c);
    if k >= 0 {
      JoinFields(s[k + 1..], c);
      JoinFieldsStep(s, c, k, Join(Fields(s[k + 1..], c), c));
    }
  }

  /** One separator: the head field, c, and the join of the rest. */
  lemma JoinFieldsStep(s: string, c: char, k: int, tail: string)
    requires k == IndexOf(s, c) && k >= 0
    requires tail == Join(Fields(s[k + 1..], c), c)
    ensures Join(Fields(s, c), c) == s[..k] + [c] + tail
  {
    var rest := Fields(s[k + 1..], c);
    var fs := Fields(s, c);
    assert fs == [s[..k]] + rest;
    assert fs[1..] == rest;
  }

  function DropTrailingEmpty(fields: seq<string>): (r: seq<string>)
    ensures |r| <= |fields| && r == fields[..|r|]
    ensures r != [] ==> r[|r| - 1] != []
    ensures forall k :: |r| <= k < |fields| ==> fields[k] == []
  {
    if fields == [] || fields[|fields| - 1] != [] then fields
    else DropTrailingEmpty(fields[..|fields| - 1])
  }

  /** `String.split(c)` for a one-character, non-meta separator: the fields,
      less trailing empty ones; a string without c splits into itself. */
  function Split(s: string, c: char): (r: seq<string>)
    ensures forall k :: 0 <= k < |r| ==> c !in r[k]
    ensures c !in s ==> r == [s]
  {
    if c !in s then [s] else DropTrailingEmpty(Fields(s, c))
  }

  /** `new String(bytes)` for text of one-byte characters (ASCII): one char
      per byte, with the byte's code. */
  function ByteChars(bs: seq<byte>): (s: string)
    ensures |s| == |bs|
    ensures forall i :: 0 <= i < |bs| ==> s[i] as int == bs[i]
  {
    seq(|bs|, i requires 0 <= i < |bs| => bs[i] as char)
  }

  // ---------------------------------------------------------------- decimal text

  predicate IsDigit(c: char) { '0' <= c <= '9' }

  function DigitChar(d: int): (c: char)
    requires 0 <= d < 10
    ensures IsDigit(c) && c as int - '0' as int == d
  {
    ('0' as int + d) as char
  }

  predicate AllDigits(s: string) { forall i :: 0 <= i < |s| ==> IsDigit(s[i]) }

  /** The number a string of digits denotes. */
  function DigitsValue(s: string): nat
    requires AllDigits(s)
  {
    if s == [] then 0
    else 10 * DigitsValue(s[..|s| - 1]) + (s[|s| - 1] as int - '0' as int)
  }

  /** The shortest decimal digits of n. */
  function NatToString(n: nat): (r: string)
    ensures r != [] && AllDigits(r)
    ensures |r| > 1 ==> r[0] != '0'
  {
    if n < 10 then [DigitChar(n)] else NatToString(n / 10) + [DigitChar(n % 10)]
  }

  lemma {:induction false} NatToStringValue(n: nat)
    ensures DigitsValue(NatToString(n)) == n
  {
    if n >= 10 {
      NatToStringValue(n / 10);
      var s := NatToString(n);
      assert s[..|s| - 1] == NatToString(n / 10);
    }
  }

  /** `Long.toString(x)` and `Integer.toString(x)`. */
  function LongToString(x: int): (r: string)
    ensures r != []
    ensures x < 0 <==> r[0] == '-'
  {
    if x < 0 then "-" + NatToString(-x) else NatToString(x)
  }

  /** `Long.parseLong(s)` (lo, hi the long bounds) or `Integer.parseInt(s)`
      (the int bounds): an optional sign and at least one decimal digit, whose
      value must lie in [lo, hi]. */
  function ParseDecimal(s: string, lo: int, hi: int): (r: Result<int>)
    ensures r.Ok? ==> lo <= r.value <= hi && s != []
    ensures r.Err? ==> r.error == NumberFormat
  {
    if s == [] then Err(NumberFormat)
    else
      var neg := s[0] == '-';
      var body := if s[0] == '-' || s[0] == '+' then s[1..] else s;
      if body == [] || !AllDigits(body) then Err(NumberFormat)
      else
        var v: int := if neg then -(DigitsValue(body) as int) else DigitsValue(body);
        if lo <= v <= hi then Ok(v) else Err(NumberFormat)
  }

  function ParseLong(s: string): (r: Result<int>)
    ensures r.Ok? ==> IsLong(r.value) && s != []
  {
    ParseDecimal(s, -0x8000_0000_0000_0000, 0x7FFF_FFFF_FFFF_FFFF)
  }

  function ParseInt(s: string): (r: Result<int>)
    ensures r.Ok? ==> IsInt(r.value)
  {
    ParseDecimal(s, -0x8000_0000, 0x7FFF_FFFF)
  }

  /** Printing a long and parsing it back gives the same long. */
  lemma ParseLongToString(x: int)
    requires IsLong(x)
    ensures ParseLong(LongToString(x)) == Ok(x)
  {
    if x < 0 {
      NatToStringValue(-x);
      ParseNegative(NatToString(-x), -0x8000_0000_0000_0000, 0x7FFF_FFFF_FFFF_FFFF);
    } else {
      NatToStringValue(x);
    }
  }

  /** A '-' and digits whose negated value lies in [lo, hi] parse as that value. */
  lemma ParseNegative(d: string, lo: int, hi: int)
    requires d != [] && AllDigits(d) && lo <= -(DigitsValue(d) as int) <= hi
    ensures ParseDecimal("-" + d, lo, hi) == Ok(-(DigitsValue(d) as int))
  {
    var s := "-" + d;
    assert s[0] == '-' && s[1..] == d;
  }

  // ---------------------------------------------------------------- HashMap

  /** The map after `HashMap.put(key, v)`: key holds v, every other key is as
      before, and the size grows by one exactly when key is new. */
  function MapPut<K, V>(m: map<K, V>, key: K, v: V): (r: map<K, V>)
    ensures r.Keys == m.Keys + {key} && r[key] == v
    ensures forall k :: k in m && k != key ==> r[k] == m[k]
    ensures |r| == |m| + (if key in m then 0 else 1)
  {
    var r := m[key := v];
    assert key in m ==> r.Keys == m.Keys;
    r
  }
}
