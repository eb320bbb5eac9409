/** USER_VAR_EVENT: the value of a user variable a statement uses.
      payload  4 name length, the name, 1 is-null flag, and unless null:
               1 type, 4 charset, 4 value length, the value, and when more
               data follows, 1 flags byte */
module UserVarEvents {
  import opened Wrappers
  import opened Java
  import opened ParserHelper
  import opened EventBodies

  /** A decoded USER_VAR_EVENT. A null variable keeps type 0, charset 0, no
      value and flags 0. */
  datatype UserVarEventBody = UserVarEventBody(
    name: seq<byte>,
    isNull: int,
    typeId: int,
    charsetId: int,
    value: Option<seq<byte>>,
    flags: int)
  {
    /** getVariableTypeName(). */
    function TypeName(): string { ValueType(typeId) }
  }

  const MaxInt: int := 0x7FFF_FFFF

  /** The end of the name: the offset after the 4 length bytes plus the length. */
  function NameEnd(bodyData: seq<byte>, order: ByteOrder): (r: int)
    requires 4 <= |bodyData|
    ensures 4 <= r < 4 + 0x1_0000_0000
  {
    4 + UnsignedNumber(bodyData[0..4], order).value
  }

  /** The fields after a zero is-null flag, from offset p on: the type byte,
      the charset, the value length m and m value bytes (the copy is padded
      with zeros where it runs past the body), and flags 1 exactly when the
      int difference between the body data length and the end of the value
      is positive. */
  predicate ValueEncodes(bodyData: seq<byte>, order: ByteOrder, bodyDataLength: int, p: int, e: UserVarEventBody) {
    var bd := bodyData;
    && 0 <= p && p + 9 <= |bd|
    && e.typeId == bd[p]
    && e.charsetId == Int32(UnsignedNumber(bd[p + 1..p + 5], order).value)
    && var vs, m := p + 9, UnsignedNumber(bd[p + 5..p + 9], order).value;
    && vs + m <= MaxInt
    && e.value == Some(CopyOfRange(bd, vs, vs + m).value)
    && e.flags == (if Int32(bodyDataLength - (vs + m)) > 0 then 1 else 0)
  }

  /** The layout of a USER_VAR_EVENT body holding e. The name must end within
      the int range and within the body; the is-null byte there reads as 0
      when the name ends the body. */
  predicate UserVarEncodes(ctx: BodyContext, e: UserVarEventBody) {
    var bd := ctx.bodyData;
    && 4 <= |bd|
    && var p1 := NameEnd(bd, ctx.order);
    && p1 <= MaxInt && p1 <= |bd|
    && e.name == bd[4..p1]
    && e.isNull == (if p1 < |bd| then SignedByte(bd[p1]) else 0)
    && if e.isNull != 0 then
         e.typeId == 0 && e.charsetId == 0 && e.value == None && e.flags == 0
       else
         ValueEncodes(bd, ctx.order, ctx.BodyDataLength(), p1 + 1, e)
  }

  /** An int position advanced by an unsigned length below 2^32: the sum
      is kept when it fits in an int, and otherwise wraps to below the
      start, which makes the following copy fail. */
  lemma AdvanceWraps(p: int, length: int)
    requires 0 <= p < 0x8000_0000 + 16 && 0 <= length < 0x1_0000_0000
    ensures p + length <= MaxInt ==> Int32(p + length) == p + length
    ensures p + length > MaxInt ==> Int32(p + length) < p
  {
    var x := p + length;
    if MaxInt < x < 0x1_0000_0000 {
      assert x % 0x1_0000_0000 == x;
    } else if 0x1_0000_0000 <= x {
      assert x % 0x1_0000_0000 == x - 0x1_0000_0000;
    }
  }

  /** The UserVarEvent constructor: the fields in order at a moving int
      position; the position after the name and after the value is the int
      sum of the position and the length read. It fails exactly when the body
      holds no such event, and otherwise returns the one it holds. */
  method DecodeUserVar(ctx: BodyContext) returns (r: Result<UserVarEventBody>)
    ensures r.Ok? ==> UserVarEncodes(ctx, r.value)
    ensures r.Err? ==> forall e :: !UserVarEncodes(ctx, e)
  {
    var bd, order := ctx.bodyData, ctx.order;
    var named :- ReadUserVarName(bd, order);
    var name, pos := named.0, named.1;
    var isNull :- GetIntegerAt(bd, pos, pos + 1, order);
    CopyOfRangeInside(bd, 4, pos);
    if isNull != 0 {
      return Ok(UserVarEventBody(name, isNull, 0, 0, None, 0));
    }
    pos := pos + 1;
    var rest := ReadUserVarValue(bd, order, ctx.BodyDataLength(), pos);
    if rest.Err? {
      return Err(rest.error);
    }
    var v := rest.value;
    r := Ok(UserVarEventBody(name, isNull, v.typeId, v.charsetId, v.value, v.flags));
  }

  /** The name length and the name: the copy of the bytes from 4 to the
      int sum of 4 and the length. It fails exactly when the body holds fewer
      than 4 bytes or that sum wraps; it returns the name's copy and its end. */
  method ReadUserVarName(bodyData: seq<byte>, order: ByteOrder) returns (r: Result<(seq<byte>, int)>)
    ensures r.Ok? <==> 4 <= |bodyData| && NameEnd(bodyData, order) <= MaxInt
    ensures r.Ok? ==> r.value.1 == NameEnd(bodyData, order)
    ensures r.Ok? ==> r.value.0 == CopyOfRange(bodyData, 4, r.value.1).value
  {
    var bd := bodyData;
    var pos := 0;
    var nameLength := GetUnsignedLongAt(bd, pos, pos + 4, order).value;
    pos := pos + 4;
    var nameEnd := Int32(pos + nameLength);
    if 4 <= |bd| {
      assert nameLength == NameEnd(bd, order) - 4;
      AdvanceWraps(4, nameLength);
    }
    var name :- CopyOfRange(bd, pos, nameEnd);
    r := Ok((name, nameEnd));
  }

  /** The fields after a zero is-null flag at p - 1; the name and is-null
      fields of the result are left empty. */
  method ReadUserVarValue(bodyData: seq<byte>, order: ByteOrder, bodyDataLength: int, p: int)
    returns (r: Result<UserVarEventBody>)
    requires 1 <= p <= MaxInt + 1
    ensures r.Ok? ==> ValueEncodes(bodyData, order, bodyDataLength, p, r.value)
    ensures r.Err? ==> forall e :: !ValueEncodes(bodyData, order, bodyDataLength, p, e)
  {
    var bd := bodyData;
    var pos := p;
    var typeId :- GetUnsignedIntegerAt(bd, pos, pos + 1, order);
    pos := pos + 1;
    var charsetId :- GetUnsignedIntegerAt(bd, pos, pos + 4, order);
    pos := pos + 4;
    var valueLength :- GetUnsignedLongAt(bd, pos, pos + 4, order);
    pos := pos + 4;
    var valueEnd := Int32(pos + valueLength);
    var value := CopyOfRange(bd, pos, valueEnd);
    if value.Err? {
      if pos <= |bd| {
        ValueFieldsRead(bd, order, p);
        AdvanceWraps(pos, valueLength);
      }
      return Err(value.error);
    }
    ValueFieldsRead(bd, order, p);
    AdvanceWraps(pos, valueLength);
    pos := valueEnd;
    var remains := Int32(bodyDataLength - pos);
    var flags := if remains > 0 then 1 else 0;
    r := Ok(UserVarEventBody([], 0, typeId, charsetId, Some(value.value), flags));
  }

  /** Once the last fixed read starts inside the body, all three fixed reads
      are the plain decodes of their slices. */
  lemma ValueFieldsRead(bodyData: seq<byte>, order: ByteOrder, p: int)
    requires 0 <= p && p + 9 <= |bodyData|
    ensures GetUnsignedIntegerAt(bodyData, p, p + 1, order) == Ok(bodyData[p] as int)
    ensures GetUnsignedIntegerAt(bodyData, p + 1, p + 5, order)
         == Ok(Int32(UnsignedNumber(bodyData[p + 1..p + 5], order).value))
    ensures GetUnsignedLongAt(bodyData, p + 5, p + 9, order) == UnsignedNumber(bodyData[p + 5..p + 9], order)
    ensures UnsignedNumber(bodyData[p + 5..p + 9], order).value < 0x1_0000_0000
  {
    CopyOfRangeInside(bodyData, p + 1, p + 5);
    UnsignedIntegerView(bodyData[p + 1..p + 5], order);
    assert Pow256(4) == 0x1_0000_0000;
  }

  /** A body holds at most one such event. */
  lemma UserVarEncodingUnique(ctx: BodyContext, a: UserVarEventBody, b: UserVarEventBody)
    requires UserVarEncodes(ctx, a) && UserVarEncodes(ctx, b)
    ensures a == b
  {
  }

  /** The flags byte marks trailing data: with a non-negative body data
      length, flags is 1 exactly when the value ends before it. */
  lemma FlagsMarkMoreData(ctx: BodyContext, e: UserVarEventBody)
    requires UserVarEncodes(ctx, e) && e.isNull == 0 && ctx.BodyDataLength() >= 0
    ensures var p := NameEnd(ctx.bodyData, ctx.order) + 1;
      var m := UnsignedNumber(ctx.bodyData[p + 5..p + 9], ctx.order).value;
      e.flags == 1 <==> p + 9 + m < ctx.BodyDataLength()
  {
    var p := NameEnd(ctx.bodyData, ctx.order) + 1;
    var m := UnsignedNumber(ctx.bodyData[p + 5..p + 9], ctx.order).value;
    Int32Identity(ctx.BodyDataLength() - (p + 9 + m));
  }

  /** getValueType(type): the name of an Item_result type number. */
  function ValueType(t: int): (r: string)
    ensures r == "UNKNOWN_TYPE" <==> !(0 <= t <= 5)
    ensures 0 <= t <= 4 ==> |r| > 5 && r[|r| - 5..] == "_TYPE"
  {
    match t
    case 0 => "STRING_TYPE"
    case 1 => "REAL_TYPE"
    case 2 => "INT_TYPE"
    case 3 => "ROW_TYPE"
    case 4 => "DECIMAL_TYPE"
    case 5 => "VALUE_TYPE_COUNT"
    case _ => "UNKNOWN_TYPE"
  }

  /** Different type numbers with names have different names. */
  lemma ValueTypeInjective(a: int, b: int)
    requires 0 <= a <= 5 && 0 <= b <= 5 && a != b
    ensures ValueType(a) != ValueType(b)
  {
    var ra, rb := ValueType(a), ValueType(b);
    assert ra[0] != rb[0] || |ra| != |rb|;
  }
}
