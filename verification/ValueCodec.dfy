/** serialize_to, deserialize_from and get_serialized_size: src/dimserver/common/value.cpp
    (lines 41-188). */
module ValueCodec {
  import opened Options
  import opened Bytes
  import opened CharString
  import opened Value

  datatype Error =
    | BAD_VARIANT   // std::get on another alternative
    | TYPE_MISMATCH // the stored type is not the expected one
    | INVALID_TYPE  // no such type to read
    | OVERREAD      // the source reads past the end of the buffer

  datatype Result<+T> = Ok(value: T) | Err(error: Error)

  // ---------- Format ----------

  /** Type and null flag. */
  function Header(v: Value): (b: seq<Byte>)
    ensures |b| == 5
  {
    EncodeInt32(v.type_.Code()) + EncodeBool(v.isNull)
  }

  function EncodeBool(b: bool): seq<Byte> {
    [if b then 1 else 0]
  }

  /** A length that does not fit 32 bits is cut, and the characters with it. */
  function EncodeString(s: seq<Byte>): seq<Byte> {
    EncodeLE(|s| % TWO_32, 4) + s[..|s| % TWO_32]
  }

  /** The alternative get_integer and the like ask for. */
  predicate Fits(t: Type, d: Data) {
    match t
    case INTEGER => d.IntData?
    case FLOAT => d.FloatData?
    case VARCHAR => d.StringData?
    case BOOLEAN => d.BoolData?
    case TIMESTAMP => d.LongData?
    case CHAR => d.CharData?
    case _ => true
  }

  /** What follows the header; UNDEFINED and MAX_TYPE write nothing. */
  function Payload(v: Value): seq<Byte>
    requires v.isNull || Fits(v.type_, v.data)
  {
    if v.isNull then []
    else
      match v.type_
      case INTEGER => EncodeInt32(v.data.i)
      case FLOAT => EncodeLE(v.data.f, 4)
      case VARCHAR => EncodeString(v.data.s)
      case BOOLEAN => EncodeBool(v.data.b)
      case TIMESTAMP => EncodeInt64(v.data.l)
      case CHAR => EncodeString(v.data.c.data)
      case _ => []
  }

  function Encoded(v: Value): seq<Byte>
    requires v.isNull || Fits(v.type_, v.data)
  {
    Header(v) + Payload(v)
  }

  /** get_serialized_size, in 32-bit arithmetic. */
  function SerializedSize(v: Value): Result<nat> {
    if v.isNull then Ok(5)
    else
      match v.type_
      case INTEGER => Ok(9)
      case FLOAT => Ok(9)
      case BOOLEAN => Ok(6)
      case VARCHAR => if v.data.StringData? then Ok((5 + 4 + |v.data.s|) % TWO_32) else Err(BAD_VARIANT)
      case TIMESTAMP => Ok(13)
      case CHAR => if v.data.CharData? then Ok((5 + 4 + |v.data.c.data|) % TWO_32) else Err(BAD_VARIANT)
      case _ => Ok(5)
  }

  /** The characters of a VARCHAR or CHAR value. */
  function Length(v: Value): nat {
    if v.isNull then 0
    else if v.type_ == VARCHAR && v.data.StringData? then |v.data.s|
    else if v.type_ == CHAR && v.data.CharData? then |v.data.c.data|
    else 0
  }

  // ---------- Reading ----------

  /** deserialize_from.  The CHAR constructor looks for a NUL in the memory behind the length. */
  function Decode(buf: seq<Byte>, type_: Type): Result<Value> {
    if |buf| < 4 then Err(OVERREAD)
    else if DecodeInt32(buf[..4]) != type_.Code() then Err(TYPE_MISMATCH)
    else if |buf| < 5 then Err(OVERREAD)
    else if buf[4] != 0 then Ok(Value(type_, true, IntData(0)))
    else DecodePayload(buf[5..], type_)
  }

  function DecodePayload(b: seq<Byte>, type_: Type): Result<Value> {
    match type_
    case INTEGER => if |b| < 4 then Err(OVERREAD) else Ok(Value(type_, false, IntData(DecodeInt32(b[..4]))))
    case FLOAT => if |b| < 4 then Err(OVERREAD) else Ok(Value(type_, false, FloatData(DecodeUInt32(b[..4]))))
    case BOOLEAN => if |b| < 1 then Err(OVERREAD) else Ok(Value(type_, false, BoolData(b[0] != 0)))
    case VARCHAR =>
      if |b| < 4 then Err(OVERREAD)
      else
        var n := DecodeUInt32(b[..4]);
        if |b| < 4 + n then Err(OVERREAD) else Ok(Value(type_, false, StringData(b[4..4 + n])))
    case TIMESTAMP => if |b| < 8 then Err(OVERREAD) else Ok(Value(type_, false, LongData(DecodeInt64(b[..8]))))
    case CHAR =>
      if |b| < 4 then Err(OVERREAD)
      else
        var n := DecodeUInt32(b[..4]);
        if |b| < 4 + n then Err(OVERREAD) else Ok(Value(type_, false, CharData(CharString(Padded(b[4..], n)))))
    case _ => Err(INVALID_TYPE)
  }

  function DecodeUInt32(b: seq<Byte>): (n: int)
    requires |b| == 4
    ensures 0 <= n < TWO_32
  {
    DecodeLEBound(b);
    Widths();
    DecodeLE(b)
  }

  // ---------- Round trip ----------

  /** A value of a type that is written with a payload. */
  predicate Defined(t: Type) {
    t != UNDEFINED && t != MAX_TYPE
  }

  /** What survives: lengths below 2^32, and no NUL in a CHAR. */
  predicate Survives(v: Value) {
    Length(v) < TWO_32 && (v.type_ == CHAR && v.data.CharData? ==> NUL !in v.data.c.data)
  }

  lemma HeaderReads(v: Value, rest: seq<Byte>)
    ensures var b := Header(v) + rest;
            DecodeInt32(b[..4]) == v.type_.Code() && (b[4] != 0 <==> v.isNull) && b[5..] == rest
  {
    var b := Header(v) + rest;
    assert b[..4] == EncodeInt32(v.type_.Code());
    IntRoundTrips(v.type_.Code(), 0);
  }

  lemma UInt32RoundTrip(n: int)
    requires 0 <= n < TWO_32
    ensures DecodeUInt32(EncodeLE(n, 4)) == n
  {
    Widths();
    LittleEndianRoundTrip(n, 4);
  }

  lemma StringReads(s: seq<Byte>, rest: seq<Byte>)
    ensures var b, n := EncodeString(s) + rest, |s| % TWO_32;
            && |b| >= 4 + n && DecodeUInt32(b[..4]) == n
            && b[4..4 + n] == s[..n] && b[4..] == s[..n] + rest
  {
    var b, n := EncodeString(s) + rest, |s| % TWO_32;
    assert b[..4] == EncodeLE(n, 4);
    UInt32RoundTrip(n);
  }

  lemma PayloadReads(v: Value, rest: seq<Byte>)
    requires !v.isNull && Defined(v.type_) && Fits(v.type_, v.data)
    ensures DecodePayload(Payload(v) + rest, v.type_) == Ok(v) <==> Survives(v)
    ensures DecodePayload(Payload(v) + rest, v.type_).Ok?
  {
    var b := Payload(v) + rest;
    match v.type_
    case INTEGER =>
      assert b[..4] == EncodeInt32(v.data.i);
      IntRoundTrips(v.data.i, 0);
    case FLOAT =>
      assert b[..4] == EncodeLE(v.data.f, 4);
      UInt32RoundTrip(v.data.f);
    case BOOLEAN =>
    case VARCHAR =>
      StringReads(v.data.s, rest);
      if |v.data.s| < TWO_32 {
        assert v.data.s[..|v.data.s|] == v.data.s;
      }
    case TIMESTAMP =>
      assert b[..8] == EncodeInt64(v.data.l);
      IntRoundTrips(0, v.data.l);
    case CHAR =>
      CharReads(v.data.c.data, rest);
  }

  lemma CharReads(s: seq<Byte>, rest: seq<Byte>)
    ensures var b, n := EncodeString(s) + rest, |s| % TWO_32;
            && |b| >= 4 + n && DecodeUInt32(b[..4]) == n
            && (Padded(b[4..], n) == s <==> |s| < TWO_32 && NUL !in s)
  {
    StringReads(s, rest);
    if |s| < TWO_32 {
      assert s[..|s|] == s;
      if NUL in s {
        PaddedLoses(s, rest);
      } else {
        PaddedKeeps(s, rest);
      }
    }
  }

  /** deserialize_from undoes serialize_to exactly for the non-null values that survive, whatever bytes
      follow the record. */
  lemma RoundTripExactly(v: Value, rest: seq<Byte>)
    requires !v.isNull && Defined(v.type_) && Fits(v.type_, v.data)
    ensures Decode(Encoded(v) + rest, v.type_) == Ok(v) <==> Survives(v)
  {
    assert Encoded(v) + rest == Header(v) + (Payload(v) + rest);
    HeaderReads(v, Payload(v) + rest);
    PayloadReads(v, rest);
  }

  /** A null value comes back as a null value that is == to it, whatever it held before. */
  lemma NullRoundTrip(v: Value, rest: seq<Byte>)
    requires v.isNull
    ensures Decode(Encoded(v) + rest, v.type_) == Ok(Value(v.type_, true, IntData(0)))
    ensures Equal(Decode(Encoded(v) + rest, v.type_).value, v)
  {
    assert Encoded(v) + rest == Header(v) + rest;
    HeaderReads(v, rest);
  }

  /** A non-null UNDEFINED or MAX_TYPE value is written but cannot be read. */
  lemma UndefinedIsNotRead(v: Value, rest: seq<Byte>)
    requires !v.isNull && !Defined(v.type_)
    ensures Decode(Encoded(v) + rest, v.type_) == Err(INVALID_TYPE)
  {
    assert Encoded(v) + rest == Header(v) + rest;
    HeaderReads(v, rest);
  }

  /** A record read as another type is refused. */
  lemma OtherTypeIsRefused(v: Value, t: Type, rest: seq<Byte>)
    requires v.isNull || Fits(v.type_, v.data)
    requires t != v.type_
    ensures Decode(Encoded(v) + rest, t) == Err(TYPE_MISMATCH)
  {
    assert Encoded(v) + rest == Header(v) + (Payload(v) + rest);
    HeaderReads(v, Payload(v) + rest);
    TypeCodesDiffer(t, v.type_);
  }

  /** A record cut anywhere: reading it runs over the end, unless the type is still there and is another one
      than expected. */
  lemma CutRecord(v: Value, t: Type, n: nat)
    requires (v.isNull || Fits(v.type_, v.data)) && n < |Encoded(v)|
    ensures Decode(Encoded(v)[..n], t) == Err(if n >= 4 && t != v.type_ then TYPE_MISMATCH else OVERREAD)
  {
    hide EncodeInt32, EncodeInt64, EncodeLE, DecodeInt32, DecodeInt64, Padded;
    var buf, p := Encoded(v)[..n], Payload(v);
    HeaderReads(v, p);
    TypeCodesDiffer(t, v.type_);
    if n >= 4 {
      assert buf[..4] == Encoded(v)[..4];
    }
    if n >= 5 && t == v.type_ {
      assert buf[4] == Encoded(v)[4] && buf[5..] == p[..n - 5];
      CutPayload(v, n - 5);
    }
  }

  lemma CutPayload(v: Value, n: nat)
    requires !v.isNull && Fits(v.type_, v.data) && n < |Payload(v)|
    ensures DecodePayload(Payload(v)[..n], v.type_) == Err(OVERREAD)
  {
    hide EncodeInt32, EncodeInt64, EncodeLE, DecodeInt32, DecodeInt64, Padded;
    if n >= 4 && (v.type_ == VARCHAR || v.type_ == CHAR) {
      var s := if v.type_ == VARCHAR then v.data.s else v.data.c.data;
      StringReads(s, []);
      assert EncodeString(s) + [] == EncodeString(s);
      assert Payload(v)[..n][..4] == EncodeString(s)[..4];
    }
  }

  lemma RoomAfterCut(n: nat)
    ensures (9 + n) % TWO_32 == 9 + n % TWO_32 <==> n % TWO_32 < TWO_32 - 9
  {
    var q, r := n / TWO_32, n % TWO_32;
    assert n == q * TWO_32 + r;
    if r < TWO_32 - 9 {
      assert (9 + r + q * TWO_32) % TWO_32 == 9 + r;
    }
  }

  /** get_serialized_size is what serialize_to writes exactly when the cut length still leaves room for
      the nine bytes before the characters. */
  lemma SizeIsExactly(v: Value)
    requires v.isNull || Fits(v.type_, v.data)
    ensures SerializedSize(v) == Ok(|Encoded(v)|) <==> Length(v) % TWO_32 < TWO_32 - 9
  {
    RoomAfterCut(Length(v));
    hide EncodeInt32, EncodeInt64, EncodeLE;
  }

  /** The bytes of one value of each type: four for the type, one for the null flag, then the payload. */
  lemma NumberBytes()
    ensures Encoded(Value(INTEGER, false, IntData(-2))) == [1, 0, 0, 0, 0, 254, 255, 255, 255]
    ensures Encoded(Value(FLOAT, false, FloatData(0x3F80_0001))) == [2, 0, 0, 0, 0, 1, 0, 128, 63]
    ensures Encoded(Value(TIMESTAMP, false, LongData(258))) == [5, 0, 0, 0, 0, 2, 1, 0, 0, 0, 0, 0, 0]
    ensures Encoded(Value(BOOLEAN, false, BoolData(true))) == [4, 0, 0, 0, 0, 1]
  {
    hide EncodeLE;
    SmallBytes();
    FourBytes(0xFFFF_FFFE);
    FourBytes(0x3F80_0001);
    FourBytes(258);
    EightBytes(258);
  }

  lemma OtherBytes()
    ensures Encoded(Value(VARCHAR, false, StringData([97, 98]))) == [3, 0, 0, 0, 0, 2, 0, 0, 0, 97, 98]
    ensures Encoded(Value(CHAR, false, CharData(CharString([97, 32])))) == [6, 0, 0, 0, 0, 2, 0, 0, 0, 97, 32]
    ensures Encoded(Value(BOOLEAN, true, BoolData(true))) == [4, 0, 0, 0, 1]
    ensures Encoded(Value(UNDEFINED, false, IntData(7))) == [0, 0, 0, 0, 0]
    ensures Encoded(Value(MAX_TYPE, false, IntData(7))) == [7, 0, 0, 0, 0]
  {
    hide EncodeLE;
    SmallBytes();
  }

  lemma SmallBytes()
    ensures forall n :: 0 <= n < 8 ==> EncodeLE(n, 4) == [n, 0, 0, 0]
  {
    forall n | 0 <= n < 8 ensures EncodeLE(n, 4) == [n, 0, 0, 0] {
      FourBytes(n);
    }
  }

  /** get_serialized_size throws exactly for a VARCHAR or CHAR value that holds another alternative. */
  lemma SizeThrowsExactly(v: Value)
    ensures SerializedSize(v) == Err(BAD_VARIANT) <==>
            !v.isNull && (v.type_ == VARCHAR || v.type_ == CHAR) && !Fits(v.type_, v.data)
    ensures !v.isNull && !Fits(v.type_, v.data) && SerializedSize(v).Ok? ==>
              SerializedSize(v).value == 5 + match v.type_ case BOOLEAN => 1 case TIMESTAMP => 8 case _ => 4
  {
  }

  // ---------- The program's steps ----------

  method Memcpy(buf: array<Byte>, offset: nat, src: seq<Byte>)
    requires offset + |src| <= buf.Length
    modifies buf
    ensures buf[..] == old(buf[..offset]) + src + old(buf[offset + |src|..])
  {
    for i := 0 to |src|
      invariant buf[..] == old(buf[..offset]) + src[..i] + old(buf[offset + i..])
    {
      buf[offset + i] := src[i];
      assert src[..i + 1] == src[..i] + [src[i]];
    }
  }

  /** Length and characters. */
  method WriteString(buf: array<Byte>, offset: nat, s: seq<Byte>)
    requires offset + |EncodeString(s)| <= buf.Length
    modifies buf
    ensures buf[..] == old(buf[..offset]) + EncodeString(s) + old(buf[offset + |EncodeString(s)|..])
  {
    var len := |s| % TWO_32;
    Memcpy(buf, offset, EncodeLE(len, 4));
    Memcpy(buf, offset + 4, s[..len]);
  }

  method WritePayload(buf: array<Byte>, offset: nat, v: Value)
    requires !v.isNull && Fits(v.type_, v.data) && offset + |Payload(v)| <= buf.Length
    modifies buf
    ensures buf[..] == old(buf[..offset]) + Payload(v) + old(buf[offset + |Payload(v)|..])
  {
    hide EncodeString, EncodeInt32, EncodeInt64, EncodeLE;
    match v.type_ {
      case INTEGER => Memcpy(buf, offset, EncodeInt32(v.data.i));
      case FLOAT => Memcpy(buf, offset, EncodeLE(v.data.f, 4));
      case BOOLEAN => Memcpy(buf, offset, EncodeBool(v.data.b));
      case VARCHAR => WriteString(buf, offset, v.data.s);
      case TIMESTAMP => Memcpy(buf, offset, EncodeInt64(v.data.l));
      case CHAR => WriteString(buf, offset, v.data.c.data);
      case _ => assert buf[..] == buf[..offset] + [] + buf[offset..];
    }
  }

  /** serialize_to: nothing behind the record is touched; a value whose alternative does not fit its type
      throws after the header is written. */
  method SerializeTo(v: Value, buf: array<Byte>) returns (error: Option<Error>)
    requires buf.Length >= if v.isNull || Fits(v.type_, v.data) then |Encoded(v)| else 5
    modifies buf
    ensures v.isNull || Fits(v.type_, v.data) ==>
              error == None && buf[..] == Encoded(v) + old(buf[|Encoded(v)|..])
    ensures !v.isNull && !Fits(v.type_, v.data) ==>
              error == Some(BAD_VARIANT) && buf[..] == Header(v) + old(buf[5..])
  {
    var offset := 0;
    Memcpy(buf, offset, EncodeInt32(v.type_.Code()));
    offset := offset + 4;
    Memcpy(buf, offset, EncodeBool(v.isNull));
    offset := offset + 1;
    assert buf[..] == Header(v) + old(buf[5..]);
    hide Header;
    if v.isNull {
      return None;
    }
    hide Payload;
    if !Fits(v.type_, v.data) {
      return Some(BAD_VARIANT);
    }
    WritePayload(buf, offset, v);
    error := None;
  }

  /** deserialize_from */
  method DeserializeFrom(buf: array<Byte>, type_: Type) returns (r: Result<Value>)
    ensures r == Decode(buf[..], type_)
  {
    var offset := 0;
    if buf.Length < offset + 4 {
      return Err(OVERREAD);
    }
    var stored := DecodeInt32(buf[offset..offset + 4]);
    assert buf[0..4] == buf[..][..4];
    offset := offset + 4;
    if stored != type_.Code() {
      return Err(TYPE_MISMATCH);
    }
    if buf.Length < offset + 1 {
      return Err(OVERREAD);
    }
    var isNull := buf[offset] != 0;
    offset := offset + 1;
    if isNull {
      return Ok(DEFAULT.(type_ := type_, isNull := true));
    }
    assert buf[offset..] == buf[..][5..];
    r := ReadPayload(buf[offset..], type_);
  }

  method ReadPayload(b: seq<Byte>, type_: Type) returns (r: Result<Value>)
    ensures r == DecodePayload(b, type_)
  {
    match type_ {
      case INTEGER =>
        if |b| < 4 { return Err(OVERREAD); }
        r := Ok(Value(INTEGER, false, IntData(DecodeInt32(b[..4]))));
      case FLOAT =>
        if |b| < 4 { return Err(OVERREAD); }
        r := Ok(Value(FLOAT, false, FloatData(DecodeUInt32(b[..4]))));
      case BOOLEAN =>
        if |b| < 1 { return Err(OVERREAD); }
        r := Ok(Value(BOOLEAN, false, BoolData(b[0] != 0)));
      case VARCHAR =>
        if |b| < 4 { return Err(OVERREAD); }
        var len := DecodeUInt32(b[..4]);
        if |b| < 4 + len { return Err(OVERREAD); }
        r := Ok(Value(VARCHAR, false, StringData(b[4..4 + len])));
      case TIMESTAMP =>
        if |b| < 8 { return Err(OVERREAD); }
        r := Ok(Value(TIMESTAMP, false, LongData(DecodeInt64(b[..8]))));
      case CHAR =>
        if |b| < 4 { return Err(OVERREAD); }
        var size := DecodeUInt32(b[..4]);
        if |b| < 4 + size { return Err(OVERREAD); }
        var c := FromMemory(b[4..], size);
        r := Ok(Value(CHAR, false, CharData(c)));
      case _ =>
        r := Err(INVALID_TYPE);
    }
  }
}
