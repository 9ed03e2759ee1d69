/**
 The wire format: sections "Base 128 Varints", "Message Structure" and
 "Length-Delimited Records" of the Protocol Buffers Encoding specification,
 with the limits that parse_context.h puts on tags, varints and sizes.
 */
module Wire {
  import opened Common
  import Bits

  /** Largest size ReadSize accepts: INT_MAX - kSlopBytes. */
  const MAX_LEN: nat := 0x7FFF_FFFF - 16
  /** Field numbers occupy the 29 bits of a tag above its wire type. */
  const MAX_NUMBER: nat := 0x1FFF_FFFF

  const WT_VARINT := 0
  const WT_FIXED64 := 1
  const WT_LEN := 2
  const WT_END_GROUP := 4
  const WT_FIXED32 := 5

  // ---------------------------------------------------------------- varints

  function EncodeVarint(v: nat): (r: Str)
    ensures |r| >= 1
  {
    if v < 128 then [v] else [128 + v % 128] + EncodeVarint(v / 128)
  }

  datatype Varint = Varint(value: nat, length: nat)

  /** The varint at the front of b, if it ends within its first `most` bytes. */
  function RawVarint(b: Str, most: nat): (r: Option<Varint>)
    ensures r.Some? ==> 1 <= r.value.length <= |b| && r.value.length <= most
    decreases |b|
  {
    if most == 0 || b == [] then None
    else if b[0] < 128 then Some(Varint(b[0], 1))
    else
      match RawVarint(b[1..], most - 1)
      case None => None
      case Some(t) => Some(Varint(b[0] - 128 + 128 * t.value, t.length + 1))
  }

  lemma {:induction false} RawVarintOfEncoded(v: nat, rest: Str, most: nat)
    requires |EncodeVarint(v)| <= most
    ensures RawVarint(EncodeVarint(v) + rest, most) == Some(Varint(v, |EncodeVarint(v)|))
  {
    if v >= 128 {
      RawVarintOfEncoded(v / 128, rest, most - 1);
      assert (EncodeVarint(v) + rest)[1..] == EncodeVarint(v / 128) + rest;
    }
  }

  /** What base-128 digits denote, the least significant first. */
  function Base128(b: Str): nat {
    if b == [] then 0 else b[0] % 128 + 128 * Base128(b[1..])
  }

  /** The encoding of a number: its digits in base 128, low ones first, the high bit set on all but the last, and none to spare. */
  lemma {:induction false} VarintIsBase128(v: nat)
    ensures var b := EncodeVarint(v);
            && Base128(b) == v
            && (forall i :: 0 <= i < |b| ==> (b[i] >= 128 <==> i < |b| - 1))
            && (|b| > 1 ==> b[|b| - 1] != 0)
  {
    if v >= 128 {
      VarintIsBase128(v / 128);
      assert EncodeVarint(v)[1..] == EncodeVarint(v / 128);
      HighBit(v % 128);
    } else {
      assert EncodeVarint(v)[1..] == [];
    }
  }

  lemma HighBit(digit: nat)
    requires digit < 128
    ensures (128 + digit) % 128 == digit
  {
  }

  /** Octets that all announce another one are no varint. */
  lemma {:induction false} NoEndInSight(b: Str, most: nat)
    requires |b| >= most && forall i :: 0 <= i < most ==> b[i] >= 128
    ensures RawVarint(b, most) == None
    decreases most
  {
    if most > 0 {
      NoEndInSight(b[1..], most - 1);
    }
  }

  /** value | 0x1 */
  function OrOne(v: nat): nat {
    if v % 2 == 0 then v + 1 else v
  }

  /** VarintSize64: the byte count as a multiplication and a division of the bit length. */
  function VarintSize(v: nat): nat {
    (Bits.Log2Floor(OrOne(v)) * 9 + 73) / 64
  }

  lemma {:induction false} EncodedLength(v: nat)
    ensures |EncodeVarint(v)| == Bits.Log2Floor(OrOne(v)) / 7 + 1
  {
    var w := OrOne(v);
    if v < 128 {
      Bits.Log2FloorBelow(w, 7);
    } else {
      EncodedLength(v / 128);
      ShiftSeven(w);
      Log2OfOdd(v / 128);
      Log2OfOdd(v);
      ShiftSeven(v);
    }
  }

  lemma ShiftSeven(w: nat)
    requires w >= 128
    ensures Bits.Log2Floor(w) == 7 + Bits.Log2Floor(w / 128)
  {
    var a, b, c := w / 2, w / 4, w / 8;
    var d, e, f := w / 16, w / 32, w / 64;
    assert b == a / 2 && c == b / 2 && d == c / 2 && e == d / 2 && f == e / 2 && w / 128 == f / 2;
    assert Bits.Log2Floor(w) == 1 + Bits.Log2Floor(a);
    assert Bits.Log2Floor(a) == 1 + Bits.Log2Floor(b);
    assert Bits.Log2Floor(b) == 1 + Bits.Log2Floor(c);
    assert Bits.Log2Floor(c) == 1 + Bits.Log2Floor(d);
    assert Bits.Log2Floor(d) == 1 + Bits.Log2Floor(e);
    assert Bits.Log2Floor(e) == 1 + Bits.Log2Floor(f);
  }

  lemma Log2OfOdd(v: nat)
    requires v >= 1
    ensures Bits.Log2Floor(OrOne(v)) == Bits.Log2Floor(v)
  {
    if v % 2 == 0 {
      assert (v + 1) / 2 == v / 2;
    }
  }

  lemma SizeFormula(log2: nat)
    requires log2 < 64
    ensures (log2 * 9 + 73) / 64 == log2 / 7 + 1 <= 10
    ensures log2 < 32 ==> log2 / 7 + 1 <= 5
  {
    assert log2 == 7 * (log2 / 7) + log2 % 7;
  }

  lemma BitLength(v: Uint64)
    ensures Bits.Log2Floor(OrOne(v)) < 64
    ensures v < TWO_32 ==> Bits.Log2Floor(OrOne(v)) < 32
  {
    Bits.Pow2At();
    Bits.Log2FloorBelow(OrOne(v), 64);
    if v < TWO_32 {
      Bits.Log2FloorBelow(OrOne(v), 32);
    }
  }

  /** The fast size formula counts exactly the bytes the encoder writes, for every 64-bit value. */
  lemma VarintSizeIsEncodedLength(v: Uint64)
    ensures VarintSize(v) == |EncodeVarint(v)| <= 10
    ensures v < TWO_32 ==> |EncodeVarint(v)| <= 5
  {
    BitLength(v);
    EncodedLength(v);
    SizeFormula(Bits.Log2Floor(OrOne(v)));
  }

  /** Sign extension: a negative int32 travels as the two's complement of its 64-bit form. */
  function SignExtend(v: Int32): Uint64 {
    if v < 0 then TWO_64 + v else v
  }

  /** static_cast<int32_t> of the low 32 bits. */
  function LowInt32(v: nat): Int32 {
    var low := Truncate(v, TWO_32);
    if low < TWO_31 then low else low - TWO_32
  }

  lemma LowInt32OfSignExtend(v: Int32)
    ensures LowInt32(SignExtend(v)) == v
  {
    if v < 0 {
      assert TWO_64 + v == TWO_32 * (TWO_32 - 1) + (TWO_32 + v);
      assert (TWO_64 + v) % TWO_32 == TWO_32 + v;
    }
  }

  /** The cast keeps the low 32 bits of any number. */
  lemma LowInt32Is(v: nat)
    ensures (LowInt32(v) - v) % TWO_32 == 0
  {
    var low := v % TWO_32;
    assert v == TWO_32 * (v / TWO_32) + low;
    assert LowInt32(v) == if low < TWO_31 then low else low - TWO_32;
  }

  // ------------------------------------------------------------------ fields

  datatype Payload =
    | Varint64(v: Uint64)
    | Fixed64(raw8: Str)
    | Delimited(bytes: Str)
    | Fixed32(raw4: Str)

  /** One key/value record of a message. */
  datatype Field = Field(number: nat, payload: Payload)

  predicate WireableField(f: Field) {
    && 1 <= f.number <= MAX_NUMBER
    && match f.payload
       case Varint64(_) => true
       case Fixed64(raw) => |raw| == 8
       case Delimited(bytes) => |bytes| <= MAX_LEN
       case Fixed32(raw) => |raw| == 4
  }

  predicate WireableFields(fs: seq<Field>) {
    forall f :: f in fs ==> WireableField(f)
  }

  function WireType(p: Payload): nat {
    match p
    case Varint64(_) => WT_VARINT
    case Fixed64(_) => WT_FIXED64
    case Delimited(_) => WT_LEN
    case Fixed32(_) => WT_FIXED32
  }

  function TagOf(f: Field): nat {
    f.number * 8 + WireType(f.payload)
  }

  function EncodePayload(p: Payload): Str {
    match p
    case Varint64(v) => EncodeVarint(v)
    case Fixed64(raw) => raw
    case Delimited(bytes) => EncodeVarint(|bytes|) + bytes
    case Fixed32(raw) => raw
  }

  function EncodeField(f: Field): (r: Str)
    ensures r != []
  {
    EncodeVarint(TagOf(f)) + EncodePayload(f.payload)
  }

  function EncodeFields(fs: seq<Field>): Str {
    if fs == [] then [] else EncodeField(fs[0]) + EncodeFields(fs[1..])
  }

  /** v modulo the width of an unsigned integer of that many values. */
  function Truncate(v: nat, width: nat): (r: nat)
    requires width > 0
    ensures r < width
  {
    if v < width then v else v % width
  }

  /** ReadTag: at most five bytes, truncated to 32 bits. */
  function ReadTag(b: Str): (r: Option<Varint>)
    ensures r.Some? ==> 1 <= r.value.length <= |b| && r.value.value < TWO_32
  {
    match RawVarint(b, 5)
    case None => None
    case Some(t) => Some(Varint(Truncate(t.value, TWO_32), t.length))
  }

  /** VarintParse<uint64_t>: at most ten bytes, truncated to 64 bits. */
  function ReadVarint64(b: Str): (r: Option<Varint>)
    ensures r.Some? ==> 1 <= r.value.length <= |b| && r.value.value < TWO_64
  {
    match RawVarint(b, 10)
    case None => None
    case Some(t) => Some(Varint(Truncate(t.value, TWO_64), t.length))
  }

  /** A size prefix and the bytes it announces; ReadSize refuses more than MAX_LEN. */
  function ReadDelimited(b: Str): (r: Option<(Str, nat)>)
    ensures r.Some? ==> 1 <= r.value.1 <= |b| && |r.value.0| <= MAX_LEN
  {
    match RawVarint(b, 5)
    case None => None
    case Some(t) =>
      if t.value > MAX_LEN || t.length + t.value > |b| then None
      else Some((b[t.length..t.length + t.value], t.length + t.value))
  }

  /** The value part of a record whose tag announced wire type wt, and how many bytes it took. */
  function ReadPayload(wt: nat, b: Str): (r: Option<(Payload, nat)>)
    ensures r.Some? ==> r.value.1 <= |b| && WireType(r.value.0) == wt
  {
    if wt == WT_VARINT then
      match ReadVarint64(b)
      case None => None
      case Some(t) => Some((Varint64(t.value), t.length))
    else if wt == WT_FIXED64 then
      if |b| < 8 then None else Some((Fixed64(b[..8]), 8))
    else if wt == WT_LEN then
      match ReadDelimited(b)
      case None => None
      case Some(d) => Some((Delimited(d.0), d.1))
    else if wt == WT_FIXED32 then
      if |b| < 4 then None else Some((Fixed32(b[..4]), 4))
    else None
  }

  /** A tag, split into the field number and the wire type. */
  datatype Key = Key(number: nat, wt: nat, length: nat)

  function ReadKey(b: Str): (r: Option<Key>)
    ensures r.Some? ==> 1 <= r.value.length <= |b| && r.value.number <= MAX_NUMBER
  {
    match ReadTag(b)
    case None => None
    case Some(t) => Some(Key(t.value / 8, t.value % 8, t.length))
  }

  /**
   The first record of b and its length. Tag zero, field number zero, an
   end-group tag and the wire types 3, 6 and 7 yield None.
   */
  function ReadField(b: Str): (r: Option<(Field, nat)>)
    ensures r.Some? ==> 1 <= r.value.1 <= |b| && WireableField(r.value.0)
  {
    match ReadKey(b)
    case None => None
    case Some(k) =>
      if k.number == 0 then None
      else
        match ReadPayload(k.wt, b[k.length..])
        case None => None
        case Some(p) => Some((Field(k.number, p.0), k.length + p.1))
  }

  /** Tags and sizes end within five octets, integers within ten. */
  lemma ReadersGiveUp(b: Str)
    ensures |b| >= 5 && (forall i :: 0 <= i < 5 ==> b[i] >= 128) ==> ReadTag(b) == None && ReadDelimited(b) == None
    ensures |b| >= 10 && (forall i :: 0 <= i < 10 ==> b[i] >= 128) ==> ReadVarint64(b) == None
  {
    if |b| >= 5 && forall i :: 0 <= i < 5 ==> b[i] >= 128 {
      NoEndInSight(b, 5);
    }
    if |b| >= 10 && forall i :: 0 <= i < 10 ==> b[i] >= 128 {
      NoEndInSight(b, 10);
    }
    hide RawVarint;
  }

  lemma ReadTagOfVarint(tag: Uint64, rest: Str)
    requires tag < TWO_32
    ensures ReadTag(EncodeVarint(tag) + rest) == Some(Varint(tag, |EncodeVarint(tag)|))
  {
    VarintSizeIsEncodedLength(tag);
    RawVarintOfEncoded(tag, rest, 5);
  }

  lemma ReadKeyOfEncoded(f: Field, rest: Str)
    requires 1 <= f.number <= MAX_NUMBER
    ensures ReadKey(EncodeVarint(TagOf(f)) + rest)
         == Some(Key(f.number, WireType(f.payload), |EncodeVarint(TagOf(f))|))
  {
    ReadTagOfVarint(TagOf(f), rest);
    SplitTag(f.number, WireType(f.payload));
  }

  lemma ReadFieldOfEncoded(f: Field, rest: Str)
    requires WireableField(f)
    ensures ReadField(EncodeField(f) + rest) == Some((f, |EncodeField(f)|))
  {
    ReadKeyOfEncoded(f, EncodePayload(f.payload) + rest);
    ReadPayloadOfEncoded(f.payload, rest);
    ReadFieldOfPieces(f, EncodeVarint(TagOf(f)), EncodePayload(f.payload), rest);
  }

  lemma ReadFieldOfPieces(f: Field, key: Str, body: Str, rest: Str)
    requires f.number > 0
    requires ReadKey(key + (body + rest)) == Some(Key(f.number, WireType(f.payload), |key|))
    requires ReadPayload(WireType(f.payload), body + rest) == Some((f.payload, |body|))
    ensures ReadField(key + body + rest) == Some((f, |key + body|))
  {
    hide ReadKey, ReadPayload;
    Associates(key, body, rest);
  }

  lemma SplitTag(number: nat, wt: nat)
    requires wt < 8
    ensures (number * 8 + wt) / 8 == number && (number * 8 + wt) % 8 == wt
  {
  }

  /** The generated switch compares the low byte of the tag; for one-byte tags that is the tag. */
  lemma OneByteTag(tag: nat)
    ensures tag / 8 < 32 ==> tag % 256 == tag
    ensures tag % 8 == tag - 8 * (tag / 8)
  {
  }

  lemma ReadPayloadOfEncoded(p: Payload, rest: Str)
    requires p.Fixed64? ==> |p.raw8| == 8
    requires p.Fixed32? ==> |p.raw4| == 4
    requires p.Delimited? ==> |p.bytes| <= MAX_LEN
    ensures ReadPayload(WireType(p), EncodePayload(p) + rest) == Some((p, |EncodePayload(p)|))
  {
    match p
    case Varint64(v) =>
      ReadVarint64OfEncoded(v, rest);
    case Delimited(bytes) =>
      ReadDelimitedOfEncoded(bytes, rest);
    case Fixed64(raw) =>
      assert (raw + rest)[..8] == raw;
    case Fixed32(raw) =>
      assert (raw + rest)[..4] == raw;
  }

  lemma ReadVarint64OfEncoded(v: Uint64, rest: Str)
    ensures ReadVarint64(EncodeVarint(v) + rest) == Some(Varint(v, |EncodeVarint(v)|))
  {
    VarintSizeIsEncodedLength(v);
    RawVarintOfEncoded(v, rest, 10);
  }

  lemma ReadDelimitedOfEncoded(bytes: Str, rest: Str)
    requires |bytes| <= MAX_LEN
    ensures ReadDelimited(EncodeVarint(|bytes|) + bytes + rest) == Some((bytes, |EncodeVarint(|bytes|) + bytes|))
  {
    var size := EncodeVarint(|bytes|);
    VarintSizeIsEncodedLength(|bytes|);
    RawVarintOfEncoded(|bytes|, bytes + rest, 5);
    Associates(size, bytes, rest);
    assert (size + bytes + rest)[|size|..|size| + |bytes|] == bytes;
  }

  // ------------------------------------------------------------ parse loops

  // ------------------------------------------------------ what is not accepted

  lemma {:induction false} ShortVarintIsRefused(v: nat, k: nat, most: nat)
    requires k < |EncodeVarint(v)|
    ensures RawVarint(EncodeVarint(v)[..k], most) == None
  {
    if v >= 128 && k > 0 && most > 0 {
      ShortVarintIsRefused(v / 128, k - 1, most - 1);
      assert EncodeVarint(v)[..k][1..] == EncodeVarint(v / 128)[..k - 1];
    }
  }

  lemma ShortPayloadIsRefused(p: Payload, k: nat)
    requires WireableField(Field(1, p)) && k < |EncodePayload(p)|
    ensures ReadPayload(WireType(p), EncodePayload(p)[..k]) == None
  {
    hide EncodeVarint, RawVarint;
    match p
    case Varint64(v) => ShortVarintIsRefused(v, k, 10);
    case Delimited(bytes) =>
      var size := EncodeVarint(|bytes|);
      if k < |size| {
        assert (size + bytes)[..k] == size[..k];
        ShortVarintIsRefused(|bytes|, k, 5);
      } else {
        assert (size + bytes)[..k] == size + bytes[..k - |size|];
        VarintSizeIsEncodedLength(|bytes|);
        RawVarintOfEncoded(|bytes|, bytes[..k - |size|], 5);
      }
    case _ =>
  }

  /** A record that breaks off is refused, wherever it breaks off. */
  lemma TruncatedIsRefused(f: Field, k: nat)
    requires WireableField(f) && k < |EncodeField(f)|
    ensures ReadField(EncodeField(f)[..k]) == None
  {
    hide EncodeVarint, RawVarint, EncodePayload, ReadPayload;
    var key, body := EncodeVarint(TagOf(f)), EncodePayload(f.payload);
    if k < |key| {
      assert (key + body)[..k] == key[..k];
      ShortVarintIsRefused(TagOf(f), k, 5);
    } else {
      assert (key + body)[..k] == key + body[..k - |key|];
      ReadKeyOfEncoded(f, body[..k - |key|]);
      assert (key + body[..k - |key|])[|key|..] == body[..k - |key|];
      ShortPayloadIsRefused(f.payload, k - |key|);
    }
  }

  /** Field number zero, and the wire types of groups and beyond, are refused. */
  lemma OtherTagsAreRefused(number: nat, wt: nat, rest: Str)
    requires number <= MAX_NUMBER && wt < 8 && (number == 0 || wt in {3, 4, 6, 7})
    ensures ReadField(EncodeVarint(number * 8 + wt) + rest) == None
  {
    ReadTagOfVarint(number * 8 + wt, rest);
    SplitTag(number, wt);
    hide EncodeVarint;
  }

  /**
   What one iteration of a generated parse loop does to the message: None is a
   failed CHK_. The type parameter is the message.
   */
  type Step<!M> = (M, Field) -> Option<M>

  /** The meaning of _InternalParse: records are applied in order until the bytes run out. */
  function Parse<M>(step: Step<M>, m: M, b: Str): Option<M>
    decreases |b|
  {
    if b == [] then Some(m)
    else
      match ReadField(b)
      case None => None
      case Some(r) =>
        match step(m, r.0)
        case None => None
        case Some(n) => Parse(step, n, b[r.1..])
  }

  lemma ParseReadsRecord<M>(step: Step<M>, m: M, b: Str)
    requires b != []
    ensures Parse(step, m, b)
         == match ReadField(b)
            case None => None
            case Some(r) =>
              match step(m, r.0)
              case None => None
              case Some(n) => Parse(step, n, b[r.1..])
  {
  }

  lemma ParseNothing<M>(step: Step<M>, m: M)
    ensures Parse(step, m, []) == Some(m)
  {
  }

  /** Parse, entered after the key of a record has been consumed. */
  function ParseAfterKey<M>(step: Step<M>, m: M, number: nat, wt: nat, body: Str): Option<M> {
    match ReadPayload(wt, body)
    case None => None
    case Some(p) =>
      match step(m, Field(number, p.0))
      case None => None
      case Some(n) => Parse(step, n, body[p.1..])
  }

  lemma ParseReadsKeyFirst<M>(step: Step<M>, m: M, b: Str)
    requires b != []
    ensures Parse(step, m, b)
         == match ReadKey(b)
            case None => None
            case Some(k) =>
              if k.number == 0 then None else ParseAfterKey(step, m, k.number, k.wt, b[k.length..])
  {
    hide ReadKey, ReadPayload;
    var k := ReadKey(b);
    if k.Some? && k.value.number != 0 {
      var tail := b[k.value.length..];
      var p := ReadPayload(k.value.wt, tail);
      if p.Some? {
        var f := Field(k.value.number, p.value.0);
        assert ReadField(b) == Some((f, k.value.length + p.value.1));
        assert tail[p.value.1..] == b[k.value.length + p.value.1..];
        hide ReadField;
        assert step(m, f).Some? ==>
            Parse(step, m, b) == Parse(step, step(m, f).value, b[k.value.length + p.value.1..]);
      }
    }
  }

  function ApplyAll<M>(step: Step<M>, m: M, fs: seq<Field>): Option<M> {
    if fs == [] then Some(m)
    else
      match step(m, fs[0])
      case None => None
      case Some(n) => ApplyAll(step, n, fs[1..])
  }

  /** Parsing what the encoder wrote applies exactly its records and then reads on. */
  lemma {:induction false} ParseOfEncoded<M>(step: Step<M>, m: M, fs: seq<Field>, rest: Str)
    requires WireableFields(fs)
    ensures Parse(step, m, EncodeFields(fs) + rest)
         == match ApplyAll(step, m, fs)
            case None => None
            case Some(n) => Parse(step, n, rest)
    decreases |fs|
  {
    if fs == [] {
      assert EncodeFields(fs) + rest == rest;
    } else {
      var head, tail := EncodeField(fs[0]), EncodeFields(fs[1..]);
      assert EncodeFields(fs) + rest == head + (tail + rest);
      ReadFieldOfEncoded(fs[0], tail + rest);
      assert (head + (tail + rest))[|head|..] == tail + rest;
      if step(m, fs[0]).Some? {
        ParseOfEncoded(step, step(m, fs[0]).value, fs[1..], rest);
      }
    }
  }

  lemma {:induction false} RawVarintExtends(b: Str, more: Str, most: nat)
    requires RawVarint(b, most).Some?
    ensures RawVarint(b + more, most) == RawVarint(b, most)
    decreases |b|
  {
    if b[0] >= 128 {
      assert (b + more)[1..] == b[1..] + more;
      RawVarintExtends(b[1..], more, most - 1);
    }
  }

  lemma ReadPayloadExtends(wt: nat, b: Str, more: Str)
    requires ReadPayload(wt, b).Some?
    ensures ReadPayload(wt, b + more) == ReadPayload(wt, b)
  {
    hide RawVarint;
    if wt == WT_VARINT {
      RawVarintExtends(b, more, 10);
    } else if wt == WT_LEN {
      RawVarintExtends(b, more, 5);
      var t := RawVarint(b, 5).value;
      assert (b + more)[t.length..t.length + t.value] == b[t.length..t.length + t.value];
    } else if wt == WT_FIXED64 {
      assert (b + more)[..8] == b[..8];
    } else {
      assert (b + more)[..4] == b[..4];
    }
  }

  /** A record read at the front of a buffer is read the same when more bytes follow. */
  lemma ReadFieldExtends(b: Str, more: Str)
    requires ReadField(b).Some?
    ensures ReadField(b + more) == ReadField(b)
  {
    RawVarintExtends(b, more, 5);
    hide RawVarint, ReadPayload;
    var k := ReadKey(b).value;
    assert ReadKey(b + more) == Some(k);
    assert (b + more)[k.length..] == b[k.length..] + more;
    ReadPayloadExtends(k.wt, b[k.length..], more);
  }

  /** Accepted bytes with more behind them: parsing goes on from what the accepted ones gave. */
  lemma {:induction false} ParseExtends<M>(step: Step<M>, m: M, b: Str, more: Str)
    requires Parse(step, m, b).Some?
    ensures Parse(step, m, b + more) == Parse(step, Parse(step, m, b).value, more)
    decreases |b|
  {
    if b == [] {
      assert b + more == more;
    } else {
      hide ReadField;
      ReadFieldExtends(b, more);
      var r := ReadField(b).value;
      assert (b + more)[r.1..] == b[r.1..] + more;
      ParseExtends(step, step(m, r.0).value, b[r.1..], more);
    }
  }

  /** One record that no message takes makes the whole sequence fail. */
  lemma {:induction false} RefusedRecord<M(!new)>(step: Step<M>, m: M, fs: seq<Field>, bad: Field)
    requires bad in fs && forall n :: step(n, bad) == None
    ensures ApplyAll(step, m, fs) == None
    decreases |fs|
  {
    if fs[0] != bad && step(m, fs[0]).Some? {
      RefusedRecord(step, step(m, fs[0]).value, fs[1..], bad);
    }
  }

  // ------------------------------------- a parse that runs into what follows

  predicate EndsInNul(b: Str) {
    b != [] && b[|b| - 1] == 0
  }

  /** A varint that does not end in bytes closed by a NUL is too long, whatever follows. */
  lemma {:induction false} OverlongStaysOverlong(b: Str, more: Str, most: nat)
    requires EndsInNul(b) && RawVarint(b, most) == None
    ensures RawVarint(b + more, most) == None
    decreases |b|
  {
    if most > 0 {
      assert (b + more)[1..] == b[1..] + more;
      OverlongStaysOverlong(b[1..], more, most - 1);
    }
  }

  /** How far an unfinished payload reaches into what follows, when that starts with the byte 8. */
  function Reach(wt: nat, b: Str): int {
    if wt == WT_VARINT then 1
    else if wt == WT_FIXED64 then 8 - |b|
    else if wt == WT_FIXED32 then 4 - |b|
    else if b == [] then 9
    else
      match RawVarint(b, 5)
      case None => 0
      case Some(t) => t.length + t.value - |b|
  }

  lemma UnfinishedPayload(wt: nat, b: Str, more: Str)
    requires b == [] || EndsInNul(b)
    requires more != [] && more[0] == 8 && ReadPayload(wt, b) == None && ReadPayload(wt, b + more).Some?
    ensures ReadPayload(wt, b + more).value.1 == |b| + Reach(wt, b) && Reach(wt, b) > 0
  {
    assert b == [] ==> b + more == more;
    if b != [] && RawVarint(b, 5) == None {
      OverlongStaysOverlong(b, more, 5);
    } else if b != [] {
      RawVarintExtends(b, more, 5);
    }
    if b != [] && RawVarint(b, 10) == None {
      OverlongStaysOverlong(b, more, 10);
    }
  }

  /** A record that the NUL at the end leaves unfinished takes its missing bytes from what follows. */
  lemma UnfinishedRecord(b: Str, more: Str)
    requires EndsInNul(b) && ReadField(b) == None
    requires more != [] && more[0] == 8 && ReadField(b + more).Some?
    ensures ReadKey(b).Some?
    ensures var k, r := ReadKey(b).value, ReadField(b + more).value;
            var reach := Reach(k.wt, b[k.length..]);
            && WireType(r.0.payload) == k.wt && reach > 0 && r.1 == |b| + reach
            && (r.0.payload.Varint64? ==> reach == 1)
  {
    if RawVarint(b, 5) == None {
      OverlongStaysOverlong(b, more, 5);
    } else {
      RawVarintExtends(b, more, 5);
      hide RawVarint, ReadPayload, Reach;
      var k := ReadKey(b).value;
      assert ReadKey(b + more) == Some(k);
      assert (b + more)[k.length..] == b[k.length..] + more;
      UnfinishedPayload(k.wt, b[k.length..], more);
    }
  }

  lemma {:induction false} ApplyAllConcat<M>(step: Step<M>, m: M, fs: seq<Field>, gs: seq<Field>)
    ensures ApplyAll(step, m, fs + gs)
         == match ApplyAll(step, m, fs)
            case None => None
            case Some(n) => ApplyAll(step, n, gs)
    decreases |fs|
  {
    if fs == [] {
      assert fs + gs == gs;
    } else {
      assert (fs + gs)[1..] == fs[1..] + gs;
      if step(m, fs[0]).Some? {
        ApplyAllConcat(step, step(m, fs[0]).value, fs[1..], gs);
      }
    }
  }

  lemma {:induction false} RawVarintTooLong(v: nat, rest: Str, most: nat)
    requires |EncodeVarint(v)| > most
    ensures RawVarint(EncodeVarint(v) + rest, most) == None
  {
    if v >= 128 && most > 0 {
      RawVarintTooLong(v / 128, rest, most - 1);
      assert (EncodeVarint(v) + rest)[1..] == EncodeVarint(v / 128) + rest;
    }
  }

  predicate Oversize(f: Field) {
    1 <= f.number <= MAX_NUMBER && f.payload.Delimited? && |f.payload.bytes| > MAX_LEN
  }

  /** Only a length can keep these records off the wire. */
  predicate Sized(fs: seq<Field>) {
    forall f :: f in fs ==> WireableField(f) || Oversize(f)
  }

  lemma OversizeIsUnreadable(f: Field, rest: Str)
    requires Oversize(f)
    ensures ReadField(EncodeField(f) + rest) == None
  {
    var key, size := EncodeVarint(TagOf(f)), EncodeVarint(|f.payload.bytes|);
    var body := size + (f.payload.bytes + rest);
    assert EncodeField(f) + rest == key + body;
    ReadKeyOfEncoded(f, body);
    OversizeBodyIsUnreadable(f.payload.bytes, rest);
    hide ReadKey, ReadDelimited;
    assert (key + body)[|key|..] == body;
  }

  lemma {:induction false} OversizeBodyIsUnreadable(bytes: Str, rest: Str)
    requires |bytes| > MAX_LEN
    ensures ReadDelimited(EncodeVarint(|bytes|) + (bytes + rest)) == None
  {
    if |EncodeVarint(|bytes|)| <= 5 {
      RawVarintOfEncoded(|bytes|, bytes + rest, 5);
    } else {
      RawVarintTooLong(|bytes|, bytes + rest, 5);
    }
  }

  /** One oversize record makes the whole parse fail, whatever surrounds it. */
  lemma {:induction false} OversizeFailsParse<M>(step: Step<M>, m: M, fs: seq<Field>, big: Field)
    requires big in fs && Oversize(big)
    requires Sized(fs)
    ensures Parse(step, m, EncodeFields(fs)) == None
    decreases |fs|
  {
    var head, tail := EncodeField(fs[0]), EncodeFields(fs[1..]);
    if Oversize(fs[0]) {
      OversizeIsUnreadable(fs[0], tail);
    } else {
      ReadFieldOfEncoded(fs[0], tail);
      assert (head + tail)[|head|..] == tail;
      if step(m, fs[0]).Some? {
        OversizeFailsParse(step, step(m, fs[0]).value, fs[1..], big);
      }
    }
  }

  lemma WireableConcat(fs: seq<Field>, gs: seq<Field>)
    ensures WireableFields(fs + gs) <==> WireableFields(fs) && WireableFields(gs)
    ensures Sized(fs) && Sized(gs) ==> Sized(fs + gs)
  {
    if WireableFields(fs + gs) {
      forall f | f in fs || f in gs
        ensures WireableField(f)
      {
        assert f in fs + gs;
      }
    }
  }

  lemma {:induction false} EncodeFieldsConcat(fs: seq<Field>, gs: seq<Field>)
    ensures EncodeFields(fs + gs) == EncodeFields(fs) + EncodeFields(gs)
    decreases |fs|
  {
    if fs == [] {
      assert fs + gs == gs;
    } else {
      assert (fs + gs)[1..] == fs[1..] + gs;
      EncodeFieldsConcat(fs[1..], gs);
    }
  }

  /** A property of messages that every step keeps holds of every message a parse accepts. */
  lemma {:induction false} ParseKeeps<M(!new)>(step: Step<M>, inv: M -> bool, m: M, b: Str)
    requires inv(m)
    requires forall n: M, f: Field :: inv(n) && WireableField(f) && step(n, f).Some? ==> inv(step(n, f).value)
    ensures Parse(step, m, b).Some? ==> inv(Parse(step, m, b).value)
    decreases |b|
  {
    if b != [] && ReadField(b).Some? {
      var r := ReadField(b).value;
      if step(m, r.0).Some? {
        ParseKeeps(step, inv, step(m, r.0).value, b[r.1..]);
      }
    }
  }

  // ----------------------------------------------- proto3 fields and their sizes

  /** A proto3 string or bytes field: absent when empty. */
  function Text(number: nat, s: Str): seq<Field> {
    if s == [] then [] else [Field(number, Delimited(s))]
  }

  /** A proto3 integer field: absent when zero. */
  function Scalar(number: nat, v: Uint64): seq<Field> {
    if v == 0 then [] else [Field(number, Varint64(v))]
  }

  lemma TextIsWireable(k: nat, s: Str)
    requires 1 <= k <= MAX_NUMBER
    ensures WireableFields(Text(k, s)) <==> |s| <= MAX_LEN
    ensures Sized(Text(k, s))
  {
    if s != [] {
      assert Text(k, s)[0] in Text(k, s);
    }
  }

  function WriteString(number: nat, s: Str): Str {
    EncodeVarint(number * 8 + WT_LEN) + (EncodeVarint(|s|) + s)
  }

  function WriteVarint(number: nat, v: Uint64): Str {
    EncodeVarint(number * 8 + WT_VARINT) + EncodeVarint(v)
  }

  function StringSize(s: Str): nat {
    VarintSize(|s|) + |s|
  }

  function UInt64SizePlusOne(v: Uint64): nat {
    (Bits.Log2Floor(OrOne(v)) * 9 + 73 + 64) / 64
  }

  lemma {:induction false} TextLength(number: nat, s: Str)
    requires 1 <= number < 16 && |s| < TWO_32
    ensures |EncodeFields(Text(number, s))| == TextSize(s)
  {
    VarintSizeIsEncodedLength(|s|);
    if s != [] {
      SingleField(Text(number, s)[0]);
    }
  }

  lemma ScalarLength(number: nat, v: Uint64)
    requires 1 <= number < 16
    ensures |EncodeFields(Scalar(number, v))| == ScalarSize(v)
  {
    VarintSizeIsEncodedLength(v);
    if v != 0 {
      SingleField(Scalar(number, v)[0]);
    }
  }

  lemma SingleField(f: Field)
    ensures EncodeFields([f]) == EncodeField(f)
  {
    assert [f][1..] == [];
  }

  /** The bytes of a string field behind its tag byte. */
  function TextBytes(tag: Byte, s: Str): Str {
    if s == [] then [] else [tag] + EncodeVarint(|s|) + s
  }

  /** The bytes of an integer field behind its tag byte. */
  function NumberBytes(tag: Byte, v: Uint64): Str {
    if v == 0 then [] else [tag] + EncodeVarint(v)
  }

  lemma TextIsBytes(number: nat, s: Str)
    requires 1 <= number < 16
    ensures EncodeFields(Text(number, s)) == TextBytes(8 * number + 2, s)
  {
    if s != [] {
      SingleField(Text(number, s)[0]);
      Associates([8 * number + 2], EncodeVarint(|s|), s);
    }
  }

  lemma ScalarIsBytes(number: nat, v: Uint64)
    requires 1 <= number < 16
    ensures EncodeFields(Scalar(number, v)) == NumberBytes(8 * number, v)
  {
    if v != 0 {
      SingleField(Scalar(number, v)[0]);
    }
  }

  /** Writing the records of fs moves them from what is still to be written to what is written. */
  lemma WroteFields(out: Str, fs: seq<Field>, gs: seq<Field>)
    ensures out + EncodeFields(fs + gs) == (out + EncodeFields(fs)) + EncodeFields(gs)
  {
    EncodeFieldsConcat(fs, gs);
  }

  /** The bytes a string field adds to ByteSizeLong, for field numbers whose tag is one byte. */
  function TextSize(s: Str): nat {
    if s == [] then 0 else 1 + StringSize(s)
  }

  /** The bytes an integer field adds to ByteSizeLong. */
  function ScalarSize(v: Uint64): nat {
    if v == 0 then 0 else UInt64SizePlusOne(v)
  }

  /** A string field of the generated serializer: written only when it is not empty. */
  method AppendString(number: nat, s: Str, target: Str) returns (out: Str)
    ensures out == target + EncodeFields(Text(number, s))
  {
    out := target;
    if s != [] {
      out := out + WriteString(number, s);
      SingleField(Field(number, Delimited(s)));
    }
  }

  /** An integer field of the generated serializer: written only when it is not zero. */
  method AppendVarint(number: nat, v: Uint64, target: Str) returns (out: Str)
    ensures out == target + EncodeFields(Scalar(number, v))
  {
    out := target;
    if v != 0 {
      out := out + WriteVarint(number, v);
      SingleField(Field(number, Varint64(v)));
    }
  }
}
