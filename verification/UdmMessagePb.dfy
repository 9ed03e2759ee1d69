/** UDM.UDMMessage (udmMessage.pb.cc): eight proto3 fields, and the records it does not know. */
module UdmMessagePb {
  import opened Common
  import opened Wire

  datatype Udm = Udm(
    messageType: Int32,
    topicName: Str,
    variableName: Str,
    variableUnit: Str,
    sourceName: Str,
    lockStat: Int32,
    timestamp: Uint64,
    value: Str,
    unknown: seq<Field>)

  const EMPTY := Udm(0, [], [], [], [], 0, 0, [], [])

  // --------------------------------------------------------- the wire meaning

  /** The record of field number k, if it is written at all. */
  function Slot(m: Udm, k: nat): seq<Field>
    requires 1 <= k <= 8
  {
    match k
    case 1 => Scalar(1, SignExtend(m.messageType))
    case 2 => Text(2, m.topicName)
    case 3 => Text(3, m.variableName)
    case 4 => Text(4, m.variableUnit)
    case 5 => Text(5, m.sourceName)
    case 6 => Scalar(6, SignExtend(m.lockStat))
    case 7 => Scalar(7, m.timestamp)
    case _ => Text(8, m.value)
  }

  function RecordsFrom(m: Udm, k: nat): seq<Field>
    requires 1 <= k <= 9
    decreases m, 9 - k
  {
    if k == 9 then m.unknown else Slot(m, k) + RecordsFrom(m, k + 1)
  }

  /** The records a message is written as: field order, defaults omitted, unknown records last. */
  function Records(m: Udm): seq<Field> {
    RecordsFrom(m, 1)
  }

  function Serialize(m: Udm): Str {
    EncodeFields(Records(m))
  }

  function SetText(utf8: Str -> bool, s: Str, m: Udm): Option<Udm> {
    if utf8(s) then Some(m) else None
  }

  /** One iteration of the parse loop; utf8 stands for VerifyUTF8. */
  function Apply(utf8: Str -> bool, m: Udm, f: Field): Option<Udm> {
    match f
    case Field(1, Varint64(v)) => Some(m.(messageType := LowInt32(v)))
    case Field(2, Delimited(s)) => SetText(utf8, s, m.(topicName := s))
    case Field(3, Delimited(s)) => SetText(utf8, s, m.(variableName := s))
    case Field(4, Delimited(s)) => SetText(utf8, s, m.(variableUnit := s))
    case Field(5, Delimited(s)) => SetText(utf8, s, m.(sourceName := s))
    case Field(6, Varint64(v)) => Some(m.(lockStat := LowInt32(v)))
    case Field(7, Varint64(v)) => Some(m.(timestamp := v))
    case Field(8, Delimited(s)) => Some(m.(value := s))
    case _ => Some(m.(unknown := m.unknown + [f]))
  }

  function UdmStep(utf8: Str -> bool): Step<Udm> {
    (m: Udm, f: Field) => Apply(utf8, m, f)
  }

  function Merge(to: Udm, from: Udm): Udm {
    Udm(
      if from.messageType != 0 then from.messageType else to.messageType,
      if from.topicName != [] then from.topicName else to.topicName,
      if from.variableName != [] then from.variableName else to.variableName,
      if from.variableUnit != [] then from.variableUnit else to.variableUnit,
      if from.sourceName != [] then from.sourceName else to.sourceName,
      if from.lockStat != 0 then from.lockStat else to.lockStat,
      if from.timestamp != 0 then from.timestamp else to.timestamp,
      if from.value != [] then from.value else to.value,
      to.unknown + from.unknown)
  }

  // ------------------------------------------------------------- well-formed

  predicate Known(f: Field) {
    || (f.number in {1, 6, 7} && f.payload.Varint64?)
    || (f.number in {2, 3, 4, 5, 8} && f.payload.Delimited?)
  }

  predicate Readable(utf8: Str -> bool, s: Str) {
    s == [] || utf8(s)
  }

  predicate Legible(utf8: Str -> bool, m: Udm) {
    && Readable(utf8, m.topicName)
    && Readable(utf8, m.variableName)
    && Readable(utf8, m.variableUnit)
    && Readable(utf8, m.sourceName)
  }

  /** Every unknown record is one a parse can leave behind, so that the encoder can reproduce it. */
  ghost predicate Storable(m: Udm) {
    forall f :: f in m.unknown ==> WireableField(f) && !Known(f)
  }

  ghost predicate Sound(utf8: Str -> bool, m: Udm) {
    Legible(utf8, m) && Storable(m)
  }

  /** Every length fits the size prefix ReadSize accepts. */
  predicate Fits(m: Udm) {
    && |m.topicName| <= MAX_LEN
    && |m.variableName| <= MAX_LEN
    && |m.variableUnit| <= MAX_LEN
    && |m.sourceName| <= MAX_LEN
    && |m.value| <= MAX_LEN
  }

  /** What a parsed message is, and what the setters of a well-behaved program build. */
  ghost predicate WellFormed(utf8: Str -> bool, m: Udm) {
    Fits(m) && Sound(utf8, m)
  }

  // ------------------------------------------------------------------ proofs

  lemma {:induction false} RecordsAreSized(m: Udm, k: nat)
    requires Storable(m) && 1 <= k <= 9
    ensures Sized(RecordsFrom(m, k))
    ensures Fits(m) ==> WireableFields(RecordsFrom(m, k))
    ensures k == 1 && WireableFields(Records(m)) ==> Fits(m)
    decreases 9 - k
  {
    if k < 9 {
      RecordsAreSized(m, k + 1);
      SlotsAreSized(m);
      WireableConcat(Slot(m, k), RecordsFrom(m, k + 1));
      if k == 1 && WireableFields(Records(m)) {
        SlotIsInRecords(m, 2);
        SlotIsInRecords(m, 3);
        SlotIsInRecords(m, 4);
        SlotIsInRecords(m, 5);
        SlotIsInRecords(m, 8);
      }
    }
  }

  lemma SlotsAreSized(m: Udm)
    ensures forall k :: 1 <= k <= 8 ==> Sized(Slot(m, k))
    ensures (forall k :: 1 <= k <= 8 ==> WireableFields(Slot(m, k))) <==> Fits(m)
  {
    TextIsWireable(2, m.topicName);
    TextIsWireable(3, m.variableName);
    TextIsWireable(4, m.variableUnit);
    TextIsWireable(5, m.sourceName);
    TextIsWireable(8, m.value);
    if forall k :: 1 <= k <= 8 ==> WireableFields(Slot(m, k)) {
      assert WireableFields(Slot(m, 2)) && WireableFields(Slot(m, 3)) && WireableFields(Slot(m, 4));
      assert WireableFields(Slot(m, 5)) && WireableFields(Slot(m, 8));
    }
  }

  lemma SlotIsInRecords(m: Udm, k: nat)
    requires 1 <= k <= 8
    ensures forall f :: f in Slot(m, k) ==> f in Records(m)
  {
    SlotIsInRecordsFrom(m, 1, k);
  }

  lemma {:induction false} SlotIsInRecordsFrom(m: Udm, j: nat, k: nat)
    requires 1 <= j <= k <= 8
    ensures forall f :: f in Slot(m, k) ==> f in RecordsFrom(m, j)
    decreases k - j
  {
    if j < k {
      SlotIsInRecordsFrom(m, j + 1, k);
    }
  }

  lemma {:induction false} ApplyUnknowns(utf8: Str -> bool, m: Udm, fs: seq<Field>)
    requires forall f :: f in fs ==> !Known(f)
    ensures ApplyAll(UdmStep(utf8), m, fs) == Some(m.(unknown := m.unknown + fs))
    decreases |fs|
  {
    if fs == [] {
      assert m.unknown + fs == m.unknown;
    } else {
      var n := m.(unknown := m.unknown + [fs[0]]);
      assert !Known(fs[0]);
      assert UdmStep(utf8)(m, fs[0]) == Some(n);
      ApplyUnknowns(utf8, n, fs[1..]);
      assert n.unknown + fs[1..] == m.unknown + fs;
    }
  }

  /** Merge restricted to the fields numbered below k. */
  ghost function MergeBelow(to: Udm, from: Udm, k: nat): Udm {
    var x := Merge(to, from);
    Udm(
      if k > 1 then x.messageType else to.messageType,
      if k > 2 then x.topicName else to.topicName,
      if k > 3 then x.variableName else to.variableName,
      if k > 4 then x.variableUnit else to.variableUnit,
      if k > 5 then x.sourceName else to.sourceName,
      if k > 6 then x.lockStat else to.lockStat,
      if k > 7 then x.timestamp else to.timestamp,
      if k > 8 then x.value else to.value,
      to.unknown)
  }

  lemma ApplySlot(utf8: Str -> bool, to: Udm, from: Udm, k: nat)
    requires Sound(utf8, from) && 1 <= k <= 8
    ensures |Slot(from, k)| <= 1
    ensures Slot(from, k) == [] ==> MergeBelow(to, from, k) == MergeBelow(to, from, k + 1)
    ensures Slot(from, k) != [] ==>
              UdmStep(utf8)(MergeBelow(to, from, k), Slot(from, k)[0]) == Some(MergeBelow(to, from, k + 1))
  {
    LowInt32OfSignExtend(from.messageType);
    LowInt32OfSignExtend(from.lockStat);
  }

  /** The bytes of one field, with the tag byte of the schema. */
  function FieldBytes(m: Udm, k: nat): Str
    requires 1 <= k <= 8
  {
    match k
    case 1 => NumberBytes(8, SignExtend(m.messageType))
    case 2 => TextBytes(18, m.topicName)
    case 3 => TextBytes(26, m.variableName)
    case 4 => TextBytes(34, m.variableUnit)
    case 5 => TextBytes(42, m.sourceName)
    case 6 => NumberBytes(48, SignExtend(m.lockStat))
    case 7 => NumberBytes(56, m.timestamp)
    case _ => TextBytes(66, m.value)
  }

  lemma SlotIsBytes(m: Udm, k: nat)
    requires 1 <= k <= 8
    ensures EncodeFields(Slot(m, k)) == FieldBytes(m, k)
  {
    hide EncodeFields, Text, Scalar, TextBytes, NumberBytes;
    match k
    case 1 => ScalarIsBytes(1, SignExtend(m.messageType));
    case 2 => TextIsBytes(2, m.topicName);
    case 3 => TextIsBytes(3, m.variableName);
    case 4 => TextIsBytes(4, m.variableUnit);
    case 5 => TextIsBytes(5, m.sourceName);
    case 6 => ScalarIsBytes(6, SignExtend(m.lockStat));
    case 7 => ScalarIsBytes(7, m.timestamp);
    case 8 => TextIsBytes(8, m.value);
  }

  function BytesFrom(m: Udm, k: nat): Str
    requires 1 <= k <= 9
    decreases m, 9 - k
  {
    if k == 9 then EncodeFields(m.unknown) else FieldBytes(m, k) + BytesFrom(m, k + 1)
  }

  lemma {:induction false} RecordsAreBytes(m: Udm, k: nat)
    requires 1 <= k <= 9
    ensures EncodeFields(RecordsFrom(m, k)) == BytesFrom(m, k)
    decreases 9 - k
  {
    if k < 9 {
      hide Slot, FieldBytes;
      RecordsAreBytes(m, k + 1);
      EncodeFieldsConcat(Slot(m, k), RecordsFrom(m, k + 1));
      SlotIsBytes(m, k);
    }
  }

  /** The wire format, field by field: these bytes in this order, and nothing for a default. */
  lemma WireLayout(m: Udm)
    ensures Serialize(m)
         == NumberBytes(8, SignExtend(m.messageType))
            + (TextBytes(18, m.topicName)
            + (TextBytes(26, m.variableName)
            + (TextBytes(34, m.variableUnit)
            + (TextBytes(42, m.sourceName)
            + (NumberBytes(48, SignExtend(m.lockStat))
            + (NumberBytes(56, m.timestamp)
            + (TextBytes(66, m.value)
            + EncodeFields(m.unknown))))))))
  {
    hide RecordsFrom, BytesFrom, NumberBytes, TextBytes, EncodeFields;
    RecordsAreBytes(m, 1);
    NextBytes(m, 1);
    NextBytes(m, 2);
    NextBytes(m, 3);
    NextBytes(m, 4);
    NextBytes(m, 5);
    NextBytes(m, 6);
    NextBytes(m, 7);
    NextBytes(m, 8);
    NextBytes(m, 9);
  }

  lemma NextBytes(m: Udm, k: nat)
    requires 1 <= k <= 9
    ensures BytesFrom(m, k) == if k == 9 then EncodeFields(m.unknown) else FieldBytes(m, k) + BytesFrom(m, k + 1)
  {
  }

  /** What any integer record sets: the low 32 bits, or for the time all 64. */
  lemma IntegersAreSet(utf8: Str -> bool, m: Udm, v: Uint64)
    ensures UdmStep(utf8)(m, Field(1, Varint64(v))) == Some(m.(messageType := LowInt32(v)))
    ensures UdmStep(utf8)(m, Field(6, Varint64(v))) == Some(m.(lockStat := LowInt32(v)))
    ensures UdmStep(utf8)(m, Field(7, Varint64(v))) == Some(m.(timestamp := v))
  {
  }

  /** "Last One Wins": applying a message's records is merging the message. */
  lemma {:induction false} ApplyRecordsIsMerge(utf8: Str -> bool, to: Udm, from: Udm, k: nat)
    requires Sound(utf8, from) && 1 <= k <= 9
    ensures ApplyAll(UdmStep(utf8), MergeBelow(to, from, k), RecordsFrom(from, k)) == Some(Merge(to, from))
    decreases 9 - k
  {
    if k == 9 {
      ApplyUnknowns(utf8, MergeBelow(to, from, 9), from.unknown);
    } else {
      ApplyRecordsIsMerge(utf8, to, from, k + 1);
      ApplySlot(utf8, to, from, k);
      assert RecordsFrom(from, k)[|Slot(from, k)|..] == RecordsFrom(from, k + 1);
    }
  }

  /** Parsing a serialized message into any message is merging it in; what follows is parsed next. */
  lemma ParseSerialized(utf8: Str -> bool, to: Udm, from: Udm, rest: Str)
    requires WellFormed(utf8, from)
    ensures Parse(UdmStep(utf8), to, Serialize(from) + rest) == Parse(UdmStep(utf8), Merge(to, from), rest)
  {
    RecordsAreSized(from, 1);
    assert MergeBelow(to, from, 1) == to;
    ApplyRecordsIsMerge(utf8, to, from, 1);
    ParseOfEncoded(UdmStep(utf8), to, Records(from), rest);
  }

  /** Exactly the well-formed messages survive the trip; the others are refused by the reader. */
  lemma {:induction false} RoundTripExactly(utf8: Str -> bool, m: Udm)
    requires Storable(m)
    ensures Parse(UdmStep(utf8), EMPTY, Serialize(m)) == if WellFormed(utf8, m) then Some(m) else None
  {
    hide Parse, UdmStep, Serialize, WellFormed, Merge;
    MergedExactly(utf8, EMPTY, m);
    MergeIntoNothing(m);
  }

  lemma MergeIntoNothing(m: Udm)
    ensures Merge(EMPTY, m) == m
  {
    assert EMPTY.unknown + m.unknown == m.unknown;
  }

  lemma RoundTrip(utf8: Str -> bool, m: Udm)
    requires WellFormed(utf8, m)
    ensures Parse(UdmStep(utf8), EMPTY, Serialize(m)) == Some(m)
  {
    RoundTripExactly(utf8, m);
  }

  /** A serialized message is merged into whatever was parsed before, or refused, and then everything is. */
  lemma {:induction false} MergedExactly(utf8: Str -> bool, to: Udm, m: Udm)
    requires Storable(m)
    ensures Parse(UdmStep(utf8), to, Serialize(m)) == if WellFormed(utf8, m) then Some(Merge(to, m)) else None
  {
    if WellFormed(utf8, m) {
      ParseSerialized(utf8, to, m, []);
      assert Serialize(m) + [] == Serialize(m);
    } else {
      RecordsAreSized(m, 1);
      if Fits(m) {
        var bad := IllegibleRecord(utf8, m);
        ParseOfEncoded(UdmStep(utf8), to, Records(m), []);
        RefusedRecord(UdmStep(utf8), to, Records(m), bad);
        assert Serialize(m) + [] == Serialize(m);
      } else {
        var big :| big in Records(m) && !WireableField(big);
        OversizeFailsParse(UdmStep(utf8), to, Records(m), big);
      }
    }
  }

  /** The record of a string that is not readable is one no message takes. */
  lemma IllegibleRecord(utf8: Str -> bool, m: Udm) returns (bad: Field)
    requires !Legible(utf8, m)
    ensures bad in Records(m) && forall n :: UdmStep(utf8)(n, bad) == None
  {
    var k := if !Readable(utf8, m.topicName) then 2 else if !Readable(utf8, m.variableName) then 3
             else if !Readable(utf8, m.variableUnit) then 4 else 5;
    SlotIsInRecords(m, k);
    bad := Slot(m, k)[0];
    assert bad in Slot(m, k);
  }

  /** The bytes of two messages, one after the other, are the bytes of their merge to any reader. */
  lemma ConcatenationMerges(utf8: Str -> bool, a: Udm, b: Udm)
    requires WellFormed(utf8, a) && WellFormed(utf8, b)
    ensures Parse(UdmStep(utf8), EMPTY, Serialize(a) + Serialize(b)) == Some(Merge(a, b))
  {
    ParseSerialized(utf8, EMPTY, a, Serialize(b));
    assert EMPTY.unknown + a.unknown == a.unknown;
    assert Merge(EMPTY, a) == a;
    ParseSerialized(utf8, a, b, []);
    assert Serialize(b) + [] == Serialize(b);
  }

  lemma ApplyKeepsWellFormed(utf8: Str -> bool, m: Udm, f: Field)
    requires WellFormed(utf8, m) && WireableField(f) && Apply(utf8, m, f).Some?
    ensures WellFormed(utf8, Apply(utf8, m, f).value)
  {
    var n := Apply(utf8, m, f).value;
    if Known(f) {
      assert n.unknown == m.unknown;
    } else {
      assert n.unknown == m.unknown + [f];
    }
  }

  lemma ParsedIsWellFormed(utf8: Str -> bool, m: Udm, b: Str)
    requires WellFormed(utf8, m) && Parse(UdmStep(utf8), m, b).Some?
    ensures WellFormed(utf8, Parse(UdmStep(utf8), m, b).value)
  {
    var inv := (n: Udm) => WellFormed(utf8, n);
    forall n: Udm, f: Field | inv(n) && WireableField(f) && UdmStep(utf8)(n, f).Some?
      ensures inv(UdmStep(utf8)(n, f).value)
    {
      ApplyKeepsWellFormed(utf8, n, f);
    }
    ParseKeeps(UdmStep(utf8), inv, m, b);
  }

  /** Whatever bytes were accepted, writing the result and reading it back changes nothing. */
  lemma ReserializationIsStable(utf8: Str -> bool, b: Str)
    requires Parse(UdmStep(utf8), EMPTY, b).Some?
    ensures var m := Parse(UdmStep(utf8), EMPTY, b).value;
            Parse(UdmStep(utf8), EMPTY, Serialize(m)) == Some(m)
  {
    ParsedIsWellFormed(utf8, EMPTY, b);
    RoundTrip(utf8, Parse(UdmStep(utf8), EMPTY, b).value);
  }

  // --------------------------------------- bytes in front that are not accepted

  /** What type a parse leaves depends on the type before and the bytes, on nothing else. */
  lemma {:induction false} TypeFollows(utf8: Str -> bool, m: Udm, n: Udm, b: Str)
    requires m.messageType == n.messageType
    ensures SameType(Parse(UdmStep(utf8), m, b), Parse(UdmStep(utf8), n, b))
    decreases |b|
  {
    hide ReadField;
    if b != [] && ReadField(b).Some? {
      var r := ReadField(b).value;
      var x, y := UdmStep(utf8)(m, r.0), UdmStep(utf8)(n, r.0);
      if x.Some? && y.Some? {
        TypeFollows(utf8, x.value, y.value, b[r.1..]);
      }
    }
  }

  predicate SameType(x: Option<Udm>, y: Option<Udm>) {
    x.Some? && y.Some? ==> x.value.messageType == y.value.messageType
  }

  /** The bytes of two messages of types 1 and 2 that agree in everything else. */
  predicate Twins(one: Str, two: Str) {
    && |one| == |two| >= 2 && one[2..] == two[2..]
    && one[0] == two[0] == 8 && one[1] == 1
  }

  lemma TypeIsAVarint(utf8: Str -> bool, m: Udm, f: Field)
    requires !f.payload.Varint64?
    ensures var n := UdmStep(utf8)(m, f);
            n.Some? ==> n.value.messageType == m.messageType
  {
  }

  lemma TwinsFrom(one: Str, two: Str, at: nat)
    requires Twins(one, two) && 2 <= at <= |one|
    ensures one[at..] == two[at..]
  {
    assert one[at..] == one[2..][at - 2..] && two[at..] == two[2..][at - 2..];
  }

  /** An unfinished record swallows the first bytes of what follows, and with them the type. */
  lemma SwallowedType(utf8: Str -> bool, n: Udm, b: Str, one: Str, two: Str)
    requires EndsInNul(b) && ReadField(b) == None && Twins(one, two)
    ensures SameType(Parse(UdmStep(utf8), n, b + one), Parse(UdmStep(utf8), n, b + two))
  {
    hide Parse, ReadField, ReadKey, Reach, UdmStep, Twins;
    TwinsStart(one, two);
    var r, q := ReadField(b + one), ReadField(b + two);
    ParseReadsRecord(UdmStep(utf8), n, b + one);
    ParseReadsRecord(UdmStep(utf8), n, b + two);
    if r.Some? && q.Some? {
      UnfinishedRecord(b, one);
      UnfinishedRecord(b, two);
      AfterSwallowing(utf8, n, b, one, two, r.value, q.value);
    }
  }

  lemma TwinsStart(one: Str, two: Str)
    requires Twins(one, two)
    ensures |one| >= 2 && |two| >= 2 && one[0] == two[0] == 8 && one[1] == 1
  {
  }

  lemma AfterSwallowing(utf8: Str -> bool, n: Udm, b: Str, one: Str, two: Str, r: (Field, nat), q: (Field, nat))
    requires Twins(one, two) && |b| < r.1 == q.1 <= |b| + |one|
    requires WireType(r.0.payload) == WireType(q.0.payload)
    requires r.0.payload.Varint64? ==> r.1 == |b| + 1
    ensures var x, y := UdmStep(utf8)(n, r.0), UdmStep(utf8)(n, q.0);
            x.Some? && y.Some? ==>
              SameType(Parse(UdmStep(utf8), x.value, (b + one)[r.1..]), Parse(UdmStep(utf8), y.value, (b + two)[q.1..]))
  {
    hide Parse, UdmStep;
    var x, y := UdmStep(utf8)(n, r.0), UdmStep(utf8)(n, q.0);
    if x.Some? && y.Some? {
      var at := r.1 - |b|;
      assert (b + one)[r.1..] == one[at..] && (b + two)[q.1..] == two[at..];
      if at == 1 {
        FieldNumberZero(utf8, x.value, one[1..]);
      } else {
        TwinsFrom(one, two, at);
        TypeIsAVarint(utf8, n, r.0);
        TypeIsAVarint(utf8, n, q.0);
        TypeFollows(utf8, x.value, y.value, one[at..]);
      }
    }
  }

  lemma FieldNumberZero(utf8: Str -> bool, m: Udm, b: Str)
    requires b != [] && b[0] == 1
    ensures Parse(UdmStep(utf8), m, b) == None
  {
    assert ReadKey(b) == Some(Key(0, 1, 1));
  }

  /**
   Behind bytes that are refused and end in a NUL, two messages that differ in
   their types only are never told apart.
   */
  lemma {:induction false} TypeIsLost(utf8: Str -> bool, n: Udm, b: Str, one: Str, two: Str)
    requires EndsInNul(b) && Parse(UdmStep(utf8), n, b) == None && Twins(one, two)
    ensures SameType(Parse(UdmStep(utf8), n, b + one), Parse(UdmStep(utf8), n, b + two))
    decreases |b|
  {
    hide Parse, ReadField, UdmStep, Twins;
    if ReadField(b) == None {
      SwallowedType(utf8, n, b, one, two);
    } else {
      ParseReadsRecord(UdmStep(utf8), n, b);
      ParseReadsRecord(UdmStep(utf8), n, b + one);
      ParseReadsRecord(UdmStep(utf8), n, b + two);
      ReadFieldExtends(b, one);
      ReadFieldExtends(b, two);
      var r := ReadField(b).value;
      assert (b + one)[r.1..] == b[r.1..] + one && (b + two)[r.1..] == b[r.1..] + two;
      var m := UdmStep(utf8)(n, r.0);
      if m.Some? {
        ParseNothing(UdmStep(utf8), m.value);
        TypeIsLost(utf8, m.value, b[r.1..], one, two);
      }
    }
  }

  /** On the wire a small type is the second byte, and no other byte depends on it. */
  lemma TypeOnTheWire(m: Udm, t: Int32)
    requires 1 <= t < 128
    ensures Serialize(m.(messageType := t)) == [8, t] + EncodeFields(RecordsFrom(m, 2))
  {
    var n := m.(messageType := t);
    SameRecords(m, n, 2);
    EncodeFieldsConcat(Slot(n, 1), RecordsFrom(n, 2));
    hide RecordsFrom, EncodeFields;
    SmallScalar(t);
  }

  lemma SmallScalar(t: nat)
    requires 1 <= t < 128
    ensures EncodeFields(Scalar(1, t)) == [8, t]
  {
    SingleField(Field(1, Varint64(t)));
  }

  lemma {:induction false} SameRecords(m: Udm, n: Udm, k: nat)
    requires 2 <= k <= 9 && n == m.(messageType := n.messageType)
    ensures RecordsFrom(n, k) == RecordsFrom(m, k)
    decreases 9 - k
  {
    if k < 9 {
      SameRecords(m, n, k + 1);
    }
  }

  /** `out` is `target` followed by the encoding of m down to the fields numbered from k. */
  ghost predicate WrittenBelow(target: Str, out: Str, m: Udm, k: nat)
    requires 1 <= k <= 9
  {
    out + EncodeFields(RecordsFrom(m, k)) == target + Serialize(m)
  }

  lemma WroteSlot(target: Str, out: Str, m: Udm, k: nat)
    requires 1 <= k <= 8 && WrittenBelow(target, out, m, k)
    ensures WrittenBelow(target, out + EncodeFields(Slot(m, k)), m, k + 1)
  {
    WroteFields(out, Slot(m, k), RecordsFrom(m, k + 1));
  }

  predicate ShortStrings(m: Udm) {
    && |m.topicName| < TWO_32 && |m.variableName| < TWO_32 && |m.variableUnit| < TWO_32
    && |m.sourceName| < TWO_32 && |m.value| < TWO_32
  }

  ghost function SlotSize(m: Udm, k: nat): nat
    requires 1 <= k <= 8
  {
    match k
    case 1 => ScalarSize(SignExtend(m.messageType))
    case 2 => TextSize(m.topicName)
    case 3 => TextSize(m.variableName)
    case 4 => TextSize(m.variableUnit)
    case 5 => TextSize(m.sourceName)
    case 6 => ScalarSize(SignExtend(m.lockStat))
    case 7 => ScalarSize(m.timestamp)
    case _ => TextSize(m.value)
  }

  ghost function SizeFrom(m: Udm, k: nat): nat
    requires 1 <= k <= 9
    decreases m, 9 - k
  {
    if k == 9 then |EncodeFields(m.unknown)| else SlotSize(m, k) + SizeFrom(m, k + 1)
  }

  lemma {:induction false} SlotLength(m: Udm, k: nat)
    requires ShortStrings(m) && 1 <= k <= 8
    ensures |EncodeFields(Slot(m, k))| == SlotSize(m, k)
  {
    match k
    case 1 => ScalarLength(1, SignExtend(m.messageType));
    case 2 => TextLength(2, m.topicName);
    case 3 => TextLength(3, m.variableName);
    case 4 => TextLength(4, m.variableUnit);
    case 5 => TextLength(5, m.sourceName);
    case 6 => ScalarLength(6, SignExtend(m.lockStat));
    case 7 => ScalarLength(7, m.timestamp);
    case _ => TextLength(8, m.value);
  }

  lemma {:induction false} SizeOfRecords(m: Udm, k: nat)
    requires ShortStrings(m) && 1 <= k <= 9
    ensures |EncodeFields(RecordsFrom(m, k))| == SizeFrom(m, k)
    decreases 9 - k
  {
    if k < 9 {
      SizeOfRecords(m, k + 1);
      SlotLength(m, k);
      EncodeFieldsConcat(Slot(m, k), RecordsFrom(m, k + 1));
    }
  }

  lemma {:induction false} SizesAgree(m: Udm, n: Udm, k: nat)
    requires 1 <= k <= 9 && |n.value| == |m.value| && n == m.(value := n.value)
    ensures SizeFrom(m, k) == SizeFrom(n, k) && (k <= 8 ==> SizeFrom(m, k) >= |m.value|)
    decreases 9 - k
  {
    if k < 9 {
      SizesAgree(m, n, k + 1);
    }
  }

  /** The size of a message depends on the length of its value only, and is no less. */
  lemma SizeOfValue(m: Udm, n: Udm)
    requires ShortStrings(m) && |n.value| == |m.value| && n == m.(value := n.value)
    ensures |Serialize(m)| == |Serialize(n)| >= |m.value|
  {
    SizeOfRecords(m, 1);
    SizeOfRecords(n, 1);
    SizesAgree(m, n, 1);
  }

  // ------------------------------------------------------------- the object

  /** The generated message class: the _impl_ struct written in place, the size cached by ByteSizeLong. */
  class UDMMessage {
    var impl: Udm
    var cachedSize: nat

    constructor ()
      ensures impl == EMPTY && cachedSize == 0
    {
      impl, cachedSize := EMPTY, 0;
    }

    method Clear()
      modifies this`impl
      ensures impl == EMPTY
    {
      impl := impl.(topicName := [], variableName := [], variableUnit := [], sourceName := [], value := []);
      impl := impl.(messageType := 0, lockStat := 0, timestamp := 0);
      impl := impl.(unknown := []);
    }

    /** The body of the while/switch loop, at the front of b; false is the failure label. */
    method ParseRecord(utf8: Str -> bool, b: Str) returns (ok: bool, length: nat)
      requires b != []
      modifies this`impl
      ensures var r := ReadField(b);
              && ok == (r.Some? && Apply(utf8, old(impl), r.value.0).Some?)
              && (ok ==> length == r.value.1 && impl == Apply(utf8, old(impl), r.value.0).value)
    {
      var t := ReadTag(b);
      if t.None? {
        return false, 0;
      }
      var tag := t.value.value;
      var body := b[t.value.length..];
      var number, low := tag / 8, tag % 256;
      OneByteTag(tag);
      assert ReadKey(b) == Some(Key(number, tag % 8, t.value.length));
      if (number == 1 && low == 8) || (number == 6 && low == 48) || (number == 7 && low == 56) {
        var v := ReadVarint64(body);
        if v.None? {
          return false, 0;
        }
        if number == 1 {
          impl := impl.(messageType := LowInt32(v.value.value));
        } else if number == 6 {
          impl := impl.(lockStat := LowInt32(v.value.value));
        } else {
          impl := impl.(timestamp := v.value.value);
        }
        return true, t.value.length + v.value.length;
      } else if (number == 2 && low == 18) || (number == 3 && low == 26) || (number == 4 && low == 34)
             || (number == 5 && low == 42) || (number == 8 && low == 66) {
        var d := ReadDelimited(body);
        if d.None? {
          return false, 0;
        }
        var s := d.value.0;
        if number == 2 {
          impl := impl.(topicName := s);
        } else if number == 3 {
          impl := impl.(variableName := s);
        } else if number == 4 {
          impl := impl.(variableUnit := s);
        } else if number == 5 {
          impl := impl.(sourceName := s);
        } else {
          impl := impl.(value := s);
        }
        return number == 8 || utf8(s), t.value.length + d.value.1;
      } else {
        if tag == 0 || tag % 8 == WT_END_GROUP {
          return false, 0;
        }
        var p := ReadPayload(tag % 8, body);
        if number == 0 || p.None? {
          return false, 0;
        }
        impl := impl.(unknown := impl.unknown + [Field(number, p.value.0)]);
        return true, t.value.length + p.value.1;
      }
    }

    method InternalParse(utf8: Str -> bool, data: Str) returns (ok: bool)
      modifies this`impl
      ensures ok == Parse(UdmStep(utf8), old(impl), data).Some?
      ensures ok ==> impl == Parse(UdmStep(utf8), old(impl), data).value
    {
      hide ReadField, Apply;
      var ptr := 0;
      while ptr < |data|
        invariant 0 <= ptr <= |data|
        invariant Parse(UdmStep(utf8), impl, data[ptr..]) == Parse(UdmStep(utf8), old(impl), data)
      {
        var good, length := ParseRecord(utf8, data[ptr..]);
        if !good {
          return false;
        }
        assert data[ptr..][length..] == data[ptr + length..];
        ptr := ptr + length;
      }
      assert data[ptr..] == [];
      ok := true;
    }

    method ParseFromArray(utf8: Str -> bool, data: Str) returns (ok: bool)
      modifies this`impl
      ensures ok == Parse(UdmStep(utf8), EMPTY, data).Some?
      ensures ok ==> impl == Parse(UdmStep(utf8), EMPTY, data).value
    {
      Clear();
      ok := InternalParse(utf8, data);
    }

    /** Writes the fields after what `target` already holds; the result is the advanced target. */
    method InternalSerialize(target: Str) returns (out: Str)
      ensures out == target + Serialize(impl)
    {
      hide EncodeFields, EncodeField;
      ghost var k := 1;
      ghost var o := target;
      out := AppendVarint(1, SignExtend(impl.messageType), target);
      WroteSlot(target, o, impl, k);
      k, o := k + 1, out;
      out := AppendString(2, impl.topicName, out);
      WroteSlot(target, o, impl, k);
      k, o := k + 1, out;
      out := AppendString(3, impl.variableName, out);
      WroteSlot(target, o, impl, k);
      k, o := k + 1, out;
      out := AppendString(4, impl.variableUnit, out);
      WroteSlot(target, o, impl, k);
      k, o := k + 1, out;
      out := AppendString(5, impl.sourceName, out);
      WroteSlot(target, o, impl, k);
      k, o := k + 1, out;
      out := AppendVarint(6, SignExtend(impl.lockStat), out);
      WroteSlot(target, o, impl, k);
      k, o := k + 1, out;
      out := AppendVarint(7, impl.timestamp, out);
      WroteSlot(target, o, impl, k);
      k, o := k + 1, out;
      out := AppendString(8, impl.value, out);
      WroteSlot(target, o, impl, k);
      out := out + EncodeFields(impl.unknown);
    }

    /** The size is computed without encoding anything, and cached. Lengths are passed on as int. */
    method ByteSizeLong() returns (totalSize: nat)
      requires ShortStrings(impl)
      modifies this`cachedSize
      ensures totalSize == cachedSize == |Serialize(impl)|
    {
      hide EncodeFields, TextSize, ScalarSize, RecordsFrom;
      totalSize := 0;
      totalSize := totalSize + TextSize(impl.topicName);
      totalSize := totalSize + TextSize(impl.variableName);
      totalSize := totalSize + TextSize(impl.variableUnit);
      totalSize := totalSize + TextSize(impl.sourceName);
      totalSize := totalSize + TextSize(impl.value);
      totalSize := totalSize + ScalarSize(SignExtend(impl.messageType));
      totalSize := totalSize + ScalarSize(SignExtend(impl.lockStat));
      totalSize := totalSize + ScalarSize(impl.timestamp);
      totalSize := totalSize + |EncodeFields(impl.unknown)|;
      cachedSize := totalSize;
      SizeOfRecords(impl, 1);
      assert SizeFrom(impl, 1) == SlotSize(impl, 1) + SlotSize(impl, 2) + SizeFrom(impl, 3);
      assert SizeFrom(impl, 3) == SlotSize(impl, 3) + SlotSize(impl, 4) + SizeFrom(impl, 5);
      assert SizeFrom(impl, 5) == SlotSize(impl, 5) + SlotSize(impl, 6) + SizeFrom(impl, 7);
      assert SizeFrom(impl, 7) == SlotSize(impl, 7) + SlotSize(impl, 8) + SizeFrom(impl, 9);
    }

    /** SerializeToArray: the size first, then bytes; refused beyond INT_MAX or when the space is short. */
    method SerializeToArray(space: nat) returns (ok: bool, bytes: Str)
      requires ShortStrings(impl)
      modifies this`cachedSize
      ensures ok == (|Serialize(impl)| < TWO_31 && |Serialize(impl)| <= space)
      ensures ok ==> bytes == Serialize(impl)
    {
      var size := ByteSizeLong();
      if size >= TWO_31 || size > space {
        return false, [];
      }
      bytes := InternalSerialize([]);
      assert [] + Serialize(impl) == Serialize(impl);
      ok := true;
    }

    method MergeImpl(from: UDMMessage)
      requires from != this
      modifies this`impl
      ensures impl == Merge(old(impl), from.impl)
    {
      if from.impl.topicName != [] {
        impl := impl.(topicName := from.impl.topicName);
      }
      if from.impl.variableName != [] {
        impl := impl.(variableName := from.impl.variableName);
      }
      if from.impl.variableUnit != [] {
        impl := impl.(variableUnit := from.impl.variableUnit);
      }
      if from.impl.sourceName != [] {
        impl := impl.(sourceName := from.impl.sourceName);
      }
      if from.impl.value != [] {
        impl := impl.(value := from.impl.value);
      }
      if from.impl.messageType != 0 {
        impl := impl.(messageType := from.impl.messageType);
      }
      if from.impl.lockStat != 0 {
        impl := impl.(lockStat := from.impl.lockStat);
      }
      if from.impl.timestamp != 0 {
        impl := impl.(timestamp := from.impl.timestamp);
      }
      impl := impl.(unknown := impl.unknown + from.impl.unknown);
    }

    method CopyFrom(from: UDMMessage)
      modifies this`impl
      ensures impl == old(from.impl)
    {
      if from == this {
        return;
      }
      Clear();
      MergeImpl(from);
      assert [] + from.impl.unknown == from.impl.unknown;
    }
  }
}
