/**
 UdmMsg (UdmMsg.cpp): the messages of the UDP socket, a topic header and a
 Request of eight parameters. Only its byte array form sends, and that form
 takes the size of the value from a buffer still empty.
 */
module Datagrams {
  import opened Common
  import opened ByteArrays
  import opened RequestCodec
  import Frames

  // ValueType
  const BOOL: Byte := 1
  const UCHARS: Byte := 5
  const INT32: Byte := 10
  const UINT64: Byte := 13
  const STRING: Byte := 17

  const NUL: Byte := 0
  /** "udmmessage" */
  const REQUEST_NAME: Str := [117, 100, 109, 109, 101, 115, 115, 97, 103, 101]
  const SENDER_NAME: Str := [32]

  datatype Msg = Msg(
    msgType: Int32,
    topicName: Str,
    variableName: Str,
    variableUnit: Str,
    sourceName: Str,
    timestamp: Uint64,
    lock: Int32,
    value: Str)

  // ------------------------------------------------------------- parameters

  /** The bits of an int32 as an unsigned number. */
  function Unsigned(v: Int32): nat {
    if v < 0 then TWO_32 + v else v
  }

  function Signed(v: nat): Int32
    requires v < TWO_32
  {
    if v < TWO_31 then v else v - TWO_32
  }

  function StringParameter(s: Str): Parameter {
    Parameter(STRING, s + [NUL])
  }

  function Int32Parameter(v: Int32): Parameter {
    Parameter(INT32, LittleEndian(Unsigned(v), 4))
  }

  function Uint64Parameter(v: Uint64): Parameter {
    Parameter(UINT64, LittleEndian(v, 8))
  }

  /** What the serializer adds; the value is a byte array of no bytes, whatever it was. */
  function ParametersOf(m: Msg): seq<Parameter> {
    [StringParameter(m.topicName), StringParameter(m.variableName), StringParameter(m.variableUnit),
     StringParameter(m.sourceName), Uint64Parameter(m.timestamp), Int32Parameter(m.msgType), Int32Parameter(m.lock),
     Parameter(UCHARS, [])]
  }

  function RequestOf(m: Msg): Request {
    Request(REQUEST_NAME, SENDER_NAME, ParametersOf(m))
  }

  function Encode(m: Msg): Str {
    Frames.Header(m.topicName) + EncodeRequest(RequestOf(m))
  }

  /** The C string at the front of the bytes; None where the source reads on beyond them. */
  function CString(b: Str): Option<Str> {
    if b == [] then None
    else if b[0] == NUL then Some([])
    else
      match CString(b[1..])
      case None => None
      case Some(s) => Some([b[0]] + s)
  }

  /** A string up to its first NUL. */
  function Cut(s: Str): Str {
    if s == [] || s[0] == NUL then [] else [s[0]] + Cut(s[1..])
  }

  /** The getters answer the default for a parameter of another kind; None is memory that was not written. */
  function GetString(p: Parameter): Option<Str> {
    if p.kind != STRING then Some([]) else CString(p.bytes)
  }

  function GetUint64(p: Parameter): Option<Uint64> {
    if p.kind != UINT64 then Some(0)
    else if |p.bytes| != 8 then None
    else
      FromLittleEndianIsShort(p.bytes);
      ValuesAre();
      Some(FromLittleEndian(p.bytes))
  }

  function GetInt32(p: Parameter): Option<Int32> {
    if p.kind != INT32 then Some(0)
    else if |p.bytes| != 4 then None
    else
      FromLittleEndianIsShort(p.bytes);
      ValuesAre();
      Some(Signed(FromLittleEndian(p.bytes)))
  }

  function GetBool(p: Parameter): Option<Int32> {
    if p.kind != BOOL then Some(0)
    else if |p.bytes| != 1 || p.bytes[0] > 1 then None
    else Some(p.bytes[0])
  }

  /** The value the object holds afterwards; an empty byte array is not allocated, and then it keeps what it held. */
  function GetValue(p: Parameter, held: Str): Option<Str> {
    if p.kind == STRING then CString(p.bytes)
    else Some(if p.kind == UCHARS && p.bytes != [] then p.bytes else held)
  }

  /** Refused: shorter than its header. Undefined: an exception, or a read beyond a buffer. */
  datatype Outcome = Refused | Undefined | Shown(m: Msg)

  function Show(ps: seq<Parameter>, held: Str): Outcome {
    if |ps| < 8 then Undefined
    else
      var topic, variable, unit, source := GetString(ps[0]), GetString(ps[1]), GetString(ps[2]), GetString(ps[3]);
      var time, kind, lock, value := GetUint64(ps[4]), GetInt32(ps[5]), GetBool(ps[6]), GetValue(ps[7], held);
      if topic.None? || variable.None? || unit.None? || source.None?
         || time.None? || kind.None? || lock.None? || value.None? then Undefined
      else
        Shown(Msg(kind.value, topic.value, variable.value, unit.value, source.value, time.value, lock.value, value.value))
  }

  /** deserialize into an object that holds a value; assertions are compiled out. */
  function Decode(b: Str, held: Str): Outcome {
    if |b| < Frames.ParseOffset(b) then Refused
    else
      match ReadRequest(Frames.AfterStrtok(b)[Frames.ParseOffset(b)..])
      case None => Undefined
      case Some(r) => Show(r.0.parameters, held)
  }

  // ------------------------------------------------------------------ proofs

  lemma {:induction false} FromLittleEndianIsShort(b: Str)
    ensures FromLittleEndian(b) < Values(|b|)
    decreases |b|
  {
    if b != [] {
      FromLittleEndianIsShort(b[1..]);
    }
  }

  lemma {:induction false} TerminatedIsCut(s: Str)
    ensures CString(s + [NUL]) == Some(Cut(s))
    decreases |s|
  {
    if s != [] && s[0] != NUL {
      TerminatedIsCut(s[1..]);
      assert (s + [NUL])[1..] == s[1..] + [NUL];
    }
  }

  lemma {:induction false} CutIsWhole(s: Str)
    ensures Cut(s) == s <==> NUL !in s
    decreases |s|
  {
    if s != [] && s[0] != NUL {
      CutIsWhole(s[1..]);
      assert s == [s[0]] + s[1..];
      assert ([s[0]] + Cut(s[1..]))[1..] == Cut(s[1..]);
    }
  }

  lemma NumbersAreRead(t: Uint64, v: Int32)
    ensures GetUint64(Uint64Parameter(t)) == Some(t) && GetInt32(Int32Parameter(v)) == Some(v)
  {
    ValuesAre();
    LittleEndianReads(t, 8);
    LittleEndianReads(Unsigned(v), 4);
    hide LittleEndian, FromLittleEndian, Values;
  }

  /** Sizes are 32-bit. */
  predicate Addressable(m: Msg) {
    |Encode(m)| < TWO_32
  }

  /** What arrives of a message: strings end at their first NUL, no lock, and no value. */
  function Arrived(m: Msg, held: Str): Msg {
    Msg(m.msgType, Cut(m.topicName), Cut(m.variableName), Cut(m.variableUnit), Cut(m.sourceName), m.timestamp, 0, held)
  }

  lemma ParametersShow(m: Msg, held: Str)
    ensures Show(ParametersOf(m), held) == Shown(Arrived(m, held))
  {
    TerminatedIsCut(m.topicName);
    TerminatedIsCut(m.variableName);
    TerminatedIsCut(m.variableUnit);
    TerminatedIsCut(m.sourceName);
    NumbersAreRead(m.timestamp, m.msgType);
    hide GetUint64, GetInt32, CString, Cut, LittleEndian;
  }

  /** The decoder also shows what other encoders add: a value as a string or as bytes, and a lock as a bool. */
  lemma OtherParametersShow(m: Msg, held: Str, value: Str, lock: Byte)
    requires lock <= 1
    ensures Show(ParametersOf(m)[7 := StringParameter(value)], held) == Shown(Arrived(m, Cut(value)))
    ensures Show(ParametersOf(m)[7 := Parameter(UCHARS, value)], held)
         == Shown(Arrived(m, if value == [] then held else value))
    ensures Show(ParametersOf(m)[6 := Parameter(BOOL, [lock])], held) == Shown(Arrived(m, held).(lock := lock))
  {
    TerminatedIsCut(m.topicName);
    TerminatedIsCut(m.variableName);
    TerminatedIsCut(m.variableUnit);
    TerminatedIsCut(m.sourceName);
    TerminatedIsCut(value);
    NumbersAreRead(m.timestamp, m.msgType);
    hide GetUint64, GetInt32, CString, Cut, LittleEndian;
  }

  lemma ParametersAreSized(m: Msg)
    requires Addressable(m)
    ensures Sized(ParametersOf(m))
  {
    hide EncodeRequest, EncodeParameters, ParametersOf;
    HeaderAndBody(RequestOf(m), []);
    ParametersWeigh(ParametersOf(m));
  }

  lemma {:induction false} ParametersWeigh(ps: seq<Parameter>)
    ensures forall p :: p in ps ==> |p.bytes| <= |EncodeParameters(ps)|
  {
    if ps != [] {
      ParametersWeigh(ps[1..]);
    }
  }

  /**
   Every datagram is decoded as the residue of its topic and then its request,
   and what the receive buffer holds behind it.
   */
  lemma DatagramDecodes(m: Msg, rest: Str, held: Str)
    ensures Decode(Encode(m) + rest, held)
         == match ReadRequest(Frames.Residue(m.topicName) + (EncodeRequest(RequestOf(m)) + rest))
            case None => Undefined
            case Some(r) => Show(r.0.parameters, held)
  {
    hide EncodeRequest, ReadRequest, RequestOf, Show, Frames.AfterStrtok, Frames.ParseOffset;
    var h, body := Frames.Header(m.topicName), EncodeRequest(RequestOf(m)) + rest;
    Associates(h, EncodeRequest(RequestOf(m)), rest);
    Frames.HeaderDecides(m.topicName, body);
    Frames.LastOfHeader(m.topicName);
    var at := Frames.ParseOffset(h);
    assert (Frames.AfterStrtok(h) + body)[at..] == Frames.AfterStrtok(h)[at..] + body;
  }

  /** A string parameter on the wire: its type, its size with the terminator, its characters. */
  function TextPart(s: Str): Str {
    [17] + BigEndian(|s| + 1, 4) + (s + [0])
  }

  function NumberPart(kind: Byte, size: Byte, bytes: Str): Str {
    [kind] + [0, 0, 0, size] + bytes
  }

  lemma PartsAre(m: Msg)
    ensures var ps := ParametersOf(m);
            && EncodeParameter(ps[0]) == TextPart(m.topicName)
            && EncodeParameter(ps[1]) == TextPart(m.variableName)
            && EncodeParameter(ps[2]) == TextPart(m.variableUnit)
            && EncodeParameter(ps[3]) == TextPart(m.sourceName)
            && EncodeParameter(ps[4]) == NumberPart(13, 8, LittleEndian(m.timestamp, 8))
            && EncodeParameter(ps[5]) == NumberPart(10, 4, LittleEndian(Unsigned(m.msgType), 4))
            && EncodeParameter(ps[6]) == NumberPart(10, 4, LittleEndian(Unsigned(m.lock), 4))
            && EncodeParameter(ps[7]) == NumberPart(5, 0, [])
  {
    ParameterLayout(Uint64Parameter(m.timestamp));
    ParameterLayout(Int32Parameter(m.msgType));
    ParameterLayout(Int32Parameter(m.lock));
    ParameterLayout(Parameter(UCHARS, []));
    hide BigEndian, LittleEndian, Unsigned;
  }

  /** The parameters of a message, byte by byte: four texts, the time, the type, the lock, and an empty array. */
  lemma MessageLayout(m: Msg)
    ensures EncodeParameters(ParametersOf(m))
         == TextPart(m.topicName) + (TextPart(m.variableName) + (TextPart(m.variableUnit) + (TextPart(m.sourceName)
            + (NumberPart(13, 8, LittleEndian(m.timestamp, 8))
            + (NumberPart(10, 4, LittleEndian(Unsigned(m.msgType), 4))
            + (NumberPart(10, 4, LittleEndian(Unsigned(m.lock), 4))
            + NumberPart(5, 0, [])))))))
  {
    hide BigEndian, LittleEndian, EncodeParameters, EncodeParameter, TextPart, NumberPart, Unsigned;
    PartsAre(m);
    EightInARow(ParametersOf(m));
  }

  lemma EightInARow(ps: seq<Parameter>)
    requires |ps| == 8
    ensures EncodeParameters(ps)
         == EncodeParameter(ps[0]) + (EncodeParameter(ps[1]) + (EncodeParameter(ps[2]) + (EncodeParameter(ps[3])
            + (EncodeParameter(ps[4]) + (EncodeParameter(ps[5]) + (EncodeParameter(ps[6]) + EncodeParameter(ps[7])))))))
  {
    hide EncodeParameters, EncodeParameter;
    assert ps[0..] == ps;
    EncodedFrom(ps, 0);
    EncodedFrom(ps, 1);
    EncodedFrom(ps, 2);
    EncodedFrom(ps, 3);
    EncodedFrom(ps, 4);
    EncodedFrom(ps, 5);
    EncodedFrom(ps, 6);
    assert ps[7..] == [ps[7]];
    OneParameter(ps[7]);
  }

  lemma EncodedFrom(ps: seq<Parameter>, i: nat)
    requires i < |ps|
    ensures EncodeParameters(ps[i..]) == EncodeParameter(ps[i]) + EncodeParameters(ps[i + 1..])
  {
    EncodedFirst(ps[i..]);
    assert ps[i..][1..] == ps[i + 1..];
  }

  /** Behind a clean topic, this is what arrives, whatever the value was and whatever the buffer held. */
  lemma {:induction false} DatagramShows(m: Msg, rest: Str, held: Str)
    requires Frames.CleanTopic(m.topicName) && Addressable(m)
    ensures Decode(Encode(m) + rest, held) == Shown(Arrived(m, held))
  {
    hide Encode, Decode, EncodeRequest, ReadRequest, Show, Arrived, Frames.Residue, ParametersOf;
    DatagramDecodes(m, rest, held);
    Frames.OffsetIsHeaderSize(m.topicName);
    ParametersAreSized(m);
    EightParameters(m);
    RequestRoundTripExactly(RequestOf(m), rest);
    var body := EncodeRequest(RequestOf(m)) + rest;
    assert [] + body == body;
    ParametersShow(m, held);
  }

  /** The decoder asserts seven. */
  lemma EightParameters(m: Msg)
    ensures |ParametersOf(m)| == 8
  {
  }

  /** A buffer with a terminated token and no delimiter is refused. */
  lemma UndelimitedIsRefused(t: Str, held: Str)
    requires Frames.CleanTopic(t)
    ensures Decode(t + [NUL], held) == Refused
  {
    Frames.UndelimitedIsRefused((s: Str) => true, t);
  }

  /** A message survives its datagram exactly when it had no lock, no NUL in a string, and the value already held. */
  lemma {:induction false} DatagramRoundTripExactly(m: Msg, rest: Str, held: Str)
    requires Frames.CleanTopic(m.topicName) && Addressable(m)
    ensures Decode(Encode(m) + rest, held) == Shown(m)
            <==> m.lock == 0 && m.value == held
                 && NUL !in m.variableName && NUL !in m.variableUnit && NUL !in m.sourceName
  {
    hide Encode, Decode;
    DatagramShows(m, rest, held);
    CutIsWhole(m.topicName);
    CutIsWhole(m.variableName);
    CutIsWhole(m.variableUnit);
    CutIsWhole(m.sourceName);
    hide Cut;
  }

  // --------------------------------------------------------------- the object

  class UdmMsg {
    var impl: Msg
    const serializeBytes: ByteArray

    constructor ()
      ensures fresh(serializeBytes) && serializeBytes.Valid() && serializeBytes.bytes == null
      ensures impl == Msg(0, [], [], [], [], 0, 0, [])
    {
      impl := Msg(0, [], [], [], [], 0, 0, []);
      serializeBytes := new ByteArray();
    }

    /** The byte array form of serialize, with the members as arguments. */
    method Serialize()
      requires serializeBytes.Valid() && Addressable(impl)
      modifies serializeBytes, serializeBytes.bytes
      ensures serializeBytes.Valid() && serializeBytes.Contents() == Encode(impl)
    {
      hide EncodeRequest, ParametersOf;
      var reqBytes := new ByteArray();
      SerializeRequest(RequestOf(impl), reqBytes);
      HeaderAndBody(RequestOf(impl), []);
      var body := if reqBytes.bytes == null then [] else reqBytes.bytes[..reqBytes.size];
      PutHeader(|body|);
      var ok := serializeBytes.Append(body);
    }

    /** Room for header and body, and the header in it. */
    method PutHeader(bodySize: nat)
      requires serializeBytes.Valid()
      modifies serializeBytes, serializeBytes.bytes
      ensures serializeBytes.Valid() && serializeBytes.Contents() == Frames.Header(impl.topicName)
      ensures bodySize <= serializeBytes.maxSize - serializeBytes.size
      ensures serializeBytes.bytes == old(serializeBytes.bytes) || fresh(serializeBytes.bytes)
    {
      var topicSize := |impl.topicName|;
      serializeBytes.ReMalloc(bodySize + topicSize + 2);
      serializeBytes.Memcpy(0, impl.topicName);
      var ptr := serializeBytes.bytes;
      ptr[topicSize] := Frames.AT;
      ptr[topicSize + 1] := NUL;
      assert ptr[..topicSize + 2] == impl.topicName + [Frames.AT, NUL];
      var ok := serializeBytes.SetSize(topicSize + 2);
    }

    /** deserialize; an undefined outcome leaves the object alone here. */
    method Deserialize(buf: array<Byte>) returns (outcome: Outcome)
      requires serializeBytes.Valid() && NUL in buf[..] && buf != serializeBytes.bytes
      modifies this, buf, serializeBytes, serializeBytes.bytes
      ensures outcome == Decode(old(buf[..]), old(impl.value)) && buf[..] == Frames.AfterStrtok(old(buf[..]))
      ensures impl == if outcome.Shown? then outcome.m else old(impl)
      ensures serializeBytes.Valid()
      ensures outcome.Shown? ==> serializeBytes.Contents() == buf[..]
    {
      hide ReadRequest, Show, Frames.AfterStrtok, Frames.TokenLength;
      var token := Frames.UdmMessage.Strtok(buf);
      var parseSize := token + 2;
      if buf.Length < parseSize {
        return Refused;
      }
      assert buf[parseSize..] == buf[..][parseSize..];
      var req := DeserializeRequest(buf[parseSize..]);
      if req.None? {
        return Undefined;
      }
      outcome := Show(req.value.0.parameters, impl.value);
      if outcome.Shown? {
        impl := outcome.m;
        serializeBytes.SetBytes(buf[..]);
      }
    }
  }
}
