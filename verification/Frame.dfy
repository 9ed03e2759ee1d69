/**
 UdmMessage (UdmMessage.cpp): the frame  topic ++ "@" ++ NUL ++ protobuf,  its
 encoder over a reused ByteArray, and its decoder, whose strtok writes into the
 received bytes before they are stored for relaying.
 */
module Frames {
  import opened Common
  import opened Wire
  import opened UdmMessagePb
  import opened ByteArrays

  const AT: Byte := 64
  const NUL: Byte := 0

  function Encode(topic: Str, m: Udm): Str {
    topic + [AT, NUL] + Serialize(m)
  }

  // ------------------------------------------ strtok(ptr, "@"), first call

  /** The delimiters strtok skips at the front. */
  function LeadingAts(b: Str): (k: nat)
    ensures k <= |b|
    ensures forall i :: 0 <= i < k ==> b[i] == AT
    ensures k < |b| ==> b[k] != AT
  {
    if b == [] || b[0] != AT then 0 else 1 + LeadingAts(b[1..])
  }

  /** The length of the run up to the next delimiter or terminator. */
  function Span(b: Str): (k: nat)
    ensures k <= |b|
    ensures forall i :: 0 <= i < k ==> b[i] != AT && b[i] != NUL
    ensures k < |b| ==> b[k] == AT || b[k] == NUL
  {
    if b == [] || b[0] == AT || b[0] == NUL then 0 else 1 + Span(b[1..])
  }

  /** strlen of the token; zero stands for the null pointer, as a token is never empty. */
  function TokenLength(b: Str): nat {
    Span(b[LeadingAts(b)..])
  }

  /** The buffer after strtok: the delimiter that ended the token is overwritten. */
  function AfterStrtok(b: Str): (r: Str)
    ensures |r| == |b|
  {
    var end := LeadingAts(b) + TokenLength(b);
    if TokenLength(b) > 0 && end < |b| && b[end] == AT then b[end := NUL] else b
  }

  /** Where the decoder starts parsing: strlen(token) + 2, or 2 without a token. */
  function ParseOffset(b: Str): nat {
    TokenLength(b) + 2
  }

  datatype Decoded = Decoded(stored: Str, message: Option<Udm>)

  /** What deserialize leaves in the buffer and what it reads from it. */
  function Decode(utf8: Str -> bool, b: Str): Decoded {
    var after := AfterStrtok(b);
    Decoded(after,
            if |b| < ParseOffset(b) then None
            else Parse(UdmStep(utf8), EMPTY, after[ParseOffset(b)..]))
  }

  predicate CleanTopic(topic: Str) {
    AT !in topic && NUL !in topic
  }

  // ------------------------------------------------------------------ proofs

  lemma LeadingAtsIs(b: Str, k: nat)
    requires k <= |b| && (forall i :: 0 <= i < k ==> b[i] == AT) && (k < |b| ==> b[k] != AT)
    ensures LeadingAts(b) == k
  {
  }

  lemma SpanIs(b: Str, k: nat)
    requires k <= |b| && (forall i :: 0 <= i < k ==> b[i] != AT && b[i] != NUL)
    requires k < |b| ==> b[k] == AT || b[k] == NUL
    ensures Span(b) == k
  {
  }

  /** In a terminated buffer: delimiters are skipped, the token runs to the next delimiter or terminator, which alone is overwritten. */
  lemma StrtokSplits(b: Str)
    requires NUL in b
    ensures var start, n, r := LeadingAts(b), TokenLength(b), AfterStrtok(b);
            && start + n < |b| == |r|
            && (forall i :: 0 <= i < start ==> b[i] == AT)
            && (forall i :: start <= i < start + n ==> b[i] != AT && b[i] != NUL)
            && (b[start + n] == AT || b[start + n] == NUL) && (n == 0 ==> b[start] == NUL)
            && forall i :: 0 <= i < |b| ==> r[i] == if n > 0 && i == start + n then NUL else b[i]
  {
    var z :| 0 <= z < |b| && b[z] == NUL;
    assert TokenLength(b) == Span(b[LeadingAts(b)..]);
    hide LeadingAts, Span, AfterStrtok, TokenLength;
    SpanIn(b, LeadingAts(b), z);
    OneIsOverwritten(b, LeadingAts(b), Span(b[LeadingAts(b)..]));
  }

  lemma OneIsOverwritten(b: Str, start: nat, n: nat)
    requires start == LeadingAts(b) && n == Span(b[start..]) && start + n < |b| && (b[start + n] == AT || b[start + n] == NUL)
    ensures forall i :: 0 <= i < |b| ==> AfterStrtok(b)[i] == if n > 0 && i == start + n then NUL else b[i]
  {
    hide LeadingAts, Span;
  }

  lemma SpanIn(b: Str, start: nat, z: nat)
    requires start <= z < |b| && b[z] == NUL
    ensures var n := Span(b[start..]);
            && start + n < |b| && (b[start + n] == AT || b[start + n] == NUL)
            && forall i :: start <= i < start + n ==> b[i] != AT && b[i] != NUL
  {
    var tail := b[start..];
    assert tail[z - start] == NUL;
    hide Span;
    forall i | start <= i < start + Span(tail)
      ensures b[i] != AT && b[i] != NUL
    {
      assert tail[i - start] == b[i];
    }
    assert tail[Span(tail)] == b[start + Span(tail)];
  }

  /** Splitting a second time finds the same token and writes nothing new, for every buffer. */
  lemma StrtokIsIdempotent(b: Str)
    ensures LeadingAts(AfterStrtok(b)) == LeadingAts(b)
    ensures TokenLength(AfterStrtok(b)) == TokenLength(b)
    ensures AfterStrtok(AfterStrtok(b)) == AfterStrtok(b)
  {
    var k, n := LeadingAts(b), TokenLength(b);
    var r := AfterStrtok(b);
    var tail := b[k..];
    assert forall i :: 0 <= i < n ==> b[k + i] == tail[i];
    assert k + n < |b| ==> b[k + n] == tail[n];
    if n > 0 {
      assert forall i :: 0 <= i < k + n ==> r[i] == b[i];
      LeadingAtsIs(r, k);
      assert forall i :: 0 <= i < n ==> r[k..][i] == tail[i];
      SpanIs(r[k..], n);
    }
  }

  /** What a hop stores decodes, at the next hop, to the same message and the same bytes. */
  lemma RelayedFrameIsFixed(utf8: Str -> bool, b: Str)
    ensures Decode(utf8, Decode(utf8, b).stored) == Decode(utf8, b)
  {
    StrtokIsIdempotent(b);
  }

  /** The outcome at hop n when every hop relays the bytes it stored; hop 0 receives b. */
  function Relay(utf8: Str -> bool, b: Str, n: nat): Decoded {
    if n == 0 then Decode(utf8, b) else Decode(utf8, Relay(utf8, b, n - 1).stored)
  }

  /** Any received buffer: all hops see the message of the first and store the bytes it stored. */
  lemma {:induction false} EveryHopAgrees(utf8: Str -> bool, b: Str, n: nat)
    ensures Relay(utf8, b, n) == Decode(utf8, b)
  {
    hide Decode;
    if n > 0 {
      EveryHopAgrees(utf8, b, n - 1);
      RelayedFrameIsFixed(utf8, b);
    }
  }

  function Header(topic: Str): Str {
    topic + [AT, NUL]
  }

  lemma LastOfHeader(topic: Str)
    ensures LeadingAts(Header(topic)) <= |topic| + 1 && ParseOffset(Header(topic)) <= |topic| + 2
    ensures LeadingAts(Header(topic)) + TokenLength(Header(topic)) <= |topic| + 1
  {
    var h := Header(topic);
    var k := LeadingAts(h);
    assert h[|topic|] == AT && h[|topic| + 1] == NUL;
    var tail := h[k..];
    assert k <= |topic| ==> tail[|topic| - k] == AT;
    assert k == |topic| + 1 ==> tail[0] == NUL;
  }

  /** What the decoder finds between where it starts and the payload: a matter of the topic alone. */
  function Residue(topic: Str): Str {
    LastOfHeader(topic);
    AfterStrtok(Header(topic))[ParseOffset(Header(topic))..]
  }

  lemma TokenInFront(h: Str, rest: Str)
    requires LeadingAts(h) + TokenLength(h) < |h|
    ensures LeadingAts(h + rest) == LeadingAts(h) && TokenLength(h + rest) == TokenLength(h)
  {
    var b, k, n := h + rest, LeadingAts(h), TokenLength(h);
    assert forall i :: 0 <= i <= k ==> b[i] == h[i];
    LeadingAtsIs(b, k);
    var front, tail := h[k..], b[k..];
    assert forall i :: 0 <= i <= n ==> tail[i] == front[i];
    SpanIs(tail, n);
  }

  /** The split happens inside the header, whatever payload follows. */
  lemma HeaderDecides(topic: Str, payload: Str)
    ensures ParseOffset(Header(topic) + payload) == ParseOffset(Header(topic))
    ensures AfterStrtok(Header(topic) + payload) == AfterStrtok(Header(topic)) + payload
  {
    hide LeadingAts, TokenLength;
    LastOfHeader(topic);
    TokenInFront(Header(topic), payload);
  }

  /** Every frame is decoded as the residue of its topic and then its payload. */
  lemma FrameDecodes(utf8: Str -> bool, topic: Str, m: Udm)
    ensures Decode(utf8, Encode(topic, m)).message == Parse(UdmStep(utf8), EMPTY, Residue(topic) + Serialize(m))
    ensures Decode(utf8, Encode(topic, m)).stored == AfterStrtok(Header(topic)) + Serialize(m)
  {
    hide Serialize, Parse, UdmStep, AfterStrtok, ParseOffset;
    HeaderDecides(topic, Serialize(m));
    LastOfHeader(topic);
    var h, at := AfterStrtok(Header(topic)), ParseOffset(Header(topic));
    assert (h + Serialize(m))[at..] == h[at..] + Serialize(m);
  }

  /** The residue is nothing that shows: no bytes, or records that set defaults or the topic name, which the payload sets again. */
  predicate SafeTopic(utf8: Str -> bool, topic: Str) {
    var p := Parse(UdmStep(utf8), EMPTY, Residue(topic));
    p.Some? && p.value.(topicName := []) == EMPTY
  }

  /** The decoder starts exactly at the payload iff the topic holds neither a delimiter nor a terminator. */
  lemma OffsetIsHeaderSize(topic: Str)
    ensures Residue(topic) == [] <==> CleanTopic(topic)
  {
    var h := Header(topic);
    var k := LeadingAts(h);
    var tail := h[k..];
    LastOfHeader(topic);
    assert forall i :: 0 <= i < |topic| ==> h[i] == topic[i];
    assert h[|topic|] == AT && h[|topic| + 1] == NUL;
    if CleanTopic(topic) {
      if topic == [] {
        LeadingAtsIs(h, 1);
        SpanIs(tail, 0);
      } else {
        LeadingAtsIs(h, 0);
        SpanIs(tail, |topic|);
      }
    } else if k == |topic| + 1 {
      SpanIs(tail, 0);
    } else {
      assert tail[|topic| - k] == AT;
      if k == 0 {
        var j :| 0 <= j < |topic| && (topic[j] == AT || topic[j] == NUL);
        assert tail[j] == topic[j];
      }
    }
  }

  lemma ResidueEndsInNul(topic: Str)
    ensures Residue(topic) != [] ==> EndsInNul(Residue(topic))
  {
    LastOfHeader(topic);
    var h := Header(topic);
    assert h[|h| - 1] == NUL;
  }

  lemma NoTopicNoResidue(topic: Str)
    requires Residue(topic) != []
    ensures topic != []
  {
    hide Residue;
    OffsetIsHeaderSize([]);
  }

  lemma MergeOntoTopic(p: Udm, m: Udm)
    requires p.(topicName := []) == EMPTY && (m.topicName == [] ==> p.topicName == [])
    ensures Merge(p, m) == m
  {
    assert [] + m.unknown == m.unknown;
  }

  /**
   A frame carries the topic of its message. Behind a safe topic every
   well-formed message comes back, and any other is refused.
   */
  lemma {:induction false} FrameRoundTrip(utf8: Str -> bool, m: Udm)
    requires SafeTopic(utf8, m.topicName) && Storable(m)
    ensures Decode(utf8, Encode(m.topicName, m)).message == if WellFormed(utf8, m) then Some(m) else None
  {
    hide Decode, Encode, Residue, Parse, UdmStep, Merge;
    var residue := Residue(m.topicName);
    FrameDecodes(utf8, m.topicName, m);
    ParseExtends(UdmStep(utf8), EMPTY, residue, Serialize(m));
    var p := Parse(UdmStep(utf8), EMPTY, residue).value;
    MergedExactly(utf8, p, m);
    if residue == [] {
      ParseNothing(UdmStep(utf8), EMPTY);
    } else {
      NoTopicNoResidue(m.topicName);
    }
    MergeOntoTopic(p, m);
  }

  /** An accepted residue that is not safe shows in the simplest message of the topic. */
  lemma AcceptedResidueShows(utf8: Str -> bool, topic: Str)
    requires Readable(utf8, topic) && |topic| <= MAX_LEN && !SafeTopic(utf8, topic)
    requires Parse(UdmStep(utf8), EMPTY, Residue(topic)).Some?
    ensures var m := EMPTY.(topicName := topic);
            WellFormed(utf8, m) && Decode(utf8, Encode(topic, m)).message != Some(m)
  {
    hide Decode, Encode, Residue, Parse, UdmStep;
    var m, residue := EMPTY.(topicName := topic), Residue(topic);
    FrameDecodes(utf8, topic, m);
    ParseExtends(UdmStep(utf8), EMPTY, residue, Serialize(m));
    var p := Parse(UdmStep(utf8), EMPTY, residue).value;
    MergedExactly(utf8, p, m);
    if residue == [] {
      ParseNothing(UdmStep(utf8), EMPTY);
    } else {
      NoTopicNoResidue(topic);
    }
    assert p.unknown + [] == p.unknown;
  }

  function Typed(topic: Str, t: Int32): Udm {
    EMPTY.(topicName := topic, messageType := t)
  }

  /** Behind a refused residue one of two messages that differ in their types only is lost. */
  lemma RefusedResidueLoses(utf8: Str -> bool, topic: Str)
    requires Readable(utf8, topic) && |topic| <= MAX_LEN
    requires Parse(UdmStep(utf8), EMPTY, Residue(topic)) == None
    ensures exists t :: 1 <= t <= 2 && WellFormed(utf8, Typed(topic, t))
                        && Decode(utf8, Encode(topic, Typed(topic, t))).message != Some(Typed(topic, t))
  {
    hide Decode, Encode, Residue, Parse, UdmStep, Twins, EndsInNul, Serialize;
    var one, two := Typed(topic, 1), Typed(topic, 2);
    assert WellFormed(utf8, one) && WellFormed(utf8, two);
    FrameDecodes(utf8, topic, one);
    FrameDecodes(utf8, topic, two);
    ParseNothing(UdmStep(utf8), EMPTY);
    ResidueEndsInNul(topic);
    TypedAreTwins(topic);
    TypeIsLost(utf8, EMPTY, Residue(topic), Serialize(one), Serialize(two));
  }

  lemma TypedAreTwins(topic: Str)
    ensures Twins(Serialize(Typed(topic, 1)), Serialize(Typed(topic, 2)))
  {
    hide Serialize;
    var m := EMPTY.(topicName := topic);
    TypeOnTheWire(m, 1);
    TypeOnTheWire(m, 2);
    assert Typed(topic, 1) == m.(messageType := 1) && Typed(topic, 2) == m.(messageType := 2);
    hide RecordsFrom;
    ghost var tail := EncodeFields(RecordsFrom(m, 2));
    assert ([8, 1] + tail)[2..] == tail == ([8, 2] + tail)[2..];
  }

  /**
   The topics every message of which comes back are exactly the safe ones,
   among those that a message can carry at all.
   */
  lemma {:induction false} SafeTopicsExactly(utf8: Str -> bool, topic: Str)
    requires Readable(utf8, topic) && |topic| <= MAX_LEN
    ensures SafeTopic(utf8, topic)
            <==> forall m :: WellFormed(utf8, m) && m.topicName == topic ==> Decode(utf8, Encode(topic, m)).message == Some(m)
  {
    hide Decode, Encode, Residue, Parse, UdmStep;
    if SafeTopic(utf8, topic) {
      forall m | WellFormed(utf8, m) && m.topicName == topic
        ensures Decode(utf8, Encode(topic, m)).message == Some(m)
      {
        FrameRoundTrip(utf8, m);
      }
    } else if Parse(UdmStep(utf8), EMPTY, Residue(topic)).Some? {
      AcceptedResidueShows(utf8, topic);
    } else {
      RefusedResidueLoses(utf8, topic);
      var t :| 1 <= t <= 2 && WellFormed(utf8, Typed(topic, t))
               && Decode(utf8, Encode(topic, Typed(topic, t))).message != Some(Typed(topic, t));
      assert Typed(topic, t).topicName == topic;
    }
  }

  lemma CleanTopicIsSafe(utf8: Str -> bool, topic: Str)
    requires CleanTopic(topic)
    ensures SafeTopic(utf8, topic)
  {
    hide Residue;
    OffsetIsHeaderSize(topic);
  }

  /** "@@@" and U+0108: not clean, yet safe, for its residue is the record of a zero message type. */
  lemma UncleanTopicCanBeSafe(utf8: Str -> bool)
    ensures var topic: Str := [AT, AT, AT, 0xC4, 0x88];
            !CleanTopic(topic) && SafeTopic(utf8, topic)
  {
    var topic: Str := [AT, AT, AT, 0xC4, 0x88];
    var h := Header(topic);
    LeadingAtsIs(h, 3);
    SpanIs(h[3..], 2);
    var r := Residue(topic);
    assert r == [0x88, 0, 0];
    assert r[1..] == [0, 0] && r[2..] == [0] && r[3..] == [];
    assert RawVarint(r[1..], 4) == Some(Varint(0, 1));
    assert ReadKey(r) == Some(Key(1, 0, 2));
    assert ReadField(r) == Some((Field(1, Varint64(0)), 3));
    assert UdmStep(utf8)(EMPTY, Field(1, Varint64(0))) == Some(EMPTY);
  }

  /** "@@@@" and two more characters: safe, although its residue is a topic name, of two NULs. */
  lemma ResidueCanNameATopic(utf8: Str -> bool)
    requires utf8([NUL, NUL])
    ensures var topic: Str := [AT, AT, AT, AT, 0x12, 0x02];
            SafeTopic(utf8, topic) && Parse(UdmStep(utf8), EMPTY, Residue(topic)) != Some(EMPTY)
  {
    var topic: Str := [AT, AT, AT, AT, 0x12, 0x02];
    var h := Header(topic);
    LeadingAtsIs(h, 4);
    SpanIs(h[4..], 2);
    var r := Residue(topic);
    assert r == [0x12, 2, 0, 0];
    assert r[1..] == [2, 0, 0] && r[4..] == [] && r[1..][1..3] == [0, 0];
    assert RawVarint(r[1..], 5) == Some(Varint(2, 1));
    assert ReadKey(r) == Some(Key(2, 2, 1));
    var f := Field(2, Delimited([NUL, NUL]));
    assert ReadField(r) == Some((f, 4));
    assert UdmStep(utf8)(EMPTY, f) == Some(EMPTY.(topicName := [NUL, NUL]));
  }

  /** A frame sent once behind a safe topic reaches every hop of a relay chain unchanged in meaning. */
  lemma {:induction false} FrameSurvivesRelay(utf8: Str -> bool, m: Udm, n: nat)
    requires SafeTopic(utf8, m.topicName) && WellFormed(utf8, m)
    ensures Relay(utf8, Encode(m.topicName, m), n).message == Some(m)
  {
    hide Decode, Encode, SafeTopic;
    EveryHopAgrees(utf8, Encode(m.topicName, m), n);
    FrameRoundTrip(utf8, m);
  }

  /** Not every unclean topic is safe: behind one delimiter at its end no message is ever decoded. */
  lemma TrailingAtIsRejected(utf8: Str -> bool, t: Str, m: Udm)
    requires t != [] && CleanTopic(t)
    ensures Decode(utf8, Encode(t + [AT], m)).message == None && !SafeTopic(utf8, t + [AT])
  {
    hide Serialize;
    var h := Header(t + [AT]);
    assert h == t + [AT, AT, NUL];
    LeadingAtsIs(h, 0);
    assert forall i :: 0 <= i < |t| ==> h[i] == t[i];
    SpanIs(h[0..], |t|);
    assert Residue(t + [AT]) == [NUL];
    FrameDecodes(utf8, t + [AT], m);
    ZeroTagIsRefused(utf8, Serialize(m));
    ZeroTagIsRefused(utf8, []);
    assert [NUL] + [] == [NUL];
  }

  /** A buffer that ends with the terminator of its token, with no delimiter before it, is no frame. */
  lemma UndelimitedIsRefused(utf8: Str -> bool, t: Str)
    requires CleanTopic(t)
    ensures |t + [NUL]| < ParseOffset(t + [NUL]) && Decode(utf8, t + [NUL]).message == None
  {
    var b := t + [NUL];
    LeadingAtsIs(b, 0);
    assert forall i :: 0 <= i < |t| ==> b[0..][i] == t[i];
    assert b[0..][|t|] == NUL;
    SpanIs(b[0..], |t|);
  }

  lemma ZeroTagIsRefused(utf8: Str -> bool, rest: Str)
    ensures Parse(UdmStep(utf8), EMPTY, [NUL] + rest) == None
  {
    assert ReadKey([NUL] + rest) == Some(Key(0, 0, 1));
    assert ReadField([NUL] + rest) == None;
  }

  // ------------------------------------------------------------- the object

  class UdmMessage {
    var msgType: Int32
    var topicName: Str
    var variableName: Str
    var variableUnit: Str
    var sourceName: Str
    var timestamp: Uint64
    var lock: Int32
    var valueString: Str
    var valueSize: nat
    const value: ByteArray
    const message: UDMMessage
    const serializeBytes: ByteArray

    ghost predicate Valid()
      reads this, value, serializeBytes
    {
      && value != serializeBytes
      && value.Valid() && serializeBytes.Valid()
      && (value.bytes != null ==> value.bytes != serializeBytes.bytes)
    }

    constructor ()
      ensures Valid() && fresh(value) && fresh(message) && fresh(serializeBytes)
      ensures value.bytes == null && serializeBytes.bytes == null && message.impl == EMPTY
      ensures topicName == [] && lock == 0 && timestamp == 0 && sourceName == []
    {
      msgType, topicName, variableName, variableUnit := 0, [], [], [];
      sourceName, timestamp, lock, valueString, valueSize := [], 0, 0, [], 0;
      value := new ByteArray();
      message := new UDMMessage();
      serializeBytes := new ByteArray();
    }

    /** The bytes that go into the value field: the byte array when it holds any, else the string. */
    ghost function Payload(): Str
      requires value.Valid()
      reads this, value, value.bytes
    {
      if value.size > 0 then value.Contents() else valueString
    }

    /** The protobuf message the members describe; unknown records stay from the last decode. */
    ghost function Content(): Udm
      requires value.Valid()
      reads this, value, value.bytes, message
    {
      Udm(msgType, topicName, variableName, variableUnit, sourceName, lock, timestamp, Payload(),
          message.impl.unknown)
    }

    /** The message says what the members say, each in its own field. */
    ghost predicate Holds(m: Udm)
      requires value.Valid()
      reads this, value, value.bytes
    {
      && m.messageType == msgType
      && m.topicName == topicName
      && m.variableName == variableName
      && m.variableUnit == variableUnit
      && m.sourceName == sourceName
      && m.timestamp == timestamp
      && m.lockStat == lock
      && m.value == (if value.size > 0 then value.Contents() else valueString)
    }

    /** What the members were set to by a decode of m. */
    ghost predicate Shows(m: Udm)
      requires value.Valid()
      reads this, value, value.bytes
    {
      && msgType == m.messageType && topicName == m.topicName
      && variableName == m.variableName && variableUnit == m.variableUnit
      && sourceName == m.sourceName && timestamp == m.timestamp && lock == m.lockStat
      && valueString == m.value && valueSize == |m.value| && value.Contents() == m.value
    }

    /** Sizes are 32-bit. */
    static predicate Addressable(topic: Str, m: Udm) {
      ShortStrings(m) && |topic| + 2 + |Serialize(m)| < TWO_32
    }

    /** The tail shared by the three encoders; false stands for the thrown exception. */
    method WriteFrame(topic: Str) returns (ok: bool)
      requires serializeBytes.Valid() && Addressable(topic, message.impl)
      modifies message`cachedSize, serializeBytes, serializeBytes.bytes
      ensures serializeBytes.Valid()
      ensures ok == (|Serialize(message.impl)| < TWO_31)
      ensures ok ==> serializeBytes.Contents() == Encode(topic, message.impl)
      ensures serializeBytes.bytes == old(serializeBytes.bytes) || fresh(serializeBytes.bytes)
    {
      hide Serialize;
      var headerSize := |topic| + 2;
      var payloadSize := message.ByteSizeLong();
      var size := payloadSize + headerSize;
      serializeBytes.ReMalloc(size);
      serializeBytes.Memcpy(0, topic);
      var ptr := serializeBytes.bytes;
      ptr[|topic|] := AT;
      ptr[|topic| + 1] := NUL;
      ghost var header := topic + [AT, NUL];
      assert ptr[..headerSize] == header;
      var res, payload := message.SerializeToArray(payloadSize);
      if !res {
        return false;
      }
      serializeBytes.Memcpy(headerSize, payload);
      assert ptr[..size] == header + payload;
      var fits := serializeBytes.SetSize(size);
      ok := true;
    }

    method SerializeMembers() returns (ok: bool)
      requires Valid() && Addressable(topicName, Content())
      modifies message, serializeBytes, serializeBytes.bytes
      ensures Valid() && message.impl == old(Content())
      ensures Holds(message.impl) && message.impl.unknown == old(message.impl.unknown)
      ensures ok == (|Serialize(message.impl)| < TWO_31)
      ensures ok ==> serializeBytes.Contents() == Encode(topicName, message.impl)
    {
      message.impl := message.impl.(timestamp := timestamp, lockStat := lock);
      message.impl := message.impl.(topicName := topicName, variableName := variableName);
      message.impl := message.impl.(variableUnit := variableUnit, sourceName := sourceName);
      message.impl := message.impl.(messageType := msgType);
      if value.size > 0 {
        message.impl := message.impl.(value := value.bytes[..value.size]);
      } else {
        message.impl := message.impl.(value := valueString);
      }
      ok := WriteFrame(message.impl.topicName);
    }

    /** The encoder of explicit arguments; sender, time and lock come from the members. */
    method SerializeAs(newType: Int32, newValue: Str, topic: Str, variable: Str, unit: Str) returns (ok: bool)
      requires Valid()
      requires Addressable(topic, Udm(newType, topic, variable, unit, sourceName, lock, timestamp, newValue,
                                      message.impl.unknown))
      modifies message, serializeBytes, serializeBytes.bytes
      ensures Valid()
      ensures message.impl == Udm(newType, topic, variable, unit, sourceName, lock, timestamp, newValue,
                                  old(message.impl.unknown))
      ensures message.impl.messageType == newType && message.impl.value == newValue
      ensures message.impl.topicName == topic && message.impl.variableName == variable && message.impl.variableUnit == unit
      ensures message.impl.sourceName == sourceName && message.impl.timestamp == timestamp && message.impl.lockStat == lock
      ensures ok == (|Serialize(message.impl)| < TWO_31)
      ensures ok ==> serializeBytes.Contents() == Encode(topic, message.impl)
    {
      message.impl := message.impl.(messageType := newType, value := newValue);
      message.impl := message.impl.(variableName := variable, variableUnit := unit, topicName := topic);
      message.impl := message.impl.(sourceName := sourceName, timestamp := timestamp, lockStat := lock);
      ok := WriteFrame(topic);
    }

    /** strspn(buf, "@"); z is a terminator. */
    static method SkipDelimiters(buf: array<Byte>, ghost z: nat) returns (start: nat)
      requires z < buf.Length && buf[z] == NUL
      ensures start == LeadingAts(buf[..]) <= z
    {
      start := 0;
      while buf[start] == AT
        invariant 0 <= start <= z
        invariant forall i :: 0 <= i < start ==> buf[i] == AT
        decreases z - start
      {
        start := start + 1;
      }
      LeadingAtsIs(buf[..], start);
    }

    /** strtok on a terminated buffer: skip delimiters, take the run, overwrite the delimiter after it. */
    static method Strtok(buf: array<Byte>) returns (length: nat)
      requires NUL in buf[..]
      modifies buf
      ensures length == TokenLength(old(buf[..]))
      ensures buf[..] == AfterStrtok(old(buf[..]))
    {
      ghost var z :| 0 <= z < buf.Length && buf[z] == NUL;
      var start := SkipDelimiters(buf, z);
      ghost var tail := buf[..][start..];
      var end := start;
      while buf[end] != AT && buf[end] != NUL
        invariant start <= end <= z
        invariant forall i :: start <= i < end ==> buf[i] != AT && buf[i] != NUL
        decreases z - end
      {
        end := end + 1;
      }
      length := end - start;
      assert tail[length] == buf[end];
      SpanIs(tail, length);
      if length > 0 && buf[end] == AT {
        buf[end] := NUL;
      }
    }

    /** The members take over a parsed message. */
    method TakeMembers()
      requires Valid()
      modifies this, value, value.bytes
      ensures Valid() && Shows(message.impl)
      ensures value.bytes == old(value.bytes) || fresh(value.bytes)
    {
      var m := message.impl;
      msgType := m.messageType;
      topicName := m.topicName;
      variableName := m.variableName;
      variableUnit := m.variableUnit;
      valueSize := |m.value|;
      sourceName := m.sourceName;
      timestamp := m.timestamp;
      lock := m.lockStat;
      valueString := m.value;
      value.SetBytes(m.value);
    }

    /** The decoder: the received buffer is written by strtok, parsed, and stored as it then is. */
    method Deserialize(utf8: Str -> bool, buf: array<Byte>) returns (ok: bool)
      requires Valid() && NUL in buf[..]
      requires buf != value.bytes && buf != serializeBytes.bytes
      modifies this, buf, message, value, value.bytes, serializeBytes, serializeBytes.bytes
      ensures Valid()
      ensures buf[..] == Decode(utf8, old(buf[..])).stored
      ensures ok == Decode(utf8, old(buf[..])).message.Some?
      ensures ok ==> message.impl == Decode(utf8, old(buf[..])).message.value && Shows(message.impl)
      ensures ok ==> Content() == message.impl
      ensures ok ==> serializeBytes.Contents() == buf[..]
    {
      hide AfterStrtok, TokenLength, Parse, UdmStep;
      var token := Strtok(buf);
      var parseSize := token + 2;
      if buf.Length < parseSize {
        return false;
      }
      assert buf[parseSize..] == buf[..][parseSize..];
      var res := message.ParseFromArray(utf8, buf[parseSize..]);
      if !res {
        return false;
      }
      TakeMembers();
      serializeBytes.SetBytes(buf[..]);
      ok := true;
    }
  }

  /**
   One object frames its members and another decodes a copy of the bytes: exactly
   when the message is well-formed and small enough it shows them all, one by one.
   */
  method Transfer(utf8: Str -> bool, from: UdmMessage, to: UdmMessage) returns (ok: bool)
    requires from.Valid() && to.Valid() && Apart(from, to)
    requires UdmMessage.Addressable(from.topicName, from.Content())
    requires SafeTopic(utf8, from.topicName) && Storable(from.message.impl)
    modifies from.message, from.serializeBytes, from.serializeBytes.bytes
    modifies to, to.message, to.value, to.value.bytes, to.serializeBytes, to.serializeBytes.bytes
    ensures from.Valid() && to.Valid()
    ensures ok == old(WellFormed(utf8, from.Content()) && |Serialize(from.Content())| < TWO_31)
    ensures ok ==>
              && to.msgType == old(from.msgType)
              && to.topicName == old(from.topicName)
              && to.variableName == old(from.variableName)
              && to.variableUnit == old(from.variableUnit)
              && to.sourceName == old(from.sourceName)
              && to.timestamp == old(from.timestamp)
              && to.lock == old(from.lock)
              && to.value.Contents() == to.valueString == old(from.Payload())
  {
    hide Serialize, Encode, Decode, SafeTopic, WellFormed;
    ghost var m := from.Content();
    ok := from.SerializeMembers();
    if ok {
      FrameRoundTrip(utf8, m);
      FrameHasTerminator(m.topicName, m);
      var data := if from.serializeBytes.bytes == null then [] else from.serializeBytes.bytes[..from.serializeBytes.size];
      var buf := new Byte[|data|](i requires 0 <= i < |data| => data[i]);
      assert buf[..] == data == Encode(m.topicName, m);
      ok := to.Deserialize(utf8, buf);
    }
  }

  /** The two objects share nothing. */
  ghost predicate Apart(from: UdmMessage, to: UdmMessage)
    reads from, to, from.value, from.serializeBytes, to.value, to.serializeBytes
  {
    && from != to && from.message != to.message
    && {from.value, from.serializeBytes} !! {to.value, to.serializeBytes}
    && (from.value.bytes != null ==> from.value.bytes !in {to.value.bytes, to.serializeBytes.bytes})
    && (from.serializeBytes.bytes != null ==> from.serializeBytes.bytes !in {to.value.bytes, to.serializeBytes.bytes})
  }

  lemma FrameHasTerminator(topic: Str, m: Udm)
    ensures NUL in Encode(topic, m)
  {
    assert Encode(topic, m)[|topic| + 1] == NUL;
  }
}
