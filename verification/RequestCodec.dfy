/**
 Request and Parameter (UdmRequestQueue.cpp): a counted list of typed byte
 strings behind a fixed header, with sizes in network order.
 */
module RequestCodec {
  import opened Common
  import opened ByteArrays

  const HEADER_SIZE := 15
  const PARAMETER_HEADER_SIZE := 5
  /** Version 3, no marker, no extension, type 1, as the bit fields are laid out from the low end. */
  const BASE_HEADER: Byte := 35

  // ------------------------------------------------------------- byte orders

  /** The k low octets of v, the most significant first: swap2network. */
  function BigEndian(v: nat, k: nat): (r: Str)
    ensures |r| == k
  {
    if k == 0 then [] else BigEndian(v / 256, k - 1) + [v % 256]
  }

  /** swap2local */
  function FromBigEndian(b: Str): nat {
    if b == [] then 0 else 256 * FromBigEndian(b[..|b| - 1]) + b[|b| - 1]
  }

  /** An integer of k octets as it lies in the memory of the host. */
  function LittleEndian(v: nat, k: nat): (r: Str)
    ensures |r| == k
  {
    if k == 0 then [] else [v % 256] + LittleEndian(v / 256, k - 1)
  }

  function FromLittleEndian(b: Str): nat {
    if b == [] then 0 else b[0] + 256 * FromLittleEndian(b[1..])
  }

  /** 256 to the k. */
  function Values(k: nat): (r: nat)
    ensures r > 0
  {
    if k == 0 then 1 else 256 * Values(k - 1)
  }

  lemma {:induction false} BigEndianReads(v: nat, k: nat)
    ensures FromBigEndian(BigEndian(v, k)) == v <==> v < Values(k)
    ensures FromBigEndian(BigEndian(v, k)) <= v
    decreases k
  {
    if k > 0 {
      BigEndianReads(v / 256, k - 1);
      var b := BigEndian(v, k);
      assert b[..|b| - 1] == BigEndian(v / 256, k - 1);
    }
  }

  lemma {:induction false} LittleEndianReads(v: nat, k: nat)
    requires v < Values(k)
    ensures FromLittleEndian(LittleEndian(v, k)) == v
    decreases k
  {
    if k > 0 {
      LittleEndianReads(v / 256, k - 1);
      assert LittleEndian(v, k)[1..] == LittleEndian(v / 256, k - 1);
    }
  }

  lemma ValuesAre()
    ensures Values(2) == 0x1_0000 && Values(4) == TWO_32 && Values(8) == TWO_64
  {
    assert Values(2) == 0x1_0000;
    assert Values(4) == TWO_32;
    assert Values(6) == 0x1_0000_0000_0000;
  }

  // --------------------------------------------------------------- the format

  datatype Parameter = Parameter(kind: Byte, bytes: Str)

  datatype Request = Request(name: Str, sender: Str, parameters: seq<Parameter>)

  function EncodeParameter(p: Parameter): (r: Str)
    ensures |r| == PARAMETER_HEADER_SIZE + |p.bytes|
  {
    [p.kind] + BigEndian(|p.bytes|, 4) + p.bytes
  }

  function EncodeParameters(ps: seq<Parameter>): Str {
    if ps == [] then [] else EncodeParameter(ps[0]) + EncodeParameters(ps[1..])
  }

  function EncodeHeader(r: Request): (h: Str)
    ensures |h| == HEADER_SIZE
  {
    var length := |r.name| + |r.sender| + |EncodeParameters(r.parameters)|;
    [BASE_HEADER] + BigEndian(0, 2) + BigEndian(length, 4) + BigEndian(|r.parameters|, 4)
    + BigEndian(|r.name|, 2) + BigEndian(|r.sender|, 2)
  }

  function EncodeRequest(r: Request): Str {
    EncodeHeader(r) + (r.name + (r.sender + EncodeParameters(r.parameters)))
  }

  /** None stands for the exception on a short header and for a size beyond the buffer, which is asserted. */
  function ReadParameter(b: Str): (r: Option<(Parameter, nat)>)
    ensures r.Some? ==> PARAMETER_HEADER_SIZE <= r.value.1 <= |b| && r.value.1 == PARAMETER_HEADER_SIZE + |r.value.0.bytes|
  {
    if |b| < PARAMETER_HEADER_SIZE then None
    else
      var index := PARAMETER_HEADER_SIZE + FromBigEndian(b[1..5]);
      if |b| < index then None else Some((Parameter(b[0], b[5..index]), index))
  }

  /** The loop over the parameters: until the count is reached or the bytes run out. */
  function ReadParameters(b: Str, count: nat): Option<(seq<Parameter>, nat)>
    decreases |b|
  {
    if b == [] || count == 0 then Some(([], 0))
    else
      match ReadParameter(b)
      case None => None
      case Some(p) =>
        match ReadParameters(b[p.1..], count - 1)
        case None => None
        case Some(ps) => Some(([p.0] + ps.0, p.1 + ps.1))
  }

  /** The request at the front of b and its length; None also where the source reads beyond the buffer. */
  function ReadRequest(b: Str): Option<(Request, nat)> {
    if |b| < HEADER_SIZE then None
    else
      var n := HEADER_SIZE + FromBigEndian(b[11..13]);
      var index := n + FromBigEndian(b[13..15]);
      if |b| < index then None
      else
        match ReadParameters(b[index..], FromBigEndian(b[7..11]))
        case None => None
        case Some(ps) => Some((Request(b[HEADER_SIZE..n], b[n..index], ps.0), index + ps.1))
  }

  // ------------------------------------------------------------------ proofs

  predicate Sized(ps: seq<Parameter>) {
    forall p :: p in ps ==> |p.bytes| < TWO_32
  }

  lemma ReadParameterOfEncoded(p: Parameter, rest: Str)
    requires |p.bytes| < TWO_32
    ensures ReadParameter(EncodeParameter(p) + rest) == Some((p, |EncodeParameter(p)|))
  {
    var size := BigEndian(|p.bytes|, 4);
    var b := EncodeParameter(p) + rest;
    assert b == [p.kind] + size + p.bytes + rest;
    assert b[1..5] == size && b[5..5 + |p.bytes|] == p.bytes;
    BigEndianReads(|p.bytes|, 4);
    ValuesAre();
    hide BigEndian, FromBigEndian, Values;
  }

  lemma {:induction false} ReadParametersOfEncoded(ps: seq<Parameter>, rest: Str)
    requires Sized(ps)
    ensures ReadParameters(EncodeParameters(ps) + rest, |ps|) == Some((ps, |EncodeParameters(ps)|))
    decreases |ps|
  {
    hide ReadParameter, EncodeParameter, ReadParameters, EncodeParameters;
    EncodedFirst(ps);
    if ps == [] {
      NoneToRead(rest);
      assert [] + rest == rest;
    } else {
      var head, tail := EncodeParameter(ps[0]), EncodeParameters(ps[1..]);
      Associates(head, tail, rest);
      ReadParameterOfEncoded(ps[0], tail + rest);
      ReadParametersOfEncoded(ps[1..], rest);
      FirstParameter(head + tail + rest, |ps|);
      assert [ps[0]] + ps[1..] == ps;
    }
  }

  lemma EncodedFirst(ps: seq<Parameter>)
    ensures EncodeParameters(ps) == if ps == [] then [] else EncodeParameter(ps[0]) + EncodeParameters(ps[1..])
  {
  }

  lemma NoneToRead(b: Str)
    ensures ReadParameters(b, 0) == Some(([], 0))
  {
  }

  lemma FirstParameter(b: Str, count: nat)
    requires b != [] && count > 0 && ReadParameter(b).Some?
    ensures var p := ReadParameter(b).value;
            var ps := ReadParameters(b[p.1..], count - 1);
            ReadParameters(b, count) == if ps.None? then None else Some(([p.0] + ps.value.0, p.1 + ps.value.1))
  {
  }

  /** What the decoder finds in an encoded header: all sizes, those of the names cut to 16 bits. */
  lemma ReadHeaderOfEncoded(r: Request, more: Str)
    requires |r.parameters| < TWO_32
    ensures var b := EncodeHeader(r) + more;
            && FromBigEndian(b[7..11]) == |r.parameters|
            && FromBigEndian(b[11..13]) == FromBigEndian(BigEndian(|r.name|, 2))
            && FromBigEndian(b[13..15]) == FromBigEndian(BigEndian(|r.sender|, 2))
            && b[HEADER_SIZE..] == more
  {
    var b := EncodeHeader(r) + more;
    hide BigEndian, FromBigEndian, EncodeParameters;
    assert b[7..11] == BigEndian(|r.parameters|, 4);
    assert b[11..13] == BigEndian(|r.name|, 2);
    assert b[13..15] == BigEndian(|r.sender|, 2);
    BigEndianReads(|r.parameters|, 4);
    ValuesAre();
  }

  predicate NamesFit(r: Request) {
    |r.name| < 0x1_0000 && |r.sender| < 0x1_0000
  }

  /** What follows the header. */
  function Body(r: Request, rest: Str): Str {
    r.name + (r.sender + (EncodeParameters(r.parameters) + rest))
  }

  lemma HeaderAndBody(r: Request, rest: Str)
    ensures EncodeRequest(r) + rest == EncodeHeader(r) + Body(r, rest)
    ensures |EncodeRequest(r)| == HEADER_SIZE + |r.name| + |r.sender| + |EncodeParameters(r.parameters)|
  {
    hide EncodeHeader, EncodeParameters;
    var ps := EncodeParameters(r.parameters);
    Associates(EncodeHeader(r), r.name + (r.sender + ps), rest);
    Associates(r.name, r.sender + ps, rest);
    Associates(r.sender, ps, rest);
  }

  /** A request is read back, whatever follows it, exactly when its two names fit 16 bits. */
  lemma {:induction false} RequestRoundTripExactly(r: Request, rest: Str)
    requires |r.parameters| < TWO_32 && Sized(r.parameters)
    ensures ReadRequest(EncodeRequest(r) + rest) == Some((r, |EncodeRequest(r)|)) <==> NamesFit(r)
  {
    hide EncodeRequest, ReadRequest, EncodeHeader, EncodeParameters, BigEndian, FromBigEndian, Values, Body;
    HeaderAndBody(r, rest);
    ReadHeaderOfEncoded(r, Body(r, rest));
    BigEndianReads(|r.name|, 2);
    BigEndianReads(|r.sender|, 2);
    ValuesAre();
    if NamesFit(r) {
      ReadBody(EncodeHeader(r) + Body(r, rest), r, rest);
    } else {
      NamesAreCut(EncodeHeader(r) + Body(r, rest));
    }
  }

  lemma NamesAreCut(b: Str)
    requires |b| >= HEADER_SIZE
    ensures var r := ReadRequest(b);
            r.Some? ==> |r.value.0.name| == FromBigEndian(b[11..13]) && |r.value.0.sender| == FromBigEndian(b[13..15])
  {
  }

  lemma ReadBody(b: Str, r: Request, rest: Str)
    requires Sized(r.parameters) && |b| >= HEADER_SIZE && b[HEADER_SIZE..] == Body(r, rest)
    requires FromBigEndian(b[7..11]) == |r.parameters|
    requires FromBigEndian(b[11..13]) == |r.name| && FromBigEndian(b[13..15]) == |r.sender|
    ensures ReadRequest(b)
         == Some((r, HEADER_SIZE + |r.name| + |r.sender| + |EncodeParameters(r.parameters)|))
  {
    hide FromBigEndian, EncodeParameters, ReadParameters;
    ReadParametersOfEncoded(r.parameters, rest);
    FromHeader(b, Body(r, rest), r.name, r.sender, EncodeParameters(r.parameters) + rest);
  }

  lemma FromHeader(b: Str, more: Str, name: Str, sender: Str, rest: Str)
    requires |b| >= HEADER_SIZE && b[HEADER_SIZE..] == more == name + (sender + rest)
    ensures var n := HEADER_SIZE + |name|;
            && n + |sender| <= |b|
            && b[HEADER_SIZE..n] == name && b[n..n + |sender|] == sender && b[n + |sender|..] == rest
  {
    assert b == b[..HEADER_SIZE] + name + sender + rest;
  }

  /** A parameter that breaks off is refused. */
  lemma ShortParameterIsRefused(p: Parameter, k: nat)
    requires |p.bytes| < TWO_32 && k < |EncodeParameter(p)|
    ensures ReadParameter(EncodeParameter(p)[..k]) == None
  {
    var size := BigEndian(|p.bytes|, 4);
    var b := EncodeParameter(p)[..k];
    if k >= PARAMETER_HEADER_SIZE {
      assert b[1..5] == size;
      BigEndianReads(|p.bytes|, 4);
      ValuesAre();
    }
    hide BigEndian, FromBigEndian, Values;
  }

  /** A request that breaks off before its parameters is refused. */
  lemma ShortRequestIsRefused(r: Request, k: nat)
    requires NamesFit(r) && |r.parameters| < TWO_32 && k < HEADER_SIZE + |r.name| + |r.sender|
    ensures ReadRequest(EncodeRequest(r)[..k]) == None
  {
    if k >= HEADER_SIZE {
      var more := r.name + (r.sender + EncodeParameters(r.parameters));
      hide EncodeHeader, EncodeParameters, BigEndian, FromBigEndian, Values, ReadParameters;
      ReadHeaderOfEncoded(r, more[..k - HEADER_SIZE]);
      assert EncodeRequest(r)[..k] == EncodeHeader(r) + more[..k - HEADER_SIZE];
      BigEndianReads(|r.name|, 2);
      BigEndianReads(|r.sender|, 2);
      ValuesAre();
    }
  }

  /** The byte orders, on numbers of two octets. */
  lemma ByteOrders(high: Byte, low: Byte)
    ensures BigEndian(256 * high + low, 2) == [high, low] && BigEndian(256 * high + low, 4) == [0, 0, high, low]
    ensures LittleEndian(256 * high + low, 4) == [low, high, 0, 0]
  {
    var v := 256 * high + low;
    assert v / 256 == high && v % 256 == low;
    assert high / 256 == 0;
    assert BigEndian(high, 1) == [high] && BigEndian(high, 3) == [0, 0, high] by {
      assert BigEndian(0, 1) == [0] && BigEndian(0, 2) == [0, 0];
    }
    assert LittleEndian(high, 3) == [high, 0, 0] by {
      assert LittleEndian(0, 1) == [0] && LittleEndian(0, 2) == [0, 0];
    }
  }

  /** The bytes of a small request with one parameter: header, the two names, then type, size and contents. */
  lemma RequestLayout(name: Str, sender: Str, kind: Byte, bytes: Str)
    requires |name| + |sender| + |bytes| < 250
    ensures EncodeRequest(Request(name, sender, [Parameter(kind, bytes)]))
         == [35] + [0, 0] + [0, 0, 0, |name| + |sender| + 5 + |bytes|] + [0, 0, 0, 1] + [0, |name|] + [0, |sender|]
            + (name + (sender + ([kind] + [0, 0, 0, |bytes|] + bytes)))
  {
    hide EncodeParameters, EncodeHeader, EncodeParameter;
    OneParameter(Parameter(kind, bytes));
    ParameterLayout(Parameter(kind, bytes));
    HeaderLayout(Request(name, sender, [Parameter(kind, bytes)]));
  }

  lemma ParameterLayout(p: Parameter)
    requires |p.bytes| < 256
    ensures EncodeParameter(p) == [p.kind] + [0, 0, 0, |p.bytes|] + p.bytes
  {
    hide BigEndian;
    ByteOrders(0, |p.bytes|);
  }

  lemma HeaderLayout(r: Request)
    requires |r.name| < 256 && |r.sender| < 256 && |r.parameters| < 256
    requires |r.name| + |r.sender| + |EncodeParameters(r.parameters)| < 256
    ensures var length := |r.name| + |r.sender| + |EncodeParameters(r.parameters)|;
            EncodeHeader(r)
            == [35] + [0, 0] + [0, 0, 0, length] + [0, 0, 0, |r.parameters|] + [0, |r.name|] + [0, |r.sender|]
  {
    hide BigEndian, LittleEndian, EncodeParameters;
    ByteOrders(0, |r.name| + |r.sender| + |EncodeParameters(r.parameters)|);
    ByteOrders(0, 0);
    ByteOrders(0, |r.parameters|);
    ByteOrders(0, |r.name|);
    ByteOrders(0, |r.sender|);
  }

  lemma OneParameter(p: Parameter)
    ensures EncodeParameters([p]) == EncodeParameter(p)
  {
    assert [p][1..] == [];
  }

  // ------------------------------------------------------------- the objects

  /** Parameter::serialize */
  method SerializeParameter(p: Parameter, buffer: ByteArray)
    requires buffer.Valid()
    modifies buffer, buffer.bytes
    ensures buffer.Valid() && buffer.Contents() == old(buffer.Contents()) + EncodeParameter(p)
    ensures buffer.bytes == old(buffer.bytes) || fresh(buffer.bytes)
  {
    buffer.AppendTwo([p.kind] + BigEndian(|p.bytes|, 4), p.bytes);
    Associates(old(buffer.Contents()), [p.kind] + BigEndian(|p.bytes|, 4), p.bytes);
  }

  lemma {:induction false} EncodeParametersSnoc(ps: seq<Parameter>, p: Parameter)
    ensures EncodeParameters(ps + [p]) == EncodeParameters(ps) + EncodeParameter(p)
    decreases |ps|
  {
    if ps == [] {
      assert [p][1..] == [];
    } else {
      assert (ps + [p])[1..] == ps[1..] + [p];
      EncodeParametersSnoc(ps[1..], p);
      Associates(EncodeParameter(ps[0]), EncodeParameters(ps[1..]), EncodeParameter(p));
    }
  }

  /** Request::serialize into a fresh buffer: room for everything is made first, so nothing is dropped. */
  method SerializeRequest(r: Request, buffer: ByteArray)
    requires buffer.Valid() && buffer.size == 0
    modifies buffer, buffer.bytes
    ensures buffer.Valid() && buffer.Contents() == EncodeRequest(r)
    ensures buffer.bytes == old(buffer.bytes) || fresh(buffer.bytes)
  {
    hide EncodeParameters, EncodeParameter, EncodeHeader;
    var payloadLength := |r.name| + |r.sender| + PredictSize(r.parameters);
    buffer.ReMalloc(HEADER_SIZE + payloadLength);
    var ok := buffer.Append(EncodeHeader(r));
    ok := buffer.Append(r.name);
    assert buffer.Contents() == EncodeHeader(r) + r.name;
    ok := buffer.Append(r.sender);
    assert buffer.Contents() == EncodeHeader(r) + r.name + r.sender;
    SerializeParameters(r.parameters, buffer);
    HeaderAndBody(r, []);
    Associates(EncodeHeader(r) + r.name, r.sender, EncodeParameters(r.parameters));
    Associates(EncodeHeader(r), r.name, r.sender + EncodeParameters(r.parameters));
  }

  /** Its loop over the parameters. */
  method SerializeParameters(ps: seq<Parameter>, buffer: ByteArray)
    requires buffer.Valid()
    modifies buffer, buffer.bytes
    ensures buffer.Valid() && buffer.Contents() == old(buffer.Contents()) + EncodeParameters(ps)
    ensures buffer.bytes == old(buffer.bytes) || fresh(buffer.bytes)
  {
    hide EncodeParameters, EncodeParameter;
    ghost var front := buffer.Contents();
    NoParameters();
    assert ps[..0] == [] && front + [] == front;
    for i := 0 to |ps|
      invariant buffer.Valid() && buffer.Contents() == front + EncodeParameters(ps[..i])
      invariant buffer.bytes == old(buffer.bytes) || fresh(buffer.bytes)
    {
      SerializeParameter(ps[i], buffer);
      assert ps[..i + 1] == ps[..i] + [ps[i]];
      EncodeParametersSnoc(ps[..i], ps[i]);
      Associates(front, EncodeParameters(ps[..i]), EncodeParameter(ps[i]));
    }
    assert ps[..|ps|] == ps;
  }

  lemma NoParameters()
    ensures EncodeParameters([]) == []
  {
  }

  /** m_paramaterPredictSize, added up as the parameters were. */
  function PredictSize(ps: seq<Parameter>): (n: nat)
    ensures n == |EncodeParameters(ps)|
  {
    if ps == [] then 0 else PARAMETER_HEADER_SIZE + |ps[0].bytes| + PredictSize(ps[1..])
  }

  /** What the loop has read so far and what it is still to read make up the whole. */
  ghost predicate ReadSoFar(data: Str, from: nat, count: nat, index: nat, ps: seq<Parameter>)
    requires from <= index <= |data| && |ps| <= count
  {
    var all, rest := ReadParameters(data[from..], count), ReadParameters(data[index..], count - |ps|);
    all == if rest.None? then None else Some((ps + rest.value.0, index - from + rest.value.1))
  }

  lemma NothingRead(data: Str, from: nat, count: nat)
    requires from <= |data|
    ensures ReadSoFar(data, from, count, from, [])
  {
    hide ReadParameters;
    var all := ReadParameters(data[from..], count);
    assert all.Some? ==> [] + all.value.0 == all.value.0;
  }

  lemma ReadOneMore(data: Str, from: nat, count: nat, index: nat, ps: seq<Parameter>)
    requires from <= index < |data| && |ps| < count && ReadSoFar(data, from, count, index, ps)
    ensures var p := ReadParameter(data[index..]);
            if p.None? then ReadParameters(data[from..], count) == None
            else ReadSoFar(data, from, count, index + p.value.1, ps + [p.value.0])
  {
    hide ReadParameter;
    var p := ReadParameter(data[index..]);
    if p.Some? {
      FirstParameter(data[index..], count - |ps|);
      assert data[index..][p.value.1..] == data[index + p.value.1..];
      hide ReadParameters;
      var rest := ReadParameters(data[index + p.value.1..], count - |ps| - 1);
      if rest.Some? {
        Associates(ps, [p.value.0], rest.value.0);
      }
    }
  }

  /** The loop of Request::deserialize. */
  method DeserializeParameters(data: Str, from: nat, parameterCount: nat) returns (r: Option<(seq<Parameter>, nat)>)
    requires from <= |data|
    ensures var ps := ReadParameters(data[from..], parameterCount);
            r == if ps.None? then None else Some((ps.value.0, from + ps.value.1))
  {
    hide ReadParameter, ReadSoFar;
    var index, parameters := from, [];
    NothingRead(data, from, parameterCount);
    while index < |data| && |parameters| < parameterCount
      invariant from <= index <= |data| && |parameters| <= parameterCount
      invariant ReadSoFar(data, from, parameterCount, index, parameters)
    {
      ReadOneMore(data, from, parameterCount, index, parameters);
      var p := ReadParameter(data[index..]);
      if p.None? {
        return None;
      }
      index, parameters := index + p.value.1, parameters + [p.value.0];
    }
    AllRead(data, from, parameterCount, index, parameters);
    r := Some((parameters, index));
  }

  lemma AllRead(data: Str, from: nat, count: nat, index: nat, ps: seq<Parameter>)
    requires from <= index <= |data| && |ps| <= count && ReadSoFar(data, from, count, index, ps)
    requires index == |data| || |ps| == count
    ensures ReadParameters(data[from..], count) == Some((ps, index - from))
  {
    assert ps + [] == ps;
  }

  /** Request::deserialize: the request and the index behind it. */
  method DeserializeRequest(data: Str) returns (r: Option<(Request, nat)>)
    ensures r == ReadRequest(data)
  {
    hide FromBigEndian, ReadParameters;
    if |data| < HEADER_SIZE {
      return None;
    }
    var index := HEADER_SIZE;
    var requestNameLength, senderNameLength := FromBigEndian(data[11..13]), FromBigEndian(data[13..15]);
    var parameterCount := FromBigEndian(data[7..11]);
    if |data| < index + requestNameLength + senderNameLength {
      return None;
    }
    var requestName := data[index..index + requestNameLength];
    index := index + requestNameLength;
    var senderName := data[index..index + senderNameLength];
    index := index + senderNameLength;
    var ps := DeserializeParameters(data, index, parameterCount);
    if ps.None? {
      return None;
    }
    r := Some((Request(requestName, senderName, ps.value.0), ps.value.1));
  }
}
