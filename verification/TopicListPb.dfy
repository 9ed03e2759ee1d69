/** UDM.Node and UDM.topicList (topicList.pb.cc): nested repeated messages with cached sizes. */
module TopicListPb {
  import opened Common
  import opened Wire

  datatype NodeData = NodeData(topicName: Str, name: Str, nodeType: Int32, locked: bool, unknown: seq<Field>)

  datatype ListData = ListData(listType: Int32, nodes: seq<NodeData>, unknown: seq<Field>)

  const EMPTY_NODE := NodeData([], [], 0, false, [])
  const EMPTY_LIST := ListData(0, [], [])

  // -------------------------------------------------------------- UDM.Node

  function BoolVarint(b: bool): Uint64 {
    if b then 1 else 0
  }

  function NodeSlot(m: NodeData, k: nat): seq<Field>
    requires 1 <= k <= 4
  {
    match k
    case 1 => Text(1, m.topicName)
    case 2 => Text(2, m.name)
    case 3 => Scalar(3, SignExtend(m.nodeType))
    case _ => Scalar(4, BoolVarint(m.locked))
  }

  function NodeRecordsFrom(m: NodeData, k: nat): seq<Field>
    requires 1 <= k <= 5
    decreases m, 5 - k
  {
    if k == 5 then m.unknown else NodeSlot(m, k) + NodeRecordsFrom(m, k + 1)
  }

  function NodeRecords(m: NodeData): seq<Field> {
    NodeRecordsFrom(m, 1)
  }

  function SerializeNode(m: NodeData): Str {
    EncodeFields(NodeRecords(m))
  }

  function ApplyToNode(utf8: Str -> bool, m: NodeData, f: Field): Option<NodeData> {
    match f
    case Field(1, Delimited(s)) => if utf8(s) then Some(m.(topicName := s)) else None
    case Field(2, Delimited(s)) => if utf8(s) then Some(m.(name := s)) else None
    case Field(3, Varint64(v)) => Some(m.(nodeType := LowInt32(v)))
    case Field(4, Varint64(v)) => Some(m.(locked := v != 0))
    case _ => Some(m.(unknown := m.unknown + [f]))
  }

  function NodeStep(utf8: Str -> bool): Step<NodeData> {
    (m: NodeData, f: Field) => ApplyToNode(utf8, m, f)
  }

  function ParseNode(utf8: Str -> bool, b: Str): Option<NodeData> {
    Parse(NodeStep(utf8), EMPTY_NODE, b)
  }

  function MergeNode(to: NodeData, from: NodeData): NodeData {
    NodeData(
      if from.topicName != [] then from.topicName else to.topicName,
      if from.name != [] then from.name else to.name,
      if from.nodeType != 0 then from.nodeType else to.nodeType,
      to.locked || from.locked,
      to.unknown + from.unknown)
  }

  predicate KnownToNode(f: Field) {
    || (f.number in {1, 2} && f.payload.Delimited?)
    || (f.number in {3, 4} && f.payload.Varint64?)
  }

  predicate LegibleNode(utf8: Str -> bool, m: NodeData) {
    (m.topicName == [] || utf8(m.topicName)) && (m.name == [] || utf8(m.name))
  }

  /** Every unknown record is one a parse can leave behind. */
  ghost predicate StorableNode(m: NodeData) {
    forall f :: f in m.unknown ==> WireableField(f) && !KnownToNode(f)
  }

  ghost predicate SoundNode(utf8: Str -> bool, m: NodeData) {
    LegibleNode(utf8, m) && StorableNode(m)
  }

  predicate NodeFits(m: NodeData) {
    |m.topicName| <= MAX_LEN && |m.name| <= MAX_LEN
  }

  lemma {:induction false} NodeRecordsAreSized(m: NodeData, k: nat)
    requires StorableNode(m) && 1 <= k <= 5
    ensures Sized(NodeRecordsFrom(m, k))
    ensures NodeFits(m) ==> WireableFields(NodeRecordsFrom(m, k))
    decreases 5 - k
  {
    if k < 5 {
      NodeRecordsAreSized(m, k + 1);
      TextIsWireable(1, m.topicName);
      TextIsWireable(2, m.name);
      WireableConcat(NodeSlot(m, k), NodeRecordsFrom(m, k + 1));
    }
  }

  lemma {:induction false} ApplyUnknownsToNode(utf8: Str -> bool, m: NodeData, fs: seq<Field>)
    requires forall f :: f in fs ==> !KnownToNode(f)
    ensures ApplyAll(NodeStep(utf8), m, fs) == Some(m.(unknown := m.unknown + fs))
    decreases |fs|
  {
    if fs == [] {
      assert m.unknown + fs == m.unknown;
    } else {
      var n := m.(unknown := m.unknown + [fs[0]]);
      assert !KnownToNode(fs[0]);
      assert NodeStep(utf8)(m, fs[0]) == Some(n);
      ApplyUnknownsToNode(utf8, n, fs[1..]);
      assert n.unknown + fs[1..] == m.unknown + fs;
    }
  }

  ghost function MergeNodeBelow(to: NodeData, from: NodeData, k: nat): NodeData {
    var x := MergeNode(to, from);
    NodeData(
      if k > 1 then x.topicName else to.topicName,
      if k > 2 then x.name else to.name,
      if k > 3 then x.nodeType else to.nodeType,
      if k > 4 then x.locked else to.locked,
      to.unknown)
  }

  lemma ApplyNodeSlot(utf8: Str -> bool, to: NodeData, from: NodeData, k: nat)
    requires SoundNode(utf8, from) && 1 <= k <= 4
    ensures |NodeSlot(from, k)| <= 1
    ensures NodeSlot(from, k) == [] ==> MergeNodeBelow(to, from, k) == MergeNodeBelow(to, from, k + 1)
    ensures NodeSlot(from, k) != [] ==>
              NodeStep(utf8)(MergeNodeBelow(to, from, k), NodeSlot(from, k)[0]) == Some(MergeNodeBelow(to, from, k + 1))
  {
    LowInt32OfSignExtend(from.nodeType);
  }

  lemma {:induction false} ApplyNodeRecordsIsMerge(utf8: Str -> bool, to: NodeData, from: NodeData, k: nat)
    requires SoundNode(utf8, from) && 1 <= k <= 5
    ensures ApplyAll(NodeStep(utf8), MergeNodeBelow(to, from, k), NodeRecordsFrom(from, k))
         == Some(MergeNode(to, from))
    decreases 5 - k
  {
    if k == 5 {
      ApplyUnknownsToNode(utf8, MergeNodeBelow(to, from, 5), from.unknown);
    } else {
      ApplyNodeRecordsIsMerge(utf8, to, from, k + 1);
      ApplyNodeSlot(utf8, to, from, k);
      hide NodeSlot, NodeStep, MergeNodeBelow, MergeNode;
      assert NodeRecordsFrom(from, k)[|NodeSlot(from, k)|..] == NodeRecordsFrom(from, k + 1);
    }
  }

  lemma ParseSerializedNode(utf8: Str -> bool, to: NodeData, from: NodeData, rest: Str)
    requires SoundNode(utf8, from) && NodeFits(from)
    ensures Parse(NodeStep(utf8), to, SerializeNode(from) + rest)
         == Parse(NodeStep(utf8), MergeNode(to, from), rest)
  {
    NodeRecordsAreSized(from, 1);
    assert MergeNodeBelow(to, from, 1) == to;
    ApplyNodeRecordsIsMerge(utf8, to, from, 1);
    ParseOfEncoded(NodeStep(utf8), to, NodeRecords(from), rest);
  }

  lemma MergeIntoEmptyNode(m: NodeData)
    ensures MergeNode(EMPTY_NODE, m) == m
  {
    assert EMPTY_NODE.unknown + m.unknown == m.unknown;
  }

  lemma NodeRoundTrip(utf8: Str -> bool, m: NodeData)
    requires SoundNode(utf8, m) && NodeFits(m)
    ensures ParseNode(utf8, SerializeNode(m)) == Some(m)
  {
    ParseSerializedNode(utf8, EMPTY_NODE, m, []);
    assert SerializeNode(m) + [] == SerializeNode(m);
    MergeIntoEmptyNode(m);
  }

  /** The records of the two strings are among those written. */
  lemma StringsAreRecords(m: NodeData)
    ensures m.topicName != [] ==> Field(1, Delimited(m.topicName)) in NodeRecords(m)
    ensures m.name != [] ==> Field(2, Delimited(m.name)) in NodeRecords(m)
  {
    var second := NodeRecordsFrom(m, 2);
    assert NodeRecordsFrom(m, 1) == NodeSlot(m, 1) + second;
    assert second == NodeSlot(m, 2) + NodeRecordsFrom(m, 3);
    hide NodeRecordsFrom;
    assert m.topicName != [] ==> NodeSlot(m, 1)[0] == Field(1, Delimited(m.topicName));
    assert m.name != [] ==> NodeSlot(m, 2)[0] == Field(2, Delimited(m.name));
  }

  /** A node comes back exactly when its strings are readable and fit; otherwise its own bytes are refused. */
  lemma {:induction false} NodeRoundTripExactly(utf8: Str -> bool, m: NodeData)
    requires StorableNode(m)
    ensures ParseNode(utf8, SerializeNode(m)) == if LegibleNode(utf8, m) && NodeFits(m) then Some(m) else None
  {
    hide NodeRecordsFrom, Parse;
    StringsAreRecords(m);
    NodeRecordsAreSized(m, 1);
    if !NodeFits(m) {
      var big := if |m.topicName| > MAX_LEN then Field(1, Delimited(m.topicName)) else Field(2, Delimited(m.name));
      OversizeFailsParse(NodeStep(utf8), EMPTY_NODE, NodeRecords(m), big);
    } else if LegibleNode(utf8, m) {
      NodeRoundTrip(utf8, m);
    } else {
      var bad := if m.topicName != [] && !utf8(m.topicName) then Field(1, Delimited(m.topicName)) else Field(2, Delimited(m.name));
      ParseOfEncoded(NodeStep(utf8), EMPTY_NODE, NodeRecords(m), []);
      RefusedRecord(NodeStep(utf8), EMPTY_NODE, NodeRecords(m), bad);
      assert SerializeNode(m) + [] == SerializeNode(m);
    }
  }

  lemma ParsedNodeIsSound(utf8: Str -> bool, b: Str)
    requires ParseNode(utf8, b).Some?
    ensures SoundNode(utf8, ParseNode(utf8, b).value) && NodeFits(ParseNode(utf8, b).value)
  {
    var inv := (n: NodeData) => SoundNode(utf8, n) && NodeFits(n);
    forall n: NodeData, f: Field | inv(n) && WireableField(f) && NodeStep(utf8)(n, f).Some?
      ensures inv(NodeStep(utf8)(n, f).value)
    {
      if !KnownToNode(f) {
        assert NodeStep(utf8)(n, f).value.unknown == n.unknown + [f];
      }
    }
    ParseKeeps(NodeStep(utf8), inv, EMPTY_NODE, b);
  }

  /** A string is never longer than the message that holds it. */
  lemma NodeOutweighsItsStrings(m: NodeData)
    ensures |m.topicName| <= |SerializeNode(m)| && |m.name| <= |SerializeNode(m)|
  {
    NodeSizes(m, 1);
    NodeSizes(m, 2);
    SingleField(Field(1, Delimited(m.topicName)));
    SingleField(Field(2, Delimited(m.name)));
  }

  lemma NodeSizes(m: NodeData, k: nat)
    requires 1 <= k <= 4
    ensures |EncodeFields(NodeRecordsFrom(m, k))|
         == |EncodeFields(NodeSlot(m, k))| + |EncodeFields(NodeRecordsFrom(m, k + 1))|
  {
    EncodeFieldsConcat(NodeSlot(m, k), NodeRecordsFrom(m, k + 1));
  }

  // ---------------------------------------------------------- UDM.topicList

  /** What any integer record sets: the low 32 bits of the type, and the flag for every number but zero. */
  lemma IntegersAreSet(utf8: Str -> bool, m: NodeData, v: Uint64)
    ensures NodeStep(utf8)(m, Field(3, Varint64(v))) == Some(m.(nodeType := LowInt32(v)))
    ensures NodeStep(utf8)(m, Field(4, Varint64(v))) == Some(m.(locked := v != 0))
  {
  }

  /** The wire format of a node, field by field. */
  lemma NodeLayout(m: NodeData)
    ensures SerializeNode(m)
         == TextBytes(10, m.topicName)
            + (TextBytes(18, m.name)
            + (NumberBytes(24, SignExtend(m.nodeType))
            + ((if m.locked then [32, 1] else [])
            + EncodeFields(m.unknown))))
  {
    TextIsBytes(1, m.topicName);
    TextIsBytes(2, m.name);
    ScalarIsBytes(3, SignExtend(m.nodeType));
    ScalarIsBytes(4, BoolVarint(m.locked));
    EncodeFieldsConcat(NodeSlot(m, 4), NodeRecordsFrom(m, 5));
    EncodeFieldsConcat(NodeSlot(m, 3), NodeRecordsFrom(m, 4));
    EncodeFieldsConcat(NodeSlot(m, 2), NodeRecordsFrom(m, 3));
    EncodeFieldsConcat(NodeSlot(m, 1), NodeRecordsFrom(m, 2));
    assert NumberBytes(32, BoolVarint(m.locked)) == if m.locked then [32, 1] else [];
    hide EncodeFields, TextBytes, NumberBytes;
  }

  function NodeField(n: NodeData): Field {
    Field(2, Delimited(SerializeNode(n)))
  }

  function NodeFields(ns: seq<NodeData>): seq<Field> {
    if ns == [] then [] else [NodeField(ns[0])] + NodeFields(ns[1..])
  }

  function ListRecords(m: ListData): seq<Field> {
    Scalar(1, SignExtend(m.listType)) + (NodeFields(m.nodes) + m.unknown)
  }

  function SerializeList(m: ListData): Str {
    EncodeFields(ListRecords(m))
  }

  /** Every node behind the tag byte 18 and its length. */
  function NodeBytes(ns: seq<NodeData>): Str {
    if ns == [] then []
    else [18] + EncodeVarint(|SerializeNode(ns[0])|) + SerializeNode(ns[0]) + NodeBytes(ns[1..])
  }

  lemma {:induction false} NodeFieldsAreBytes(ns: seq<NodeData>)
    ensures EncodeFields(NodeFields(ns)) == NodeBytes(ns)
    decreases |ns|
  {
    hide SerializeNode;
    if ns != [] {
      NodeFieldsAreBytes(ns[1..]);
      EncodeFieldsConcat([NodeField(ns[0])], NodeFields(ns[1..]));
      SingleField(NodeField(ns[0]));
      Associates([18], EncodeVarint(|SerializeNode(ns[0])|), SerializeNode(ns[0]));
    }
  }

  /** The wire format of a list: its type, its nodes, its unknown records. */
  lemma ListLayout(m: ListData)
    ensures SerializeList(m) == NumberBytes(8, SignExtend(m.listType)) + (NodeBytes(m.nodes) + EncodeFields(m.unknown))
  {
    ScalarIsBytes(1, SignExtend(m.listType));
    NodeFieldsAreBytes(m.nodes);
    EncodeFieldsConcat(NodeFields(m.nodes), m.unknown);
    EncodeFieldsConcat(Scalar(1, SignExtend(m.listType)), NodeFields(m.nodes) + m.unknown);
    hide EncodeFields, NumberBytes, NodeBytes;
  }

  function ApplyToList(utf8: Str -> bool, m: ListData, f: Field): Option<ListData> {
    match f
    case Field(1, Varint64(v)) => Some(m.(listType := LowInt32(v)))
    case Field(2, Delimited(s)) =>
      (match ParseNode(utf8, s)
       case None => None
       case Some(n) => Some(m.(nodes := m.nodes + [n])))
    case _ => Some(m.(unknown := m.unknown + [f]))
  }

  function ListStep(utf8: Str -> bool): Step<ListData> {
    (m: ListData, f: Field) => ApplyToList(utf8, m, f)
  }

  function ParseList(utf8: Str -> bool, b: Str): Option<ListData> {
    Parse(ListStep(utf8), EMPTY_LIST, b)
  }

  function MergeList(to: ListData, from: ListData): ListData {
    ListData(
      if from.listType != 0 then from.listType else to.listType,
      to.nodes + from.nodes,
      to.unknown + from.unknown)
  }

  predicate KnownToList(f: Field) {
    (f.number == 1 && f.payload.Varint64?) || (f.number == 2 && f.payload.Delimited?)
  }

  ghost predicate SoundList(utf8: Str -> bool, m: ListData) {
    LegibleList(utf8, m) && StorableList(m)
  }

  predicate LegibleList(utf8: Str -> bool, m: ListData) {
    forall n :: n in m.nodes ==> LegibleNode(utf8, n)
  }

  /** Every unknown record, of the list and of its nodes, is one a parse can leave behind. */
  ghost predicate StorableList(m: ListData) {
    && (forall n :: n in m.nodes ==> StorableNode(n))
    && forall f :: f in m.unknown ==> WireableField(f) && !KnownToList(f)
  }

  /** Every nested message fits the size prefix ParseMessage accepts. */
  predicate ListFits(m: ListData) {
    forall n :: n in m.nodes ==> |SerializeNode(n)| <= MAX_LEN
  }

  lemma {:induction false} NodeFieldsAreSized(ns: seq<NodeData>)
    ensures Sized(NodeFields(ns))
    ensures WireableFields(NodeFields(ns)) <==> forall n :: n in ns ==> |SerializeNode(n)| <= MAX_LEN
    decreases |ns|
  {
    if ns != [] {
      NodeFieldsAreSized(ns[1..]);
      WireableConcat([NodeField(ns[0])], NodeFields(ns[1..]));
      assert NodeField(ns[0]) in [NodeField(ns[0])];
    }
  }

  lemma ListRecordsAreSized(m: ListData)
    requires StorableList(m)
    ensures Sized(ListRecords(m)) && (WireableFields(ListRecords(m)) <==> ListFits(m))
  {
    NodeFieldsAreSized(m.nodes);
    WireableConcat(NodeFields(m.nodes), m.unknown);
    WireableConcat(Scalar(1, SignExtend(m.listType)), NodeFields(m.nodes) + m.unknown);
  }

  lemma {:induction false} ApplyNodeFields(utf8: Str -> bool, m: ListData, ns: seq<NodeData>)
    requires forall n :: n in ns ==> SoundNode(utf8, n) && NodeFits(n)
    ensures ApplyAll(ListStep(utf8), m, NodeFields(ns)) == Some(m.(nodes := m.nodes + ns))
    decreases |ns|
  {
    hide ParseNode, SerializeNode, SoundNode, NodeFits;
    if ns == [] {
      assert m.nodes + ns == m.nodes;
    } else {
      var n := m.(nodes := m.nodes + [ns[0]]);
      NodeRoundTrip(utf8, ns[0]);
      assert ListStep(utf8)(m, NodeField(ns[0])) == Some(n);
      ApplyNodeFields(utf8, n, ns[1..]);
      assert n.nodes + ns[1..] == m.nodes + ns;
    }
  }

  lemma {:induction false} ApplyUnknownsToList(utf8: Str -> bool, m: ListData, fs: seq<Field>)
    requires forall f :: f in fs ==> !KnownToList(f)
    ensures ApplyAll(ListStep(utf8), m, fs) == Some(m.(unknown := m.unknown + fs))
    decreases |fs|
  {
    if fs == [] {
      assert m.unknown + fs == m.unknown;
    } else {
      var n := m.(unknown := m.unknown + [fs[0]]);
      assert !KnownToList(fs[0]);
      assert ListStep(utf8)(m, fs[0]) == Some(n);
      ApplyUnknownsToList(utf8, n, fs[1..]);
      assert n.unknown + fs[1..] == m.unknown + fs;
    }
  }

  lemma ApplyListRecordsIsMerge(utf8: Str -> bool, to: ListData, from: ListData)
    requires SoundList(utf8, from) && ListFits(from)
    ensures ApplyAll(ListStep(utf8), to, ListRecords(from)) == Some(MergeList(to, from))
  {
    forall n | n in from.nodes
      ensures NodeFits(n)
    {
      NodeOutweighsItsStrings(n);
    }
    LowInt32OfSignExtend(from.listType);
    var head := Scalar(1, SignExtend(from.listType));
    var a := to.(listType := MergeList(to, from).listType);
    var b := a.(nodes := to.nodes + from.nodes);
    ApplyAllConcat(ListStep(utf8), to, head, NodeFields(from.nodes) + from.unknown);
    assert ApplyAll(ListStep(utf8), to, head) == Some(a);
    ApplyAllConcat(ListStep(utf8), a, NodeFields(from.nodes), from.unknown);
    ApplyNodeFields(utf8, a, from.nodes);
    ApplyUnknownsToList(utf8, b, from.unknown);
  }

  lemma ParseSerializedList(utf8: Str -> bool, to: ListData, from: ListData, rest: Str)
    requires SoundList(utf8, from) && ListFits(from)
    ensures Parse(ListStep(utf8), to, SerializeList(from) + rest)
         == Parse(ListStep(utf8), MergeList(to, from), rest)
  {
    ListRecordsAreSized(from);
    ApplyListRecordsIsMerge(utf8, to, from);
    ParseOfEncoded(ListStep(utf8), to, ListRecords(from), rest);
  }

  lemma MergeIntoEmptyList(m: ListData)
    ensures MergeList(EMPTY_LIST, m) == m
  {
    assert EMPTY_LIST.nodes + m.nodes == m.nodes;
    assert EMPTY_LIST.unknown + m.unknown == m.unknown;
  }

  lemma {:induction false} NodeIsRecord(ns: seq<NodeData>, n: NodeData)
    requires n in ns
    ensures NodeField(n) in NodeFields(ns)
    decreases |ns|
  {
    hide SerializeNode;
    if n != ns[0] {
      NodeIsRecord(ns[1..], n);
    }
  }

  /** A list of any number of nodes comes back exactly when every node is readable and fits its size prefix; else it is refused. */
  lemma ListRoundTripExactly(utf8: Str -> bool, m: ListData)
    requires StorableList(m)
    ensures ParseList(utf8, SerializeList(m)) == if ListFits(m) && LegibleList(utf8, m) then Some(m) else None
  {
    hide NodeFields, SerializeNode, ParseNode, Parse, LegibleNode, StorableNode;
    ListRecordsAreSized(m);
    if !ListFits(m) {
      var big :| big in ListRecords(m) && !WireableField(big);
      OversizeFailsParse(ListStep(utf8), EMPTY_LIST, ListRecords(m), big);
    } else if LegibleList(utf8, m) {
      ParseSerializedList(utf8, EMPTY_LIST, m, []);
      assert SerializeList(m) + [] == SerializeList(m);
      MergeIntoEmptyList(m);
      ParseNothing(ListStep(utf8), m);
    } else {
      var n :| n in m.nodes && !LegibleNode(utf8, n);
      NodeIsRecord(m.nodes, n);
      NodeRoundTripExactly(utf8, n);
      assert NodeField(n) in ListRecords(m);
      ParseOfEncoded(ListStep(utf8), EMPTY_LIST, ListRecords(m), []);
      RefusedRecord(ListStep(utf8), EMPTY_LIST, ListRecords(m), NodeField(n));
      assert SerializeList(m) + [] == SerializeList(m);
    }
  }

  lemma ListConcatenationMerges(utf8: Str -> bool, a: ListData, b: ListData)
    requires SoundList(utf8, a) && ListFits(a) && SoundList(utf8, b) && ListFits(b)
    ensures ParseList(utf8, SerializeList(a) + SerializeList(b)) == Some(MergeList(a, b))
  {
    ParseSerializedList(utf8, EMPTY_LIST, a, SerializeList(b));
    MergeIntoEmptyList(a);
    ParseSerializedList(utf8, a, b, []);
    assert SerializeList(b) + [] == SerializeList(b);
  }

  lemma ParsedListIsSound(utf8: Str -> bool, b: Str)
    requires ParseList(utf8, b).Some?
    ensures SoundList(utf8, ParseList(utf8, b).value)
  {
    var inv := (n: ListData) => SoundList(utf8, n);
    forall n: ListData, f: Field | inv(n) && WireableField(f) && ListStep(utf8)(n, f).Some?
      ensures inv(ListStep(utf8)(n, f).value)
    {
      if f.number == 2 && f.payload.Delimited? {
        ParsedNodeIsSound(utf8, f.payload.bytes);
      }
    }
    ParseKeeps(ListStep(utf8), inv, EMPTY_LIST, b);
  }

  /** An accepted list is reproduced by its own encoding exactly when its nodes, re-encoded, still fit. */
  lemma ListReserialization(utf8: Str -> bool, b: Str)
    requires ParseList(utf8, b).Some?
    ensures var m := ParseList(utf8, b).value;
            ParseList(utf8, SerializeList(m)) == if ListFits(m) then Some(m) else None
  {
    ParsedListIsSound(utf8, b);
    ListRoundTripExactly(utf8, ParseList(utf8, b).value);
  }

  /** The key of the type field and the five-byte varint of 0xFFFFFFFF: a type of minus one, in short form. */
  const SHORT_MINUS_ONE: Str := [24, 0xFF, 0xFF, 0xFF, 0xFF, 0x0F]

  lemma ShortMinusOneIsRead()
    ensures ReadField(SHORT_MINUS_ONE) == Some((Field(3, Varint64(0xFFFF_FFFF)), 6))
  {
    var b := SHORT_MINUS_ONE;
    var b1, b2, b3, b4, b5 := b[1..], b[2..], b[3..], b[4..], b[5..];
    assert b1[1..] == b2 && b2[1..] == b3 && b3[1..] == b4 && b4[1..] == b5;
    assert RawVarint(b5, 6) == Some(Varint(0xF, 1));
    assert RawVarint(b4, 7) == Some(Varint(0x7FF, 2));
    assert RawVarint(b3, 8) == Some(Varint(0x3_FFFF, 3));
    assert RawVarint(b2, 9) == Some(Varint(0x1FF_FFFF, 4));
    assert RawVarint(b1, 10) == Some(Varint(0xFFFF_FFFF, 5));
    assert ReadKey(b) == Some(Key(3, 0, 1));
  }

  lemma ParseOne<M>(step: Step<M>, m: M, f: Field, rest: Str)
    requires WireableField(f)
    ensures Parse(step, m, EncodeField(f) + rest)
         == match step(m, f)
            case None => None
            case Some(n) => Parse(step, n, rest)
  {
    hide EncodeField, ReadField;
    ReadFieldOfEncoded(f, rest);
    assert (EncodeField(f) + rest)[|EncodeField(f)|..] == rest;
  }

  lemma UnknownThenMinusOne(utf8: Str -> bool, f: Field)
    requires WireableField(f) && !KnownToNode(f)
    ensures ParseNode(utf8, EncodeField(f) + SHORT_MINUS_ONE) == Some(EMPTY_NODE.(unknown := [f], nodeType := -1))
  {
    hide EncodeField, ReadField;
    var m := EMPTY_NODE.(unknown := [f]);
    ParseOne(NodeStep(utf8), EMPTY_NODE, f, SHORT_MINUS_ONE);
    assert EMPTY_NODE.unknown + [f] == [f];
    assert NodeStep(utf8)(EMPTY_NODE, f) == Some(m);
    ShortMinusOneIsRead();
    assert NodeStep(utf8)(m, Field(3, Varint64(0xFFFF_FFFF))) == Some(m.(nodeType := -1));
    assert SHORT_MINUS_ONE[6..] == [];
  }

  lemma MinusOneIsLong()
    ensures ScalarSize(SignExtend(-1)) == 11
  {
    ScalarLength(3, SignExtend(-1));
    SingleField(Field(3, Varint64(SignExtend(-1))));
    assert |EncodeVarint(0xFFFF_FFFF_FFFF_FFFF)| == 10;
  }

  /** A node of at most MAX_LEN bytes that no longer fits once its type is written in full. */
  lemma GrowingNode(utf8: Str -> bool, filler: Str)
    requires |filler| == MAX_LEN - 12
    ensures var b, m := EncodeField(Field(5, Delimited(filler))) + SHORT_MINUS_ONE,
                        EMPTY_NODE.(unknown := [Field(5, Delimited(filler))], nodeType := -1);
            |b| <= MAX_LEN && ParseNode(utf8, b) == Some(m) && |SerializeNode(m)| > MAX_LEN
  {
    var f := Field(5, Delimited(filler));
    UnknownThenMinusOne(utf8, f);
    VarintSizeIsEncodedLength(|filler|);
    SingleField(f);
    MinusOneIsLong();
    SizeOfNode(EMPTY_NODE.(unknown := [f], nodeType := -1));
    hide ParseNode, SerializeNode, EncodeFields, ScalarSize, EncodeVarint, VarintSize;
  }

  lemma ListOfOne(utf8: Str -> bool, node: NodeData, bytes: Str)
    requires |bytes| <= MAX_LEN && ParseNode(utf8, bytes) == Some(node)
    ensures ParseList(utf8, EncodeField(Field(2, Delimited(bytes)))) == Some(EMPTY_LIST.(nodes := [node]))
  {
    hide ParseNode, EncodeField;
    var f := Field(2, Delimited(bytes));
    ParseOne(ListStep(utf8), EMPTY_LIST, f, []);
    assert EncodeField(f) + [] == EncodeField(f);
    assert EMPTY_LIST.nodes + [node] == [node];
    assert ListStep(utf8)(EMPTY_LIST, f) == Some(EMPTY_LIST.(nodes := [node]));
  }

  /** Not every accepted list survives its own encoding. */
  lemma AcceptedListCanOutgrowItself(utf8: Str -> bool)
    ensures exists b :: ParseList(utf8, b).Some? && ParseList(utf8, SerializeList(ParseList(utf8, b).value)) == None
  {
    var filler: Str := seq(MAX_LEN - 12, _ => 0);
    hide ParseNode, SerializeNode, ParseList, SerializeList, EncodeField;
    var f := Field(5, Delimited(filler));
    var nodeBytes, node := EncodeField(f) + SHORT_MINUS_ONE, EMPTY_NODE.(unknown := [f], nodeType := -1);
    GrowingNode(utf8, filler);
    ListOfOne(utf8, node, nodeBytes);
    var list := EMPTY_LIST.(nodes := [node]);
    assert node in list.nodes;
    ListReserialization(utf8, EncodeField(Field(2, Delimited(nodeBytes))));
  }

  // ------------------------------------------------------------ the objects

  ghost predicate NodeWrittenBelow(target: Str, out: Str, m: NodeData, k: nat)
    requires 1 <= k <= 5
  {
    out + EncodeFields(NodeRecordsFrom(m, k)) == target + SerializeNode(m)
  }

  lemma WroteNodeSlot(target: Str, out: Str, m: NodeData, k: nat)
    requires 1 <= k <= 4 && NodeWrittenBelow(target, out, m, k)
    ensures NodeWrittenBelow(target, out + EncodeFields(NodeSlot(m, k)), m, k + 1)
  {
    WroteFields(out, NodeSlot(m, k), NodeRecordsFrom(m, k + 1));
  }

  lemma SizeOfNode(m: NodeData)
    requires |m.topicName| < TWO_32 && |m.name| < TWO_32
    ensures |SerializeNode(m)|
         == TextSize(m.topicName) + TextSize(m.name) + ScalarSize(SignExtend(m.nodeType))
          + (if m.locked then 2 else 0) + |EncodeFields(m.unknown)|
  {
    NodeSizes(m, 1);
    NodeSizes(m, 2);
    NodeSizes(m, 3);
    NodeSizes(m, 4);
    TextLength(1, m.topicName);
    TextLength(2, m.name);
    ScalarLength(3, SignExtend(m.nodeType));
    ScalarLength(4, BoolVarint(m.locked));
  }

  class Node {
    var impl: NodeData
    var cachedSize: nat

    constructor ()
      ensures impl == EMPTY_NODE && cachedSize == 0
    {
      impl, cachedSize := EMPTY_NODE, 0;
    }

    method ParseRecord(utf8: Str -> bool, b: Str) returns (ok: bool, length: nat)
      requires b != []
      modifies this`impl
      ensures var r := ReadField(b);
              && ok == (r.Some? && ApplyToNode(utf8, old(impl), r.value.0).Some?)
              && (ok ==> length == r.value.1 && impl == ApplyToNode(utf8, old(impl), r.value.0).value)
    {
      var t := ReadTag(b);
      if t.None? {
        return false, 0;
      }
      var tag := t.value.value;
      var body := b[t.value.length..];
      var number, low := tag / 8, tag % 256;
      OneByteTag(tag);
      assert ReadKey(b) == Some(Key(number, tag % 8, t.value.length));
      if (number == 1 && low == 10) || (number == 2 && low == 18) {
        var d := ReadDelimited(body);
        if d.None? {
          return false, 0;
        }
        var s := d.value.0;
        if number == 1 {
          impl := impl.(topicName := s);
        } else {
          impl := impl.(name := s);
        }
        return utf8(s), t.value.length + d.value.1;
      } else if (number == 3 && low == 24) || (number == 4 && low == 32) {
        var v := ReadVarint64(body);
        if v.None? {
          return false, 0;
        }
        if number == 3 {
          impl := impl.(nodeType := LowInt32(v.value.value));
        } else {
          impl := impl.(locked := v.value.value != 0);
        }
        return true, t.value.length + v.value.length;
      } else {
        if tag == 0 || tag % 8 == WT_END_GROUP {
          return false, 0;
        }
        var p := ReadPayload(tag % 8, body);
        if number == 0 || p.None? {
          return false, 0;
        }
        impl := impl.(unknown := impl.unknown + [Field(number, p.value.0)]);
        return true, t.value.length + p.value.1;
      }
    }

    method InternalParse(utf8: Str -> bool, data: Str) returns (ok: bool)
      modifies this`impl
      ensures ok == Parse(NodeStep(utf8), old(impl), data).Some?
      ensures ok ==> impl == Parse(NodeStep(utf8), old(impl), data).value
    {
      hide ReadField, ApplyToNode;
      var ptr := 0;
      while ptr < |data|
        invariant 0 <= ptr <= |data|
        invariant Parse(NodeStep(utf8), impl, data[ptr..]) == Parse(NodeStep(utf8), old(impl), data)
      {
        var good, length := ParseRecord(utf8, data[ptr..]);
        if !good {
          return false;
        }
        assert data[ptr..][length..] == data[ptr + length..];
        ptr := ptr + length;
      }
      assert data[ptr..] == [];
      ok := true;
    }

    method InternalSerialize(target: Str) returns (out: Str)
      ensures out == target + SerializeNode(impl)
    {
      hide EncodeFields, EncodeField;
      ghost var k := 1;
      ghost var o := target;
      out := AppendString(1, impl.topicName, target);
      WroteNodeSlot(target, o, impl, k);
      k, o := k + 1, out;
      out := AppendString(2, impl.name, out);
      WroteNodeSlot(target, o, impl, k);
      k, o := k + 1, out;
      out := AppendVarint(3, SignExtend(impl.nodeType), out);
      WroteNodeSlot(target, o, impl, k);
      k, o := k + 1, out;
      out := AppendVarint(4, BoolVarint(impl.locked), out);
      WroteNodeSlot(target, o, impl, k);
      out := out + EncodeFields(impl.unknown);
    }

    method ByteSizeLong() returns (totalSize: nat)
      requires |impl.topicName| < TWO_32 && |impl.name| < TWO_32
      modifies this`cachedSize
      ensures totalSize == cachedSize == |SerializeNode(impl)|
    {
      totalSize := TextSize(impl.topicName) + TextSize(impl.name);
      totalSize := totalSize + ScalarSize(SignExtend(impl.nodeType));
      if impl.locked {
        totalSize := totalSize + 1 + 1;
      }
      totalSize := totalSize + |EncodeFields(impl.unknown)|;
      cachedSize := totalSize;
      SizeOfNode(impl);
    }

    method MergeImpl(from: Node)
      requires from != this
      modifies this`impl
      ensures impl == MergeNode(old(impl), from.impl)
    {
      if from.impl.topicName != [] {
        impl := impl.(topicName := from.impl.topicName);
      }
      if from.impl.name != [] {
        impl := impl.(name := from.impl.name);
      }
      if from.impl.nodeType != 0 {
        impl := impl.(nodeType := from.impl.nodeType);
      }
      if from.impl.locked {
        impl := impl.(locked := from.impl.locked);
      }
      impl := impl.(unknown := impl.unknown + from.impl.unknown);
    }
  }

  function NodeValues(ns: seq<Node>): (r: seq<NodeData>)
    reads ns
    ensures |r| == |ns|
    ensures forall i :: 0 <= i < |ns| ==> r[i] == ns[i].impl
  {
    if ns == [] then [] else NodeValues(ns[..|ns| - 1]) + [ns[|ns| - 1].impl]
  }

  lemma {:induction false} NodeFieldsSnoc(ns: seq<NodeData>, n: NodeData)
    ensures NodeFields(ns + [n]) == NodeFields(ns) + [NodeField(n)]
    decreases |ns|
  {
    hide NodeField;
    if ns != [] {
      NodeFieldsSnoc(ns[1..], n);
      assert (ns + [n])[1..] == ns[1..] + [n];
    }
  }

  class TopicList {
    var listType: Int32
    var nodes: seq<Node>
    var unknown: seq<Field>
    var cachedSize: nat

    function Value(): ListData
      reads this, nodes
    {
      ListData(listType, NodeValues(nodes), unknown)
    }

    constructor ()
      ensures Value() == EMPTY_LIST && nodes == []
    {
      listType, nodes, unknown, cachedSize := 0, [], [], 0;
    }

    method Clear()
      modifies this
      ensures Value() == EMPTY_LIST && nodes == []
    {
      nodes := [];
      listType := 0;
      unknown := [];
    }

    /** ParseMessage(_internal_add_nodes(), ptr): a size prefix and a nested message. */
    method ParseNewNode(utf8: Str -> bool, body: Str) returns (ok: bool, length: nat)
      modifies this`nodes
      ensures var p := ReadPayload(WT_LEN, body);
              && ok == (p.Some? && ApplyToList(utf8, old(Value()), Field(2, p.value.0)).Some?)
              && (ok ==> length == p.value.1)
              && (ok ==> Value() == ApplyToList(utf8, old(Value()), Field(2, p.value.0)).value)
      ensures forall n :: n in nodes ==> n in old(nodes) || fresh(n)
    {
      var n := new Node();
      ghost var before := nodes;
      nodes := nodes + [n];
      assert nodes[..|before|] == before;
      var d := ReadDelimited(body);
      if d.None? {
        return false, 0;
      }
      ok := n.InternalParse(utf8, d.value.0);
      assert NodeValues(before) == old(NodeValues(nodes));
      return ok, d.value.1;
    }

    /** One iteration of the outer loop on the record at the front of b, when it is not a node. */
    method ParseOther(utf8: Str -> bool, b: Str) returns (ok: bool, length: nat)
      requires ReadKey(b).Some? && !(ReadKey(b).value.number == 2 && ReadKey(b).value.wt == WT_LEN)
      modifies this`listType, this`unknown
      ensures var r := ReadField(b);
              && ok == (r.Some? && ApplyToList(utf8, old(Value()), r.value.0).Some?)
              && (ok ==> length == r.value.1)
              && (ok ==> Value() == ApplyToList(utf8, old(Value()), r.value.0).value)
    {
      var t := ReadTag(b);
      var tag := t.value.value;
      var body := b[t.value.length..];
      var number, low := tag / 8, tag % 256;
      OneByteTag(tag);
      assert ReadKey(b) == Some(Key(number, tag % 8, t.value.length));
      if number == 1 && low == 8 {
        var v := ReadVarint64(body);
        if v.None? {
          return false, 0;
        }
        listType := LowInt32(v.value.value);
        return true, t.value.length + v.value.length;
      }
      if tag == 0 || tag % 8 == WT_END_GROUP {
        return false, 0;
      }
      var p := ReadPayload(tag % 8, body);
      if number == 0 || p.None? {
        return false, 0;
      }
      unknown := unknown + [Field(number, p.value.0)];
      return true, t.value.length + p.value.1;
    }

    /** The inner loop: node after node, as long as the next byte is the tag of another one. */
    method ParseNodes(utf8: Str -> bool, data: Str, start: nat) returns (ok: bool, ptr: nat)
      requires start <= |data|
      modifies this`nodes
      ensures var whole := ParseAfterKey(ListStep(utf8), old(Value()), 2, WT_LEN, data[start..]);
              if ok then start <= ptr <= |data| && Parse(ListStep(utf8), Value(), data[ptr..]) == whole
              else whole == None
      ensures forall n :: n in nodes ==> n in old(nodes) || fresh(n)
    {
      hide ReadField, ReadPayload, ApplyToList, ReadKey, Parse;
      ptr := start;
      var more := true;
      while more
        invariant start <= ptr <= |data|
        invariant ParseAfterKey(ListStep(utf8), old(Value()), 2, WT_LEN, data[start..])
               == if more then ParseAfterKey(ListStep(utf8), Value(), 2, WT_LEN, data[ptr..])
                  else Parse(ListStep(utf8), Value(), data[ptr..])
        invariant forall n :: n in nodes ==> n in old(nodes) || fresh(n)
        decreases more, |data| - ptr
      {
        var good, length := ParseNewNode(utf8, data[ptr..]);
        if !good {
          return false, 0;
        }
        assert data[ptr..][length..] == data[ptr + length..];
        ptr := ptr + length;
        more := ptr < |data| && data[ptr] == 18;
        if more {
          EnterNode(utf8, Value(), data, ptr);
          ptr := ptr + 1;
        }
      }
      ok := true;
    }

    method InternalParse(utf8: Str -> bool, data: Str) returns (ok: bool)
      modifies this
      ensures ok == Parse(ListStep(utf8), old(Value()), data).Some?
      ensures ok ==> Value() == Parse(ListStep(utf8), old(Value()), data).value
      ensures forall n :: n in nodes ==> n in old(nodes) || fresh(n)
    {
      hide ReadField, ReadPayload, ApplyToList, ReadKey;
      var ptr := 0;
      while ptr < |data|
        invariant 0 <= ptr <= |data|
        invariant Parse(ListStep(utf8), Value(), data[ptr..]) == Parse(ListStep(utf8), old(Value()), data)
        invariant forall n :: n in nodes ==> n in old(nodes) || fresh(n)
      {
        ParseReadsKeyFirst(ListStep(utf8), Value(), data[ptr..]);
        var k := ReadKey(data[ptr..]);
        if k.None? {
          return false;
        }
        if k.value.number == 2 && k.value.wt == WT_LEN {
          assert data[ptr..][k.value.length..] == data[ptr + k.value.length..];
          var good, next := ParseNodes(utf8, data, ptr + k.value.length);
          if !good {
            return false;
          }
          ptr := next;
        } else {
          var good, length := ParseOther(utf8, data[ptr..]);
          if !good {
            return false;
          }
          assert data[ptr..][length..] == data[ptr + length..];
          ptr := ptr + length;
        }
      }
      assert data[ptr..] == [];
      ok := true;
    }

    method ParseFromArray(utf8: Str -> bool, data: Str) returns (ok: bool)
      modifies this
      ensures ok == ParseList(utf8, data).Some?
      ensures ok ==> Value() == ParseList(utf8, data).value
      ensures forall n :: n in nodes ==> fresh(n)
    {
      Clear();
      ok := InternalParse(utf8, data);
    }

    /** Every node's cached size is current: what ByteSizeLong leaves and the serializer relies on. */
    ghost predicate CachesCurrent()
      reads this, nodes
    {
      forall n :: n in nodes ==> n.cachedSize == |SerializeNode(n.impl)|
    }

    /** Nested sizes are passed on as int. */
    predicate IntSizes()
      reads this, nodes
    {
      forall n :: n in nodes ==> |SerializeNode(n.impl)| < TWO_31
    }

    /** Each nested message is written behind its cached size, not behind a computed one. */
    method InternalSerialize(target: Str) returns (out: Str)
      requires CachesCurrent()
      ensures out == target + SerializeList(Value())
    {
      hide EncodeFields, EncodeField, EncodeVarint;
      out := AppendVarint(1, SignExtend(listType), target);
      ghost var head := out;
      ghost var values := NodeValues(nodes);
      NoFields();
      assert values[..0] == [];
      for i := 0 to |nodes|
        invariant out == head + EncodeFields(NodeFields(values[..i]))
      {
        ghost var o := out;
        out := out + EncodeVarint(2 * 8 + WT_LEN);
        out := out + EncodeVarint(nodes[i].cachedSize);
        out := nodes[i].InternalSerialize(out);
        assert values[..i + 1] == values[..i] + [values[i]];
        NodeFieldsSnoc(values[..i], values[i]);
        WroteFields(head, NodeFields(values[..i]), [NodeField(values[i])]);
        WroteNode(o, nodes[i].impl);
      }
      assert values[..|nodes|] == values;
      out := out + EncodeFields(unknown);
      WroteList(target, Value());
    }

    /** The size of the list; every nested size is computed once and cached. */
    method ByteSizeLong() returns (totalSize: nat)
      requires IntSizes()
      modifies this`cachedSize, (set n | n in nodes)`cachedSize
      ensures totalSize == cachedSize == |SerializeList(Value())|
      ensures CachesCurrent()
    {
      hide EncodeFields, EncodeField, SerializeNode, VarintSize, NodeFields;
      ghost var values := NodeValues(nodes);
      NoFields();
      assert values[..0] == [] && NodesSize([]) == 0;
      hide NodesSize;
      totalSize := |nodes|;
      for i := 0 to |nodes|
        invariant totalSize == |nodes| - i + NodesSize(values[..i])
        invariant forall j :: 0 <= j < i ==> nodes[j].cachedSize == |SerializeNode(nodes[j].impl)|
      {
        NodeOutweighsItsStrings(nodes[i].impl);
        assert nodes[i].impl == values[i];
        var size := nodes[i].ByteSizeLong();
        totalSize := totalSize + size + VarintSize(size);
        NodesSizeSnoc(values, i);
      }
      totalSize := totalSize + ScalarSize(SignExtend(listType));
      totalSize := totalSize + |EncodeFields(unknown)|;
      cachedSize := totalSize;
      assert values[..|nodes|] == values == NodeValues(nodes);
      SizeOfList(Value());
    }

    /** SerializeToArray: sizes first, then bytes; refused beyond INT_MAX or when the space is short. */
    method SerializeToArray(space: nat) returns (ok: bool, bytes: Str)
      requires IntSizes()
      modifies this`cachedSize, (set n | n in nodes)`cachedSize
      ensures ok == (|SerializeList(Value())| < TWO_31 && |SerializeList(Value())| <= space)
      ensures ok ==> bytes == SerializeList(Value())
    {
      var size := ByteSizeLong();
      if size >= TWO_31 || size > space {
        return false, [];
      }
      bytes := InternalSerialize([]);
      ok := true;
    }

    method MergeImpl(from: TopicList)
      requires from != this
      modifies this
      ensures Value() == MergeList(old(Value()), from.Value())
      ensures from.Value() == old(from.Value())
      ensures |nodes| == |old(nodes)| + |from.nodes| && nodes[..|old(nodes)|] == old(nodes)
      ensures forall n :: n in nodes[|old(nodes)|..] ==> fresh(n)
    {
      hide MergeNode, NodeValues;
      ghost var given := nodes;
      for i := 0 to |from.nodes|
        invariant |nodes| == |given| + i && nodes[..|given|] == given
        invariant listType == old(listType) && unknown == old(unknown)
        invariant forall j :: 0 <= j < i ==> nodes[|given| + j].impl == from.nodes[j].impl
        invariant forall n :: n in nodes[|given|..] ==> fresh(n)
      {
        var n := new Node();
        n.MergeImpl(from.nodes[i]);
        MergeIntoEmptyNode(from.nodes[i].impl);
        ghost var before := nodes;
        nodes := nodes + [n];
        assert nodes[|given|..] == before[|given|..] + [n];
      }
      if from.listType != 0 {
        listType := from.listType;
      }
      unknown := unknown + from.unknown;
      assert NodeValues(nodes) == NodeValues(given) + NodeValues(from.nodes);
    }
  }

  ghost function NodesSize(ns: seq<NodeData>): nat {
    |EncodeFields(NodeFields(ns))|
  }

  lemma NodesSizeSnoc(ns: seq<NodeData>, i: nat)
    requires i < |ns| && |SerializeNode(ns[i])| < TWO_31
    ensures NodesSize(ns[..i + 1])
         == NodesSize(ns[..i]) + 1 + VarintSize(|SerializeNode(ns[i])|) + |SerializeNode(ns[i])|
  {
    hide SerializeNode;
    assert ns[..i + 1] == ns[..i] + [ns[i]];
    NodeFieldsSnoc(ns[..i], ns[i]);
    EncodeFieldsConcat(NodeFields(ns[..i]), [NodeField(ns[i])]);
    SingleField(NodeField(ns[i]));
    VarintSizeIsEncodedLength(|SerializeNode(ns[i])|);
  }

  lemma SizeOfList(m: ListData)
    ensures |SerializeList(m)|
         == NodesSize(m.nodes) + ScalarSize(SignExtend(m.listType)) + |EncodeFields(m.unknown)|
  {
    EncodeFieldsConcat(Scalar(1, SignExtend(m.listType)), NodeFields(m.nodes) + m.unknown);
    EncodeFieldsConcat(NodeFields(m.nodes), m.unknown);
    ScalarLength(1, SignExtend(m.listType));
  }

  /** A nested message is never longer than the list that holds it. */
  lemma {:induction false} ListOutweighsItsNodes(m: ListData, n: NodeData)
    requires n in m.nodes
    ensures |SerializeNode(n)| <= |SerializeList(m)|
  {
    SizeOfList(m);
    NodesOutweighEach(m.nodes, n);
  }

  lemma {:induction false} NodesOutweighEach(ns: seq<NodeData>, n: NodeData)
    requires n in ns
    ensures |SerializeNode(n)| <= NodesSize(ns)
    decreases |ns|
  {
    hide SerializeNode, EncodeVarint;
    EncodeFieldsConcat([NodeField(ns[0])], NodeFields(ns[1..]));
    if n == ns[0] {
      SingleField(NodeField(n));
    } else {
      NodesOutweighEach(ns[1..], n);
    }
  }

  lemma NoFields()
    ensures EncodeFields([]) == [] && EncodeFields(NodeFields([])) == []
  {
  }

  lemma WroteNode(out: Str, n: NodeData)
    ensures out + EncodeVarint(2 * 8 + WT_LEN) + EncodeVarint(|SerializeNode(n)|) + SerializeNode(n)
         == out + EncodeFields([NodeField(n)])
  {
    SingleField(NodeField(n));
  }

  lemma {:induction false} WroteList(target: Str, m: ListData)
    ensures target + EncodeFields(Scalar(1, SignExtend(m.listType))) + EncodeFields(NodeFields(m.nodes))
                   + EncodeFields(m.unknown)
         == target + SerializeList(m)
  {
    var s, ns := Scalar(1, SignExtend(m.listType)), NodeFields(m.nodes);
    WroteFields(target, s, ns + m.unknown);
    WroteFields(target + EncodeFields(s), ns, m.unknown);
  }

  /** ExpectTag<18> recognises the one-byte key of a node. */
  /** At the byte 18, going on with a record is going on with the node behind it. */
  lemma EnterNode(utf8: Str -> bool, m: ListData, data: Str, ptr: nat)
    requires ptr < |data| && data[ptr] == 18
    ensures Parse(ListStep(utf8), m, data[ptr..]) == ParseAfterKey(ListStep(utf8), m, 2, WT_LEN, data[ptr + 1..])
  {
    hide Parse, ParseAfterKey, ReadKey;
    ParseReadsKeyFirst(ListStep(utf8), m, data[ptr..]);
    NodeTag(data[ptr..]);
    assert data[ptr..][1..] == data[ptr + 1..];
  }

  lemma NodeTag(b: Str)
    requires b != [] && b[0] == 18
    ensures ReadKey(b) == Some(Key(2, WT_LEN, 1))
  {
  }
}
