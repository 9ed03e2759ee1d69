/** The UDP notifier (UdpSocketService.cpp): who is sent a published message, and which datagram. */
module Fanout {
  import opened Common
  import opened Numerals
  import opened UdmMessagePb
  import Datagrams
  import Frames

  const DOT: Byte := 46
  const COLON: Byte := 58
  const VALUE_TYPE_SUBSCRIBE: Int32 := 18
  const VALUE_TYPE_QUERY_TOPICNODE: Int32 := 21

  /** What a sockaddr_in identifies. */
  datatype Endpoint = Endpoint(a: Byte, b: Byte, c: Byte, d: Byte, port: nat)

  /** generateKey: dotted address, colon, port. */
  function Key(e: Endpoint): Str {
    Numeral(e.a, 10) + [DOT] + (Numeral(e.b, 10) + [DOT] + (Numeral(e.c, 10) + [DOT]
    + (Numeral(e.d, 10) + [COLON] + Numeral(e.port, 10))))
  }

  /** "1.22.3.4:56" */
  lemma KeyText()
    ensures Key(Endpoint(1, 22, 3, 4, 56)) == [49, 46, 50, 50, 46, 51, 46, 52, 58, 53, 54]
  {
    assert Numeral(22, 10) == Numeral(2, 10) + [50];
    assert Numeral(56, 10) == Numeral(5, 10) + [54];
  }

  /** The types of messages the socket tells apart, as numbered by the source. */
  lemma TypesAre()
    ensures VALUE_TYPE_SUBSCRIBE == 18 && VALUE_TYPE_QUERY_TOPICNODE == 21
  {
  }

  datatype Subscription = Subscription(from: Endpoint, topic: Str)

  datatype Entry = Entry(addr: Endpoint, topics: set<Str>)

  type Table = map<Str, Entry>

  function Subscribe(t: Table, s: Subscription): Table {
    var key := Key(s.from);
    if key !in t then t[key := Entry(s.from, {s.topic})]
    else t[key := Entry(t[key].addr, t[key].topics + {s.topic})]
  }

  function TableOf(subs: seq<Subscription>): Table {
    if subs == [] then map[] else Subscribe(TableOf(subs[..|subs| - 1]), subs[|subs| - 1])
  }

  // -------------------------------------------------- keys identify endpoints

  lemma {:induction false} NumeralHasDigits(v: nat)
    ensures forall c :: c in Numeral(v, 10) ==> ZERO <= c < ZERO + 10
    decreases v
  {
    hide Quo, Rem;
    if v >= 10 {
      NumeralHasDigits(Quo(v, 10));
    }
  }

  lemma SplitAtFirst(x: Byte, s: Str, rest: Str, s': Str, rest': Str)
    requires x !in s && x !in s' && s + [x] + rest == s' + [x] + rest'
    ensures s == s' && rest == rest'
  {
    var t, t' := s + [x] + rest, s' + [x] + rest';
    assert t[|s|] == x && t'[|s'|] == x;
    assert forall i :: 0 <= i < |s| ==> t[i] == s[i];
    assert forall i :: 0 <= i < |s'| ==> t'[i] == s'[i];
    assert |s| == |s'|;
    assert s == t[..|s|] && s' == t'[..|s'|];
    assert rest == t[|s| + 1..] && rest' == t'[|s'| + 1..];
  }

  lemma EqualNumerals(v: nat, w: nat)
    requires Numeral(v, 10) == Numeral(w, 10)
    ensures v == w
  {
    NumeralDenotes(v, 10);
    NumeralDenotes(w, 10);
  }

  lemma SplitNumeral(x: Byte, v: nat, rest: Str, w: nat, rest': Str)
    requires x in {DOT, COLON}
    requires Numeral(v, 10) + [x] + rest == Numeral(w, 10) + [x] + rest'
    ensures v == w && rest == rest'
  {
    hide Numeral;
    NumeralHasDigits(v);
    NumeralHasDigits(w);
    SplitAtFirst(x, Numeral(v, 10), rest, Numeral(w, 10), rest');
    EqualNumerals(v, w);
  }

  /** Two endpoints never share a key. */
  lemma KeysIdentifyEndpoints(e: Endpoint, f: Endpoint)
    requires Key(e) == Key(f)
    ensures e == f
  {
    hide Numeral;
    var e3, f3 := Numeral(e.d, 10) + [COLON] + Numeral(e.port, 10), Numeral(f.d, 10) + [COLON] + Numeral(f.port, 10);
    var e2, f2 := Numeral(e.c, 10) + [DOT] + e3, Numeral(f.c, 10) + [DOT] + f3;
    var e1, f1 := Numeral(e.b, 10) + [DOT] + e2, Numeral(f.b, 10) + [DOT] + f2;
    SplitNumeral(DOT, e.a, e1, f.a, f1);
    SplitNumeral(DOT, e.b, e2, f.b, f2);
    SplitNumeral(DOT, e.c, e3, f.c, f3);
    SplitNumeral(COLON, e.d, Numeral(e.port, 10), f.d, Numeral(f.port, 10));
    EqualNumerals(e.port, f.port);
  }

  // ------------------------------------------------------- who is sent what

  ghost predicate TableMeans(t: Table, subs: seq<Subscription>) {
    && (forall k :: k in t ==> k == Key(t[k].addr))
    && (forall e, topic :: Subscription(e, topic) in subs <==> Key(e) in t && topic in t[Key(e)].topics)
  }

  lemma SubscribeExtends(t: Table, subs: seq<Subscription>, s: Subscription)
    requires TableMeans(t, subs)
    ensures TableMeans(Subscribe(t, s), subs + [s])
  {
    hide Key;
    var n := Subscribe(t, s);
    forall e, topic
      ensures Subscription(e, topic) in subs + [s] <==> Key(e) in n && topic in n[Key(e)].topics
    {
      assert Subscription(e, topic) in subs <==> Key(e) in t && topic in t[Key(e)].topics;
      if Key(e) == Key(s.from) {
        KeysIdentifyEndpoints(e, s.from);
      }
    }
  }

  /** An entry's topics are exactly those its own endpoint has subscribed to. */
  lemma {:induction false} TableIsExact(subs: seq<Subscription>)
    ensures TableMeans(TableOf(subs), subs)
    decreases |subs|
  {
    if subs != [] {
      var last := |subs| - 1;
      TableIsExact(subs[..last]);
      SubscribeExtends(TableOf(subs[..last]), subs[..last], subs[last]);
      assert subs[..last] + [subs[last]] == subs;
    }
  }

  /** An order in which keys may be visited: each of them once. */
  ghost predicate Visits(order: seq<Str>, keys: set<Str>) {
    && (forall k :: k in keys <==> k in order)
    && forall i, j :: 0 <= i < j < |order| ==> order[i] != order[j]
  }

  /** onCommonMessage: the addresses sent to, in the order of the visit. */
  function Recipients(t: Table, order: seq<Str>, topic: Str): seq<Endpoint>
    requires forall k :: k in order ==> k in t
  {
    if order == [] then []
    else
      var k := order[|order| - 1];
      Recipients(t, order[..|order| - 1], topic) + (if topic in t[k].topics then [t[k].addr] else [])
  }

  lemma NothingVisited(t: Table, topic: Str)
    ensures Visits([], {}) && Recipients(t, [], topic) == []
  {
  }

  lemma VisitNext(t: Table, order: seq<Str>, keys: set<Str>, k: Str, topic: Str)
    requires Visits(order, keys) && k !in keys && k in t && keys <= t.Keys
    ensures Visits(order + [k], keys + {k})
    ensures Recipients(t, order + [k], topic)
            == Recipients(t, order, topic) + (if topic in t[k].topics then [t[k].addr] else [])
  {
    assert (order + [k])[..|order|] == order;
  }

  /** Whatever the order, every endpoint that subscribed to the topic is sent to once, and no other. */
  lemma {:induction false} RecipientsAreSubscribers(t: Table, subs: seq<Subscription>, order: seq<Str>, topic: Str, e: Endpoint)
    requires TableMeans(t, subs) && Visits(order, t.Keys)
    ensures multiset(Recipients(t, order, topic))[e] == if Subscription(e, topic) in subs then 1 else 0
  {
    hide Key, Recipients;
    RecipientsOf(t, order, topic, e);
    assert Subscription(e, topic) in subs <==> Key(e) in t && topic in t[Key(e)].topics;
  }

  lemma {:induction false} RecipientsOf(t: Table, order: seq<Str>, topic: Str, e: Endpoint)
    requires forall k :: k in t ==> k == Key(t[k].addr)
    requires forall k :: k in order ==> k in t
    requires forall i, j :: 0 <= i < j < |order| ==> order[i] != order[j]
    ensures multiset(Recipients(t, order, topic))[e] == if Key(e) in order && topic in t[Key(e)].topics then 1 else 0
    decreases |order|
  {
    hide Key;
    if order != [] {
      var rest, k := order[..|order| - 1], order[|order| - 1];
      assert order == rest + [k];
      RecipientsOf(t, rest, topic, e);
      if Key(e) == k {
        KeysIdentifyEndpoints(e, t[k].addr);
      }
    }
  }

  // -------------------------------------------------------------- the objects

  class Subscriber {
    var addr: Endpoint
    var topicSet: set<Str>

    constructor (addr: Endpoint)
      ensures this.addr == addr && topicSet == {}
    {
      this.addr, topicSet := addr, {};
    }

    method AddTopic(topic: Str)
      modifies this`topicSet
      ensures topicSet == old(topicSet) + {topic}
    {
      topicSet := topicSet + {topic};
    }

    predicate CheckTopicNeed(topic: Str)
      reads this
    {
      topic in topicSet
    }
  }

  /** What onCommonMessage copies of a message; the lock stays at its default. */
  function Carried(m: Udm): Datagrams.Msg {
    Datagrams.Msg(m.messageType, m.topicName, m.variableName, m.variableUnit, m.sourceName, m.timestamp, 0, m.value)
  }

  function DatagramOf(m: Udm): Str {
    Datagrams.Encode(Carried(m))
  }

  /** What a subscriber shows of it: everything but the value and the lock, strings up to their first NUL. */
  lemma SubscribersDecode(m: Udm, rest: Str, held: Str)
    requires Frames.CleanTopic(m.topicName) && |DatagramOf(m)| < TWO_32
    ensures var got := Datagrams.Decode(DatagramOf(m) + rest, held);
            && got.Shown?
            && got.m.msgType == m.messageType
            && got.m.topicName == m.topicName
            && got.m.variableName == Datagrams.Cut(m.variableName)
            && got.m.variableUnit == Datagrams.Cut(m.variableUnit)
            && got.m.sourceName == Datagrams.Cut(m.sourceName)
            && got.m.timestamp == m.timestamp
            && got.m.lock == 0 && got.m.value == held
  {
    hide Datagrams.Encode, Datagrams.Decode;
    Datagrams.DatagramShows(Carried(m), rest, held);
    Datagrams.CutIsWhole(m.topicName);
  }

  /**
   Where recvMsg sends a datagram: nowhere when it is shorter than its header, to
   the table, to onRequestAllItems, or to onRecv of the bus. Failed: an exception,
   or a read beyond a buffer.
   */
  datatype Route = Dropped | Failed | Subscribed(topic: Str) | Queried(m: Datagrams.Msg) | Forwarded(m: Datagrams.Msg)

  function RouteOf(outcome: Datagrams.Outcome): Route {
    match outcome
    case Refused => Dropped
    case Undefined => Failed
    case Shown(m) =>
      if m.msgType == VALUE_TYPE_SUBSCRIBE then Subscribed(m.topicName)
      else if m.msgType == VALUE_TYPE_QUERY_TOPICNODE then Queried(m) else Forwarded(m)
  }

  /** A subscription to a clean topic is heard, whatever the receive buffer held behind it. */
  lemma SubscriptionIsHeard(m: Datagrams.Msg, rest: Str)
    requires m.msgType == VALUE_TYPE_SUBSCRIBE && Frames.CleanTopic(m.topicName) && Datagrams.Addressable(m)
    ensures RouteOf(Datagrams.Decode(Datagrams.Encode(m) + rest, [])) == Subscribed(m.topicName)
  {
    hide Datagrams.Encode, Datagrams.Decode;
    Datagrams.DatagramShows(m, rest, []);
    Datagrams.CutIsWhole(m.topicName);
  }

  /** No message that the sockets' own encoder sends can lock or unlock, or carry a value. */
  lemma NothingLocksByDatagram(m: Datagrams.Msg, rest: Str)
    requires Frames.CleanTopic(m.topicName) && Datagrams.Addressable(m)
    ensures var route := RouteOf(Datagrams.Decode(Datagrams.Encode(m) + rest, []));
            && !route.Failed? && !route.Dropped?
            && (route.Forwarded? || route.Queried? ==> route.m.lock == 0 && route.m.value == [])
  {
    hide Datagrams.Encode, Datagrams.Decode;
    Datagrams.DatagramShows(m, rest, []);
  }

  class UdpServerCtx {
    var subscriberMap: map<Str, Subscriber>
    ghost var subs: seq<Subscription>   // history: the subscriptions received

    /** The map shares no subscriber between keys and says what the history says. */
    ghost predicate Valid()
      reads this, subscriberMap.Values
    {
      && (forall j, k :: j in subscriberMap && k in subscriberMap && j != k ==> subscriberMap[j] != subscriberMap[k])
      && TableMeans(Entries(), subs)
    }

    ghost function Entries(): Table
      reads this`subscriberMap, subscriberMap.Values
    {
      map k | k in subscriberMap :: Entry(subscriberMap[k].addr, subscriberMap[k].topicSet)
    }

    constructor ()
      ensures Valid() && subs == []
    {
      subscriberMap, subs := map[], [];
    }

    /** recvMsg on a receive buffer, which strtok writes to: only a subscription touches the table. */
    method RecvMsg(data: array<Byte>, addr: Endpoint) returns (route: Route)
      requires Valid() && 0 in data[..]
      modifies this, subscriberMap.Values, data
      ensures Valid()
      ensures var got := Datagrams.Decode(old(data[..]), []);
              && (route == Dropped <==> got.Refused?)
              && (route == Failed <==> got.Undefined?)
              && (got.Shown? ==>
                    route == if got.m.msgType == VALUE_TYPE_SUBSCRIBE then Subscribed(got.m.topicName)
                             else if got.m.msgType == VALUE_TYPE_QUERY_TOPICNODE then Queried(got.m)
                             else Forwarded(got.m))
      ensures subs == old(subs) + (if route.Subscribed? then [Subscription(addr, route.topic)] else [])
    {
      hide Datagrams.Decode, TableMeans;
      var msg := new Datagrams.UdmMsg();
      var outcome := msg.Deserialize(data);
      route := RouteOf(outcome);
      if route.Subscribed? {
        RecvSubscribe(route.topic, addr);
      }
    }

    /** The subscription branch of recvMsg. */
    method RecvSubscribe(topic: Str, addr: Endpoint)
      requires Valid()
      modifies this, subscriberMap.Values
      ensures Valid() && subs == old(subs) + [Subscription(addr, topic)]
      ensures subscriberMap.Keys == old(subscriberMap.Keys) + {Key(addr)}
      ensures forall k :: k in old(subscriberMap) ==> subscriberMap[k] == old(subscriberMap[k])
    {
      hide Key, TableMeans;
      ghost var s, before := Subscription(addr, topic), Entries();
      SubscribeExtends(before, subs, s);
      var key := Key(addr);
      if key !in subscriberMap {
        Insert(key, addr, topic);
        assert key !in before && Entries() == Subscribe(before, s);
      } else {
        var suber := subscriberMap[key];
        suber.AddTopic(topic);
        assert Entries() == before[key := Entry(before[key].addr, before[key].topics + {topic})];
      }
      subs := subs + [s];
    }

    /** A new subscriber, shared with no other key. */
    method Insert(key: Str, addr: Endpoint, topic: Str)
      requires key !in subscriberMap
      modifies this`subscriberMap
      ensures key in subscriberMap && fresh(subscriberMap[key])
      ensures subscriberMap == old(subscriberMap)[key := subscriberMap[key]]
      ensures Entries() == old(Entries())[key := Entry(addr, {topic})]
    {
      var suber := new Subscriber(addr);
      suber.AddTopic(topic);
      subscriberMap := subscriberMap[key := suber];
      ghost var after := old(Entries())[key := Entry(addr, {topic})];
      assert Entries().Keys == after.Keys;
      assert forall k :: k in after ==> Entries()[k] == after[k];
    }

    /** The datagram is built once, and sent to every subscriber that needs the topic. */
    method OnCommonMessage(m: Udm) returns (data: Str, sent: seq<Endpoint>, ghost order: seq<Str>)
      requires Valid() && |DatagramOf(m)| < TWO_32
      ensures data == DatagramOf(m)
      ensures Visits(order, Entries().Keys) && sent == Recipients(Entries(), order, m.topicName)
      ensures forall e :: multiset(sent)[e] == if Subscription(e, m.topicName) in subs then 1 else 0
    {
      hide DatagramOf, Visits, Recipients, TableMeans;
      data := BuildDatagram(m);
      sent, order := SendAll(m.topicName);
    }

    static method BuildDatagram(m: Udm) returns (data: Str)
      requires |DatagramOf(m)| < TWO_32
      ensures data == DatagramOf(m)
    {
      hide Datagrams.Encode;
      var msg := new Datagrams.UdmMsg();
      msg.impl := msg.impl.(msgType := m.messageType, sourceName := m.sourceName, timestamp := m.timestamp);
      msg.impl := msg.impl.(topicName := m.topicName, variableName := m.variableName, variableUnit := m.variableUnit);
      msg.impl := msg.impl.(value := m.value);
      msg.Serialize();
      data := if msg.serializeBytes.bytes == null then [] else msg.serializeBytes.bytes[..msg.serializeBytes.size];
    }

    /** The map is visited in any order. */
    method SendAll(topic: Str) returns (sent: seq<Endpoint>, ghost order: seq<Str>)
      requires Valid()
      ensures Visits(order, Entries().Keys) && sent == Recipients(Entries(), order, topic)
      ensures forall e :: multiset(sent)[e] == if Subscription(e, topic) in subs then 1 else 0
    {
      hide Key, TableMeans, Visits, Recipients;
      sent, order := [], [];
      NothingVisited(Entries(), topic);
      var left := subscriberMap.Keys;
      assert subscriberMap.Keys - left == {};
      while left != {}
        invariant left <= subscriberMap.Keys
        invariant Visits(order, subscriberMap.Keys - left)
        invariant forall k :: k in order ==> k in Entries()
        invariant sent == Recipients(Entries(), order, topic)
        decreases |left|
      {
        var k :| k in left;
        var suber := subscriberMap[k];
        VisitNext(Entries(), order, subscriberMap.Keys - left, k, topic);
        if suber.CheckTopicNeed(topic) {
          sent := sent + [suber.addr];
        }
        assert subscriberMap.Keys - left + {k} == subscriberMap.Keys - (left - {k});
        left, order := left - {k}, order + [k];
      }
      assert subscriberMap.Keys - left == Entries().Keys;
      forall e
        ensures multiset(sent)[e] == if Subscription(e, topic) in subs then 1 else 0
      {
        RecipientsAreSubscribers(Entries(), subs, order, topic, e);
      }
    }
  }
}
