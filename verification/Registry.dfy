/**
 One item registry of the bus: nodes keyed by topic and name, the first one
 offered under a key stays, and only its locked flag is ever changed.
 */
module Registries {
  import opened Common
  import opened Keys
  import opened TopicListPb

  const ITEM_SPLIT: Byte := 64

  type Items = map<Str, NodeData>

  function ItemKey(topic: Str, name: Str): Str {
    topic + [ITEM_SPLIT] + name
  }

  function KeyOf(n: NodeData): Str {
    ItemKey(n.topicName, n.name)
  }

  /** As long as no topic holds the separator, two nodes share a key exactly when they share topic and name. */
  lemma KeysIdentify(topic: Str, name: Str, otherTopic: Str, otherName: Str)
    requires ITEM_SPLIT !in topic && ITEM_SPLIT !in otherTopic
    ensures ItemKey(topic, name) == ItemKey(otherTopic, otherName) <==> topic == otherTopic && name == otherName
  {
    var a, b := ItemKey(topic, name), ItemKey(otherTopic, otherName);
    if a == b {
      assert a[|topic|] == ITEM_SPLIT && b[|otherTopic|] == ITEM_SPLIT;
      assert forall i :: 0 <= i < |topic| ==> a[i] == topic[i];
      assert forall i :: 0 <= i < |otherTopic| ==> b[i] == otherTopic[i];
      assert |topic| == |otherTopic|;
      assert topic == a[..|topic|] && otherTopic == b[..|topic|];
      assert name == a[|topic| + 1..] && otherName == b[|topic| + 1..];
    }
  }

  /** With a separator in a topic, different nodes can share a key. */
  lemma KeysCanCollide()
    ensures exists topic, name, otherTopic, otherName ::
              topic != otherTopic && ItemKey(topic, name) == ItemKey(otherTopic, otherName)
  {
    var a: Str, b: Str, c: Str := [97], [98], [99];
    assert ItemKey(a, b + [ITEM_SPLIT] + c) == ItemKey(a + [ITEM_SPLIT] + b, c);
    assert |a| != |a + [ITEM_SPLIT] + b|;
  }

  function Insert(items: Items, n: NodeData): Items {
    if KeyOf(n) in items then items else items[KeyOf(n) := n]
  }

  function SetLocked(items: Items, key: Str, locked: bool): Items {
    if key in items then items[key := items[key].(locked := locked)] else items
  }

  datatype Event = Offered(node: NodeData) | Flushed(key: Str, locked: bool)

  function Happen(items: Items, e: Event): Items {
    match e
    case Offered(n) => Insert(items, n)
    case Flushed(key, locked) => SetLocked(items, key, locked)
  }

  function Replay(log: seq<Event>): Items {
    if log == [] then map[] else Happen(Replay(log[..|log| - 1]), log[|log| - 1])
  }

  // ------------------------------------------- what a history says of a key

  predicate Offers(e: Event, key: Str) {
    e.Offered? && e.node.topicName + [ITEM_SPLIT] + e.node.name == key
  }

  predicate Flushes(e: Event, key: Str) {
    e.Flushed? && e.key == key
  }

  ghost predicate FirstOffer(log: seq<Event>, key: Str, i: int) {
    0 <= i < |log| && Offers(log[i], key) && forall j :: 0 <= j < i ==> !Offers(log[j], key)
  }

  /** The flag set by the latest flush of the key after position i, or else by the node offered there. */
  ghost predicate LockedIs(log: seq<Event>, key: Str, i: int, locked: bool)
    requires FirstOffer(log, key, i)
  {
    || (exists j :: i < j < |log| && log[j] == Flushed(key, locked)
          && forall k :: j < k < |log| ==> !Flushes(log[k], key))
    || (locked == log[i].node.locked && forall k :: i < k < |log| ==> !Flushes(log[k], key))
  }

  ghost predicate Describes(log: seq<Event>, key: Str, n: NodeData) {
    exists i :: FirstOffer(log, key, i)
             && n == log[i].node.(locked := n.locked)
             && LockedIs(log, key, i, n.locked)
  }

  lemma DescribesExtends(log: seq<Event>, e: Event, key: Str, n: NodeData)
    requires Describes(log, key, n)
    ensures Describes(log + [e], key, if Flushes(e, key) then n.(locked := e.locked) else n)
  {
    hide KeyOf;
    var i :| FirstOffer(log, key, i) && n == log[i].node.(locked := n.locked) && LockedIs(log, key, i, n.locked);
    var all := log + [e];
    assert FirstOffer(all, key, i);
    if Flushes(e, key) {
      assert all[|log|] == Flushed(key, e.locked);
      assert LockedIs(all, key, i, e.locked);
    } else {
      LockedIsExtends(log, e, key, i, n.locked);
    }
  }

  lemma LockedIsExtends(log: seq<Event>, e: Event, key: Str, i: int, locked: bool)
    requires FirstOffer(log, key, i) && FirstOffer(log + [e], key, i)
    requires LockedIs(log, key, i, locked) && !Flushes(e, key)
    ensures LockedIs(log + [e], key, i, locked)
  {
    hide KeyOf;
    var all := log + [e];
    assert forall k :: 0 <= k < |log| ==> all[k] == log[k];
    if forall k :: i < k < |log| ==> !Flushes(log[k], key) {
      assert forall k :: i < k < |all| ==> !Flushes(all[k], key);
    } else {
      var j :| i < j < |log| && log[j] == Flushed(key, locked)
               && forall k :: j < k < |log| ==> !Flushes(log[k], key);
      assert all[j] == Flushed(key, locked) && forall k :: j < k < |all| ==> !Flushes(all[k], key);
    }
  }

  lemma OfferedAnew(log: seq<Event>, n: NodeData)
    requires forall i :: 0 <= i < |log| ==> !Offers(log[i], KeyOf(n))
    ensures Describes(log + [Offered(n)], KeyOf(n), n)
  {
    var all := log + [Offered(n)];
    assert FirstOffer(all, KeyOf(n), |log|) && LockedIs(all, KeyOf(n), |log|, n.locked);
  }

  ghost predicate EverOffered(log: seq<Event>, key: Str) {
    exists i :: 0 <= i < |log| && Offers(log[i], key)
  }

  lemma EverOfferedSnoc(log: seq<Event>, e: Event, key: Str)
    ensures EverOffered(log + [e], key) <==> EverOffered(log, key) || Offers(e, key)
  {
    var all := log + [e];
    assert all[|log|] == e && forall i :: 0 <= i < |log| ==> all[i] == log[i];
  }

  /** A key is registered iff it was ever offered; its node is the first offered, its flag the last flushed. */
  lemma {:induction false} RegistryMeans(log: seq<Event>, key: Str)
    ensures key in Replay(log) <==> EverOffered(log, key)
    ensures key in Replay(log) ==> Describes(log, key, Replay(log)[key])
    decreases |log|
  {
    hide Describes;
    if log != [] {
      var before, e := log[..|log| - 1], log[|log| - 1];
      assert log == before + [e];
      RegistryMeans(before, key);
      EverOfferedSnoc(before, e, key);
      if key in Replay(before) {
        DescribesExtends(before, e, key, Replay(before)[key]);
      } else if Offers(e, key) {
        OfferedAnew(before, e.node);
      }
    }
  }

  /** Whatever happens later, a registered key keeps its topic, name, type and unknown records. */
  lemma {:induction false} EntriesAreForever(log: seq<Event>, more: seq<Event>, key: Str)
    requires key in Replay(log)
    ensures key in Replay(log + more)
    ensures var first, now := Replay(log)[key], Replay(log + more)[key];
            now == first.(locked := now.locked)
    decreases |more|
  {
    if more == [] {
      assert log + more == log;
    } else {
      var last := |more| - 1;
      EntriesAreForever(log, more[..last], key);
      assert (log + more)[..|log + more| - 1] == log + more[..last];
    }
  }

  // ------------------------------------------------------- offering a list

  function Offerings(ns: seq<NodeData>): (r: seq<Event>)
    ensures |r| == |ns| && forall i :: 0 <= i < |r| ==> r[i] == Offered(ns[i])
  {
    if ns == [] then [] else Offerings(ns[..|ns| - 1]) + [Offered(ns[|ns| - 1])]
  }

  function InsertAll(items: Items, ns: seq<NodeData>): Items {
    if ns == [] then items else Insert(InsertAll(items, ns[..|ns| - 1]), ns[|ns| - 1])
  }

  lemma {:induction false} ReplayOfferings(log: seq<Event>, ns: seq<NodeData>)
    ensures Replay(log + Offerings(ns)) == InsertAll(Replay(log), ns)
    decreases |ns|
  {
    if ns == [] {
      assert log + Offerings(ns) == log;
    } else {
      var last := |ns| - 1;
      ReplayOfferings(log, ns[..last]);
      var all := log + Offerings(ns);
      assert all[..|all| - 1] == log + Offerings(ns[..last]);
    }
  }

  lemma {:induction false} InsertAllKeeps(items: Items, ns: seq<NodeData>, key: Str)
    requires key in items
    ensures key in InsertAll(items, ns) && InsertAll(items, ns)[key] == items[key]
    decreases |ns|
  {
    if ns != [] {
      InsertAllKeeps(items, ns[..|ns| - 1], key);
    }
  }

  ghost predicate SoundItems(utf8: Str -> bool, items: Items) {
    forall key :: key in items ==> SoundNode(utf8, items[key])
  }

  lemma SetLockedKeepsSound(utf8: Str -> bool, items: Items, key: Str, locked: bool)
    requires SoundItems(utf8, items)
    ensures SoundItems(utf8, SetLocked(items, key, locked))
  {
    var after := SetLocked(items, key, locked);
    forall k | k in after
      ensures SoundNode(utf8, after[k])
    {
      assert SoundNode(utf8, items[k]);
    }
  }

  lemma SetLockedKeeps(items: Items, key: Str, locked: bool, other: Str)
    requires other in items
    ensures var after := SetLocked(items, key, locked);
            other in after && after[other] == items[other].(locked := after[other].locked)
  {
  }

  lemma {:induction false} InsertAllKeepsSound(utf8: Str -> bool, items: Items, ns: seq<NodeData>)
    requires SoundItems(utf8, items) && forall n :: n in ns ==> SoundNode(utf8, n)
    ensures SoundItems(utf8, InsertAll(items, ns))
    decreases |ns|
  {
    hide SoundNode, KeyOf;
    if ns != [] {
      var last := |ns| - 1;
      assert ns[last] in ns;
      InsertAllKeepsSound(utf8, items, ns[..last]);
    }
  }

  // ---------------------------------------------------------------- queries

  /** The four fields a reply copies. */
  function Copy(n: NodeData): NodeData {
    NodeData(n.topicName, n.name, n.nodeType, n.locked, [])
  }

  function Copies(items: Items, keys: seq<Str>): (r: seq<NodeData>)
    requires forall k :: k in keys ==> k in items
    ensures |r| == |keys| && forall i :: 0 <= i < |r| ==> r[i] == Copy(items[keys[i]])
  {
    if keys == [] then []
    else
      assert keys[|keys| - 1] in keys;
      Copies(items, keys[..|keys| - 1]) + [Copy(items[keys[|keys| - 1]])]
  }

  /** The reply to a query: the request's own nodes, then one per registered key in key order. */
  function Answer(request: ListData, items: Items): ListData {
    request.(nodes := request.nodes + Copies(items, Ascending(items.Keys)))
  }

  lemma AnswerIsSound(utf8: Str -> bool, request: ListData, items: Items)
    requires SoundList(utf8, request) && SoundItems(utf8, items)
    ensures SoundList(utf8, Answer(request, items))
  {
    var keys := Ascending(items.Keys);
    var copies := Copies(items, keys);
    forall n | n in copies
      ensures SoundNode(utf8, n)
    {
      var i :| 0 <= i < |copies| && copies[i] == n;
      assert keys[i] in keys;
    }
  }

  /** Topic, name, type and flag of an item, and nothing else. */
  predicate Carries(n: NodeData, item: NodeData) {
    && n.topicName == item.topicName && n.name == item.name
    && n.nodeType == item.nodeType && n.locked == item.locked && n.unknown == []
  }

  /** The nodes of the request, and behind them one per key with the four fields of its item. */
  ghost predicate ListsKeys(reply: ListData, request: ListData, items: Items, keys: seq<Str>) {
    var asked := |request.nodes|;
    && |reply.nodes| == asked + |keys| && reply.nodes[..asked] == request.nodes
    && forall i :: 0 <= i < |keys| ==> keys[i] in items && Carries(reply.nodes[asked + i], items[keys[i]])
  }

  /** The request's type and unknown records, its nodes, and the items: each key once, in the map's order. */
  ghost predicate Lists(reply: ListData, request: ListData, items: Items) {
    var keys := Ascending(items.Keys);
    && reply.listType == request.listType && reply.unknown == request.unknown
    && Ascends(keys) && (forall k :: k in keys <==> k in items)
    && ListsKeys(reply, request, items, keys)
  }

  lemma CopyAt(items: Items, keys: seq<Str>, i: nat)
    requires (forall k :: k in keys ==> k in items) && i < |keys|
    ensures keys[i] in items && Carries(Copies(items, keys)[i], items[keys[i]])
  {
    hide Copies;
    assert keys[i] in keys;
  }

  lemma CopiesListKeys(request: ListData, items: Items, keys: seq<Str>)
    requires forall k :: k in keys ==> k in items
    ensures ListsKeys(request.(nodes := request.nodes + Copies(items, keys)), request, items, keys)
  {
    hide Copies, Carries;
    NodesBehind(request.nodes, Copies(items, keys));
    forall i | 0 <= i < |keys|
      ensures keys[i] in items && Carries((request.nodes + Copies(items, keys))[|request.nodes| + i], items[keys[i]])
    {
      CopyAt(items, keys, i);
    }
  }

  lemma NodesBehind(asked: seq<NodeData>, copies: seq<NodeData>)
    ensures (asked + copies)[..|asked|] == asked
    ensures forall i :: 0 <= i < |copies| ==> (asked + copies)[|asked| + i] == copies[i]
  {
  }

  lemma {:induction false} AnswerListsTheRegistry(request: ListData, items: Items)
    ensures Lists(Answer(request, items), request, items)
  {
    AscendingAscends(items.Keys);
    CopiesListKeys(request, items, Ascending(items.Keys));
    hide Ascends, ListsKeys, Copies;
  }

  lemma {:induction false} InsertAllHas(items: Items, ns: seq<NodeData>, n: NodeData)
    requires n in ns
    ensures KeyOf(n) in InsertAll(items, ns)
    decreases |ns|
  {
    hide KeyOf;
    var last := |ns| - 1;
    if n != ns[last] {
      assert n in ns[..last];
      InsertAllHas(items, ns[..last], n);
    }
  }
}
