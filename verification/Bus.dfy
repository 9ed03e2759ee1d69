/**
 UDMSerBusiness (UDMSerBusiness.cpp): lock admission, the queue to the publish
 thread, the calls to the notifiers, the item registries and their queries. A
 step is one call from outside, or one piece of the publish thread's cycle.
 */
module Bus {
  import opened Common
  import opened Keys
  import opened Wire
  import opened UdmMessagePb
  import opened TopicListPb
  import opened Registries
  import opened ByteArrays
  import opened Frames

  // LockStat and ValueType
  const NO_LOCK: Int32 := 0
  const LOCK: Int32 := 1
  const UNLOCK: Int32 := 2
  const VALUE_TYPE_REQUEST: Int32 := 19
  const VALUE_TYPE_TOPICNODE: Int32 := 22

  function LockId(m: Udm): Str {
    m.topicName + m.variableName
  }

  function FlushKey(m: Udm): Str {
    ItemKey(m.topicName, m.variableName + [ITEM_SPLIT] + m.variableUnit)
  }

  /** TreeItemType, as the code reads it: anything but 0 and 1 selects the published variables. */
  datatype Kind = Requests | Subscriptions | Publications

  function KindOf(listType: Int32): Kind {
    if listType == 0 then Requests else if listType == 1 then Subscriptions else Publications
  }

  /** The numbers the source gives them. */
  lemma EnumeratorsAre()
    ensures NO_LOCK == 0 && LOCK == 1 && UNLOCK == 2
    ensures VALUE_TYPE_REQUEST == 19 && VALUE_TYPE_TOPICNODE == 22
  {
  }

  /** A registry's map and its history. */
  datatype Registry = Registry(items: Items, log: seq<Event>)

  function Flushed(r: Registry, key: Str, locked: bool): Registry {
    Registry(SetLocked(r.items, key, locked), r.log + [Event.Flushed(key, locked)])
  }

  function Extended(r: Registry, ns: seq<NodeData>): Registry {
    Registry(InsertAll(r.items, ns), r.log + Offerings(ns))
  }

  datatype State = State(
    locks: map<Str, Udm>,           // m_LockMsgMap
    requests: Registry,             // m_RequestItems
    subs: Registry,                 // m_VariableSubItemMap
    pubs: Registry,                 // m_VariablePubItemMap
    queue: seq<Udm>,                // m_allQueue
    terminated: bool,
    current: Option<Udm>,           // taken by the publish thread, in the loop over the notifiers
    next: nat,                      // notifiers already called for it
    announcing: Option<Udm>,        // all notifiers called, its nodes not yet registered
    inbox: seq<seq<Udm>>,           // the calls made to each notifier in m_notifierList
    hist: seq<Udm>,                 // history: everything onRecv was given
    open: nat,                      // history: how much of it came before terminate
    accepted: seq<Udm>,             // history: what the queue took in
    published: seq<Udm>,            // history: what the publish thread took out
    joined: seq<nat>)               // history: the number of publications each notifier missed

  const NO_ITEMS := Registry(map[], [])
  const INITIAL := State(map[], NO_ITEMS, NO_ITEMS, NO_ITEMS, [], false, None, 0, None, [], [], 0, [], [], [])

  datatype Step = Recv(m: Udm) | AddNotify | Pop | Deliver | EndCalls | Register | Terminate

  predicate Enabled(s: State, step: Step) {
    match step
    case Pop => s.current == None && s.announcing == None && !s.terminated && s.queue != []
    case Deliver => s.current.Some? && s.next < |s.inbox|
    case EndCalls => s.current.Some? && s.next == |s.inbox|
    case Register => s.announcing.Some?
    case _ => true
  }

  /** flushItemLockedStatus */
  function Flush(s: State, m: Udm, locked: bool): State {
    var key := FlushKey(m);
    if m.messageType == VALUE_TYPE_REQUEST then s.(requests := Flushed(s.requests, key, locked))
    else s.(subs := Flushed(s.subs, key, locked), pubs := Flushed(s.pubs, key, locked))
  }

  function Push(s: State, m: Udm): State {
    if s.terminated then s else s.(queue := s.queue + [m], accepted := s.accepted + [m])
  }

  /** onRecv, after the message is noted in the history. */
  function Receive(s: State, m: Udm): State {
    var id := LockId(m);
    if m.lockStat == NO_LOCK && id in s.locks then s
    else if m.lockStat == UNLOCK then
      if id in s.locks then Flush(s, m, false).(locks := s.locks - {id}) else s
    else if m.lockStat == LOCK && id !in s.locks then
      Push(Flush(s, m, true).(locks := s.locks[id := m]), m)
    else Push(s, m)
  }

  function Noted(s: State, m: Udm): State {
    s.(hist := s.hist + [m], open := if s.terminated then s.open else s.open + 1)
  }

  function Offer(s: State, list: ListData): State {
    match KindOf(list.listType)
    case Requests => s.(requests := Extended(s.requests, list.nodes))
    case Subscriptions => s.(subs := Extended(s.subs, list.nodes))
    case Publications => s.(pubs := Extended(s.pubs, list.nodes))
  }

  /** The topic list a published message carries, if it is one. */
  function Announcement(utf8: Str -> bool, m: Udm): Option<ListData> {
    if m.messageType == VALUE_TYPE_TOPICNODE then ParseList(utf8, m.value) else None
  }

  function After(utf8: Str -> bool, s: State, step: Step): State
    requires Enabled(s, step)
  {
    match step
    case Recv(m) => Receive(Noted(s, m), m)
    case AddNotify =>
      s.(inbox := s.inbox + [[]], joined := s.joined + [Completed(s)])
    case Pop =>
      s.(queue := s.queue[1..], published := s.published + [s.queue[0]], current := Some(s.queue[0]), next := 0)
    case Deliver =>
      s.(inbox := s.inbox[s.next := s.inbox[s.next] + [s.current.value]], next := s.next + 1)
    case EndCalls => s.(announcing := s.current, current := None, next := 0)
    case Register =>
      var done := s.(announcing := None);
      (match Announcement(utf8, s.announcing.value)
       case None => done
       case Some(list) => Offer(done, list))
    case Terminate => s.(terminated := true)
  }

  /** The number of publications all notifiers have been called with. */
  function Completed(s: State): nat {
    if s.current == None || s.published == [] then |s.published| else |s.published| - 1
  }

  /** The number of publications whose cycle is over. */
  function Finished(s: State): int {
    |s.published| - (if s.current == None && s.announcing == None then 0 else 1)
  }

  ghost predicate ValidRun(utf8: Str -> bool, s: State, steps: seq<Step>)
    decreases |steps|
  {
    steps == [] || (Enabled(s, steps[0]) && ValidRun(utf8, After(utf8, s, steps[0]), steps[1..]))
  }

  ghost function Final(utf8: Str -> bool, s: State, steps: seq<Step>): State
    requires ValidRun(utf8, s, steps)
    decreases |steps|
  {
    if steps == [] then s else Final(utf8, After(utf8, s, steps[0]), steps[1..])
  }

  // ---------------------------------------------- locks, from the history only

  predicate Locks(m: Udm, id: Str) {
    m.lockStat == LOCK && m.topicName + m.variableName == id
  }

  predicate Unlocks(m: Udm, id: Str) {
    m.lockStat == UNLOCK && m.topicName + m.variableName == id
  }

  ghost predicate Released(hist: seq<Udm>, id: Str, from: int, to: int)
    requires 0 <= from && to <= |hist|
  {
    exists k :: from < k < to && Unlocks(hist[k], id)
  }

  /** Some LOCK of the id has no UNLOCK after it: the latest switch was LOCK. */
  ghost predicate StillLocked(hist: seq<Udm>, id: Str) {
    exists i :: 0 <= i < |hist| && Locks(hist[i], id) && !Released(hist, id, i, |hist|)
  }

  /** Message i is the first LOCK of the id since its last UNLOCK. */
  ghost predicate FirstLock(hist: seq<Udm>, id: Str, i: int) {
    && 0 <= i < |hist| && Locks(hist[i], id) && !Released(hist, id, i, |hist|)
    && forall j :: 0 <= j < i && Locks(hist[j], id) ==> Released(hist, id, j, i)
  }

  /** What arrives behind `before` and is passed on: no UNLOCK, and no NONE whose id is locked. */
  ghost predicate Passes(before: seq<Udm>, m: Udm) {
    m.lockStat != UNLOCK && (m.lockStat == NO_LOCK ==> !StillLocked(before, m.topicName + m.variableName))
  }

  ghost function Admitted(hist: seq<Udm>): seq<Udm> {
    if hist == [] then []
    else
      var before, m := hist[..|hist| - 1], hist[|hist| - 1];
      Admitted(before) + (if Passes(before, m) then [m] else [])
  }

  function LocksOf(hist: seq<Udm>): map<Str, Udm> {
    if hist == [] then map[] else Switch(LocksOf(hist[..|hist| - 1]), hist[|hist| - 1])
  }

  function Switch(locks: map<Str, Udm>, m: Udm): map<Str, Udm> {
    if m.lockStat == UNLOCK then locks - {LockId(m)}
    else if m.lockStat == LOCK && LockId(m) !in locks then locks[LockId(m) := m]
    else locks
  }

  ghost predicate LocksMean(hist: seq<Udm>, id: Str, locks: map<Str, Udm>) {
    if id in locks then exists i :: FirstLock(hist, id, i) && locks[id] == hist[i]
    else forall j :: 0 <= j < |hist| && Locks(hist[j], id) ==> Released(hist, id, j, |hist|)
  }

  lemma SwitchExtends(hist: seq<Udm>, m: Udm, id: Str, locks: map<Str, Udm>)
    requires LocksMean(hist, id, locks)
    ensures LocksMean(hist + [m], id, Switch(locks, m))
  {
    var all := hist + [m];
    assert all[|hist|] == m && forall j :: 0 <= j < |hist| ==> all[j] == hist[j];
    forall j, to | 0 <= j < to <= |hist| && Released(hist, id, j, to)
      ensures Released(all, id, j, to) && Released(all, id, j, |all|)
    {
      var k :| j < k < to && Unlocks(hist[k], id);
      assert Unlocks(all[k], id);
    }
    if id in locks {
      var i :| FirstLock(hist, id, i) && locks[id] == hist[i];
      if !Unlocks(m, id) {
        assert FirstLock(all, id, i);
      } else {
        assert forall j :: 0 <= j < |hist| ==> Released(all, id, j, |all|);
      }
    } else if Locks(m, id) {
      assert FirstLock(all, id, |hist|);
    }
  }

  lemma {:induction false} LocksOfMeans(hist: seq<Udm>, id: Str)
    ensures LocksMean(hist, id, LocksOf(hist))
    decreases |hist|
  {
    if hist != [] {
      var before, m := hist[..|hist| - 1], hist[|hist| - 1];
      assert hist == before + [m];
      LocksOfMeans(before, id);
      SwitchExtends(before, m, id, LocksOf(before));
    }
  }

  /** The lock map holds an id exactly when its latest switch was LOCK, with the first LOCK since the last UNLOCK. */
  lemma {:induction false} LocksAreExact(hist: seq<Udm>, id: Str)
    ensures id in LocksOf(hist) <==> StillLocked(hist, id)
    ensures id in LocksOf(hist) ==> exists i :: FirstLock(hist, id, i) && LocksOf(hist)[id] == hist[i]
  {
    LocksOfMeans(hist, id);
  }

  // ------------------------------------------------------------- the invariant

  ghost predicate AdmissionInv(s: State) {
    && s.locks == LocksOf(s.hist)
    && s.open <= |s.hist| && (!s.terminated ==> s.open == |s.hist|)
    && s.accepted == Admitted(s.hist[..s.open])
    && s.accepted == s.published + s.queue
  }

  /** Notifier i has been called with everything published since it joined, the current message last. */
  ghost predicate DeliveryInv(s: State) {
    && (s.current.Some? ==> s.published != [] && s.published[|s.published| - 1] == s.current.value)
    && (s.announcing.Some? ==>
          s.current == None && s.published != [] && s.published[|s.published| - 1] == s.announcing.value)
    && s.next <= |s.inbox| == |s.joined| && (s.current == None ==> s.next == 0)
    && forall i :: 0 <= i < |s.inbox| ==> Delivered(s, i)
  }

  ghost predicate Delivered(s: State, i: int)
    requires 0 <= i < |s.inbox| == |s.joined|
  {
    && s.joined[i] <= Completed(s)
    && s.inbox[i] == s.published[s.joined[i]..if i < s.next then |s.published| else Completed(s)]
  }

  /** The nodes a published message adds to the registry of a kind: those of a topic list of the type for it. */
  function NodesFor(utf8: Str -> bool, m: Udm, kind: Kind): seq<NodeData> {
    var list := ParseList(utf8, m.value);
    if m.messageType != VALUE_TYPE_TOPICNODE || list == None then []
    else
      match kind
      case Requests => if list.value.listType == 0 then list.value.nodes else []
      case Subscriptions => if list.value.listType == 1 then list.value.nodes else []
      case Publications => if list.value.listType == 0 || list.value.listType == 1 then [] else list.value.nodes
  }

  /** A registry of the kind is flushed by the message: requests by requests, both others by anything else. */
  predicate Concerns(kind: Kind, m: Udm) {
    kind == Requests <==> m.messageType == VALUE_TYPE_REQUEST
  }

  /** The message locks an unlocked id or unlocks a locked one, as far as the messages before it say. */
  ghost predicate FlipsAfter(before: seq<Udm>, m: Udm) {
    m.lockStat == (if StillLocked(before, m.topicName + m.variableName) then UNLOCK else LOCK)
  }

  ghost predicate RegistryInv(utf8: Str -> bool, r: Registry) {
    r.items == Replay(r.log) && SoundItems(utf8, r.items)
  }

  ghost predicate RegistriesInv(utf8: Str -> bool, s: State) {
    RegistryInv(utf8, s.requests) && RegistryInv(utf8, s.subs) && RegistryInv(utf8, s.pubs)
  }

  ghost predicate Inv(utf8: Str -> bool, s: State) {
    AdmissionInv(s) && DeliveryInv(s) && RegistriesInv(utf8, s)
  }

  lemma InitialInv(utf8: Str -> bool)
    ensures Inv(utf8, INITIAL)
  {
  }

  lemma ReceiveKeepsAdmission(s: State, m: Udm)
    requires AdmissionInv(s)
    ensures AdmissionInv(Receive(Noted(s, m), m))
  {
    hide Admitted, LocksOf, StillLocked, SetLocked;
    LocksAreExact(s.hist, LockId(m));
    LocksOfSnoc(s.hist, m);
    if s.terminated {
      assert (s.hist + [m])[..s.open] == s.hist[..s.open];
    } else {
      assert s.hist[..s.open] == s.hist && (s.hist + [m])[..s.open + 1] == s.hist + [m];
      AdmittedSnoc(s.hist, m);
    }
  }

  lemma LocksOfSnoc(hist: seq<Udm>, m: Udm)
    ensures LocksOf(hist + [m]) == Switch(LocksOf(hist), m)
  {
    assert (hist + [m])[..|hist|] == hist;
  }

  lemma AdmittedSnoc(hist: seq<Udm>, m: Udm)
    ensures Admitted(hist + [m]) == Admitted(hist) + (if Passes(hist, m) then [m] else [])
  {
    assert (hist + [m])[..|hist|] == hist;
  }

  lemma StepKeepsAdmission(utf8: Str -> bool, s: State, step: Step)
    requires AdmissionInv(s) && Enabled(s, step)
    ensures AdmissionInv(After(utf8, s, step))
  {
    hide Admitted, LocksOf, ParseList, Extended;
    if step.Recv? {
      ReceiveKeepsAdmission(s, step.m);
    }
  }

  lemma StepKeepsDelivery(utf8: Str -> bool, s: State, step: Step)
    requires DeliveryInv(s) && Enabled(s, step)
    ensures DeliveryInv(After(utf8, s, step))
  {
    hide Announcement, Receive, Offer;
    var n := After(utf8, s, step);
    if step.Recv? {
      ReceiveLeavesDelivery(Noted(s, step.m), step.m);
      assert forall i :: 0 <= i < |s.inbox| ==> Delivered(s, i) ==> Delivered(n, i);
    } else if step.Register? {
      RegisterLeavesDelivery(utf8, s);
      assert forall i :: 0 <= i < |s.inbox| ==> Delivered(s, i) ==> Delivered(n, i);
    } else {
      StepKeepsDelivered(utf8, s, step);
    }
  }

  lemma ReceiveLeavesDelivery(s: State, m: Udm)
    ensures var n := Receive(s, m);
            && n.published == s.published && n.current == s.current && n.next == s.next
            && n.inbox == s.inbox && n.joined == s.joined && n.announcing == s.announcing
            && n.hist == s.hist && n.open == s.open && n.terminated == s.terminated
  {
    hide SetLocked, LockId, FlushKey;
  }

  lemma RegisterLeavesDelivery(utf8: Str -> bool, s: State)
    requires Enabled(s, Register)
    ensures var n := After(utf8, s, Register);
            && n.published == s.published && n.current == s.current && n.next == s.next
            && n.inbox == s.inbox && n.joined == s.joined && n.announcing == None
            && n.hist == s.hist && n.open == s.open && n.terminated == s.terminated && n.accepted == s.accepted
  {
    hide Extended, Announcement;
  }

  lemma StepKeepsDelivered(utf8: Str -> bool, s: State, step: Step)
    requires DeliveryInv(s) && Enabled(s, step) && !step.Recv? && !step.Register?
    ensures DeliveryInv(After(utf8, s, step))
  {
    var n := After(utf8, s, step);
    forall i | 0 <= i < |n.inbox|
      ensures Delivered(n, i)
    {
      if i < |s.inbox| {
        DeliveredAfter(utf8, s, step, i);
      }
    }
  }

  lemma SliceBefore(ms: seq<Udm>, m: Udm, j: nat)
    requires j <= |ms|
    ensures (ms + [m])[j..|ms|] == ms[j..|ms|]
  {
  }

  lemma SliceSnoc(ms: seq<Udm>, j: nat)
    requires j < |ms|
    ensures ms[j..|ms| - 1] + [ms[|ms| - 1]] == ms[j..|ms|]
  {
  }

  lemma DeliveredAfter(utf8: Str -> bool, s: State, step: Step, i: nat)
    requires DeliveryInv(s) && Enabled(s, step) && !step.Recv? && !step.Register? && i < |s.inbox|
    ensures Delivered(After(utf8, s, step), i)
  {
    assert Delivered(s, i);
    var j := s.joined[i];
    if step.Pop? {
      SliceBefore(s.published, s.queue[0], j);
    } else if step.Deliver? && i == s.next {
      SliceSnoc(s.published, j);
    }
  }

  /** Exactly the messages that flip an id flush, in the registries they concern. */
  function FlushIf(flips: bool, r: Registry, m: Udm): Registry {
    if flips then Flushed(r, FlushKey(m), m.lockStat == LOCK) else r
  }

  predicate Flips(s: State, m: Udm) {
    m.lockStat == (if LockId(m) in s.locks then UNLOCK else LOCK)
  }

  lemma ReceiveFlushes(s: State, m: Udm)
    ensures var n, flips := Receive(s, m), Flips(s, m);
            && n.requests == FlushIf(flips && Concerns(Requests, m), s.requests, m)
            && n.subs == FlushIf(flips && Concerns(Subscriptions, m), s.subs, m)
            && n.pubs == FlushIf(flips && Concerns(Publications, m), s.pubs, m)
            && n.hist == s.hist
  {
    hide Flushed, FlushKey, LockId;
  }

  lemma LogSnoc(log: seq<Event>, e: Event)
    ensures Replay(log + [e]) == Happen(Replay(log), e)
  {
    assert (log + [e])[..|log|] == log;
  }

  lemma FlushKeepsRegistry(utf8: Str -> bool, r: Registry, flips: bool, m: Udm)
    requires RegistryInv(utf8, r)
    ensures RegistryInv(utf8, FlushIf(flips, r, m))
  {
    hide FlushKey, SoundItems, Replay;
    if flips {
      LogSnoc(r.log, Event.Flushed(FlushKey(m), m.lockStat == LOCK));
      SetLockedKeepsSound(utf8, r.items, FlushKey(m), m.lockStat == LOCK);
    }
  }

  lemma OfferKeepsRegistry(utf8: Str -> bool, r: Registry, m: Udm, kind: Kind)
    requires RegistryInv(utf8, r)
    ensures RegistryInv(utf8, Extended(r, NodesFor(utf8, m, kind)))
  {
    hide Replay, ParseList, InsertAll, SoundItems, Offerings, NodesFor;
    var ns := NodesFor(utf8, m, kind);
    ParsedNodesAreSound(utf8, m, kind);
    ReplayOfferings(r.log, ns);
    InsertAllKeepsSound(utf8, r.items, ns);
  }

  lemma ParsedNodesAreSound(utf8: Str -> bool, m: Udm, kind: Kind)
    ensures forall n :: n in NodesFor(utf8, m, kind) ==> SoundNode(utf8, n)
  {
    hide ParseList, LegibleNode, StorableNode;
    if ParseList(utf8, m.value).Some? {
      ParsedListIsSound(utf8, m.value);
    }
  }

  /** Registering extends every registry by the nodes for it, most of them by none. */
  lemma RegisterExtends(utf8: Str -> bool, s: State)
    requires Enabled(s, Register)
    ensures var n, m := After(utf8, s, Register), s.announcing.value;
            && n.requests == Extended(s.requests, NodesFor(utf8, m, Requests))
            && n.subs == Extended(s.subs, NodesFor(utf8, m, Subscriptions))
            && n.pubs == Extended(s.pubs, NodesFor(utf8, m, Publications))
  {
    NothingExtends(s.requests);
    NothingExtends(s.subs);
    NothingExtends(s.pubs);
    hide Extended, ParseList;
  }

  lemma NothingExtends(r: Registry)
    ensures Extended(r, []) == r
  {
  }

  lemma {:induction false} StepKeepsRegistries(utf8: Str -> bool, s: State, step: Step)
    requires RegistriesInv(utf8, s) && Enabled(s, step)
    ensures RegistriesInv(utf8, After(utf8, s, step))
  {
    hide RegistryInv, Receive, Extended, Announcement, FlushIf, Flips, Concerns;
    match step
    case Recv(m) =>
      ReceiveFlushes(Noted(s, m), m);
      FlushKeepsRegistry(utf8, s.requests, Flips(s, m) && Concerns(Requests, m), m);
      FlushKeepsRegistry(utf8, s.subs, Flips(s, m) && Concerns(Subscriptions, m), m);
      FlushKeepsRegistry(utf8, s.pubs, Flips(s, m) && Concerns(Publications, m), m);
      assert Flips(Noted(s, m), m) == Flips(s, m) by { SameFlips(s, m); }
    case Register =>
      RegisterExtends(utf8, s);
      OfferKeepsRegistry(utf8, s.requests, s.announcing.value, Requests);
      OfferKeepsRegistry(utf8, s.subs, s.announcing.value, Subscriptions);
      OfferKeepsRegistry(utf8, s.pubs, s.announcing.value, Publications);
    case _ =>
  }

  lemma SameFlips(s: State, m: Udm)
    ensures Flips(Noted(s, m), m) == Flips(s, m)
  {
  }

  lemma StepKeepsInv(utf8: Str -> bool, s: State, step: Step)
    requires Inv(utf8, s) && Enabled(s, step)
    ensures Inv(utf8, After(utf8, s, step))
  {
    hide AdmissionInv, DeliveryInv, RegistriesInv, After;
    StepKeepsAdmission(utf8, s, step);
    StepKeepsDelivery(utf8, s, step);
    StepKeepsRegistries(utf8, s, step);
  }

  lemma {:induction false} RunKeepsInv(utf8: Str -> bool, s: State, steps: seq<Step>)
    requires Inv(utf8, s) && ValidRun(utf8, s, steps)
    ensures Inv(utf8, Final(utf8, s, steps))
    decreases |steps|
  {
    hide Inv, After;
    if steps != [] {
      StepKeepsInv(utf8, s, steps[0]);
      RunKeepsInv(utf8, After(utf8, s, steps[0]), steps[1..]);
    }
  }

  // ------------------------------------------------------------ over every run

  /** What onRecv was given. */
  function Received(steps: seq<Step>): seq<Udm> {
    if steps == [] then []
    else Received(steps[..|steps| - 1]) + Message(steps[|steps| - 1])
  }

  function Message(step: Step): seq<Udm> {
    if step.Recv? then [step.m] else []
  }

  predicate Closed(steps: seq<Step>) {
    steps != [] && (steps[|steps| - 1].Terminate? || Closed(steps[..|steps| - 1]))
  }

  /** What onRecv was given before the queue was terminated. */
  function ReceivedOpen(steps: seq<Step>): seq<Udm> {
    if steps == [] then []
    else
      var before := steps[..|steps| - 1];
      ReceivedOpen(before) + (if Closed(before) then [] else Message(steps[|steps| - 1]))
  }

  /** The cycles of the publish thread that have come to their end. */
  function Registrations(steps: seq<Step>): nat {
    if steps == [] then 0
    else Registrations(steps[..|steps| - 1]) + if steps[|steps| - 1].Register? then 1 else 0
  }

  /** For every notifier, in order of joining, the loops over the notifiers that had ended by then. */
  function Joined(steps: seq<Step>): seq<nat> {
    if steps == [] then []
    else
      var before := steps[..|steps| - 1];
      Joined(before) + (if steps[|steps| - 1].AddNotify? then [Ends(before)] else [])
  }

  function Ends(steps: seq<Step>): nat {
    if steps == [] then 0
    else Ends(steps[..|steps| - 1]) + if steps[|steps| - 1].EndCalls? then 1 else 0
  }

  lemma {:induction false} RunSnoc(utf8: Str -> bool, s: State, steps: seq<Step>, last: Step)
    ensures ValidRun(utf8, s, steps + [last])
            <==> ValidRun(utf8, s, steps) && Enabled(Final(utf8, s, steps), last)
    ensures ValidRun(utf8, s, steps + [last]) ==>
              Final(utf8, s, steps + [last]) == After(utf8, Final(utf8, s, steps), last)
    decreases |steps|
  {
    hide After, Enabled;
    var all := steps + [last];
    if steps == [] {
      assert all[1..] == [];
    } else {
      assert all[1..] == steps[1..] + [last];
      if Enabled(s, steps[0]) {
        RunSnoc(utf8, After(utf8, s, steps[0]), steps[1..], last);
      }
    }
  }

  lemma NoSteps(utf8: Str -> bool, s: State)
    ensures ValidRun(utf8, s, []) && Final(utf8, s, []) == s
  {
  }

  ghost predicate Recorded(s: State, steps: seq<Step>) {
    && s.hist == Received(steps) && s.terminated == Closed(steps)
    && s.open <= |s.hist| && s.hist[..s.open] == ReceivedOpen(steps)
    && (!s.terminated ==> s.open == |s.hist|)
    && Finished(s) == Registrations(steps)
    && s.joined == Joined(steps) && Completed(s) == Ends(steps)
  }

  lemma StepRecords(utf8: Str -> bool, s: State, steps: seq<Step>, step: Step)
    requires DeliveryInv(s) && Recorded(s, steps) && Enabled(s, step)
    ensures Recorded(After(utf8, s, step), steps + [step])
  {
    hide Receive, Announcement;
    assert (steps + [step])[..|steps|] == steps;
    var n := After(utf8, s, step);
    match step
    case Recv(m) =>
      ReceiveLeavesDelivery(Noted(s, m), m);
      assert s.terminated ==> n.hist[..n.open] == s.hist[..s.open];
      assert !s.terminated ==> n.hist[..n.open] == s.hist + [m] && s.hist[..s.open] == s.hist;
    case Register => RegisterLeavesDelivery(utf8, s);
    case _ =>
  }

  lemma {:induction false} HistoryIsReceived(utf8: Str -> bool, steps: seq<Step>)
    requires ValidRun(utf8, INITIAL, steps)
    ensures Recorded(Final(utf8, INITIAL, steps), steps)
    decreases |steps|
  {
    hide After, ValidRun, Final;
    if steps == [] {
      NoSteps(utf8, INITIAL);
    } else {
      hide Recorded, Inv, AdmissionInv, DeliveryInv, RegistriesInv;
      var before, last := steps[..|steps| - 1], steps[|steps| - 1];
      assert before + [last] == steps;
      RunSnoc(utf8, INITIAL, before, last);
      HistoryIsReceived(utf8, before);
      Reachable(utf8, before);
      StepRecords(utf8, Final(utf8, INITIAL, before), before, last);
    }
  }

  lemma Reachable(utf8: Str -> bool, steps: seq<Step>)
    requires ValidRun(utf8, INITIAL, steps)
    ensures var s := Final(utf8, INITIAL, steps);
            Inv(utf8, s) && AdmissionInv(s) && DeliveryInv(s) && RegistriesInv(utf8, s)
  {
    InitialInv(utf8);
    RunKeepsInv(utf8, INITIAL, steps);
  }

  /** The lock map is a function of what was received: the latest switch decides, the first LOCK since is kept. */
  lemma LockMapIsExact(utf8: Str -> bool, steps: seq<Step>, id: Str)
    requires ValidRun(utf8, INITIAL, steps)
    ensures var s := Final(utf8, INITIAL, steps);
            && (id in s.locks <==> StillLocked(Received(steps), id))
            && (id in s.locks ==>
                  exists i :: FirstLock(Received(steps), id, i) && s.locks[id] == Received(steps)[i])
  {
    hide Inv, Final, ValidRun, RegistriesInv, DeliveryInv, StillLocked, FirstLock;
    Reachable(utf8, steps);
    HistoryIsReceived(utf8, steps);
    LocksAreExact(Received(steps), id);
  }

  /** What is published, then what is queued, is what was admitted before terminate: nothing lost, added or moved. */
  lemma AdmissionIsExact(utf8: Str -> bool, steps: seq<Step>)
    requires ValidRun(utf8, INITIAL, steps)
    ensures var s := Final(utf8, INITIAL, steps);
            s.published + s.queue == Admitted(ReceivedOpen(steps))
  {
    hide Inv, Final, ValidRun, RegistriesInv, DeliveryInv, Admitted, LocksOf;
    Reachable(utf8, steps);
    HistoryIsReceived(utf8, steps);
  }

  /** Each notifier was called with a stretch of the admitted sequence, in order, from where it joined. */
  lemma NotifiersSeeThePublications(utf8: Str -> bool, steps: seq<Step>, i: nat)
    requires ValidRun(utf8, INITIAL, steps) && i < |Final(utf8, INITIAL, steps).inbox|
    ensures var s, admitted := Final(utf8, INITIAL, steps), Admitted(ReceivedOpen(steps));
            && i < |Joined(steps)|
            && var from := Joined(steps)[i];
            && from + |s.inbox[i]| <= |s.published| && from <= |admitted|
            && |s.published| <= from + |s.inbox[i]| + (if s.current.Some? then 1 else 0)
            && s.inbox[i] <= admitted[from..]
  {
    hide Inv, Final, ValidRun, RegistriesInv, Admitted, LocksOf;
    Reachable(utf8, steps);
    HistoryIsReceived(utf8, steps);
    var s := Final(utf8, INITIAL, steps);
    assert Delivered(s, i);
    assert s.accepted[s.joined[i]..] == s.published[s.joined[i]..] + s.queue;
  }

  function RegistryOf(s: State, kind: Kind): Registry {
    match kind
    case Requests => s.requests
    case Subscriptions => s.subs
    case Publications => s.pubs
  }

  /** What one step adds to the log of a registry, as far as the steps before it say. */
  ghost function EventsOf(utf8: Str -> bool, before: seq<Step>, step: Step, kind: Kind): seq<Event> {
    match step
    case Recv(m) =>
      var key := m.topicName + [ITEM_SPLIT] + (m.variableName + [ITEM_SPLIT] + m.variableUnit);
      var concerned := m.messageType == VALUE_TYPE_REQUEST <==> kind == Requests;
      if FlipsAfter(Received(before), m) && concerned then [Event.Flushed(key, m.lockStat == LOCK)] else []
    case Register =>
      var k, admitted := Registrations(before), Admitted(ReceivedOpen(before));
      if k < |admitted| then Offerings(NodesFor(utf8, admitted[k], kind)) else []
    case _ => []
  }

  /** The log of a registry: flushes by the messages received, offers by the k-th admitted message at the k-th Register. */
  ghost function LogOf(utf8: Str -> bool, steps: seq<Step>, kind: Kind): seq<Event> {
    if steps == [] then []
    else
      var before, last := steps[..|steps| - 1], steps[|steps| - 1];
      LogOf(utf8, before, kind) + EventsOf(utf8, before, last, kind)
  }

  lemma StepLogs(utf8: Str -> bool, s: State, before: seq<Step>, step: Step, kind: Kind)
    requires Inv(utf8, s) && Enabled(s, step)
    requires s.hist == Received(before) && s.hist[..s.open] == ReceivedOpen(before) && Finished(s) == Registrations(before)
    ensures RegistryOf(After(utf8, s, step), kind).log == RegistryOf(s, kind).log + EventsOf(utf8, before, step, kind)
  {
    hide Receive, Announcement, FlushIf, Admitted, LocksOf, StillLocked, Offerings, InsertAll, NodesFor;
    match step
    case Recv(m) =>
      LocksAreExact(s.hist, LockId(m));
      ReceiveFlushes(Noted(s, m), m);
      FlushLogs(FlipsAfter(s.hist, m) && Concerns(kind, m), RegistryOf(s, kind), m);
    case Register =>
      RegisterExtends(utf8, s);
      var k := Registrations(before);
      assert Admitted(ReceivedOpen(before))[k] == s.announcing.value;
    case _ =>
      assert RegistryOf(s, kind).log + [] == RegistryOf(s, kind).log;
  }

  lemma FlushLogs(flips: bool, r: Registry, m: Udm)
    ensures FlushIf(flips, r, m).log == r.log + (if flips then [Event.Flushed(FlushKey(m), m.lockStat == LOCK)] else [])
  {
  }

  lemma {:induction false} LogIsOf(utf8: Str -> bool, steps: seq<Step>, kind: Kind)
    requires ValidRun(utf8, INITIAL, steps)
    ensures RegistryOf(Final(utf8, INITIAL, steps), kind).log == LogOf(utf8, steps, kind)
    decreases |steps|
  {
    hide Inv, After, EventsOf, ValidRun, Final;
    if steps == [] {
      NoSteps(utf8, INITIAL);
    } else {
      var before, last := steps[..|steps| - 1], steps[|steps| - 1];
      assert before + [last] == steps;
      RunSnoc(utf8, INITIAL, before, last);
      LogIsOf(utf8, before, kind);
      HistoryIsReceived(utf8, before);
      Reachable(utf8, before);
      StepLogs(utf8, Final(utf8, INITIAL, before), before, last, kind);
    }
  }

  /**
   In every reachable state, a registry files under each key the first node with
   that key that was offered, and its locked flag is that of the latest flush of
   the key since; which offers and flushes there were, and in which order, is a
   matter of the steps alone.
   */
  lemma RegistriesAreExact(utf8: Str -> bool, steps: seq<Step>, kind: Kind, key: Str)
    requires ValidRun(utf8, INITIAL, steps)
    ensures var items, log := RegistryOf(Final(utf8, INITIAL, steps), kind).items, LogOf(utf8, steps, kind);
            && (key in items <==> EverOffered(log, key))
            && (key in items ==> Describes(log, key, items[key]))
  {
    hide Inv, Final, ValidRun, AdmissionInv, DeliveryInv, Describes, EverOffered, Replay, SoundItems, LogOf;
    Reachable(utf8, steps);
    LogIsOf(utf8, steps, kind);
    RegistryMeans(LogOf(utf8, steps, kind), key);
  }

  /** A registered key keeps its topic, name, type and unknown records through every later step. */
  lemma {:induction false} RegistrationIsForever(utf8: Str -> bool, s: State, steps: seq<Step>, kind: Kind, key: Str)
    requires ValidRun(utf8, s, steps) && key in RegistryOf(s, kind).items
    ensures var was, r := RegistryOf(s, kind).items[key], RegistryOf(Final(utf8, s, steps), kind);
            key in r.items && r.items[key] == was.(locked := r.items[key].locked)
    decreases |steps|
  {
    hide KeyOf, Announcement, FlushKey, LockId;
    if steps != [] {
      var n := After(utf8, s, steps[0]);
      StepKeepsEntry(utf8, s, steps[0], kind, key);
      RegistrationIsForever(utf8, n, steps[1..], kind, key);
    }
  }

  lemma ReceiveKeepsEntry(s: State, m: Udm, kind: Kind, key: Str)
    requires key in RegistryOf(s, kind).items
    ensures var was, r := RegistryOf(s, kind).items[key], RegistryOf(Receive(s, m), kind);
            key in r.items && r.items[key] == was.(locked := r.items[key].locked)
  {
    hide SetLocked, FlushKey, LockId, Receive;
    ReceiveFlushes(s, m);
    SetLockedKeeps(RegistryOf(s, kind).items, FlushKey(m), m.lockStat == LOCK, key);
  }

  lemma StepKeepsEntry(utf8: Str -> bool, s: State, step: Step, kind: Kind, key: Str)
    requires Enabled(s, step) && key in RegistryOf(s, kind).items
    ensures var was, r := RegistryOf(s, kind).items[key], RegistryOf(After(utf8, s, step), kind);
            key in r.items && r.items[key] == was.(locked := r.items[key].locked)
  {
    hide KeyOf, InsertAll, Announcement, Receive;
    if step.Recv? {
      ReceiveKeepsEntry(Noted(s, step.m), step.m, kind, key);
    } else if step.Register? {
      var a := Announcement(utf8, s.announcing.value);
      if a.Some? {
        InsertAllKeeps(RegistryOf(s, kind).items, a.value.nodes, key);
      }
    }
  }

  // ------------------------------------------------------------------ queries

  /** The message a reply travels in; sender, time and lock are the responder's. */
  function Response(source: Str, lock: Int32, time: Uint64, reply: ListData): Udm {
    Udm(VALUE_TYPE_TOPICNODE, [], [], [], source, lock, time, SerializeList(reply), [])
  }

  predicate Replies(utf8: Str -> bool, source: Str) {
    Readable(utf8, source) && |source| <= MAX_LEN
  }

  /** Encoded, framed with the empty topic and decoded, a reply arrives whole exactly when its list and its sender fit. */
  lemma ReplyArrives(utf8: Str -> bool, m: Udm, reply: ListData)
    requires SoundList(utf8, reply) && Storable(m)
    requires m == Response(m.sourceName, m.lockStat, m.timestamp, reply).(unknown := m.unknown)
    ensures var fits := |SerializeList(reply)| <= MAX_LEN;
            && Decode(utf8, Encode([], m)).message == (if fits && Replies(utf8, m.sourceName) then Some(m) else None)
            && (fits ==> ParseList(utf8, m.value) == Some(reply))
  {
    hide SerializeList, Decode, Encode, ParseList, SafeTopic, Storable;
    CleanTopicIsSafe(utf8, []);
    FrameRoundTrip(utf8, m);
    forall n | n in reply.nodes
      ensures |SerializeNode(n)| <= |SerializeList(reply)|
    {
      ListOutweighsItsNodes(reply, n);
    }
    ListRoundTripExactly(utf8, reply);
  }

  /** What the client makes of a reply: nothing, or the list of the request and the items, from that sender. */
  ghost predicate ClientShows(utf8: Str -> bool, frame: Str, request: ListData, items: Items, source: Str, lock: Int32, time: Uint64) {
    var got := Decode(utf8, frame).message;
    && (got.Some? <==> |SerializeList(Answer(request, items))| <= MAX_LEN && Replies(utf8, source))
    && (got.Some? ==>
          && got.value.messageType == VALUE_TYPE_TOPICNODE
          && got.value.topicName == got.value.variableName == got.value.variableUnit == []
          && got.value.sourceName == source && got.value.lockStat == lock && got.value.timestamp == time
          && var reply := ParseList(utf8, got.value.value);
          && reply.Some? && Lists(reply.value, request, items))
  }

  lemma AnswerIsShown(utf8: Str -> bool, query: Str, items: Items, m: Udm)
    requires ParseList(utf8, query).Some? && SoundItems(utf8, items) && Storable(m)
    requires var request := ParseList(utf8, query).value;
             m == Response(m.sourceName, m.lockStat, m.timestamp, Answer(request, items)).(unknown := m.unknown)
    ensures ClientShows(utf8, Encode([], m), ParseList(utf8, query).value, items, m.sourceName, m.lockStat, m.timestamp)
  {
    hide ParseList, SerializeList, Answer, Decode, Encode, SoundItems, Ascending, Lists, Storable, Replies;
    ParsedListIsSound(utf8, query);
    var request := ParseList(utf8, query).value;
    AnswerIsSound(utf8, request, items);
    AnswerListsTheRegistry(request, items);
    ReplyArrives(utf8, m, Answer(request, items));
  }

  /**
   A query at any moment of any run: the client decodes the request's own nodes
   and then, in key order, the requests for a list of type 0, the subscribed
   variables for type 1, and the published variables for any other, whenever that
   list and the responder's name fit; otherwise it decodes nothing.
   */
  lemma {:induction false} QueryShowsTheRegistry(utf8: Str -> bool, steps: seq<Step>, query: Str, source: Str, lock: Int32, time: Uint64)
    requires ValidRun(utf8, INITIAL, steps) && ParseList(utf8, query).Some?
    ensures var s, request := Final(utf8, INITIAL, steps), ParseList(utf8, query).value;
            var items := if request.listType == 0 then s.requests.items
                         else if request.listType == 1 then s.subs.items
                         else s.pubs.items;
            ClientShows(utf8, Encode([], Response(source, lock, time, Answer(request, items))), request, items, source, lock, time)
  {
    hide Inv, AdmissionInv, DeliveryInv, ParseList, SerializeList, Answer, Decode, Encode, SoundItems, ClientShows, ValidRun, Final;
    Reachable(utf8, steps);
    var s, request := Final(utf8, INITIAL, steps), ParseList(utf8, query).value;
    var items := if request.listType == 0 then s.requests.items
                 else if request.listType == 1 then s.subs.items
                 else s.pubs.items;
    AnswerIsShown(utf8, query, items, Response(source, lock, time, Answer(request, items)));
  }

  /**
   From announcement to answer: once the publish thread has registered a topic
   list, every node of it is found, under its topic and name, in the registry that
   queries of the same type are answered from.
   */
  lemma AnnouncedIsListed(utf8: Str -> bool, steps: seq<Step>, m: Udm, n: NodeData)
    requires ValidRun(utf8, INITIAL, steps + [Register])
    requires Final(utf8, INITIAL, steps + [Register]).published != []
    requires m == Last(Final(utf8, INITIAL, steps + [Register]).published)
    requires m.messageType == VALUE_TYPE_TOPICNODE && ParseList(utf8, m.value).Some? && n in ParseList(utf8, m.value).value.nodes
    ensures var s, listType := Final(utf8, INITIAL, steps + [Register]), ParseList(utf8, m.value).value.listType;
            var items := if listType == 0 then s.requests.items else if listType == 1 then s.subs.items else s.pubs.items;
            var key := n.topicName + [ITEM_SPLIT] + n.name;
            && key in items && items[key].topicName + [ITEM_SPLIT] + items[key].name == key
  {
    hide ParseList, ValidRun, Final, Inv, AdmissionInv, RegistriesInv, InsertAll, LogOf, Replay;
    RunSnoc(utf8, INITIAL, steps, Register);
    Reachable(utf8, steps);
    var s := Final(utf8, INITIAL, steps);
    RegisterLeavesDelivery(utf8, s);
    RegisterExtends(utf8, s);
    var kind := KindOf(ParseList(utf8, m.value).value.listType);
    InsertAllHas(RegistryOf(s, kind).items, NodesFor(utf8, m, kind), n);
    RegistriesAreExact(utf8, steps + [Register], kind, n.topicName + [ITEM_SPLIT] + n.name);
  }

  function Last(ms: seq<Udm>): Udm
    requires ms != []
  {
    ms[|ms| - 1]
  }

  /** Whatever a message flushes, as long as no topic holds the separator, is the node of its topic with its name and unit. */
  lemma FlushFinds(m: Udm, n: NodeData)
    requires ITEM_SPLIT !in m.topicName && ITEM_SPLIT !in n.topicName
    ensures FlushKey(m) == KeyOf(n)
            <==> n.topicName == m.topicName && n.name == m.variableName + [ITEM_SPLIT] + m.variableUnit
  {
    KeysIdentify(m.topicName, m.variableName + [ITEM_SPLIT] + m.variableUnit, n.topicName, n.name);
  }

  /** Locks are shared across topics when topic and name run together. */
  lemma LocksCanCollide()
    ensures exists m: Udm, n: Udm :: m.topicName != n.topicName && m.variableName != n.variableName && LockId(m) == LockId(n)
  {
    var m, n := EMPTY.(topicName := [97], variableName := [98, 99]), EMPTY.(topicName := [97, 98], variableName := [99]);
    assert LockId(m) == LockId(n);
    assert |m.topicName| != |n.topicName| && |m.variableName| != |n.variableName|;
  }

  /** Within a topic, or with topics of one length, a lock is that of one variable. */
  lemma LocksIdentify(m: Udm, n: Udm)
    requires |m.topicName| == |n.topicName|
    ensures LockId(m) == LockId(n) <==> m.topicName == n.topicName && m.variableName == n.variableName
  {
    if LockId(m) == LockId(n) {
      assert m.topicName == LockId(m)[..|m.topicName|] && m.variableName == LockId(m)[|m.topicName|..];
      assert n.topicName == LockId(n)[..|n.topicName|] && n.variableName == LockId(n)[|n.topicName|..];
    }
  }

  // --------------------------------------------------------------- the object

  /** The steps of the publish thread. */
  predicate IsOwn(step: Step) {
    step.Pop? || step.Deliver? || step.EndCalls? || step.Register?
  }

  function Own(steps: seq<Step>): seq<Step> {
    if steps == [] then []
    else Own(steps[..|steps| - 1]) + if IsOwn(steps[|steps| - 1]) then [steps[|steps| - 1]] else []
  }

  lemma OwnSnoc(steps: seq<Step>, last: Step)
    ensures Own(steps + [last]) == Own(steps) + if IsOwn(last) then [last] else []
  {
    assert (steps + [last])[..|steps|] == steps;
  }

  lemma FirstOwn()
    ensures Own([Pop]) == [Pop]
  {
    OwnSnoc([], Pop);
    assert [] + [Pop] == [Pop];
  }

  function Delivers(n: nat): seq<Step> {
    seq(n, _ => Deliver)
  }

  /** One cycle: a message is taken, n notifiers are called, the loop over them ends, the nodes are registered. */
  function CycleOf(n: nat): seq<Step> {
    [Pop] + Delivers(n) + [EndCalls] + [Register]
  }

  /** The first k notifiers have been called with the message. */
  function Informed(inbox: seq<seq<Udm>>, m: Udm, k: nat): seq<seq<Udm>> {
    seq(|inbox|, i requires 0 <= i < |inbox| => inbox[i] + if i < k then [m] else [])
  }

  /** One undisturbed cycle: the front of the queue goes to every notifier, then its nodes are registered. */
  function Cycled(utf8: Str -> bool, s: State): State
    requires Enabled(s, Pop)
  {
    var m := s.queue[0];
    var done := s.(queue := s.queue[1..], published := s.published + [m], inbox := Informed(s.inbox, m, |s.inbox|), next := 0);
    match Announcement(utf8, m)
    case None => done
    case Some(list) => Offer(done, list)
  }

  /** In the loop: k notifiers called. */
  function InLoop(s: State, k: nat): State
    requires Enabled(s, Pop)
  {
    var m := s.queue[0];
    s.(queue := s.queue[1..], published := s.published + [m], current := Some(m), next := k, inbox := Informed(s.inbox, m, k))
  }

  lemma InformNone(inbox: seq<seq<Udm>>, m: Udm)
    ensures Informed(inbox, m, 0) == inbox
  {
    assert forall i :: 0 <= i < |inbox| ==> inbox[i] + [] == inbox[i];
  }

  lemma InformOne(inbox: seq<seq<Udm>>, m: Udm, k: nat)
    requires k < |inbox|
    ensures Informed(inbox, m, k)[k := Informed(inbox, m, k)[k] + [m]] == Informed(inbox, m, k + 1)
  {
    assert inbox[k] + [] == inbox[k];
  }

  lemma NextIsInRange(utf8: Str -> bool, s: State)
    requires Inv(utf8, s)
    ensures s.next <= |s.inbox|
  {
  }

  lemma {:induction false} LoopAlone(utf8: Str -> bool, s: State, k: nat)
    requires Enabled(s, Pop) && ValidRun(utf8, s, [Pop] + Delivers(k))
    ensures k <= |s.inbox| && Final(utf8, s, [Pop] + Delivers(k)) == InLoop(s, k)
    decreases k
  {
    if k == 0 {
      assert [Pop] + Delivers(0) == [] + [Pop];
      RunSnoc(utf8, s, [], Pop);
      InformNone(s.inbox, s.queue[0]);
    } else {
      hide ValidRun, Final;
      assert [Pop] + Delivers(k) == [Pop] + Delivers(k - 1) + [Deliver];
      RunSnoc(utf8, s, [Pop] + Delivers(k - 1), Deliver);
      LoopAlone(utf8, s, k - 1);
      InformOne(s.inbox, s.queue[0], k - 1);
    }
  }

  /** A cycle that nothing interrupts calls every notifier once and then registers. */
  lemma CycleAlone(utf8: Str -> bool, s: State, n: nat)
    requires Enabled(s, Pop) && ValidRun(utf8, s, CycleOf(n))
    ensures n == |s.inbox| && Final(utf8, s, CycleOf(n)) == Cycled(utf8, s)
  {
    hide ValidRun, Final, Announcement, Offer;
    RunSnoc(utf8, s, [Pop] + Delivers(n) + [EndCalls], Register);
    RunSnoc(utf8, s, [Pop] + Delivers(n), EndCalls);
    LoopAlone(utf8, s, n);
  }

  /** Exactly the messages that flip an id change the lock map and the locked flags. */
  lemma ReceiveChanges(s: State, m: Udm)
    ensures var n, flips := Receive(s, m), Flips(s, m);
            && n.locks == Switch(s.locks, m) && (n.locks == s.locks <==> !flips)
            && n.requests == FlushIf(flips && Concerns(Requests, m), s.requests, m)
            && n.subs == FlushIf(flips && Concerns(Subscriptions, m), s.subs, m)
            && n.pubs == FlushIf(flips && Concerns(Publications, m), s.pubs, m)
            && n.terminated == s.terminated
            && n.queue == (if m.lockStat == UNLOCK || (m.lockStat == NO_LOCK && LockId(m) in s.locks) || s.terminated
                           then s.queue else s.queue + [m])
  {
    hide FlushIf, LockId, Flush;
    ReceiveFlushes(s, m);
    ReceiveSwitches(s, m);
  }

  lemma ReceiveSwitches(s: State, m: Udm)
    ensures var n := Receive(s, m);
            && n.locks == Switch(s.locks, m) && (n.locks == s.locks <==> !Flips(s, m))
            && n.terminated == s.terminated
            && n.queue == (if m.lockStat == UNLOCK || (m.lockStat == NO_LOCK && LockId(m) in s.locks) || s.terminated
                           then s.queue else s.queue + [m])
  {
    hide Flushed, FlushKey, LockId;
    if Flips(s, m) {
      assert LockId(m) in Receive(s, m).locks <==> LockId(m) !in s.locks;
    }
  }

  class UDMSerBusiness {
    const utf8: Str -> bool
    var lockMsgMap: map<Str, Udm>
    var requestItems: Items
    var variableSubItemMap: Items
    var variablePubItemMap: Items
    var allQueue: seq<Udm>
    var terminated: bool
    var current: Option<Udm>       // the local of the publish thread
    var next: nat                  // its position in the list of notifiers
    var announcing: Option<Udm>    // the same local, behind that loop
    var inbox: seq<seq<Udm>>       // one entry a notifier: what onCommonMessage was called with
    ghost var s: State

    /** The ghost state describes this object, in a state that satisfies the invariant. */
    ghost predicate Valid()
      reads this
    {
      && Inv(utf8, s)
      && s.locks == lockMsgMap && s.queue == allQueue && s.terminated == terminated
      && s.requests.items == requestItems && s.subs.items == variableSubItemMap
      && s.pubs.items == variablePubItemMap
      && s.current == current && s.next == next && s.announcing == announcing && s.inbox == inbox
    }

    constructor (utf8: Str -> bool)
      ensures Valid() && s == INITIAL && this.utf8 == utf8
    {
      this.utf8 := utf8;
      lockMsgMap, requestItems, variableSubItemMap, variablePubItemMap := map[], map[], map[], map[];
      allQueue, terminated, current, next, announcing, inbox, s := [], false, None, 0, None, [], INITIAL;
      InitialInv(utf8);
    }

    method AddNotify()
      requires Valid()
      modifies this
      ensures Valid() && s == After(utf8, old(s), Step.AddNotify)
    {
      hide Inv;
      StepKeepsInv(utf8, s, Step.AddNotify);
      s := After(utf8, s, Step.AddNotify);
      inbox := inbox + [[]];
    }

    method Terminate()
      requires Valid()
      modifies this
      ensures Valid() && s == After(utf8, old(s), Step.Terminate)
    {
      hide Inv;
      StepKeepsInv(utf8, s, Step.Terminate);
      s := After(utf8, s, Step.Terminate);
      terminated := true;
    }

    method FlushItemLockedStatus(m: Udm, locked: bool)
      modifies this`requestItems, this`variableSubItemMap, this`variablePubItemMap
      ensures requestItems == if m.messageType == VALUE_TYPE_REQUEST
                              then SetLocked(old(requestItems), FlushKey(m), locked) else old(requestItems)
      ensures variableSubItemMap == if m.messageType == VALUE_TYPE_REQUEST
                                    then old(variableSubItemMap)
                                    else SetLocked(old(variableSubItemMap), FlushKey(m), locked)
      ensures variablePubItemMap == if m.messageType == VALUE_TYPE_REQUEST
                                    then old(variablePubItemMap)
                                    else SetLocked(old(variablePubItemMap), FlushKey(m), locked)
    {
      var key := ItemKey(m.topicName, m.variableName + [ITEM_SPLIT] + m.variableUnit);
      if m.messageType == VALUE_TYPE_REQUEST {
        if key in requestItems {
          requestItems := requestItems[key := requestItems[key].(locked := locked)];
        }
      } else {
        if key in variableSubItemMap {
          variableSubItemMap := variableSubItemMap[key := variableSubItemMap[key].(locked := locked)];
        }
        if key in variablePubItemMap {
          variablePubItemMap := variablePubItemMap[key := variablePubItemMap[key].(locked := locked)];
        }
      }
    }

    method OnRecv(m: Udm) returns (ok: bool)
      requires Valid()
      modifies this
      ensures Valid() && s == After(utf8, old(s), Recv(m))
      ensures ok == (m.lockStat == UNLOCK || (Passes(old(s).hist, m) && !terminated))
    {
      hide Inv, SetLocked, FlushKey, StillLocked, Receive, Admitted, Locks, Unlocks;
      NoLockWithoutCause(utf8, s, m);
      ReceiveChanges(Noted(s, m), m);
      ReceiveLeavesDelivery(Noted(s, m), m);
      StepKeepsInv(utf8, s, Recv(m));
      s := After(utf8, s, Recv(m));
      var id := m.topicName + m.variableName;
      if m.lockStat == NO_LOCK {
        if id in lockMsgMap {
          return false;
        }
      } else if m.lockStat == UNLOCK {
        if id in lockMsgMap {
          FlushItemLockedStatus(m, false);
          lockMsgMap := lockMsgMap - {id};
        }
        return true;
      } else if m.lockStat == LOCK {
        if id !in lockMsgMap {
          FlushItemLockedStatus(m, true);
          lockMsgMap := lockMsgMap[id := m];
        }
      }
      ok := Enqueue(m);
    }

    /** m_allQueue.push */
    method Enqueue(m: Udm) returns (ok: bool)
      modifies this`allQueue
      ensures ok == !terminated && allQueue == old(allQueue) + if ok then [m] else []
    {
      if terminated {
        return false;
      }
      allQueue := allQueue + [m];
      ok := true;
    }

    /** m_allQueue.pop, with an item ready. */
    method TakeMessage()
      requires Valid() && Enabled(s, Pop)
      modifies this
      ensures Valid() && s == After(utf8, old(s), Pop)
    {
      hide Inv;
      StepKeepsInv(utf8, s, Pop);
      s := After(utf8, s, Pop);
      current, next, allQueue := Some(allQueue[0]), 0, allQueue[1..];
    }

    /** One call of onCommonMessage. */
    method CallNotifier()
      requires Valid() && Enabled(s, Deliver)
      modifies this
      ensures Valid() && s == After(utf8, old(s), Deliver)
    {
      hide Inv;
      StepKeepsInv(utf8, s, Deliver);
      s := After(utf8, s, Deliver);
      inbox := inbox[next := inbox[next] + [current.value]];
      next := next + 1;
    }

    /** The nodes of a parsed list go into a registry unless their key is taken. */
    static method InsertNodes(list: TopicList, items: Items) returns (nodeMap: Items)
      ensures nodeMap == InsertAll(items, list.Value().nodes)
    {
      hide KeyOf;
      nodeMap := items;
      ghost var values := NodeValues(list.nodes);
      assert values[..0] == [];
      for i := 0 to |list.nodes|
        invariant nodeMap == InsertAll(items, values[..i])
      {
        var node := list.nodes[i].impl;
        assert values[..i + 1][..i] == values[..i] && values[..i + 1][i] == node;
        var key := KeyOf(node);
        if key !in nodeMap {
          nodeMap := nodeMap[key := node];
        }
      }
      assert values[..|list.nodes|] == values;
    }

    /** The end of the cycle: the nodes of an announcement are registered. */
    method RegisterNodes(m: Udm)
      modifies this`requestItems, this`variableSubItemMap, this`variablePubItemMap
      ensures var a, kind := Announcement(utf8, m), (l: ListData) => KindOf(l.listType);
              && requestItems == (if a.Some? && kind(a.value) == Requests
                                  then InsertAll(old(requestItems), a.value.nodes) else old(requestItems))
              && variableSubItemMap == (if a.Some? && kind(a.value) == Subscriptions
                                        then InsertAll(old(variableSubItemMap), a.value.nodes)
                                        else old(variableSubItemMap))
              && variablePubItemMap == (if a.Some? && kind(a.value) == Publications
                                        then InsertAll(old(variablePubItemMap), a.value.nodes)
                                        else old(variablePubItemMap))
    {
      hide ParseList, InsertAll, NodeValues;
      if m.messageType == VALUE_TYPE_TOPICNODE {
        var list := new TopicList();
        var good := list.ParseFromArray(utf8, m.value);
        if good {
          if list.listType == 0 {
            requestItems := InsertNodes(list, requestItems);
          } else if list.listType == 1 {
            variableSubItemMap := InsertNodes(list, variableSubItemMap);
          } else {
            variablePubItemMap := InsertNodes(list, variablePubItemMap);
          }
        }
      }
    }

    /** The loop over the notifiers has reached the end of the list. */
    method LeaveLoop()
      requires Valid() && Enabled(s, EndCalls)
      modifies this
      ensures Valid() && s == After(utf8, old(s), EndCalls)
    {
      hide Inv;
      StepKeepsInv(utf8, s, EndCalls);
      s := After(utf8, s, EndCalls);
      announcing, current, next := current, None, 0;
    }

    method FinishMessage()
      requires Valid() && Enabled(s, Register)
      modifies this
      ensures Valid() && s == After(utf8, old(s), Register)
    {
      hide Inv, Announcement, InsertAll, Offerings;
      StepKeepsInv(utf8, s, Register);
      s := After(utf8, s, Register);
      RegisterNodes(announcing.value);
      announcing := None;
    }

    /** What another thread does: a message, a new notifier, or the end. */
    method PerformOther(step: Step)
      requires Valid() && !IsOwn(step)
      modifies this
      ensures Valid() && s == After(utf8, old(s), step)
      ensures s.current == old(s).current && s.next == old(s).next && s.announcing == old(s).announcing
    {
      hide Inv, Receive;
      if step.Recv? {
        ReceiveLeavesDelivery(Noted(s, step.m), step.m);
        var ok := OnRecv(step.m);
      } else if step.AddNotify? {
        AddNotify();
      } else {
        Terminate();
      }
    }

    /** What other threads do between two pieces of the cycle; `run` is what has happened since `was`. */
    method PerformOthers(todo: seq<Step>, ghost was: State, ghost before: seq<Step>) returns (ghost run: seq<Step>)
      requires Valid() && (forall i :: 0 <= i < |todo| ==> !IsOwn(todo[i]))
      requires ValidRun(utf8, was, before) && s == Final(utf8, was, before)
      modifies this
      ensures Valid() && ValidRun(utf8, was, run) && s == Final(utf8, was, run)
      ensures run == before + todo && Own(run) == Own(before)
      ensures s.current == old(s).current && s.next == old(s).next && s.announcing == old(s).announcing
    {
      hide Inv, After, ValidRun, Final;
      run := before;
      assert before + todo[..0] == before;
      for i := 0 to |todo|
        invariant Valid() && ValidRun(utf8, was, run) && s == Final(utf8, was, run)
        invariant run == before + todo[..i] && Own(run) == Own(before)
        invariant s.current == old(s).current && s.next == old(s).next && s.announcing == old(s).announcing
      {
        RunSnoc(utf8, was, run, todo[i]);
        OwnSnoc(run, todo[i]);
        assert todo[..i + 1] == todo[..i] + [todo[i]];
        PerformOther(todo[i]);
        run := run + [todo[i]];
      }
      assert todo[..|todo|] == todo;
    }

    /**
     One cycle of the publish thread, as the run it is: after each of its steps
     the other threads take those of the next entry of the script.
     */
    method PublishThreadCycle(script: seq<seq<Step>>) returns (ghost run: seq<Step>)
      requires Valid() && current == None && announcing == None
      requires forall i, j :: 0 <= i < |script| && 0 <= j < |script[i]| ==> !IsOwn(script[i][j])
      modifies this
      ensures Valid() && ValidRun(utf8, old(s), run) && s == Final(utf8, old(s), run)
      ensures current == None && announcing == None
      ensures if old(Enabled(s, Pop)) then exists n :: Own(run) == CycleOf(n) && (script == [] ==> run == CycleOf(n))
              else run == []
    {
      hide Inv, ValidRun, Final, Own, Receive, Announcement, Offer;
      run := [];
      NoSteps(utf8, s);
      if terminated || allQueue == [] {
        return;
      }
      ghost var was, n := s, 0;
      var i := 0;
      RunSnoc(utf8, was, run, Pop);
      assert run + [Pop] == [Pop];
      FirstOwn();
      TakeMessage();
      run := [Pop];
      assert run == [Pop] + Delivers(0);
      if i < |script| {
        run := PerformOthers(script[i], was, run);
        i := i + 1;
      }
      NextIsInRange(utf8, s);
      while next < |inbox|
        invariant Valid() && ValidRun(utf8, was, run) && s == Final(utf8, was, run)
        invariant current.Some? && announcing == None && i <= |script| && next <= |inbox|
        invariant Own(run) == [Pop] + Delivers(n) && (script == [] ==> run == Own(run))
        decreases |script| - i, |inbox| - next
      {
        RunSnoc(utf8, was, run, Deliver);
        OwnSnoc(run, Deliver);
        assert Delivers(n) + [Deliver] == Delivers(n + 1);
        CallNotifier();
        run, n := run + [Deliver], n + 1;
        if i < |script| {
          run := PerformOthers(script[i], was, run);
          i := i + 1;
        }
        NextIsInRange(utf8, s);
      }
      RunSnoc(utf8, was, run, EndCalls);
      OwnSnoc(run, EndCalls);
      LeaveLoop();
      run := run + [EndCalls];
      if i < |script| {
        run := PerformOthers(script[i], was, run);
        i := i + 1;
      }
      RunSnoc(utf8, was, run, Register);
      OwnSnoc(run, Register);
      RegisterLeavesDelivery(utf8, s);
      FinishMessage();
      run := run + [Register];
      assert Own(run) == CycleOf(n);
    }

    static method NewNode(value: NodeData) returns (tNode: Node)
      ensures fresh(tNode) && tNode.impl == Copy(value)
    {
      tNode := new Node();
      tNode.impl := tNode.impl.(name := value.name);
      tNode.impl := tNode.impl.(topicName := value.topicName);
      tNode.impl := tNode.impl.(nodeType := value.nodeType);
      tNode.impl := tNode.impl.(locked := value.locked);
    }

    /** One new node for every key, behind the nodes already there. */
    static method AppendCopies(list: TopicList, items: Items, keys: seq<Str>)
      requires forall k :: k in keys ==> k in items
      modifies list`nodes
      ensures |list.nodes| == |old(list.nodes)| + |keys| && list.nodes[..|old(list.nodes)|] == old(list.nodes)
      ensures forall n :: n in list.nodes ==> n in old(list.nodes) || fresh(n)
      ensures forall j :: 0 <= j < |keys| ==> keys[j] in items
      ensures forall j :: 0 <= j < |keys| ==> list.nodes[|old(list.nodes)| + j].impl == Copy(items[keys[j]])
    {
      hide Copy;
      ghost var asked := list.nodes;
      for i := 0 to |keys|
        invariant |list.nodes| == |asked| + i && list.nodes[..|asked|] == asked
        invariant forall n :: n in list.nodes ==> n in asked || fresh(n)
        invariant forall j :: 0 <= j < i ==> keys[j] in items && list.nodes[|asked| + j].impl == Copy(items[keys[j]])
      {
        assert keys[i] in keys;
        var tNode := NewNode(items[keys[i]]);
        list.nodes := list.nodes + [tNode];
      }
    }

    /** One new node for every registered item, in the order of the map. */
    static method AddNodes(list: TopicList, items: Items)
      modifies list`nodes
      ensures list.Value() == Answer(old(list.Value()), items)
      ensures forall n :: n in list.nodes ==> n in old(list.nodes) || fresh(n)
    {
      hide Ascending, NodeValues, Copy, Copies;
      var keys := Ascending(items.Keys);
      ghost var was := NodeValues(list.nodes);
      AppendCopies(list, items, keys);
      ghost var now := NodeValues(list.nodes);
      assert now[..|was|] == was;
      assert now[|was|..] == Copies(items, keys);
      assert now == was + Copies(items, keys);
    }

    /** The single-response query; false also stands for the exception of the encoder. */
    method OnRequestAllItems(request: UdmMessage, response: UdmMessage) returns (ok: bool)
      requires Valid() && request.Valid() && response.Valid()
      requires var query := ParseList(utf8, request.value.Contents());
               query.Some? ==>
                 var reply := Answer(query.value, Chosen(query.value.listType));
                 && NodesAreInts(reply)
                 && response.Addressable([], Response(response.sourceName, response.lock, response.timestamp, reply)
                                             .(unknown := response.message.impl.unknown))
      modifies response.message, response.serializeBytes, response.serializeBytes.bytes
      ensures Valid() && response.Valid()
      ensures ok <==> old(ParseList(utf8, request.value.Contents())).Some? && |Serialize(response.message.impl)| < TWO_31
      ensures var query := old(ParseList(utf8, request.value.Contents()));
              ok && old(Storable(response.message.impl)) ==>
                var items := if query.value.listType == 0 then s.requests.items
                             else if query.value.listType == 1 then s.subs.items
                             else s.pubs.items;
                ClientShows(utf8, response.serializeBytes.Contents(), query.value, items,
                            response.sourceName, response.lock, response.timestamp)
    {
      hide ParseList, SerializeList, SerializeNode, Serialize, Answer, Encode, Decode, NodeValues, Inv, SoundItems, ClientShows;
      var list := new TopicList();
      var data := if request.value.bytes == null then [] else request.value.bytes[..request.value.size];
      var good := list.ParseFromArray(utf8, data);
      if !good {
        return false;
      }
      var items := Chosen(list.listType);
      AddNodes(list, items);
      ShortNodes(list);
      ok := Respond(list, response);
      if ok && Storable(response.message.impl) {
        RegistriesAreSound(utf8, s);
        AnswerIsShown(utf8, data, items, response.message.impl);
      }
    }

    function Chosen(listType: Int32): Items
      reads this
    {
      if listType == 0 then requestItems else if listType == 1 then variableSubItemMap else variablePubItemMap
    }

    /** Size, buffer, bytes, frame; a list beyond INT_MAX leaves zeros in the buffer, and then the frame is refused. */
    static method Respond(list: TopicList, response: UdmMessage) returns (ok: bool)
      requires response.Valid() && list.IntSizes()
      requires response.Addressable([], Response(response.sourceName, response.lock, response.timestamp, list.Value())
                                        .(unknown := response.message.impl.unknown))
      modifies list`cachedSize, (set n | n in list.nodes)`cachedSize
      modifies response.message, response.serializeBytes, response.serializeBytes.bytes
      ensures response.Valid()
      ensures var m := Response(response.sourceName, response.lock, response.timestamp, old(list.Value()))
                       .(unknown := old(response.message.impl.unknown));
              && ok == (|Serialize(m)| < TWO_31)
              && (ok ==> response.message.impl == m && response.serializeBytes.Contents() == Encode([], m))
              && |Serialize(response.message.impl)| == |Serialize(m)|
    {
      hide SerializeList, SerializeNode, Serialize, Encode, NodeValues, Decode, ShortStrings;
      ghost var value := list.Value();
      var payload := SerializedBuffer(list);
      ghost var m := Response(response.sourceName, response.lock, response.timestamp, value)
                     .(unknown := response.message.impl.unknown);
      SizeOfValue(m, m.(value := payload));
      SameShape(m, payload);
      ok := response.SerializeAs(VALUE_TYPE_TOPICNODE, payload, [], [], []);
    }

    /** What the buffer of the computed size holds after SerializeToArray, whose result is ignored. */
    static method SerializedBuffer(list: TopicList) returns (payload: Str)
      requires list.IntSizes()
      modifies list`cachedSize, (set n | n in list.nodes)`cachedSize
      ensures |payload| == |SerializeList(old(list.Value()))|
      ensures |payload| < TWO_31 ==> payload == SerializeList(old(list.Value()))
    {
      hide SerializeList, SerializeNode, NodeValues;
      ghost var value := list.Value();
      var size := list.ByteSizeLong();
      assert list.Value() == value;
      var listArray := new ByteArray.Sized(size);
      var good, bytes := list.SerializeToArray(size);
      assert list.Value() == value;
      if good {
        listArray.Memcpy(0, bytes);
      }
      payload := if listArray.bytes == null then [] else listArray.bytes[..listArray.size];
    }
  }

  lemma RegistriesAreSound(utf8: Str -> bool, s: State)
    requires Inv(utf8, s)
    ensures SoundItems(utf8, s.requests.items) && SoundItems(utf8, s.subs.items) && SoundItems(utf8, s.pubs.items)
  {
    hide SoundItems, Replay;
  }

  /** Nested sizes are passed on as int. */
  predicate NodesAreInts(list: ListData) {
    forall n :: n in list.nodes ==> |SerializeNode(n)| < TWO_31
  }

  lemma ShortNodes(list: TopicList)
    requires NodesAreInts(list.Value())
    ensures list.IntSizes()
  {
    hide SerializeNode;
    forall n | n in list.nodes
      ensures |SerializeNode(n.impl)| < TWO_31
    {
      var i :| 0 <= i < |list.nodes| && list.nodes[i] == n;
      assert list.Value().nodes[i] == n.impl;
    }
  }

  lemma SameShape(m: Udm, payload: Str)
    requires ShortStrings(m) && |payload| == |m.value|
    ensures ShortStrings(m.(value := payload))
  {
  }

  /** Whether a message passes is what the history says, and the map knows it. */
  lemma NoLockWithoutCause(utf8: Str -> bool, s: State, m: Udm)
    requires Inv(utf8, s)
    ensures LockId(m) in s.locks <==> StillLocked(s.hist, LockId(m))
  {
    LocksAreExact(s.hist, LockId(m));
  }
}
