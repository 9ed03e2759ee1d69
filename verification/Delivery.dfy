/**
 The bus with its UDP notifier attached: what reaches the network, and whom,
 over every interleaving of bus steps and subscriptions.
 */
module Delivery {
  import opened Common
  import opened UdmMessagePb
  import Bus
  import opened Fanout
  import Datagrams

  /** One call of onCommonMessage: the message, and the datagram sent to these endpoints in this order. */
  datatype Sending = Sending(m: Udm, data: Str, to: seq<Endpoint>)

  datatype State = State(bus: Bus.State, table: Table, sent: seq<Sending>)

  const INITIAL := State(Bus.INITIAL, map[], [])

  /** HandOver is the bus calling the UDP notifier, which visits its table in some order. */
  datatype Step = OnBus(step: Bus.Step) | HandOver(order: seq<Str>) | Subscribes(s: Subscription)

  /** The UDP notifier is the one at position `udp` of the bus's list. */
  predicate IsNext(udp: nat, s: Bus.State) {
    Bus.Enabled(s, Bus.Deliver) && s.next == udp
  }

  ghost predicate Enabled(udp: nat, s: State, step: Step) {
    match step
    case OnBus(b) => Bus.Enabled(s.bus, b) && !(b.Deliver? && IsNext(udp, s.bus))
    case HandOver(order) => IsNext(udp, s.bus) && Visits(order, s.table.Keys)
    case Subscribes(_) => true
  }

  ghost function After(utf8: Str -> bool, udp: nat, s: State, step: Step): State
    requires Enabled(udp, s, step)
  {
    match step
    case OnBus(b) => s.(bus := Bus.After(utf8, s.bus, b))
    case HandOver(order) =>
      var m := s.bus.current.value;
      State(Bus.After(utf8, s.bus, Bus.Deliver), s.table, s.sent + [Sending(m, DatagramOf(m), Recipients(s.table, order, m.topicName))])
    case Subscribes(sub) => s.(table := Subscribe(s.table, sub))
  }

  /** Some order always exists, so the notifier can be called whenever the bus is at it. */
  lemma {:induction false} HandOverIsPossible(udp: nat, s: State)
    requires IsNext(udp, s.bus)
    ensures exists order :: Enabled(udp, s, HandOver(order))
  {
    var order := SomeVisit(s.table.Keys);
    assert Enabled(udp, s, HandOver(order));
  }

  lemma {:induction false} SomeVisit(keys: set<Str>) returns (order: seq<Str>)
    ensures Visits(order, keys)
  {
    if keys == {} {
      order := [];
    } else {
      var k :| k in keys;
      var rest := SomeVisit(keys - {k});
      order := rest + [k];
    }
  }

  ghost predicate ValidRun(utf8: Str -> bool, udp: nat, steps: seq<Step>)
    decreases |steps|, 0
  {
    steps == []
    || (ValidRun(utf8, udp, steps[..|steps| - 1])
        && Enabled(udp, Final(utf8, udp, steps[..|steps| - 1]), steps[|steps| - 1]))
  }

  ghost function Final(utf8: Str -> bool, udp: nat, steps: seq<Step>): State
    requires ValidRun(utf8, udp, steps)
    decreases |steps|, 1
  {
    if steps == [] then INITIAL
    else After(utf8, udp, Final(utf8, udp, steps[..|steps| - 1]), steps[|steps| - 1])
  }

  // ------------------------------------------------------ read off the steps

  function HandOvers(steps: seq<Step>): nat {
    if steps == [] then 0
    else HandOvers(steps[..|steps| - 1]) + if steps[|steps| - 1].HandOver? then 1 else 0
  }

  function Subs(steps: seq<Step>): seq<Subscription> {
    if steps == [] then []
    else
      var last := steps[|steps| - 1];
      Subs(steps[..|steps| - 1]) + if last.Subscribes? then [last.s] else []
  }

  /** Before step j the endpoint subscribed to the topic. */
  ghost predicate SubscribedBefore(steps: seq<Step>, j: int, e: Endpoint, topic: Str)
    requires j <= |steps|
  {
    exists i :: 0 <= i < j && steps[i] == Subscribes(Subscription(e, topic))
  }

  lemma SubscribedSnoc(steps: seq<Step>, last: Step, e: Endpoint, topic: Str)
    ensures SubscribedBefore(steps + [last], |steps| + 1, e, topic)
            <==> SubscribedBefore(steps, |steps|, e, topic) || last == Subscribes(Subscription(e, topic))
  {
    var all := steps + [last];
    assert all[|steps|] == last && forall i :: 0 <= i < |steps| ==> all[i] == steps[i];
  }

  /** What the bus does in the run. */
  function BusSteps(steps: seq<Step>): seq<Bus.Step> {
    if steps == [] then []
    else BusSteps(steps[..|steps| - 1]) + BusStep(steps[|steps| - 1])
  }

  function BusStep(step: Step): seq<Bus.Step> {
    match step
    case OnBus(b) => [b]
    case HandOver(_) => [Bus.Deliver]
    case Subscribes(_) => []
  }

  lemma {:induction false} BusRuns(utf8: Str -> bool, udp: nat, steps: seq<Step>)
    requires ValidRun(utf8, udp, steps)
    ensures Bus.ValidRun(utf8, Bus.INITIAL, BusSteps(steps))
    ensures Bus.Final(utf8, Bus.INITIAL, BusSteps(steps)) == Final(utf8, udp, steps).bus
    decreases |steps|
  {
    hide Bus.After, Bus.ValidRun, Bus.Final, Recipients, Subscribe;
    if steps == [] {
      Bus.NoSteps(utf8, Bus.INITIAL);
    } else {
      var before, last := steps[..|steps| - 1], steps[|steps| - 1];
      BusRuns(utf8, udp, before);
      if last.Subscribes? {
        assert BusSteps(before) + [] == BusSteps(before);
      } else {
        Bus.RunSnoc(utf8, Bus.INITIAL, BusSteps(before), BusStep(last)[0]);
      }
    }
  }

  lemma {:induction false} SubsAreSubscribed(steps: seq<Step>, e: Endpoint, topic: Str)
    ensures Subscription(e, topic) in Subs(steps) <==> SubscribedBefore(steps, |steps|, e, topic)
    decreases |steps|
  {
    hide SubscribedBefore;
    if steps != [] {
      var before, last := steps[..|steps| - 1], steps[|steps| - 1];
      SubsAreSubscribed(before, e, topic);
      SubscribedSnoc(before, last, e, topic);
      assert before + [last] == steps;
    } else {
      NobodyAtFirst(e, topic);
    }
  }

  lemma NobodyAtFirst(e: Endpoint, topic: Str)
    ensures !SubscribedBefore([], 0, e, topic)
  {
  }

  // ------------------------------------------------------------ the invariant

  /** The calls the bus has made to the UDP notifier. */
  function Calls(udp: nat, s: Bus.State): seq<Udm> {
    if udp < |s.inbox| then s.inbox[udp] else []
  }

  /** The messages went out in order, each as its datagram. */
  predicate Sent(sent: seq<Sending>, ms: seq<Udm>) {
    |sent| == |ms| && forall i :: 0 <= i < |ms| ==> sent[i].m == ms[i] && sent[i].data == DatagramOf(ms[i])
  }

  /** Every call of the bus went out, and the table is that of the subscriptions taken. */
  ghost predicate Inv(utf8: Str -> bool, udp: nat, s: State, steps: seq<Step>) {
    && Bus.Inv(utf8, s.bus)
    && Sent(s.sent, Calls(udp, s.bus))
    && |s.sent| == HandOvers(steps)
    && s.table == TableOf(Subs(steps))
  }

  lemma BusStepKeepsCalls(utf8: Str -> bool, udp: nat, s: Bus.State, b: Bus.Step)
    requires Bus.Inv(utf8, s) && Bus.Enabled(s, b)
    ensures Calls(udp, Bus.After(utf8, s, b))
            == Calls(udp, s) + (if b.Deliver? && IsNext(udp, s) then [s.current.value] else [])
  {
    hide Bus.Inv, Bus.Receive, Bus.Announcement, Bus.Offer;
    match b
    case Recv(m) => Bus.ReceiveLeavesDelivery(Bus.Noted(s, m), m);
    case Register => Bus.RegisterLeavesDelivery(utf8, s);
    case _ =>
  }

  lemma SentSnoc(sent: seq<Sending>, ms: seq<Udm>, m: Udm, to: seq<Endpoint>)
    requires Sent(sent, ms)
    ensures Sent(sent + [Sending(m, DatagramOf(m), to)], ms + [m])
  {
    hide DatagramOf;
  }

  /** What the steps of a run say grows with it. */
  lemma StepsSnoc(steps: seq<Step>, step: Step)
    ensures HandOvers(steps + [step]) == HandOvers(steps) + if step.HandOver? then 1 else 0
    ensures Subs(steps + [step]) == Subs(steps) + if step.Subscribes? then [step.s] else []
  {
    assert (steps + [step])[..|steps|] == steps;
  }

  lemma TableSnoc(subs: seq<Subscription>, sub: Subscription)
    ensures TableOf(subs + [sub]) == Subscribe(TableOf(subs), sub)
  {
    assert (subs + [sub])[..|subs|] == subs;
  }

  lemma StepKeepsInv(utf8: Str -> bool, udp: nat, s: State, steps: seq<Step>, step: Step)
    requires Inv(utf8, udp, s, steps) && Enabled(udp, s, step)
    ensures Inv(utf8, udp, After(utf8, udp, s, step), steps + [step])
  {
    hide Bus.Inv, Bus.After, DatagramOf, Recipients, Subscribe, Sent, HandOvers, Subs, TableOf, Calls;
    StepsSnoc(steps, step);
    assert Subs(steps) + [] == Subs(steps) && Calls(udp, s.bus) + [] == Calls(udp, s.bus);
    match step
    case OnBus(b) =>
      Bus.StepKeepsInv(utf8, s.bus, b);
      BusStepKeepsCalls(utf8, udp, s.bus, b);
    case HandOver(order) =>
      Bus.StepKeepsInv(utf8, s.bus, Bus.Deliver);
      BusStepKeepsCalls(utf8, udp, s.bus, Bus.Deliver);
      var m := s.bus.current.value;
      SentSnoc(s.sent, Calls(udp, s.bus), m, Recipients(s.table, order, m.topicName));
    case Subscribes(sub) =>
      TableSnoc(Subs(steps), sub);
  }

  lemma InitialInv(utf8: Str -> bool, udp: nat)
    ensures Inv(utf8, udp, INITIAL, [])
  {
    Bus.InitialInv(utf8);
  }

  lemma {:induction false} RunKeepsInv(utf8: Str -> bool, udp: nat, steps: seq<Step>)
    requires ValidRun(utf8, udp, steps)
    ensures Inv(utf8, udp, Final(utf8, udp, steps), steps)
    decreases |steps|
  {
    hide Enabled, After, Inv;
    if steps == [] {
      InitialInv(utf8, udp);
    } else {
      var before, last := steps[..|steps| - 1], steps[|steps| - 1];
      RunKeepsInv(utf8, udp, before);
      StepKeepsInv(utf8, udp, Final(utf8, udp, before), before, last);
      assert before + [last] == steps;
    }
  }

  /** A run up to step j is a run, and what it had sent stays sent. */
  lemma {:induction false} SentStays(utf8: Str -> bool, udp: nat, steps: seq<Step>, j: nat)
    requires ValidRun(utf8, udp, steps) && j <= |steps|
    ensures ValidRun(utf8, udp, steps[..j])
    ensures Final(utf8, udp, steps[..j]).sent <= Final(utf8, udp, steps).sent
    decreases |steps|
  {
    hide Bus.After, Recipients, Visits, Subscribe;
    if j < |steps| {
      var before := steps[..|steps| - 1];
      SentStays(utf8, udp, before, j);
      assert before[..j] == steps[..j];
    } else {
      assert steps[..j] == steps;
    }
  }

  /** The k-th message sent is the k-th admitted one from where the notifier joined. */
  lemma SentIsAdmitted(utf8: Str -> bool, udp: nat, steps: seq<Step>, k: nat)
    requires ValidRun(utf8, udp, steps) && k < HandOvers(steps)
    ensures var s := Final(utf8, udp, steps);
            var admitted, joined := Bus.Admitted(Bus.ReceivedOpen(BusSteps(steps))), Bus.Joined(BusSteps(steps));
            && k < |s.sent| && udp < |joined| && joined[udp] + k < |admitted|
            && s.sent[k].m == admitted[joined[udp] + k] && s.sent[k].data == DatagramOf(s.sent[k].m)
  {
    hide Bus.Inv, Bus.Admitted, Bus.ValidRun, Bus.Final, Bus.Joined, Datagrams.Encode, ValidRun, Final, HandOvers, TableOf, Subs;
    RunKeepsInv(utf8, udp, steps);
    BusRuns(utf8, udp, steps);
    var s := Final(utf8, udp, steps);
    assert s.sent[k].m == s.bus.inbox[udp][k];
    Bus.NotifiersSeeThePublications(utf8, BusSteps(steps), udp);
  }

  /** A run that ends with a hand-over ends with a sending to those subscribed by then. */
  lemma LastSends(utf8: Str -> bool, udp: nat, steps: seq<Step>, last: Step, e: Endpoint)
    requires ValidRun(utf8, udp, steps + [last]) && last.HandOver?
    ensures var k, sent := HandOvers(steps), Final(utf8, udp, steps + [last]).sent;
            && |sent| == k + 1
            && multiset(sent[k].to)[e] == if SubscribedBefore(steps, |steps|, e, sent[k].m.topicName) then 1 else 0
  {
    hide Bus.After, Bus.Inv, Datagrams.Encode, Recipients, Visits, TableMeans, SubscribedBefore, TableOf;
    assert (steps + [last])[..|steps|] == steps;
    var s := Final(utf8, udp, steps);
    RunKeepsInv(utf8, udp, steps);
    TableIsExact(Subs(steps));
    RecipientsAreSubscribers(s.table, Subs(steps), last.order, s.bus.current.value.topicName, e);
    SubsAreSubscribed(steps, e, s.bus.current.value.topicName);
  }

  lemma SubscribedInPrefix(steps: seq<Step>, j: nat, e: Endpoint, topic: Str)
    requires j <= |steps|
    ensures SubscribedBefore(steps[..j], j, e, topic) <==> SubscribedBefore(steps, j, e, topic)
  {
    assert forall i :: 0 <= i < j ==> steps[..j][i] == steps[i];
  }

  /**
   Over every run: step j, the k-th time the bus calls the notifier, sends the
   datagram of the k-th admitted message since the notifier joined, once to every endpoint that
   subscribed to its topic at some step before j and never to another; and
   nothing is sent but by those steps.
   */
  lemma SubscribersGetThePublications(utf8: Str -> bool, udp: nat, steps: seq<Step>, j: nat, e: Endpoint)
    requires ValidRun(utf8, udp, steps) && j < |steps| && steps[j].HandOver?
    ensures var s, k := Final(utf8, udp, steps), HandOvers(steps[..j]);
            && |s.sent| == HandOvers(steps) && k < |s.sent|
            && var admitted, joined := Bus.Admitted(Bus.ReceivedOpen(BusSteps(steps))), Bus.Joined(BusSteps(steps));
            && udp < |joined| && joined[udp] + k < |admitted|
            && var m := admitted[joined[udp] + k];
            && s.sent[k].m == m && s.sent[k].data == DatagramOf(m)
            && multiset(s.sent[k].to)[e] == if SubscribedBefore(steps, j, e, m.topicName) then 1 else 0
  {
    hide Bus.Admitted, Bus.Joined, ValidRun, Final, Inv, SubscribedBefore, HandOvers, BusSteps;
    var s, k := Final(utf8, udp, steps), HandOvers(steps[..j]);
    assert steps[..j + 1] == steps[..j] + [steps[j]];
    SentStays(utf8, udp, steps, j + 1);
    LastSends(utf8, udp, steps[..j], steps[j], e);
    SentCount(utf8, udp, steps);
    SentIsAdmitted(utf8, udp, steps, k);
    SubscribedInPrefix(steps, j, e, s.sent[k].m.topicName);
  }

  lemma SentCount(utf8: Str -> bool, udp: nat, steps: seq<Step>)
    requires ValidRun(utf8, udp, steps)
    ensures |Final(utf8, udp, steps).sent| == HandOvers(steps)
  {
    hide ValidRun, Final, HandOvers, Bus.Inv, TableOf, Subs;
    RunKeepsInv(utf8, udp, steps);
  }
}
