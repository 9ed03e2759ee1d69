/**
 RequestQueueIntf (RequestQueueIntf.cpp): queues by topic and name, handlers by
 request name, and the drain that dispatches. A drain moves the queue out first,
 so pushes, registrations, clears and further drains, also from inside a
 handler, may come between its dispatches.
 */
module Requests {
  import opened Common
  import opened Keys

  type Handler = nat     // a member function pointer

  datatype Request = Request(name: Str, body: Str)

  /** "defaultQueue" */
  const DEFAULT: Str := [100, 101, 102, 97, 117, 108, 116, 81, 117, 101, 117, 101]

  /** A request in a queue; the ticket is the position of its push in the history. */
  datatype Item = Item(ticket: nat, request: Request)

  /** One event for every step taken. */
  datatype Event =
    | Registered(name: Str, handler: Handler)
    | Pushed(request: Request)
    | Began
    | Dispatched(drain: nat, item: Item, handler: Handler)
    | Discarded(drain: nat, item: Item)
    | Cleared(items: seq<Item>)

  datatype Queue = Queue(
    queue: seq<Item>,
    handlers: map<Str, Handler>,
    drains: seq<seq<Item>>,     // the local newQueue of every drain ever begun
    log: seq<Event>)            // history

  const EMPTY := Queue([], map[], [], [])

  datatype Step = Register(name: Str, handler: Handler) | Push(request: Request) | Begin | Dispatch(drain: nat) | Clear

  predicate Enabled(q: Queue, step: Step) {
    step.Dispatch? ==> step.drain < |q.drains| && q.drains[step.drain] != []
  }

  function EventOf(q: Queue, step: Step): Event
    requires Enabled(q, step)
  {
    match step
    case Register(name, h) => Registered(name, h)
    case Push(r) => Pushed(r)
    case Begin => Began
    case Dispatch(d) =>
      var item := q.drains[d][0];
      if item.request.name in q.handlers then Dispatched(d, item, q.handlers[item.request.name]) else Discarded(d, item)
    case Clear => Cleared(q.queue)
  }

  function After(q: Queue, step: Step): Queue
    requires Enabled(q, step)
  {
    var n := q.(log := q.log + [EventOf(q, step)]);
    match step
    case Register(name, h) => n.(handlers := if name in q.handlers then q.handlers else q.handlers[name := h])
    case Push(r) => n.(queue := q.queue + [Item(|q.log|, r)])
    case Begin => n.(drains := q.drains + [q.queue], queue := [])
    case Dispatch(d) => n.(drains := q.drains[d := q.drains[d][1..]])
    case Clear => n.(queue := [])
  }

  ghost predicate ValidRun(steps: seq<Step>)
    decreases |steps|, 0
  {
    steps == []
    || (ValidRun(steps[..|steps| - 1]) && Enabled(Final(steps[..|steps| - 1]), steps[|steps| - 1]))
  }

  ghost function Final(steps: seq<Step>): Queue
    requires ValidRun(steps)
    decreases |steps|, 1
  {
    if steps == [] then EMPTY else After(Final(steps[..|steps| - 1]), steps[|steps| - 1])
  }

  // ------------------------------------------------------------ the invariant

  ghost predicate Ascends(items: seq<Item>) {
    forall i, j :: 0 <= i < j < |items| ==> items[i].ticket < items[j].ticket
  }

  ghost predicate Precede(xs: seq<Item>, ys: seq<Item>) {
    forall x, y :: x in xs && y in ys ==> x.ticket < y.ticket
  }

  /** The ticket of an item is that of its push. */
  ghost predicate Genuine(log: seq<Event>, item: Item) {
    item.ticket < |log| && log[item.ticket] == Pushed(item.request)
  }

  /** Waiting requests are in order of arrival: drain after drain, and the queue behind them. */
  ghost predicate Ordered(q: Queue) {
    && Ascends(q.queue)
    && (forall d :: 0 <= d < |q.drains| ==> Ascends(q.drains[d]) && Precede(q.drains[d], q.queue))
    && (forall d, e :: 0 <= d < e < |q.drains| ==> Precede(q.drains[d], q.drains[e]))
    && (forall x :: x in q.queue ==> Genuine(q.log, x))
    && (forall d, x :: 0 <= d < |q.drains| && x in q.drains[d] ==> Genuine(q.log, x))
  }

  /** A drain and a clear leave nothing of what was pushed before them in the queue. */
  ghost predicate Emptied(q: Queue) {
    forall x, j :: x in q.queue && 0 <= j < |q.log| && (q.log[j].Began? || q.log[j].Cleared?) ==> j < x.ticket
  }

  // ---------------------------------------------------- every request's place

  /** The event is where the item ended: dispatched, discarded or cleared. */
  predicate Settles(e: Event, x: Item) {
    match e
    case Dispatched(_, item, _) => item == x
    case Discarded(_, item) => item == x
    case Cleared(items) => x in items
    case _ => false
  }

  ghost predicate Settled(log: seq<Event>, x: Item) {
    exists j :: 0 <= j < |log| && Settles(log[j], x)
  }

  ghost predicate InDrain(q: Queue, x: Item) {
    exists d :: 0 <= d < |q.drains| && x in q.drains[d]
  }

  ghost predicate Held(q: Queue, x: Item) {
    x in q.queue || InDrain(q, x)
  }

  /** What was pushed waits or is settled, never both, and is settled once. */
  ghost predicate Placed(q: Queue) {
    && (forall t :: 0 <= t < |q.log| && q.log[t].Pushed? ==>
          Held(q, Item(t, q.log[t].request)) || Settled(q.log, Item(t, q.log[t].request)))
    && (forall x :: Held(q, x) ==> !Settled(q.log, x))
    && (forall x, j :: 0 <= j < |q.log| && Settles(q.log[j], x) ==> x.ticket < j && Genuine(q.log, x))
    && (forall x, j, k :: 0 <= j < k < |q.log| && Settles(q.log[j], x) ==> !Settles(q.log[k], x))
  }

  // ---------------------------------------------------------- what decides it

  predicate Registers(e: Event, name: Str) {
    e.Registered? && e.name == name
  }

  /** Event k, before event j, is the first registration for the name. */
  ghost predicate First(log: seq<Event>, j: int, name: Str, k: int) {
    0 <= k < j <= |log| && Registers(log[k], name) && forall i :: 0 <= i < k ==> !Registers(log[i], name)
  }

  ghost predicate NoneBefore(log: seq<Event>, j: int, name: Str)
    requires j <= |log|
  {
    forall k :: 0 <= k < j ==> !Registers(log[k], name)
  }

  /** Dispatched to the first handler registered by then, or discarded because none was. */
  ghost predicate Justified(log: seq<Event>, j: int)
    requires 0 <= j < |log|
  {
    match log[j]
    case Dispatched(_, item, h) => exists k :: First(log, j, item.request.name, k) && log[k].handler == h
    case Discarded(_, item) => NoneBefore(log, j, item.request.name)
    case _ => true
  }

  ghost predicate HandlersAreFirst(q: Queue) {
    forall name ::
      if name in q.handlers
      then exists k :: First(q.log, |q.log|, name, k) && q.log[k].handler == q.handlers[name]
      else NoneBefore(q.log, |q.log|, name)
  }

  ghost predicate Decided(q: Queue) {
    && HandlersAreFirst(q)
    && forall j :: 0 <= j < |q.log| ==> Justified(q.log, j)
  }

  // --------------------------------------------------------- order of arrival

  predicate Takes(e: Event) {
    e.Dispatched? || e.Discarded?
  }

  /** Of one drain the earlier is taken first, and what an earlier drain holds or held arrived earlier. */
  ghost predicate TakesInOrder(log: seq<Event>) {
    forall j, k :: 0 <= j < |log| && 0 <= k < |log| && Takes(log[j]) && Takes(log[k])
                   && (log[j].drain < log[k].drain || (log[j].drain == log[k].drain && j < k)) ==>
      log[j].item.ticket < log[k].item.ticket
  }

  /** What was taken arrived before all that is in the queue, in its own drain or in later ones. */
  ghost predicate TakenEarlier(q: Queue, e: Event)
    requires Takes(e)
  {
    && e.drain < |q.drains| && Genuine(q.log, e.item)
    && (forall x :: x in q.queue ==> e.item.ticket < x.ticket)
    && (forall d, x :: 0 <= d < |q.drains| && x in q.drains[d] ==>
          if e.drain <= d then e.item.ticket < x.ticket else x.ticket < e.item.ticket)
  }

  ghost predicate TakenInOrder(q: Queue) {
    TakesInOrder(q.log) && forall j :: 0 <= j < |q.log| && Takes(q.log[j]) ==> TakenEarlier(q, q.log[j])
  }

  ghost predicate Inv(q: Queue) {
    Ordered(q) && Emptied(q) && Placed(q) && Decided(q) && TakenInOrder(q)
  }

  // ------------------------------------------------------------------- proofs

  lemma GenuineGrows(log: seq<Event>, e: Event, x: Item)
    requires Genuine(log, x)
    ensures Genuine(log + [e], x)
  {
  }

  lemma AllGenuineGrows(log: seq<Event>, e: Event)
    ensures forall x :: Genuine(log, x) ==> Genuine(log + [e], x)
  {
    forall x | Genuine(log, x)
      ensures Genuine(log + [e], x)
    {
      GenuineGrows(log, e, x);
    }
  }

  lemma HeldIsGenuine(q: Queue, x: Item)
    requires Ordered(q) && Held(q, x)
    ensures Genuine(q.log, x)
  {
  }

  lemma PushKeepsOrdered(q: Queue, r: Request)
    requires Ordered(q)
    ensures Ordered(After(q, Push(r)))
  {
    AllGenuineGrows(q.log, Pushed(r));
    var n, x := After(q, Push(r)), Item(|q.log|, r);
    assert Genuine(n.log, x);
    forall d | 0 <= d < |q.drains|
      ensures Precede(q.drains[d], n.queue)
    {
      forall y | y in q.drains[d]
        ensures y.ticket < |q.log|
      {
        assert Genuine(q.log, y);
      }
    }
    assert forall y :: y in q.queue ==> Genuine(q.log, y) && y.ticket < |q.log|;
    hide Genuine;
  }

  lemma BeginKeepsOrdered(q: Queue)
    requires Ordered(q)
    ensures Ordered(After(q, Begin))
  {
    AllGenuineGrows(q.log, Began);
    hide Genuine;
  }

  lemma DispatchKeepsOrdered(q: Queue, d: nat)
    requires Ordered(q) && Enabled(q, Dispatch(d))
    ensures Ordered(After(q, Dispatch(d)))
  {
    AllGenuineGrows(q.log, EventOf(q, Dispatch(d)));
    hide Genuine;
    var n := After(q, Dispatch(d));
    assert forall x :: x in n.drains[d] ==> x in q.drains[d];
  }

  lemma StepKeepsOrdered(q: Queue, step: Step)
    requires Ordered(q) && Enabled(q, step)
    ensures Ordered(After(q, step))
  {
    AllGenuineGrows(q.log, EventOf(q, step));
    hide Genuine;
    match step
    case Push(r) => PushKeepsOrdered(q, r);
    case Begin => BeginKeepsOrdered(q);
    case Dispatch(d) => DispatchKeepsOrdered(q, d);
    case _ =>
  }

  lemma StepKeepsEmptied(q: Queue, step: Step)
    requires Emptied(q) && Enabled(q, step) && forall x :: x in q.queue ==> Genuine(q.log, x)
    ensures Emptied(After(q, step))
  {
  }

  /** An item is in the queue or in one drain, at one place there. */
  lemma OnePlaceToWait(q: Queue, x: Item)
    requires Ordered(q)
    ensures x in q.queue ==> !InDrain(q, x)
    ensures forall d, e :: 0 <= d < |q.drains| && 0 <= e < |q.drains| && x in q.drains[d] && x in q.drains[e] ==> d == e
    ensures forall i, j :: 0 <= i < j < |q.queue| ==> q.queue[i] != x || q.queue[j] != x
    ensures forall d, i, j :: 0 <= d < |q.drains| && 0 <= i < j < |q.drains[d]| ==>
              q.drains[d][i] != x || q.drains[d][j] != x
  {
    hide Genuine;
    assert forall d :: 0 <= d < |q.drains| ==> Precede(q.drains[d], q.queue);
    assert forall d, e :: 0 <= d < e < |q.drains| ==> Precede(q.drains[d], q.drains[e]);
  }

  lemma FrontIsOnce(q: Queue, d: nat)
    requires Ordered(q) && d < |q.drains| && q.drains[d] != []
    ensures q.drains[d][0] !in q.drains[d][1..]
  {
    hide Genuine;
    var items := q.drains[d];
    assert Ascends(items);
    assert forall x :: x in items[1..] ==> items[0].ticket < x.ticket;
  }

  lemma DispatchMoves(q: Queue, d: nat, x: Item)
    requires Ordered(q) && Enabled(q, Dispatch(d))
    ensures Held(After(q, Dispatch(d)), x) <==> Held(q, x) && x != q.drains[d][0]
    ensures Held(q, q.drains[d][0])
  {
    hide Genuine, Precede, Ascends;
    var n, front := After(q, Dispatch(d)), q.drains[d][0];
    OnePlaceToWait(q, front);
    hide Ordered;
    assert front in q.drains[d] && InDrain(q, front);
    assert q.drains[d] == [front] + n.drains[d];
    assert x in q.drains[d] <==> x == front || x in n.drains[d];
    FrontIsOnce(q, d);
    if InDrain(q, x) && x != front {
      var e :| 0 <= e < |q.drains| && x in q.drains[e];
      assert x in n.drains[e];
    }
    if InDrain(n, x) {
      var e :| 0 <= e < |n.drains| && x in n.drains[e];
      assert x in q.drains[e];
    }
  }

  lemma BeginMoves(q: Queue, x: Item)
    ensures Held(After(q, Begin), x) <==> Held(q, x)
  {
    var n := After(q, Begin);
    assert n.drains[|q.drains|] == q.queue;
    if InDrain(q, x) {
      var e :| 0 <= e < |q.drains| && x in q.drains[e];
      assert x in n.drains[e];
    }
  }

  /** What a step settles waited before and waits no more; everything else that waited still does. */
  lemma StepMoves(q: Queue, step: Step, x: Item)
    requires Ordered(q) && Enabled(q, step)
    ensures var n, e := After(q, step), EventOf(q, step);
            && (Settles(e, x) ==> Held(q, x))
            && (Held(n, x) <==> (Held(q, x) && !Settles(e, x)) || (step.Push? && x == Item(|q.log|, step.request)))
  {
    hide Genuine, Precede, Ascends;
    match step
    case Begin => BeginMoves(q, x);
    case Dispatch(d) => DispatchMoves(q, d, x);
    case Clear => OnePlaceToWait(q, x);
    case _ =>
  }

  lemma SettledSnoc(log: seq<Event>, e: Event, x: Item)
    ensures Settled(log + [e], x) <==> Settled(log, x) || Settles(e, x)
  {
    var n := log + [e];
    assert n[|log|] == e && forall j :: 0 <= j < |log| ==> n[j] == log[j];
    if Settled(log, x) {
      var j :| 0 <= j < |log| && Settles(log[j], x);
      assert Settles(n[j], x);
    }
  }

  lemma StepKeepsPlaced(q: Queue, step: Step)
    requires Ordered(q) && Placed(q) && Enabled(q, step)
    ensures Placed(After(q, step))
  {
    var n, e := After(q, step), EventOf(q, step);
    forall x
      ensures Settles(e, x) ==> Held(q, x) && Genuine(q.log, x)
      ensures Held(n, x) <==> (Held(q, x) && !Settles(e, x)) || (step.Push? && x == Item(|q.log|, step.request))
      ensures Settled(n.log, x) <==> Settled(q.log, x) || Settles(e, x)
      ensures Genuine(q.log, x) ==> Genuine(n.log, x)
    {
      StepMoves(q, step, x);
      SettledSnoc(q.log, e, x);
      if Settles(e, x) {
        HeldIsGenuine(q, x);
      }
    }
    assert n.log == q.log + [e];
    EventPlaced(q, n, e);
  }

  /** The event of a step settles nothing a second time and loses nothing. */
  lemma EventPlaced(q: Queue, n: Queue, e: Event)
    requires Placed(q) && n.log == q.log + [e]
    requires forall x :: Settles(e, x) ==> Held(q, x)
    requires forall x :: Held(n, x) <==>
               (Held(q, x) && !Settles(e, x)) || (e.Pushed? && x == Item(|q.log|, e.request))
    requires forall x :: Settled(n.log, x) <==> Settled(q.log, x) || Settles(e, x)
    requires forall x :: Genuine(q.log, x) ==> Genuine(n.log, x)
    requires forall x :: Settles(e, x) ==> Genuine(q.log, x)
    ensures Placed(n)
  {
    hide Held, InDrain;
    forall t | 0 <= t < |n.log| && n.log[t].Pushed?
      ensures Held(n, Item(t, n.log[t].request)) || Settled(n.log, Item(t, n.log[t].request))
    {
      assert t < |q.log| ==> n.log[t] == q.log[t];
    }
    forall x | Held(n, x)
      ensures !Settled(n.log, x)
    {
      assert e.Pushed? && x == Item(|q.log|, e.request) ==> !Genuine(q.log, x);
    }
    forall x, j | 0 <= j < |n.log| && Settles(n.log[j], x)
      ensures x.ticket < j && Genuine(n.log, x)
    {
      assert j < |q.log| ==> Settles(q.log[j], x);
    }
    forall x, j, k | 0 <= j < k < |n.log| && Settles(n.log[j], x)
      ensures !Settles(n.log[k], x)
    {
      assert j < |q.log| && Settles(q.log[j], x);
      assert Settled(q.log, x);
    }
  }

  lemma FirstGrows(log: seq<Event>, e: Event, j: int, name: Str, k: int)
    requires First(log, j, name, k)
    ensures First(log + [e], j, name, k)
  {
    assert forall i :: 0 <= i < |log| ==> (log + [e])[i] == log[i];
  }

  lemma JustifiedGrows(log: seq<Event>, e: Event, j: int)
    requires 0 <= j < |log| && Justified(log, j)
    ensures Justified(log + [e], j)
  {
    var n := log + [e];
    assert forall i :: 0 <= i < |log| ==> n[i] == log[i];
    if log[j].Dispatched? {
      var name := log[j].item.request.name;
      var k :| First(log, j, name, k) && log[k].handler == log[j].handler;
      FirstGrows(log, e, j, name, k);
    }
  }

  lemma StepKeepsHandlers(q: Queue, step: Step)
    requires HandlersAreFirst(q) && Enabled(q, step)
    ensures HandlersAreFirst(After(q, step))
  {
    var n, e := After(q, step), EventOf(q, step);
    assert n.log == q.log + [e] && forall i :: 0 <= i < |q.log| ==> n.log[i] == q.log[i];
    forall name
      ensures if name in n.handlers
              then exists k :: First(n.log, |n.log|, name, k) && n.log[k].handler == n.handlers[name]
              else NoneBefore(n.log, |n.log|, name)
    {
      if name in q.handlers {
        var k :| First(q.log, |q.log|, name, k) && q.log[k].handler == q.handlers[name];
        assert First(n.log, |n.log|, name, k);
      } else {
        assert NoneBefore(q.log, |q.log|, name);
        assert step.Register? && step.name == name ==> First(n.log, |n.log|, name, |q.log|);
      }
    }
  }

  lemma NewEventIsJustified(q: Queue, step: Step)
    requires HandlersAreFirst(q) && Enabled(q, step)
    ensures Justified(After(q, step).log, |q.log|)
  {
    var n, e := After(q, step), EventOf(q, step);
    assert n.log == q.log + [e] && forall i :: 0 <= i < |q.log| ==> n.log[i] == q.log[i];
    if e.Dispatched? {
      var name := e.item.request.name;
      var k :| First(q.log, |q.log|, name, k) && q.log[k].handler == e.handler;
      FirstGrows(q.log, e, |q.log|, name, k);
    } else if e.Discarded? {
      assert NoneBefore(q.log, |q.log|, e.item.request.name);
    }
  }

  lemma StepKeepsDecided(q: Queue, step: Step)
    requires Decided(q) && Enabled(q, step)
    ensures Decided(After(q, step))
  {
    hide Justified, HandlersAreFirst;
    var n, e := After(q, step), EventOf(q, step);
    assert n.log == q.log + [e];
    StepKeepsHandlers(q, step);
    NewEventIsJustified(q, step);
    forall j | 0 <= j < |n.log|
      ensures Justified(n.log, j)
    {
      if j < |q.log| {
        JustifiedGrows(q.log, e, j);
      }
    }
  }

  /** The front of a drain arrived after all that was taken from it or from earlier drains, before all from later ones. */
  lemma NewEventIsInOrder(q: Queue, step: Step)
    requires TakenInOrder(q) && Enabled(q, step)
    ensures TakesInOrder(After(q, step).log)
  {
    var n, e := After(q, step), EventOf(q, step);
    assert n.log == q.log + [e];
    if step.Dispatch? {
      assert e.item in q.drains[e.drain];
    }
    forall j, k | 0 <= j < |n.log| && 0 <= k < |n.log| && Takes(n.log[j]) && Takes(n.log[k])
                  && (n.log[j].drain < n.log[k].drain || (n.log[j].drain == n.log[k].drain && j < k))
      ensures n.log[j].item.ticket < n.log[k].item.ticket
    {
      assert j < |q.log| ==> n.log[j] == q.log[j];
      assert k < |q.log| ==> n.log[k] == q.log[k];
    }
  }

  lemma OldTakesStayEarlier(q: Queue, step: Step, e: Event)
    requires Enabled(q, step) && Takes(e) && TakenEarlier(q, e)
    ensures TakenEarlier(After(q, step), e)
  {
    GenuineGrows(q.log, EventOf(q, step), e.item);
    var n := After(q, step);
    match step
    case Begin =>
      assert forall d, x :: 0 <= d < |q.drains| && x in n.drains[d] ==> x in q.drains[d];
      assert n.drains[|q.drains|] == q.queue;
    case Dispatch(d) =>
      assert forall x :: x in n.drains[d] ==> x in q.drains[d];
      assert forall c, x :: 0 <= c < |n.drains| && x in n.drains[c] ==> x in q.drains[c];
    case _ =>
  }

  lemma NewTakeIsEarlier(q: Queue, d: nat)
    requires Ordered(q) && Enabled(q, Dispatch(d))
    ensures TakenEarlier(After(q, Dispatch(d)), EventOf(q, Dispatch(d)))
  {
    var n, e := After(q, Dispatch(d)), EventOf(q, Dispatch(d));
    assert e.item in q.drains[d];
    GenuineGrows(q.log, e, e.item);
    assert Ascends(q.drains[d]) && Precede(q.drains[d], q.queue);
    hide Genuine;
    forall c, x | 0 <= c < |n.drains| && x in n.drains[c]
      ensures if d <= c then e.item.ticket < x.ticket else x.ticket < e.item.ticket
    {
      assert x in q.drains[c];
    }
  }

  lemma StepKeepsTaken(q: Queue, step: Step)
    requires Ordered(q) && TakenInOrder(q) && Enabled(q, step)
    ensures TakenInOrder(After(q, step))
  {
    var n, e := After(q, step), EventOf(q, step);
    assert n.log == q.log + [e];
    NewEventIsInOrder(q, step);
    hide TakesInOrder, Ordered, TakenEarlier;
    forall j | 0 <= j < |n.log| && Takes(n.log[j])
      ensures TakenEarlier(n, n.log[j])
    {
      if j < |q.log| {
        OldTakesStayEarlier(q, step, q.log[j]);
      } else {
        NewTakeIsEarlier(q, step.drain);
      }
    }
  }

  lemma StepKeepsInv(q: Queue, step: Step)
    requires Inv(q) && Enabled(q, step)
    ensures Inv(After(q, step))
  {
    assert forall x :: x in q.queue ==> Genuine(q.log, x);
    StepKeepsOrdered(q, step);
    StepKeepsEmptied(q, step);
    StepKeepsPlaced(q, step);
    StepKeepsDecided(q, step);
    StepKeepsTaken(q, step);
    hide Ordered, Emptied, Placed, Decided, TakenInOrder;
  }

  // ----------------------------------------------------------- over every run

  /** Each step leaves the one event that belongs to it. */
  predicate Matches(step: Step, e: Event) {
    match step
    case Register(name, h) => e == Registered(name, h)
    case Push(r) => e == Pushed(r)
    case Begin => e == Began
    case Dispatch(d) => Takes(e) && e.drain == d
    case Clear => e.Cleared?
  }

  lemma {:induction false} RunKeepsInv(steps: seq<Step>)
    requires ValidRun(steps)
    ensures Inv(Final(steps)) && |Final(steps).log| == |steps|
    ensures forall i :: 0 <= i < |steps| ==> Matches(steps[i], Final(steps).log[i])
    decreases |steps|
  {
    hide Inv, After, EventOf, Matches;
    if steps == [] {
      EmptyInv();
    } else {
      var last := |steps| - 1;
      var q := Final(steps[..last]);
      RunKeepsInv(steps[..last]);
      StepKeepsInv(q, steps[last]);
      StepLogs(q, steps[last]);
      assert forall i :: 0 <= i < last ==> steps[..last][i] == steps[i];
      assert forall i :: 0 <= i < last ==> Final(steps).log[i] == q.log[i];
    }
  }

  lemma StepLogs(q: Queue, step: Step)
    requires Enabled(q, step)
    ensures After(q, step).log == q.log + [EventOf(q, step)] && Matches(step, EventOf(q, step))
  {
  }

  lemma EmptyInv()
    ensures Inv(EMPTY)
  {
  }

  /** A request is pushed by step t: it is in the queue, or in one drain, or was settled by one later step; never two of these. */
  lemma EveryRequestHasOnePlace(steps: seq<Step>, t: nat)
    requires ValidRun(steps) && t < |steps| && steps[t].Push?
    ensures var q, x := Final(steps), Item(t, steps[t].request);
            && |q.log| == |steps|
            && (x in q.queue || InDrain(q, x) || Settled(q.log, x))
            && !(x in q.queue && InDrain(q, x)) && !(x in q.queue && Settled(q.log, x))
            && !(InDrain(q, x) && Settled(q.log, x))
            && (forall d, e :: 0 <= d < e < |q.drains| ==> x !in q.drains[d] || x !in q.drains[e])
            && (forall j, k :: 0 <= j < k < |steps| ==> !Settles(q.log[j], x) || !Settles(q.log[k], x))
            && (forall j :: 0 <= j < |steps| && Settles(q.log[j], x) ==>
                  t < j && (steps[j].Clear? || steps[j].Dispatch?))
  {
    RunKeepsInv(steps);
    var q, x := Final(steps), Item(t, steps[t].request);
    assert Matches(steps[t], q.log[t]);
    OnePlaceToWait(q, x);
    hide Decided, TakenInOrder, Emptied, Final, ValidRun;
    assert Held(q, x) || Settled(q.log, x);
    assert Held(q, x) ==> !Settled(q.log, x);
    forall j | 0 <= j < |steps| && Settles(q.log[j], x)
      ensures t < j && (steps[j].Clear? || steps[j].Dispatch?)
    {
      assert Matches(steps[j], q.log[j]);
    }
  }

  /** Step k, before step j, is the first registration for the name. */
  ghost predicate FirstRegistration(steps: seq<Step>, j: int, name: Str, k: int) {
    && 0 <= k < j <= |steps| && steps[k].Register? && steps[k].name == name
    && forall i :: 0 <= i < k ==> !(steps[i].Register? && steps[i].name == name)
  }

  ghost predicate RegisteredBefore(steps: seq<Step>, j: int, name: Str)
    requires j <= |steps|
  {
    exists k :: 0 <= k < j && steps[k].Register? && steps[k].name == name
  }

  /**
   What a dispatch step takes goes to the handler registered first for its name,
   if any was registered before that step, and is discarded otherwise.
   */
  lemma RegistrationsDecide(steps: seq<Step>, j: nat)
    requires ValidRun(steps) && j < |steps| && steps[j].Dispatch?
    ensures |Final(steps).log| == |steps|
    ensures var e := Final(steps).log[j];
            && Takes(e)
            && (e.Dispatched? <==> RegisteredBefore(steps, j, e.item.request.name))
            && (e.Dispatched? ==>
                  exists k :: FirstRegistration(steps, j, e.item.request.name, k) && steps[k].handler == e.handler)
  {
    RunKeepsInv(steps);
    var q := Final(steps);
    assert Matches(steps[j], q.log[j]) && Justified(q.log, j);
    assert forall i :: 0 <= i < j ==> Matches(steps[i], q.log[i]);
    hide Inv, ValidRun, Final;
    FateOfMatched(steps, q.log, j);
  }

  lemma FateOfMatched(steps: seq<Step>, log: seq<Event>, j: nat)
    requires j < |steps| == |log| && Takes(log[j]) && Justified(log, j)
    requires forall i :: 0 <= i < j ==> Matches(steps[i], log[i])
    ensures var e := log[j];
            && (e.Dispatched? <==> RegisteredBefore(steps, j, e.item.request.name))
            && (e.Dispatched? ==>
                  exists k :: FirstRegistration(steps, j, e.item.request.name, k) && steps[k].handler == e.handler)
  {
    var e := log[j];
    var name := e.item.request.name;
    forall i | 0 <= i < j
      ensures Registers(log[i], name) <==> steps[i].Register? && steps[i].name == name
    {
      assert Matches(steps[i], log[i]);
    }
    if e.Dispatched? {
      var k :| First(log, j, name, k) && log[k].handler == e.handler;
      assert Registers(log[k], name) && Matches(steps[k], log[k]);
      assert FirstRegistration(steps, j, name, k) && steps[k].handler == e.handler;
    } else {
      assert NoneBefore(log, j, name);
    }
  }

  /** Within a drain, and from drain to drain, requests are taken in order of arrival. */
  lemma ArrivalOrderIsKept(steps: seq<Step>, j: nat, k: nat)
    requires ValidRun(steps) && j < |steps| && k < |steps| && steps[j].Dispatch? && steps[k].Dispatch?
    requires steps[j].drain < steps[k].drain || (steps[j].drain == steps[k].drain && j < k)
    ensures |Final(steps).log| == |steps|
    ensures var log := Final(steps).log;
            Takes(log[j]) && Takes(log[k]) && log[j].item.ticket < log[k].item.ticket
  {
    RunKeepsInv(steps);
    hide Ordered, Emptied, Placed, Decided;
    assert Matches(steps[j], Final(steps).log[j]) && Matches(steps[k], Final(steps).log[k]);
  }

  /** A drain takes all that is queued, and a clear removes all that is. */
  lemma NothingStaysBehind(steps: seq<Step>, t: nat, j: nat)
    requires ValidRun(steps) && t < j < |steps| && steps[t].Push? && (steps[j].Begin? || steps[j].Clear?)
    ensures Item(t, steps[t].request) !in Final(steps).queue
  {
    hide Ordered, Emptied, Placed, Decided, TakenInOrder, Final, ValidRun;
    RunKeepsInv(steps);
    var q := Final(steps);
    assert Matches(steps[j], q.log[j]);
    NoneFromBefore(q, Item(t, steps[t].request), j);
  }

  lemma NoneFromBefore(q: Queue, x: Item, j: nat)
    requires Emptied(q) && x.ticket < j < |q.log| && (q.log[j].Began? || q.log[j].Cleared?)
    ensures x !in q.queue
  {
  }

  // ------------------------------------------- drains, whatever happens meanwhile

  /** Topic and name of a queue. */
  type Place = (Str, Str)

  /** The arguments of one dispatch, and to whom. */
  datatype Call = Call(handler: Handler, topicName: Str, queueName: Str, request: Request)

  function CallOf(k: Place, e: Event): seq<Call> {
    if e.Dispatched? then [Call(e.handler, k.0, k.1, e.item.request)] else []
  }

  /** The calls the dispatch events from a position on stand for. */
  function CallsOf(k: Place, log: seq<Event>, from: nat): seq<Call>
    decreases |log| - from
  {
    if from >= |log| then [] else CallOf(k, log[from]) + CallsOf(k, log, from + 1)
  }

  lemma {:induction false} CallsOfSnoc(k: Place, log: seq<Event>, e: Event, from: nat)
    requires from <= |log|
    ensures CallsOf(k, log + [e], from) == CallsOf(k, log, from) + CallOf(k, e)
    decreases |log| - from
  {
    if from < |log| {
      CallsOfSnoc(k, log, e, from + 1);
      assert (log + [e])[from] == log[from];
    } else {
      assert CallsOf(k, log + [e], from + 1) == [];
      assert (log + [e])[from] == e;
    }
  }

  function RequestsIn(items: seq<Item>): (rs: seq<Request>)
    ensures |rs| == |items| && forall i :: 0 <= i < |items| ==> rs[i] == items[i].request
  {
    seq(|items|, i requires 0 <= i < |items| => items[i].request)
  }

  lemma NoRequests(items: seq<Item>)
    ensures RequestsIn(items) == [] <==> items == []
  {
  }

  lemma FrontRequest(items: seq<Item>)
    requires RequestsIn(items) != []
    ensures items != [] && RequestsIn(items)[0] == items[0].request && RequestsIn(items)[1..] == RequestsIn(items[1..])
  {
  }

  /** All queues, by topic and name. */
  type Contents = map<Place, Queue>

  /** What a handler or another thread does to some queue. */
  datatype Action = Action(at: Place, step: Step)

  predicate Quiet(todo: seq<Action>) {
    forall i :: 0 <= i < |todo| ==> !todo[i].step.Begin? && !todo[i].step.Dispatch?
  }

  function Act(m: Contents, a: Action): (n: Contents)
    requires !a.step.Begin? && !a.step.Dispatch?
    ensures n.Keys == m.Keys && forall k :: k in m ==> n[k].drains == m[k].drains
  {
    if a.at in m then m[a.at := After(m[a.at], a.step)] else m
  }

  function ActAll(m: Contents, todo: seq<Action>): (n: Contents)
    requires Quiet(todo)
    ensures n.Keys == m.Keys && forall k :: k in m ==> n[k].drains == m[k].drains
    decreases |todo|
  {
    if todo == [] then m else Act(ActAll(m, todo[..|todo| - 1]), todo[|todo| - 1])
  }

  /** What is done, to any queues, after the n-th dispatch of the drain of a queue. */
  type Script = (Place, nat) -> seq<Action>

  ghost predicate QuietScript(script: Script) {
    forall k, n :: Quiet(script(k, n))
  }

  /** The queues, and every handler call made. */
  datatype World = World(m: Contents, calls: seq<Call>)

  function Starting(w: World, k: Place): World
    requires k in w.m
  {
    w.(m := w.m[k := After(w.m[k], Begin)])
  }

  function DispatchOne(w: World, k: Place, d: nat): World
    requires k in w.m && Enabled(w.m[k], Dispatch(d))
  {
    World(w.m[k := After(w.m[k], Dispatch(d))], w.calls + CallOf(k, EventOf(w.m[k], Dispatch(d))))
  }

  /** Drain d of a queue, from its n-th dispatch on, until nothing is left in it. */
  ghost function DrainLoop(w: World, k: Place, d: nat, script: Script, n: nat): World
    requires QuietScript(script) && k in w.m && d < |w.m[k].drains|
    decreases if k in w.m && d < |w.m[k].drains| then |w.m[k].drains[d]| else 0
  {
    if w.m[k].drains[d] == [] then w
    else
      var x := DispatchOne(w, k, d);
      assert Quiet(script(k, n));
      DrainLoop(x.(m := ActAll(x.m, script(k, n))), k, d, script, n + 1)
  }

  lemma DrainLoopStep(w: World, k: Place, d: nat, script: Script, n: nat)
    requires QuietScript(script) && k in w.m && d < |w.m[k].drains|
    ensures w.m[k].drains[d] == [] ==> DrainLoop(w, k, d, script, n) == w
    ensures w.m[k].drains[d] != [] ==>
              Quiet(script(k, n))
              && var x := DispatchOne(w, k, d);
              && k in x.m && |x.m[k].drains| == |w.m[k].drains| && x.m[k].drains[d] == w.m[k].drains[d][1..]
              && DrainLoop(w, k, d, script, n) == DrainLoop(x.(m := ActAll(x.m, script(k, n))), k, d, script, n + 1)
  {
  }

  ghost function Drain(w: World, k: Place, script: Script): World
    requires QuietScript(script)
  {
    if k in w.m then DrainLoop(Starting(w, k), k, |w.m[k].drains|, script, 0) else w
  }

  /** One queue after the other. */
  ghost function DrainAll(w: World, places: seq<Place>, script: Script): World
    requires QuietScript(script)
  {
    if places == [] then w
    else
      var last := |places| - 1;
      Drain(DrainAll(w, places[..last], script), places[last], script)
  }

  lemma {:induction false} DrainAllConcat(w: World, ks: seq<Place>, ls: seq<Place>, script: Script)
    requires QuietScript(script)
    ensures DrainAll(w, ks + ls, script) == DrainAll(DrainAll(w, ks, script), ls, script)
    decreases |ls|
  {
    hide Drain;
    if ls == [] {
      assert ks + ls == ks;
    } else {
      var last := |ls| - 1;
      assert (ks + ls)[..|ks + ls| - 1] == ks + ls[..last];
      DrainAllConcat(w, ks, ls[..last], script);
    }
  }

  function TopicsOf(m: Contents): set<Str> {
    set k | k in m :: k.0
  }

  function NamesOf(m: Contents, topic: Str): set<Str> {
    set k | k in m && k.0 == topic :: k.1
  }

  function PlacesFor(topic: Str, names: seq<Str>): (ks: seq<Place>)
    ensures |ks| == |names| && forall i :: 0 <= i < |ks| ==> ks[i] == (topic, names[i])
  {
    seq(|names|, i requires 0 <= i < |names| => (topic, names[i]))
  }

  /** The queues of some topics, the names of each in order. */
  function PlacesOf(m: Contents, topics: seq<Str>): seq<Place> {
    if topics == [] then []
    else
      var t := topics[|topics| - 1];
      PlacesOf(m, topics[..|topics| - 1]) + PlacesFor(t, Ascending(NamesOf(m, t)))
  }

  /** The places in the order of a full round. */
  function RoundOf(m: Contents): seq<Place> {
    PlacesOf(m, Ascending(TopicsOf(m)))
  }

  // ------------------------------------------------- what every script allows

  /** The calls for one queue. */
  function CallsAt(calls: seq<Call>, k: Place): seq<Call> {
    if calls == [] then []
    else
      var c := calls[|calls| - 1];
      CallsAt(calls[..|calls| - 1], k) + if (c.topicName, c.queueName) == k then [c] else []
  }

  /**
   From w to v, a queue's history has only grown, and the calls made for it are
   the dispatches in what was added.
   */
  ghost predicate Told(w: World, v: World, k: Place) {
    && k in w.m && k in v.m && w.m[k].log <= v.m[k].log
    && CallsAt(v.calls, k) == CallsAt(w.calls, k) + CallsOf(k, v.m[k].log, |w.m[k].log|)
  }

  /** What is in the queue came after w. */
  ghost predicate Newcomers(w: World, v: World, k: Place) {
    k in w.m && k in v.m && forall x :: x in v.m[k].queue ==> x.ticket >= |w.m[k].log|
  }

  lemma ToldAtFirst(w: World, k: Place)
    requires k in w.m
    ensures Told(w, w, k)
  {
  }

  lemma CallsAtSnoc(calls: seq<Call>, c: Call, k: Place)
    ensures CallsAt(calls + [c], k) == CallsAt(calls, k) + if (c.topicName, c.queueName) == k then [c] else []
  {
    assert (calls + [c])[..|calls|] == calls;
  }

  /** One step of one queue, with the calls of its event. */
  function StepAt(v: World, j: Place, step: Step): World
    requires j in v.m && Enabled(v.m[j], step)
  {
    World(v.m[j := After(v.m[j], step)], v.calls + CallOf(j, EventOf(v.m[j], step)))
  }

  lemma StepTells(w: World, v: World, j: Place, step: Step, k: Place)
    requires Told(w, v, k) && j in v.m && Enabled(v.m[j], step)
    ensures Told(w, StepAt(v, j, step), k)
    ensures Newcomers(w, v, k) || (j == k && step.Begin?) ==> Newcomers(w, StepAt(v, j, step), k)
  {
    hide CallsAt, CallsOf;
    var e := EventOf(v.m[j], step);
    assert After(v.m[j], step).log == v.m[j].log + [e];
    if e.Dispatched? {
      CallsAtSnoc(v.calls, CallOf(j, e)[0], k);
    } else {
      assert v.calls + [] == v.calls;
    }
    if j == k {
      CallsOfSnoc(k, v.m[k].log, e, |w.m[k].log|);
    }
  }

  lemma {:induction false} ActionsTell(w: World, v: World, todo: seq<Action>, k: Place)
    requires Told(w, v, k) && Quiet(todo)
    ensures Told(w, v.(m := ActAll(v.m, todo)), k)
    ensures Newcomers(w, v, k) ==> Newcomers(w, v.(m := ActAll(v.m, todo)), k)
    decreases |todo|
  {
    hide Told, Newcomers;
    if todo != [] {
      var last := |todo| - 1;
      ActionsTell(w, v, todo[..last], k);
      ActTells(w, v.(m := ActAll(v.m, todo[..last])), todo[last], k);
    }
  }

  lemma ActTells(w: World, v: World, a: Action, k: Place)
    requires Told(w, v, k) && !a.step.Begin? && !a.step.Dispatch?
    ensures Told(w, v.(m := Act(v.m, a)), k)
    ensures Newcomers(w, v, k) ==> Newcomers(w, v.(m := Act(v.m, a)), k)
  {
    hide Told, Newcomers, After;
    if a.at in v.m {
      StepTells(w, v, a.at, a.step, k);
      assert v.calls + [] == v.calls;
    }
  }

  lemma {:induction false} DrainLoopTells(w: World, v: World, j: Place, d: nat, script: Script, n: nat, k: Place)
    requires Told(w, v, k) && QuietScript(script) && j in v.m && d < |v.m[j].drains|
    ensures var r := DrainLoop(v, j, d, script, n);
            Told(w, r, k) && (Newcomers(w, v, k) ==> Newcomers(w, r, k))
    decreases |v.m[j].drains[d]|
  {
    hide DrainLoop, Told, Newcomers;
    DrainLoopStep(v, j, d, script, n);
    if v.m[j].drains[d] != [] {
      var x := DispatchOne(v, j, d);
      StepTells(w, v, j, Dispatch(d), k);
      ActionsTell(w, x, script(j, n), k);
      DrainLoopTells(w, x.(m := ActAll(x.m, script(j, n))), j, d, script, n + 1, k);
    }
  }

  /** The loop empties its own local queue and leaves all others alone. */
  lemma {:induction false} DrainLoopEmpties(v: World, j: Place, d: nat, script: Script, n: nat)
    requires QuietScript(script) && j in v.m && d < |v.m[j].drains|
    ensures var r := DrainLoop(v, j, d, script, n);
            && r.m.Keys == v.m.Keys
            && forall k :: k in v.m ==> r.m[k].drains == if j == k then v.m[k].drains[d := []] else v.m[k].drains
    decreases |v.m[j].drains[d]|
  {
    hide DrainLoop;
    DrainLoopStep(v, j, d, script, n);
    if v.m[j].drains[d] != [] {
      var x := DispatchOne(v, j, d);
      DrainLoopEmpties(x.(m := ActAll(x.m, script(j, n))), j, d, script, n + 1);
    }
  }

  lemma ToldIn(w: World, v: World, k: Place)
    requires Told(w, v, k)
    ensures k in w.m && k in v.m
  {
  }

  /** One drain: it adds one local queue, to its own queue, and leaves it empty. */
  lemma DrainTells(w: World, v: World, j: Place, script: Script, k: Place)
    requires Told(w, v, k) && QuietScript(script)
    ensures var r := Drain(v, j, script);
            && r.m.Keys == v.m.Keys && Told(w, r, k) && (Newcomers(w, v, k) || j == k ==> Newcomers(w, r, k))
            && k in v.m && r.m[k].drains == v.m[k].drains + if j == k then [[]] else []
  {
    hide DrainLoop, Told, Newcomers, After;
    ToldIn(w, v, k);
    if j in v.m {
      StepTells(w, v, j, Begin, k);
      assert v.calls + [] == v.calls;
      assert StepAt(v, j, Begin) == Starting(v, j);
      BeginAdds(v.m[j]);
      DrainLoopTells(w, Starting(v, j), j, |v.m[j].drains|, script, 0, k);
      DrainLoopEmpties(Starting(v, j), j, |v.m[j].drains|, script, 0);
    }
  }

  lemma BeginAdds(q: Queue)
    ensures After(q, Begin).drains == q.drains + [q.queue]
  {
  }

  /**
   A round over any places, whatever handlers and other threads do to any queue
   meanwhile: the calls for a queue are exactly the dispatches added to its
   history, in order; and of a queue that was visited nothing is left but what was
   pushed during the round, neither in the queue nor in the local queues.
   */
  lemma {:induction false} RoundTells(w: World, places: seq<Place>, script: Script, k: Place)
    requires QuietScript(script) && k in w.m
    ensures var r := DrainAll(w, places, script);
            && r.m.Keys == w.m.Keys && Told(w, r, k)
            && (k in places ==> Newcomers(w, r, k))
            && |r.m[k].drains| >= |w.m[k].drains|
            && (forall d :: 0 <= d < |w.m[k].drains| ==> r.m[k].drains[d] == w.m[k].drains[d])
            && (forall d :: |w.m[k].drains| <= d < |r.m[k].drains| ==> r.m[k].drains[d] == [])
    decreases |places|
  {
    hide Drain, Told, Newcomers;
    if places == [] {
      ToldAtFirst(w, k);
    } else {
      var last := |places| - 1;
      RoundTells(w, places[..last], script, k);
      DrainTells(w, DrainAll(w, places[..last], script), places[last], script, k);
    }
  }

  // ------------------------------------------------ when nothing else happens

  /** Nothing happens but the drain. */
  function Silence(): (script: Script)
    ensures forall k, n :: script(k, n) == []
  {
    (k, n) => []
  }

  /** The calls for requests in order, each to the handler of its name. */
  function CallsFor(k: Place, handlers: map<Str, Handler>, rs: seq<Request>): seq<Call> {
    if rs == [] then []
    else
      (if rs[0].name in handlers then [Call(handlers[rs[0].name], k.0, k.1, rs[0])] else [])
      + CallsFor(k, handlers, rs[1..])
  }

  lemma CallsForFront(k: Place, handlers: map<Str, Handler>, items: seq<Item>)
    requires items != []
    ensures var r := items[0].request;
            CallsFor(k, handlers, RequestsIn(items))
            == (if r.name in handlers then [Call(handlers[r.name], k.0, k.1, r)] else [])
               + CallsFor(k, handlers, RequestsIn(items[1..]))
  {
    assert RequestsIn(items)[1..] == RequestsIn(items[1..]);
  }

  lemma NoCallsFor(k: Place, handlers: map<Str, Handler>)
    ensures CallsFor(k, handlers, RequestsIn([])) == []
  {
    NoRequests([]);
  }

  lemma {:induction false} DrainLoopAlone(w: World, k: Place, d: nat, n: nat)
    requires k in w.m && d < |w.m[k].drains|
    ensures var r := DrainLoop(w, k, d, Silence(), n);
            && k in r.m && r.m == w.m[k := r.m[k]]
            && r.m[k].queue == w.m[k].queue && r.m[k].handlers == w.m[k].handlers
            && r.calls == w.calls + CallsFor(k, w.m[k].handlers, RequestsIn(w.m[k].drains[d]))
    decreases |w.m[k].drains[d]|
  {
    hide DrainLoop, CallsFor, RequestsIn;
    DrainLoopStep(w, k, d, Silence(), n);
    if w.m[k].drains[d] == [] {
      NoCallsFor(k, w.m[k].handlers);
    } else {
      var x := DispatchOne(w, k, d);
      DrainLoopAlone(x, k, d, n + 1);
      CallsForFront(k, w.m[k].handlers, w.m[k].drains[d]);
      Associates(w.calls, CallOf(k, EventOf(w.m[k], Dispatch(d))), CallsFor(k, w.m[k].handlers, RequestsIn(w.m[k].drains[d][1..])));
    }
  }

  /** A drain nothing interferes with empties its queue, touches no other, and calls for its requests in order. */
  lemma DrainAlone(w: World, k: Place)
    requires k in w.m
    ensures var r := Drain(w, k, Silence());
            && k in r.m && r.m == w.m[k := r.m[k]]
            && r.m[k].queue == [] && r.m[k].handlers == w.m[k].handlers
            && r.calls == w.calls + CallsFor(k, w.m[k].handlers, RequestsIn(w.m[k].queue))
  {
    hide DrainLoop, CallsFor, RequestsIn;
    DrainLoopAlone(Starting(w, k), k, |w.m[k].drains|, 0);
  }

  /** The calls for what the queues of some places hold, place after place. */
  function CallsThrough(m: Contents, places: seq<Place>): seq<Call> {
    if places == [] then []
    else
      var k := places[|places| - 1];
      CallsThrough(m, places[..|places| - 1])
      + if k in m then CallsFor(k, m[k].handlers, RequestsIn(m[k].queue)) else []
  }

  predicate Distinct(places: seq<Place>) {
    forall i, j :: 0 <= i < j < |places| ==> places[i] != places[j]
  }

  /** A round nothing interferes with calls for everything queued, in order of the places and of arrival. */
  lemma {:induction false} RoundAlone(w: World, places: seq<Place>)
    requires Distinct(places)
    ensures var r := DrainAll(w, places, Silence());
            && r.m.Keys == w.m.Keys && r.calls == w.calls + CallsThrough(w.m, places)
            && forall k :: k in w.m ==>
                 if k in places then r.m[k].queue == [] && r.m[k].handlers == w.m[k].handlers else r.m[k] == w.m[k]
    decreases |places|
  {
    hide Drain, CallsFor, RequestsIn;
    if places != [] {
      var last := |places| - 1;
      var v := DrainAll(w, places[..last], Silence());
      RoundAlone(w, places[..last]);
      assert places[last] !in places[..last];
      if places[last] in w.m {
        DrainAlone(v, places[last]);
      } else {
        NothingThere(v, places[last]);
      }
    }
  }

  lemma NothingThere(w: World, k: Place)
    requires k !in w.m
    ensures Drain(w, k, Silence()) == w
  {
  }

  lemma PlacesForAre(topic: Str, names: seq<Str>)
    ensures forall k :: k in PlacesFor(topic, names) <==> k.0 == topic && k.1 in names
    ensures (forall i, j :: 0 <= i < j < |names| ==> names[i] != names[j]) ==> Distinct(PlacesFor(topic, names))
  {
    var ks := PlacesFor(topic, names);
    forall k: Place | k.0 == topic && k.1 in names
      ensures k in ks
    {
      var i :| 0 <= i < |names| && names[i] == k.1;
      assert ks[i] == k;
    }
  }

  lemma NamesInModel(m: Contents, topic: Str)
    ensures forall n :: n in NamesOf(m, topic) <==> (topic, n) in m
  {
    forall n | (topic, n) in m
      ensures n in NamesOf(m, topic)
    {
      assert (topic, n).0 == topic;
    }
  }

  lemma DistinctConcat(ks: seq<Place>, ls: seq<Place>)
    requires Distinct(ks) && Distinct(ls) && forall k :: k in ks ==> k !in ls
    ensures Distinct(ks + ls)
  {
    var all := ks + ls;
    forall i, j | 0 <= i < j < |all|
      ensures all[i] != all[j]
    {
      if i < |ks| <= j {
        assert all[i] == ks[i] && ks[i] in ks && all[j] == ls[j - |ks|];
      }
    }
  }

  lemma {:induction false} PlacesVisit(m: Contents, topics: seq<Str>)
    requires forall i, j :: 0 <= i < j < |topics| ==> topics[i] != topics[j]
    ensures Distinct(PlacesOf(m, topics))
    ensures forall k :: k in PlacesOf(m, topics) <==> k in m && k.0 in topics
    decreases |topics|
  {
    hide NamesOf, Distinct;
    if topics == [] {
      NoPlaces();
    } else {
      var before, t := topics[..|topics| - 1], topics[|topics| - 1];
      PlacesVisit(m, before);
      NamesInModel(m, t);
      var names := InOrder(NamesOf(m, t));
      PlacesForAre(t, names);
      assert topics == before + [t];
      assert t !in before;
      DistinctConcat(PlacesOf(m, before), PlacesFor(t, names));
    }
  }

  lemma NoPlaces()
    ensures Distinct([])
  {
  }

  predicate Before(k: Place, l: Place) {
    Less(k.0, l.0) || (k.0 == l.0 && Less(k.1, l.1))
  }

  ghost predicate Visited(ks: seq<Place>) {
    forall i, j :: 0 <= i < j < |ks| ==> Before(ks[i], ks[j])
  }

  lemma VisitedConcat(ks: seq<Place>, ls: seq<Place>)
    requires Visited(ks) && Visited(ls) && forall i, j :: 0 <= i < |ks| && 0 <= j < |ls| ==> Before(ks[i], ls[j])
    ensures Visited(ks + ls)
  {
    hide Before;
  }

  lemma TopicAscends(t: Str, names: seq<Str>)
    requires Keys.Ascends(names)
    ensures Visited(PlacesFor(t, names))
  {
    hide Less;
  }

  lemma {:induction false} PlacesAscend(m: Contents, topics: seq<Str>)
    requires Keys.Ascends(topics)
    ensures Visited(PlacesOf(m, topics)) && forall k :: k in PlacesOf(m, topics) ==> k.0 in topics
    decreases |topics|
  {
    hide Less, Ascending, NamesOf;
    if topics != [] {
      var before, t := topics[..|topics| - 1], topics[|topics| - 1];
      PlacesAscend(m, before);
      var names := Ascending(NamesOf(m, t));
      AscendingAscends(NamesOf(m, t));
      TopicAscends(t, names);
      PlacesForAre(t, names);
      var ks, ls := PlacesOf(m, before), PlacesFor(t, names);
      forall i, j | 0 <= i < |ks| && 0 <= j < |ls|
        ensures Before(ks[i], ls[j])
      {
        assert ks[i] in ks && ks[i].0 in before;
      }
      VisitedConcat(ks, ls);
    }
  }

  /** A full round goes through the topics in order, and through the names of each in order. */
  lemma RoundAscends(m: Contents)
    ensures Visited(RoundOf(m))
  {
    hide Less, Ascending, PlacesOf;
    AscendingAscends(TopicsOf(m));
    PlacesAscend(m, Ascending(TopicsOf(m)));
  }

  /** A full round visits every queue once. */
  lemma RoundVisitsAll(m: Contents)
    ensures Distinct(RoundOf(m)) && forall k :: k in RoundOf(m) <==> k in m
  {
    hide Distinct, PlacesOf;
    PlacesVisit(m, InOrder(TopicsOf(m)));
    assert forall k :: k in m ==> k.0 in TopicsOf(m);
  }

  // -------------------------------------------------------------- the objects

  lemma RunGrows(steps: seq<Step>, step: Step)
    requires ValidRun(steps) && Enabled(Final(steps), step)
    ensures ValidRun(steps + [step]) && Final(steps + [step]) == After(Final(steps), step)
  {
    assert (steps + [step])[..|steps|] == steps;
  }

  class RequestQueueData {
    const name: Str
    ghost const topic: Str
    var queue: seq<Request>
    var handlers: map<Str, Handler>
    ghost var g: Queue
    ghost var steps: seq<Step>     // history

    /** The ghost state is where the steps so far lead, and describes this object. */
    ghost predicate Valid()
      reads this
    {
      && ValidRun(steps) && g == Final(steps)
      && RequestsIn(g.queue) == queue && g.handlers == handlers
    }

    constructor (ghost topic: Str, name: Str)
      ensures Valid() && g == EMPTY && this.topic == topic && this.name == name
    {
      this.topic, this.name := topic, name;
      queue, handlers, g, steps := [], map[], EMPTY, [];
    }

    ghost method Step(step: Step)
      requires ValidRun(steps) && g == Final(steps) && Enabled(g, step)
      modifies this`g, this`steps
      ensures ValidRun(steps) && g == Final(steps) == After(old(g), step)
    {
      RunGrows(steps, step);
      g, steps := After(g, step), steps + [step];
    }

    method AddHandler(requestName: Str, handler: Handler)
      requires Valid()
      modifies this
      ensures Valid() && g == After(old(g), Register(requestName, handler))
    {
      hide Final, ValidRun;
      Step(Register(requestName, handler));
      if requestName !in handlers {
        handlers := handlers[requestName := handler];
      }
    }

    method PushBack(request: Request)
      requires Valid()
      modifies this
      ensures Valid() && g == After(old(g), Push(request))
    {
      hide Final, ValidRun;
      Step(Push(request));
      queue := queue + [request];
    }

    method ClearQueue()
      requires Valid()
      modifies this
      ensures Valid() && g == After(old(g), Clear)
    {
      hide Final, ValidRun;
      Step(Clear);
      queue := [];
    }

    /** The queue is moved out, as the queue of a new drain. */
    method TakeQueue() returns (newQueue: seq<Request>)
      requires Valid()
      modifies this
      ensures Valid() && g == After(old(g), Begin) && g.log == old(g.log) + [Began]
      ensures |g.drains| == |old(g.drains)| + 1 && newQueue == RequestsIn(g.drains[|old(g.drains)|])
    {
      hide Final, ValidRun, RequestsIn;
      Step(Begin);
      newQueue := queue;
      queue := [];
      NoRequests([]);
    }
  }

  type QueueNameMap = map<Str, RequestQueueData>

  class RequestQueueIntf {
    var requestQueueSet: map<Str, QueueNameMap>
    var calls: seq<Call>      // every handler call made

    ghost function Repr(): set<RequestQueueData>
      reads this`requestQueueSet
    {
      set t, n | t in requestQueueSet && n in requestQueueSet[t] :: requestQueueSet[t][n]
    }

    /** Every topic has its default queue; every queue is filed under its own topic and name. */
    ghost predicate Filed()
      reads this`requestQueueSet
    {
      && (forall t :: t in requestQueueSet ==> DEFAULT in requestQueueSet[t])
      && (forall t, n :: t in requestQueueSet && n in requestQueueSet[t] ==>
            requestQueueSet[t][n].topic == t && requestQueueSet[t][n].name == n)
    }

    ghost predicate Valid()
      reads this`requestQueueSet, Repr()
    {
      Filed() && forall d :: d in Repr() ==> d.Valid()
    }

    ghost function Places(): set<(Str, Str)>
      reads this`requestQueueSet
    {
      set t, n | t in requestQueueSet && n in requestQueueSet[t] :: (t, n)
    }

    ghost function Model(): Contents
      reads this`requestQueueSet, Repr()
    {
      map k | k in Places() :: requestQueueSet[k.0][k.1].g
    }

    lemma MatchInModel(topic: Str, name: Str)
      requires Filed()
      ensures var d, k := Match(topic, name), (topic, name);
              && (k in Model() <==> d != null)
              && (d != null ==> Model()[k] == d.g && d.topic == topic && d.name == name)
    {
    }

    lemma ModelKeys()
      requires Valid()
      ensures TopicsOf(Model()) == requestQueueSet.Keys
      ensures forall t :: t in requestQueueSet ==> NamesOf(Model(), t) == requestQueueSet[t].Keys
    {
      forall t | t in requestQueueSet
        ensures t in TopicsOf(Model()) && NamesOf(Model(), t) == requestQueueSet[t].Keys
      {
        assert (t, DEFAULT) in Places();
        assert forall n :: n in requestQueueSet[t] ==> (t, n) in Places();
      }
    }

    /** When one queue changes, that is what changes in the model. */
    twostate lemma OneQueueChanged(d: RequestQueueData)
      requires old(Valid()) && requestQueueSet == old(requestQueueSet) && d in old(Repr()) && d.Valid()
      requires forall e :: e in Repr() && e != d ==> unchanged(e)
      ensures Valid() && (d.topic, d.name) in old(Model())
      ensures Model() == old(Model())[(d.topic, d.name) := d.g]
    {
      hide Final, ValidRun;
      assert (d.topic, d.name) in Places();
      ghost var m := old(Model())[(d.topic, d.name) := d.g];
      assert Model().Keys == m.Keys;
      forall k | k in m
        ensures Model()[k] == m[k]
      {
        assert requestQueueSet[k.0][k.1] in Repr();
      }
    }

    constructor ()
      ensures Valid() && requestQueueSet == map[] && calls == []
    {
      requestQueueSet, calls := map[], [];
    }

    /** The queue filed under topic and name, or null when there is none. */
    function Match(topic: Str, queueName: Str): (d: RequestQueueData?)
      requires Filed()
      reads this`requestQueueSet
      ensures d != null ==> d in Repr() && d.topic == topic && d.name == queueName
      ensures d == null ==> forall e :: e in Repr() ==> e.topic != topic || e.name != queueName
    {
      if topic in requestQueueSet && queueName in requestQueueSet[topic]
      then requestQueueSet[topic][queueName] else null
    }

    /** The topic now has the queues it had and the named ones, those that are new being empty; other topics are as before. */
    ghost predicate Extends(before: map<Str, QueueNameMap>, topic: Str, names: set<Str>)
      reads this`requestQueueSet, Repr()
    {
      var had: QueueNameMap := if topic in before then before[topic] else map[];
      && topic in requestQueueSet && requestQueueSet == before[topic := requestQueueSet[topic]]
      && var has := requestQueueSet[topic];
      && has.Keys == had.Keys + names
      && forall n :: n in has ==> if n in had then has[n] == had[n] else has[n].g == EMPTY
    }

    /** A topic's map is inserted or extended. */
    method Install(topic: Str, queues: QueueNameMap)
      requires Valid() && DEFAULT in queues
      requires forall n :: n in queues ==> queues[n].topic == topic && queues[n].name == n && queues[n].Valid()
      modifies this`requestQueueSet
      ensures Valid() && requestQueueSet == old(requestQueueSet)[topic := queues]
    {
      hide Final, ValidRun;
      requestQueueSet := requestQueueSet[topic := queues];
      forall d | d in Repr()
        ensures d.Valid()
      {
        assert d in old(Repr()) || (d.name in queues && queues[d.name] == d);
      }
    }

    /** The queues a new topic starts with: the one asked for and the default one. */
    static method NewQueues(topic: Str, queueName: Str) returns (queueNameMap: QueueNameMap)
      ensures queueNameMap.Keys == {queueName, DEFAULT}
      ensures forall n :: n in queueNameMap ==>
                && fresh(queueNameMap[n]) && queueNameMap[n].Valid() && queueNameMap[n].g == EMPTY
                && queueNameMap[n].topic == topic && queueNameMap[n].name == n
    {
      hide Final, ValidRun;
      var requestQueueData := new RequestQueueData(topic, queueName);
      queueNameMap := map[queueName := requestQueueData];
      var defaultQueueData := new RequestQueueData(topic, DEFAULT);
      if DEFAULT !in queueNameMap {
        queueNameMap := queueNameMap[DEFAULT := defaultQueueData];
      }
    }

    /** registerQueue(topic, queueName): nothing registered is replaced. */
    method RegisterQueue(topic: Str, queueName: Str)
      requires Valid()
      modifies this`requestQueueSet
      ensures Valid() && Extends(old(requestQueueSet), topic, {queueName, DEFAULT})
    {
      hide Final, ValidRun;
      if topic !in requestQueueSet {
        var queueNameMap := NewQueues(topic, queueName);
        Install(topic, queueNameMap);
      } else if queueName !in requestQueueSet[topic] {
        AddQueue(topic, queueName);
      }
    }

    /** One more queue for a topic. */
    method AddQueue(topic: Str, queueName: Str)
      requires Valid() && topic in requestQueueSet && queueName !in requestQueueSet[topic]
      modifies this`requestQueueSet
      ensures Valid() && Extends(old(requestQueueSet), topic, {queueName, DEFAULT})
    {
      hide Final, ValidRun, RequestsIn, Extends;
      QueuesOfTopic(topic);
      ghost var before := requestQueueSet;
      var requestQueueData := new RequestQueueData(topic, queueName);
      Install(topic, requestQueueSet[topic][queueName := requestQueueData]);
      ExtendsByOne(before, topic, queueName);
    }

    lemma ExtendsByOne(before: map<Str, QueueNameMap>, topic: Str, n: Str)
      requires topic in before && topic in requestQueueSet && n in requestQueueSet[topic]
      requires DEFAULT in before[topic] && n !in before[topic] && requestQueueSet[topic][n].g == EMPTY
      requires requestQueueSet == before[topic := before[topic][n := requestQueueSet[topic][n]]]
      ensures Extends(before, topic, {n, DEFAULT})
    {
    }

    lemma QueuesOfTopic(topic: Str)
      requires Valid() && topic in requestQueueSet
      ensures var queues := requestQueueSet[topic];
              && DEFAULT in queues
              && forall n :: n in queues ==> queues[n] in Repr() && queues[n].topic == topic && queues[n].name == n && queues[n].Valid()
    {
    }

    method RegisterTopic(topic: Str)
      requires Valid()
      modifies this`requestQueueSet
      ensures Valid() && Extends(old(requestQueueSet), topic, {DEFAULT})
    {
      hide Final, ValidRun;
      if topic !in requestQueueSet {
        var defaultQueueData := new RequestQueueData(topic, DEFAULT);
        Install(topic, map[DEFAULT := defaultQueueData]);
      }
    }

    /** The first handler of a name stays; without the queue nothing is registered. */
    method RegisterQueueHandler(topic: Str, queueName: Str, requestName: Str, handler: Handler)
      requires Valid()
      modifies Repr()
      ensures Valid()
      ensures var m, k := old(Model()), (topic, queueName);
              Model() == if k in m then m[k := After(m[k], Register(requestName, handler))] else m
    {
      hide After, Final, ValidRun, Model;
      MatchInModel(topic, queueName);
      var requestQueueData := Match(topic, queueName);
      if requestQueueData != null {
        requestQueueData.AddHandler(requestName, handler);
        OneQueueChanged(requestQueueData);
      }
    }

    method PushRequest(topicName: Str, queueName: Str, request: Request) returns (ok: bool)
      requires Valid()
      modifies Repr()
      ensures Valid()
      ensures var m, k := old(Model()), (topicName, queueName);
              ok == (k in m) && Model() == if ok then m[k := After(m[k], Push(request))] else m
    {
      hide After, Final, ValidRun, Model;
      MatchInModel(topicName, queueName);
      var queueData := Match(topicName, queueName);
      if queueData == null {
        return false;
      }
      queueData.PushBack(request);
      OneQueueChanged(queueData);
      ok := true;
    }

    /** The source dereferences what match returned. */
    method ClearQueue(topic: Str, queueName: Str)
      requires Valid() && Match(topic, queueName) != null
      modifies Repr()
      ensures Valid()
      ensures var m, k := old(Model()), (topic, queueName);
              k in m && Model() == m[k := After(m[k], Clear)]
    {
      hide After, Final, ValidRun, Model;
      MatchInModel(topic, queueName);
      var d := Match(topic, queueName);
      d.ClearQueue();
      OneQueueChanged(d);
    }

    /** The queues and the calls made. */
    ghost function Now(): World
      reads this, Repr()
    {
      World(Model(), calls)
    }

    /** What handlers and other threads do between two dispatches; a queue that is not there is left alone. */
    method PerformAll(todo: seq<Action>)
      requires Valid() && Quiet(todo)
      modifies Repr()
      ensures Valid() && Model() == ActAll(old(Model()), todo)
    {
      hide Valid, Repr, Model, After;
      assert todo[..0] == [];
      for i := 0 to |todo|
        invariant Valid() && Model() == ActAll(old(Model()), todo[..i])
      {
        assert !todo[i].step.Begin? && !todo[i].step.Dispatch?;
        assert todo[..i + 1][..i] == todo[..i];
        PerformOne(todo[i]);
      }
      assert todo[..|todo|] == todo;
    }

    method PerformOne(a: Action)
      requires Valid() && !a.step.Begin? && !a.step.Dispatch?
      modifies Repr()
      ensures Valid() && Model() == Act(old(Model()), a)
    {
      hide After, Final, ValidRun, Model;
      MatchInModel(a.at.0, a.at.1);
      if a.step.Register? {
        RegisterQueueHandler(a.at.0, a.at.1, a.step.name, a.step.handler);
      } else if a.step.Push? {
        var ok := PushRequest(a.at.0, a.at.1, a.step.request);
      } else if Match(a.at.0, a.at.1) != null {
        ClearQueue(a.at.0, a.at.1);
      }
    }

    /** The start of a drain. */
    method BeginDrain(d: RequestQueueData) returns (newQueue: seq<Request>)
      requires Valid() && d in Repr()
      modifies Repr()
      ensures Valid() && var k := (d.topic, d.name);
              && k in old(Model()) && Now() == Starting(old(Now()), k)
              && newQueue == RequestsIn(old(Model()[k].queue))
    {
      hide Final, ValidRun, Model, RequestsIn;
      InModel(d);
      newQueue := d.TakeQueue();
      OneQueueChanged(d);
    }

    /** The loop body: the handler of the name is called, if there is one. */
    method DispatchFront(topicName: Str, d: RequestQueueData, ghost own: nat, request: Request) returns (called: nat)
      requires Valid() && d in Repr() && d.topic == topicName && Enabled(d.g, Dispatch(own)) && d.g.drains[own][0].request == request
      modifies this`calls, Repr()
      ensures Valid() && var k := (d.topic, d.name);
              && k in old(Model()) && Enabled(old(Model())[k], Dispatch(own))
              && Now() == DispatchOne(old(Now()), k, own)
      ensures called == |calls| - |old(calls)|
    {
      hide Final, ValidRun, RequestsIn, Model;
      InModel(d);
      called := 0;
      d.Step(Dispatch(own));
      if request.name in d.handlers {
        calls := calls + [Call(d.handlers[request.name], topicName, d.name, request)];
        called := 1;
      }
      OneQueueChanged(d);
    }

    /**
     The drain of one queue; the two branches on handleAll run the same loop. What
     handlers and other threads do meanwhile, to this queue or to others, follows
     the script.
     */
    method HandleRequestQueueData(topicName: Str, d: RequestQueueData?, handleAll: bool, script: Script)
      returns (size: nat)
      requires Valid() && (d != null ==> d in Repr() && d.topic == topicName) && QuietScript(script)
      modifies this`calls, Repr()
      ensures Valid()
      ensures Now() == if d == null then old(Now()) else Drain(old(Now()), (topicName, d.name), script)
      ensures size == |calls| - |old(calls)|
    {
      hide Valid, Repr, Model, RequestsIn, DrainLoop, DispatchOne;
      size := 0;
      if d != null {
        var k := (topicName, d.name);
        ghost var end := Drain(Now(), k, script);
        InModel(d);
        ghost var own := |d.g.drains|;
        var newQueue := BeginDrain(d);
        InModel(d);
        var n := 0;
        while newQueue != []
          invariant Valid() && d in Repr() && k in Model() && Model()[k] == d.g
          invariant own < |d.g.drains| && newQueue == RequestsIn(d.g.drains[own])
          invariant DrainLoop(Now(), k, own, script, n) == end
          invariant size == |calls| - |old(calls)|
          decreases |newQueue|
        {
          DrainLoopStep(Now(), k, own, script, n);
          FrontRequest(d.g.drains[own]);
          NoRequests(d.g.drains[own]);
          assert Quiet(script(k, n));
          var called := DispatchFront(topicName, d, own, newQueue[0]);
          newQueue := newQueue[1..];
          size := size + called;
          PerformAll(script(k, n));
          InModel(d);
          n := n + 1;
        }
        NoRequests(d.g.drains[own]);
        DrainLoopStep(Now(), k, own, script, n);
      }
    }

    lemma InModel(d: RequestQueueData)
      requires Valid() && d in Repr()
      ensures var k := (d.topic, d.name); k in Model() && Model()[k] == d.g
    {
      assert (d.topic, d.name) in Places();
    }

    method HandleRequestQueue(topicName: Str, queueName: Str, handleAll: bool, script: Script) returns (size: nat)
      requires Valid() && QuietScript(script)
      modifies this`calls, Repr()
      ensures Valid() && Now() == Drain(old(Now()), (topicName, queueName), script)
      ensures size == |calls| - |old(calls)|
    {
      hide Final, ValidRun, DrainLoop, Model;
      MatchInModel(topicName, queueName);
      var d := Match(topicName, queueName);
      size := HandleRequestQueueData(topicName, d, handleAll, script);
    }

    /** The queues of one topic, in the order of their names. */
    method HandleTopic(topic: Str, handleAll: bool, script: Script) returns (size: nat)
      requires Valid() && topic in requestQueueSet && QuietScript(script)
      modifies this`calls, Repr()
      ensures Valid()
      ensures var names := Ascending(NamesOf(old(Model()), topic));
              Now() == DrainAll(old(Now()), PlacesFor(topic, names), script)
      ensures size == |calls| - |old(calls)|
    {
      hide Valid, Repr, Model, Drain, DrainAll, Ascending, NamesOf;
      ghost var w := Now();
      ModelKeys();
      var names := InOrder(requestQueueSet[topic].Keys);
      ghost var places := PlacesFor(topic, names);
      DrainNone(w, script);
      assert places[..0] == [];
      size := 0;
      for i := 0 to |names|
        invariant Valid() && Now() == DrainAll(w, places[..i], script)
        invariant size == |calls| - |old(calls)|
      {
        DrainNext(w, places, i, script);
        var n := HandleRequestQueue(topic, names[i], handleAll, script);
        size := size + n;
      }
      assert places[..|names|] == places;
    }

    /** A full round. True means that some handler was called. */
    method HandleRequestQueues(handleAll: bool, script: Script) returns (handled: bool)
      requires Valid() && QuietScript(script)
      modifies this`calls, Repr()
      ensures Valid() && Now() == DrainAll(old(Now()), RoundOf(old(Model())), script)
      ensures handled <==> |calls| > |old(calls)|
    {
      hide Valid, Repr, Model, DrainAll, Ascending, NamesOf, TopicsOf, PlacesOf;
      ghost var w := Now();
      ModelKeys();
      var topics := InOrder(requestQueueSet.Keys);
      NowhereToGo(w, script);
      assert topics[..0] == [];
      var size := 0;
      for i := 0 to |topics|
        invariant Valid() && Model().Keys == w.m.Keys && Now() == DrainAll(w, PlacesOf(w.m, topics[..i]), script)
        invariant size == |calls| - |old(calls)|
      {
        assert topics[i] in topics;
        NextTopic(w, topics, i, script);
        SameNames(Model(), w.m, topics[i]);
        ghost var v := Now();
        var n := HandleTopic(topics[i], handleAll, script);
        KeysStay(v, PlacesFor(topics[i], Ascending(NamesOf(w.m, topics[i]))), script);
        size := size + n;
      }
      assert topics[..|topics|] == topics;
      handled := size > 0;
    }
  }

  lemma DrainNone(w: World, script: Script)
    requires QuietScript(script)
    ensures DrainAll(w, [], script) == w
  {
  }

  lemma DrainNext(w: World, places: seq<Place>, i: nat, script: Script)
    requires i < |places| && QuietScript(script)
    ensures DrainAll(w, places[..i + 1], script) == Drain(DrainAll(w, places[..i], script), places[i], script)
  {
    hide Drain;
    assert places[..i + 1][..i] == places[..i];
  }

  lemma NowhereToGo(w: World, script: Script)
    requires QuietScript(script)
    ensures DrainAll(w, PlacesOf(w.m, []), script) == w
  {
  }

  lemma NextTopic(w: World, topics: seq<Str>, i: nat, script: Script)
    requires i < |topics| && QuietScript(script)
    ensures var ks := PlacesFor(topics[i], Ascending(NamesOf(w.m, topics[i])));
            DrainAll(w, PlacesOf(w.m, topics[..i + 1]), script)
            == DrainAll(DrainAll(w, PlacesOf(w.m, topics[..i]), script), ks, script)
  {
    hide DrainAll, Ascending, NamesOf;
    assert topics[..i + 1][..i] == topics[..i];
    DrainAllConcat(w, PlacesOf(w.m, topics[..i]), PlacesFor(topics[i], Ascending(NamesOf(w.m, topics[i]))), script);
  }

  lemma SameNames(m: Contents, n: Contents, topic: Str)
    requires m.Keys == n.Keys
    ensures NamesOf(m, topic) == NamesOf(n, topic)
  {
  }

  lemma KeysStay(w: World, places: seq<Place>, script: Script)
    requires QuietScript(script)
    ensures DrainAll(w, places, script).m.Keys == w.m.Keys
  {
    if k :| k in w.m {
      RoundTells(w, places, script, k);
    } else {
      EmptyStays(w, places, script);
    }
  }

  lemma {:induction false} EmptyStays(w: World, places: seq<Place>, script: Script)
    requires QuietScript(script) && w.m == map[]
    ensures DrainAll(w, places, script) == w
    decreases |places|
  {
    if places != [] {
      EmptyStays(w, places[..|places| - 1], script);
    }
  }
}
