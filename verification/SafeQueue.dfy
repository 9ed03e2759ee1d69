/**
 SafeQueue<T> (SafeQueue.h) as a concurrent step system. A step is one section
 executed under mMutex: a whole push, tryPop or terminate, or the part of pop
 between acquiring the lock and either returning or going to sleep in
 mCondition.wait.
 */
module SafeQueues {
  import opened Common

  type Tid = nat

  /** Threads in none of the three sets are outside pop. */
  datatype State<T> = State(
    queue: seq<T>,
    terminated: bool,
    asleep: set<Tid>,     // blocked in wait, not notified
    notified: set<Tid>,   // chosen by a notify_one, lock not yet reacquired
    spurious: set<Tid>,   // woken without a notify, lock not yet reacquired
    pushed: seq<T>,       // history: items accepted by push
    popped: seq<T>)       // history: items handed out

  datatype Step<T> =
    | Push(item: T, chosen: Option<Tid>)
    | Enter(c: Tid)
    | Resume(c: Tid)
    | WakeSpuriously(c: Tid)
    | TryPop
    | Terminate(chosen: Option<Tid>)

  function Initial<T>(): State<T> {
    State([], false, {}, {}, {}, [], [])
  }

  /** notify_one may pick any sleeper and picks one if there is one. */
  predicate MayNotify<T>(s: State<T>, chosen: Option<Tid>) {
    match chosen
    case None => s.asleep == {}
    case Some(c) => c in s.asleep
  }

  function Notify<T>(s: State<T>, chosen: Option<Tid>): State<T> {
    match chosen
    case None => s
    case Some(c) => s.(asleep := s.asleep - {c}, notified := s.notified + {c})
  }

  predicate Enabled<T>(s: State<T>, step: Step<T>) {
    match step
    case Push(_, chosen) => if s.terminated then chosen == None else MayNotify(s, chosen)
    case Enter(c) => c !in s.asleep + s.notified + s.spurious
    case Resume(c) => c in s.notified + s.spurious
    case WakeSpuriously(c) => c in s.asleep
    case TryPop => true
    case Terminate(chosen) => if s.terminated then chosen == None else MayNotify(s, chosen)
  }

  function TakeFront<T>(s: State<T>): State<T>
    requires s.queue != []
  {
    s.(queue := s.queue[1..], popped := s.popped + [s.queue[0]])
  }

  /** The loop test of pop and what follows it, for a thread that holds the lock. */
  function PopSection<T>(s: State<T>, c: Tid): State<T> {
    if s.queue == [] && !s.terminated then s.(asleep := s.asleep + {c})
    else if s.terminated then s
    else TakeFront(s)
  }

  function After<T>(s: State<T>, step: Step<T>): State<T>
    requires Enabled(s, step)
  {
    match step
    case Push(item, chosen) =>
      if s.terminated then s
      else Notify(s.(queue := s.queue + [item], pushed := s.pushed + [item]), chosen)
    case Enter(c) => PopSection(s, c)
    case Resume(c) => PopSection(s.(notified := s.notified - {c}, spurious := s.spurious - {c}), c)
    case WakeSpuriously(c) => s.(asleep := s.asleep - {c}, spurious := s.spurious + {c})
    case TryPop => if s.queue == [] || s.terminated then s else TakeFront(s)
    case Terminate(chosen) => if s.terminated then s else Notify(s.(terminated := true), chosen)
  }

  ghost predicate ValidRun<T>(s: State<T>, steps: seq<Step<T>>)
    decreases |steps|
  {
    steps == [] || (Enabled(s, steps[0]) && ValidRun(After(s, steps[0]), steps[1..]))
  }

  ghost function Final<T>(s: State<T>, steps: seq<Step<T>>): State<T>
    requires ValidRun(s, steps)
    decreases |steps|
  {
    if steps == [] then s else Final(After(s, steps[0]), steps[1..])
  }

  // -------------------------------------------------------------- invariants

  ghost predicate Disjoint<T>(s: State<T>) {
    s.asleep !! s.notified && s.asleep !! s.spurious && s.notified !! s.spurious
  }

  ghost predicate Inv<T>(s: State<T>) {
    && Disjoint(s)
    && (!s.terminated && s.asleep != {} ==> |s.queue| <= |s.notified|)
    && s.pushed == s.popped + s.queue
  }

  /** A notification pays for one queued item, as long as anybody still sleeps. */
  lemma NotifyCoversOneItem<T>(s: State<T>, chosen: Option<Tid>)
    requires Disjoint(s) && MayNotify(s, chosen) && s.pushed == s.popped + s.queue
    requires !s.terminated && s.asleep != {} ==> |s.queue| <= |s.notified| + 1
    ensures Inv(Notify(s, chosen))
  {
    if chosen.Some? {
      assert |s.notified + {chosen.value}| == |s.notified| + 1;
    }
  }

  lemma TakeFrontKeepsOrder<T>(s: State<T>)
    requires s.queue != [] && s.pushed == s.popped + s.queue
    ensures TakeFront(s).pushed == TakeFront(s).popped + TakeFront(s).queue
  {
    assert s.queue == [s.queue[0]] + s.queue[1..];
  }

  /** A thread that ran away from the notified set takes the item it was notified for, if any. */
  lemma PopSectionKeepsInv<T>(s: State<T>, c: Tid)
    requires Disjoint(s) && c !in s.asleep + s.notified + s.spurious && s.pushed == s.popped + s.queue
    requires !s.terminated && s.asleep != {} ==> |s.queue| <= |s.notified| + 1
    ensures Inv(PopSection(s, c))
  {
    if s.queue != [] {
      TakeFrontKeepsOrder(s);
    }
  }

  lemma ResumeKeepsInv<T>(s: State<T>, c: Tid)
    requires Inv(s) && Enabled(s, Resume(c))
    ensures Inv(After(s, Resume(c)))
  {
    var t := s.(notified := s.notified - {c}, spurious := s.spurious - {c});
    assert |s.notified| <= |t.notified| + 1 by {
      if c in s.notified {
        assert |s.notified - {c}| == |s.notified| - 1;
      } else {
        assert s.notified - {c} == s.notified;
      }
    }
    PopSectionKeepsInv(t, c);
  }

  lemma StepKeepsInv<T>(s: State<T>, step: Step<T>)
    requires Inv(s) && Enabled(s, step)
    ensures Inv(After(s, step))
  {
    match step
    case Push(item, chosen) =>
      if !s.terminated {
        var t := s.(queue := s.queue + [item], pushed := s.pushed + [item]);
        assert s.popped + s.queue + [item] == s.popped + (s.queue + [item]);
        NotifyCoversOneItem(t, chosen);
      }
    case Enter(c) =>
      PopSectionKeepsInv(s, c);
    case Resume(c) =>
      ResumeKeepsInv(s, c);
    case WakeSpuriously(c) =>
    case TryPop =>
      if s.queue != [] {
        TakeFrontKeepsOrder(s);
      }
    case Terminate(chosen) =>
      if !s.terminated {
        NotifyCoversOneItem(s.(terminated := true), chosen);
      }
  }

  lemma {:induction false} RunKeepsInv<T>(s: State<T>, steps: seq<Step<T>>)
    requires Inv(s) && ValidRun(s, steps)
    ensures Inv(Final(s, steps))
    decreases |steps|
  {
    if steps != [] {
      StepKeepsInv(s, steps[0]);
      RunKeepsInv(After(s, steps[0]), steps[1..]);
    }
  }

  /**
   No lost wakeup, over every interleaving: while somebody sleeps un-notified,
   a queued item has a notified consumer on its way to it.
   */
  lemma NoLostWakeup<T>(steps: seq<Step<T>>)
    requires ValidRun(Initial(), steps)
    ensures var s := Final(Initial(), steps);
            !s.terminated && s.asleep != {} ==> |s.queue| <= |s.notified|
  {
    RunKeepsInv(Initial(), steps);
  }

  // ------------------------------------------------------ read off the steps

  predicate Closed<T>(steps: seq<Step<T>>) {
    exists i :: 0 <= i < |steps| && steps[i].Terminate?
  }

  /** The items of the pushes before the first terminate, in order. */
  function Accepted<T>(steps: seq<Step<T>>): seq<T> {
    if steps == [] then []
    else
      var before, last := steps[..|steps| - 1], steps[|steps| - 1];
      Accepted(before) + if last.Push? && !Closed(before) then [last.item] else []
  }

  predicate Asks<T>(step: Step<T>) {
    step.Enter? || step.Resume? || step.TryPop?
  }

  /** How many items have been handed out: one for every asking step that found one left and no terminate before it. */
  function HandedOut<T>(steps: seq<Step<T>>): (n: nat)
    ensures n <= |Accepted(steps)|
  {
    if steps == [] then 0
    else
      var before, last := steps[..|steps| - 1], steps[|steps| - 1];
      HandedOut(before) + if Asks(last) && !Closed(before) && HandedOut(before) < |Accepted(before)| then 1 else 0
  }

  lemma {:induction false} RunSnoc<T>(s: State<T>, steps: seq<Step<T>>, last: Step<T>)
    requires ValidRun(s, steps + [last])
    ensures ValidRun(s, steps) && Enabled(Final(s, steps), last)
    ensures Final(s, steps + [last]) == After(Final(s, steps), last)
    decreases |steps|
  {
    hide After, Enabled;
    var all := steps + [last];
    if steps == [] {
      assert all[1..] == [];
    } else {
      assert all[1..] == steps[1..] + [last];
      RunSnoc(After(s, steps[0]), steps[1..], last);
    }
  }

  /** The state of the queue as the steps tell it. */
  ghost predicate Told<T>(s: State<T>, accepted: seq<T>, handed: nat, closed: bool) {
    && s.terminated == closed && handed <= |accepted|
    && s.popped == accepted[..handed] && s.queue == accepted[handed..]
  }

  lemma StepTells<T>(s: State<T>, step: Step<T>, accepted: seq<T>, handed: nat, closed: bool)
    requires Enabled(s, step) && Told(s, accepted, handed, closed)
    ensures var takes := Asks(step) && !closed && handed < |accepted|;
            && Told(After(s, step), accepted + (if step.Push? && !closed then [step.item] else []),
                    handed + (if takes then 1 else 0), closed || step.Terminate?)
            && After(s, step).popped == s.popped + (if takes then [accepted[handed]] else [])
  {
    if step.Push? && !closed {
      PushTells(accepted, handed, step.item);
    } else if Asks(step) && !closed && handed < |accepted| {
      assert accepted[..handed + 1] == accepted[..handed] + [accepted[handed]];
      assert accepted[handed..][1..] == accepted[handed + 1..] && accepted + [] == accepted;
    } else {
      assert accepted + [] == accepted;
    }
  }

  lemma PushTells<T>(accepted: seq<T>, handed: nat, item: T)
    requires handed <= |accepted|
    ensures (accepted + [item])[..handed] == accepted[..handed]
    ensures (accepted + [item])[handed..] == accepted[handed..] + [item]
  {
  }

  lemma ClosedSnoc<T>(steps: seq<Step<T>>, last: Step<T>)
    ensures Closed(steps + [last]) <==> Closed(steps) || last.Terminate?
  {
    var all := steps + [last];
    assert all[|steps|] == last && forall i :: 0 <= i < |steps| ==> all[i] == steps[i];
  }

  /**
   First in, first out, over every interleaving: what was handed out and then what
   is queued is what was pushed before the first terminate, in order; and how much
   of it is out is a matter of the steps alone.
   */
  lemma {:induction false} FirstInFirstOut<T>(steps: seq<Step<T>>)
    requires ValidRun(Initial(), steps)
    ensures var s := Final(Initial(), steps);
            && s.terminated == Closed(steps)
            && s.popped == Accepted(steps)[..HandedOut(steps)]
            && s.queue == Accepted(steps)[HandedOut(steps)..]
    decreases |steps|
  {
    hide ValidRun, Final, After, Enabled;
    if steps == [] {
      NoSteps(Initial<T>());
    } else {
      var before, last := steps[..|steps| - 1], steps[|steps| - 1];
      assert before + [last] == steps;
      RunSnoc(Initial(), before, last);
      FirstInFirstOut(before);
      ClosedSnoc(before, last);
      hide Closed;
      StepTells(Final(Initial(), before), last, Accepted(before), HandedOut(before), Closed(before));
    }
  }

  lemma NoSteps<T>(s: State<T>)
    ensures ValidRun(s, []) && Final(s, []) == s
  {
  }

  /** A step hands out the next accepted item exactly when it asks, one is left, and nothing was terminated before. */
  lemma NextIsHandedOut<T>(steps: seq<Step<T>>, last: Step<T>)
    requires ValidRun(Initial(), steps + [last])
    ensures ValidRun(Initial(), steps)
    ensures var k, accepted := HandedOut(steps), Accepted(steps);
            var was, now := Final(Initial(), steps).popped, Final(Initial(), steps + [last]).popped;
            now == was + if Asks(last) && !Closed(steps) && k < |accepted| then [accepted[k]] else []
  {
    hide ValidRun, Final, After, Enabled, Closed, Accepted, HandedOut;
    RunSnoc(Initial(), steps, last);
    FirstInFirstOut(steps);
    StepTells(Final(Initial(), steps), last, Accepted(steps), HandedOut(steps), Closed(steps));
  }

  // -------------------------------------------------------------- termination

  /** The first terminate frees every sleeper exactly when there was at most one. */
  lemma TerminateFreesAtMostOne<T>(s: State<T>, chosen: Option<Tid>)
    requires !s.terminated && Enabled(s, Terminate(chosen))
    ensures After(s, Terminate(chosen)).asleep == {} <==> |s.asleep| <= 1
  {
    var rest := After(s, Terminate(chosen)).asleep;
    match chosen
    case None =>
    case Some(c) =>
      assert rest == s.asleep - {c};
      assert |rest| == |s.asleep| - 1;
      if |s.asleep| <= 1 {
        assert |rest| == 0;
      }
  }

  /** The sleepers it leaves stay asleep in every continuation: pushes no longer notify anybody. */
  lemma {:induction false} OverlookedSleepersStayAsleep<T>(s: State<T>, steps: seq<Step<T>>)
    requires s.terminated && ValidRun(s, steps)
    requires forall i :: 0 <= i < |steps| ==> !steps[i].WakeSpuriously?
    ensures Final(s, steps).terminated && Final(s, steps).asleep == s.asleep
    decreases |steps|
  {
    if steps != [] {
      OverlookedSleepersStayAsleep(After(s, steps[0]), steps[1..]);
    }
  }

  /** Only thread c ever calls pop. */
  ghost predicate SingleConsumer<T>(steps: seq<Step<T>>, c: Tid) {
    forall i :: 0 <= i < |steps| ==> steps[i].Enter? ==> steps[i].c == c
  }

  ghost predicate OnlyInside<T>(s: State<T>, c: Tid) {
    && s.asleep + s.notified + s.spurious <= {c}
    && (s.terminated ==> s.asleep == {})
  }

  lemma {:induction false} SingleConsumerInvariant<T>(s: State<T>, steps: seq<Step<T>>, c: Tid)
    requires ValidRun(s, steps) && SingleConsumer(steps, c) && OnlyInside(s, c)
    ensures OnlyInside(Final(s, steps), c)
    decreases |steps|
  {
    if steps != [] {
      SingleConsumerInvariant(After(s, steps[0]), steps[1..], c);
    }
  }

  /** With one consumer, as the bus has, terminate leaves nobody asleep. */
  lemma TerminateFreesSingleConsumer<T>(steps: seq<Step<T>>, c: Tid)
    requires ValidRun(Initial(), steps) && SingleConsumer(steps, c)
    ensures var s := Final(Initial(), steps);
            s.terminated ==> s.asleep == {}
  {
    SingleConsumerInvariant(Initial(), steps, c);
  }

  /** Two consumers asleep on an empty queue: one stays asleep for ever after terminate. */
  lemma TerminateCanStrandAConsumer()
    ensures exists steps: seq<Step<int>> ::
              && ValidRun(Initial(), steps)
              && Final(Initial(), steps).terminated
              && Final(Initial(), steps).asleep != {}
  {
    var s0: State<int> := Initial();
    var s1 := After(s0, Enter(1));
    var s2 := After(s1, Enter(2));
    var s3 := After(s2, Terminate(Some(1)));
    var steps: seq<Step<int>> := [Enter(1), Enter(2), Terminate(Some(1))];
    assert steps[1..] == [Enter(2), Terminate(Some(1))];
    assert steps[1..][1..] == [Terminate(Some(1))];
    assert steps[1..][1..][1..] == [];
    assert 2 in s3.asleep;
    assert ValidRun(s3, []) && Final(s3, []) == s3;
    assert ValidRun(s2, steps[1..][1..]) && Final(s2, steps[1..][1..]) == s3;
    assert ValidRun(s1, steps[1..]) && Final(s1, steps[1..]) == s3;
    assert ValidRun(s0, steps) && Final(s0, steps) == s3;
  }

  // --------------------------------------------------------------- the object

  lemma PopSectionMoves<T>(s: State<T>, c: Tid)
    requires c !in s.asleep
    ensures var n := PopSection(s, c);
            && n.terminated == s.terminated && n.notified == s.notified && n.spurious == s.spurious
            && n.queue == (if s.terminated || s.queue == [] then s.queue else s.queue[1..])
            && n.asleep == s.asleep + (if !s.terminated && s.queue == [] then {c} else {})
  {
  }

  lemma Outside(threads: set<Tid>, c: Tid)
    requires c !in threads
    ensures threads - {c} == threads && threads + {c} - {c} == threads
  {
  }

  /** What one locked section of pop does to queue, flag and threads. */
  lemma PopMoves<T>(s: State<T>, step: Step<T>, c: Tid)
    requires Disjoint(s) && Enabled(s, step) && (step == Enter(c) || step == Resume(c))
    ensures var n := After(s, step);
            && n.terminated == s.terminated
            && n.queue == (if s.terminated || s.queue == [] then s.queue else s.queue[1..])
            && n.notified == s.notified - {c} && n.spurious == s.spurious - {c}
            && n.asleep - {c} == s.asleep && (c in n.asleep <==> !s.terminated && s.queue == [])
  {
    hide PopSection;
    assert c !in s.asleep;
    Outside(s.asleep, c);
    if step.Enter? {
      Outside(s.notified, c);
      Outside(s.spurious, c);
      PopSectionMoves(s, c);
    } else {
      PopSectionMoves(s.(notified := s.notified - {c}, spurious := s.spurious - {c}), c);
    }
  }

  datatype PopOutcome<T> = Waits | Ended | Got(item: T)

  /** The queue itself; the thread sets are those of mCondition. */
  class SafeQueue<T> {
    var mQueue: seq<T>
    var isTerminate: bool
    ghost var sync: State<T>

    /** The ghost state describes this object. */
    ghost predicate Valid()
      reads this
    {
      sync.queue == mQueue && sync.terminated == isTerminate && Inv(sync)
    }

    constructor ()
      ensures Valid() && sync == Initial()
    {
      mQueue, isTerminate, sync := [], false, Initial();
    }

    /** One sleeper, if any is chosen, has been notified; no other thread is affected. */
    ghost predicate Wakes(before: State<T>, chosen: Option<Tid>)
      reads this
    {
      var woken := if chosen.Some? then {chosen.value} else {};
      && sync.asleep == before.asleep - woken && sync.notified == before.notified + woken
      && sync.spurious == before.spurious && woken <= before.asleep
    }

    method Push(item: T, ghost chosen: Option<Tid>) returns (ok: bool)
      requires Valid() && Enabled(sync, Step.Push(item, chosen))
      modifies this
      ensures Valid() && sync == After(old(sync), Step.Push(item, chosen))
      ensures ok == !old(isTerminate) && isTerminate == old(isTerminate)
      ensures mQueue == old(mQueue) + (if ok then [item] else [])
      ensures Wakes(old(sync), if ok then chosen else None)
    {
      StepKeepsInv(sync, Step.Push(item, chosen));
      sync := After(sync, Step.Push(item, chosen));
      if isTerminate {
        return false;
      }
      mQueue := mQueue + [item];
      ok := true;
    }

    /** One locked section of pop by thread c: entering, or resuming after a wakeup. */
    method Pop(ghost c: Tid, ghost resumed: bool) returns (outcome: PopOutcome<T>)
      requires Valid() && Enabled(sync, if resumed then Resume(c) else Enter(c))
      modifies this
      ensures Valid() && sync == After(old(sync), if resumed then Resume(c) else Enter(c))
      ensures outcome == if old(isTerminate) then Ended
                         else if old(mQueue) == [] then Waits
                         else Got(old(mQueue)[0])
      ensures outcome.Waits? <==> c in sync.asleep
      ensures isTerminate == old(isTerminate)
      ensures old(mQueue) == (if outcome.Got? then [outcome.item] else []) + mQueue
      ensures sync.notified == old(sync.notified) - {c} && sync.spurious == old(sync.spurious) - {c}
      ensures sync.asleep - {c} == old(sync.asleep)
    {
      hide After, Enabled;
      ghost var step := if resumed then Resume(c) else Enter(c);
      StepKeepsInv(sync, step);
      PopMoves(sync, step, c);
      sync := After(sync, step);
      if mQueue == [] && !isTerminate {
        return Waits;
      }
      if isTerminate {
        return Ended;
      }
      outcome := Got(mQueue[0]);
      mQueue := mQueue[1..];
    }

    method TryPop() returns (outcome: Option<T>)
      requires Valid()
      modifies this
      ensures Valid() && sync == After(old(sync), Step.TryPop)
      ensures outcome == if old(isTerminate) || old(mQueue) == [] then None else Some(old(mQueue)[0])
      ensures old(mQueue) == (if outcome.Some? then [outcome.value] else []) + mQueue
      ensures isTerminate == old(isTerminate) && Wakes(old(sync), None)
    {
      StepKeepsInv(sync, Step.TryPop);
      sync := After(sync, Step.TryPop);
      if mQueue == [] || isTerminate {
        return None;
      }
      outcome := Some(mQueue[0]);
      mQueue := mQueue[1..];
    }

    method Terminate(ghost chosen: Option<Tid>)
      requires Valid() && Enabled(sync, Step.Terminate(chosen))
      modifies this
      ensures Valid() && sync == After(old(sync), Step.Terminate(chosen)) && isTerminate
      ensures mQueue == old(mQueue) && Wakes(old(sync), if old(isTerminate) then None else chosen)
    {
      StepKeepsInv(sync, Step.Terminate(chosen));
      sync := After(sync, Step.Terminate(chosen));
      if !isTerminate {
        isTerminate := true;
      }
    }
  }
}
