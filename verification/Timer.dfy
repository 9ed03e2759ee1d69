/**
 StackTimer (UdmTimer.cpp). Each section under the mutex, and each execute()
 outside it, is one atomic step; the clock advances between steps. The priority
 queue orders shared pointers, so top() may be any queued timer.
 */
module Timers {
  import opened Common

  type TimerId = nat
  type Entry = nat       // a timerEntry*

  datatype Timer = Timer(obj: Entry, expiration: int)

  datatype State = State(
    created: map<TimerId, Timer>,     // every Timer ever made
    timers: set<TimerId>,             // the priority queue
    timerMap: map<Entry, TimerId>,
    canceled: set<TimerId>,           // m_isCanceled
    due: Option<TimerId>,             // popped by the worker, execute() still to run
    running: bool,
    now: nat,
    fired: seq<(TimerId, nat)>,       // history: callbacks run, with the time
    confirmed: set<TimerId>)          // history: timers for which cancelTimer returned true

  datatype Step =
    | Tick(elapsed: nat)
    | AddTimer(id: TimerId, obj: Entry, delay: int)
    | CancelTimer(obj: Entry)
    | Inspect(top: Option<TimerId>)
    | Execute
    | Stop

  const INITIAL := State(map[], {}, map[], {}, None, true, 0, [], {})

  predicate Enabled(s: State, step: Step) {
    match step
    case AddTimer(id, _, _) => id !in s.created
    case Inspect(top) => s.due == None && (if s.timers == {} then top == None else top.Some? && top.value in s.timers)
    case Execute => s.due.Some?
    case _ => true
  }

  /** The three branches of the worker loop for the timer that top() returned. */
  function InspectTop(s: State, t: TimerId): State
    requires t in s.created
  {
    if t in s.canceled then s.(timers := s.timers - {t})
    else if s.created[t].expiration > s.now then s
    else s.(timers := s.timers - {t}, timerMap := s.timerMap - {s.created[t].obj}, due := Some(t))
  }

  function After(s: State, step: Step): State
    requires Enabled(s, step) && s.timers <= s.created.Keys
  {
    match step
    case Tick(elapsed) => s.(now := s.now + elapsed)
    case AddTimer(id, obj, delay) =>
      if !s.running then s
      else s.(created := s.created[id := Timer(obj, s.now + delay)],
              timers := s.timers + {id},
              timerMap := if obj in s.timerMap then s.timerMap else s.timerMap[obj := id])
    case CancelTimer(obj) =>
      if obj !in s.timerMap then s
      else s.(canceled := s.canceled + {s.timerMap[obj]},
              timerMap := s.timerMap - {obj},
              confirmed := s.confirmed + {s.timerMap[obj]})
    case Inspect(top) => if top == None then s else InspectTop(s, top.value)
    case Execute =>
      var t := s.due.value;
      if t in s.canceled then s.(due := None)
      else s.(due := None, fired := s.fired + [(t, s.now)], canceled := s.canceled + {t})
    case Stop => s.(running := false)
  }

  // ------------------------------------------------------------- the invariant

  /** Every map entry points to a queued, uncancelled timer made for its key. */
  ghost predicate IndexSound(s: State) {
    forall o :: o in s.timerMap ==>
      && s.timerMap[o] in s.timers
      && s.timerMap[o] !in s.canceled
      && s.timerMap[o] in s.created
      && s.created[s.timerMap[o]].obj == o
  }

  ghost predicate FiredSound(s: State) {
    && (forall i :: 0 <= i < |s.fired| ==>
          && s.fired[i].0 in s.created
          && s.created[s.fired[i].0].expiration <= s.fired[i].1
          && s.fired[i].0 in s.canceled
          && s.fired[i].0 !in s.timers
          && s.fired[i].0 !in s.confirmed)
    && (forall i, j :: 0 <= i < j < |s.fired| ==> s.fired[i].0 != s.fired[j].0)
  }

  ghost predicate Inv(s: State) {
    && s.timers <= s.created.Keys
    && s.canceled <= s.created.Keys
    && s.confirmed <= s.canceled
    && IndexSound(s)
    && FiredSound(s)
    && (s.due.Some? ==>
          && s.due.value in s.created
          && s.due.value !in s.timers
          && s.due.value !in s.canceled
          && s.created[s.due.value].expiration <= s.now)
  }

  lemma StepKeepsInv(s: State, step: Step)
    requires Inv(s) && Enabled(s, step)
    ensures Inv(After(s, step))
  {
  }

  ghost predicate ValidRun(s: State, steps: seq<Step>)
    decreases |steps|
  {
    steps == [] || (s.timers <= s.created.Keys && Enabled(s, steps[0]) && ValidRun(After(s, steps[0]), steps[1..]))
  }

  ghost function Final(s: State, steps: seq<Step>): State
    requires ValidRun(s, steps)
    decreases |steps|
  {
    if steps == [] then s else Final(After(s, steps[0]), steps[1..])
  }

  lemma {:induction false} RunKeepsInv(s: State, steps: seq<Step>)
    requires Inv(s) && ValidRun(s, steps)
    ensures Inv(Final(s, steps))
    decreases |steps|
  {
    if steps != [] {
      StepKeepsInv(s, steps[0]);
      RunKeepsInv(After(s, steps[0]), steps[1..]);
    }
  }

  // ------------------------------------------------------ read off the steps

  /** The time that has passed. */
  function Clock(steps: seq<Step>): nat {
    if steps == [] then 0
    else Clock(steps[..|steps| - 1]) + if steps[|steps| - 1].Tick? then steps[|steps| - 1].elapsed else 0
  }

  predicate Stopped(steps: seq<Step>) {
    steps != [] && (steps[|steps| - 1].Stop? || Stopped(steps[..|steps| - 1]))
  }

  /** Step j, before any stop, adds timer t for the entry, with the deadline that its delay asks for. */
  predicate Adds(steps: seq<Step>, j: int, t: TimerId, obj: Entry, deadline: int) {
    && 0 <= j < |steps| && !Stopped(steps[..j])
    && steps[j].AddTimer? && steps[j].id == t && steps[j].obj == obj
    && deadline == Clock(steps[..j]) + steps[j].delay
  }

  /** Step k runs a callback, at that time. */
  predicate Runs(steps: seq<Step>, k: int, time: int) {
    0 <= k < |steps| && steps[k].Execute? && time == Clock(steps[..k])
  }

  /** The timer was added at some step, and a later step ran its callback, at a time that is not before its deadline. */
  ghost predicate FiredInTime(steps: seq<Step>, t: TimerId, time: int) {
    exists j, k, obj, deadline :: j < k && Adds(steps, j, t, obj, deadline) && Runs(steps, k, time) && deadline <= time
  }

  /** The timer exists as described exactly when some step added it so. */
  ghost predicate CreatedAsAdded(s: State, steps: seq<Step>, t: TimerId, obj: Entry, deadline: int) {
    (t in s.created && s.created[t] == Timer(obj, deadline)) <==> exists j :: Adds(steps, j, t, obj, deadline)
  }

  ghost predicate Recorded(s: State, steps: seq<Step>) {
    && s.now == Clock(steps) && s.running == !Stopped(steps)
    && (forall t, obj, e :: CreatedAsAdded(s, steps, t, obj, e))
    && (forall i :: 0 <= i < |s.fired| ==> FiredInTime(steps, s.fired[i].0, s.fired[i].1))
  }

  lemma {:induction false} RunSnoc(s: State, steps: seq<Step>, last: Step)
    requires ValidRun(s, steps + [last])
    ensures ValidRun(s, steps) && Final(s, steps).timers <= Final(s, steps).created.Keys
    ensures Enabled(Final(s, steps), last) && Final(s, steps + [last]) == After(Final(s, steps), last)
    decreases |steps|
  {
    hide After, Enabled;
    var all := steps + [last];
    if steps == [] {
      assert all[1..] == [];
    } else {
      assert all[1..] == steps[1..] + [last];
      RunSnoc(After(s, steps[0]), steps[1..], last);
    }
  }

  lemma PrefixesStay(steps: seq<Step>, last: Step)
    ensures forall j :: 0 <= j <= |steps| ==> (steps + [last])[..j] == steps[..j]
    ensures forall j :: 0 <= j < |steps| ==> (steps + [last])[j] == steps[j]
    ensures steps[..|steps|] == steps && (steps + [last])[|steps|] == last
  {
  }

  lemma AddsSnoc(steps: seq<Step>, last: Step, j: int, t: TimerId, obj: Entry, e: int)
    ensures Adds(steps + [last], j, t, obj, e)
            <==> Adds(steps, j, t, obj, e)
                 || (j == |steps| && !Stopped(steps) && last.AddTimer? && last.id == t && last.obj == obj
                     && e == Clock(steps) + last.delay)
  {
    hide Clock, Stopped;
    PrefixesStay(steps, last);
  }

  lemma RunsSnoc(steps: seq<Step>, last: Step, k: int, time: int)
    ensures Runs(steps + [last], k, time)
            <==> Runs(steps, k, time) || (k == |steps| && last.Execute? && time == Clock(steps))
  {
    hide Clock;
    PrefixesStay(steps, last);
  }

  lemma FiredInTimeStays(steps: seq<Step>, last: Step, t: TimerId, time: int)
    requires FiredInTime(steps, t, time)
    ensures FiredInTime(steps + [last], t, time)
  {
    hide Adds, Runs;
    var j, k, obj, e :| j < k && Adds(steps, j, t, obj, e) && Runs(steps, k, time) && e <= time;
    AddsSnoc(steps, last, j, t, obj, e);
    RunsSnoc(steps, last, k, time);
  }

  lemma SomeAddsSnoc(steps: seq<Step>, last: Step, t: TimerId, obj: Entry, e: int)
    ensures (exists j :: Adds(steps + [last], j, t, obj, e))
            <==> (exists j :: Adds(steps, j, t, obj, e))
                 || (!Stopped(steps) && last == AddTimer(t, obj, e - Clock(steps)))
  {
    hide Adds, Clock, Stopped;
    if exists j :: Adds(steps, j, t, obj, e) {
      var j :| Adds(steps, j, t, obj, e);
      AddsSnoc(steps, last, j, t, obj, e);
    }
    AddsSnoc(steps, last, |steps|, t, obj, e);
    if exists j :: Adds(steps + [last], j, t, obj, e) {
      var j :| Adds(steps + [last], j, t, obj, e);
      AddsSnoc(steps, last, j, t, obj, e);
    }
  }

  lemma CreatedSnoc(s: State, steps: seq<Step>, last: Step, t: TimerId, obj: Entry, e: int)
    requires s.timers <= s.created.Keys && Enabled(s, last)
    requires CreatedAsAdded(s, steps, t, obj, e) && s.now == Clock(steps) && s.running == !Stopped(steps)
    requires t in s.created ==> CreatedAsAdded(s, steps, t, s.created[t].obj, s.created[t].expiration)
    ensures CreatedAsAdded(After(s, last), steps + [last], t, obj, e)
  {
    hide Adds, Clock, Stopped;
    SomeAddsSnoc(steps, last, t, obj, e);
  }

  lemma FiredSnoc(s: State, steps: seq<Step>, last: Step, i: nat)
    requires Inv(s) && Recorded(s, steps) && Enabled(s, last) && i < |After(s, last).fired|
    ensures var f := After(s, last).fired[i]; FiredInTime(steps + [last], f.0, f.1)
  {
    hide Adds, Runs, Clock, Stopped;
    if i < |s.fired| {
      FiredInTimeStays(steps, last, s.fired[i].0, s.fired[i].1);
    } else {
      var t := s.due.value;
      var timer := s.created[t];
      assert CreatedAsAdded(s, steps, t, timer.obj, timer.expiration);
      var j :| Adds(steps, j, t, timer.obj, timer.expiration);
      AddsIsAStep(steps, j, t, timer.obj, timer.expiration);
      AddsSnoc(steps, last, j, t, timer.obj, timer.expiration);
      RunsSnoc(steps, last, |steps|, s.now);
    }
  }

  lemma AddsIsAStep(steps: seq<Step>, j: int, t: TimerId, obj: Entry, e: int)
    requires Adds(steps, j, t, obj, e)
    ensures 0 <= j < |steps|
  {
  }

  lemma ClockSnoc(steps: seq<Step>, last: Step)
    ensures Clock(steps + [last]) == Clock(steps) + if last.Tick? then last.elapsed else 0
    ensures Stopped(steps + [last]) == (Stopped(steps) || last.Stop?)
  {
    assert (steps + [last])[..|steps|] == steps;
  }

  lemma StepRecords(s: State, steps: seq<Step>, last: Step)
    requires Inv(s) && Recorded(s, steps) && Enabled(s, last)
    ensures Recorded(After(s, last), steps + [last])
  {
    hide Adds, FiredInTime, CreatedAsAdded;
    var n := After(s, last);
    ClockSnoc(steps, last);
    forall t, obj, e
      ensures CreatedAsAdded(n, steps + [last], t, obj, e)
    {
      CreatedSnoc(s, steps, last, t, obj, e);
    }
    forall i | 0 <= i < |n.fired|
      ensures FiredInTime(steps + [last], n.fired[i].0, n.fired[i].1)
    {
      FiredSnoc(s, steps, last, i);
    }
  }

  lemma {:induction false} RunRecords(steps: seq<Step>)
    requires ValidRun(INITIAL, steps)
    ensures Recorded(Final(INITIAL, steps), steps)
    decreases |steps|
  {
    hide ValidRun, Final, After, Enabled, Recorded, Inv;
    if steps == [] {
      NoSteps();
    } else {
      var before, last := steps[..|steps| - 1], steps[|steps| - 1];
      assert before + [last] == steps;
      RunSnoc(INITIAL, before, last);
      RunRecords(before);
      InitialInv();
      RunKeepsInv(INITIAL, before);
      StepRecords(Final(INITIAL, before), before, last);
    }
  }

  lemma InitialInv()
    ensures Inv(INITIAL)
  {
  }

  lemma NoSteps()
    ensures ValidRun(INITIAL, []) && Final(INITIAL, []) == INITIAL && Recorded(INITIAL, [])
  {
  }

  /**
   Over every run: at most one callback per timer, none for a timer reported
   cancelled, and each at a step after the one that added the timer, when at least
   the delay asked for there had passed.
   */
  lemma CallbacksAreSound(steps: seq<Step>)
    requires ValidRun(INITIAL, steps)
    ensures var s := Final(INITIAL, steps);
            && (forall i, j :: 0 <= i < j < |s.fired| ==> s.fired[i].0 != s.fired[j].0)
            && (forall i :: 0 <= i < |s.fired| ==>
                  s.fired[i].0 !in s.confirmed && FiredInTime(steps, s.fired[i].0, s.fired[i].1))
  {
    RunKeepsInv(INITIAL, steps);
    RunRecords(steps);
    hide FiredInTime, ValidRun, Final;
  }

  /** A timer exists exactly when a step before any stop added it, for its entry and with the deadline asked for. */
  lemma TimersAreAsAsked(steps: seq<Step>, t: TimerId, obj: Entry, deadline: int)
    requires ValidRun(INITIAL, steps)
    ensures var s := Final(INITIAL, steps);
            (t in s.created && s.created[t] == Timer(obj, deadline)) <==> exists j :: Adds(steps, j, t, obj, deadline)
  {
    RunRecords(steps);
    assert CreatedAsAdded(Final(INITIAL, steps), steps, t, obj, deadline);
    hide Adds, ValidRun, Final;
  }

  /** A live timer on top is taken out exactly when the delay it was added with has passed; before that it stays. */
  lemma InspectedEarlyExactly(steps: seq<Step>, j: nat, t: TimerId, obj: Entry, deadline: int)
    requires ValidRun(INITIAL, steps + [Inspect(Some(t))]) && Adds(steps, j, t, obj, deadline)
    ensures ValidRun(INITIAL, steps)
    ensures var s, n := Final(INITIAL, steps), Final(INITIAL, steps + [Inspect(Some(t))]);
            && t in s.timers
            && (t !in s.canceled ==> (n.due == Some(t) <==> Clock(steps) >= deadline))
            && (t !in s.canceled && Clock(steps) < deadline ==> n == s)
            && (t in s.canceled ==> n.due == None && n.timers == s.timers - {t})
  {
    hide ValidRun, Final, Adds;
    RunSnoc(INITIAL, steps, Inspect(Some(t)));
    RunRecords(steps);
    var s := Final(INITIAL, steps);
    assert CreatedAsAdded(s, steps, t, obj, deadline);
  }

  /** In every reachable state the index only names live queued timers. */
  lemma IndexIsSound(steps: seq<Step>)
    requires ValidRun(INITIAL, steps)
    ensures IndexSound(Final(INITIAL, steps))
  {
    RunKeepsInv(INITIAL, steps);
  }

  // ------------------------------------------------------- the index, exactly

  ghost predicate HasLive(s: State, obj: Entry) {
    exists t :: t in s.timers && t !in s.canceled && t in s.created && s.created[t].obj == obj
  }

  /** The index lists every live queued timer, under its entry. */
  ghost predicate IndexComplete(s: State) {
    forall t :: t in s.timers && t !in s.canceled && t in s.created ==>
      s.created[t].obj in s.timerMap && s.timerMap[s.created[t].obj] == t
  }

  /** No step but a re-add of a pending entry loses a live timer from the index. */
  lemma StepKeepsIndexComplete(s: State, step: Step)
    requires Inv(s) && Enabled(s, step) && IndexComplete(s)
    requires step.AddTimer? ==> !HasLive(s, step.obj)
    ensures IndexComplete(After(s, step))
  {
  }

  /** Adding keeps the index complete exactly when the entry has no live timer (or the service stopped). */
  lemma AddKeepsIndexExactly(s: State, id: TimerId, obj: Entry, delay: int)
    requires Inv(s) && Enabled(s, AddTimer(id, obj, delay)) && IndexComplete(s)
    ensures IndexComplete(After(s, AddTimer(id, obj, delay))) <==> !s.running || !HasLive(s, obj)
  {
    var n := After(s, AddTimer(id, obj, delay));
    if s.running && HasLive(s, obj) {
      assert id in n.timers && id !in n.canceled && n.created[id].obj == obj;
      assert n.timerMap[obj] != id;
    }
  }

  /** Along a run, no entry is added while it has a live timer. */
  ghost predicate NeverReAdds(s: State, steps: seq<Step>)
    requires ValidRun(s, steps)
    decreases |steps|
  {
    steps == [] ||
    (&& (steps[0].AddTimer? ==> !HasLive(s, steps[0].obj))
     && NeverReAdds(After(s, steps[0]), steps[1..]))
  }

  lemma {:induction false} IndexIsExact(s: State, steps: seq<Step>)
    requires Inv(s) && IndexComplete(s) && ValidRun(s, steps) && NeverReAdds(s, steps)
    ensures IndexSound(Final(s, steps)) && IndexComplete(Final(s, steps))
    decreases |steps|
  {
    if steps != [] {
      StepKeepsInv(s, steps[0]);
      StepKeepsIndexComplete(s, steps[0]);
      IndexIsExact(After(s, steps[0]), steps[1..]);
    }
  }

  /** Two live timers for one entry: the index names the first only, so no cancel finds the second. */
  lemma ReAddingHidesATimer()
    ensures exists steps :: ValidRun(INITIAL, steps) && !IndexComplete(Final(INITIAL, steps))
  {
    var first, second := AddTimer(0, 7, 10), AddTimer(1, 7, 10);
    var s := After(INITIAL, first);
    var n := After(s, second);
    assert ValidRun(n, []) && Final(n, []) == n;
    assert [second][1..] == [];
    assert ValidRun(s, [second]) && Final(s, [second]) == n;
    assert [first, second][1..] == [second];
    assert ValidRun(INITIAL, [first, second]) && Final(INITIAL, [first, second]) == n;
    assert 1 in n.timers && n.created[1].obj == 7 && n.timerMap[7] == 0;
  }

  // ---------------------------------------------------------------- draining

  ghost predicate AllDue(s: State) {
    forall t :: t in s.timers ==> t in s.created && s.created[t].expiration <= s.now
  }

  predicate NoAdds(steps: seq<Step>) {
    forall i :: 0 <= i < |steps| ==> !steps[i].AddTimer?
  }

  /** The worker iterations that found a timer. */
  function Iterations(steps: seq<Step>): nat {
    if steps == [] then 0
    else (if steps[0].Inspect? && steps[0].top.Some? then 1 else 0) + Iterations(steps[1..])
  }

  ghost predicate Fired(s: State, t: TimerId) {
    exists i :: 0 <= i < |s.fired| && s.fired[i].0 == t
  }

  lemma StepDrains(s: State, step: Step)
    requires Inv(s) && AllDue(s) && Enabled(s, step) && !step.AddTimer?
    ensures var n := After(s, step);
            && AllDue(n) && n.timers <= s.timers
            && |n.timers| == |s.timers| - (if step.Inspect? && step.top.Some? then 1 else 0)
  {
    var n := After(s, step);
    if step.Inspect? && step.top.Some? {
      assert n.timers == s.timers - {step.top.value};
    }
  }

  /**
   Once every deadline has passed and nothing is added, each iteration that finds
   a timer takes one out, whatever cancels, clock ticks and stops come between.
   */
  lemma {:induction false} WorkerDrains(s: State, steps: seq<Step>)
    requires Inv(s) && AllDue(s) && ValidRun(s, steps) && NoAdds(steps)
    ensures var n := Final(s, steps);
            n.timers <= s.timers && |n.timers| == |s.timers| - Iterations(steps)
    decreases |steps|
  {
    hide Inv, AllDue;
    if steps != [] {
      assert !steps[0].AddTimer?;
      StepKeepsInv(s, steps[0]);
      StepDrains(s, steps[0]);
      WorkerDrains(After(s, steps[0]), steps[1..]);
    }
  }

  /** Where a timer queued in s stands in a later state. */
  ghost predicate Traced(s: State, n: State, t: TimerId) {
    var canceled := t in s.canceled || t in n.confirmed;
    if t in n.timers then (t in n.canceled <==> canceled) && !Fired(n, t) && n.due != Some(t)
    else if canceled then !Fired(n, t) && n.due != Some(t)
    else Fired(n, t) <==> n.due != Some(t)
  }

  lemma FiredGrows(s: State, step: Step, t: TimerId)
    requires Inv(s) && Enabled(s, step)
    ensures Fired(After(s, step), t) <==> Fired(s, t) || (step.Execute? && s.due == Some(t))
  {
    var n := After(s, step);
    if step.Execute? && s.due == Some(t) {
      assert n.fired[|s.fired|].0 == t;
    }
    assert forall i :: 0 <= i < |s.fired| ==> n.fired[i] == s.fired[i];
  }

  lemma StepTraces(s: State, m: State, step: Step, t: TimerId)
    requires Inv(m) && Enabled(m, step) && !step.AddTimer? && Traced(s, m, t)
    ensures Traced(s, After(m, step), t)
  {
    FiredGrows(m, step, t);
    hide Fired;
  }

  lemma {:induction false} RunTraces(s: State, m: State, steps: seq<Step>, t: TimerId)
    requires Inv(m) && ValidRun(m, steps) && NoAdds(steps) && Traced(s, m, t)
    ensures Traced(s, Final(m, steps), t)
    decreases |steps|
  {
    hide Inv, Traced;
    if steps != [] {
      assert !steps[0].AddTimer?;
      StepKeepsInv(m, steps[0]);
      StepTraces(s, m, steps[0], t);
      RunTraces(s, After(m, steps[0]), steps[1..], t);
    }
  }

  /** No timer vanishes: out of the queue it was cancelled before, confirmed cancelled since, has fired, or is due. */
  lemma EveryTimerIsAccountedFor(s: State, steps: seq<Step>, t: TimerId)
    requires Inv(s) && ValidRun(s, steps) && NoAdds(steps) && t in s.timers
    ensures var n := Final(s, steps);
            && (t !in n.timers ==> t in s.canceled || t in n.confirmed || Fired(n, t) || n.due == Some(t))
            && (Fired(n, t) <==>
                  t !in n.timers && t !in s.canceled && t !in n.confirmed && n.due != Some(t))
  {
    assert t in s.confirmed ==> t in s.canceled;
    assert !Fired(s, t) && s.due != Some(t);
    RunTraces(s, s, steps, t);
  }

  /** After exactly as many iterations as there were timers the queue is empty, and every live one has fired or is due. */
  lemma DrainTakesExactlyQueueLength(s: State, steps: seq<Step>)
    requires Inv(s) && AllDue(s) && ValidRun(s, steps) && NoAdds(steps)
    ensures var n := Final(s, steps);
            && (n.timers == {} <==> Iterations(steps) == |s.timers|)
            && (n.timers == {} && n.due == None ==>
                  forall t :: t in s.timers ==> (Fired(n, t) <==> t !in s.canceled && t !in n.confirmed))
  {
    WorkerDrains(s, steps);
    var n := Final(s, steps);
    assert |n.timers| == 0 <==> n.timers == {};
    forall t | t in s.timers
      ensures n.timers == {} && n.due == None ==> (Fired(n, t) <==> t !in s.canceled && t !in n.confirmed)
    {
      EveryTimerIsAccountedFor(s, steps, t);
    }
  }

  // -------------------------------------------------------------- the object

  /** Advance the clock to `time`, then take the step. */
  ghost function At(s: State, time: nat, step: Step): State
    requires Inv(s) && s.now <= time && Enabled(s, step)
  {
    After(After(s, Tick(time - s.now)), step)
  }

  class StackTimer {
    var created: map<TimerId, Timer>
    var timers: set<TimerId>
    var timerMap: map<Entry, TimerId>
    var canceled: set<TimerId>
    var due: Option<TimerId>
    var isRunning: bool
    ghost var s: State

    /** The ghost state describes this object, in a state that satisfies the invariant. */
    ghost predicate Valid()
      reads this
    {
      && Inv(s)
      && s.created == created && s.timers == timers && s.timerMap == timerMap
      && s.canceled == canceled && s.due == due && s.running == isRunning
    }

    constructor ()
      ensures Valid() && s == INITIAL
    {
      created, timers, timerMap, canceled := map[], {}, map[], {};
      due, isRunning, s := None, true, INITIAL;
    }

    method AddTimer(id: TimerId, obj: Entry, delay: int, time: nat)
      requires Valid() && s.now <= time && id !in created
      modifies this
      ensures Valid() && s == At(old(s), time, Step.AddTimer(id, obj, delay)) && s.now == time
      ensures isRunning == old(isRunning) && canceled == old(canceled) && due == old(due)
      ensures if !isRunning then created == old(created) && timers == old(timers) && timerMap == old(timerMap)
              else
                && created == old(created)[id := Timer(obj, time + delay)]
                && timers == old(timers) + {id}
                && timerMap == if obj in old(timerMap) then old(timerMap) else old(timerMap)[obj := id]
    {
      hide Inv;
      StepKeepsInv(s, Tick(time - s.now));
      s := After(s, Tick(time - s.now));
      StepKeepsInv(s, Step.AddTimer(id, obj, delay));
      s := After(s, Step.AddTimer(id, obj, delay));
      if !isRunning {
        return;
      }
      created := created[id := Timer(obj, time + delay)];
      timers := timers + {id};
      if obj !in timerMap {
        timerMap := timerMap[obj := id];
      }
    }

    method CancelTimer(obj: Entry) returns (found: bool)
      requires Valid()
      modifies this
      ensures Valid() && s == After(old(s), Step.CancelTimer(obj))
      ensures found == (obj in old(timerMap))
      ensures found ==> old(timerMap)[obj] in s.confirmed
      ensures timerMap == old(timerMap) - {obj}
      ensures canceled == old(canceled) + if found then {old(timerMap)[obj]} else {}
      ensures isRunning == old(isRunning) && created == old(created) && timers == old(timers) && due == old(due)
    {
      StepKeepsInv(s, Step.CancelTimer(obj));
      s := After(s, Step.CancelTimer(obj));
      if obj in timerMap {
        canceled := canceled + {timerMap[obj]};
        timerMap := timerMap - {obj};
        return true;
      }
      found := false;
    }

    /** One pass of the worker loop under the lock; `due` is left for Execute, after unlock. */
    method Cycle(top: Option<TimerId>, time: nat)
      requires Valid() && s.now <= time && Enabled(s, Inspect(top))
      modifies this
      ensures Valid() && s == At(old(s), time, Inspect(top)) && s.now == time
      ensures isRunning == old(isRunning) && canceled == old(canceled) && created == old(created)
      ensures top == None ==> timers == old(timers) && timerMap == old(timerMap) && due == None
      ensures top.Some? ==>
                var t := top.value;
                && t in created
                && var early := t !in canceled && time < created[t].expiration;
                && timers == (if early then old(timers) else old(timers) - {t})
                && due == (if early || t in canceled then None else Some(t))
                && timerMap == if early || t in canceled then old(timerMap) else old(timerMap) - {created[t].obj}
    {
      hide Inv;
      StepKeepsInv(s, Tick(time - s.now));
      s := After(s, Tick(time - s.now));
      StepKeepsInv(s, Inspect(top));
      s := After(s, Inspect(top));
      if timers != {} {
        var timer := top.value;
        if timer in canceled {
          timers := timers - {timer};
        } else if created[timer].expiration > time {
          return;
        } else {
          timers := timers - {timer};
          timerMap := timerMap - {created[timer].obj};
          due := Some(timer);
        }
      }
    }

    /** execute(): the callback unless the flag is up; ran tells whether it was called. */
    method Execute(time: nat) returns (ran: bool)
      requires Valid() && s.now <= time && due.Some?
      modifies this
      ensures Valid() && s == At(old(s), time, Step.Execute)
      ensures ran && s.fired == old(s.fired) + [(old(due.value), time)]
      ensures due == None && canceled == old(canceled) + {old(due.value)}
      ensures isRunning == old(isRunning) && created == old(created) && timers == old(timers) && timerMap == old(timerMap)
    {
      StepKeepsInv(s, Tick(time - s.now));
      s := After(s, Tick(time - s.now));
      StepKeepsInv(s, Step.Execute);
      s := After(s, Step.Execute);
      ran := due.value !in canceled;
      if ran {
        canceled := canceled + {due.value};
      }
      due := None;
    }

    method Stop()
      requires Valid()
      modifies this
      ensures Valid() && s == After(old(s), Step.Stop) && !isRunning
      ensures created == old(created) && timers == old(timers) && timerMap == old(timerMap)
      ensures canceled == old(canceled) && due == old(due)
    {
      StepKeepsInv(s, Step.Stop);
      s := After(s, Step.Stop);
      if isRunning {
        isRunning := false;
      }
    }
  }
}
