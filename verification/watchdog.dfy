/**
 * The watchdog as a transition system. Callers and the worker thread share a task queue and a
 * termination flag under one mutex; every critical section is one step, and the clock can advance
 * between any two steps.
 */
module Watchdog {
  /** Nanoseconds. */
  type Time = int

  /** A scheduled function, identified by the call that scheduled it. */
  datatype Task = Task(id: nat, timeout: Time)

  /** A task that was started, and when. */
  datatype Start = Start(task: Task, at: Time)

  /** Where the worker thread is. It holds the mutex in Check, Due, Popped and their drain forms. */
  datatype Pc =
    | Starting                 // the mutex is not taken yet
    | Check                    // top of the loop
    | Sleep                    // waiting for a notification
    | Spin(until: Time)        // mutex released, busy waiting
    | Wait(until: Time)        // waiting for a notification or the deadline
    | Due                      // inner loop over the tasks that are due
    | Popped(task: Task)       // taken off the queue, about to run
    | Running(task: Task)      // mutex released
    | Drain                    // the same loop after termination
    | DrainPopped(task: Task)
    | DrainRunning(task: Task)
    | Exited(at: Time)

  datatype State = State(
    clock: Time,
    tasks: set<Task>,
    terminate: bool,
    notified: bool,
    pc: Pc,
    // History, not part of the program:
    scheduled: set<Task>,
    cancelled: set<Task>,
    taken: seq<Task>,
    log: seq<Start>)

  datatype Step =
    | Tick(now: Time)
    | Schedule(id: nat, delta: Time)
    | CancelAll
    | Terminate
    | Lock
    | Enter
    | Wake
    | StopSpin
    | StopWait
    | Recheck                  // woken from the timed wait too early
    | Pop(task: Task)
    | Begin
    | Finish
    | Leave

  const THRESHOLD: Time := 10000000

  function Init(now: Time): State {
    State(now, {}, false, false, Starting, {}, {}, [], [])
  }

  predicate HoldsMutex(pc: Pc) {
    pc.Check? || pc.Due? || pc.Popped? || pc.Drain? || pc.DrainPopped?
  }

  /** No queued task is due earlier: what a priority queue may have at its top. */
  predicate IsTop(tasks: set<Task>, t: Task) {
    t in tasks && forall u :: u in tasks ==> t.timeout <= u.timeout
  }

  predicate SomeDue(tasks: set<Task>, now: Time) {
    exists t :: t in tasks && t.timeout <= now
  }

  /** Some deadline has passed: together with termination, what the timed wait checks when it is woken. */
  predicate SomeOverdue(tasks: set<Task>, now: Time) {
    exists t :: t in tasks && t.timeout < now
  }

  /** The earliest deadline in the queue. */
  ghost function NextTimeout(tasks: set<Task>): (t: Time)
    requires tasks != {}
    ensures forall u :: u in tasks ==> t <= u.timeout
    ensures exists u :: u in tasks && u.timeout == t
  {
    var t := Earliest(tasks);
    t.timeout
  }

  ghost function Earliest(tasks: set<Task>): (t: Task)
    requires tasks != {}
    ensures IsTop(tasks, t)
  {
    var t :| t in tasks;
    if tasks == {t} then t
    else
      var rest := tasks - {t};
      var u := Earliest(rest);
      assert forall v :: v in tasks ==> v == t || v in rest;
      if t.timeout <= u.timeout then t else u
  }

  ghost predicate Enabled(s: State, step: Step) {
    match step
    case Tick(now) => s.clock <= now
    case Schedule(id, _) => !HoldsMutex(s.pc) && !s.pc.Exited? && forall t :: t in s.scheduled ==> t.id != id
    case CancelAll => !HoldsMutex(s.pc) && !s.pc.Exited?
    case Terminate => !HoldsMutex(s.pc) && !s.pc.Exited?
    case Lock => s.pc.Starting?
    case Enter => s.pc.Check?
    case Wake => s.pc.Sleep?
    case StopSpin => s.pc.Spin? && s.pc.until <= s.clock
    case StopWait => s.pc.Wait? && (s.terminate || SomeOverdue(s.tasks, s.clock) || s.pc.until <= s.clock)
    case Recheck => s.pc.Wait? && !s.terminate && !SomeOverdue(s.tasks, s.clock) && s.clock < s.pc.until
    case Pop(t) => (s.pc.Due? || s.pc.Drain?) && IsTop(s.tasks, t) && t.timeout <= s.clock
    case Begin => s.pc.Popped? || s.pc.DrainPopped?
    case Finish => s.pc.Running? || s.pc.DrainRunning?
    case Leave => (s.pc.Due? || s.pc.Drain?) && !SomeDue(s.tasks, s.clock)
  }

  ghost function Apply(s: State, step: Step): State
    requires Enabled(s, step)
  {
    match step
    case Tick(now) => s.(clock := now)
    case Schedule(id, delta) =>
      var t := Task(id, s.clock + delta);
      s.(tasks := s.tasks + {t}, scheduled := s.scheduled + {t}, notified := true)
    case CancelAll => s.(tasks := {}, cancelled := s.cancelled + s.tasks, notified := true)
    case Terminate => s.(terminate := true, notified := true)
    case Lock => s.(pc := Check)
    case Enter =>
      if s.terminate then s.(pc := Drain)
      else if s.tasks == {} then s.(pc := Sleep, notified := false)
      else if NextTimeout(s.tasks) - s.clock <= THRESHOLD then s.(pc := Spin(NextTimeout(s.tasks)))
      else s.(pc := Wait(NextTimeout(s.tasks)), notified := false)
    case Wake => s.(pc := Check)
    case StopSpin => s.(pc := Due)
    case StopWait => s.(pc := Due)
    case Recheck => s.(notified := false)
    case Pop(t) => s.(tasks := s.tasks - {t}, taken := s.taken + [t],
                      pc := if s.pc.Due? then Popped(t) else DrainPopped(t))
    case Begin => s.(log := s.log + [Start(s.pc.task, s.clock)],
                     pc := if s.pc.Popped? then Running(s.pc.task) else DrainRunning(s.pc.task))
    case Finish => s.(pc := if s.pc.Running? then Due else Drain)
    case Leave => s.(pc := if s.pc.Due? then Check else Exited(s.clock))
  }

  ghost predicate Legal(s: State, steps: seq<Step>)
    decreases |steps|
  {
    steps == [] || (Enabled(s, steps[0]) && Legal(Apply(s, steps[0]), steps[1..]))
  }

  ghost function Run(s: State, steps: seq<Step>): State
    requires Legal(s, steps)
    decreases |steps|
  {
    if steps == [] then s else Run(Apply(s, steps[0]), steps[1..])
  }

  // ---- What every interleaving keeps ----

  function Taken(s: State): set<Task> {
    set t | t in s.taken
  }

  /** Each scheduled task is pending, cancelled or taken, and nothing else; no task is taken twice. */
  ghost predicate Accounted(s: State) {
    && s.scheduled == s.tasks + s.cancelled + Taken(s)
    && s.tasks !! s.cancelled && s.tasks !! Taken(s) && s.cancelled !! Taken(s)
    && (forall t, u :: t in s.scheduled && u in s.scheduled && t.id == u.id ==> t == u)
    && (forall i, j :: 0 <= i < j < |s.taken| ==> s.taken[i] != s.taken[j])
  }

  /** The started tasks are the taken ones in order; only the last taken one may still be about to run. */
  ghost predicate Logged(s: State) {
    && |s.log| == (if s.pc.Popped? || s.pc.DrainPopped? then |s.taken| - 1 else |s.taken|)
    && (forall i :: 0 <= i < |s.log| ==> s.log[i].task == s.taken[i])
    && (s.pc.Popped? || s.pc.DrainPopped? ==> s.taken != [] && s.taken[|s.taken| - 1] == s.pc.task)
  }

  /** Nothing starts before its deadline. */
  ghost predicate Punctual(s: State) {
    && (forall i :: 0 <= i < |s.taken| ==> s.taken[i].timeout <= s.clock)
    && (forall i :: 0 <= i < |s.log| ==> s.log[i].task.timeout <= s.log[i].at <= s.clock)
    && (forall i, j :: 0 <= i < j < |s.log| ==> s.log[i].at <= s.log[j].at)
  }

  /** A sleeping worker that has something to do has been notified; what it leaves behind was not due. */
  ghost predicate Attentive(s: State) {
    && (s.pc.Sleep? && (s.tasks != {} || s.terminate) ==> s.notified)
    && (s.pc.Wait? && s.terminate ==> s.notified)
    && (s.pc.Exited? ==> s.terminate && forall t :: t in s.tasks ==> s.pc.at < t.timeout)
    && (s.pc.Exited? ==> forall i :: 0 <= i < |s.taken| ==> s.taken[i].timeout <= s.pc.at)
    && (s.pc.Drain? || s.pc.DrainPopped? || s.pc.DrainRunning? ==> s.terminate)
  }

  ghost predicate Inv(s: State) {
    Accounted(s) && Logged(s) && Punctual(s) && Attentive(s)
  }

  lemma InitInv(now: Time)
    ensures Inv(Init(now)) && Ordered(Init(now))
  {
  }

  lemma StepKeepsAccounted(s: State, step: Step)
    requires Accounted(s) && Enabled(s, step)
    ensures Accounted(Apply(s, step))
  {
    var s' := Apply(s, step);
    if step.Pop? {
      assert Taken(s') == Taken(s) + {step.task};
    }
  }

  lemma StepKeepsLogged(s: State, step: Step)
    requires Logged(s) && Enabled(s, step)
    ensures Logged(Apply(s, step))
  {
    hide Earliest, NextTimeout, SomeOverdue, SomeDue, IsTop;
  }

  lemma StepKeepsPunctual(s: State, step: Step)
    requires Logged(s) && Punctual(s) && Enabled(s, step)
    ensures Punctual(Apply(s, step))
  {
    hide Earliest, NextTimeout, SomeOverdue, SomeDue, IsTop;
  }

  lemma StepKeepsAttentive(s: State, step: Step)
    requires Punctual(s) && Attentive(s) && Enabled(s, step)
    ensures Attentive(Apply(s, step))
  {
    hide Earliest, NextTimeout, SomeOverdue;
  }

  lemma StepKeepsInv(s: State, step: Step)
    requires Inv(s) && Enabled(s, step)
    ensures Inv(Apply(s, step))
  {
    hide Enabled, Apply, Accounted, Logged, Punctual, Attentive;
    StepKeepsAccounted(s, step);
    StepKeepsLogged(s, step);
    StepKeepsPunctual(s, step);
    StepKeepsAttentive(s, step);
  }

  lemma {:induction false} EveryRunKeepsInv(s: State, steps: seq<Step>)
    requires Inv(s) && Legal(s, steps)
    ensures Inv(Run(s, steps))
    decreases |steps|
  {
    if steps != [] {
      StepKeepsInv(s, steps[0]);
      EveryRunKeepsInv(Apply(s, steps[0]), steps[1..]);
    }
  }

  /** A step by which another thread calls the watchdog. */
  predicate IsCall(step: Step) {
    step.Schedule? || step.CancelAll? || step.Terminate?
  }

  predicate WorkerStep(step: Step) {
    !IsCall(step) && !step.Tick?
  }

  /** Nothing but the worker and the clock. */
  predicate CallFree(steps: seq<Step>) {
    forall i :: 0 <= i < |steps| ==> !IsCall(steps[i])
  }

  lemma {:induction false} Extend(s: State, steps: seq<Step>, step: Step)
    requires Legal(s, steps) && Enabled(Run(s, steps), step)
    ensures Legal(s, steps + [step]) && Run(s, steps + [step]) == Apply(Run(s, steps), step)
    decreases |steps|
  {
    if steps != [] {
      Extend(Apply(s, steps[0]), steps[1..], step);
      assert (steps + [step])[0] == steps[0] && (steps + [step])[1..] == steps[1..] + [step];
    }
  }

  lemma Precede(s: State, step: Step, steps: seq<Step>)
    requires Enabled(s, step) && Legal(Apply(s, step), steps)
    ensures Legal(s, [step] + steps) && Run(s, [step] + steps) == Run(Apply(s, step), steps)
    ensures !IsCall(step) && CallFree(steps) ==> CallFree([step] + steps)
  {
    hide Enabled, Apply, IsCall;
    var all := [step] + steps;
    assert all[0] == step && all[1..] == steps;
  }

  // ---- Order ----

  /** No delay is negative, as with the overload that takes a count of nanoseconds. */
  predicate NonNegative(steps: seq<Step>) {
    forall i :: 0 <= i < |steps| && steps[i].Schedule? ==> steps[i].delta >= 0
  }

  /** Tasks were taken in the order of their deadlines, and nothing pending is due before them. */
  ghost predicate Ordered(s: State) {
    && (forall i, j :: 0 <= i < j < |s.taken| ==> s.taken[i].timeout <= s.taken[j].timeout)
    && (forall i, t :: 0 <= i < |s.taken| && t in s.tasks ==> s.taken[i].timeout <= t.timeout)
  }

  /** The new deadline is not before that of the last task taken. */
  predicate Follows(s: State, delta: Time) {
    s.taken == [] || s.taken[|s.taken| - 1].timeout <= s.clock + delta
  }

  /** A step keeps the order exactly unless it schedules a task that does not follow. */
  lemma StepKeepsOrderedIff(s: State, step: Step)
    requires Inv(s) && Ordered(s) && Enabled(s, step)
    ensures Ordered(Apply(s, step)) <==> (step.Schedule? ==> Follows(s, step.delta))
  {
    hide Earliest, NextTimeout, SomeOverdue, SomeDue, Accounted, Logged, Attentive;
    var s' := Apply(s, step);
    if step.Schedule? && !Follows(s, step.delta) {
      var t := Task(step.id, s.clock + step.delta);
      assert t in s'.tasks && !(s'.taken[|s'.taken| - 1].timeout <= t.timeout);
    }
  }

  /** Every task scheduled in a run follows in the state in which it is scheduled. */
  ghost predicate AllFollow(s: State, steps: seq<Step>)
    requires Legal(s, steps)
    decreases |steps|
  {
    steps == [] ||
    ((steps[0].Schedule? ==> Follows(s, steps[0].delta)) && AllFollow(Apply(s, steps[0]), steps[1..]))
  }

  lemma {:induction false} EveryRunKeepsOrdered(s: State, steps: seq<Step>)
    requires Inv(s) && Ordered(s) && Legal(s, steps) && AllFollow(s, steps)
    ensures Ordered(Run(s, steps))
    decreases |steps|
  {
    if steps != [] {
      StepKeepsInv(s, steps[0]);
      StepKeepsOrderedIff(s, steps[0]);
      EveryRunKeepsOrdered(Apply(s, steps[0]), steps[1..]);
    }
  }

  /** What was taken is past its deadline, so a task without a negative delay follows. */
  lemma {:induction false} NonNegativeFollow(s: State, steps: seq<Step>)
    requires Inv(s) && Legal(s, steps) && NonNegative(steps)
    ensures AllFollow(s, steps)
    decreases |steps|
  {
    if steps != [] {
      StepKeepsInv(s, steps[0]);
      NonNegativeFollow(Apply(s, steps[0]), steps[1..]);
    }
  }

  lemma {:induction false} CallFreeFollow(s: State, steps: seq<Step>)
    requires Legal(s, steps) && CallFree(steps)
    ensures AllFollow(s, steps)
    decreases |steps|
  {
    if steps != [] {
      assert !IsCall(steps[0]);
      CallFreeFollow(Apply(s, steps[0]), steps[1..]);
    }
  }

  predicate InDeadlineOrder(log: seq<Start>) {
    forall i, j :: 0 <= i < j < |log| ==> log[i].task.timeout <= log[j].task.timeout
  }

  /** Without any further call, tasks can come to start against their deadlines. */
  ghost predicate OrderCanBreak(s: State) {
    exists steps :: CallFree(steps) && Legal(s, steps) && !InDeadlineOrder(Run(s, steps).log)
  }

  /** How far the worker is from looking at the queue when something in it is overdue. */
  function StepsToQueue(s: State): nat {
    match s.pc
    case Starting => 4
    case Sleep => 4
    case Check => 3
    case Spin(until) => if s.clock < until then 2 else 1
    case Popped(_) => 2
    case DrainPopped(_) => 2
    case Due => 0
    case Drain => 0
    case _ => 1
  }

  /** What brings the worker closer to the queue. */
  lemma StepToQueue(s: State) returns (step: Step)
    requires !s.pc.Due? && !s.pc.Drain? && !s.pc.Exited? && SomeOverdue(s.tasks, s.clock)
    ensures !IsCall(step) && Enabled(s, step)
    ensures var s' := Apply(s, step);
      && s'.tasks == s.tasks && s'.taken == s.taken && s.clock <= s'.clock
      && !s'.pc.Exited? && StepsToQueue(s') < StepsToQueue(s)
  {
    match s.pc
    case Starting => step := Lock;
    case Sleep => step := Wake;
    case Check => step := Enter;
    case Spin(until) => step := if s.clock < until then Tick(until) else StopSpin;
    case Wait(_) => step := StopWait;
    case Popped(_) => step := Begin;
    case DrainPopped(_) => step := Begin;
    case Running(_) => step := Finish;
    case DrainRunning(_) => step := Finish;
  }

  /** With an overdue task in the queue, the worker gets to the queue without a further call. */
  lemma {:induction false} WorkerReachesQueue(s: State) returns (steps: seq<Step>)
    requires Inv(s) && !s.pc.Exited? && SomeOverdue(s.tasks, s.clock)
    ensures CallFree(steps) && Legal(s, steps)
    ensures var s' := Run(s, steps);
      && Inv(s') && (s'.pc.Due? || s'.pc.Drain?)
      && s'.tasks == s.tasks && s'.taken == s.taken && s.clock <= s'.clock
    decreases StepsToQueue(s)
  {
    if s.pc.Due? || s.pc.Drain? {
      steps := [];
    } else {
      var step := StepToQueue(s);
      var s' := Apply(s, step);
      StepKeepsInv(s, step);
      hide Enabled, Apply, Inv;
      var rest := WorkerReachesQueue(s');
      Precede(s, step, rest);
      steps := [step] + rest;
    }
  }

  /** Tasks taken out of order are started out of order. */
  lemma TakenBreaks(s: State, i: nat, j: nat) returns (steps: seq<Step>)
    requires Logged(s) && i < j < |s.taken| && s.taken[i].timeout > s.taken[j].timeout
    ensures CallFree(steps) && Legal(s, steps) && !InDeadlineOrder(Run(s, steps).log)
  {
    if |s.log| == |s.taken| {
      steps := [];
      assert s.log[i].task == s.taken[i] && s.log[j].task == s.taken[j];
    } else {
      steps := [Begin];
      var log := Apply(s, Begin).log;
      assert log[i].task == s.taken[i] && log[j].task == s.taken[j];
      Precede(s, Begin, []);
    }
  }

  lemma UnorderedBreaks(s: State) returns (steps: seq<Step>)
    requires Inv(s) && !Ordered(s)
    ensures CallFree(steps) && Legal(s, steps) && !InDeadlineOrder(Run(s, steps).log)
  {
    hide Accounted, Logged, Punctual, Attentive, Legal, CallFree, InDeadlineOrder;
    if i, j :| 0 <= i < j < |s.taken| && s.taken[i].timeout > s.taken[j].timeout {
      steps := TakenBreaks(s, i, j);
    } else {
      var i, t :| 0 <= i < |s.taken| && t in s.tasks && s.taken[i].timeout > t.timeout;
      steps := PopBreaks(s, i, t);
    }
  }

  /** A task that is taken and begun ends the log, which then lists all tasks taken. */
  lemma PopAndBegin(s: State, u: Task)
    requires Inv(s) && (s.pc.Due? || s.pc.Drain?) && IsTop(s.tasks, u) && u.timeout <= s.clock
    ensures Enabled(s, Pop(u)) && Enabled(Apply(s, Pop(u)), Begin)
    ensures var log := Apply(Apply(s, Pop(u)), Begin).log;
      && |log| == |s.taken| + 1 && log[|s.taken|].task == u
      && forall i :: 0 <= i < |s.taken| ==> log[i].task == s.taken[i]
  {
    hide Earliest, NextTimeout, SomeOverdue, SomeDue, Accounted, Punctual, Attentive;
  }

  /** A pending task that is due before one already taken is started after it. */
  lemma PopBreaks(s: State, i: nat, t: Task) returns (steps: seq<Step>)
    requires Inv(s) && i < |s.taken| && t in s.tasks && s.taken[i].timeout > t.timeout
    ensures CallFree(steps) && Legal(s, steps) && !InDeadlineOrder(Run(s, steps).log)
  {
    assert s.taken[i].timeout <= s.clock && !s.pc.Exited?;
    hide Inv, Enabled, Apply, IsCall;
    var way := WorkerReachesQueue(s);
    var a := Run(s, way);
    var u := Earliest(a.tasks);
    assert u.timeout <= t.timeout;
    PopAndBegin(a, u);
    Extend(s, way, Pop(u));
    Extend(s, way + [Pop(u)], Begin);
    steps := way + [Pop(u)] + [Begin];
    AddsNoCall(way, u);
    var log := Run(s, steps).log;
    assert log[i].task == s.taken[i] && log[|s.taken|].task == u;
  }

  lemma AddsNoCall(steps: seq<Step>, u: Task)
    requires CallFree(steps)
    ensures CallFree(steps + [Pop(u)] + [Begin])
  {
  }

  /** The started tasks can still come out of order exactly when the taken and pending ones are. */
  lemma OrderCanBreakIff(s: State)
    requires Inv(s)
    ensures OrderCanBreak(s) <==> !Ordered(s)
  {
    if Ordered(s) {
      forall steps | CallFree(steps) && Legal(s, steps) ensures InDeadlineOrder(Run(s, steps).log) {
        hide CallFree, Legal;
        CallFreeFollow(s, steps);
        EveryRunKeepsOrdered(s, steps);
        EveryRunKeepsInv(s, steps);
        hide Accounted, Punctual, Attentive;
      }
    } else {
      var steps := UnorderedBreaks(s);
    }
  }

  /** Somewhere along a run the worker could, if no further call came, start tasks out of order. */
  ghost predicate OrderCanBreakAlong(s: State, steps: seq<Step>)
    requires Legal(s, steps)
    decreases |steps|
  {
    OrderCanBreak(s) || (steps != [] && OrderCanBreakAlong(Apply(s, steps[0]), steps[1..]))
  }

  lemma {:induction false} OrderAlongIff(s: State, steps: seq<Step>)
    requires Inv(s) && Ordered(s) && Legal(s, steps)
    ensures OrderCanBreakAlong(s, steps) <==> !AllFollow(s, steps)
    decreases |steps|
  {
    OrderCanBreakIff(s);
    if steps != [] {
      var s' := Apply(s, steps[0]);
      StepKeepsInv(s, steps[0]);
      StepKeepsOrderedIff(s, steps[0]);
      OrderCanBreakIff(s');
      if Ordered(s') {
        OrderAlongIff(s', steps[1..]);
      }
    }
  }

  // ---- The promises ----

  /** No task starts before its deadline, no task starts twice, and each one is accounted for. */
  lemma NothingStartsEarly(now: Time, steps: seq<Step>)
    requires Legal(Init(now), steps)
    ensures var s := Run(Init(now), steps);
      && (forall i :: 0 <= i < |s.log| ==> s.log[i].task in s.scheduled && s.log[i].task.timeout <= s.log[i].at)
      && (forall i, j :: 0 <= i < j < |s.log| ==> s.log[i].task != s.log[j].task)
      && Accounted(s)
  {
    InitInv(now);
    EveryRunKeepsInv(Init(now), steps);
    var s := Run(Init(now), steps);
    forall i | 0 <= i < |s.log| ensures s.log[i].task in s.scheduled {
      assert s.log[i].task == s.taken[i] && s.taken[i] in Taken(s);
    }
  }

  /**
   * Over a whole run the deadlines of the started tasks never decrease if every task follows those taken
   * before; and exactly when one does not, there is a point from which the worker alone can break the order.
   */
  lemma StartsInDeadlineOrder(now: Time, steps: seq<Step>)
    requires Legal(Init(now), steps)
    ensures AllFollow(Init(now), steps) ==> InDeadlineOrder(Run(Init(now), steps).log)
    ensures OrderCanBreakAlong(Init(now), steps) <==> !AllFollow(Init(now), steps)
    ensures NonNegative(steps) ==> AllFollow(Init(now), steps)
  {
    InitInv(now);
    EveryRunKeepsInv(Init(now), steps);
    OrderAlongIff(Init(now), steps);
    if AllFollow(Init(now), steps) {
      EveryRunKeepsOrdered(Init(now), steps);
    }
    if NonNegative(steps) {
      NonNegativeFollow(Init(now), steps);
    }
  }

  lemma {:induction false} CancelledStaysCancelled(s: State, steps: seq<Step>)
    requires Legal(s, steps)
    ensures s.cancelled <= Run(s, steps).cancelled
    decreases |steps|
  {
    if steps != [] {
      CancelledStaysCancelled(Apply(s, steps[0]), steps[1..]);
    }
  }

  /** What was pending when all tasks were cancelled never starts, whatever happens later. */
  lemma CancelledNeverStarts(s: State, steps: seq<Step>)
    requires Inv(s) && Enabled(s, CancelAll) && Legal(Apply(s, CancelAll), steps)
    ensures var s' := Run(Apply(s, CancelAll), steps);
      forall i :: 0 <= i < |s'.log| ==> s'.log[i].task !in s.tasks
  {
    var c := Apply(s, CancelAll);
    StepKeepsInv(s, CancelAll);
    EveryRunKeepsInv(c, steps);
    CancelledStaysCancelled(c, steps);
    var s' := Run(c, steps);
    forall i | 0 <= i < |s'.log| ensures s'.log[i].task !in s.tasks {
      assert s'.log[i].task == s'.taken[i] && s'.taken[i] in Taken(s');
    }
  }

  // ---- The worker is never stuck ----

  /** The worker only pauses for the clock, or asleep and not notified. */
  predicate Pausing(s: State) {
    || s.pc.Exited?
    || (s.pc.Sleep? && s.tasks == {} && !s.terminate)
    || (s.pc.Spin? && s.clock < s.pc.until)
    || (s.pc.Wait? && s.clock < s.pc.until && !s.notified)
  }

  /** Otherwise it has a step to take, and wakes only for a notification or a deadline. */
  lemma WorkerCanMove(s: State) returns (step: Step)
    requires Inv(s) && !Pausing(s)
    ensures WorkerStep(step) && Enabled(s, step)
    ensures step.Wake? || step.Recheck? ==> s.notified
    ensures step.StopWait? ==> s.notified || s.pc.until <= s.clock
    ensures s.terminate ==> !step.Recheck?
  {
    match s.pc
    case Starting => step := Lock;
    case Check => step := Enter;
    case Sleep => step := Wake;
    case Spin(_) => step := StopSpin;
    case Wait(until) =>
      step := if s.terminate || SomeOverdue(s.tasks, s.clock) || until <= s.clock then StopWait else Recheck;
    case Popped(_) => step := Begin;
    case DrainPopped(_) => step := Begin;
    case Running(_) => step := Finish;
    case DrainRunning(_) => step := Finish;
    case Due =>
      step := if SomeDue(s.tasks, s.clock) then Pop(Earliest(s.tasks)) else Leave;
    case Drain =>
      step := if SomeDue(s.tasks, s.clock) then Pop(Earliest(s.tasks)) else Leave;
  }

  // ---- The destructor's join ends ----

  /** Once termination is requested: how many steps the worker has left at most. */
  function StepsLeft(s: State): nat {
    3 * |s.tasks| +
    match s.pc
    case Exited(_) => 0
    case Drain => 1
    case Check => 2
    case DrainRunning(_) => 2
    case Starting => 3
    case Sleep => 3
    case Due => 3
    case DrainPopped(_) => 3
    case Spin(_) => 4
    case Wait(_) => 4
    case Running(_) => 4
    case Popped(_) => 5
  }

  function CountWork(steps: seq<Step>): nat {
    if steps == [] then 0 else (if WorkerStep(steps[0]) then 1 else 0) + CountWork(steps[1..])
  }

  lemma TerminatedStep(s: State, step: Step)
    requires s.terminate && Enabled(s, step) && !IsCall(step)
    ensures Apply(s, step).terminate
    ensures StepsLeft(Apply(s, step)) + (if WorkerStep(step) then 1 else 0) <= StepsLeft(s)
  {
    hide Earliest, NextTimeout, SomeOverdue, SomeDue, IsTop;
    if step.Pop? {
      assert step.task in s.tasks && |s.tasks - {step.task}| == |s.tasks| - 1 by {
        TopIsQueued(s.tasks, step.task);
      }
    }
  }

  lemma TopIsQueued(tasks: set<Task>, t: Task)
    requires IsTop(tasks, t)
    ensures t in tasks
  {
  }

  /** After a request to terminate and without further calls the worker does a bounded number of steps. */
  lemma {:induction false} WorkIsBounded(s: State, steps: seq<Step>)
    requires s.terminate && CallFree(steps) && Legal(s, steps)
    ensures CountWork(steps) + StepsLeft(Run(s, steps)) <= StepsLeft(s)
    decreases |steps|
  {
    if steps != [] {
      hide StepsLeft, Enabled, Apply, WorkerStep;
      assert !IsCall(steps[0]);
      TerminatedStep(s, steps[0]);
      WorkIsBounded(Apply(s, steps[0]), steps[1..]);
    }
  }

  /** And it exits: the only thing it can still wait for is the end of a spin. */
  lemma {:induction false} JoinEnds(s: State) returns (steps: seq<Step>)
    requires Inv(s) && s.terminate
    ensures Pausing(s) ==> s.pc.Exited? || (s.pc.Spin? && s.clock < s.pc.until)
    ensures CallFree(steps) && Legal(s, steps) && Run(s, steps).pc.Exited?
    ensures CountWork(steps) <= StepsLeft(s)
    decreases StepsLeft(s), if s.pc.Spin? && s.clock < s.pc.until then 1 else 0
  {
    if s.pc.Exited? {
      steps := [];
    } else {
      var step;
      if s.pc.Spin? && s.clock < s.pc.until {
        step := Tick(s.pc.until);
      } else {
        step := WorkerCanMove(s);
      }
      StepKeepsInv(s, step);
      TerminatedStep(s, step);
      var rest := JoinEnds(Apply(s, step));
      hide Enabled, Apply, StepsLeft, Inv;
      Precede(s, step, rest);
      steps := [step] + rest;
      WorkIsBounded(s, steps);
    }
  }

  /** The destructor: its request to terminate leads to the exit that it joins. */
  lemma DestructorEnds(s: State) returns (steps: seq<Step>)
    requires Inv(s) && Enabled(s, Terminate)
    ensures var s' := Apply(s, Terminate);
      && s'.terminate && s'.tasks == s.tasks
      && CallFree(steps) && Legal(s', steps) && Run(s', steps).pc.Exited? && CountWork(steps) <= StepsLeft(s')
  {
    StepKeepsInv(s, Terminate);
    steps := JoinEnds(Apply(s, Terminate));
  }

  // ---- How long a pause lasts, and how long the mutex is held ----

  lemma {:induction false} ClockGrows(s: State, steps: seq<Step>)
    requires Legal(s, steps)
    ensures s.clock <= Run(s, steps).clock
    decreases |steps|
  {
    if steps != [] {
      ClockGrows(Apply(s, steps[0]), steps[1..]);
    }
  }

  /** A spin is not left before the moment it was started for. */
  lemma {:induction false} SpinLasts(s: State, steps: seq<Step>)
    requires s.pc.Spin? && Legal(s, steps)
    ensures Run(s, steps).pc != s.pc ==> s.pc.until <= Run(s, steps).clock
    decreases |steps|
  {
    if steps != [] {
      var s' := Apply(s, steps[0]);
      if s'.pc == s.pc {
        SpinLasts(s', steps[1..]);
      } else {
        ClockGrows(s', steps[1..]);
      }
    }
  }

  /** A timed wait is left only at its moment, for a deadline that has passed, or for termination. */
  lemma WaitLasts(s: State, step: Step)
    requires s.pc.Wait? && Enabled(s, step)
    ensures Apply(s, step).pc != s.pc ==>
      s.pc.until <= s.clock || s.terminate || exists t :: t in s.tasks && t.timeout < s.clock
  {
  }

  /** Somewhere along the run the mutex is free. */
  ghost predicate Releases(s: State, steps: seq<Step>)
    requires Legal(s, steps)
    decreases |steps|
  {
    !HoldsMutex(s.pc) || (steps != [] && Releases(Apply(s, steps[0]), steps[1..]))
  }

  function HeldFor(pc: Pc): nat {
    match pc
    case Due => 4
    case Check => 3
    case Drain => 2
    case Popped(_) => 1
    case DrainPopped(_) => 1
    case _ => 0
  }

  /** The worker gives the mutex away after four steps at most, wherever it stands. */
  lemma {:induction false} MutexIsReleased(s: State, steps: seq<Step>)
    requires Legal(s, steps) && CountWork(steps) >= HeldFor(s.pc)
    ensures Releases(s, steps) && HeldFor(s.pc) <= 4
    decreases |steps|
  {
    if HoldsMutex(s.pc) {
      assert steps != [];
      MutexIsReleased(Apply(s, steps[0]), steps[1..]);
    }
  }

  /** While the mutex is free every call goes through, at once, and ends a sleep that it gives a reason to end. */
  lemma CallsGoThrough(s: State, id: nat, delta: Time)
    requires !HoldsMutex(s.pc) && !s.pc.Exited? && forall t :: t in s.scheduled ==> t.id != id
    ensures Enabled(s, Schedule(id, delta)) && Enabled(s, CancelAll) && Enabled(s, Terminate)
    ensures var s' := Apply(s, Schedule(id, delta));
      Task(id, s.clock + delta) in s'.tasks && s.tasks <= s'.tasks && (s.pc.Sleep? ==> !Pausing(s'))
    ensures Apply(s, CancelAll).tasks == {} && Apply(s, CancelAll).log == s.log
    ensures var s' := Apply(s, Terminate); s'.terminate && (s.pc.Sleep? ==> !Pausing(s'))
  {
  }

  // ---- Due tasks start ----

  /** A step of the worker other than going back to a wait it was woken from too early. */
  predicate Progress(step: Step) {
    WorkerStep(step) && !step.Recheck?
  }

  function CountProgress(steps: seq<Step>): nat {
    if steps == [] then 0 else (if Progress(steps[0]) then 1 else 0) + CountProgress(steps[1..])
  }

  /** How many such steps it takes at most until everything that is due now has started. */
  function StepsToStart(s: State): nat {
    3 * |s.tasks| +
    match s.pc
    case Starting => 3
    case Sleep => 3
    case Check => 2
    case Popped(_) => 2
    case DrainPopped(_) => 2
    case Spin(_) => 1
    case Wait(_) => 1
    case Running(_) => 1
    case DrainRunning(_) => 1
    case _ => 0
  }

  /** t is due and in the queue, or just taken off it. */
  predicate Awaits(s: State, t: Task) {
    && t.timeout <= s.clock && !s.pc.Exited?
    && (t in s.tasks || ((s.pc.Popped? || s.pc.DrainPopped?) && s.pc.task == t))
  }

  predicate Started(log: seq<Start>, t: Task) {
    exists i :: 0 <= i < |log| && log[i].task == t
  }

  lemma StartedStays(s: State, step: Step, t: Task)
    requires Started(s.log, t) && Enabled(s, step)
    ensures Started(Apply(s, step).log, t)
  {
    var i :| 0 <= i < |s.log| && s.log[i].task == t;
    var log := Apply(s, step).log;
    assert log[i] == s.log[i];
  }

  lemma DueIsDue(tasks: set<Task>, now: Time, t: Task)
    requires t in tasks && t.timeout <= now
    ensures SomeDue(tasks, now)
  {
  }

  /** Every step without a call starts t or brings its start nearer. */
  lemma StepBringsStart(s: State, step: Step, t: Task)
    requires Awaits(s, t) && Enabled(s, step) && !IsCall(step)
    ensures var s' := Apply(s, step);
      || Started(s'.log, t)
      || (Awaits(s', t) && StepsToStart(s') + (if Progress(step) then 1 else 0) <= StepsToStart(s))
  {
    hide Earliest, NextTimeout, SomeOverdue;
    var s' := Apply(s, step);
    if step.Begin? && s.pc.task == t {
      assert s'.log[|s.log|].task == t;
    } else if step.Pop? {
      TopIsQueued(s.tasks, step.task);
      assert |s.tasks - {step.task}| == |s.tasks| - 1;
    } else if t in s.tasks {
      DueIsDue(s.tasks, s.clock, t);
      hide SomeDue;
    }
  }

  /** Without further calls, a due task has started once the worker has done that many steps. */
  lemma {:induction false} DueTaskStarts(s: State, steps: seq<Step>, t: Task)
    requires Awaits(s, t) || Started(s.log, t)
    requires CallFree(steps) && Legal(s, steps)
    requires Started(s.log, t) || CountProgress(steps) >= StepsToStart(s)
    ensures Started(Run(s, steps).log, t)
    decreases |steps|
  {
    if steps == [] {
      if !Started(s.log, t) {
        AwaitsTakesSteps(s, t);
      }
    } else {
      hide Enabled, Apply, StepsToStart, Awaits, Progress, Started;
      assert !IsCall(steps[0]);
      if Started(s.log, t) {
        StartedStays(s, steps[0], t);
      } else {
        StepBringsStart(s, steps[0], t);
      }
      DueTaskStarts(Apply(s, steps[0]), steps[1..], t);
    }
  }

  lemma AwaitsTakesSteps(s: State, t: Task)
    requires Awaits(s, t)
    ensures StepsToStart(s) > 0
  {
  }

  /**
   * Over whole runs: whatever is due at some point, unless the worker has exited, starts within a number
   * of worker steps that is fixed by the length of the queue and the worker's place.
   */
  lemma DueTasksStart(now: Time, steps: seq<Step>, more: seq<Step>, t: Task)
    requires Legal(Init(now), steps)
    requires var s := Run(Init(now), steps);
      && t in s.tasks && t.timeout <= s.clock && !s.pc.Exited?
      && CallFree(more) && Legal(s, more) && CountProgress(more) >= 3 * |s.tasks| + 3
    ensures Started(Run(Run(Init(now), steps), more).log, t)
  {
    DueTaskStarts(Run(Init(now), steps), more, t);
  }

  /** And the worker can always do such a step, unless it pauses or has been woken from a wait too early. */
  lemma ProgressIsPossible(s: State) returns (step: Step)
    requires Inv(s) && !Pausing(s)
    ensures WorkerStep(step) && Enabled(s, step)
    ensures !Progress(step) ==>
      s.pc.Wait? && !SomeOverdue(s.tasks, s.clock) && s.clock < s.pc.until && Pausing(Apply(s, step))
  {
    step := WorkerCanMove(s);
  }

  // ---- When deadlines are kept ----

  predicate LateBy(tasks: set<Task>, now: Time, late: nat) {
    exists t :: t in tasks && t.timeout + late <= now
  }

  /** The worker pauses although a task is that much past its deadline. */
  predicate Missed(s: State, late: nat) {
    Pausing(s) && !s.pc.Exited? && LateBy(s.tasks, s.clock, late)
  }

  /** The worker has set out to look at the queue no later than at the earliest deadline in it. */
  predicate Prompt(s: State) {
    s.pc.Spin? || s.pc.Wait? ==> forall t :: t in s.tasks ==> s.pc.until <= t.timeout
  }

  /** Of all steps only a call that asks for less time than a pause under way lasts ends that. */
  lemma StepKeepsPromptIff(s: State, step: Step)
    requires Prompt(s) && Enabled(s, step)
    ensures Prompt(Apply(s, step)) <==>
      !(step.Schedule? && (s.pc.Spin? || s.pc.Wait?) && s.clock + step.delta < s.pc.until)
  {
    hide Earliest, SomeOverdue, SomeDue;
    if step.Schedule? {
      var t := Task(step.id, s.clock + step.delta);
      assert t in Apply(s, step).tasks;
    }
  }

  lemma PromptMissesNothing(s: State)
    requires Prompt(s)
    ensures !Missed(s, 0)
  {
  }

  /**
   * The exact condition: a pause is under way, it lasts long enough for some task to become that late, and
   * no notification is on its way that will end it.
   */
  predicate CanMiss(s: State, late: nat) {
    && (s.pc.Spin? || s.pc.Wait?) && s.clock < s.pc.until && LateBy(s.tasks, s.pc.until - 1, late)
    && (s.pc.Wait? && s.notified ==> !s.terminate && !SomeOverdue(s.tasks, s.clock))
  }

  lemma OverdueStays(tasks: set<Task>, now: Time, later: Time)
    requires now <= later
    ensures SomeOverdue(tasks, now) ==> SomeOverdue(tasks, later)
  {
  }

  /** Neither the worker nor the clock makes a miss possible. */
  lemma StepKeepsTime(s: State, step: Step, late: nat)
    requires !CanMiss(s, late) && Enabled(s, step) && !IsCall(step)
    ensures !CanMiss(Apply(s, step), late)
  {
    hide Earliest, SomeDue;
    if step.Tick? {
      hide SomeOverdue, LateBy;
      OverdueStays(s.tasks, s.clock, step.now);
    }
  }

  lemma {:induction false} RunKeepsTime(s: State, steps: seq<Step>, late: nat)
    requires !CanMiss(s, late) && Legal(s, steps) && CallFree(steps)
    ensures !CanMiss(Run(s, steps), late)
    decreases |steps|
  {
    if steps != [] {
      assert !IsCall(steps[0]);
      StepKeepsTime(s, steps[0], late);
      RunKeepsTime(Apply(s, steps[0]), steps[1..], late);
    }
  }

  lemma MissedCould(s: State, late: nat)
    requires Missed(s, late)
    ensures CanMiss(s, late)
  {
  }

  lemma CanMissDoes(s: State, late: nat) returns (steps: seq<Step>)
    requires CanMiss(s, late)
    ensures CallFree(steps) && Legal(s, steps) && Missed(Run(s, steps), late)
  {
    var t :| t in s.tasks && t.timeout + late <= s.pc.until - 1;
    var moment := if s.clock < t.timeout + late then t.timeout + late else s.clock;
    ReachNothing(s);
    if s.pc.Wait? && s.notified {
      var quiet := Apply(s, Recheck);
      ReachNothing(Apply(quiet, Tick(moment)));
      Precede(quiet, Tick(moment), []);
      Precede(s, Recheck, [Tick(moment)]);
      steps := [Recheck] + [Tick(moment)];
    } else {
      ReachNothing(Apply(s, Tick(moment)));
      Precede(s, Tick(moment), []);
      steps := [Tick(moment)];
    }
  }

  /** Without any further call, a task can become that late while the worker pauses. */
  ghost predicate WillMiss(s: State, late: nat) {
    exists steps :: CallFree(steps) && Legal(s, steps) && Missed(Run(s, steps), late)
  }

  lemma WillMissIff(s: State, late: nat)
    ensures WillMiss(s, late) <==> CanMiss(s, late)
  {
    if CanMiss(s, late) {
      var steps := CanMissDoes(s, late);
    } else {
      forall steps | CallFree(steps) && Legal(s, steps) ensures !Missed(Run(s, steps), late) {
        RunKeepsTime(s, steps, late);
        if Missed(Run(s, steps), late) {
          MissedCould(Run(s, steps), late);
        }
      }
    }
  }

  /**
   * The guard of a schedule call: it asks for less time than a pause under way still lasts, and its own
   * notification does not end the pause because the task is not overdue yet.
   */
  predicate Urgent(s: State, delta: Time) {
    && (s.pc.Spin? || s.pc.Wait?) && s.clock < s.pc.until && s.clock + delta < s.pc.until
    && (s.pc.Wait? ==> delta >= 0 && !s.terminate && !SomeOverdue(s.tasks, s.clock))
  }

  /** During a prompt pause, how late a new task can get without a further call, exactly. */
  lemma NewTaskMissesIff(s: State, id: nat, delta: Time, late: nat)
    requires Prompt(s) && Enabled(s, Schedule(id, delta))
    ensures WillMiss(Apply(s, Schedule(id, delta)), late) <==>
      && (s.pc.Spin? || s.pc.Wait?) && s.clock < s.pc.until && s.clock + delta + late < s.pc.until
      && (s.pc.Wait? ==> delta >= 0 && !s.terminate)
  {
    var t := Task(id, s.clock + delta);
    var s' := Apply(s, Schedule(id, delta));
    assert t in s'.tasks;
    WillMissIff(s', late);
    hide WillMiss, Enabled, Earliest;
    if s.pc.Spin? || s.pc.Wait? {
      assert LateBy(s'.tasks, s.pc.until - 1, late) <==> s.clock + delta + late < s.pc.until;
      assert s.clock < s.pc.until ==> (SomeOverdue(s'.tasks, s.clock) <==> delta < 0);
    }
  }

  lemma StepKeepsTimeIff(s: State, step: Step)
    requires !CanMiss(s, 0) && Enabled(s, step)
    ensures CanMiss(Apply(s, step), 0) <==> step.Schedule? && Urgent(s, step.delta)
  {
    if !IsCall(step) {
      StepKeepsTime(s, step, 0);
    } else if step.Schedule? {
      hide Earliest, SomeDue;
      var t := Task(step.id, s.clock + step.delta);
      var s' := Apply(s, step);
      assert t in s'.tasks;
      assert s.pc.Spin? || s.pc.Wait? ==>
        (LateBy(s'.tasks, s.pc.until - 1, 0) <==>
         LateBy(s.tasks, s.pc.until - 1, 0) || s.clock + step.delta < s.pc.until);
      assert SomeOverdue(s'.tasks, s.clock) <==> SomeOverdue(s.tasks, s.clock) || step.delta < 0;
    }
  }

  ghost predicate NoneUrgent(s: State, steps: seq<Step>)
    requires Legal(s, steps)
    decreases |steps|
  {
    steps == [] ||
    (!(steps[0].Schedule? && Urgent(s, steps[0].delta)) && NoneUrgent(Apply(s, steps[0]), steps[1..]))
  }

  /** Somewhere along a run the worker could, if no further call came, pause past a deadline. */
  ghost predicate WillMissAlong(s: State, steps: seq<Step>)
    requires Legal(s, steps)
    decreases |steps|
  {
    WillMiss(s, 0) || (steps != [] && WillMissAlong(Apply(s, steps[0]), steps[1..]))
  }

  lemma {:induction false} TimeAlongIff(s: State, steps: seq<Step>)
    requires !CanMiss(s, 0) && Legal(s, steps)
    ensures WillMissAlong(s, steps) <==> !NoneUrgent(s, steps)
    decreases |steps|
  {
    hide CanMiss, Urgent, WillMiss, Enabled, Apply;
    WillMissIff(s, 0);
    if steps != [] {
      var s' := Apply(s, steps[0]);
      StepKeepsTimeIff(s, steps[0]);
      WillMissIff(s', 0);
      if !CanMiss(s', 0) {
        TimeAlongIff(s', steps[1..]);
      }
    }
  }

  /** Over whole runs: deadlines are kept exactly as long as no call is urgent in the state it is made in. */
  lemma DeadlinesAreKeptIff(now: Time, steps: seq<Step>)
    requires Legal(Init(now), steps)
    ensures WillMissAlong(Init(now), steps) <==> !NoneUrgent(Init(now), steps)
  {
    TimeAlongIff(Init(now), steps);
  }

  /** A spin is short, and whatever is scheduled during it is due no earlier than it began. */
  ghost predicate SpinIsShort(s: State) {
    s.pc.Spin? ==> s.pc.until - THRESHOLD <= s.clock && forall t :: t in s.tasks ==> s.pc.until - THRESHOLD <= t.timeout
  }

  lemma StepKeepsSpinShort(s: State, step: Step)
    requires SpinIsShort(s) && Enabled(s, step) && (step.Schedule? ==> step.delta >= 0)
    ensures SpinIsShort(Apply(s, step))
  {
    hide Earliest, SomeOverdue, SomeDue;
  }

  lemma {:induction false} EveryRunKeepsSpinShort(s: State, steps: seq<Step>)
    requires SpinIsShort(s) && Legal(s, steps) && NonNegative(steps)
    ensures SpinIsShort(Run(s, steps))
    decreases |steps|
  {
    if steps != [] {
      StepKeepsSpinShort(s, steps[0]);
      EveryRunKeepsSpinShort(Apply(s, steps[0]), steps[1..]);
    }
  }

  /** With non-negative delays a spin makes no task late by ten milliseconds or more. */
  lemma SpinCostsLessThanThreshold(now: Time, steps: seq<Step>)
    requires Legal(Init(now), steps) && NonNegative(steps)
    ensures var s := Run(Init(now), steps); s.pc.Spin? ==> !WillMiss(s, 10000000)
  {
    var s := Run(Init(now), steps);
    EveryRunKeepsSpinShort(Init(now), steps);
    WillMissIff(s, THRESHOLD);
  }

  // ---- Runs that show what can go wrong ----

  ghost predicate Reaches(s: State, steps: seq<Step>, t: State) {
    Legal(s, steps) && Run(s, steps) == t
  }

  ghost predicate Goes(s: State, step: Step, t: State) {
    Enabled(s, step) && Apply(s, step) == t
  }

  lemma ReachNothing(s: State)
    ensures Reaches(s, [], s)
  {
  }

  lemma Reach(s: State, steps: seq<Step>, t: State, step: Step, t': State)
    requires Reaches(s, steps, t) && Goes(t, step, t')
    ensures Reaches(s, steps + [step], t')
  {
    Extend(s, steps, step);
  }

  lemma OnlyTimeout(t: Task)
    ensures NextTimeout({t}) == t.timeout
  {
  }

  function Early(clock: Time, tasks: set<Task>, notified: bool, pc: Pc): State {
    State(clock, tasks, false, notified, pc, tasks, {}, [], [])
  }

  lemma GoesOnSchedule(t: Task)
    requires t.id == 0
    ensures Goes(Init(0), Schedule(0, t.timeout), Early(0, {t}, true, Starting))
  {
  }

  lemma GoesOnLock(t: Task)
    ensures Goes(Early(0, {t}, true, Starting), Lock, Early(0, {t}, true, Check))
  {
  }

  lemma GoesToSpin(t: Task)
    requires t.timeout <= THRESHOLD
    ensures Goes(Early(0, {t}, true, Check), Enter, Early(0, {t}, true, Spin(t.timeout)))
  {
    OnlyTimeout(t);
    hide Earliest, NextTimeout;
  }

  lemma GoesToWait(t: Task)
    requires t.timeout > THRESHOLD
    ensures Goes(Early(0, {t}, true, Check), Enter, Early(0, {t}, false, Wait(t.timeout)))
  {
    OnlyTimeout(t);
    hide Earliest, NextTimeout;
  }

  lemma GoesToDue(t: Task)
    requires t.timeout <= 0
    ensures Goes(Early(0, {t}, true, Spin(t.timeout)), StopSpin, Early(0, {t}, true, Due))
  {
  }

  lemma GoesOnPop(t: Task)
    requires t.timeout <= 0
    ensures Goes(Early(0, {t}, true, Due), Pop(t), State(0, {}, false, true, Popped(t), {t}, {}, [t], []))
  {
  }

  /** From the first schedule call to the queue's turn: the first two steps of all these runs. */
  lemma FirstSteps(t: Task) returns (steps: seq<Step>)
    requires t.id == 0
    ensures |steps| == 2 && Reaches(Init(0), steps, Early(0, {t}, true, Check))
    ensures steps == [Schedule(0, t.timeout), Lock]
  {
    hide *;
    ReachNothing(Init(0));
    GoesOnSchedule(t);
    Reach(Init(0), [], Init(0), Schedule(0, t.timeout), Early(0, {t}, true, Starting));
    GoesOnLock(t);
    Reach(Init(0), [] + [Schedule(0, t.timeout)], Early(0, {t}, true, Starting), Lock, Early(0, {t}, true, Check));
    steps := [] + [Schedule(0, t.timeout)] + [Lock];
  }

  const FIRST: Task := Task(0, 0)
  const SECOND: Task := Task(1, -5)

  function AfterFirst(pc: Pc, log: seq<Start>): State {
    State(0, {}, false, true, pc, {FIRST}, {}, [FIRST], log)
  }

  lemma FirstPop() returns (steps: seq<Step>)
    ensures |steps| == 5 && Reaches(Init(0), steps, AfterFirst(Popped(FIRST), []))
  {
    steps := FirstSteps(FIRST);
    GoesToSpin(FIRST);
    GoesToDue(FIRST);
    GoesOnPop(FIRST);
    assert Early(0, {FIRST}, true, Spin(FIRST.timeout)) == Early(0, {FIRST}, true, Spin(0));
    hide Goes, Reaches, Early;
    Reach(Init(0), steps, Early(0, {FIRST}, true, Check), Enter, Early(0, {FIRST}, true, Spin(0)));
    steps := steps + [Enter];
    Reach(Init(0), steps, Early(0, {FIRST}, true, Spin(0)), StopSpin, Early(0, {FIRST}, true, Due));
    steps := steps + [StopSpin];
    Reach(Init(0), steps, Early(0, {FIRST}, true, Due), Pop(FIRST), AfterFirst(Popped(FIRST), []));
    steps := steps + [Pop(FIRST)];
  }

  function AfterSecond(tasks: set<Task>, pc: Pc, taken: seq<Task>, log: seq<Start>): State {
    State(0, tasks, false, true, pc, {FIRST, SECOND}, {}, taken, log)
  }

  lemma GoesOnBegin()
    ensures Goes(AfterFirst(Popped(FIRST), []), Begin, AfterFirst(Running(FIRST), [Start(FIRST, 0)]))
  {
  }

  lemma GoesOnNegative()
    ensures Goes(AfterFirst(Running(FIRST), [Start(FIRST, 0)]), Schedule(1, -5),
                 AfterSecond({SECOND}, Running(FIRST), [FIRST], [Start(FIRST, 0)]))
  {
    assert {FIRST} + {SECOND} == {FIRST, SECOND};
  }

  lemma GoesOnFinish()
    ensures Goes(AfterSecond({SECOND}, Running(FIRST), [FIRST], [Start(FIRST, 0)]), Finish,
                 AfterSecond({SECOND}, Due, [FIRST], [Start(FIRST, 0)]))
  {
  }

  lemma GoesOnSecond()
    ensures Goes(AfterSecond({SECOND}, Due, [FIRST], [Start(FIRST, 0)]), Pop(SECOND),
                 AfterSecond({}, Popped(SECOND), [FIRST, SECOND], [Start(FIRST, 0)]))
    ensures Goes(AfterSecond({}, Popped(SECOND), [FIRST, SECOND], [Start(FIRST, 0)]), Begin,
                 AfterSecond({}, Running(SECOND), [FIRST, SECOND], [Start(FIRST, 0), Start(SECOND, 0)]))
  {
  }

  /** With a negative delay the order can fail: the second task starts after one with a later deadline. */
  lemma NegativeDelayBreaksOrder() returns (steps: seq<Step>)
    ensures Legal(Init(0), steps) && !NonNegative(steps)
    ensures var log := Run(Init(0), steps).log;
      |log| == 2 && log[1].task.timeout < log[0].task.timeout
  {
    var log1, log2 := [Start(FIRST, 0)], [Start(FIRST, 0), Start(SECOND, 0)];
    steps := FirstPop();
    GoesOnBegin();
    GoesOnNegative();
    GoesOnFinish();
    GoesOnSecond();
    hide Goes, Legal, Enabled, Apply;
    var k := |steps| + 1;
    Reach(Init(0), steps, AfterFirst(Popped(FIRST), []), Begin, AfterFirst(Running(FIRST), log1));
    steps := steps + [Begin];
    Reach(Init(0), steps, AfterFirst(Running(FIRST), log1), Schedule(1, -5),
          AfterSecond({SECOND}, Running(FIRST), [FIRST], log1));
    steps := steps + [Schedule(1, -5)];
    Reach(Init(0), steps, AfterSecond({SECOND}, Running(FIRST), [FIRST], log1), Finish,
          AfterSecond({SECOND}, Due, [FIRST], log1));
    steps := steps + [Finish];
    Reach(Init(0), steps, AfterSecond({SECOND}, Due, [FIRST], log1), Pop(SECOND),
          AfterSecond({}, Popped(SECOND), [FIRST, SECOND], log1));
    steps := steps + [Pop(SECOND)];
    Reach(Init(0), steps, AfterSecond({}, Popped(SECOND), [FIRST, SECOND], log1), Begin,
          AfterSecond({}, Running(SECOND), [FIRST, SECOND], log2));
    steps := steps + [Begin];
    assert steps[k] == Schedule(1, -5);
  }

  const BRIEF: Task := Task(0, 10000000)
  const AT_ONCE: Task := Task(1, 0)

  lemma GoesOnAtOnce()
    ensures Goes(Early(0, {BRIEF}, true, Spin(BRIEF.timeout)), Schedule(1, 0),
                 Early(0, {BRIEF, AT_ONCE}, true, Spin(BRIEF.timeout)))
    ensures WillMiss(Early(0, {BRIEF, AT_ONCE}, true, Spin(BRIEF.timeout)), 9999999)
  {
    var s := Early(0, {BRIEF, AT_ONCE}, true, Spin(BRIEF.timeout));
    assert {BRIEF} + {AT_ONCE} == {BRIEF, AT_ONCE};
    assert AT_ONCE in s.tasks;
    WillMissIff(s, 9999999);
  }

  /** The bound is tight: a spin can make a task late by one nanosecond less than ten milliseconds. */
  lemma SpinCanCostAlmostThreshold() returns (steps: seq<Step>)
    ensures Legal(Init(0), steps) && NonNegative(steps)
    ensures var s := Run(Init(0), steps); s.pc.Spin? && WillMiss(s, 9999999)
  {
    var spin := Spin(BRIEF.timeout);
    steps := FirstSteps(BRIEF);
    GoesToSpin(BRIEF);
    GoesOnAtOnce();
    hide Goes, Legal, Enabled, Apply, WillMiss;
    Reach(Init(0), steps, Early(0, {BRIEF}, true, Check), Enter, Early(0, {BRIEF}, true, spin));
    steps := steps + [Enter];
    Reach(Init(0), steps, Early(0, {BRIEF}, true, spin), Schedule(1, 0), Early(0, {BRIEF, AT_ONCE}, true, spin));
    steps := steps + [Schedule(1, 0)];
  }

  const LATER: Task := Task(0, 1000000000)
  const SOONER: Task := Task(1, 20000000)

  lemma GoesOnSooner()
    ensures Goes(Early(0, {LATER}, false, Wait(LATER.timeout)), Schedule(1, SOONER.timeout),
                 Early(0, {LATER, SOONER}, true, Wait(LATER.timeout)))
  {
    assert {LATER} + {SOONER} == {LATER, SOONER};
  }

  lemma GoesBackToWait()
    ensures Goes(Early(0, {LATER, SOONER}, true, Wait(LATER.timeout)), Recheck,
                 Early(0, {LATER, SOONER}, false, Wait(LATER.timeout)))
    ensures Goes(Early(0, {LATER, SOONER}, false, Wait(LATER.timeout)), Tick(500000000),
                 Early(500000000, {LATER, SOONER}, false, Wait(LATER.timeout)))
  {
  }

  lemma SoonerIsOverdue()
    ensures var s := Early(500000000, {LATER, SOONER}, false, Wait(LATER.timeout));
      Pausing(s) && !s.terminate && SomeOverdue(s.tasks, s.clock)
  {
    assert SOONER in {LATER, SOONER};
  }

  /**
   * The timed wait keeps the deadline it started with: a task scheduled during it that is due earlier
   * can be overdue while the worker goes on waiting for the later one.
   */
  lemma DeadlineCanBeMissed() returns (steps: seq<Step>)
    ensures Legal(Init(0), steps) && NonNegative(steps)
    ensures var s := Run(Init(0), steps); Pausing(s) && !s.terminate && SomeOverdue(s.tasks, s.clock)
  {
    var wait := Wait(LATER.timeout);
    steps := FirstSteps(LATER);
    GoesToWait(LATER);
    GoesOnSooner();
    GoesBackToWait();
    SoonerIsOverdue();
    hide Goes, Legal, Enabled, Apply, Early, Pausing, SomeOverdue;
    Reach(Init(0), steps, Early(0, {LATER}, true, Check), Enter, Early(0, {LATER}, false, wait));
    steps := steps + [Enter];
    Reach(Init(0), steps, Early(0, {LATER}, false, wait), Schedule(1, SOONER.timeout),
          Early(0, {LATER, SOONER}, true, wait));
    steps := steps + [Schedule(1, SOONER.timeout)];
    Reach(Init(0), steps, Early(0, {LATER, SOONER}, true, wait), Recheck, Early(0, {LATER, SOONER}, false, wait));
    steps := steps + [Recheck];
    Reach(Init(0), steps, Early(0, {LATER, SOONER}, false, wait), Tick(500000000),
          Early(500000000, {LATER, SOONER}, false, wait));
    steps := steps + [Tick(500000000)];
  }
}
