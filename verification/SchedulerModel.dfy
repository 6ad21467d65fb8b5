/** The preemptive round-robin scheduler as a state machine over whole runs. */
module SchedulerModel {
  import opened Bytes

  const TASK_MAX := 8
  const TASK_STACK_SIZE := 16384
  const FRAME_SIZE := 304

  type Registers = r: seq<u64> | |r| == 31 witness seq(31, _ => 0)

  /** A trap frame: what an exception saves and the return from it restores. */
  datatype Frame = Frame(x: Registers, sp: u64, elr: u64, spsr: u64, esr: u64, far: u64, daif: u64, vectorId: u64)

  datatype TaskState = Unused | Ready | Running | Finished

  datatype Task = Task(state: TaskState, sp: u64)

  /** A task: a slot of the table, or -1 for the kernel task. */
  type TaskId = t: int | -1 <= t < 8

  datatype Sched = Sched(tasks: seq<Task>, kernel: Task, current: TaskId)

  predicate Shape(s: Sched) {
    |s.tasks| == TASK_MAX
  }

  function TaskOf(s: Sched, t: TaskId): Task
    requires Shape(s)
  {
    if t == -1 then s.kernel else s.tasks[t]
  }

  function WithTask(s: Sched, t: TaskId, x: Task): (r: Sched)
    requires Shape(s)
    ensures Shape(r) && r.current == s.current && TaskOf(r, t) == x
    ensures forall u: TaskId :: u != t ==> TaskOf(r, u) == TaskOf(s, u)
  {
    if t == -1 then s.(kernel := x) else s.(tasks := s.tasks[t := x])
  }

  /** The i-th slot after the current one, cyclically; the kernel task counts as slot -1. */
  function Candidate(current: TaskId, i: nat): (c: TaskId)
    requires 1 <= i <= 8
    ensures 0 <= c
  {
    (current + i + 8) % 8
  }

  /** task_pick_next from its i-th turn on. */
  function PickFrom(s: Sched, i: nat): (r: Option<TaskId>)
    requires Shape(s) && 1 <= i <= 9
    decreases 9 - i
  {
    if i > 8 then (if s.current != -1 then Some(-1) else None)
    else if s.tasks[Candidate(s.current, i)].state == Ready then Some(Candidate(s.current, i))
    else PickFrom(s, i + 1)
  }

  function PickNext(s: Sched): Option<TaskId>
    requires Shape(s)
  {
    PickFrom(s, 1)
  }

  /** How many slots after the current one a table task comes, from 1 to 8. */
  function Distance(current: TaskId, t: TaskId): (d: nat)
    requires t >= 0
    ensures 1 <= d <= 8 && Candidate(current, d) == t
    ensures forall i :: 1 <= i <= 8 && Candidate(current, i) == t ==> i == d
  {
    if t > current then t - current else t - current + 8
  }

  lemma {:induction false} PickFromNearest(s: Sched, i: nat)
    requires Shape(s) && 1 <= i <= 9
    requires forall t: TaskId :: 0 <= t && s.tasks[t].state == Ready ==> Distance(s.current, t) >= i
    ensures var r := PickFrom(s, i);
      && (r.Some? && r.value >= 0 ==> s.tasks[r.value].state == Ready)
      && (forall t: TaskId :: r.Some? && r.value >= 0 && 0 <= t && s.tasks[t].state == Ready ==>
            Distance(s.current, r.value) <= Distance(s.current, t))
      && (r.None? || r.value == -1 <==> forall t: TaskId :: 0 <= t ==> s.tasks[t].state != Ready)
      && (r.None? ==> s.current == -1) && (r == Some(-1) ==> s.current != -1)
    decreases 9 - i
  {
    if i <= 8 {
      var c := Candidate(s.current, i);
      if s.tasks[c].state == Ready {
        assert Distance(s.current, c) == i;
      } else {
        assert forall t: TaskId :: 0 <= t && Distance(s.current, t) == i ==> t == c;
        PickFromNearest(s, i + 1);
      }
    } else {
      assert forall t: TaskId :: 0 <= t ==> Distance(s.current, t) <= 8;
    }
  }

  /** The nearest READY task is picked; the kernel task, or nobody, only when no table task is READY. */
  lemma PickNearest(s: Sched)
    requires Shape(s)
    ensures var r := PickNext(s);
      && (r.Some? && r.value >= 0 ==> s.tasks[r.value].state == Ready)
      && (forall t: TaskId :: r.Some? && r.value >= 0 && 0 <= t && s.tasks[t].state == Ready ==>
            Distance(s.current, r.value) <= Distance(s.current, t))
      && (r.None? || r.value == -1 <==> forall t: TaskId :: 0 <= t ==> s.tasks[t].state != Ready)
      && (r.None? ==> s.current == -1) && (r == Some(-1) ==> s.current != -1)
  {
    PickFromNearest(s, 1);
  }

  /** In plain slot numbers: the first READY slot above the current one, else the first READY slot from 0 up to the
      current one, which may be picked again; else the kernel task, unless it is current. */
  lemma PickOrder(s: Sched)
    requires Shape(s)
    ensures match PickNext(s)
            case None => s.current == -1 && forall u :: 0 <= u < 8 ==> s.tasks[u].state != Ready
            case Some(t) =>
              if t == -1 then s.current != -1 && forall u :: 0 <= u < 8 ==> s.tasks[u].state != Ready
              else
                && s.tasks[t].state == Ready
                && (forall u :: s.current < u < (if t > s.current then t else 8) ==> s.tasks[u].state != Ready)
                && (t <= s.current ==> forall u :: 0 <= u < t ==> s.tasks[u].state != Ready)
  {
    hide PickNext;
    PickNearest(s);
    assert forall u :: 0 <= u < 8 && s.tasks[u].state == Ready ==> var t: TaskId := u; s.tasks[t].state == Ready;
  }

  /** task_schedule_from_exception: the new state and the frame that is resumed. */
  function Schedule(s: Sched, frame: u64, canContinue: bool): (r: (Sched, u64))
    requires Shape(s)
    ensures Shape(r.0)
  {
    var s1 := WithTask(s, s.current, TaskOf(s, s.current).(sp := frame));
    var next := PickNext(s1);
    if next.None? || next.value == s1.current then (s1, frame)
    else
      var previous := TaskOf(s1, s1.current);
      var s2 := if canContinue && previous.state == Running
                then WithTask(s1, s1.current, previous.(state := Ready)) else s1;
      var t := TaskOf(s2, next.value);
      (WithTask(s2, next.value, t.(state := Running)).(current := next.value), t.sp)
  }

  /** task_exit_from_exception. For the kernel task it only returns. */
  function Exit(s: Sched, frame: u64): (r: (Sched, u64))
    requires Shape(s)
    ensures Shape(r.0)
  {
    var s1 := WithTask(s, s.current, TaskOf(s, s.current).(sp := frame));
    if s.current == -1 then (s1, frame)
    else
      var s2 := WithTask(s1, s1.current, TaskOf(s1, s1.current).(state := Finished));
      var next := PickNext(s2);
      if next.None? then (s2.(kernel := s2.kernel.(state := Running), current := -1), s2.kernel.sp)
      else
        var t := TaskOf(s2, next.value);
        (WithTask(s2, next.value, t.(state := Running)).(current := next.value), t.sp)
  }

  /** The end of task_trampoline before it yields: the entry function of the current task has returned. */
  function MarkFinished(s: Sched): (r: Sched)
    requires Shape(s)
    ensures Shape(r)
  {
    WithTask(s, s.current, TaskOf(s, s.current).(state := Finished))
  }

  /** The stack pointer of a prepared task: one frame below the 16-byte aligned top of its stack. */
  function InitialSp(stackBase: u64): u64 {
    var top := (stackBase + TASK_STACK_SIZE) % 0x1_0000_0000_0000_0000;
    (top - top % 16 - FRAME_SIZE) % 0x1_0000_0000_0000_0000
  }

  /** The frame that task_prepare_stack builds: execution starts in the trampoline, at EL1 with its own stack pointer,
      on an empty stack and with the interrupt mask of the creator. */
  function PreparedFrame(stackBase: u64, trampoline: u64, daif: u64): Frame {
    Frame(seq(31, _ => 0), (stackBase + TASK_STACK_SIZE) % 0x1_0000_0000_0000_0000, trampoline,
          daif / 64 % 16 * 64 + 5, 0, 0, 0, 0)
  }

  /** The prepared frame lies 16-byte aligned inside the task's own stack, below everything the task will push. */
  lemma FrameInStack(stackBase: u64)
    requires stackBase + TASK_STACK_SIZE < TWO_64
    ensures InitialSp(stackBase) % 16 == 0
    ensures stackBase < InitialSp(stackBase) && InitialSp(stackBase) + FRAME_SIZE <= stackBase + TASK_STACK_SIZE
  {
  }

  /** What the first return to a task finds: it starts in the trampoline, on an empty stack whose first push goes just
      below the end of the task's memory, at EL1 with its own stack pointer, with the creator's interrupt mask, and with
      every general register zero. The frame itself ends where the stack, rounded down to 16, ends. */
  lemma PreparedStart(stackBase: u64, trampoline: u64, daif: u64)
    requires stackBase + 16384 < TWO_64
    ensures var f := PreparedFrame(stackBase, trampoline, daif);
      && f.elr == trampoline && f.sp == stackBase + 16384
      && f.spsr % 64 == 5 && f.spsr / 64 == daif / 64 % 16
      && f.x == seq(31, _ => 0)
    ensures InitialSp(stackBase) + 304 == (stackBase + 16384) / 16 * 16
  {
  }

  function FirstUnused(tasks: seq<Task>, i: nat): (r: Option<nat>)
    requires i <= |tasks|
    ensures r.Some? ==> i <= r.value < |tasks| && tasks[r.value].state == Unused
    decreases |tasks| - i
  {
    if i == |tasks| then None
    else if tasks[i].state == Unused then Some(i)
    else FirstUnused(tasks, i + 1)
  }

  /** task_create; a stack base of 0 is a failed allocation. */
  function Create(s: Sched, stackBase: u64): (r: (Sched, Option<TaskId>))
    requires Shape(s)
    ensures Shape(r.0)
  {
    match FirstUnused(s.tasks, 0)
    case None => (s, None)
    case Some(i) =>
      if stackBase == 0 then (s, None)
      else (WithTask(s, i, Task(Ready, InitialSp(stackBase))), Some(i))
  }

  const START: Sched := Sched(seq(TASK_MAX, _ => Task(Unused, 0)), Task(Running, 0), -1)

  // ---- Safety ----

  /** At most one task is RUNNING, it is the current one, and nobody resumes what is FINISHED or UNUSED: a current
      table task is RUNNING, or FINISHED just before it yields for the last time. */
  ghost predicate Inv(s: Sched) {
    && Shape(s)
    && (forall t: TaskId :: 0 <= t && t != s.current ==> s.tasks[t].state != Running)
    && (s.current >= 0 ==> s.tasks[s.current].state == Running || s.tasks[s.current].state == Finished)
    && s.kernel.state == (if s.current == -1 then Running else Ready)
  }

  /** What a switch does, in one place: who is resumed, from which state, and with which frame. */
  lemma ScheduleEffect(s: Sched, frame: u64)
    requires Inv(s)
    ensures var (s', resumed) := Schedule(s, frame, true);
      && Inv(s')
      && (s'.current == s.current ==> s.current == -1 && resumed == frame && s' == s.(kernel := s.kernel.(sp := frame)))
      && (s'.current != s.current ==>
            && TaskOf(s, s'.current).state == Ready && resumed == TaskOf(s, s'.current).sp
            && TaskOf(s', s.current)
               == Task(if TaskOf(s, s.current).state == Running then Ready else Finished, frame))
      && (forall t: TaskId :: t != s.current && t != s'.current ==> TaskOf(s', t) == TaskOf(s, t))
      && TaskOf(s', s'.current) == Task(Running, if s'.current == s.current then frame else resumed)
  {
    hide PickNext, Distance;
    var s1 := WithTask(s, s.current, TaskOf(s, s.current).(sp := frame));
    PickNearest(s1);
  }

  /** Nothing is switched when the kernel task is current and no table task is READY. */
  predicate StaysWithKernel(s: Sched)
    requires Shape(s)
  {
    s.current == -1 && forall t: TaskId :: 0 <= t ==> s.tasks[t].state != Ready
  }

  /** Only a caller that says the current task cannot continue, while it is RUNNING and another task is there to
      switch to, breaks the invariant: the switched-out task stays RUNNING. Every caller in the kernel says that it
      can continue. */
  lemma ScheduleInvIff(s: Sched, frame: u64, canContinue: bool)
    requires Inv(s)
    ensures Inv(Schedule(s, frame, canContinue).0)
        <==> canContinue || TaskOf(s, s.current).state != Running || StaysWithKernel(s)
  {
    ScheduleEffect(s, frame);
    hide PickNext, Distance;
    var s1 := WithTask(s, s.current, TaskOf(s, s.current).(sp := frame));
    PickNearest(s1);
  }

  /** An instance: the kernel task, told that it cannot continue, and the task it is switched for are both RUNNING. */
  lemma TwoRunning()
    ensures var s := Create(START, 0x4100_0000).0;
      var s' := Schedule(s, 0x4000_0000, false).0;
      Inv(s) && s'.current == 0 && s'.tasks[0].state == Running && s'.kernel.state == Running
  {
    var s := Create(START, 0x4100_0000).0;
    assert s.tasks[0].state == Ready;
    var s1 := WithTask(s, s.current, TaskOf(s, s.current).(sp := 0x4000_0000));
    assert Candidate(-1, 1) == 0;
    assert PickNext(s1) == Some(0);
  }

  /** An exit ends the current table task and resumes another one; the null branch is never taken. */
  lemma ExitEffect(s: Sched, frame: u64)
    requires Inv(s)
    ensures var (s', resumed) := Exit(s, frame);
      && Inv(s')
      && (s.current == -1 ==> s'.current == -1 && resumed == frame && s' == s.(kernel := s.kernel.(sp := frame)))
      && (s.current != -1 ==>
            && s'.current != s.current
            && TaskOf(s, s'.current).state == Ready && resumed == TaskOf(s, s'.current).sp
            && TaskOf(s', s.current) == Task(Finished, frame)
            && PickNext(MarkFinished(WithTask(s, s.current, TaskOf(s, s.current).(sp := frame)))).Some?)
      && (forall t: TaskId :: t != s.current && t != s'.current ==> TaskOf(s', t) == TaskOf(s, t))
      && TaskOf(s', s'.current) == Task(Running, if s'.current == s.current then frame else resumed)
  {
    hide PickNext, Distance;
    var s1 := WithTask(s, s.current, TaskOf(s, s.current).(sp := frame));
    PickNearest(MarkFinished(s1));
  }

  /** The return of an entry function finishes the current task, which keeps its stack pointer, and changes no other. */
  lemma FinishEffect(s: Sched)
    requires Shape(s)
    ensures var s' := MarkFinished(s);
      && s'.current == s.current && TaskOf(s', s.current) == Task(Finished, TaskOf(s, s.current).sp)
      && forall t: TaskId :: t != s.current ==> TaskOf(s', t) == TaskOf(s, t)
  {
  }

  // ---- Runs ----

  /** What can happen: a yield or a timer tick, an exit call, the return of a task's entry function, a creation. */
  datatype Step = Tick(frame: u64) | ExitCall(frame: u64) | EntryReturns | Creates(stackBase: u64)

  /** The entry function of the kernel task never returns. */
  predicate Possible(s: Sched, step: Step) {
    step == EntryReturns ==> s.current >= 0
  }

  function Next(s: Sched, step: Step): (s': Sched)
    requires Shape(s)
    ensures Shape(s')
  {
    match step
    case Tick(frame) => Schedule(s, frame, true).0
    case ExitCall(frame) => Exit(s, frame).0
    case EntryReturns => MarkFinished(s)
    case Creates(stackBase) => Create(s, stackBase).0
  }

  lemma InvShape(s: Sched)
    requires Inv(s)
    ensures Shape(s)
  {
  }

  /** Every kind of step keeps the invariant, and a finished task stays finished. */
  lemma NextInv(s: Sched, step: Step)
    requires Inv(s) && Possible(s, step)
    ensures Inv(Next(s, step))
    ensures forall t: TaskId :: TaskOf(s, t).state == Finished ==> TaskOf(Next(s, step), t).state == Finished
  {
    match step
    case Tick(frame) => hide Schedule; ScheduleEffect(s, frame);
    case ExitCall(frame) => hide Exit; ExitEffect(s, frame);
    case EntryReturns =>
    case Creates(stackBase) =>
  }

  predicate PossibleRun(s: Sched, steps: seq<Step>)
    requires Shape(s)
    decreases |steps|
  {
    steps != [] ==> Possible(s, steps[0]) && PossibleRun(Next(s, steps[0]), steps[1..])
  }

  function RunSteps(s: Sched, steps: seq<Step>): (s': Sched)
    requires Shape(s)
    ensures Shape(s')
    decreases |steps|
  {
    if steps == [] then s else RunSteps(Next(s, steps[0]), steps[1..])
  }

  /** In every reachable state at most one task runs, it is the current one, and what has finished stays finished. */
  lemma {:induction false} RunSafe(s: Sched, steps: seq<Step>)
    requires Inv(s) && PossibleRun(s, steps)
    ensures Inv(RunSteps(s, steps))
    ensures forall t: TaskId :: TaskOf(s, t).state == Finished ==> TaskOf(RunSteps(s, steps), t).state == Finished
    decreases |steps|
  {
    InvShape(s);
    hide Inv, Next;
    if steps != [] {
      NextInv(s, steps[0]);
      RunSafe(Next(s, steps[0]), steps[1..]);
    }
  }

  /** What a creation does: the lowest unused slot becomes READY on its prepared stack, and nothing else changes; it
      fails exactly when no slot is unused or the stack could not be allocated. */
  lemma CreateEffect(s: Sched, stackBase: u64)
    requires Shape(s)
    ensures var (s', r) := Create(s, stackBase);
      && (r.None? <==> stackBase == 0 || forall t: TaskId :: 0 <= t ==> s.tasks[t].state != Unused)
      && (r.None? ==> s' == s)
      && (r.Some? ==>
            && 0 <= r.value && TaskOf(s, r.value).state == Unused
            && TaskOf(s', r.value) == Task(Ready, InitialSp(stackBase)) && s'.current == s.current
            && (forall t: TaskId :: 0 <= t < r.value ==> TaskOf(s, t).state != Unused)
            && (forall t: TaskId :: t != r.value ==> TaskOf(s', t) == TaskOf(s, t)))
  {
    hide FirstUnused;
    FirstUnusedLowest(s.tasks, 0);
  }

  lemma {:induction false} FirstUnusedLowest(tasks: seq<Task>, i: nat)
    requires i <= |tasks|
    ensures match FirstUnused(tasks, i)
            case None => forall k :: i <= k < |tasks| ==> tasks[k].state != Unused
            case Some(r) => i <= r < |tasks| && tasks[r].state == Unused
                            && forall k :: i <= k < r ==> tasks[k].state != Unused
    decreases |tasks| - i
  {
    if i < |tasks| && tasks[i].state != Unused {
      FirstUnusedLowest(tasks, i + 1);
    }
  }

  // ---- Bounded wait ----

  /** Whether this step asks the scheduler for a decision. */
  predicate Decides(s: Sched, step: Step) {
    step.Tick? || (step.ExitCall? && s.current != -1)
  }

  function Decisions(s: Sched, steps: seq<Step>): nat
    requires Shape(s)
    decreases |steps|
  {
    if steps == [] then 0
    else (if Decides(s, steps[0]) then 1 else 0) + Decisions(Next(s, steps[0]), steps[1..])
  }

  /** Task t waits, READY, in every state of the run. */
  predicate WaitsThroughout(s: Sched, steps: seq<Step>, t: TaskId)
    requires Shape(s)
    decreases |steps|
  {
    && TaskOf(s, t).state == Ready
    && (steps != [] ==> WaitsThroughout(Next(s, steps[0]), steps[1..], t))
  }

  /** A decision that does not pick a waiting task brings it closer. */
  lemma DecisionCloser(s: Sched, step: Step, t: TaskId)
    requires Inv(s) && Possible(s, step) && t >= 0 && s.tasks[t].state == Ready && Next(s, step).tasks[t].state == Ready
    ensures Decides(s, step) ==> Distance(Next(s, step).current, t) < Distance(s.current, t)
    ensures !Decides(s, step) ==> Next(s, step).current == s.current
  {
    if Decides(s, step) {
      var s1 := WithTask(s, s.current, TaskOf(s, s.current).(sp := step.frame));
      var s2 := if step.Tick? then s1 else MarkFinished(s1);
      PickNearest(s2);
      assert s2.tasks[t].state == Ready;
      var n := PickNext(s2).value;
      assert Distance(s.current, n) <= Distance(s.current, t);
      hide PickNext;
      assert Next(s, step).current == n;
      Closer(s.current, n, t);
    }
  }

  lemma Closer(c: TaskId, n: TaskId, t: TaskId)
    requires n >= 0 && t >= 0 && n != t && Distance(c, n) <= Distance(c, t)
    ensures Distance(n, t) < Distance(c, t)
  {
  }

  /** Bounded wait: a table task that stays READY through a run has seen fewer decisions than its cyclic distance,
      so at most 7; by the eighth decision it runs, whatever the other tasks do. */
  lemma {:induction false} BoundedWait(s: Sched, steps: seq<Step>, t: TaskId)
    requires Inv(s) && PossibleRun(s, steps) && t >= 0 && WaitsThroughout(s, steps, t)
    ensures Decisions(s, steps) < Distance(s.current, t) <= 8
    decreases |steps|
  {
    InvShape(s);
    hide Inv, Next, Distance;
    assert Distance(s.current, t) <= 8;
    if steps != [] {
      NextInv(s, steps[0]);
      DecisionCloser(s, steps[0], t);
      BoundedWait(Next(s, steps[0]), steps[1..], t);
    }
  }

  // ---- The bound is reached ----

  /** Eight creations and seven ticks. */
  function Crowd(n: nat): (steps: seq<Step>)
    ensures |steps| == n && forall k :: 0 <= k < n ==> steps[k] == Creates(0x4100_0000)
  {
    if n == 0 then [] else [Creates(0x4100_0000)] + Crowd(n - 1)
  }

  function Ticks(n: nat): (steps: seq<Step>)
    ensures |steps| == n && forall k :: 0 <= k < n ==> steps[k] == Tick(0x4000_0000)
  {
    if n == 0 then [] else [Tick(0x4000_0000)] + Ticks(n - 1)
  }

  /** The table while tasks 0 to c - 1 have been suspended and the others are as they were created. */
  ghost predicate Crowded(s: Sched, c: TaskId) {
    && Inv(s) && s.current == c && TaskOf(s, c).state == Running
    && forall t: TaskId :: 0 <= t && t != c ==> s.tasks[t].state == Ready
  }

  lemma CrowdTick(s: Sched, c: TaskId)
    requires Crowded(s, c) && c < 7
    ensures Crowded(Next(s, Tick(0x4000_0000)), c + 1)
  {
    hide PickNext, Distance;
    var s1 := WithTask(s, s.current, TaskOf(s, s.current).(sp := 0x4000_0000));
    PickOrder(s1);
    assert s1.tasks[c + 1].state == Ready;
    assert PickNext(s1) == Some(c + 1);
    ScheduleEffect(s, 0x4000_0000);
    var s' := Next(s, Tick(0x4000_0000));
    assert s'.current == c + 1;
    forall t: TaskId | 0 <= t && t != c + 1
      ensures s'.tasks[t].state == Ready
    {
      assert t != c ==> TaskOf(s', t) == TaskOf(s, t);
    }
  }

  lemma {:induction false} CrowdWaits(s: Sched, c: TaskId, n: nat)
    requires Crowded(s, c) && c + n <= 6
    ensures Shape(s) && PossibleRun(s, Ticks(n)) && WaitsThroughout(s, Ticks(n), 7) && Decisions(s, Ticks(n)) == n
    decreases n
  {
    hide Next, Inv;
    assert Shape(s) by { InvShape(s); }
    if n > 0 {
      CrowdTick(s, c);
      assert Ticks(n)[1..] == Ticks(n - 1);
      CrowdWaits(Next(s, Ticks(n)[0]), c + 1, n - 1);
    }
  }

  lemma {:induction false} CrowdCreated(s: Sched, n: nat)
    requires Inv(s) && s.current == -1 && n <= 8
    requires forall t: TaskId :: 0 <= t ==> s.tasks[t].state == if t < 8 - n then Ready else Unused
    ensures PossibleRun(s, Crowd(n)) && Crowded(RunSteps(s, Crowd(n)), -1)
    decreases n
  {
    if n > 0 {
      var step := Creates(0x4100_0000);
      var s' := Next(s, step);
      hide FirstUnused;
      CreateEffect(s, 0x4100_0000);
      NextInv(s, step);
      assert s.tasks[8 - n].state == Unused && TaskOf(s, 8 - n).state == Unused;
      var r := Create(s, 0x4100_0000).1.value;
      assert r == 8 - n;
      forall t: TaskId | 0 <= t
        ensures s'.tasks[t].state == if t < 8 - (n - 1) then Ready else Unused
      {
        assert t != r ==> TaskOf(s', t) == TaskOf(s, t);
      }
      assert Crowd(n)[1..] == Crowd(n - 1);
      assert s' == Create(s, 0x4100_0000).0;
      CrowdCreated(s', n - 1);
    }
  }

  /** The bound on the wait is reached: with all eight slots taken, the last task waits through seven decisions. */
  lemma BoundReached()
    ensures PossibleRun(START, Crowd(8))
    ensures var s := RunSteps(START, Crowd(8));
      PossibleRun(s, Ticks(7)) && WaitsThroughout(s, Ticks(7), 7) && Decisions(s, Ticks(7)) == 7
  {
    hide RunSteps, PossibleRun, WaitsThroughout, Decisions;
    CrowdCreated(START, 8);
    CrowdWaits(RunSteps(START, Crowd(8)), -1, 7);
  }

  /** Steps one after the other. */
  lemma {:induction false} RunJoin(s: Sched, a: seq<Step>, b: seq<Step>)
    requires Shape(s)
    ensures RunSteps(s, a + b) == RunSteps(RunSteps(s, a), b)
    ensures forall step :: RunSteps(s, [step]) == Next(s, step)
    decreases |a|
  {
    hide Next;
    forall step
      ensures RunSteps(s, [step]) == Next(s, step)
    {
      assert [step][1..] == [];
    }
    if a == [] {
      assert a + b == b;
    } else {
      assert (a + b)[1..] == a[1..] + b;
      RunJoin(Next(s, a[0]), a[1..], b);
    }
  }

  // ---- Context integrity ----

  datatype Event = Suspended(t: TaskId, frame: u64) | Prepared(t: TaskId, frame: u64) | Resumed(t: TaskId, frame: u64)

  /** What a step adds to the record of saved and resumed contexts. */
  function Events(s: Sched, step: Step): seq<Event>
    requires Shape(s)
  {
    match step
    case Tick(frame) =>
      var (s', resumed) := Schedule(s, frame, true);
      [Suspended(s.current, frame), Resumed(s'.current, resumed)]
    case ExitCall(frame) =>
      var (s', resumed) := Exit(s, frame);
      [Suspended(s.current, frame), Resumed(s'.current, resumed)]
    case EntryReturns => []
    case Creates(stackBase) =>
      var (_, t) := Create(s, stackBase);
      if t.None? then [] else [Prepared(t.value, InitialSp(stackBase))]
  }

  function Trace(s: Sched, steps: seq<Step>): seq<Event>
    requires Shape(s)
    decreases |steps|
  {
    if steps == [] then [] else Events(s, steps[0]) + Trace(Next(s, steps[0]), steps[1..])
  }

  /** The frame at which task t was last suspended, or its prepared initial frame. */
  function LastSaved(trace: seq<Event>, t: TaskId): Option<u64> {
    if trace == [] then None
    else
      var last := trace[|trace| - 1];
      if !last.Resumed? && last.t == t then Some(last.frame) else LastSaved(trace[..|trace| - 1], t)
  }

  /** Every task that is not running is remembered with the frame it must be resumed with. */
  ghost predicate Remembered(s: Sched, trace: seq<Event>)
    requires Shape(s)
  {
    forall t: TaskId :: t != s.current && TaskOf(s, t).state == Ready ==> LastSaved(trace, t) == Some(TaskOf(s, t).sp)
  }

  /** Event k of a trace, if it resumes a task, resumes it with the frame saved last. */
  ghost predicate FaithfulResume(trace: seq<Event>, k: nat)
    requires k < |trace|
  {
    trace[k].Resumed? ==> LastSaved(trace[..k], trace[k].t) == Some(trace[k].frame)
  }

  ghost predicate AllFaithful(trace: seq<Event>) {
    forall k :: 0 <= k < |trace| ==> FaithfulResume(trace, k)
  }

  lemma LastSavedSnoc(trace: seq<Event>, e: Event, t: TaskId)
    ensures LastSaved(trace + [e], t) == if !e.Resumed? && e.t == t then Some(e.frame) else LastSaved(trace, t)
  {
    assert (trace + [e])[..|trace|] == trace;
  }

  /** A switch saves the current task's frame and resumes the next task with the frame saved for it. */
  lemma SwitchRemembered(s: Sched, s': Sched, trace: seq<Event>, frame: u64, resumed: u64)
    requires Inv(s) && Inv(s') && Remembered(s, trace)
    requires s'.current == s.current ==> resumed == frame
    requires s'.current != s.current ==> TaskOf(s, s'.current).state == Ready && resumed == TaskOf(s, s'.current).sp
    requires TaskOf(s', s.current).sp == frame
    requires forall t: TaskId :: t != s.current && t != s'.current ==> TaskOf(s', t) == TaskOf(s, t)
    ensures var more := trace + [Suspended(s.current, frame)];
      && LastSaved(more, s'.current) == Some(resumed)
      && Remembered(s', more + [Resumed(s'.current, resumed)])
  {
    hide LastSaved;
    var saved, switched := Suspended(s.current, frame), Resumed(s'.current, resumed);
    forall t: TaskId
      ensures LastSaved(trace + [saved] + [switched], t) == LastSaved(trace + [saved], t)
      ensures LastSaved(trace + [saved], t) == if t == s.current then Some(frame) else LastSaved(trace, t)
    {
      LastSavedSnoc(trace, saved, t);
      LastSavedSnoc(trace + [saved], switched, t);
    }
  }

  lemma StepRemembered(s: Sched, step: Step, trace: seq<Event>)
    requires Inv(s) && Possible(s, step) && Remembered(s, trace)
    ensures Remembered(Next(s, step), trace + Events(s, step))
    ensures forall k :: |trace| <= k < |trace + Events(s, step)| ==> FaithfulResume(trace + Events(s, step), k)
  {
    hide LastSaved;
    NextInv(s, step);
    var events := Events(s, step);
    match step
    case Tick(frame) =>
      hide Schedule;
      ScheduleEffect(s, frame);
      var (s', resumed) := Schedule(s, frame, true);
      SwitchRemembered(s, s', trace, frame, resumed);
      TwoEvents(trace, events);
    case ExitCall(frame) =>
      hide Exit;
      ExitEffect(s, frame);
      var (s', resumed) := Exit(s, frame);
      SwitchRemembered(s, s', trace, frame, resumed);
      TwoEvents(trace, events);
    case EntryReturns =>
      assert trace + events == trace;
    case Creates(stackBase) =>
      if events == [] {
        assert trace + events == trace;
      } else {
        forall t: TaskId
          ensures LastSaved(trace + events, t) == if t == events[0].t then Some(events[0].frame)
            else LastSaved(trace, t)
        {
          LastSavedSnoc(trace, events[0], t);
        }
      }
  }

  lemma TwoEvents(trace: seq<Event>, events: seq<Event>)
    requires |events| == 2
    ensures trace + events == trace + [events[0]] + [events[1]]
    ensures (trace + events)[..|trace| + 1] == trace + [events[0]]
  {
  }

  lemma FaithfulLonger(trace: seq<Event>, more: seq<Event>, k: nat)
    requires k < |trace| && FaithfulResume(trace, k)
    ensures FaithfulResume(trace + more, k)
  {
    hide LastSaved;
    assert (trace + more)[..k] == trace[..k];
  }

  lemma StepFaithful(s: Sched, step: Step, trace: seq<Event>)
    requires Inv(s) && Possible(s, step) && Remembered(s, trace) && AllFaithful(trace)
    ensures Remembered(Next(s, step), trace + Events(s, step)) && AllFaithful(trace + Events(s, step))
  {
    InvShape(s);
    hide Inv, Next, Remembered, FaithfulResume, Events;
    StepRemembered(s, step, trace);
    forall k | 0 <= k < |trace|
      ensures FaithfulResume(trace + Events(s, step), k)
    {
      FaithfulLonger(trace, Events(s, step), k);
    }
  }

  lemma JoinEvents(a: seq<Event>, b: seq<Event>, c: seq<Event>)
    ensures a + b + c == a + (b + c)
  {
  }

  /** In every run a resumed task gets exactly the frame at which it was last suspended or, the first time, its
      prepared initial frame. */
  lemma {:induction false} ContextIntegrity(s: Sched, steps: seq<Step>, trace: seq<Event>)
    requires Inv(s) && PossibleRun(s, steps) && Remembered(s, trace) && AllFaithful(trace)
    ensures AllFaithful(trace + Trace(s, steps))
    decreases |steps|
  {
    InvShape(s);
    hide Inv, Next, Remembered, AllFaithful, Events;
    if steps == [] {
      assert trace + Trace(s, steps) == trace;
    } else {
      var s1 := Next(s, steps[0]);
      NextInv(s, steps[0]);
      StepFaithful(s, steps[0], trace);
      ContextIntegrity(s1, steps[1..], trace + Events(s, steps[0]));
      JoinEvents(trace, Events(s, steps[0]), Trace(s1, steps[1..]));
    }
  }

  // ---- Finished for good ----

  /** The trace never resumes task t. */
  ghost predicate NeverResumed(trace: seq<Event>, t: TaskId) {
    forall k :: 0 <= k < |trace| && trace[k].Resumed? ==> trace[k].t != t
  }

  lemma StepNeverResumes(s: Sched, step: Step, t: TaskId)
    requires Inv(s) && Possible(s, step) && TaskOf(s, t).state == Finished
    ensures NeverResumed(Events(s, step), t)
  {
    match step
    case Tick(frame) => hide Schedule; ScheduleEffect(s, frame);
    case ExitCall(frame) => hide Exit; ExitEffect(s, frame);
    case EntryReturns =>
    case Creates(stackBase) =>
  }

  lemma {:induction false} FinishedNeverResumed(s: Sched, steps: seq<Step>, t: TaskId)
    requires Inv(s) && PossibleRun(s, steps) && TaskOf(s, t).state == Finished
    ensures NeverResumed(Trace(s, steps), t)
    decreases |steps|
  {
    InvShape(s);
    hide Inv, Next, Events;
    if steps != [] {
      StepNeverResumes(s, steps[0], t);
      NextInv(s, steps[0]);
      FinishedNeverResumed(Next(s, steps[0]), steps[1..], t);
    }
  }

  /** Once its entry function has returned, or it has called exit, a table task is finished and no continuation of the
      run resumes it. */
  lemma EndedForGood(s: Sched, step: Step, more: seq<Step>)
    requires Inv(s) && s.current >= 0 && (step.EntryReturns? || step.ExitCall?) && PossibleRun(Next(s, step), more)
    ensures TaskOf(Next(s, step), s.current).state == Finished
    ensures NeverResumed(Events(s, step) + Trace(Next(s, step), more), s.current)
  {
    hide Trace, Exit;
    FinishEffect(s);
    if step.ExitCall? {
      ExitEffect(s, step.frame);
    }
    NextInv(s, step);
    FinishedNeverResumed(Next(s, step), more, s.current);
  }

  // ---- From the start ----

  /** After any run from task_init: the invariant holds, every resumption was faithful, and whichever table task then
      waits READY sees at most 7 decisions before it runs. */
  lemma EveryRun(steps: seq<Step>, more: seq<Step>, t: TaskId)
    requires PossibleRun(START, steps)
    ensures Inv(RunSteps(START, steps)) && AllFaithful(Trace(START, steps))
    ensures var s := RunSteps(START, steps);
      t >= 0 && PossibleRun(s, more) && WaitsThroughout(s, more, t) ==> Decisions(s, more) <= 7
  {
    hide RunSteps, Trace, WaitsThroughout, Decisions, PossibleRun, Next;
    RunSafe(START, steps);
    ContextIntegrity(START, steps, []);
    assert [] + Trace(START, steps) == Trace(START, steps);
    var s := RunSteps(START, steps);
    if t >= 0 && PossibleRun(s, more) && WaitsThroughout(s, more, t) {
      BoundedWait(s, more, t);
    }
  }
}
