/** The scheduler's code: the table of tasks, the kernel task and the running one, updated in place. */
module Scheduler {
  import opened Bytes
  import opened SchedulerModel

  class Kernel {
    const taskTable: array<Task>
    var kernelTask: Task
    var current: TaskId
    /** The trap frames in memory, by address. */
    var frames: map<u64, Frame>

    ghost predicate Valid() {
      taskTable.Length == TASK_MAX
    }

    ghost function View(): Sched
      reads this, taskTable
    {
      Sched(taskTable[..], kernelTask, current)
    }

    /** task_init. */
    constructor ()
      ensures Valid() && fresh(taskTable) && View() == START
    {
      taskTable := new Task[TASK_MAX](_ => Task(Unused, 0));
      kernelTask := Task(Running, 0);
      current := -1;
      frames := map[];
    }

    method GetTask(t: TaskId) returns (x: Task)
      requires Valid()
      ensures x == TaskOf(View(), t)
    {
      x := if t == -1 then kernelTask else taskTable[t];
    }

    method SetTask(t: TaskId, x: Task)
      requires Valid()
      modifies this`kernelTask, taskTable
      ensures View() == old(WithTask(View(), t, x))
    {
      if t == -1 {
        kernelTask := x;
      } else {
        taskTable[t] := x;
      }
    }

    /** task_pick_next. */
    method PickNextTask() returns (r: Option<TaskId>)
      requires Valid()
      ensures r == PickNext(View())
    {
      var i := 1;
      while i <= TASK_MAX
        invariant 1 <= i <= TASK_MAX + 1 && PickNext(View()) == PickFrom(View(), i)
      {
        var candidate := (current + i + TASK_MAX) % TASK_MAX;
        if taskTable[candidate].state == Ready {
          return Some(candidate);
        }
        i := i + 1;
      }
      return if current != -1 then Some(-1) else None;
    }

    /** task_schedule_from_exception. */
    method ScheduleFromException(frame: u64, canContinue: bool) returns (resumed: u64)
      requires Valid()
      modifies this`kernelTask, this`current, taskTable
      ensures (View(), resumed) == old(Schedule(View(), frame, canContinue))
    {
      hide PickNext;
      var previous := current;
      var task := GetTask(previous);
      SetTask(previous, task.(sp := frame));
      var next := PickNextTask();
      if next.None? || next.value == previous {
        return frame;
      }
      if canContinue && task.state == Running {
        SetTask(previous, Task(Ready, frame));
      }
      var nextTask := GetTask(next.value);
      SetTask(next.value, nextTask.(state := Running));
      current := next.value;
      return nextTask.sp;
    }

    /** task_exit_from_exception. The kernel task does not end: it finds the status in the frame it returns to. */
    method ExitFromException(frame: u64, status: u64) returns (resumed: u64)
      requires Valid() && (current == -1 ==> frame in frames)
      modifies this`kernelTask, this`current, this`frames, taskTable
      ensures (View(), resumed) == old(Exit(View(), frame))
      ensures frames ==
        if old(current) == -1 then old(frames[frame := frames[frame].(x := frames[frame].x[0 := status])])
                        else old(frames)
    {
      hide PickNext;
      var previous := current;
      var task := GetTask(previous);
      SetTask(previous, task.(sp := frame));
      if previous == -1 {
        frames := frames[frame := frames[frame].(x := frames[frame].x[0 := status])];
        return frame;
      }
      SetTask(previous, Task(Finished, frame));
      var next := PickNextTask();
      if next.None? {
        kernelTask := kernelTask.(state := Running);
        current := -1;
        return kernelTask.sp;
      }
      var nextTask := GetTask(next.value);
      SetTask(next.value, nextTask.(state := Running));
      current := next.value;
      return nextTask.sp;
    }

    /** task_mark_finished of the current task, as task_trampoline calls it. */
    method MarkCurrentFinished()
      requires Valid()
      modifies this`kernelTask, taskTable
      ensures View() == old(MarkFinished(View()))
      ensures TaskOf(View(), current) == Task(Finished, old(TaskOf(View(), current).sp))
      ensures forall t: TaskId :: t != current ==> TaskOf(View(), t) == old(TaskOf(View(), t))
    {
      var task := GetTask(current);
      SetTask(current, task.(state := Finished));
    }

    /** task_create. */
    method CreateTask(stackBase: u64, trampoline: u64, daif: u64) returns (r: Option<TaskId>)
      requires Valid()
      modifies this`frames, taskTable
      ensures (View(), r) == old(Create(View(), stackBase))
      ensures frames == if r.None? then old(frames)
                        else old(frames)[InitialSp(stackBase) := PreparedFrame(stackBase, trampoline, daif)]
    {
      for i := 0 to TASK_MAX
        invariant frames == old(frames)
        invariant View() == old(View()) && FirstUnused(taskTable[..], 0) == FirstUnused(taskTable[..], i)
      {
        if taskTable[i].state != Unused {
          continue;
        }
        if stackBase == 0 {
          return None;
        }
        frames := frames[InitialSp(stackBase) := PreparedFrame(stackBase, trampoline, daif)];
        taskTable[i] := Task(Ready, InitialSp(stackBase));
        return Some(i);
      }
      return None;
    }
  }
}
