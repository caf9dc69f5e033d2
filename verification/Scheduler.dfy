/** The scheduler of one processor: ready queues linked through the tasks, a running task and an idle task. */
module Scheduler {
  import opened SchedulerModel

  // where a task context is: in the ready queue of a level, in none, or the sentinel of the queue of level p
  const NOWHERE := -1
  function SentinelOf(level: int): int { NUM_PRIS + level }

  class TaskContext {
    // NUM_PRIS for the idle task, anything else for other tasks; nothing but starting the idle task ever sets it
    var pri: int
    // next task in the same ready queue
    var next: TaskContext?
    ghost var place: int

    constructor (level: int, ghost where: int)
      ensures pri == level && next == null && place == where
    {
      pri, next, place := level, null, where;
    }
  }

  class ReadyQueue {
    ghost const level: int
    const head: TaskContext
    var tail: TaskContext
    ghost var tasks: seq<TaskContext>

    constructor (ghost p: int)
      requires 0 <= p < NUM_PRIS
      ensures Valid() && tasks == [] && level == p && fresh(head)
    {
      var sentinel := new TaskContext(0, SentinelOf(p));
      level, head, tail, tasks := p, sentinel, sentinel, [];
    }

    ghost function At(i: int): TaskContext?
      reads this
    {
      if 0 <= i < |tasks| then tasks[i] else null
    }

    /**
     * The chain from the sentinel is the queue, without repetition; the tail is its last node, or the sentinel
     * when it is empty.
     */
    ghost predicate Valid()
      reads this, head, tasks
    {
      && 0 <= level < NUM_PRIS && head.place == SentinelOf(level) && head.next == At(0)
      && tail == (if tasks == [] then head else tasks[|tasks| - 1])
      && (forall i :: 0 <= i < |tasks| ==>
         tasks[i].place == level && tasks[i].next == At(i + 1) && tasks[i].pri != NUM_PRIS)
      && (forall i, j :: 0 <= i < j < |tasks| ==> tasks[i] != tasks[j])
    }

    method Push(task: TaskContext)
      requires Valid() && task.place == NOWHERE && task.pri != NUM_PRIS
      modifies this, tail`next, task`next, task`place
      ensures Valid() && tasks == old(tasks) + [task] && task.place == level
    {
      if head.next == null && tail != head {
        // the processor would spin here for ever
        assert false;
      }
      tail.next := task;
      tail := task;
      task.next := null;
      task.place := level;
      tasks := tasks + [task];
    }

    method TryPop() returns (task: TaskContext?)
      requires Valid()
      modifies this, head`next, tasks`place
      ensures Valid()
      ensures if old(tasks) == [] then task == null && tasks == []
              else task == old(tasks)[0] && tasks == old(tasks)[1..] && task.place == NOWHERE && task.pri != NUM_PRIS
    {
      task := null;
      if head.next != null {
        task := head.next;
        head.next := task.next;
        if head.next == null {
          tail := head;
        }
        task.place := NOWHERE;
        tasks := tasks[1..];
      }
    }
  }

  class CpuContext {
    const queues: seq<ReadyQueue>
    var running: TaskContext?
    var idle: TaskContext?
    // every task context of this processor: sentinels, tasks and idle
    ghost var known: set<TaskContext>
    ghost var view: State<TaskContext>

    constructor ()
      ensures Valid() && view == Boot() && fresh(known) && fresh(queues)
    {
      var q0 := new ReadyQueue(0);
      var q1 := new ReadyQueue(1);
      var q2 := new ReadyQueue(2);
      hide *;
      queues := [q0, q1, q2];
      running, idle := null, null;
      known := {q0.head, q1.head, q2.head};
      view := Boot();
      new;
      StartsEmpty(q0, q1, q2);
    }

    lemma StartsEmpty(q0: ReadyQueue, q1: ReadyQueue, q2: ReadyQueue)
      requires queues == [q0, q1, q2] && known == {q0.head, q1.head, q2.head}
      requires view == Boot() && running == null && idle == null
      requires q0.Valid() && q0.tasks == [] && q0.level == 0
      requires q1.Valid() && q1.tasks == [] && q1.level == 1
      requires q2.Valid() && q2.tasks == [] && q2.level == 2
      ensures Valid()
    {
      hide ReadyQueue.Valid;
      assert Boot<TaskContext>().queues == [[], [], []];
      assert QueuesAre(view.queues);
      assert QueuesValid();
    }

    /** What is in the queues and who runs is what the abstract state says. */
    ghost predicate Shows()
      reads this, queues
    {
      QueuesAre(view.queues) && (view.started <==> idle != null) && view.running == Now()
    }

    ghost predicate QueuesAre(queued: seq<seq<TaskContext>>)
      reads queues
    {
      |queues| == NUM_PRIS == |queued| && forall p :: 0 <= p < NUM_PRIS ==> queues[p].tasks == queued[p]
    }

    ghost function Now(): Running<TaskContext>
      reads this`running, this`idle
    {
      if running == null then Nobody else if running == idle then Idle else (var r: TaskContext := running; Task(r))
    }

    ghost predicate Valid()
      reads this, queues, known
    {
      && Shows()
      && QueuesValid()
      && OutsideValid()
    }

    /** Idle and the running task are known and in no queue, and idle alone has the mark. */
    ghost predicate OutsideValid()
      reads this`known, this`running, this`idle, known
    {
      && (running != null ==>
         running in known && running.place == NOWHERE && (running.pri == NUM_PRIS <==> running == idle))
      && (idle != null ==> idle in known && idle.place == NOWHERE && idle.pri == NUM_PRIS)
    }

    /** Idle and the running task are in no queue, and no task is in two. */
    lemma QueuesAreDisjoint(p: nat, q: nat, t: TaskContext)
      requires Valid() && p < NUM_PRIS && q < NUM_PRIS && t in queues[p].tasks
      ensures t != idle && t != running && t != queues[q].head && (t in queues[q].tasks ==> p == q)
    {
      assert queues[p].Valid() && queues[q].Valid();
    }

    /** The queues, each well-formed and made of known contexts, apart from what the abstract state says. */
    ghost predicate QueuesValid()
      reads this`known, queues, known
    {
      |queues| == NUM_PRIS && forall p :: 0 <= p < NUM_PRIS ==>
        queues[p].level == p && queues[p].head in known && (forall t :: t in queues[p].tasks ==> t in known)
            && queues[p].Valid()
    }

    /** Puts a task that is in no queue at the end of a level. */
    method PushTask(pri: nat, task: TaskContext, ghost queued: seq<seq<TaskContext>>)
      requires QueuesValid() && QueuesAre(queued)
      requires pri < NUM_PRIS && task.place == NOWHERE && task.pri != NUM_PRIS && task in known
      modifies queues[pri], known
      ensures QueuesValid() && QueuesAre(queued[pri := queued[pri] + [task]])
      ensures forall t :: t in known ==> t.pri == old(t.pri) && (t != task ==> t.place == old(t.place))
    {
      assert queues[pri].Valid();
      queues[pri].Push(task);
      assert forall q :: 0 <= q < NUM_PRIS && q != pri ==> queues[q].Valid();
    }

    /** Takes the first task of a level, if it has one. */
    method TryPopTask(pri: nat, ghost queued: seq<seq<TaskContext>>) returns (task: TaskContext?)
      requires QueuesValid() && QueuesAre(queued) && pri < NUM_PRIS
      modifies queues[pri], known
      ensures QueuesValid()
      ensures if queued[pri] == [] then task == null && QueuesAre(queued)
              else task == queued[pri][0] && QueuesAre(queued[pri := queued[pri][1..]])
                   && task in known && task.place == NOWHERE && task.pri != NUM_PRIS
      ensures forall t :: t in known ==> t.pri == old(t.pri) && (t != task ==> t.place == old(t.place))
    {
      assert queues[pri].Valid();
      task := queues[pri].TryPop();
      forall q | 0 <= q < NUM_PRIS && q != pri ensures queues[q].Valid() {
        assert old(queues[q].Valid()) && queues[q].tasks == old(queues[q].tasks);
      }
    }

    /**
     * The first ready task of level `pri`, if there is one, takes over; the task it replaces, unless it is idle,
     * goes to the end of that level.
     */
    method SwapIn(pri: nat) returns (task: TaskContext?)
      requires Valid() && pri < NUM_PRIS && FirstReady(view.queues, 0) >= pri
      modifies this`running, this`view, queues, known
      ensures Valid() && (task == null <==> old(view).queues[pri] == [])
      ensures if task == null then view == old(view) && running == old(running)
              else view == Yield(old(view)) && running == task && running != old(running)
    {
      assert |queues| == NUM_PRIS == |view.queues|;
      hide QueuesValid, QueuesAre;
      task := TryPopTask(pri, view.queues);
      if task != null {
        assert FirstReady(view.queues, 0) == pri;
        TakeOver(pri, task);
      }
    }

    /** Queues the running task, unless it is idle or has finished. */
    method PutBack(pri: nat, ghost queued: seq<seq<TaskContext>>)
      requires QueuesValid() && QueuesAre(queued) && OutsideValid() && pri < NUM_PRIS
      modifies queues, known
      ensures QueuesValid() && QueuesAre(queued[pri := queued[pri] + Requeued(Now())])
      ensures idle != null ==> idle in known && idle.place == NOWHERE && idle.pri == NUM_PRIS
      ensures forall t :: t in known ==> t.pri == old(t.pri) && (t != running ==> t.place == old(t.place))
    {
      assert |queues| == NUM_PRIS == |queued|;
      hide QueuesValid, QueuesAre;
      if running != null && running.pri != NUM_PRIS {
        PushTask(pri, running, queued);
      } else {
        assert queued[pri] + [] == queued[pri] && queued[pri := queued[pri]] == queued;
      }
    }

    /**
     * The task just taken from level `pri` runs; the one it replaces, unless it is idle, goes to the end of that
     * level.
     */
    method TakeOver(pri: nat, task: TaskContext)
      requires QueuesValid() && OutsideValid() && pri < NUM_PRIS == |view.queues|
      requires task in known && task.place == NOWHERE && task.pri != NUM_PRIS && task != running
      requires view.running == Now() && (view.started <==> idle != null)
      requires view.queues[pri] != [] && QueuesAre(view.queues[pri := view.queues[pri][1..]])
      modifies this`running, this`view, queues, known
      ensures Valid() && running == task
      ensures view == State(old(view).queues[pri := old(view).queues[pri][1..] + Requeued(old(view).running)],
              Task(task), old(view).started)
    {
      hide QueuesValid, QueuesAre, Requeued;
      ghost var rest := view.queues[pri := view.queues[pri][1..]];
      ghost var after := view.queues[pri := view.queues[pri][1..] + Requeued(view.running)];
      PutBack(pri, rest);
      assert rest[pri := rest[pri] + Requeued(view.running)] == after;
      running := task;
      view := State(after, Task(task), view.started);
    }

    /** Picks the next task, or keeps the running one when no task is ready. */
    method SelectNext() returns (next: TaskContext?)
      requires Valid()
      modifies this`running, this`view, queues, known
      ensures Valid() && next == running && (next == old(running) <==> !AnyReady(old(view)))
      ensures view == if AnyReady(old(view)) then Yield(old(view)) else old(view)
    {
      assert |view.queues| == NUM_PRIS;
      hide Valid, Yield;
      ghost var before := view;
      next := running;
      var pri := 0;
      while pri < NUM_PRIS
        invariant 0 <= pri <= NUM_PRIS && FirstReady(before.queues, 0) >= pri
        invariant Valid() && view == before && running == next
      {
        var task := SwapIn(pri);
        if task != null {
          next := running;
          break;
        }
        pri := pri + 1;
      }
    }

    /** Gives the processor to the next ready task, or to idle when nobody is left. */
    method YieldToNext()
      requires Valid()
      modifies this`running, this`view, queues, known
      ensures Valid() && view == Yield(old(view))
    {
      var prev := running;
      var next := SelectNext();
      if next != null && next == prev {
        return;
      }
      if next == null {
        if prev != idle {
          running := idle;
          view := Yield(view);
        }
      }
    }

    /** What follows the return of the running task's function. */
    method Finish()
      requires Valid() && running != null && running != idle
      modifies this`running, this`view, queues, known
      ensures Valid() && view == SchedulerModel.Finish(old(view))
    {
      running := null;
      view := view.(running := Nobody);
      YieldToNext();
    }

    /** `garbage` is what the level field of the new context happens to hold: creating a task does not set it. */
    method Create(pri: nat, garbage: int) returns (task: TaskContext)
      requires Valid() && pri < NUM_PRIS && garbage != NUM_PRIS
      modifies this`known, this`view, queues, known
      ensures Valid() && fresh(task) && known == old(known) + {task}
              && view == SchedulerModel.Create(old(view), pri, task)
    {
      task := new TaskContext(garbage, NOWHERE);
      known := known + {task};
      assert Valid();
      hide Valid;
      Enqueue(pri, task);
    }

    /** A context that is in no queue and does not run becomes ready. */
    method Enqueue(pri: nat, task: TaskContext)
      requires Valid() && pri < NUM_PRIS && task in known && task.place == NOWHERE && task.pri != NUM_PRIS
               && task != running
      modifies this`view, queues, known
      ensures Valid() && view == SchedulerModel.Create(old(view), pri, task)
    {
      assert |queues| == NUM_PRIS == |view.queues| && OutsideValid();
      assert view.running == Now() && (view.started <==> idle != null);
      hide QueuesValid, QueuesAre, Now, SchedulerModel.Create;
      PushTask(pri, task, view.queues);
      assert OutsideValid();
      hide *;
      view := SchedulerModel.Create(view, pri, task);
      KeepsShowing();
    }

    lemma KeepsShowing()
      requires QueuesValid() && OutsideValid() && QueuesAre(view.queues)
      requires view.running == Now() && (view.started <==> idle != null)
      ensures Valid()
    {
    }

    method StartIdle()
      requires Valid() && running == null && idle == null
      modifies this, queues, known
      ensures Valid() && idle != null && fresh(idle) && view == SchedulerModel.StartIdle(old(view))
    {
      running := null;
      var task := new TaskContext(0, NOWHERE);
      task.pri := NUM_PRIS;
      idle := task;
      known := known + {task};
      view := view.(running := Nobody, started := true);
      YieldToNext();
    }
  }
}
