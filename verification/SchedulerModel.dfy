/** The cooperative scheduler of one processor as a step system over task names. */
module SchedulerModel {
  import opened Arithmetic

  const NUM_PRIS := 3

  datatype Running<T> = Nobody | Idle | Task(task: T)

  /** `queues[p]` holds the ready tasks of level p, next one first; `started` says whether the idle task exists yet. */
  datatype State<T> = State(queues: seq<seq<T>>, running: Running<T>, started: bool)

  ghost predicate WellFormed<T>(s: State<T>) {
    |s.queues| == NUM_PRIS && (s.running.Idle? ==> s.started)
  }

  function Boot<T>(): State<T> { State([[], [], []], Nobody, false) }

  /** The highest level with a ready task; the number of levels if there is none. */
  function FirstReady<T>(queues: seq<seq<T>>, from: nat): (p: nat)
    requires from <= |queues|
    ensures from <= p <= |queues| && (p < |queues| ==> queues[p] != []) && forall q :: from <= q < p ==> queues[q] == []
    decreases |queues| - from
  {
    if from == |queues| || queues[from] != [] then from else FirstReady(queues, from + 1)
  }

  predicate AnyReady<T>(s: State<T>) { FirstReady(s.queues, 0) < |s.queues| }

  function Create<T>(s: State<T>, pri: nat, task: T): State<T>
    requires pri < |s.queues|
  {
    s.(queues := s.queues[pri := s.queues[pri] + [task]])
  }

  function Requeued<T>(running: Running<T>): seq<T> { if running.Task? then [running.task] else [] }

  /** The first ready task of the highest level runs; the task it replaces goes to the end of that same level. */
  function Yield<T>(s: State<T>): State<T> {
    var p := FirstReady(s.queues, 0);
    if p < |s.queues| then
      State(s.queues[p := s.queues[p][1..] + Requeued(s.running)], Task(s.queues[p][0]), s.started)
    else if s.running.Nobody? && s.started then s.(running := Idle)
    else s
  }

  /** The running task returns from its function. */
  function Finish<T>(s: State<T>): State<T> { Yield(s.(running := Nobody)) }

  function StartIdle<T>(s: State<T>): State<T> { Yield(s.(running := Nobody, started := true)) }

  // ---------------------------------------------------------------- nobody is lost

  ghost function CountQueued<T>(queues: seq<seq<T>>, t: T): nat {
    if queues == [] then 0 else multiset(queues[0])[t] + CountQueued(queues[1..], t)
  }

  /** In how many places task `t` is: running, or ready in some queue. */
  ghost function Places<T>(s: State<T>, t: T): nat { CountQueued(s.queues, t) + if s.running == Task(t) then 1 else 0 }

  lemma {:induction false} CountUpdate<T>(queues: seq<seq<T>>, p: nat, q: seq<T>, t: T)
    requires p < |queues|
    ensures CountQueued(queues[p := q], t) == CountQueued(queues, t) - multiset(queues[p])[t] + multiset(q)[t]
  {
    if p == 0 {
      assert queues[p := q][1..] == queues[1..];
    } else {
      assert queues[p := q][1..] == queues[1..][p - 1 := q];
      CountUpdate(queues[1..], p - 1, q, t);
    }
  }

  lemma RotatedCount<T>(q: seq<T>, back: seq<T>, t: T)
    requires q != []
    ensures multiset(q[1..] + back)[t] + (if q[0] == t then 1 else 0) == multiset(q)[t] + multiset(back)[t]
  {
    assert q == [q[0]] + q[1..];
  }

  /** A yield loses and duplicates no task. */
  lemma YieldKeepsPlaces<T>(s: State<T>, t: T)
    ensures Places(Yield(s), t) == Places(s, t)
  {
    hide CountQueued;
    var p := FirstReady(s.queues, 0);
    if p < |s.queues| {
      var q := s.queues[p];
      var back := Requeued(s.running);
      CountUpdate(s.queues, p, q[1..] + back, t);
      RotatedCount(q, back, t);
    }
  }

  datatype Op<T> = DoCreate(pri: nat, task: T) | DoYield | DoFinish | DoStartIdle

  /**
   * A fresh task is created at a real level, only a running task finishes, and the idle task is started once, at
   * boot.
   */
  ghost predicate Allowed<T>(s: State<T>, everCreated: set<T>, op: Op<T>) {
    match op
    case DoCreate(pri, task) => pri < NUM_PRIS && task !in everCreated
    case DoYield => true
    case DoFinish => s.running.Task?
    case DoStartIdle => s.running.Nobody? && !s.started
  }

  function Next<T>(s: State<T>, op: Op<T>): State<T>
    requires op.DoCreate? ==> op.pri < |s.queues|
  {
    match op
    case DoCreate(pri, task) => Create(s, pri, task)
    case DoYield => Yield(s)
    case DoFinish => Finish(s)
    case DoStartIdle => StartIdle(s)
  }

  /** A state with the tasks ever created, those that have finished, and the level each was created at. */
  datatype History<T> = History(s: State<T>, created: set<T>, finished: set<T>, level: map<T, nat>)

  ghost predicate Steps<T>(h: History<T>, op: Op<T>, h': History<T>)
    requires |h.s.queues| == NUM_PRIS
  {
    && Allowed(h.s, h.created, op) && h'.s == Next(h.s, op)
    && h'.created == h.created + (if op.DoCreate? then {op.task} else {})
    && h'.finished == h.finished + (if op.DoFinish? then {h.s.running.task} else {})
    && h'.level == if op.DoCreate? then h.level[op.task := op.pri] else h.level
  }

  ghost predicate IsRun<T>(run: seq<History<T>>, ops: seq<Op<T>>) {
    && |run| == |ops| + 1 && run[0] == History(Boot(), {}, {}, map[])
    && forall k :: 0 <= k < |ops| ==> |run[k].s.queues| == NUM_PRIS && Steps(run[k], ops[k], run[k + 1])
  }

  /**
   * In every state of every run a task that was created and has not finished is in exactly one place, and any
   * other in none.
   */
  lemma {:induction false} EveryRunKeepsTasks<T>(run: seq<History<T>>, ops: seq<Op<T>>, k: nat, t: T)
    requires IsRun(run, ops) && k < |run|
    ensures WellFormed(run[k].s) && run[k].finished <= run[k].created
    ensures Places(run[k].s, t) == if t in run[k].created - run[k].finished then 1 else 0
  {
    if k > 0 {
      EveryRunKeepsTasks(run, ops, k - 1, t);
      var s := run[k - 1].s;
      assert Steps(run[k - 1], ops[k - 1], run[k]);
      match ops[k - 1]
      case DoCreate(pri, task) =>
        CountUpdate(s.queues, pri, s.queues[pri] + [task], t);
      case DoYield =>
        YieldKeepsPlaces(s, t);
      case DoFinish =>
        EveryRunKeepsTasks(run, ops, k - 1, s.running.task);
        YieldKeepsPlaces(s.(running := Nobody), t);
      case DoStartIdle =>
        YieldKeepsPlaces(s.(running := Nobody, started := true), t);
    }
  }

  ghost predicate NothingReady<T>(queues: seq<seq<T>>) { forall p :: 0 <= p < |queues| ==> queues[p] == [] }

  lemma {:induction false} RunIsWellFormed<T>(run: seq<History<T>>, ops: seq<Op<T>>, k: nat)
    requires IsRun(run, ops) && k < |run|
    ensures WellFormed(run[k].s)
  {
    if k > 0 {
      RunIsWellFormed(run, ops, k - 1);
      assert Steps(run[k - 1], ops[k - 1], run[k]);
    }
  }

  /** The idle task exists from the step that starts it on. */
  lemma {:induction false} StartedIff<T>(run: seq<History<T>>, ops: seq<Op<T>>, k: nat)
    requires IsRun(run, ops) && k < |run|
    ensures run[k].s.started <==> exists j :: 0 <= j < k && ops[j] == DoStartIdle
  {
    if k > 0 {
      StartedIff(run, ops, k - 1);
      assert Steps(run[k - 1], ops[k - 1], run[k]);
    }
  }

  /**
   * After every step of every run but a creation, idle runs if and only if it has been started, no task is ready and no
   * ordinary task runs; an ordinary task runs if and only if one was ready before or the step is the yield of one. A
   * creation changes nothing of that.
   */
  lemma IdleRunsIff<T>(run: seq<History<T>>, ops: seq<Op<T>>, k: nat)
    requires IsRun(run, ops) && k < |ops|
    ensures var before, after := run[k].s, run[k + 1].s;
            if ops[k].DoCreate? then after.running == before.running
            else
              && (after.running.Idle? <==> after.started && NothingReady(after.queues) && !after.running.Task?)
              && (after.running.Task? <==>
                   !NothingReady(before.queues) || (ops[k].DoYield? && before.running.Task?))
  {
    assert Steps(run[k], ops[k], run[k + 1]);
    RunIsWellFormed(run, ops, k);
  }

  /** Once idle has been started, the processor is never left without a task again, whatever runs and finishes. */
  lemma {:induction false} SomebodyRuns<T>(run: seq<History<T>>, ops: seq<Op<T>>, j: nat, k: nat)
    requires IsRun(run, ops) && j < k < |run| && ops[j] == DoStartIdle
    ensures !run[k].s.running.Nobody?
  {
    IdleRunsIff(run, ops, k - 1);
    StartedIff(run, ops, k);
    if ops[k - 1].DoCreate? {
      SomebodyRuns(run, ops, j, k - 1);
    }
  }

  // ---------------------------------------------------------------- round robin

  function YieldTimes<T>(s: State<T>, n: nat): State<T> { if n == 0 then s else Yield(YieldTimes(s, n - 1)) }

  /** The task that runs, followed by those waiting at level p. */
  function Circle<T>(s: State<T>, p: nat): seq<T>
    requires p < |s.queues| && s.running.Task?
  {
    [s.running.task] + s.queues[p]
  }

  /**
   * While no task is created or finishes, yields only turn the circle of the highest non-empty level: after n of them
   * the n-th task of the circle runs, the others wait behind it in circle order, and no other queue has changed.
   */
  lemma {:induction false} YieldsRoundRobin<T>(s: State<T>, p: nat, n: nat)
    requires |s.queues| == NUM_PRIS && s.running.Task? && p == FirstReady(s.queues, 0) < NUM_PRIS
    ensures var c := Circle(s, p);
            var s' := YieldTimes(s, n);
            && |s'.queues| == NUM_PRIS && s'.running == Task(c[n % |c|]) && |s'.queues[p]| == |s.queues[p]|
            && (forall i :: 0 <= i < |s'.queues[p]| ==> s'.queues[p][i] == c[(n + 1 + i) % |c|])
            && (forall q :: 0 <= q < NUM_PRIS && q != p ==> s'.queues[q] == s.queues[q])
  {
    hide FirstReady;
    var c := Circle(s, p);
    if n == 0 {
      forall i | 0 <= i < |s.queues[p]| ensures s.queues[p][i] == c[(1 + i) % |c|] {
        RemainderIs(1 + i, 0, 1 + i, |c|);
      }
      RemainderIs(0, 0, 0, |c|);
    } else {
      YieldsRoundRobin(s, p, n - 1);
      var before := YieldTimes(s, n - 1);
      assert FirstReady(before.queues, 0) == p;
      var after := YieldTimes(s, n);
      assert after.running.task == before.queues[p][0] == c[(n - 1 + 1 + 0) % |c|];
      forall i | 0 <= i < |after.queues[p]| ensures after.queues[p][i] == c[(n + 1 + i) % |c|] {
        if i + 1 < |before.queues[p]| {
          assert after.queues[p][i] == before.queues[p][i + 1] == c[(n - 1 + 1 + (i + 1)) % |c|];
        } else {
          assert after.queues[p][i] == c[(n - 1) % |c|];
          WholeTurn(n - 1, |c|);
          assert n + 1 + i == n - 1 + |c|;
        }
      }
    }
  }

  /** The task at position k of the highest non-empty level runs after exactly k + 1 yields, and not before. */
  lemma WaitsItsTurn<T>(s: State<T>, p: nat, k: nat, n: nat)
    requires |s.queues| == NUM_PRIS && s.running.Task? && p == FirstReady(s.queues, 0) < NUM_PRIS && k < |s.queues[p]|
    requires forall i, j :: 0 <= i < j < |Circle(s, p)| ==> Circle(s, p)[i] != Circle(s, p)[j]
    requires n <= k + 1
    ensures YieldTimes(s, n).running == Task(s.queues[p][k]) <==> n == k + 1
  {
    var c := Circle(s, p);
    YieldsRoundRobin(s, p, n);
    RemainderIs(n, 0, n, |c|);
    assert c[k + 1] == s.queues[p][k];
  }

  lemma {:induction false} QueuedInLevel<T>(queues: seq<seq<T>>, p: nat, t: T)
    requires p < |queues|
    ensures CountQueued(queues, t) >= multiset(queues[p])[t]
  {
    if p > 0 { QueuedInLevel(queues[1..], p - 1, t); }
  }

  lemma TwiceInQueue<T>(q: seq<T>, i: nat, j: nat)
    requires i < j < |q| && q[i] == q[j]
    ensures multiset(q)[q[i]] >= 2
  {
    assert q == q[..j] + q[j..];
    assert q[i] == q[..j][i] && q[j] == q[j..][0];
    assert q[i] in multiset(q[..j]) && q[j] in multiset(q[j..]);
  }

  lemma TwiceInCircle<T>(s: State<T>, p: nat, i: nat, j: nat)
    requires p < |s.queues| && s.running.Task? && i < j < |Circle(s, p)| && Circle(s, p)[i] == Circle(s, p)[j]
    ensures Places(s, Circle(s, p)[j]) >= 2
  {
    var t := Circle(s, p)[j];
    QueuedInLevel(s.queues, p, t);
    assert t == s.queues[p][j - 1] && t in multiset(s.queues[p]);
    if i > 0 { TwiceInQueue(s.queues[p], i - 1, j - 1); }
  }

  /** In every state of every run the circle holds each task once. */
  lemma CircleIsDistinct<T>(run: seq<History<T>>, ops: seq<Op<T>>, k: nat, p: nat, i: nat, j: nat)
    requires IsRun(run, ops) && k < |run| && run[k].s.running.Task? && p < NUM_PRIS == |run[k].s.queues|
    requires i < j < |Circle(run[k].s, p)|
    ensures Circle(run[k].s, p)[i] != Circle(run[k].s, p)[j]
  {
    if Circle(run[k].s, p)[i] == Circle(run[k].s, p)[j] {
      EveryRunKeepsTasks(run, ops, k, Circle(run[k].s, p)[j]);
      TwiceInCircle(run[k].s, p, i, j);
      assert false;
    }
  }

  /** In every state of every run a ready task of the highest level waits exactly its turn. */
  lemma EveryRunTakesTurns<T>(run: seq<History<T>>, ops: seq<Op<T>>, k: nat, p: nat, i: nat, n: nat)
    requires IsRun(run, ops) && k < |run| && run[k].s.running.Task?
    requires |run[k].s.queues| == NUM_PRIS && p == FirstReady(run[k].s.queues, 0) < NUM_PRIS
    requires i < |run[k].s.queues[p]| && n <= i + 1
    ensures YieldTimes(run[k].s, n).running == Task(run[k].s.queues[p][i]) <==> n == i + 1
  {
    forall a, b | 0 <= a < b < |Circle(run[k].s, p)| ensures Circle(run[k].s, p)[a] != Circle(run[k].s, p)[b] {
      CircleIsDistinct(run, ops, k, p, a, b);
    }
    WaitsItsTurn(run[k].s, p, i, n);
  }

  // ---------------------------------------------------------------- starvation

  function Finishes<T>(ops: seq<Op<T>>): nat {
    if ops == [] then 0 else Finishes(ops[..|ops| - 1]) + if ops[|ops| - 1].DoFinish? then 1 else 0
  }

  ghost predicate YieldsAndFinishes<T>(ops: seq<Op<T>>) {
    forall i :: 0 <= i < |ops| ==> ops[i].DoYield? || ops[i].DoFinish?
  }

  function Run<T>(s: State<T>, ops: seq<Op<T>>): State<T>
    requires YieldsAndFinishes(ops)
  {
    if ops == [] then s else Next(Run(s, ops[..|ops| - 1]), ops[|ops| - 1])
  }

  /** The circle after a turn, with the task that ran at its end or gone. */
  lemma TurnedCircle<T>(r: T, q: seq<T>, back: seq<T>)
    requires q != [] && (back == [] || back == [r])
    ensures multiset([q[0]] + (q[1..] + back)) <= multiset([r] + q)
  {
    assert q == [q[0]] + q[1..];
    assert multiset([q[0]] + (q[1..] + back)) == multiset(q) + multiset(back);
  }

  /**
   * However tasks yield and finish, until as many have finished as were waiting at the highest non-empty level p, the
   * processor runs only the task that was running and those of level p; no other queue is touched.
   */
  lemma {:induction false} LowerLevelsStarve<T>(s: State<T>, p: nat, ops: seq<Op<T>>)
    requires |s.queues| == NUM_PRIS && s.running.Task? && p == FirstReady(s.queues, 0) < NUM_PRIS
    requires YieldsAndFinishes(ops) && Finishes(ops) < |s.queues[p]|
    ensures var s' := Run(s, ops);
            && |s'.queues| == NUM_PRIS && s'.running.Task? && |s'.queues[p]| == |s.queues[p]| - Finishes(ops)
            && multiset(Circle(s', p)) <= multiset(Circle(s, p))
            && (forall q :: 0 <= q < NUM_PRIS && q != p ==> s'.queues[q] == s.queues[q])
  {
    hide FirstReady;
    if ops != [] {
      var front := ops[..|ops| - 1];
      LowerLevelsStarve(s, p, front);
      var before := Run(s, front);
      assert FirstReady(before.queues, 0) == p;
      var q := before.queues[p];
      var after := Run(s, ops);
      var back := if ops[|ops| - 1].DoFinish? then [] else [before.running.task];
      assert after.queues[p] == q[1..] + back && Circle(after, p) == [q[0]] + (q[1..] + back);
      TurnedCircle(before.running.task, q, back);
    }
  }

  // ---------------------------------------------------------------- priorities

  /** Every ready task waits in the queue of the level it was created at. */
  ghost predicate AtHome<T>(queues: seq<seq<T>>, level: map<T, nat>) {
    forall p, i :: 0 <= p < |queues| && 0 <= i < |queues[p]| ==> queues[p][i] in level && level[queues[p][i]] == p
  }

  /** What can be seen before a yield: nothing is put back, or the first ready task has the level of the running one. */
  ghost predicate KeepsHome<T>(s: State<T>, level: map<T, nat>) {
    var p := FirstReady(s.queues, 0);
    !s.running.Task? || p == |s.queues| || (s.running.task in level && level[s.running.task] == p)
  }

  lemma YieldKeepsHomeIff<T>(s: State<T>, level: map<T, nat>)
    requires AtHome(s.queues, level)
    ensures AtHome(Yield(s).queues, level) <==> KeepsHome(s, level)
  {
    var p := FirstReady(s.queues, 0);
    if p < |s.queues| {
      var before, after := s.queues, Yield(s).queues;
      forall q, i | 0 <= q < |after| && 0 <= i < |after[q]| && (q != p || i + 1 < |before[p]|)
        ensures after[q][i] in level && level[after[q][i]] == q
      {
        assert after[q][i] == if q == p then before[p][i + 1] else before[q][i];
      }
      if s.running.Task? {
        assert after[p][|before[p]| - 1] == s.running.task;
      }
    }
  }

  /** One step of a run: only a yield can take a task away from its level. */
  lemma StepKeepsHomeIff<T>(h: History<T>, op: Op<T>, h': History<T>)
    requires |h.s.queues| == NUM_PRIS && Steps(h, op, h') && h.level.Keys == h.created && AtHome(h.s.queues, h.level)
    ensures AtHome(h'.s.queues, h'.level) <==> (op.DoYield? ==> KeepsHome(h.s, h.level))
  {
    match op
    case DoCreate(pri, task) =>
      forall q, i | 0 <= q < NUM_PRIS && 0 <= i < |h'.s.queues[q]|
        ensures h'.s.queues[q][i] in h'.level && h'.level[h'.s.queues[q][i]] == q
      {
        if i < |h.s.queues[q]| { assert h'.s.queues[q][i] == h.s.queues[q][i]; }
      }
    case DoYield =>
      YieldKeepsHomeIff(h.s, h.level);
    case DoFinish =>
      YieldKeepsHomeIff(h.s.(running := Nobody), h.level);
    case DoStartIdle =>
      YieldKeepsHomeIff(h.s.(running := Nobody, started := true), h.level);
  }

  lemma {:induction false} LevelsAreKnown<T>(run: seq<History<T>>, ops: seq<Op<T>>, k: nat)
    requires IsRun(run, ops) && k < |run|
    ensures run[k].level.Keys == run[k].created && |run[k].s.queues| == NUM_PRIS
    ensures run[k].s.running.Task? ==> run[k].s.running.task in run[k].level
  {
    if k > 0 {
      LevelsAreKnown(run, ops, k - 1);
      assert Steps(run[k - 1], ops[k - 1], run[k]);
    }
    if run[k].s.running.Task? { EveryRunKeepsTasks(run, ops, k, run[k].s.running.task); }
  }

  ghost predicate EveryYieldKeepsHome<T>(run: seq<History<T>>, ops: seq<Op<T>>, n: nat)
    requires n <= |ops| && |run| == |ops| + 1
  {
    forall k :: 0 <= k < n && ops[k].DoYield? ==> KeepsHome(run[k].s, run[k].level)
  }

  lemma {:induction false} HomeSoFar<T>(run: seq<History<T>>, ops: seq<Op<T>>, k: nat)
    requires IsRun(run, ops) && k < |run| && EveryYieldKeepsHome(run, ops, k)
    ensures AtHome(run[k].s.queues, run[k].level)
  {
    if k > 0 {
      HomeSoFar(run, ops, k - 1);
      LevelsAreKnown(run, ops, k - 1);
      StepKeepsHomeIff(run[k - 1], ops[k - 1], run[k]);
    }
  }

  /**
   * Ready tasks wait at their own levels in every state of a run if and only if every task that yields and is put back
   * finds the first ready task at its own level.
   */
  lemma PrioritiesAreKeptIff<T>(run: seq<History<T>>, ops: seq<Op<T>>)
    requires IsRun(run, ops)
    ensures (forall k :: 0 <= k < |run| ==> AtHome(run[k].s.queues, run[k].level))
            <==> EveryYieldKeepsHome(run, ops, |ops|)
  {
    if forall k :: 0 <= k < |run| ==> AtHome(run[k].s.queues, run[k].level) {
      forall k | 0 <= k < |ops| && ops[k].DoYield? ensures KeepsHome(run[k].s, run[k].level) {
        LevelsAreKnown(run, ops, k);
        assert AtHome(run[k + 1].s.queues, run[k + 1].level);
        StepKeepsHomeIff(run[k], ops[k], run[k + 1]);
      }
    }
    if EveryYieldKeepsHome(run, ops, |ops|) {
      forall k | 0 <= k < |run| ensures AtHome(run[k].s.queues, run[k].level) {
        HomeSoFar(run, ops, k);
      }
    }
  }

  /** Tasks that are all created at one level stay there, whatever they do. */
  lemma {:induction false} OneLevelIsKept<T>(run: seq<History<T>>, ops: seq<Op<T>>, pri: nat, k: nat)
    requires IsRun(run, ops) && k < |run| && forall j :: 0 <= j < |ops| && ops[j].DoCreate? ==> ops[j].pri == pri
    ensures AtHome(run[k].s.queues, run[k].level) && forall t :: t in run[k].level ==> run[k].level[t] == pri
  {
    if k > 0 {
      OneLevelIsKept(run, ops, pri, k - 1);
      LevelsAreKnown(run, ops, k - 1);
      var h := run[k - 1];
      assert Steps(h, ops[k - 1], run[k]);
      var p := FirstReady(h.s.queues, 0);
      if p < NUM_PRIS { assert h.s.queues[p][0] in h.level; }
      StepKeepsHomeIff(h, ops[k - 1], run[k]);
    }
  }

  lemma TwoTaskSteps<T>(high: T, low: T)
    ensures var s1, s2 := State([[high], [], []], Nobody, false), State([[high], [], [low]], Nobody, false);
            var s3, s4 := State([[], [], [low]], Task(high), false), State([[], [], [high]], Task(low), false);
            && Create(Boot(), 0, high) == s1 && Create(s1, 2, low) == s2 && Yield(s2) == s3 && Yield(s3) == s4
            && FirstReady(s3.queues, 0) == 2
  {
    var none: seq<T>, qs: seq<seq<T>> := [], [[], [], [low]];
    assert none + [high] == [high] && none + [low] == [low];
    assert [high][1..] + [] == [] && [low][1..] + [high] == [high];
    assert [[high], [], [low]][0 := none] == qs;
    assert FirstReady(qs, 1) == 2 && qs[2 := [high]] == [none, none, [high]];
  }

  /** Two tasks are enough to lose a priority: the one created at the highest level is put back at the lowest. */
  lemma HighestTaskIsDemoted<T>(high: T, low: T) returns (run: seq<History<T>>, ops: seq<Op<T>>)
    requires high != low
    ensures IsRun(run, ops) && ops == [DoCreate(0, high), DoCreate(2, low), DoYield, DoYield]
    ensures run[4].s.running == Task(low) && run[4].s.queues == [[], [], [high]]
    ensures high in run[4].level && run[4].level[high] == 0
    ensures AtHome(run[3].s.queues, run[3].level) && !KeepsHome(run[3].s, run[3].level)
  {
    TwoTaskSteps(high, low);
    hide Create, Yield, FirstReady;
    var level := map[high := 0, low := 2];
    ops := [DoCreate(0, high), DoCreate(2, low), DoYield, DoYield];
    var s1, s2 := State([[high], [], []], Nobody, false), State([[high], [], [low]], Nobody, false);
    var s3, s4 := State([[], [], [low]], Task(high), false), State([[], [], [high]], Task(low), false);
    run := [History(Boot(), {}, {}, map[]), History(s1, {high}, {}, map[high := 0]),
        History(s2, {high, low}, {}, level),
            History(s3, {high, low}, {}, level), History(s4, {high, low}, {}, level)];
  }
}
