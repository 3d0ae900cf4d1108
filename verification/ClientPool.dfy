// The client's task pool (src/client/threadpool.hpp): workers wait on a
// condition variable, committers push and notify one worker, the destructor
// raises a flag without the lock and notifies all.
module ClientPool {
  import opened Counting

  // Program counter of a worker thread.
  //   Top       about to test the loop condition `!stoped`
  //   Locking   about to take the mutex (first time or after a wake-up)
  //   Passed    holds the mutex, wait predicate true
  //   Blocking  holds the mutex, wait predicate false, not yet asleep
  //   Blocked   asleep on the condition variable
  //   Holding   has moved a task out of the queue, idle counter not yet decremented
  //   Running   between the decrement and the increment of the idle counter
  //   Exited    has left the thread function
  datatype Worker =
    | Top | Locking | Passed | Blocking | Blocked
    | Holding(task: nat) | Running(task: nat) | Exited

  // `entering` counts committers past the `stoped` test that have not pushed,
  // `notifying` those that have pushed and not notified.  `committed`, `taken`,
  // `lateStarts` and `missed` record the history.
  datatype Pool = Pool(
    tasks: seq<nat>, stopped: bool, notifiedAll: bool, workers: seq<Worker>, idle: int,
    entering: nat, notifying: nat,
    committed: seq<nat>, taken: seq<nat>, lateStarts: seq<nat>, missed: set<nat>)

  datatype Step =
    | Enter(w: nat) | Test(w: nat) | Block(w: nat) | Take(w: nat)
    | Start(w: nat) | Finish(w: nat) | Spurious(w: nat)
    | CommitCheck | Push | NotifyNobody | NotifyOne(w: nat)
    | Stop | NotifyAll

  function PoolSize(requested: nat): nat { if requested < 1 then 1 else requested }

  function Init(requested: nat): Pool {
    var n := PoolSize(requested);
    Pool([], false, false, seq(n, i => Top), n, 0, 0, [], [], seq(n, i => 0), {})
  }

  predicate HoldsMutex(w: Worker) { w.Passed? || w.Blocking? }

  predicate MutexFree(p: Pool) { forall i :: 0 <= i < |p.workers| ==> !HoldsMutex(p.workers[i]) }

  predicate WaitDone(p: Pool) { p.stopped || p.tasks != [] }

  predicate Enabled(p: Pool, step: Step) {
    match step
    case Enter(w) => w < |p.workers| && p.workers[w].Top?
    case Test(w) => w < |p.workers| && p.workers[w].Locking? && MutexFree(p)
    case Block(w) => w < |p.workers| && p.workers[w].Blocking?
    case Take(w) => w < |p.workers| && p.workers[w].Passed?
    case Start(w) => w < |p.workers| && p.workers[w].Holding?
    case Finish(w) => w < |p.workers| && p.workers[w].Running?
    case Spurious(w) => w < |p.workers| && p.workers[w].Blocked?
    case CommitCheck => !p.stopped
    case Push => p.entering > 0 && MutexFree(p)
    case NotifyNobody => p.notifying > 0 && forall i :: 0 <= i < |p.workers| ==> !p.workers[i].Blocked?
    case NotifyOne(w) => p.notifying > 0 && w < |p.workers| && p.workers[w].Blocked?
    case Stop => !p.stopped
    case NotifyAll => p.stopped && !p.notifiedAll
  }

  function Woken(ws: seq<Worker>): seq<Worker> {
    seq(|ws|, i requires 0 <= i < |ws| => if ws[i].Blocked? then Locking else ws[i])
  }

  // The queue front is only looked at when the branch before it has not
  // returned; with an empty queue that would be undefined behaviour, which
  // `TakeIsSafe` excludes.  Here that case leaves the state unchanged.
  function Next(p: Pool, step: Step): Pool
    requires Enabled(p, step)
  {
    match step
    case Enter(w) => p.(workers := p.workers[w := if p.stopped then Exited else Locking])
    case Test(w) => p.(workers := p.workers[w := if WaitDone(p) then Passed else Blocking])
    case Block(w) => p.(workers := p.workers[w := Blocked])
    case Take(w) =>
      if p.tasks == [] then
        if p.stopped then p.(workers := p.workers[w := Exited]) else p
      else
        p.(workers := p.workers[w := Holding(p.tasks[0])], tasks := p.tasks[1..],
           taken := p.taken + [p.tasks[0]])
    case Start(w) =>
      p.(workers := p.workers[w := Running(p.workers[w].task)], idle := p.idle - 1,
         lateStarts := if p.stopped && w < |p.lateStarts| then p.lateStarts[w := p.lateStarts[w] + 1]
                       else p.lateStarts)
    case Finish(w) => p.(workers := p.workers[w := Top], idle := p.idle + 1)
    case Spurious(w) => p.(workers := p.workers[w := Locking])
    case CommitCheck => p.(entering := p.entering + 1)
    case Push =>
      var task := |p.committed|;
      p.(entering := p.entering - 1, notifying := p.notifying + 1,
         tasks := p.tasks + [task], committed := p.committed + [task])
    case NotifyNobody => p.(notifying := p.notifying - 1)
    case NotifyOne(w) => p.(notifying := p.notifying - 1, workers := p.workers[w := Locking])
    case Stop => p.(stopped := true)
    case NotifyAll =>
      p.(notifiedAll := true, workers := Woken(p.workers),
         missed := set i | 0 <= i < |p.workers| && p.workers[i].Blocking?)
  }

  predicate CanRun(p: Pool, steps: seq<Step>)
    decreases |steps|, 0
  {
    steps == [] ||
    var n := |steps| - 1;
    CanRun(p, steps[..n]) && Enabled(Exec(p, steps[..n]), steps[n])
  }

  function Exec(p: Pool, steps: seq<Step>): Pool
    requires CanRun(p, steps)
    decreases |steps|, 1
  {
    if steps == [] then p
    else Next(Exec(p, steps[..|steps| - 1]), steps[|steps| - 1])
  }

  // What every step keeps.

  ghost predicate OneHolder(ws: seq<Worker>) {
    forall i, j :: 0 <= i < j < |ws| ==> !(HoldsMutex(ws[i]) && HoldsMutex(ws[j]))
  }

  ghost predicate MutexInv(p: Pool) {
    && OneHolder(p.workers)
    && (forall i :: 0 <= i < |p.workers| && p.workers[i].Passed? ==> WaitDone(p))
    && (forall i :: 0 <= i < |p.workers| && p.workers[i].Blocking? ==> p.tasks == [])
  }

  // Awake and not yet holding a task.
  predicate Seeking(w: Worker) { w.Top? || w.Locking? || w.Passed? }

  function Seekers(p: Pool): nat { Count(p.workers, Seeking) }

  // Either nobody sleeps, or there are at most as many queued tasks as workers
  // on their way to the queue plus notifications still to come.
  ghost predicate WorkConserved(p: Pool) {
    && !p.stopped
    && (exists i :: 0 <= i < |p.workers| && p.workers[i].Blocked?)
    ==> |p.tasks| <= Seekers(p) + p.notifying
  }

  ghost predicate OrderInv(p: Pool) {
    && p.committed == p.taken + p.tasks
    && (forall i :: 0 <= i < |p.committed| ==> p.committed[i] == i)
  }

  predicate HasTask(w: Worker) { w.Holding? || w.Running? }

  ghost predicate Owned(ws: seq<Worker>, n: nat) {
    && (forall i :: 0 <= i < |ws| && HasTask(ws[i]) ==> ws[i].task < n)
    && (forall i, j :: 0 <= i < j < |ws| && HasTask(ws[i]) && HasTask(ws[j]) ==> ws[i].task != ws[j].task)
  }

  ghost predicate OwnershipInv(p: Pool) {
    Owned(p.workers, |p.taken|)
  }

  lemma OwnedUpdate(ws: seq<Worker>, w: nat, x: Worker, n: nat, m: nat)
    requires Owned(ws, n) && w < |ws| && n <= m
    requires HasTask(x) ==> n <= x.task < m || (HasTask(ws[w]) && x.task == ws[w].task)
    ensures Owned(ws[w := x], m)
  {
  }

  function Runners(p: Pool): nat { Count(p.workers, (w: Worker) => w.Running?) }

  ghost predicate IdleInv(p: Pool) { p.idle == |p.workers| - Runners(p) }

  ghost predicate LateInv(p: Pool) {
    && |p.lateStarts| == |p.workers|
    && forall i :: 0 <= i < |p.workers| ==>
         && p.lateStarts[i] <= 1
         && (p.lateStarts[i] == 1 ==>
               p.stopped && (p.workers[i].Running? || p.workers[i].Top? || p.workers[i].Exited?))
  }

  ghost predicate MissedInv(p: Pool) {
    && (p.notifiedAll ==> p.stopped)
    && (p.notifiedAll ==>
          forall i :: 0 <= i < |p.workers| && (p.workers[i].Blocked? || p.workers[i].Blocking?) ==> i in p.missed)
    && (forall i, j :: i in p.missed && j in p.missed ==> i == j)
  }

  ghost predicate Inv(p: Pool) {
    MutexInv(p) && WorkConserved(p) && OrderInv(p) && OwnershipInv(p) && IdleInv(p) && LateInv(p) && MissedInv(p)
  }

  lemma InitInv(requested: nat)
    ensures Inv(Init(requested))
  {
    CountZero(Init(requested).workers, (w: Worker) => w.Running?);
  }

  // The worker a step moves, if it moves exactly one.
  predicate MovesOne(step: Step) {
    match step
    case CommitCheck | Push | NotifyNobody | Stop | NotifyAll => false
    case _ => true
  }

  lemma OneHolderUpdate(ws: seq<Worker>, w: nat, x: Worker)
    requires OneHolder(ws) && w < |ws|
    requires HoldsMutex(x) ==> HoldsMutex(ws[w]) || forall i :: 0 <= i < |ws| ==> !HoldsMutex(ws[i])
    ensures OneHolder(ws[w := x])
  {
  }

  lemma KeepsOneHolder(p: Pool, step: Step)
    requires MutexInv(p) && Enabled(p, step)
    ensures OneHolder(Next(p, step).workers)
  {
    if MovesOne(step) {
      OneHolderUpdate(p.workers, step.w, Next(p, step).workers[step.w]);
    }
  }

  lemma KeepsMutexInv(p: Pool, step: Step)
    requires MutexInv(p) && Enabled(p, step)
    ensures MutexInv(Next(p, step))
  {
    KeepsOneHolder(p, step);
    hide OneHolder;
  }

  lemma KeepsWorkConserved(p: Pool, step: Step)
    requires MutexInv(p) && WorkConserved(p) && Enabled(p, step)
    ensures WorkConserved(Next(p, step))
  {
    var q := Next(p, step);
    if MovesOne(step) && !p.stopped {
      CountUpdate(p.workers, step.w, q.workers[step.w], Seeking);
      if Seeking(p.workers[step.w]) { CountPositive(p.workers, step.w, Seeking); }
      if i :| 0 <= i < |q.workers| && q.workers[i].Blocked? && i != step.w {
        assert p.workers[i].Blocked?;
      }
    }
  }

  lemma KeepsOrderInv(p: Pool, step: Step)
    requires OrderInv(p) && Enabled(p, step)
    ensures OrderInv(Next(p, step))
  {
    if step.Push? {
      assert p.taken + (p.tasks + [|p.committed|]) == p.committed + [|p.committed|];
    } else if step.Take? && p.tasks != [] {
      assert p.taken + [p.tasks[0]] + p.tasks[1..] == p.taken + p.tasks;
    }
  }

  lemma KeepsOwnershipInv(p: Pool, step: Step)
    requires OrderInv(p) && OwnershipInv(p) && Enabled(p, step)
    ensures OwnershipInv(Next(p, step))
  {
    if step.Take? && p.tasks != [] {
      assert p.tasks[0] == p.committed[|p.taken|] == |p.taken|;
    }
    if MovesOne(step) {
      var q := Next(p, step);
      OwnedUpdate(p.workers, step.w, q.workers[step.w], |p.taken|, |q.taken|);
    }
  }

  lemma KeepsIdleInv(p: Pool, step: Step)
    requires IdleInv(p) && Enabled(p, step)
    ensures IdleInv(Next(p, step))
  {
    var running := (w: Worker) => w.Running?;
    if MovesOne(step) {
      CountUpdate(p.workers, step.w, Next(p, step).workers[step.w], running);
    } else if step.NotifyAll? {
      CountSame(p.workers, Woken(p.workers), running);
    }
  }

  lemma KeepsLateInv(p: Pool, step: Step)
    requires LateInv(p) && Enabled(p, step)
    ensures LateInv(Next(p, step))
  {
  }

  lemma KeepsMissedInv(p: Pool, step: Step)
    requires MutexInv(p) && MissedInv(p) && Enabled(p, step)
    ensures MissedInv(Next(p, step))
  {
  }

  lemma {:induction false} RunKeepsInv(p: Pool, steps: seq<Step>)
    requires Inv(p) && CanRun(p, steps)
    ensures Inv(Exec(p, steps))
  {
    if steps != [] {
      var n := |steps| - 1;
      RunKeepsInv(p, steps[..n]);
      var q, step := Exec(p, steps[..n]), steps[n];
      KeepsMutexInv(q, step);
      KeepsWorkConserved(q, step);
      KeepsOrderInv(q, step);
      KeepsOwnershipInv(q, step);
      KeepsIdleInv(q, step);
      KeepsLateInv(q, step);
      KeepsMissedInv(q, step);
    }
  }

  lemma {:induction false} KeepsSize(p: Pool, steps: seq<Step>)
    requires CanRun(p, steps)
    ensures |Exec(p, steps).workers| == |p.workers|
  {
    if steps != [] {
      KeepsSize(p, steps[..|steps| - 1]);
    }
  }

  lemma Reachable(requested: nat, steps: seq<Step>)
    requires CanRun(Init(requested), steps)
    ensures Inv(Exec(Init(requested), steps))
    ensures |Exec(Init(requested), steps).workers| == PoolSize(requested)
  {
    InitInv(requested);
    RunKeepsInv(Init(requested), steps);
    KeepsSize(Init(requested), steps);
  }

  // Main results.

  // Before stop no task waits for a worker that nobody will wake: either no
  // worker sleeps, or each queued task has a seeker or a pending notification.
  lemma WorkConservation(requested: nat, steps: seq<Step>)
    requires CanRun(Init(requested), steps)
    ensures WorkConserved(Exec(Init(requested), steps))
  {
    Reachable(requested, steps);
  }

  // A worker that moves the queue front really has one to move.
  lemma TakeIsSafe(requested: nat, steps: seq<Step>, w: nat)
    requires CanRun(Init(requested), steps) && Enabled(Exec(Init(requested), steps), Take(w))
    ensures var p := Exec(Init(requested), steps); p.tasks != [] || p.stopped
  {
    Reachable(requested, steps);
  }

  // Tasks are taken at most once and in commit order, no two workers ever have
  // the same task, and the idle counter is the pool size minus the workers
  // between its decrement and increment.
  lemma TaskAccounting(requested: nat, steps: seq<Step>)
    requires CanRun(Init(requested), steps)
    ensures var p := Exec(Init(requested), steps);
            && p.committed == p.taken + p.tasks && Distinct(p.committed)
            && OwnershipInv(p)
            && p.idle == PoolSize(requested) - Runners(p)
            && 0 <= p.idle <= PoolSize(requested)
  {
    Reachable(requested, steps);
    var p := Exec(Init(requested), steps);
    CountBounded(p.workers, (w: Worker) => w.Running?);
  }

  // The starts of worker w after the flag was raised.
  function StartsAfterStop(p: Pool, steps: seq<Step>, w: nat): nat
    requires CanRun(p, steps)
  {
    if steps == [] then 0
    else
      var n := |steps| - 1;
      StartsAfterStop(p, steps[..n], w) + Unit(steps[n] == Start(w) && Exec(p, steps[..n]).stopped)
  }

  lemma LateStep(p: Pool, step: Step, w: nat)
    requires Enabled(p, step) && w < |p.workers| == |p.lateStarts|
    ensures var late := Next(p, step).lateStarts;
            |late| == |p.lateStarts| && late[w] == p.lateStarts[w] + Unit(step == Start(w) && p.stopped)
  {
  }

  lemma {:induction false} LateCounted(p: Pool, steps: seq<Step>, w: nat)
    requires CanRun(p, steps) && w < |p.workers| == |p.lateStarts| && p.lateStarts[w] == 0
    ensures var q := Exec(p, steps);
            |q.lateStarts| == |p.lateStarts| && q.lateStarts[w] == StartsAfterStop(p, steps, w)
  {
    if steps != [] {
      var n := |steps| - 1;
      LateCounted(p, steps[..n], w);
      KeepsSize(p, steps[..n]);
      LateStep(Exec(p, steps[..n]), steps[n], w);
      hide Next, Enabled;
    }
  }

  // After stop each worker starts at most one further task.
  lemma AtMostOneLateStart(requested: nat, steps: seq<Step>, w: nat)
    requires CanRun(Init(requested), steps) && w < PoolSize(requested)
    ensures var p := Exec(Init(requested), steps); |p.lateStarts| == PoolSize(requested) && p.lateStarts[w] <= 1
    ensures StartsAfterStop(Init(requested), steps, w) <= 1
  {
    Reachable(requested, steps);
    LateCounted(Init(requested), steps, w);
  }

  // The stop flag is raised without the mutex, so a worker can miss notify_all.
  // At most one worker ever does, and only the one that held the mutex between
  // its failed test and its sleep at the moment of notify_all.
  lemma AtMostOneMissesStop(requested: nat, steps: seq<Step>, i: nat, j: nat)
    requires CanRun(Init(requested), steps)
    requires var p := Exec(Init(requested), steps);
             && p.notifiedAll && i < |p.workers| && j < |p.workers|
             && p.workers[i].Blocked? && p.workers[j].Blocked?
    ensures i == j && Exec(Init(requested), steps).missed == {i}
  {
    Reachable(requested, steps);
    var p := Exec(Init(requested), steps);
    assert i in p.missed && j in p.missed;
  }

  lemma {:induction false} NobodySleeps(p: Pool, steps: seq<Step>)
    requires CanRun(p, steps) && p.stopped
    requires forall i :: 0 <= i < |p.workers| ==> !p.workers[i].Blocked? && !p.workers[i].Blocking?
    ensures var q := Exec(p, steps);
            && q.stopped
            && forall i :: 0 <= i < |q.workers| ==> !q.workers[i].Blocked? && !q.workers[i].Blocking?
  {
    if steps != [] {
      NobodySleeps(p, steps[..|steps| - 1]);
    }
  }

  lemma RunSnoc(p: Pool, steps: seq<Step>, step: Step)
    requires CanRun(p, steps) && Enabled(Exec(p, steps), step)
    ensures CanRun(p, steps + [step]) && Exec(p, steps + [step]) == Next(Exec(p, steps), step)
  {
    assert (steps + [step])[..|steps|] == steps;
  }

  lemma Extend(p: Pool, steps: seq<Step>, step: Step) returns (longer: seq<Step>)
    requires CanRun(p, steps) && Enabled(Exec(p, steps), step)
    ensures CanRun(p, longer) && Exec(p, longer) == Next(Exec(p, steps), step)
  {
    RunSnoc(p, steps, step);
    longer := steps + [step];
  }

  // Exactly when a worker misses the stop: some later state has a sleeping
  // worker if and only if some worker was about to fall asleep at notify_all.
  lemma MissedStopExactly(requested: nat, steps: seq<Step>)
    requires CanRun(Init(requested), steps) && Enabled(Exec(Init(requested), steps), NotifyAll)
    ensures var p := Exec(Init(requested), steps);
            var q := Next(p, NotifyAll);
            (exists i :: 0 <= i < |p.workers| && p.workers[i].Blocking?) <==>
            (exists more, w :: CanRun(q, more) && 0 <= w < |Exec(q, more).workers| && Exec(q, more).workers[w].Blocked?)
  {
    var p := Exec(Init(requested), steps);
    var q := Next(p, NotifyAll);
    Reachable(requested, steps);
    KeepsMissedInv(p, NotifyAll);
    if i :| 0 <= i < |p.workers| && p.workers[i].Blocking? {
      var more := Extend(q, [], Block(i));
      assert Exec(q, more).workers[i].Blocked?;
    } else {
      forall more | CanRun(q, more)
        ensures forall w :: 0 <= w < |Exec(q, more).workers| ==> !Exec(q, more).workers[w].Blocked?
      {
        NobodySleeps(q, more);
      }
    }
  }

  lemma FallingAsleep() returns (steps: seq<Step>)
    ensures CanRun(Init(1), steps) && Exec(Init(1), steps) == Init(1).(workers := [Blocking])
  {
    steps := Extend(Init(1), [], Enter(0));
    steps := Extend(Init(1), steps, Test(0));
    assert Exec(Init(1), steps).workers == [Blocking];
  }

  // Such a run exists already for a pool of one: its worker sleeps for ever
  // unless the condition variable wakes up spuriously.
  lemma MissedStopWitness() returns (steps: seq<Step>)
    ensures CanRun(Init(1), steps)
    ensures var p := Exec(Init(1), steps);
            p.notifiedAll && p.workers == [Blocked] && p.tasks == [] && p.entering == 0 && p.notifying == 0
    ensures forall step :: Enabled(Exec(Init(1), steps), step) ==> step == Spurious(0)
  {
    steps := FallingAsleep();
    steps := Extend(Init(1), steps, Stop);
    steps := Extend(Init(1), steps, NotifyAll);
    steps := Extend(Init(1), steps, Block(0));
  }

  lemma PassedPass(p: Pool, q: Pool, before: seq<Step>, w: nat) returns (steps: seq<Step>)
    requires w < |p.workers| && p.workers[w].Top? && !p.stopped && p.tasks != []
    requires CanRun(p, before) && Exec(p, before) == q == p.(workers := p.workers[w := Passed])
    ensures CanRun(p, steps)
    ensures Exec(p, steps) == p.(tasks := p.tasks[1..], taken := p.taken + [p.tasks[0]])
  {
    steps := Extend(p, before, Take(w));
    steps := Extend(p, steps, Start(w));
    steps := Extend(p, steps, Finish(w));
    assert p.workers[w := Passed][w := Holding(p.tasks[0])][w := Running(p.tasks[0])][w := Top] == p.workers;
  }

  // A worker left alone with a non-empty queue takes and runs the oldest task.
  lemma OnePass(p: Pool, w: nat) returns (steps: seq<Step>)
    requires w < |p.workers| && p.workers[w].Top? && MutexFree(p) && !p.stopped && p.tasks != []
    ensures CanRun(p, steps)
    ensures Exec(p, steps) == p.(tasks := p.tasks[1..], taken := p.taken + [p.tasks[0]])
  {
    steps := Extend(p, [], Enter(w));
    steps := Extend(p, steps, Test(w));
    var q := p.(workers := p.workers[w := Passed]);
    assert Exec(p, steps) == q by { assert p.workers[w := Locking][w := Passed] == p.workers[w := Passed]; }
    steps := PassedPass(p, q, steps, w);
  }

  // commit() without interference.
  lemma CommitRun(p: Pool, wake: nat) returns (steps: seq<Step>)
    requires !p.stopped && MutexFree(p) && wake < |p.workers|
    requires (exists i :: 0 <= i < |p.workers| && p.workers[i].Blocked?) ==> p.workers[wake].Blocked?
    ensures CanRun(p, steps)
    ensures Exec(p, steps) ==
            p.(tasks := p.tasks + [|p.committed|], committed := p.committed + [|p.committed|],
               workers := if p.workers[wake].Blocked? then p.workers[wake := Locking] else p.workers)
  {
    steps := Extend(p, [], CommitCheck);
    steps := Extend(p, steps, Push);
    var notify := if p.workers[wake].Blocked? then NotifyOne(wake) else NotifyNobody;
    steps := Extend(p, steps, notify);
  }

  // The destructor's flag and notification without interference.
  lemma StopRun(p: Pool) returns (steps: seq<Step>)
    requires !p.stopped && !p.notifiedAll
    ensures CanRun(p, steps)
    ensures Exec(p, steps) ==
            p.(stopped := true, notifiedAll := true, workers := Woken(p.workers),
               missed := set i | 0 <= i < |p.workers| && p.workers[i].Blocking?)
  {
    steps := Extend(p, [], Stop);
    steps := Extend(p, steps, NotifyAll);
  }

  lemma EmptyRun(p: Pool)
    ensures CanRun(p, []) && Exec(p, []) == p
  {
  }

  // A worker left alone that leaves or falls asleep.
  lemma LastPass(p: Pool, w: nat) returns (steps: seq<Step>)
    requires w < |p.workers| && p.workers[w].Top? && MutexFree(p) && (p.stopped || p.tasks == [])
    ensures CanRun(p, steps)
    ensures Exec(p, steps) == p.(workers := p.workers[w := if p.stopped then Exited else Blocked])
  {
    steps := Extend(p, [], Enter(w));
    if !p.stopped {
      steps := Extend(p, steps, Test(w));
      steps := Extend(p, steps, Block(w));
      assert p.workers[w := Locking][w := Blocking][w := Blocked] == p.workers[w := Blocked];
    }
  }

  lemma NotYetNotified(p: Pool)
    requires Inv(p) && !p.stopped
    ensures !p.notifiedAll
  {
  }

  lemma {:induction false} Joined(p: Pool, first: seq<Step>, second: seq<Step>) returns (both: seq<Step>)
    requires CanRun(p, first) && CanRun(Exec(p, first), second)
    ensures both == first + second && CanRun(p, both) && Exec(p, both) == Exec(Exec(p, first), second)
    decreases |second|
  {
    both := first + second;
    if second == [] {
      assert both == first;
    } else {
      var n := |second| - 1;
      var most := Joined(p, first, second[..n]);
      RunSnoc(p, most, second[n]);
      assert both == most + [second[n]];
      hide Next, Enabled;
    }
  }

  // A task taken is run by the worker that took it: what worker w is doing, read
  // off the steps.
  datatype Duty = Free | Took(task: nat) | Started(task: nat)

  function DutyAfter(before: Duty, tasks: seq<nat>, step: Step, w: nat): Duty {
    if step == Take(w) then (if tasks == [] then Free else Took(tasks[0]))
    else if step == Start(w) then (if before.Took? then Started(before.task) else before)
    else if step == Finish(w) then Free
    else before
  }

  function DutyOf(p: Pool, steps: seq<Step>, w: nat): Duty
    requires CanRun(p, steps)
  {
    if steps == [] then Free
    else
      var n := |steps| - 1;
      DutyAfter(DutyOf(p, steps[..n], w), Exec(p, steps[..n]).tasks, steps[n], w)
  }

  predicate Does(w: Worker, duty: Duty) {
    match duty
    case Free => !HasTask(w)
    case Took(task) => w == Holding(task)
    case Started(task) => w == Running(task)
  }

  ghost predicate OnDuty(p: Pool, start: Pool, steps: seq<Step>)
    requires CanRun(start, steps)
  {
    forall w: nat :: w < |p.workers| ==> Does(p.workers[w], DutyOf(start, steps, w))
  }

  lemma StepOnDuty(p: Pool, step: Step, w: nat, duty: Duty)
    requires Enabled(p, step) && w < |p.workers| && Does(p.workers[w], duty)
    ensures w < |Next(p, step).workers| && Does(Next(p, step).workers[w], DutyAfter(duty, p.tasks, step, w))
  {
  }

  lemma {:induction false} RunOnDuty(p: Pool, steps: seq<Step>)
    requires CanRun(p, steps) && forall w :: 0 <= w < |p.workers| ==> !HasTask(p.workers[w])
    ensures OnDuty(Exec(p, steps), p, steps)
  {
    if steps != [] {
      var n := |steps| - 1;
      RunOnDuty(p, steps[..n]);
      var q := Exec(p, steps[..n]);
      KeepsSize(p, steps);
      KeepsSize(p, steps[..n]);
      forall w: nat | w < |q.workers| ensures Does(Exec(p, steps).workers[w], DutyOf(p, steps, w)) {
        StepOnDuty(q, steps[n], w, DutyOf(p, steps[..n], w));
      }
    }
  }

  // In every run of a pool of max(1, size) workers each worker that took a task
  // has it, started or not, until it finishes it.
  lemma TakenIsRun(requested: nat, steps: seq<Step>)
    requires CanRun(Init(requested), steps)
    ensures OnDuty(Exec(Init(requested), steps), Init(requested), steps)
    ensures |Exec(Init(requested), steps).workers| == if requested == 0 then 1 else requested
  {
    RunOnDuty(Init(requested), steps);
    Reachable(requested, steps);
  }

  // Every committed task can still be run.

  ghost predicate Quiet(steps: seq<Step>) {
    forall i :: 0 <= i < |steps| ==>
      !steps[i].Spurious? && !steps[i].CommitCheck? && !steps[i].Push? && !steps[i].Stop?
  }

  lemma {:induction false} QuietKeeps(p: Pool, steps: seq<Step>)
    requires CanRun(p, steps) && Quiet(steps)
    ensures var q := Exec(p, steps);
            q.committed == p.committed && q.stopped == p.stopped && |q.workers| == |p.workers|
  {
    if steps != [] {
      var n := |steps| - 1;
      QuietKeeps(p, steps[..n]);
      assert !steps[n].Push? && !steps[n].Stop?;
    }
  }

  // A worker leaves only after stop.
  ghost predicate NobodyLeft(p: Pool) {
    !p.stopped ==> forall i :: 0 <= i < |p.workers| ==> !p.workers[i].Exited?
  }

  lemma {:induction false} RunKeepsWorkers(p: Pool, steps: seq<Step>)
    requires CanRun(p, steps) && NobodyLeft(p)
    ensures NobodyLeft(Exec(p, steps))
  {
    if steps != [] {
      RunKeepsWorkers(p, steps[..|steps| - 1]);
    }
  }

  function Distance(w: Worker): nat {
    match w
    case Holding(_) => 5
    case Running(_) => 4
    case Top => 3
    case Locking => 2
    case _ => 1
  }

  // Some steps of worker v after `before`, up to the one that takes a task.
  lemma {:induction false} WorkerTakes(p: Pool, before: seq<Step>, v: nat) returns (more: seq<Step>)
    requires CanRun(p, before) && Quiet(before)
    requires var q := Exec(p, before);
             && !q.stopped && q.tasks == p.tasks != [] && q.taken == p.taken && v < |q.workers|
             && (q.workers[v].Passed? || (MutexFree(q) && !q.workers[v].Blocked? && !q.workers[v].Exited?))
    ensures CanRun(p, more) && Quiet(more)
    ensures Exec(p, more).taken == p.taken + [p.tasks[0]] && Exec(p, more).tasks == p.tasks[1..]
    decreases Distance(Exec(p, before).workers[v])
  {
    var w := Exec(p, before).workers[v];
    var step := match w
      case Top => Enter(v)
      case Locking => Test(v)
      case Holding(_) => Start(v)
      case Running(_) => Finish(v)
      case _ => Take(v);
    RunSnoc(p, before, step);
    more := before + [step];
    if !w.Passed? {
      more := WorkerTakes(p, more, v);
    }
  }

  lemma TakeOldest(p: Pool) returns (more: seq<Step>)
    requires Inv(p) && NobodyLeft(p) && !p.stopped && p.tasks != [] && p.workers != []
    ensures CanRun(p, more) && Quiet(more)
    ensures Exec(p, more).taken == p.taken + [p.tasks[0]] && Exec(p, more).tasks == p.tasks[1..]
  {
    EmptyRun(p);
    if v :| 0 <= v < |p.workers| && p.workers[v].Passed? {
      more := WorkerTakes(p, [], v);
    } else if v :| 0 <= v < |p.workers| && !p.workers[v].Blocked? {
      more := WorkerTakes(p, [], v);
    } else {
      CountZero(p.workers, Seeking);
      assert p.workers[0].Blocked?;
      RunSnoc(p, [], NotifyOne(0));
      assert [] + [NotifyOne(0)] == [NotifyOne(0)];
      more := WorkerTakes(p, [NotifyOne(0)], 0);
    }
  }

  // Only worker w may have changed, towards the end of its task.
  ghost predicate Nearer(q: Pool, r: Pool, w: nat) {
    && r.tasks == q.tasks && r.taken == q.taken && |r.workers| == |q.workers|
    && forall v :: 0 <= v < |q.workers| && v != w ==> r.workers[v] == q.workers[v]
  }

  lemma StartOrFinish(q: Pool, w: nat)
    requires w < |q.workers| && HasTask(q.workers[w])
    ensures var step := if q.workers[w].Holding? then Start(w) else Finish(w);
            && Enabled(q, step) && Nearer(q, Next(q, step), w)
            && (q.workers[w].Holding? ==> Next(q, step).workers[w].Running?)
            && (q.workers[w].Running? ==> !HasTask(Next(q, step).workers[w]))
  {
  }

  lemma {:induction false} FinishOne(p: Pool, before: seq<Step>, w: nat) returns (more: seq<Step>)
    requires CanRun(p, before) && Quiet(before) && w < |Exec(p, before).workers|
    ensures CanRun(p, more) && Quiet(more) && Nearer(Exec(p, before), Exec(p, more), w)
    ensures !HasTask(Exec(p, more).workers[w])
    decreases Distance(Exec(p, before).workers[w])
  {
    more := before;
    var q := Exec(p, before);
    if HasTask(q.workers[w]) {
      var step := if q.workers[w].Holding? then Start(w) else Finish(w);
      StartOrFinish(q, w);
      RunSnoc(p, before, step);
      hide Next, Enabled;
      more := FinishOne(p, before + [step], w);
    }
  }

  // All workers below k finish the task they have.
  lemma {:induction false} FinishAll(p: Pool, k: nat) returns (more: seq<Step>)
    requires k <= |p.workers|
    ensures CanRun(p, more) && Quiet(more)
    ensures var q := Exec(p, more);
            && q.tasks == p.tasks && q.taken == p.taken && |q.workers| == |p.workers|
            && (forall w :: 0 <= w < k ==> !HasTask(q.workers[w]))
  {
    more := [];
    if k > 0 {
      var before := FinishAll(p, k - 1);
      more := FinishOne(p, before, k - 1);
      hide Next, Enabled;
    }
  }

  lemma {:induction false} Drain(p: Pool) returns (more: seq<Step>)
    requires Inv(p) && NobodyLeft(p) && !p.stopped && p.workers != []
    ensures CanRun(p, more) && Quiet(more)
    ensures var q := Exec(p, more);
            q.tasks == [] && q.taken == p.committed && forall w :: 0 <= w < |q.workers| ==> !HasTask(q.workers[w])
    decreases |p.tasks|
  {
    hide Next, Enabled;
    if p.tasks == [] {
      more := FinishAll(p, |p.workers|);
    } else {
      var take := TakeOldest(p);
      QuietKeeps(p, take);
      RunKeepsInv(p, take);
      RunKeepsWorkers(p, take);
      var rest := Drain(Exec(p, take));
      more := Joined(p, take, rest);
    }
  }

  // From every reachable state before stop some run without new commits, stop or
  // spurious wake-ups takes, starts and finishes every committed task.
  lemma AllCanRun(requested: nat, steps: seq<Step>) returns (more: seq<Step>)
    requires CanRun(Init(requested), steps) && !Exec(Init(requested), steps).stopped
    ensures var p := Exec(Init(requested), steps);
            && CanRun(p, more) && Quiet(more)
            && Exec(p, more).taken == p.committed
            && forall w :: 0 <= w < |Exec(p, more).workers| ==> !HasTask(Exec(p, more).workers[w])
  {
    Reachable(requested, steps);
    RunKeepsWorkers(Init(requested), steps);
    more := Drain(Exec(Init(requested), steps));
  }

  // The pool object.  Each method is a piece of source code run by one thread
  // without interference; it is proved to be a run of the step machine.
  class TaskPool {
    var tasks: seq<nat>
    var stoped: bool
    var idlThrNum: int
    var workers: seq<Worker>
    ghost var notifiedAll: bool
    ghost var entering: nat
    ghost var notifying: nat
    var committed: seq<nat>  // names the tasks by their commit position
    ghost var taken: seq<nat>
    ghost var lateStarts: seq<nat>
    ghost var missed: set<nat>

    ghost function View(): Pool
      reads this
    {
      Pool(tasks, stoped, notifiedAll, workers, idlThrNum, entering, notifying,
           committed, taken, lateStarts, missed)
    }

    constructor (size: nat)
      ensures View() == Init(size) && Inv(View())
    {
      var n := if size < 1 then 1 else size;
      idlThrNum := n;
      workers := seq(n, i => Top);
      tasks, stoped := [], false;
      notifiedAll, entering, notifying, committed, taken, missed := false, 0, 0, [], [], {};
      lateStarts := seq(n, i => 0);
      new;
      InitInv(size);
    }

    // commit(): false stands for the exception thrown after stop.  `wake` is the
    // sleeper the condition variable picks, if there is one.
    method Commit(wake: nat) returns (ok: bool, ghost steps: seq<Step>)
      requires Inv(View()) && MutexFree(View())
      requires wake < |workers|
      requires (exists i :: 0 <= i < |workers| && workers[i].Blocked?) ==> workers[wake].Blocked?
      modifies this
      ensures CanRun(old(View()), steps) && Exec(old(View()), steps) == View() && Inv(View())
      ensures ok == !old(stoped)
      ensures !ok ==> View() == old(View())
      ensures ok ==>
                && tasks == old(tasks) + [|old(committed)|] && |workers| == |old(workers)|
                && workers == if old(workers)[wake].Blocked? then old(workers)[wake := Locking] else old(workers)
    {
      steps := [];
      ghost var start := View();
      if stoped {
        return false, steps;
      }
      steps := CommitRun(start, wake);
      RunKeepsInv(start, steps);
      hide Inv, Exec, CanRun;
      var task := |committed|;
      tasks, committed := tasks + [task], committed + [task];
      if workers[wake].Blocked? {
        workers := workers[wake := Locking];
      }
      return true, steps;
    }

    // One pass of a worker that finds a task: take it, run it, count it.
    method RunOne(w: nat) returns (task: nat, ghost steps: seq<Step>)
      requires Inv(View()) && w < |workers| && workers[w].Top? && MutexFree(View())
      requires !stoped && tasks != []
      modifies this
      ensures CanRun(old(View()), steps) && Exec(old(View()), steps) == View() && Inv(View())
      ensures task == old(tasks[0]) && tasks == old(tasks[1..]) && taken == old(taken) + [task]
      ensures workers == old(workers) && idlThrNum == old(idlThrNum) && !stoped && MutexFree(View())
    {
      steps := OnePass(View(), w);
      RunKeepsInv(View(), steps);
      task := tasks[0];
      tasks, taken := tasks[1..], taken + [task];
      workers, idlThrNum := workers[w := Running(task)], idlThrNum - 1;
      workers, idlThrNum := workers[w := Top], idlThrNum + 1;
      assert workers == old(workers);
    }

    // The thread function, left alone: it drains the queue in order and then
    // sleeps, or exits at once when the pool is stopped.
    method RunWorker(w: nat) returns (ghost steps: seq<Step>)
      requires Inv(View()) && w < |workers| && workers[w].Top? && MutexFree(View())
      modifies this
      ensures CanRun(old(View()), steps) && Exec(old(View()), steps) == View() && Inv(View())
      ensures old(stoped) ==> workers == old(workers)[w := Exited] && tasks == old(tasks)
      ensures !old(stoped) ==>
                && workers == old(workers)[w := Blocked] && tasks == []
                && taken == old(taken) + old(tasks) && idlThrNum == old(idlThrNum)
    {
      EmptyRun(View());
      hide Inv, Exec, CanRun, MutexFree;
      ghost var start := View();
      steps := [];
      while !stoped && tasks != []
        invariant Inv(View()) && CanRun(start, steps) && Exec(start, steps) == View()
        invariant MutexFree(View()) && workers == old(workers)
        invariant stoped == old(stoped) && idlThrNum == old(idlThrNum)
        invariant taken + tasks == old(taken) + old(tasks)
        invariant stoped ==> tasks == old(tasks)
        decreases |tasks|
      {
        ghost var was := taken + tasks;
        var task, pass := RunOne(w);
        steps := Joined(start, steps, pass);
        assert taken + tasks == was;
      }
      ghost var last := LastPass(View(), w);
      steps := Joined(start, steps, last);
      RunKeepsInv(start, steps);
      workers := workers[w := if stoped then Exited else Blocked];
      assert taken + [] == taken;
    }

    // The first two statements of the destructor.
    method Shutdown() returns (ghost steps: seq<Step>)
      requires Inv(View()) && !stoped
      modifies this
      ensures CanRun(old(View()), steps) && Exec(old(View()), steps) == View() && Inv(View())
      ensures stoped && tasks == old(tasks) && |workers| == |old(workers)|
      ensures forall i :: 0 <= i < |workers| ==> !workers[i].Blocked?
    {
      NotYetNotified(View());
      steps := StopRun(View());
      RunKeepsInv(View(), steps);
      hide Inv, Exec, CanRun;
      stoped := true;
      notifiedAll, missed := true, set i | 0 <= i < |workers| && workers[i].Blocking?;
      workers := Woken(workers);
    }
  }
}
