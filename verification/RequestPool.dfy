// The server's worker pool (src/server/threadpool/threadpool.h): a request
// list under a mutex, a counting semaphore and a fixed set of workers.
// Every critical section and every semaphore operation is one step.
module RequestPool {
  import opened Counting

  datatype Request = Null | Job(id: nat)

  // Blocked in or before sem.wait(); past it, before the list is locked;
  // inside process().
  datatype Worker = Waiting | Woken | Busy(id: nat)

  // `appended`, `taken`, `interrupts` and `emptyTakes` record the history.
  datatype Pool = Pool(
    maxRequests: nat, queue: seq<Request>, tokens: nat, posting: nat, workers: seq<Worker>,
    appended: seq<Request>, taken: seq<Request>, interrupts: nat, emptyTakes: nat)

  datatype Step =
    | Push(request: Request)
    | Post
    | Wait(w: nat)
    | Interrupt(w: nat)
    | Take(w: nat)
    | Finish(w: nat)

  function Init(threads: nat, maxRequests: nat): Pool {
    Pool(maxRequests, [], 0, 0, seq(threads, i => Waiting), [], [], 0, 0)
  }

  predicate Refuses(p: Pool) { |p.queue| > p.maxRequests }

  predicate Enabled(p: Pool, step: Step) {
    match step
    case Push(_) => true
    case Post => p.posting > 0
    case Wait(w) => w < |p.workers| && p.workers[w] == Waiting && p.tokens > 0
    case Interrupt(w) => w < |p.workers| && p.workers[w] == Waiting
    case Take(w) => w < |p.workers| && p.workers[w] == Woken
    case Finish(w) => w < |p.workers| && p.workers[w].Busy?
  }

  function Next(p: Pool, step: Step): Pool
    requires Enabled(p, step)
  {
    match step
    case Push(r) =>
      if Refuses(p) then p
      else p.(queue := p.queue + [r], posting := p.posting + 1, appended := p.appended + [r])
    case Post => p.(tokens := p.tokens + 1, posting := p.posting - 1)
    case Wait(w) => p.(tokens := p.tokens - 1, workers := p.workers[w := Woken])
    case Interrupt(w) => p.(workers := p.workers[w := Woken], interrupts := p.interrupts + 1)
    case Take(w) =>
      if p.queue == [] then
        p.(workers := p.workers[w := Waiting], emptyTakes := p.emptyTakes + 1)
      else
        p.(queue := p.queue[1..], taken := p.taken + [p.queue[0]],
           workers := p.workers[w := if p.queue[0].Null? then Waiting else Busy(p.queue[0].id)])
    case Finish(w) => p.(workers := p.workers[w := Waiting])
  }

  predicate CanRun(p: Pool, steps: seq<Step>)
    decreases |steps|, 0
  {
    steps == [] ||
    var n := |steps| - 1;
    CanRun(p, steps[..n]) && Enabled(Exec(p, steps[..n]), steps[n])
  }

  function Exec(p: Pool, steps: seq<Step>): Pool
    requires CanRun(p, steps)
    decreases |steps|, 1
  {
    if steps == [] then p
    else Next(Exec(p, steps[..|steps| - 1]), steps[|steps| - 1])
  }

  function AwakeWorkers(p: Pool): nat { Count(p.workers, (w: Worker) => w == Woken) }

  // Tokens in the semaphore, about to be posted, or already drawn by a worker
  // that has not reached the list yet.
  function Permits(p: Pool): nat { p.tokens + p.posting + AwakeWorkers(p) }

  ghost predicate Inv(p: Pool) {
    && Permits(p) + p.emptyTakes == |p.queue| + p.interrupts
    && p.emptyTakes <= p.interrupts
    && |p.queue| <= p.maxRequests + 1
    && p.appended == p.taken + p.queue
  }

  lemma {:induction false} InitInv(threads: nat, maxRequests: nat)
    ensures Inv(Init(threads, maxRequests))
  {
    CountZero(Init(threads, maxRequests).workers, (w: Worker) => w == Woken);
  }

  lemma {:induction false} StepKeepsInv(p: Pool, step: Step)
    requires Inv(p) && Enabled(p, step)
    ensures Inv(Next(p, step))
  {
    var awake := (w: Worker) => w == Woken;
    match step
    case Push(r) =>
      assert p.taken + (p.queue + [r]) == p.taken + p.queue + [r];
    case Post =>
    case Wait(w) => CountUpdate(p.workers, w, Woken, awake);
    case Interrupt(w) => CountUpdate(p.workers, w, Woken, awake);
    case Take(w) =>
      CountPositive(p.workers, w, awake);
      CountUpdate(p.workers, w, Next(p, step).workers[w], awake);
      if p.queue != [] {
        assert p.taken + [p.queue[0]] + p.queue[1..] == p.taken + p.queue;
      }
    case Finish(w) => CountUpdate(p.workers, w, Waiting, awake);
  }

  lemma {:induction false} RunKeepsInv(p: Pool, steps: seq<Step>)
    requires Inv(p) && CanRun(p, steps)
    ensures Inv(Exec(p, steps))
  {
    if steps != [] {
      var n := |steps| - 1;
      RunKeepsInv(p, steps[..n]);
      StepKeepsInv(Exec(p, steps[..n]), steps[n]);
    }
  }

  // Semaphore accounting in every reachable state: the permits exceed the list
  // by exactly the interrupted waits that no empty pass has absorbed yet.
  lemma SemaphoreAccounting(threads: nat, maxRequests: nat, steps: seq<Step>)
    requires CanRun(Init(threads, maxRequests), steps)
    ensures var p := Exec(Init(threads, maxRequests), steps);
            && Permits(p) == |p.queue| + (p.interrupts - p.emptyTakes)
            && |p.queue| <= Permits(p)
            && (p.interrupts == 0 ==> |p.queue| == Permits(p) && p.emptyTakes == 0)
  {
    InitInv(threads, maxRequests);
    RunKeepsInv(Init(threads, maxRequests), steps);
  }

  lemma {:induction false} NoInterrupts(p: Pool, steps: seq<Step>)
    requires CanRun(p, steps)
    requires forall i :: 0 <= i < |steps| ==> !steps[i].Interrupt?
    ensures Exec(p, steps).interrupts == p.interrupts
  {
    if steps != [] {
      var n := |steps| - 1;
      NoInterrupts(p, steps[..n]);
      assert !steps[n].Interrupt?;
    }
  }

  // Without interrupted waits a worker that got past the semaphore always finds
  // a request, so the "list is empty" branch is dead.
  lemma EmptyBranchUnreachable(threads: nat, maxRequests: nat, steps: seq<Step>, w: nat)
    requires CanRun(Init(threads, maxRequests), steps)
    requires forall i :: 0 <= i < |steps| ==> !steps[i].Interrupt?
    requires var p := Exec(Init(threads, maxRequests), steps); w < |p.workers| && p.workers[w] == Woken
    ensures Exec(Init(threads, maxRequests), steps).queue != []
  {
    NoInterrupts(Init(threads, maxRequests), steps);
    SemaphoreAccounting(threads, maxRequests, steps);
    CountPositive(Exec(Init(threads, maxRequests), steps).workers, w, (x: Worker) => x == Woken);
  }

  lemma RunSnoc(p: Pool, steps: seq<Step>, step: Step)
    requires CanRun(p, steps) && Enabled(Exec(p, steps), step)
    ensures CanRun(p, steps + [step]) && Exec(p, steps + [step]) == Next(Exec(p, steps), step)
  {
    assert (steps + [step])[..|steps|] == steps;
  }

  // Steps that neither add requests nor interrupt a wait.
  ghost predicate Quiet(steps: seq<Step>) {
    forall i :: 0 <= i < |steps| ==> !steps[i].Push? && !steps[i].Interrupt?
  }

  lemma WaitAndTake(p: Pool, before: seq<Step>, w: nat) returns (more: seq<Step>)
    requires CanRun(p, before)
    requires var q := Exec(p, before);
             q.queue == p.queue != [] && q.taken == p.taken && Enabled(q, Wait(w)) && Quiet(before)
    ensures |more| == |before| + 2 && CanRun(p, more) && Quiet(more)
    ensures Exec(p, more).taken == p.taken + [p.queue[0]]
  {
    RunSnoc(p, before, Wait(w));
    RunSnoc(p, before + [Wait(w)], Take(w));
    more := before + [Wait(w)] + [Take(w)];
  }

  lemma RunOne(p: Pool, step: Step)
    requires Enabled(p, step)
    ensures CanRun(p, [step]) && Exec(p, [step]) == Next(p, step)
  {
    assert CanRun(p, []) && Exec(p, []) == p;
    RunSnoc(p, [], step);
    assert [] + [step] == [step];
  }

  lemma ReachOldest(p: Pool, w: nat) returns (more: seq<Step>)
    requires Inv(p) && p.queue != [] && w < |p.workers| && !p.workers[w].Busy?
    ensures |more| <= 3 && CanRun(p, more) && Quiet(more) && Exec(p, more).taken == p.taken + [p.queue[0]]
  {
    if v :| 0 <= v < |p.workers| && p.workers[v] == Woken {
      RunOne(p, Take(v));
      return [Take(v)];
    }
    CountZero(p.workers, (x: Worker) => x == Woken);
    if p.tokens > 0 {
      more := WaitAndTake(p, [], w);
    } else {
      RunOne(p, Post);
      more := WaitAndTake(p, [Post], w);
    }
  }

  // No request is stranded: while the list is non-empty some worker is on its
  // way to it, or a token is there or about to be posted; and as soon as one
  // worker is not inside process(), at most three further steps take the oldest
  // request off the list.
  lemma NeverStranded(threads: nat, maxRequests: nat, steps: seq<Step>, w: nat)
    returns (more: seq<Step>)
    requires CanRun(Init(threads, maxRequests), steps)
    requires var p := Exec(Init(threads, maxRequests), steps);
             p.queue != [] && w < |p.workers| && !p.workers[w].Busy?
    ensures var p := Exec(Init(threads, maxRequests), steps);
            && Permits(p) > 0
            && |more| <= 3 && CanRun(p, more) && Quiet(more)
            && Exec(p, more).taken == p.taken + [p.queue[0]]
  {
    InitInv(threads, maxRequests);
    RunKeepsInv(Init(threads, maxRequests), steps);
    more := ReachOldest(Exec(Init(threads, maxRequests), steps), w);
  }

  // A taken job is processed by the worker that took it: what worker w took last
  // and has not finished, read off the steps.
  datatype Duty = Free | Serving(id: nat)

  function DutyOf(p: Pool, steps: seq<Step>, w: nat): Duty
    requires CanRun(p, steps)
  {
    if steps == [] then Free
    else
      var n := |steps| - 1;
      var queue := Exec(p, steps[..n]).queue;
      if steps[n] == Take(w) then
        if queue == [] || queue[0].Null? then Free else Serving(queue[0].id)
      else if steps[n] == Finish(w) then Free
      else DutyOf(p, steps[..n], w)
  }

  function Finishes(steps: seq<Step>): nat { Count(steps, (s: Step) => s.Finish?) }

  function JobsTaken(p: Pool): nat { Count(p.taken, (r: Request) => r.Job?) }

  function BusyWorkers(p: Pool): nat { Count(p.workers, (w: Worker) => w.Busy?) }

  ghost predicate OnDuty(p: Pool, start: Pool, steps: seq<Step>)
    requires CanRun(start, steps)
  {
    forall w: nat :: w < |p.workers| ==>
      match DutyOf(start, steps, w)
      case Free => !p.workers[w].Busy?
      case Serving(id) => p.workers[w] == Busy(id)
  }

  lemma {:induction false} RunOnDuty(threads: nat, maxRequests: nat, steps: seq<Step>)
    requires CanRun(Init(threads, maxRequests), steps)
    ensures OnDuty(Exec(Init(threads, maxRequests), steps), Init(threads, maxRequests), steps)
    ensures |Exec(Init(threads, maxRequests), steps).workers| == threads
  {
    if steps != [] {
      RunOnDuty(threads, maxRequests, steps[..|steps| - 1]);
    }
  }

  lemma StepCounts(p: Pool, step: Step)
    requires Enabled(p, step)
    ensures var q := Next(p, step);
            JobsTaken(q) + BusyWorkers(p) == JobsTaken(p) + BusyWorkers(q) + Unit(step.Finish?)
  {
    var busy := (w: Worker) => w.Busy?;
    if step.Take? && p.queue != [] {
      CountSnoc(p.taken, p.queue[0], (r: Request) => r.Job?);
    }
    if !step.Push? && !step.Post? {
      CountUpdate(p.workers, step.w, Next(p, step).workers[step.w], busy);
    }
  }

  lemma {:induction false} RunCounts(p: Pool, steps: seq<Step>)
    requires CanRun(p, steps) && JobsTaken(p) == BusyWorkers(p)
    ensures JobsTaken(Exec(p, steps)) == Finishes(steps) + BusyWorkers(Exec(p, steps))
  {
    if steps != [] {
      var n := |steps| - 1;
      RunCounts(p, steps[..n]);
      StepCounts(Exec(p, steps[..n]), steps[n]);
      CountSnoc(steps[..n], steps[n], (s: Step) => s.Finish?);
      assert steps == steps[..n] + [steps[n]];
      hide JobsTaken, BusyWorkers;
    }
  }

  // In every run each worker is inside process() on exactly the job it took last
  // and has not finished, and every job taken was finished or is being processed.
  lemma TakenIsProcessed(threads: nat, maxRequests: nat, steps: seq<Step>)
    requires CanRun(Init(threads, maxRequests), steps)
    ensures var p := Exec(Init(threads, maxRequests), steps);
            && |p.workers| == threads
            && OnDuty(p, Init(threads, maxRequests), steps)
            && JobsTaken(p) == Finishes(steps) + BusyWorkers(p)
  {
    RunOnDuty(threads, maxRequests, steps);
    CountZero(Init(threads, maxRequests).workers, (w: Worker) => w.Busy?);
    RunCounts(Init(threads, maxRequests), steps);
  }

  // Every accepted request can still be processed.

  lemma {:induction false} Concat(p: Pool, first: seq<Step>, second: seq<Step>)
    requires CanRun(p, first) && CanRun(Exec(p, first), second)
    ensures CanRun(p, first + second) && Exec(p, first + second) == Exec(Exec(p, first), second)
    decreases |second|
  {
    if second == [] {
      assert first + second == first;
    } else {
      var n := |second| - 1;
      Concat(p, first, second[..n]);
      assert first + second == (first + second[..n]) + [second[n]];
      RunSnoc(p, first + second[..n], second[n]);
      hide Next, Enabled;
    }
  }

  lemma {:induction false} QuietKeeps(p: Pool, steps: seq<Step>)
    requires CanRun(p, steps) && Quiet(steps)
    ensures Exec(p, steps).appended == p.appended && |Exec(p, steps).workers| == |p.workers|
  {
    if steps != [] {
      var n := |steps| - 1;
      QuietKeeps(p, steps[..n]);
      assert !steps[n].Push?;
    }
  }

  // All workers below k come back from process().
  lemma {:induction false} FinishAll(p: Pool, k: nat) returns (more: seq<Step>)
    requires k <= |p.workers|
    ensures CanRun(p, more) && Quiet(more)
    ensures var q := Exec(p, more);
            && q.queue == p.queue && q.taken == p.taken && |q.workers| == |p.workers|
            && (forall w :: 0 <= w < k ==> !q.workers[w].Busy?)
            && forall w :: k <= w < |p.workers| ==> q.workers[w] == p.workers[w]
  {
    more := [];
    if k > 0 {
      more := FinishAll(p, k - 1);
      if p.workers[k - 1].Busy? {
        RunSnoc(p, more, Finish(k - 1));
        more := more + [Finish(k - 1)];
      }
    }
  }

  lemma TakeOldest(p: Pool) returns (more: seq<Step>)
    requires Inv(p) && p.queue != [] && p.workers != []
    ensures CanRun(p, more) && Quiet(more) && Inv(Exec(p, more)) && Exec(p, more).workers != []
    ensures Exec(p, more).taken == p.taken + [p.queue[0]] && Exec(p, more).queue == p.queue[1..]
  {
    hide Next, Enabled, Permits;
    var free := FinishAll(p, |p.workers|);
    RunKeepsInv(p, free);
    var take := ReachOldest(Exec(p, free), 0);
    Concat(p, free, take);
    more := free + take;
    RunKeepsInv(p, more);
    QuietKeeps(p, more);
    var q := Exec(p, more);
    assert q.queue == q.appended[|q.taken|..] == p.appended[|q.taken|..];
  }

  lemma {:induction false} Drain(p: Pool) returns (more: seq<Step>)
    requires Inv(p) && p.workers != []
    ensures CanRun(p, more) && Quiet(more)
    ensures var q := Exec(p, more);
            q.queue == [] && q.taken == p.appended && forall w :: 0 <= w < |q.workers| ==> !q.workers[w].Busy?
    decreases |p.queue|
  {
    if p.queue == [] {
      more := FinishAll(p, |p.workers|);
    } else {
      var take := TakeOldest(p);
      var rest := Drain(Exec(p, take));
      Concat(p, take, rest);
      QuietKeeps(p, take);
      more := take + rest;
    }
  }

  // From every reachable state some run without new requests and interrupts takes
  // and finishes every request accepted so far.
  lemma AllCanBeProcessed(threads: nat, maxRequests: nat, steps: seq<Step>) returns (more: seq<Step>)
    requires threads > 0 && CanRun(Init(threads, maxRequests), steps)
    ensures var p := Exec(Init(threads, maxRequests), steps);
            && CanRun(p, more) && Quiet(more)
            && Exec(p, more).taken == p.appended && JobsTaken(Exec(p, more)) == Finishes(steps + more)
  {
    var start := Init(threads, maxRequests);
    InitInv(threads, maxRequests);
    RunKeepsInv(start, steps);
    TakenIsProcessed(threads, maxRequests, steps);
    more := Drain(Exec(start, steps));
    Concat(start, steps, more);
    TakenIsProcessed(threads, maxRequests, steps + more);
    CountZero(Exec(start, steps + more).workers, (w: Worker) => w.Busy?);
  }

  lemma {:induction false} KeepsLimit(p: Pool, steps: seq<Step>)
    requires CanRun(p, steps)
    ensures Exec(p, steps).maxRequests == p.maxRequests
  {
    if steps != [] {
      KeepsLimit(p, steps[..|steps| - 1]);
    }
  }

  // A pool used alone holds at most max_requests + 1 requests: the test is `>`.
  // Requests leave the list in the order in which they were accepted.
  lemma PoolBoundAndOrder(threads: nat, maxRequests: nat, steps: seq<Step>)
    requires CanRun(Init(threads, maxRequests), steps)
    ensures var p := Exec(Init(threads, maxRequests), steps);
            |p.queue| <= maxRequests + 1 && p.appended == p.taken + p.queue
  {
    InitInv(threads, maxRequests);
    RunKeepsInv(Init(threads, maxRequests), steps);
    KeepsLimit(Init(threads, maxRequests), steps);
  }

  // The bound is reached.
  lemma {:induction false} BoundIsTight(threads: nat, maxRequests: nat, n: nat) returns (steps: seq<Step>)
    requires n <= maxRequests + 1
    ensures CanRun(Init(threads, maxRequests), steps)
    ensures |Exec(Init(threads, maxRequests), steps).queue| == n
  {
    steps := [];
    if n > 0 {
      steps := BoundIsTight(threads, maxRequests, n - 1);
      KeepsLimit(Init(threads, maxRequests), steps);
      RunSnoc(Init(threads, maxRequests), steps, Push(Null));
      steps := steps + [Push(Null)];
    }
  }

  // The pool object.  `workers` stands for the program counters of the threads.
  class ThreadPool {
    const maxRequests: nat
    var workqueue: seq<Request>
    var queuestat: nat
    var posting: nat
    var workers: seq<Worker>
    ghost var appended: seq<Request>
    ghost var taken: seq<Request>
    ghost var interrupts: nat
    ghost var emptyTakes: nat

    ghost function View(): Pool
      reads this
    {
      Pool(maxRequests, workqueue, queuestat, posting, workers, appended, taken, interrupts, emptyTakes)
    }

    constructor (threads: nat, maxRequests: nat)
      requires threads > 0 && maxRequests > 0
      ensures View() == Init(threads, maxRequests) && Inv(View())
    {
      this.maxRequests := maxRequests;
      workqueue, queuestat, posting := [], 0, 0;
      workers := seq(threads, i => Waiting);
      appended, taken, interrupts, emptyTakes := [], [], 0, 0;
      new;
      InitInv(threads, maxRequests);
    }

    // Non-positive sizes make the constructor throw; null stands for that.
    static method Create(threads: int, maxRequests: int) returns (pool: ThreadPool?)
      ensures pool == null <==> threads <= 0 || maxRequests <= 0
      ensures pool != null ==> fresh(pool) && pool.View() == Init(threads, maxRequests) && Inv(pool.View())
    {
      if threads <= 0 || maxRequests <= 0 {
        return null;
      }
      pool := new ThreadPool(threads, maxRequests);
    }

    // The locked part of append().
    method PushBack(request: Request) returns (ok: bool)
      requires Inv(View())
      modifies this
      ensures View() == Next(old(View()), Push(request)) && Inv(View())
      ensures ok == !Refuses(old(View()))
    {
      StepKeepsInv(View(), Push(request));
      if |workqueue| > maxRequests {
        return false;
      }
      workqueue := workqueue + [request];
      posting := posting + 1;
      appended := appended + [request];
      return true;
    }

    method SemPost()
      requires Inv(View()) && posting > 0
      modifies this
      ensures View() == Next(old(View()), Post) && Inv(View())
    {
      StepKeepsInv(View(), Post);
      posting := posting - 1;
      queuestat := queuestat + 1;
    }

    // append(): push under the lock, then post, as one thread runs it alone.
    method Append(request: Request) returns (ok: bool)
      requires Inv(View())
      modifies this
      ensures Inv(View())
      ensures ok == !Refuses(old(View()))
      ensures ok ==> View() == Next(Next(old(View()), Push(request)), Post)
      ensures !ok ==> View() == old(View())
    {
      ok := PushBack(request);
      if ok {
        SemPost();
      }
    }

    // sem.wait(); its result is not looked at, so an interrupted wait passes too.
    method SemWait(w: nat, interrupted: bool)
      requires Inv(View()) && Enabled(View(), if interrupted then Interrupt(w) else Wait(w))
      modifies this
      ensures View() == Next(old(View()), if interrupted then Interrupt(w) else Wait(w)) && Inv(View())
    {
      StepKeepsInv(View(), if interrupted then Interrupt(w) else Wait(w));
      if interrupted {
        interrupts := interrupts + 1;
      } else {
        queuestat := queuestat - 1;
      }
      workers := workers[w := Woken];
    }

    // The locked part of run(): fetch the oldest request, if any.
    method TakeFront(w: nat) returns (request: Request)
      requires Inv(View()) && Enabled(View(), Take(w))
      modifies this
      ensures View() == Next(old(View()), Take(w)) && Inv(View())
      ensures request == if old(workqueue) == [] then Null else old(workqueue)[0]
      ensures workers == old(workers)[w := match request case Null => Waiting case Job(id) => Busy(id)]
    {
      StepKeepsInv(View(), Take(w));
      if |workqueue| == 0 {
        workers, emptyTakes := workers[w := Waiting], emptyTakes + 1;
        return Null;
      }
      request := workqueue[0];
      taken := taken + [request];
      workqueue := workqueue[1..];
      if request.Null? {
        workers := workers[w := Waiting];
      } else {
        workers := workers[w := Busy(request.id)];
      }
    }

    method FinishProcess(w: nat)
      requires Inv(View()) && Enabled(View(), Finish(w))
      modifies this
      ensures View() == Next(old(View()), Finish(w)) && Inv(View())
    {
      StepKeepsInv(View(), Finish(w));
      workers := workers[w := Waiting];
    }
  }
}
