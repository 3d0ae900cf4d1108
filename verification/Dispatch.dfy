// The server's event loop (src/server/ser.cpp) on top of the worker pool.
//
// The kernel is modelled by two sets: `open`, the accepted connections whose
// descriptor is not closed, and `armed`, those whose one-shot registration has
// not fired.  Three facts about it are taken for granted: epoll_wait reports an
// armed descriptor at most once per call and disarms it, accept returns a
// descriptor that is not open, and descriptors stay below MAX_FD.
// Everything else is decided by the program: it never re-arms a descriptor and
// closes one only in the hang-up branch.
module Dispatch {
  import opened Counting
  import RP = RequestPool

  const MAX_FD: nat := 1024

  // `hangUp` is EPOLLRDHUP, EPOLLHUP or EPOLLERR; `readable` is EPOLLIN.
  datatype Event = Listen | Conn(fd: nat, hangUp: bool, readable: bool)

  datatype State = State(open: set<nat>, armed: set<nat>, batch: seq<Event>, pool: RP.Pool)

  datatype Step =
    | EpollWait(events: seq<Event>)
    | Accept(fd: int)
    | Handle
    | Post
    | Work(step: RP.Step)

  function Init(threads: nat, maxRequests: nat): State {
    State({}, {}, [], RP.Init(threads, maxRequests))
  }

  // What one epoll_wait call may report.
  ghost predicate Reportable(armed: set<nat>, events: seq<Event>) {
    && (forall i :: 0 <= i < |events| && events[i].Conn? ==> events[i].fd in armed)
    && (forall i, j :: 0 <= i < j < |events| && events[i].Conn? && events[j].Conn? ==>
          events[i].fd != events[j].fd)
  }

  function Reported(events: seq<Event>): set<nat> {
    set e | e in events && e.Conn? :: e.fd
  }

  ghost predicate Enabled(s: State, step: Step) {
    match step
    case EpollWait(events) => s.batch == [] && s.pool.posting == 0 && Reportable(s.armed, events)
    case Accept(fd) =>
      && s.pool.posting == 0 && s.batch != [] && s.batch[0].Listen?
      && (fd >= 0 ==> fd < MAX_FD && fd !in s.open)
    case Handle => s.pool.posting == 0 && s.batch != [] && s.batch[0].Conn?
    case Post => s.pool.posting > 0
    case Work(w) => !w.Push? && !w.Post? && RP.Enabled(s.pool, w)
  }

  ghost function Next(s: State, step: Step): State
    requires Enabled(s, step)
  {
    match step
    case EpollWait(events) => s.(batch := events, armed := s.armed - Reported(events))
    case Accept(fd) =>
      if fd < 0 then s.(batch := s.batch[1..])
      else s.(batch := s.batch[1..], open := s.open + {fd}, armed := s.armed + {fd})
    case Handle =>
      var e := s.batch[0];
      var t := s.(batch := s.batch[1..]);
      if e.hangUp then t.(open := s.open - {e.fd}, armed := s.armed - {e.fd})
      else if e.readable then t.(pool := RP.Next(s.pool, RP.Push(RP.Job(e.fd))))
      else t
    case Post => s.(pool := RP.Next(s.pool, RP.Post))
    case Work(w) => s.(pool := RP.Next(s.pool, w))
  }

  ghost predicate CanRun(s: State, steps: seq<Step>)
    decreases |steps|, 0
  {
    steps == [] ||
    var n := |steps| - 1;
    CanRun(s, steps[..n]) && Enabled(Exec(s, steps[..n]), steps[n])
  }

  ghost function Exec(s: State, steps: seq<Step>): State
    requires CanRun(s, steps)
    decreases |steps|, 1
  {
    if steps == [] then s
    else Next(Exec(s, steps[..|steps| - 1]), steps[|steps| - 1])
  }

  // What every step keeps.

  ghost predicate KernelInv(s: State) {
    && s.armed <= s.open
    && (forall fd :: fd in s.open ==> fd < MAX_FD)
    && Reportable(s.open - s.armed, s.batch)
  }

  // A monitor handed to the pool once is out of reach of the event loop: its
  // descriptor is open, disarmed and not in the current batch.
  ghost predicate Spent(s: State, r: RP.Request) {
    r.Job? && r.id in s.open && r.id !in s.armed && r.id !in Reported(s.batch)
  }

  ghost predicate HistoryInv(s: State) {
    && Distinct(s.pool.appended)
    && (forall r :: r in s.pool.appended ==> Spent(s, r))
  }

  ghost predicate WorkerInv(p: RP.Pool) {
    && (forall i :: 0 <= i < |p.workers| && p.workers[i].Busy? ==> RP.Job(p.workers[i].id) in p.taken)
    && (forall i, j :: 0 <= i < j < |p.workers| && p.workers[i].Busy? && p.workers[j].Busy? ==>
          p.workers[i].id != p.workers[j].id)
  }

  ghost predicate Inv(s: State) {
    RP.Inv(s.pool) && s.pool.posting <= 1 && KernelInv(s) && HistoryInv(s) && WorkerInv(s.pool)
  }

  lemma InitInv(threads: nat, maxRequests: nat)
    ensures Inv(Init(threads, maxRequests))
  {
    RP.InitInv(threads, maxRequests);
  }

  lemma TailReported(batch: seq<Event>)
    requires batch != []
    ensures Reported(batch) ==
            Reported(batch[1..]) + (if batch[0].Conn? then {batch[0].fd} else {})
  {
    assert batch == [batch[0]] + batch[1..];
  }

  lemma PollKeepsInv(s: State, events: seq<Event>)
    requires Inv(s) && Enabled(s, EpollWait(events))
    ensures Inv(Next(s, EpollWait(events)))
  {
    var t := Next(s, EpollWait(events));
    forall i | 0 <= i < |events| && events[i].Conn?
      ensures events[i].fd in t.open - t.armed
    {
      assert events[i] in events;
    }
    assert forall r :: r in s.pool.appended ==> Spent(s, r);
  }

  lemma AcceptKeepsInv(s: State, fd: int)
    requires Inv(s) && Enabled(s, Accept(fd))
    ensures Inv(Next(s, Accept(fd)))
  {
    TailReported(s.batch);
    var t := Next(s, Accept(fd));
    forall i | 0 <= i < |t.batch| && t.batch[i].Conn?
      ensures t.batch[i].fd in t.open - t.armed
    {
      assert t.batch[i] == s.batch[i + 1];
    }
    forall r | r in t.pool.appended ensures Spent(t, r) {
      assert Spent(s, r);
    }
  }

  lemma HandleKeepsKernelInv(s: State)
    requires Inv(s) && Enabled(s, Handle)
    ensures KernelInv(Next(s, Handle))
    ensures s.batch[0].fd in s.open - s.armed
    ensures s.batch[0].fd !in Reported(s.batch[1..])
  {
    var t := Next(s, Handle);
    forall i | 0 <= i < |t.batch| && t.batch[i].Conn?
      ensures t.batch[i].fd in t.open - t.armed
    {
      assert t.batch[i] == s.batch[i + 1];
    }
  }

  lemma HandleKeepsInv(s: State)
    requires Inv(s) && Enabled(s, Handle)
    ensures Inv(Next(s, Handle))
  {
    var t, e := Next(s, Handle), s.batch[0];
    TailReported(s.batch);
    HandleKeepsKernelInv(s);
    RP.StepKeepsInv(s.pool, RP.Push(RP.Job(e.fd)));
    forall r | r in s.pool.appended
      ensures r != RP.Job(e.fd) && Spent(t, r)
    {
      assert Spent(s, r);
      assert e in s.batch;
    }
    DistinctSnoc(s.pool.appended, RP.Job(e.fd));
  }

  lemma WorkKeepsInv(s: State, w: RP.Step)
    requires Inv(s) && Enabled(s, Work(w))
    ensures Inv(Next(s, Work(w)))
  {
    RP.StepKeepsInv(s.pool, w);
    var p, q := s.pool, RP.Next(s.pool, w);
    if w.Take? && p.queue != [] {
      var r := p.queue[0];
      assert r == p.appended[|p.taken|];
      assert forall i :: 0 <= i < |p.taken| ==> p.taken[i] == p.appended[i] != r;
      assert r in p.appended;
    }
    assert forall r :: r in s.pool.appended ==> Spent(s, r);
  }

  lemma StepKeepsInv(s: State, step: Step)
    requires Inv(s) && Enabled(s, step)
    ensures Inv(Next(s, step))
  {
    match step
    case EpollWait(events) => PollKeepsInv(s, events);
    case Accept(fd) => AcceptKeepsInv(s, fd);
    case Handle => HandleKeepsInv(s);
    case Post =>
      RP.StepKeepsInv(s.pool, RP.Post);
      assert forall r :: r in s.pool.appended ==> Spent(s, r);
    case Work(w) => WorkKeepsInv(s, w);
  }

  lemma {:induction false} RunKeepsInv(s: State, steps: seq<Step>)
    requires Inv(s) && CanRun(s, steps)
    ensures Inv(Exec(s, steps))
  {
    if steps != [] {
      var n := |steps| - 1;
      RunKeepsInv(s, steps[..n]);
      StepKeepsInv(Exec(s, steps[..n]), steps[n]);
    }
  }

  lemma Reachable(threads: nat, maxRequests: nat, steps: seq<Step>)
    requires CanRun(Init(threads, maxRequests), steps)
    ensures Inv(Exec(Init(threads, maxRequests), steps))
  {
    InitInv(threads, maxRequests);
    RunKeepsInv(Init(threads, maxRequests), steps);
  }

  // Main results, for every run of accepts, events, hang-ups and worker steps.

  // A monitor is in the request list or inside process() at most once in total.
  ghost predicate Exclusive(p: RP.Pool) {
    && Distinct(p.queue)
    && (forall i :: 0 <= i < |p.workers| && p.workers[i].Busy? ==> RP.Job(p.workers[i].id) !in p.queue)
    && (forall i, j :: 0 <= i < j < |p.workers| && p.workers[i].Busy? && p.workers[j].Busy? ==>
          p.workers[i].id != p.workers[j].id)
  }

  lemma PoolExclusive(s: State)
    requires Inv(s)
    ensures Exclusive(s.pool)
  {
    var p := s.pool;
    hide KernelInv, Spent;
    forall i, j | 0 <= i < j < |p.queue| ensures p.queue[i] != p.queue[j] {
      assert p.queue[i] == p.appended[|p.taken| + i] && p.queue[j] == p.appended[|p.taken| + j];
    }
    forall i | 0 <= i < |p.workers| && p.workers[i].Busy?
      ensures RP.Job(p.workers[i].id) !in p.queue
    {
      var k :| 0 <= k < |p.taken| && p.taken[k] == RP.Job(p.workers[i].id);
      assert p.taken[k] == p.appended[k];
      forall m | 0 <= m < |p.queue| ensures p.queue[m] != RP.Job(p.workers[i].id) {
        assert p.queue[m] == p.appended[|p.taken| + m];
      }
    }
  }

  lemma MonitorExclusive(threads: nat, maxRequests: nat, steps: seq<Step>)
    requires CanRun(Init(threads, maxRequests), steps)
    ensures Exclusive(Exec(Init(threads, maxRequests), steps).pool)
  {
    Reachable(threads, maxRequests, steps);
    PoolExclusive(Exec(Init(threads, maxRequests), steps));
  }

  // A monitor is re-initialised only when it is neither queued nor running; in
  // fact only when it has never been handed to the pool before.
  lemma InitOnlyUnused(threads: nat, maxRequests: nat, steps: seq<Step>, fd: nat)
    requires CanRun(Init(threads, maxRequests), steps)
    requires Enabled(Exec(Init(threads, maxRequests), steps), Accept(fd))
    ensures var p := Exec(Init(threads, maxRequests), steps).pool;
            && RP.Job(fd) !in p.appended
            && RP.Job(fd) !in p.queue
            && forall i :: 0 <= i < |p.workers| ==> p.workers[i] != RP.Busy(fd)
  {
    Reachable(threads, maxRequests, steps);
    var s := Exec(Init(threads, maxRequests), steps);
    assert forall r :: r in s.pool.appended ==> Spent(s, r);
  }

  lemma {:induction false} JobsAndIds(jobs: set<RP.Request>, ids: set<nat>)
    requires forall r :: r in jobs ==> r.Job? && r.id in ids
    requires forall i :: i in ids ==> RP.Job(i) in jobs
    ensures |jobs| == |ids|
  {
    if jobs == {} {
      assert ids == {};
    } else {
      var r :| r in jobs;
      JobsAndIds(jobs - {r}, ids - {r.id});
    }
  }

  // The requests ever accepted, not only those waiting, are bounded by the open
  // connections, and those by MAX_FD.
  lemma AppendedBounded(s: State)
    requires Inv(s)
    ensures |s.pool.queue| <= |s.pool.appended| <= |s.open| <= MAX_FD
  {
    var ids := set r | r in s.pool.appended && r.Job? :: r.id;
    var jobs := Elements(s.pool.appended);
    DistinctLength(s.pool.appended);
    assert forall r :: r in s.pool.appended ==> Spent(s, r);
    JobsAndIds(jobs, ids);
    SubsetLength(ids, s.open);
    RangeSize(s.open, MAX_FD);
  }

  lemma {:induction false} KeepsLimit(s: State, steps: seq<Step>)
    requires CanRun(s, steps)
    ensures Exec(s, steps).pool.maxRequests == s.pool.maxRequests
  {
    if steps != [] {
      KeepsLimit(s, steps[..|steps| - 1]);
    }
  }

  // With a limit of at least MAX_FD, as the default 10000 is, append() never
  // refuses a request, whatever the interleaving.
  lemma AppendNeverRefuses(threads: nat, maxRequests: nat, steps: seq<Step>)
    requires CanRun(Init(threads, maxRequests), steps) && maxRequests >= MAX_FD
    ensures var s := Exec(Init(threads, maxRequests), steps);
            |s.pool.queue| <= |s.open| <= MAX_FD && !RP.Refuses(s.pool)
  {
    Reachable(threads, maxRequests, steps);
    var s := Exec(Init(threads, maxRequests), steps);
    AppendedBounded(s);
    KeepsLimit(Init(threads, maxRequests), steps);
  }

  lemma {:induction false} HistoryGrows(s: State, steps: seq<Step>)
    requires CanRun(s, steps)
    ensures s.pool.appended <= Exec(s, steps).pool.appended
  {
    if steps != [] {
      HistoryGrows(s, steps[..|steps| - 1]);
    }
  }

  // One-shot registrations are never renewed and a served connection is never
  // closed, so the server accepts work from at most MAX_FD connections in its
  // whole life, and each of them keeps its descriptor for ever.
  lemma LifetimeBound(threads: nat, maxRequests: nat, steps: seq<Step>, more: seq<Step>)
    requires CanRun(Init(threads, maxRequests), steps)
    requires CanRun(Exec(Init(threads, maxRequests), steps), more)
    ensures var s := Exec(Init(threads, maxRequests), steps);
            var t := Exec(s, more);
            && s.pool.appended <= t.pool.appended
            && |t.pool.appended| <= 1024
            && forall r :: r in s.pool.appended ==> r.Job? && r.id in t.open && r.id !in t.armed
  {
    Reachable(threads, maxRequests, steps);
    var s := Exec(Init(threads, maxRequests), steps);
    RunKeepsInv(s, more);
    var t := Exec(s, more);
    HistoryGrows(s, more);
    AppendedBounded(t);
    forall r | r in s.pool.appended ensures Spent(t, r) {
      var i :| 0 <= i < |s.pool.appended| && s.pool.appended[i] == r;
      assert t.pool.appended[i] == r;
    }
  }

  // Open connections: with such a limit, and as long as every reported event
  // carries a flag, each one is armed, waiting in the current batch, or was
  // handed to the pool.  A hang-up closes a connection.
  ghost predicate Flagged(events: seq<Event>) {
    forall e :: e in events && e.Conn? ==> e.hangUp || e.readable
  }

  ghost predicate Accounted(s: State) {
    && Flagged(s.batch)
    && forall fd :: fd in s.open ==>
         fd in s.armed || fd in Reported(s.batch) || RP.Job(fd) in s.pool.appended
  }

  lemma StepKeepsAccounted(s: State, step: Step)
    requires Inv(s) && Enabled(s, step) && Accounted(s) && s.pool.maxRequests >= MAX_FD
    requires step.EpollWait? ==> Flagged(step.events)
    ensures Accounted(Next(s, step))
  {
    AppendedBounded(s);
    if step.Accept? || step.Handle? {
      TailReported(s.batch);
      assert s.batch[0] in s.batch;
    }
    var t := Next(s, step);
    forall fd | fd in t.open
      ensures fd in t.armed || fd in Reported(t.batch) || RP.Job(fd) in t.pool.appended
    {
      assert fd in s.open || (step.Accept? && fd == step.fd);
    }
  }

  lemma {:induction false} OpenAccounted(threads: nat, maxRequests: nat, steps: seq<Step>)
    requires CanRun(Init(threads, maxRequests), steps) && maxRequests >= MAX_FD
    requires forall i :: 0 <= i < |steps| && steps[i].EpollWait? ==> Flagged(steps[i].events)
    ensures Accounted(Exec(Init(threads, maxRequests), steps))
  {
    if steps != [] {
      var n := |steps| - 1;
      OpenAccounted(threads, maxRequests, steps[..n]);
      Reachable(threads, maxRequests, steps[..n]);
      KeepsLimit(Init(threads, maxRequests), steps[..n]);
      StepKeepsAccounted(Exec(Init(threads, maxRequests), steps[..n]), steps[n]);
    }
  }

  // The accepted connections of a run, oldest first, each with what its one
  // event said.  A descriptor is used again after a hang-up, so an event belongs
  // to the last visit of its descriptor.
  datatype Fate = Waiting | Seen(hangUp: bool, readable: bool)

  datatype Visit = Visit(fd: nat, fate: Fate)

  ghost predicate IsLast(vs: seq<Visit>, k: nat) {
    k < |vs| && forall j :: k < j < |vs| ==> vs[j].fd != vs[k].fd
  }

  ghost function Marked(vs: seq<Visit>, e: Event): seq<Visit>
    requires e.Conn?
  {
    seq(|vs|, k requires 0 <= k < |vs| =>
      if IsLast(vs, k) && vs[k].fd == e.fd then Visit(e.fd, Seen(e.hangUp, e.readable)) else vs[k])
  }

  ghost function Noted(vs: seq<Visit>, s: State, step: Step): seq<Visit>
    requires Enabled(s, step)
  {
    if step.Accept? && step.fd >= 0 then vs + [Visit(step.fd, Waiting)]
    else if step.Handle? then Marked(vs, s.batch[0])
    else vs
  }

  ghost function Visits(s: State, steps: seq<Step>): seq<Visit>
    requires CanRun(s, steps)
  {
    if steps == [] then []
    else
      var n := |steps| - 1;
      Noted(Visits(s, steps[..n]), Exec(s, steps[..n]), steps[n])
  }

  // What the event loop and the pool know about visit k.
  ghost predicate VisitOk(s: State, vs: seq<Visit>, k: nat)
    requires k < |vs|
  {
    var v := vs[k];
    if IsLast(vs, k) && v.fd in s.open then
      && (v.fate.Waiting? <==> v.fd in s.armed || v.fd in Reported(s.batch))
      && (v.fate.Seen? ==> !v.fate.hangUp && (v.fate.readable <==> RP.Job(v.fd) in s.pool.appended))
    else v.fate.Seen? && v.fate.hangUp
  }

  ghost predicate VisitInv(s: State, vs: seq<Visit>) {
    && (forall k: nat :: k < |vs| ==> VisitOk(s, vs, k))
    && forall fd :: fd in s.open ==> exists k: nat :: IsLast(vs, k) && vs[k].fd == fd
  }

  lemma AcceptKeepsVisits(s: State, vs: seq<Visit>, fd: nat)
    requires Inv(s) && VisitInv(s, vs) && Enabled(s, Accept(fd))
    ensures VisitInv(Next(s, Accept(fd)), vs + [Visit(fd, Waiting)])
  {
    var t, ws := Next(s, Accept(fd)), vs + [Visit(fd, Waiting)];
    TailReported(s.batch);
    assert IsLast(ws, |vs|) && ws[|vs|].fd == fd;
    forall k: nat | k < |vs|
      ensures VisitOk(t, ws, k) && (IsLast(ws, k) <==> IsLast(vs, k) && vs[k].fd != fd)
    {
      assert VisitOk(s, vs, k) && ws[k] == vs[k];
      assert forall j :: k < j < |vs| ==> ws[j] == vs[j];
    }
    forall other | other in t.open && other != fd
      ensures exists k: nat :: IsLast(ws, k) && ws[k].fd == other
    {
      var k: nat :| IsLast(vs, k) && vs[k].fd == other;
      assert IsLast(ws, k);
    }
  }

  lemma MarkedKeepsLast(vs: seq<Visit>, e: Event)
    requires e.Conn?
    ensures forall k: nat :: IsLast(Marked(vs, e), k) <==> IsLast(vs, k)
  {
    var ws := Marked(vs, e);
    assert |ws| == |vs| && forall j :: 0 <= j < |vs| ==> ws[j].fd == vs[j].fd;
    forall k: nat ensures IsLast(ws, k) <==> IsLast(vs, k) {
    }
  }

  lemma HandleKeepsVisits(s: State, vs: seq<Visit>)
    requires Inv(s) && VisitInv(s, vs) && Enabled(s, Handle) && !RP.Refuses(s.pool)
    ensures VisitInv(Next(s, Handle), Marked(vs, s.batch[0]))
  {
    var t, e := Next(s, Handle), s.batch[0];
    var ws := Marked(vs, e);
    TailReported(s.batch);
    HandleKeepsKernelInv(s);
    MarkedKeepsLast(vs, e);
    assert e.fd in Reported(s.batch) by { assert e in s.batch; }
    assert RP.Job(e.fd) !in s.pool.appended by {
      assert forall r :: r in s.pool.appended ==> Spent(s, r);
    }
    forall k: nat | k < |ws| ensures VisitOk(t, ws, k) {
      assert VisitOk(s, vs, k);
    }
    forall fd | fd in t.open ensures exists k: nat :: IsLast(ws, k) && ws[k].fd == fd {
      var k: nat :| IsLast(vs, k) && vs[k].fd == fd;
      assert IsLast(ws, k) && ws[k].fd == fd;
    }
  }

  // Every other step leaves the visits and what they mean alone.
  lemma OtherKeepsVisits(s: State, vs: seq<Visit>, step: Step)
    requires Inv(s) && VisitInv(s, vs) && Enabled(s, step) && !step.Handle? && (step.Accept? ==> step.fd < 0)
    ensures VisitInv(Next(s, step), vs)
  {
    var t := Next(s, step);
    if step.Accept? { TailReported(s.batch); }
    assert t.open == s.open && t.pool.appended == s.pool.appended;
    if step.EpollWait? {
      forall fd | fd in Reported(step.events) ensures fd in s.armed {
        var e :| e in step.events && e.Conn? && e.fd == fd;
      }
    }
    assert t.armed + Reported(t.batch) == s.armed + Reported(s.batch);
    forall k: nat | k < |vs| ensures VisitOk(t, vs, k) {
      assert VisitOk(s, vs, k);
      assert forall fd :: fd in t.armed || fd in Reported(t.batch) <==> fd in s.armed || fd in Reported(s.batch);
    }
  }

  lemma {:induction false} VisitsHold(threads: nat, maxRequests: nat, steps: seq<Step>)
    requires CanRun(Init(threads, maxRequests), steps) && maxRequests >= MAX_FD
    ensures VisitInv(Exec(Init(threads, maxRequests), steps), Visits(Init(threads, maxRequests), steps))
  {
    if steps != [] {
      var n := |steps| - 1;
      var start := Init(threads, maxRequests);
      var s, vs, step := Exec(start, steps[..n]), Visits(start, steps[..n]), steps[n];
      VisitsHold(threads, maxRequests, steps[..n]);
      Reachable(threads, maxRequests, steps[..n]);
      AppendNeverRefuses(threads, maxRequests, steps[..n]);
      if step.Accept? && step.fd >= 0 {
        AcceptKeepsVisits(s, vs, step.fd);
      } else if step.Handle? {
        HandleKeepsVisits(s, vs);
      } else {
        OtherKeepsVisits(s, vs, step);
      }
    }
  }

  ghost predicate Served(v: Visit) { v.fate == Seen(false, true) }

  lemma VisitsDecide(s: State, vs: seq<Visit>)
    requires HistoryInv(s) && VisitInv(s, vs)
    ensures Distinct(s.pool.appended) && forall r :: r in s.pool.appended ==> r.Job?
    ensures forall fd: nat :: RP.Job(fd) in s.pool.appended <==>
              exists k: nat :: k < |vs| && vs[k].fd == fd && Served(vs[k])
    ensures forall k: nat :: k < |vs| && Served(vs[k]) ==> IsLast(vs, k)
    ensures forall k: nat :: k < |vs| && vs[k].fate.Waiting? ==> vs[k].fd in s.armed || vs[k].fd in Reported(s.batch)
    ensures forall k: nat :: k < |vs| && !IsLast(vs, k) ==> vs[k].fate.Seen? && vs[k].fate.hangUp
  {
    forall k: nat | k < |vs|
      ensures Served(vs[k]) ==> IsLast(vs, k) && RP.Job(vs[k].fd) in s.pool.appended
      ensures vs[k].fate.Waiting? ==> vs[k].fd in s.armed || vs[k].fd in Reported(s.batch)
      ensures !IsLast(vs, k) ==> vs[k].fate.Seen? && vs[k].fate.hangUp
    {
      assert VisitOk(s, vs, k);
    }
    forall r | r in s.pool.appended ensures r.Job? {
      assert Spent(s, r);
    }
    forall fd: nat | RP.Job(fd) in s.pool.appended
      ensures exists k: nat :: k < |vs| && vs[k].fd == fd && Served(vs[k])
    {
      assert Spent(s, RP.Job(fd));
      var k: nat :| IsLast(vs, k) && vs[k].fd == fd;
      assert VisitOk(s, vs, k);
    }
  }

  // Which connections are served, in every run: a descriptor was handed to the
  // pool exactly if one of its visits, and then only the last, was reported
  // readable without a hang-up.  A visit without a verdict is still armed or in
  // the current batch, and every visit but the last of its descriptor was closed
  // unread.
  lemma ServedExactly(threads: nat, maxRequests: nat, steps: seq<Step>)
    requires CanRun(Init(threads, maxRequests), steps) && maxRequests >= MAX_FD
    ensures var s := Exec(Init(threads, maxRequests), steps);
            var vs := Visits(Init(threads, maxRequests), steps);
            && (forall fd: nat :: RP.Job(fd) in s.pool.appended <==>
                  exists k: nat :: k < |vs| && vs[k].fd == fd && Served(vs[k]))
            && (forall k: nat :: k < |vs| && Served(vs[k]) ==> IsLast(vs, k))
            && (forall k: nat :: k < |vs| && vs[k].fate.Waiting? ==>
                  vs[k].fd in s.armed || vs[k].fd in Reported(s.batch))
            && (forall k: nat :: k < |vs| && !IsLast(vs, k) ==> vs[k].fate.Seen? && vs[k].fate.hangUp)
  {
    Reachable(threads, maxRequests, steps);
    VisitsHold(threads, maxRequests, steps);
    VisitsDecide(Exec(Init(threads, maxRequests), steps), Visits(Init(threads, maxRequests), steps));
  }

  lemma RunSnoc(s: State, steps: seq<Step>, step: Step)
    requires CanRun(s, steps) && Enabled(Exec(s, steps), step)
    ensures CanRun(s, steps + [step]) && Exec(s, steps + [step]) == Next(Exec(s, steps), step)
    ensures Visits(s, steps + [step]) == Noted(Visits(s, steps), Exec(s, steps), step)
  {
    assert (steps + [step])[..|steps|] == steps;
  }

  // So a readable connection is lost when its one event also reports the peer's
  // shutdown.
  lemma ReadableButClosed(threads: nat, maxRequests: nat, fd: nat)
    requires fd < MAX_FD
    ensures var steps := [EpollWait([Listen]), Accept(fd), EpollWait([Conn(fd, true, true)]), Handle];
            && CanRun(Init(threads, maxRequests), steps)
            && Visits(Init(threads, maxRequests), steps) == [Visit(fd, Seen(true, true))]
            && Exec(Init(threads, maxRequests), steps).open == {}
            && Exec(Init(threads, maxRequests), steps).pool.appended == []
  {
    var start := Init(threads, maxRequests);
    var a, b, c := EpollWait([Listen]), Accept(fd), EpollWait([Conn(fd, true, true)]);
    assert [] + [a] == [a] && [a] + [b] == [a, b] && [a, b] + [c] == [a, b, c];
    assert [a, b, c] + [Handle] == [a, b, c, Handle];
    RunSnoc(start, [], a);
    RunSnoc(start, [a], b);
    RunSnoc(start, [a, b], c);
    RunSnoc(start, [a, b, c], Handle);
    var vs := Visits(start, [a, b, c]);
    assert vs == [Visit(fd, Waiting)] && IsLast(vs, 0);
  }

  // A batch in one piece.  `accepted[i]` is what accept returns at event i.

  // What accept returned, if a new descriptor allowed by the kernel assumption.
  predicate Accepts(events: seq<Event>, accepted: seq<int>, i: nat) {
    i < |events| && events[i].Listen? && i < |accepted| && accepted[i] >= 0
  }

  ghost predicate AcceptsFresh(events: seq<Event>, accepted: seq<int>, from: nat, open: set<nat>) {
    && (forall i :: from <= i < |events| && Accepts(events, accepted, i) ==>
          accepted[i] < MAX_FD && accepted[i] !in open)
    && (forall i, j :: from <= i < j < |events| && Accepts(events, accepted, i) && Accepts(events, accepted, j) ==>
          accepted[i] != accepted[j])
  }

  // The descriptors accepted, and those hung up, by the events from .. to-1.
  ghost function Admitted(events: seq<Event>, accepted: seq<int>, from: nat, to: nat): set<nat> {
    set i: nat | from <= i < to && Accepts(events, accepted, i) :: accepted[i]
  }

  ghost function HungUp(events: seq<Event>, from: nat, to: nat): set<nat>
    requires to <= |events|
  {
    set i: nat | from <= i < to && events[i].Conn? && events[i].hangUp :: events[i].fd
  }

  lemma OneMoreEvent(events: seq<Event>, accepted: seq<int>, from: nat, k: nat)
    requires from <= k < |events|
    ensures Admitted(events, accepted, from, k + 1) ==
            Admitted(events, accepted, from, k) + if Accepts(events, accepted, k) then {accepted[k] as nat} else {}
    ensures HungUp(events, from, k + 1) ==
            HungUp(events, from, k) + if events[k].Conn? && events[k].hangUp then {events[k].fd} else {}
  {
  }

  // What the loop body does to the two sets, for an accepted descriptor or none.
  function OpenAfter(open: set<nat>, e: Event, connfd: int): set<nat> {
    if e.Listen? then (if connfd >= 0 then open + {connfd} else open)
    else if e.hangUp then open - {e.fd}
    else open
  }

  function ArmedAfter(armed: set<nat>, e: Event, connfd: int): set<nat> {
    if e.Listen? && connfd >= 0 then armed + {connfd} else armed
  }

  lemma BatchSets(open0: set<nat>, armed0: set<nat>, open: set<nat>, armed: set<nat>,
                  events: seq<Event>, accepted: seq<int>, from: nat, k: nat, connfd: int)
    requires from <= k < |events| && AcceptsFresh(events, accepted, from, open0)
    requires open == open0 - HungUp(events, from, k) + Admitted(events, accepted, from, k)
    requires armed == armed0 + Admitted(events, accepted, from, k)
    requires events[k].Conn? ==> events[k].fd in open - armed
    requires connfd == if k < |accepted| && 0 <= accepted[k] < MAX_FD && accepted[k] !in open then accepted[k] else -1
    ensures OpenAfter(open, events[k], connfd) ==
            open0 - HungUp(events, from, k + 1) + Admitted(events, accepted, from, k + 1)
    ensures ArmedAfter(armed, events[k], connfd) == armed0 + Admitted(events, accepted, from, k + 1)
  {
    OneMoreEvent(events, accepted, from, k);
    if Accepts(events, accepted, k) {
      assert accepted[k] !in Admitted(events, accepted, from, k);
    }
  }

  // The jobs of the readable events without a hang-up, in order.
  ghost function Jobs(events: seq<Event>, from: nat, to: nat): seq<RP.Request>
    requires to <= |events|
  {
    if to <= from then []
    else
      var e := events[to - 1];
      Jobs(events, from, to - 1) + if e.Conn? && e.readable && !e.hangUp then [RP.Job(e.fd)] else []
  }

  // The state after the events from .. k-1 of a batch that began in `s0`.
  ghost predicate Batched(s0: State, s: State, events: seq<Event>, accepted: seq<int>, from: nat, k: nat) {
    && from <= k <= |events| && s.batch == events[k..] && s.pool.maxRequests == s0.pool.maxRequests
    && (AcceptsFresh(events, accepted, from, s0.open) ==>
          && s.open == s0.open - HungUp(events, from, k) + Admitted(events, accepted, from, k)
          && s.armed == s0.armed + Admitted(events, accepted, from, k))
    && (s.pool.maxRequests >= MAX_FD ==> s.pool.appended == s0.pool.appended + Jobs(events, from, k))
  }

  // One event of the batch: the effect is that of the loop body.
  ghost predicate EventEffect(s: State, t: State, connfd: int)
    requires s.batch != []
  {
    var e := s.batch[0];
    && t.batch == s.batch[1..] && t.pool.maxRequests == s.pool.maxRequests
    && t.open == OpenAfter(s.open, e, connfd) && t.armed == ArmedAfter(s.armed, e, connfd)
    && (s.pool.maxRequests >= MAX_FD ==>
          t.pool.appended == s.pool.appended + if e.Conn? && e.readable && !e.hangUp then [RP.Job(e.fd)] else [])
  }

  lemma BatchGoesOn(s0: State, s: State, t: State, events: seq<Event>, accepted: seq<int>,
                    from: nat, k: nat, connfd: int)
    requires Batched(s0, s, events, accepted, from, k) && k < |events| && Inv(s) && EventEffect(s, t, connfd)
    requires connfd == if k < |accepted| && 0 <= accepted[k] < MAX_FD && accepted[k] !in s.open then accepted[k] else -1
    ensures Batched(s0, t, events, accepted, from, k + 1)
  {
    var e := events[k];
    assert s.batch[0] == e;
    if AcceptsFresh(events, accepted, from, s0.open) {
      BatchSets(s0.open, s0.armed, s.open, s.armed, events, accepted, from, k, connfd);
    }
    hide AcceptsFresh, HungUp, Admitted, Inv;
    assert Jobs(events, from, k + 1) ==
           Jobs(events, from, k) + if e.Conn? && e.readable && !e.hangUp then [RP.Job(e.fd)] else [];
  }

  // In a run over the batch each accept has the result given for its event,
  // unless that is missing or no new descriptor at that moment; then it fails.
  ghost predicate Given(s: State, step: Step, events: seq<Event>, accepted: seq<int>) {
    step.Accept? ==>
      var i := |events| - |s.batch|;
      if 0 <= i < |accepted| && 0 <= accepted[i] < MAX_FD && accepted[i] !in s.open
      then step.fd == accepted[i] else step.fd < 0
  }

  ghost predicate AcceptsGiven(start: State, steps: seq<Step>, events: seq<Event>, accepted: seq<int>)
    requires CanRun(start, steps)
  {
    steps == [] ||
    var n := |steps| - 1;
    AcceptsGiven(start, steps[..n], events, accepted) && Given(Exec(start, steps[..n]), steps[n], events, accepted)
  }

  lemma GivenSnoc(start: State, steps: seq<Step>, step: Step, events: seq<Event>, accepted: seq<int>)
    requires CanRun(start, steps) && Enabled(Exec(start, steps), step)
    requires AcceptsGiven(start, steps, events, accepted) && Given(Exec(start, steps), step, events, accepted)
    ensures CanRun(start, steps + [step]) && AcceptsGiven(start, steps + [step], events, accepted)
    ensures Exec(start, steps + [step]) == Next(Exec(start, steps), step)
  {
    RunSnoc(start, steps, step);
    assert (steps + [step])[..|steps|] == steps;
  }

  // One pass of the loop body: accept, hang-up, or push and post.
  ghost function AfterEvent(s: State, connfd: int): State
    requires Inv(s) && s.pool.posting == 0 && s.batch != []
    requires s.batch[0].Listen? ==> Enabled(s, Accept(connfd))
  {
    var e := s.batch[0];
    if e.Listen? then Next(s, Accept(connfd))
    else if e.hangUp || !e.readable || RP.Refuses(s.pool) then Next(s, Handle)
    else Next(Next(s, Handle), Post)
  }

  lemma EventSteps(start: State, steps: seq<Step>, events: seq<Event>, accepted: seq<int>, connfd: int)
      returns (longer: seq<Step>)
    requires CanRun(start, steps) && AcceptsGiven(start, steps, events, accepted)
    requires var s := Exec(start, steps);
             && Inv(s) && s.pool.posting == 0 && s.batch != []
             && (s.batch[0].Listen? ==> Enabled(s, Accept(connfd)) && Given(s, Accept(connfd), events, accepted))
    ensures CanRun(start, longer) && AcceptsGiven(start, longer, events, accepted)
    ensures Exec(start, longer) == AfterEvent(Exec(start, steps), connfd)
  {
    var s := Exec(start, steps);
    var e := s.batch[0];
    var first := if e.Listen? then Accept(connfd) else Handle;
    GivenSnoc(start, steps, first, events, accepted);
    longer := steps + [first];
    if e.Conn? && !e.hangUp && e.readable && !RP.Refuses(s.pool) {
      GivenSnoc(start, longer, Post, events, accepted);
      longer := longer + [Post];
    }
  }

  // The loop over a batch so far: a run from `s0` to `s`.
  ghost predicate InBatch(s0: State, steps: seq<Step>, s: State, events: seq<Event>, accepted: seq<int>,
                          from: nat, k: nat) {
    && CanRun(s0, steps) && Exec(s0, steps) == s && AcceptsGiven(s0, steps, events, accepted)
    && Batched(s0, s, events, accepted, from, k)
  }

  lemma BatchBegins(s0: State, events: seq<Event>, accepted: seq<int>, from: nat)
    requires from <= |events| && s0.batch == events[from..]
    ensures InBatch(s0, [], s0, events, accepted, from, from)
  {
    assert s0.pool.appended + [] == s0.pool.appended;
  }

  lemma NextInBatch(s0: State, steps: seq<Step>, s: State, t: State, events: seq<Event>, accepted: seq<int>,
                    from: nat, k: nat, connfd: int)
      returns (longer: seq<Step>)
    requires InBatch(s0, steps, s, events, accepted, from, k) && k < |events|
    requires Inv(s) && s.pool.posting == 0
    requires connfd == if k < |accepted| && 0 <= accepted[k] < MAX_FD && accepted[k] !in s.open then accepted[k] else -1
    requires s.batch != [] && t == AfterEvent(s, connfd) && EventEffect(s, t, connfd)
    ensures InBatch(s0, longer, t, events, accepted, from, k + 1)
  {
    assert |events| - |s.batch| == k && s.batch[0] == events[k];
    longer := EventSteps(s0, steps, events, accepted, connfd);
    BatchGoesOn(s0, s, t, events, accepted, from, k, connfd);
    hide CanRun, Exec, AcceptsGiven, Batched, AfterEvent, EventEffect, Inv;
  }

  // The event loop object: the kernel's two sets, the events of the current
  // batch with the loop index, and the pool.
  class EventLoop {
    var open: set<nat>
    var armed: set<nat>
    var events: seq<Event>
    var index: nat
    const pool: RP.ThreadPool

    ghost predicate Valid()
      reads this, pool
    {
      index <= |events| && Inv(View()) && pool.posting == 0
    }

    ghost function View(): State
      requires index <= |events|
      reads this, pool
    {
      State(open, armed, events[index..], pool.View())
    }

    constructor (threads: nat, maxRequests: nat)
      requires threads > 0 && maxRequests > 0
      ensures Valid() && fresh(pool) && View() == Init(threads, maxRequests)
    {
      open, armed, events, index := {}, {}, [], 0;
      pool := new RP.ThreadPool(threads, maxRequests);
      new;
      InitInv(threads, maxRequests);
    }

    method Wait(reported: seq<Event>)
      requires Valid() && index == |events| && Reportable(armed, reported)
      modifies this
      ensures Valid() && View() == Next(old(View()), EpollWait(reported))
    {
      StepKeepsInv(View(), EpollWait(reported));
      armed := armed - Reported(reported);
      events, index := reported, 0;
    }

    // The body of the loop over the reported events.  `connfd` is what accept
    // would return; it matters for the listening descriptor only.
    method HandleEvent(connfd: int)
      requires Valid() && index < |events|
      requires connfd >= 0 ==> connfd < MAX_FD && connfd !in open
      modifies this, pool
      ensures Valid() && events == old(events) && index == old(index) + 1
      ensures View() == AfterEvent(old(View()), connfd)
      ensures EventEffect(old(View()), View(), connfd)
    {
      AppendedBounded(View());
      if events[index].Conn? {
        HandleKeepsKernelInv(View());
      }
      var e := events[index];
      ghost var s := View();
      assert s.batch[0] == e && s.batch[1..] == events[index + 1..];
      StepKeepsInv(s, if e.Listen? then Accept(connfd) else Handle);
      index := index + 1;
      if e.Listen? {
        if connfd >= 0 {
          open, armed := open + {connfd}, armed + {connfd};
        }
      } else if e.hangUp {
        open, armed := open - {e.fd}, armed - {e.fd};
      } else if e.readable {
        ghost var t := Next(s, Handle);
        if t.pool.posting > 0 { StepKeepsInv(t, Post); }
        var ok := pool.Append(RP.Job(e.fd));
      }
    }

    // The whole loop over one batch, run with no worker step in between.
    method HandleBatch(accepted: seq<int>) returns (ghost steps: seq<Step>)
      requires Valid()
      modifies this, pool
      ensures Valid() && index == |events| && events == old(events)
      ensures InBatch(old(View()), steps, View(), events, accepted, old(index), |events|)
    {
      steps := [];
      ghost var start, from := View(), index;
      BatchBegins(start, events, accepted, from);
      hide Inv, InBatch, AfterEvent, EventEffect;
      while index < |events|
        invariant Valid() && events == old(events) && from <= index <= |events|
        invariant InBatch(start, steps, View(), events, accepted, from, index)
      {
        var connfd := -1;
        if index < |accepted| && 0 <= accepted[index] < MAX_FD && accepted[index] !in open {
          connfd := accepted[index];
        }
        ghost var s := View();
        HandleEvent(connfd);
        steps := NextInBatch(start, steps, s, View(), events, accepted, from, index - 1, connfd);
      }
    }
  }
}
