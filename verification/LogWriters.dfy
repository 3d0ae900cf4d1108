// Several threads in write_log at once (src/server/log/log.cpp, synchronous
// logger): a thread counts its line and rotates in one critical section and
// writes the line in a later one.
module LogWriters {
  import opened Counting
  import opened LogRotation
  import LogFiles

  datatype Writer = Idle | Counted(line: string)

  // `counted` is the history of the first critical sections.
  datatype State = State(log: Log, writers: seq<Writer>, counted: seq<Record>)

  datatype Step = Enter(w: nat, record: Record) | Put(w: nat)

  function Init(split: int, date: Date, threads: nat): State {
    State(LogRotation.Init(split, date), seq(threads, _ => Idle), [])
  }

  predicate Enabled(s: State, step: Step) {
    step.w < |s.writers| && s.log.split >= 1 && s.log.periods != [] && s.writers[step.w].Idle? == step.Enter?
  }

  function Next(s: State, step: Step): State
    requires Enabled(s, step)
  {
    match step
    case Enter(w, r) => State(Rotate(s.log, r.date), s.writers[w := Counted(r.line)], s.counted + [r])
    case Put(w) =>
      s.(log := s.log.(periods := Append(s.log.periods, s.writers[w].line)), writers := s.writers[w := Idle])
  }

  predicate CanRun(s: State, steps: seq<Step>)
    decreases |steps|, 0
  {
    steps == [] ||
    var n := |steps| - 1;
    CanRun(s, steps[..n]) && Enabled(Exec(s, steps[..n]), steps[n])
  }

  function Exec(s: State, steps: seq<Step>): State
    requires CanRun(s, steps)
    decreases |steps|, 1
  {
    if steps == [] then s
    else Next(Exec(s, steps[..|steps| - 1]), steps[|steps| - 1])
  }

  // The lines counted but not written.
  function Pending(s: State): nat { Count(s.writers, (w: Writer) => w.Counted?) }

  // A period gets the lines counted in it and those that were pending when it
  // was opened, all but the opening thread's own.
  ghost predicate Bounded(s: State, threads: nat) {
    var ps := s.log.periods;
    && |s.writers| == threads && s.log.split >= 1 && s.log.count >= 0 && ps != []
    && (|ps| == 1 ==> s.log.count < s.log.split)
    && |Last(s.log).lines| + Pending(s) <=
         s.log.count % s.log.split + (if |ps| == 1 then 0 else threads)
    && |ps[0].lines| < s.log.split
    && forall i :: 1 <= i < |ps| ==> |ps[i].lines| <= s.log.split + threads - 1
  }

  // The files are those of the same lines written one after the other.
  ghost predicate SameFiles(log: Log, other: Log) {
    && log.split == other.split && log.count == other.count && log.today == other.today
    && |log.periods| == |other.periods|
    && forall i :: 0 <= i < |log.periods| ==> log.periods[i].name == other.periods[i].name
  }

  lemma EnterKeepsBound(s: State, threads: nat, w: nat, r: Record)
    requires Bounded(s, threads) && Enabled(s, Enter(w, r))
    ensures Bounded(Next(s, Enter(w, r)), threads)
  {
    var t := Next(s, Enter(w, r));
    CountUpdate(s.writers, w, Counted(r.line), (w: Writer) => w.Counted?);
    CountBounded(t.writers, (w: Writer) => w.Counted?);
    DivStep(s.log.count, s.log.split);
    ZeroOver(s.log.split);
    if |s.log.periods| == 1 {
      DivUnique(s.log.count, s.log.split, 0, s.log.count);
    }
  }

  lemma PutKeepsBound(s: State, threads: nat, w: nat)
    requires Bounded(s, threads) && Enabled(s, Put(w))
    ensures Bounded(Next(s, Put(w)), threads)
  {
    CountUpdate(s.writers, w, Idle, (w: Writer) => w.Counted?);
    CountPositive(s.writers, w, (w: Writer) => w.Counted?);
    if |s.log.periods| == 1 {
      DivUnique(s.log.count, s.log.split, 0, s.log.count);
    }
  }

  // For every interleaving of any number of threads: a period takes at most
  // m_split_lines - 1 lines more than there are threads, the one that init opened
  // at most m_split_lines - 1.
  lemma {:induction false} PeriodBound(split: int, date: Date, threads: nat, steps: seq<Step>)
    requires split >= 1 && CanRun(Init(split, date, threads), steps)
    ensures Bounded(Exec(Init(split, date, threads), steps), threads)
  {
    if steps == [] {
      ZeroOver(split);
      CountZero(Init(split, date, threads).writers, (w: Writer) => w.Counted?);
    } else {
      var n := |steps| - 1;
      PeriodBound(split, date, threads, steps[..n]);
      var s := Exec(Init(split, date, threads), steps[..n]);
      match steps[n]
      case Enter(w, r) => EnterKeepsBound(s, threads, w, r);
      case Put(w) => PutKeepsBound(s, threads, w);
    }
  }

  lemma RotateSame(log: Log, other: Log, date: Date)
    requires SameFiles(log, other) && log.split >= 1
    ensures SameFiles(Rotate(log, date), Rotate(other, date))
  {
  }

  lemma AppendSame(log: Log, line: string)
    requires log.periods != []
    ensures SameFiles(log.(periods := Append(log.periods, line)), log)
  {
  }

  lemma StepKeepsFiles(s: State, step: Step, date: Date)
    requires Enabled(s, step) && SameFiles(s.log, LogRotation.Exec(s.log.split, date, s.counted))
    ensures SameFiles(Next(s, step).log, LogRotation.Exec(s.log.split, date, Next(s, step).counted))
  {
    match step
    case Enter(w, r) =>
      var other := LogRotation.Exec(s.log.split, date, s.counted);
      assert (s.counted + [r])[..|s.counted|] == s.counted;
      RotateSame(s.log, other, r.date);
      AppendSame(Rotate(other, r.date), r.line);
    case Put(w) => AppendSame(s.log, s.writers[w].line);
  }

  lemma {:induction false} RunKeepsFiles(split: int, date: Date, threads: nat, steps: seq<Step>)
    requires split >= 1 && CanRun(Init(split, date, threads), steps)
    ensures var s := Exec(Init(split, date, threads), steps);
            s.log.split == split && SameFiles(s.log, LogRotation.Exec(split, date, s.counted))
  {
    if steps != [] {
      var n := |steps| - 1;
      RunKeepsFiles(split, date, threads, steps[..n]);
      StepKeepsFiles(Exec(Init(split, date, threads), steps[..n]), steps[n], date);
      hide SameFiles, LogRotation.Exec;
    }
  }

  lemma SameTwice(ps: seq<Period>, qs: seq<Period>)
    requires |ps| == |qs| && forall i :: 0 <= i < |ps| ==> ps[i].name == qs[i].name
    ensures LogFiles.SomeFileTwice(ps) <==> LogFiles.SomeFileTwice(qs)
  {
    if LogFiles.SomeFileTwice(ps) {
      var a, b :| 0 <= a < b < |ps| && ps[a].name == ps[b].name;
      assert qs[a].name == qs[b].name;
    }
    if LogFiles.SomeFileTwice(qs) {
      var a, b :| 0 <= a < b < |qs| && qs[a].name == qs[b].name;
      assert ps[a].name == ps[b].name;
    }
  }

  // Every interleaving opens the same files as the sequential logger does for
  // the lines in the order of the first critical section, so a file is opened
  // twice under the same condition.
  lemma FilesOfCounts(split: int, date: Date, threads: nat, steps: seq<Step>)
    requires split >= 1 && CanRun(Init(split, date, threads), steps)
    ensures var s := Exec(Init(split, date, threads), steps);
            && SameFiles(s.log, LogRotation.Exec(split, date, s.counted))
            && (LogFiles.SomeFileTwice(s.log.periods) <==>
                exists i, j :: LogFiles.Reopens(split, date, s.counted, i, j))
  {
    var s := Exec(Init(split, date, threads), steps);
    RunKeepsFiles(split, date, threads, steps);
    LogFiles.ReopensExactly(split, date, s.counted);
    SameTwice(s.log.periods, LogRotation.Exec(split, date, s.counted).periods);
    hide Exec, LogFiles.Reopens, LogRotation.Exec;
  }

  // The bound is reached for every limit and number of threads: all but one
  // thread count a line, the last one opens a file for a new day, everybody
  // writes, and the last one goes on until the file is full.

  lemma RunSnoc(s: State, steps: seq<Step>, step: Step)
    requires CanRun(s, steps) && Enabled(Exec(s, steps), step)
    ensures CanRun(s, steps + [step]) && Exec(s, steps + [step]) == Next(Exec(s, steps), step)
  {
    assert (steps + [step])[..|steps|] == steps;
  }

  // Threads 0 .. k-1 have counted, on the first day.
  ghost predicate Waiting(s: State, split: int, threads: nat, k: nat) {
    && s.log.split == split && s.log.periods != [] && |s.writers| == threads
    && forall w :: 0 <= w < threads ==> (s.writers[w].Counted? <==> w < k)
  }

  lemma {:induction false} Crowd(split: int, date: Date, threads: nat, k: nat) returns (steps: seq<Step>)
    requires split >= 1 && k < threads
    ensures CanRun(Init(split, date, threads), steps)
    ensures var s := Exec(Init(split, date, threads), steps);
            Waiting(s, split, threads, k) && s.log.today == date.mday
  {
    if k == 0 {
      return [];
    }
    steps := Crowd(split, date, threads, k - 1);
    RunSnoc(Init(split, date, threads), steps, Enter(k - 1, Record(date, "")));
    steps := steps + [Enter(k - 1, Record(date, ""))];
  }

  lemma PutOne(s: State, split: int, threads: nat, k: nat)
    requires split >= 1 && 0 < k <= threads && Waiting(s, split, threads, k)
    ensures Enabled(s, Put(k - 1))
    ensures var t := Next(s, Put(k - 1));
            && Waiting(t, split, threads, k - 1) && |Last(t.log).lines| == |Last(s.log).lines| + 1
            && t.log.count == s.log.count && t.log.today == s.log.today
  {
  }

  // The threads from k-1 down to 0 write into the open file.
  lemma {:induction false} Everybody(start: State, before: seq<Step>, split: int, threads: nat, k: nat)
      returns (steps: seq<Step>)
    requires CanRun(start, before) && split >= 1 && Waiting(Exec(start, before), split, threads, k)
    requires k <= threads
    ensures CanRun(start, steps)
    ensures var s, t := Exec(start, before), Exec(start, steps);
            && Waiting(t, split, threads, 0) && |Last(t.log).lines| == |Last(s.log).lines| + k
            && t.log.count == s.log.count && t.log.today == s.log.today
    decreases k
  {
    if k == 0 {
      return before;
    }
    PutOne(Exec(start, before), split, threads, k);
    RunSnoc(start, before, Put(k - 1));
    hide CanRun, Exec, Next, Enabled;
    steps := Everybody(start, before + [Put(k - 1)], split, threads, k - 1);
  }

  lemma WriteOne(s: State, split: int, threads: nat, r: Record)
    requires split >= 1 && 0 < threads && Waiting(s, split, threads, 0)
    requires s.log.today == r.date.mday && 0 <= s.log.count && s.log.count + 1 < split
    ensures Enabled(s, Enter(0, r)) && Enabled(Next(s, Enter(0, r)), Put(0))
    ensures var t := Next(Next(s, Enter(0, r)), Put(0));
            && Waiting(t, split, threads, 0) && |Last(t.log).lines| == |Last(s.log).lines| + 1
            && t.log.count == s.log.count + 1 && t.log.today == s.log.today
  {
    DivUnique(s.log.count + 1, split, 0, s.log.count + 1);
  }

  // One thread alone writes n lines that fit the open file.
  lemma {:induction false} Alone(start: State, before: seq<Step>, split: int, threads: nat, date: Date, n: nat)
      returns (steps: seq<Step>)
    requires CanRun(start, before) && 0 < threads && Waiting(Exec(start, before), split, threads, 0)
    requires var log := Exec(start, before).log;
             log.today == date.mday && 0 <= log.count && log.count + n < split
    ensures CanRun(start, steps)
    ensures var s, t := Exec(start, before), Exec(start, steps);
            t.log.periods != [] && |Last(t.log).lines| == |Last(s.log).lines| + n
    decreases n
  {
    if n == 0 {
      return before;
    }
    var enter := Enter(0, Record(date, ""));
    WriteOne(Exec(start, before), split, threads, enter.record);
    RunSnoc(start, before, enter);
    RunSnoc(start, before + [enter], Put(0));
    hide CanRun, Exec, Next, Enabled;
    steps := Alone(start, before + [enter] + [Put(0)], split, threads, date, n - 1);
  }

  lemma PeriodBoundReached(split: int, threads: nat, a: Date, b: Date) returns (steps: seq<Step>)
    requires split >= 1 && threads >= 1 && a.mday != b.mday
    ensures CanRun(Init(split, a, threads), steps)
    ensures |Last(Exec(Init(split, a, threads), steps).log).lines| == split + threads - 1
  {
    var start := Init(split, a, threads);
    var crowd := Crowd(split, a, threads, threads - 1);
    var enter := Enter(threads - 1, Record(b, ""));
    RunSnoc(start, crowd, enter);
    var all := Everybody(start, crowd + [enter], split, threads, threads);
    steps := Alone(start, all, split, threads, b, split - 1);
  }
}
