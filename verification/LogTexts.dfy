// What several threads in write_log at once leave in the files
// (src/server/log/log.cpp, synchronous logger).  Everything is said from the
// steps alone: which thread entered with which line, and when it wrote.
module LogTexts {
  import opened Counting
  import LR = LogRotation
  import opened LogWriters

  // The line thread w entered with last.
  function Entered(steps: seq<Step>, w: nat): string {
    if steps == [] then ""
    else
      var n := |steps| - 1;
      if steps[n].Enter? && steps[n].w == w then steps[n].record.line else Entered(steps[..n], w)
  }

  // All lines written, in the order of the writes, each with its thread.
  datatype Written = Written(w: nat, line: string)

  function Writes(steps: seq<Step>): seq<Written> {
    if steps == [] then []
    else
      var n := |steps| - 1;
      Writes(steps[..n]) +
      if steps[n].Put? then [Written(steps[n].w, Entered(steps[..n], steps[n].w))] else []
  }

  function Lines(ws: seq<Written>): seq<string> {
    seq(|ws|, i requires 0 <= i < |ws| => ws[i].line)
  }

  lemma LinesSnoc(ws: seq<Written>, x: Written)
    ensures Lines(ws + [x]) == Lines(ws) + [x.line]
  {
  }

  // A thread inside write_log holds the line it entered with.
  ghost predicate Holds(s: State, steps: seq<Step>) {
    forall w :: 0 <= w < |s.writers| && s.writers[w].Counted? ==> s.writers[w].line == Entered(steps, w)
  }

  lemma {:induction false} RunHolds(split: int, date: LR.Date, threads: nat, steps: seq<Step>)
    requires split >= 1 && CanRun(Init(split, date, threads), steps)
    ensures Holds(Exec(Init(split, date, threads), steps), steps)
  {
    if steps != [] {
      RunHolds(split, date, threads, steps[..|steps| - 1]);
    }
  }

  lemma WriteTexts(s: State, before: seq<Step>, step: Step)
    requires Enabled(s, step) && Holds(s, before) && LR.AllLines(s.log.periods) == Lines(Writes(before))
    ensures LR.AllLines(Next(s, step).log.periods) == Lines(Writes(before + [step]))
  {
    assert (before + [step])[..|before|] == before;
    match step
    case Enter(w, r) => LR.RotateLines(s.log, r.date);
    case Put(w) =>
      LR.AppendLines(s.log.periods, s.writers[w].line);
      LinesSnoc(Writes(before), Written(w, Entered(before, w)));
  }

  // For every interleaving: the files together hold exactly the lines written,
  // in the order of the writes, and each write is that of its thread's own line.
  lemma {:induction false} TextsWritten(split: int, date: LR.Date, threads: nat, steps: seq<Step>)
    requires split >= 1 && CanRun(Init(split, date, threads), steps)
    ensures LR.AllLines(Exec(Init(split, date, threads), steps).log.periods) == Lines(Writes(steps))
  {
    var start := Init(split, date, threads);
    if steps == [] {
      assert start.log.periods[..0] == [];
    } else {
      var n := |steps| - 1;
      TextsWritten(split, date, threads, steps[..n]);
      RunHolds(split, date, threads, steps[..n]);
      WriteTexts(Exec(start, steps[..n]), steps[..n], steps[n]);
      hide LR.AllLines, Lines, Writes, Holds;
    }
  }

  // One thread: what it wrote, and still has to write, is what it entered with,
  // in that order.

  function LinesOf(ws: seq<Written>, w: nat): seq<string> {
    if ws == [] then []
    else
      var n := |ws| - 1;
      LinesOf(ws[..n], w) + if ws[n].w == w then [ws[n].line] else []
  }

  function EntersOf(steps: seq<Step>, w: nat): seq<string> {
    if steps == [] then []
    else
      var n := |steps| - 1;
      EntersOf(steps[..n], w) + if steps[n].Enter? && steps[n].w == w then [steps[n].record.line] else []
  }

  function PendingOf(s: State, w: nat): seq<string> {
    if w < |s.writers| && s.writers[w].Counted? then [s.writers[w].line] else []
  }

  lemma LinesOfSnoc(ws: seq<Written>, x: Written, w: nat)
    ensures LinesOf(ws + [x], w) == LinesOf(ws, w) + if x.w == w then [x.line] else []
  {
    assert (ws + [x])[..|ws|] == ws;
  }

  ghost predicate InOrder(s: State, steps: seq<Step>, w: nat) {
    LinesOf(Writes(steps), w) + PendingOf(s, w) == EntersOf(steps, w)
  }

  lemma EnterInOrder(s: State, before: seq<Step>, v: nat, r: LR.Record, w: nat)
    requires Enabled(s, Enter(v, r)) && InOrder(s, before, w)
    ensures InOrder(Next(s, Enter(v, r)), before + [Enter(v, r)], w)
  {
    var steps, written := before + [Enter(v, r)], LinesOf(Writes(before), w);
    assert steps[..|before|] == before;
    assert Writes(steps) == Writes(before) + [];
    assert EntersOf(steps, w) == EntersOf(before, w) + if v == w then [r.line] else [];
    assert Writes(before) + [] == Writes(before);
    assert PendingOf(Next(s, Enter(v, r)), w) == if v == w then [r.line] else PendingOf(s, w);
    assert written + [] == written && EntersOf(before, w) + [] == EntersOf(before, w);
    assert v == w ==> PendingOf(s, w) == [];
  }

  lemma PutInOrder(s: State, before: seq<Step>, v: nat, w: nat)
    requires Enabled(s, Put(v)) && Holds(s, before) && InOrder(s, before, w)
    ensures InOrder(Next(s, Put(v)), before + [Put(v)], w)
  {
    var steps, x := before + [Put(v)], Written(v, Entered(before, v));
    assert steps[..|before|] == before;
    assert Writes(steps) == Writes(before) + [x];
    LinesOfSnoc(Writes(before), x, w);
    assert EntersOf(steps, w) == EntersOf(before, w) + [] == EntersOf(before, w);
    assert x.line == s.writers[v].line;
    hide LinesOf, Writes, EntersOf, Entered, Holds;
  }

  lemma {:induction false} ThreadInOrder(split: int, date: LR.Date, threads: nat, steps: seq<Step>, w: nat)
    requires split >= 1 && CanRun(Init(split, date, threads), steps)
    ensures InOrder(Exec(Init(split, date, threads), steps), steps, w)
  {
    if steps != [] {
      var n := |steps| - 1;
      var start := Init(split, date, threads);
      ThreadInOrder(split, date, threads, steps[..n], w);
      RunHolds(split, date, threads, steps[..n]);
      assert steps == steps[..n] + [steps[n]];
      hide InOrder, Holds;
      match steps[n]
      case Enter(v, r) => EnterInOrder(Exec(start, steps[..n]), steps[..n], v, r, w);
      case Put(v) => PutInOrder(Exec(start, steps[..n]), steps[..n], v, w);
    }
  }

  // Every line is in the files as often as it was counted and is not pending.
  ghost predicate Conserved(s: State, x: string) {
    multiset(LR.AllLines(s.log.periods))[x] + Count(s.writers, (v: Writer) => v == Counted(x)) ==
    multiset(LR.Texts(s.counted))[x]
  }

  lemma EnterConserves(s: State, w: nat, r: LR.Record, x: string)
    requires Conserved(s, x) && Enabled(s, Enter(w, r))
    ensures Conserved(Next(s, Enter(w, r)), x)
  {
    CountUpdate(s.writers, w, Counted(r.line), (v: Writer) => v == Counted(x));
    LR.RotateLines(s.log, r.date);
    assert (s.counted + [r])[..|s.counted|] == s.counted;
    assert LR.Texts(s.counted + [r]) == LR.Texts(s.counted) + [r.line];
  }

  lemma PutConserves(s: State, w: nat, x: string)
    requires Conserved(s, x) && Enabled(s, Put(w))
    ensures Conserved(Next(s, Put(w)), x)
  {
    CountUpdate(s.writers, w, Idle, (v: Writer) => v == Counted(x));
    LR.AppendLines(s.log.periods, s.writers[w].line);
  }

  lemma {:induction false} LinesConserved(split: int, date: LR.Date, threads: nat, steps: seq<Step>, x: string)
    requires split >= 1 && CanRun(Init(split, date, threads), steps)
    ensures Conserved(Exec(Init(split, date, threads), steps), x)
  {
    var start := Init(split, date, threads);
    if steps == [] {
      assert start.log.periods[..0] == [];
      assert LR.AllLines(start.log.periods) == [] && LR.Texts(start.counted) == [];
      CountZero(start.writers, (v: Writer) => v == Counted(x));
    } else {
      var n := |steps| - 1;
      LinesConserved(split, date, threads, steps[..n], x);
      match steps[n]
      case Enter(w, r) => EnterConserves(Exec(start, steps[..n]), w, r, x);
      case Put(w) => PutConserves(Exec(start, steps[..n]), w, x);
    }
  }
}
