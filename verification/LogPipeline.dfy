// From write_log to the file (src/server/log/log.cpp, src/server/log/log.h):
// producers that queue their line or write it themselves, and the thread that
// empties the queue.  The queue appears as the FIFO that BlockQueue refines.
module LogPipeline {
  import BlockQueue

  datatype Line = Line(text: string)

  // A producer inside write_log: line formatted; full() was false, push() still
  // to come; about to write directly.
  datatype Producer = Idle | Formatted(line: Line) | Pushing(line: Line) | Direct(line: Line)

  datatype Flusher = Popping | Holding(line: Line) | Ended

  datatype Entry = Entry(line: Line, queued: bool)

  // `submitted`, `pushed` and `dropped` record the history.
  datatype State = State(
    async: bool, cap: nat, queue: seq<Line>, producers: seq<Producer>, flusher: Flusher, file: seq<Entry>,
    submitted: seq<Line>, pushed: seq<Line>, dropped: seq<Line>)

  datatype Step =
    | Submit(p: nat, line: Line)
    | CheckFull(p: nat)
    | Push(p: nat)
    | Write(p: nat)
    | Pop
    | Flush
    | EndFlusher

  function Init(async: bool, cap: nat, producers: nat): State {
    State(async, cap, [], seq(producers, i => Idle), Popping, [], [], [], [])
  }

  predicate Enabled(s: State, step: Step) {
    match step
    case Submit(p, _) => p < |s.producers| && s.producers[p].Idle?
    case CheckFull(p) => p < |s.producers| && s.producers[p].Formatted?
    case Push(p) => p < |s.producers| && s.producers[p].Pushing?
    case Write(p) => p < |s.producers| && s.producers[p].Direct?
    case Pop => s.flusher.Popping? && s.queue != []
    case Flush => s.flusher.Holding?
    case EndFlusher => s.flusher.Popping? && s.queue == []
  }

  // The result of push() is not looked at: a line refused there is lost.
  function Next(s: State, step: Step): State
    requires Enabled(s, step)
  {
    match step
    case Submit(p, line) =>
      s.(producers := s.producers[p := Formatted(line)], submitted := s.submitted + [line])
    case CheckFull(p) =>
      var line := s.producers[p].line;
      s.(producers := s.producers[p := if s.async && |s.queue| < s.cap then Pushing(line) else Direct(line)])
    case Push(p) =>
      var line := s.producers[p].line;
      var t := s.(producers := s.producers[p := Idle]);
      if |s.queue| >= s.cap then t.(dropped := s.dropped + [line])
      else t.(queue := s.queue + [line], pushed := s.pushed + [line])
    case Write(p) =>
      s.(producers := s.producers[p := Idle], file := s.file + [Entry(s.producers[p].line, false)])
    case Pop => s.(queue := s.queue[1..], flusher := Holding(s.queue[0]))
    case Flush => s.(file := s.file + [Entry(s.flusher.line, true)], flusher := Popping)
    case EndFlusher => s.(flusher := Ended)
  }

  predicate CanRun(s: State, steps: seq<Step>)
    decreases |steps|, 0
  {
    steps == [] ||
    var n := |steps| - 1;
    CanRun(s, steps[..n]) && Enabled(Exec(s, steps[..n]), steps[n])
  }

  function Exec(s: State, steps: seq<Step>): State
    requires CanRun(s, steps)
    decreases |steps|, 1
  {
    if steps == [] then s
    else Next(Exec(s, steps[..|steps| - 1]), steps[|steps| - 1])
  }

  // Where the copies of a line are.

  function Same(line: Line, x: Line): nat { if line == x then 1 else 0 }

  function Copies(lines: seq<Line>, x: Line): nat {
    if lines == [] then 0 else Copies(lines[..|lines| - 1], x) + Same(lines[|lines| - 1], x)
  }

  function HeldBy(p: Producer, x: Line): nat { if p.Idle? then 0 else Same(p.line, x) }

  function Held(ps: seq<Producer>, x: Line): nat {
    if ps == [] then 0 else HeldBy(ps[0], x) + Held(ps[1..], x)
  }

  function InFlush(f: Flusher): seq<Line> {
    if f.Holding? then [f.line] else []
  }

  function FileCopies(file: seq<Entry>, x: Line): nat {
    if file == [] then 0
    else FileCopies(file[..|file| - 1], x) + Same(file[|file| - 1].line, x)
  }

  // The lines that came through the queue, in file order.
  function QueuedLines(file: seq<Entry>): seq<Line> {
    if file == [] then []
    else
      var e := file[|file| - 1];
      QueuedLines(file[..|file| - 1]) + if e.queued then [e.line] else []
  }

  function Everywhere(s: State, x: Line): nat {
    FileCopies(s.file, x) + Copies(s.queue, x) + Copies(InFlush(s.flusher), x) +
    Held(s.producers, x) + Copies(s.dropped, x)
  }

  ghost predicate Conserved(s: State, x: Line) { Copies(s.submitted, x) == Everywhere(s, x) }

  ghost predicate Ordered(s: State) { s.pushed == QueuedLines(s.file) + InFlush(s.flusher) + s.queue }

  lemma {:induction false} HeldUpdate(ps: seq<Producer>, i: nat, p: Producer, x: Line)
    requires i < |ps|
    ensures Held(ps[i := p], x) + HeldBy(ps[i], x) == Held(ps, x) + HeldBy(p, x)
  {
    if i == 0 {
      assert ps[i := p][1..] == ps[1..];
    } else {
      assert ps[i := p][1..] == ps[1..][i - 1 := p];
      HeldUpdate(ps[1..], i - 1, p, x);
    }
  }

  lemma CopiesSnoc(lines: seq<Line>, line: Line, x: Line)
    ensures Copies(lines + [line], x) == Copies(lines, x) + Same(line, x)
  {
    assert (lines + [line])[..|lines|] == lines;
  }

  lemma {:induction false} CopiesTail(lines: seq<Line>, x: Line)
    requires lines != []
    ensures Copies(lines, x) == Same(lines[0], x) + Copies(lines[1..], x)
  {
    var n := |lines| - 1;
    if n > 0 {
      CopiesTail(lines[..n], x);
      assert lines[..n][1..] == lines[1..][..n - 1];
    }
  }

  lemma FileSnoc(file: seq<Entry>, e: Entry, x: Line)
    ensures FileCopies(file + [e], x) == FileCopies(file, x) + Same(e.line, x)
    ensures QueuedLines(file + [e]) == QueuedLines(file) + if e.queued then [e.line] else []
  {
    assert (file + [e])[..|file|] == file;
  }

  lemma SubmitConserves(s: State, p: nat, line: Line, x: Line)
    requires Conserved(s, x) && Enabled(s, Submit(p, line))
    ensures Conserved(Next(s, Submit(p, line)), x)
  {
    HeldUpdate(s.producers, p, Formatted(line), x);
    CopiesSnoc(s.submitted, line, x);
  }

  lemma CheckConserves(s: State, p: nat, x: Line)
    requires Conserved(s, x) && Enabled(s, CheckFull(p))
    ensures Conserved(Next(s, CheckFull(p)), x)
  {
    HeldUpdate(s.producers, p, Next(s, CheckFull(p)).producers[p], x);
  }

  lemma PushConserves(s: State, p: nat, x: Line)
    requires Conserved(s, x) && Enabled(s, Push(p))
    ensures Conserved(Next(s, Push(p)), x)
  {
    var line, t := s.producers[p].line, Next(s, Push(p));
    HeldUpdate(s.producers, p, Idle, x);
    assert t.producers == s.producers[p := Idle] && t.file == s.file && t.flusher == s.flusher;
    if |s.queue| >= s.cap {
      CopiesSnoc(s.dropped, line, x);
    } else {
      CopiesSnoc(s.queue, line, x);
    }
  }

  lemma WriteConserves(s: State, p: nat, x: Line)
    requires Conserved(s, x) && Enabled(s, Write(p))
    ensures Conserved(Next(s, Write(p)), x)
  {
    HeldUpdate(s.producers, p, Idle, x);
    FileSnoc(s.file, Entry(s.producers[p].line, false), x);
  }

  lemma FlusherConserves(s: State, step: Step, x: Line)
    requires Conserved(s, x) && Enabled(s, step) && (step.Pop? || step.Flush?)
    ensures Conserved(Next(s, step), x)
  {
    var line := if step.Pop? then s.queue[0] else s.flusher.line;
    assert Copies([line], x) == Same(line, x) by {
      CopiesSnoc([], line, x);
      assert [] + [line] == [line];
    }
    if step.Pop? {
      CopiesTail(s.queue, x);
    } else {
      FileSnoc(s.file, Entry(line, true), x);
    }
  }

  lemma StepConserves(s: State, step: Step, x: Line)
    requires Conserved(s, x) && Enabled(s, step)
    ensures Conserved(Next(s, step), x)
  {
    match step
    case Submit(p, line) => SubmitConserves(s, p, line, x);
    case CheckFull(p) => CheckConserves(s, p, x);
    case Push(p) => PushConserves(s, p, x);
    case Write(p) => WriteConserves(s, p, x);
    case Pop => FlusherConserves(s, step, x);
    case Flush => FlusherConserves(s, step, x);
    case EndFlusher =>
  }

  lemma PushKeepsOrder(s: State, p: nat)
    requires Ordered(s) && Enabled(s, Push(p))
    ensures Ordered(Next(s, Push(p)))
  {
    var line := s.producers[p].line;
    var a := QueuedLines(s.file) + InFlush(s.flusher);
    assert a + (s.queue + [line]) == a + s.queue + [line];
  }

  lemma PopKeepsOrder(s: State)
    requires Ordered(s) && Enabled(s, Pop)
    ensures Ordered(Next(s, Pop))
  {
    var a, q := QueuedLines(s.file), s.queue;
    assert a + [] + q == a + [q[0]] + q[1..];
  }

  lemma FlushKeepsOrder(s: State)
    requires Ordered(s) && Enabled(s, Flush)
    ensures Ordered(Next(s, Flush))
  {
    var a, line := QueuedLines(s.file), s.flusher.line;
    FileSnoc(s.file, Entry(line, true), line);
    assert a + [line] + s.queue == a + [line] + [] + s.queue;
  }

  lemma StepKeepsOrder(s: State, step: Step)
    requires Ordered(s) && Enabled(s, step)
    ensures Ordered(Next(s, step))
  {
    match step
    case Push(p) => PushKeepsOrder(s, p);
    case Write(p) => FileSnoc(s.file, Entry(s.producers[p].line, false), s.producers[p].line);
    case Pop => PopKeepsOrder(s);
    case Flush => FlushKeepsOrder(s);
    case _ =>
  }

  lemma {:induction false} HeldNothing(ps: seq<Producer>, x: Line)
    requires forall i :: 0 <= i < |ps| ==> ps[i].Idle?
    ensures Held(ps, x) == 0
  {
    if ps != [] {
      HeldNothing(ps[1..], x);
    }
  }

  // In every interleaving of producers and the flush thread each line `x` has as
  // many submitted copies as there are in the file, in the queue, in the hands
  // of the threads and among the dropped lines together; and the queued lines
  // reach the file in push order.
  lemma {:induction false} LogConservation(async: bool, cap: nat, producers: nat, steps: seq<Step>, x: Line)
    requires CanRun(Init(async, cap, producers), steps)
    ensures Conserved(Exec(Init(async, cap, producers), steps), x)
    ensures Ordered(Exec(Init(async, cap, producers), steps))
  {
    var s := Init(async, cap, producers);
    if steps == [] {
      HeldNothing(s.producers, x);
    } else {
      var n := |steps| - 1;
      LogConservation(async, cap, producers, steps[..n], x);
      StepConserves(Exec(s, steps[..n]), steps[n], x);
      StepKeepsOrder(Exec(s, steps[..n]), steps[n]);
    }
  }

  // The same from the steps alone: a producer carries the line it submitted last,
  // and the lines written directly, queued and dropped are those of the write and
  // push steps, in their order.

  function Carried(steps: seq<Step>, p: nat): Line {
    if steps == [] then Line("")
    else
      var n := |steps| - 1;
      if steps[n].Submit? && steps[n].p == p then steps[n].line else Carried(steps[..n], p)
  }

  function WrittenBy(steps: seq<Step>): seq<Line> {
    if steps == [] then []
    else
      var n := |steps| - 1;
      WrittenBy(steps[..n]) + if steps[n].Write? then [Carried(steps[..n], steps[n].p)] else []
  }

  // The lines of the push steps that found room, or did not.
  function PushedBy(start: State, steps: seq<Step>, room: bool): seq<Line>
    requires CanRun(start, steps)
  {
    if steps == [] then []
    else
      var n := |steps| - 1;
      PushedBy(start, steps[..n], room) +
      if steps[n].Push? && (|Exec(start, steps[..n]).queue| < start.cap) == room
      then [Carried(steps[..n], steps[n].p)] else []
  }

  function DirectLines(file: seq<Entry>): seq<Line> {
    if file == [] then []
    else
      var e := file[|file| - 1];
      DirectLines(file[..|file| - 1]) + if e.queued then [] else [e.line]
  }

  ghost predicate Carrying(s: State, steps: seq<Step>) {
    forall p :: 0 <= p < |s.producers| && !s.producers[p].Idle? ==> s.producers[p].line == Carried(steps, p)
  }

  lemma {:induction false} RunCarries(start: State, steps: seq<Step>)
    requires CanRun(start, steps) && forall p :: 0 <= p < |start.producers| ==> start.producers[p].Idle?
    ensures Carrying(Exec(start, steps), steps) && Exec(start, steps).cap == start.cap
  {
    if steps != [] {
      RunCarries(start, steps[..|steps| - 1]);
    }
  }

  lemma DirectSnoc(file: seq<Entry>, e: Entry)
    ensures DirectLines(file + [e]) == DirectLines(file) + if e.queued then [] else [e.line]
  {
    assert (file + [e])[..|file|] == file;
  }

  lemma StepLines(s: State, step: Step, before: seq<Step>)
    requires Enabled(s, step) && Carrying(s, before)
    ensures var t := Next(s, step);
            && DirectLines(t.file) == DirectLines(s.file) + (if step.Write? then [Carried(before, step.p)] else [])
            && t.pushed == s.pushed + (if step.Push? && |s.queue| < s.cap then [Carried(before, step.p)] else [])
            && t.dropped == s.dropped + if step.Push? && |s.queue| >= s.cap then [Carried(before, step.p)] else []
  {
    match step
    case Write(p) => DirectSnoc(s.file, Entry(s.producers[p].line, false));
    case Flush => DirectSnoc(s.file, Entry(s.flusher.line, true));
    case _ =>
  }

  lemma {:induction false} LinesOfSteps(async: bool, cap: nat, producers: nat, steps: seq<Step>)
    requires CanRun(Init(async, cap, producers), steps)
    ensures var start := Init(async, cap, producers);
            var s := Exec(start, steps);
            && DirectLines(s.file) == WrittenBy(steps)
            && s.pushed == PushedBy(start, steps, true) && s.dropped == PushedBy(start, steps, false)
  {
    if steps != [] {
      var n := |steps| - 1;
      var start := Init(async, cap, producers);
      LinesOfSteps(async, cap, producers, steps[..n]);
      RunCarries(start, steps[..n]);
      StepLines(Exec(start, steps[..n]), steps[n], steps[..n]);
      hide Next, Enabled, Carrying, DirectLines, Carried;
    }
  }

  // With one producer nothing is dropped: room seen by full() is still there.
  ghost predicate RoomKept(s: State) {
    && |s.producers| == 1 && s.dropped == []
    && (s.producers[0].Pushing? ==> |s.queue| < s.cap)
  }

  lemma {:induction false} OneProducerDropsNothing(async: bool, cap: nat, steps: seq<Step>)
    requires CanRun(Init(async, cap, 1), steps)
    ensures RoomKept(Exec(Init(async, cap, 1), steps))
  {
    if steps != [] {
      OneProducerDropsNothing(async, cap, steps[..|steps| - 1]);
    }
  }

  lemma Extend(s: State, steps: seq<Step>, step: Step) returns (longer: seq<Step>)
    requires CanRun(s, steps) && Enabled(Exec(s, steps), step)
    ensures CanRun(s, longer) && Exec(s, longer) == Next(Exec(s, steps), step)
  {
    longer := steps + [step];
    assert longer[..|steps|] == steps;
  }

  // A queue of any size can be filled by one producer.
  lemma {:induction false} Fill(cap: nat, producers: nat, n: nat, line: Line) returns (steps: seq<Step>)
    requires n <= cap && producers >= 1
    ensures CanRun(Init(true, cap, producers), steps)
    ensures var s := Exec(Init(true, cap, producers), steps);
            && |s.queue| == n && s.async && s.cap == cap && s.dropped == []
            && s.producers == seq(producers, i => Idle)
  {
    var start := Init(true, cap, producers);
    steps := [];
    if n > 0 {
      steps := Fill(cap, producers, n - 1, line);
      steps := Extend(start, steps, Submit(0, line));
      steps := Extend(start, steps, CheckFull(0));
      steps := Extend(start, steps, Push(0));
    }
  }

  // Two producers that both see the last free place: the later push is lost.
  lemma TwoProducersDrop(cap: nat, producers: nat, line: Line) returns (steps: seq<Step>)
    requires cap >= 1 && producers >= 2
    ensures CanRun(Init(true, cap, producers), steps)
    ensures Exec(Init(true, cap, producers), steps).dropped == [line]
  {
    var start := Init(true, cap, producers);
    steps := Fill(cap, producers, cap - 1, line);
    steps := Extend(start, steps, Submit(0, line));
    steps := Extend(start, steps, CheckFull(0));
    steps := Extend(start, steps, Submit(1, line));
    steps := Extend(start, steps, CheckFull(1));
    steps := Extend(start, steps, Push(0));
    steps := Extend(start, steps, Push(1));
  }

  // A synchronous logger never gets as far as a push, nor does one nobody uses.
  lemma {:induction false} QuietDropsNothing(s: State, steps: seq<Step>)
    requires CanRun(s, steps) && s.dropped == []
    requires !s.async || s.producers == []
    requires forall i :: 0 <= i < |s.producers| ==> !s.producers[i].Pushing?
    ensures var t := Exec(s, steps);
            && t.dropped == [] && t.async == s.async && |t.producers| == |s.producers|
            && forall i :: 0 <= i < |t.producers| ==> !t.producers[i].Pushing?
  {
    if steps != [] {
      QuietDropsNothing(s, steps[..|steps| - 1]);
    }
  }

  // Exactly when a line can be lost: the logger is asynchronous with a queue and
  // more than one thread writes.
  lemma DropExactly(async: bool, cap: nat, producers: nat)
    requires async ==> cap >= 1
    ensures (exists steps :: CanRun(Init(async, cap, producers), steps) &&
                             Exec(Init(async, cap, producers), steps).dropped != [])
            <==> async && producers >= 2
  {
    if async && producers >= 2 {
      var steps := TwoProducersDrop(cap, producers, Line(""));
      assert Exec(Init(async, cap, producers), steps).dropped != [];
    } else {
      forall steps | CanRun(Init(async, cap, producers), steps)
        ensures Exec(Init(async, cap, producers), steps).dropped == []
      {
        if producers == 1 {
          OneProducerDropsNothing(async, cap, steps);
        } else {
          QuietDropsNothing(Init(async, cap, producers), steps);
        }
      }
    }
  }

  function ViaQueue(items: seq<Line>): seq<Entry> {
    seq(|items|, i requires 0 <= i < |items| => Entry(items[i], true))
  }

  lemma ViaQueueSnoc(items: seq<Line>, n: nat)
    requires n < |items|
    ensures ViaQueue(items[..n + 1]) == ViaQueue(items[..n]) + [Entry(items[n], true)]
  {
  }

  // The logger object on a real queue, each method run without interference.
  class AsyncLog {
    const isAsync: bool
    const queue: BlockQueue.Queue<Line>
    var file: seq<Entry>

    constructor (maxQueueSize: int)
      ensures isAsync == (maxQueueSize >= 1) && fresh(queue) && fresh(queue.slots)
      ensures queue.IsValid() && queue.Items() == [] && file == []
    {
      isAsync := maxQueueSize >= 1;
      queue := new BlockQueue.Queue(if maxQueueSize >= 1 then maxQueueSize else 1);
      file := [];
    }

    // The end of write_log: queue the line or write it.
    method Put(line: Line)
      requires queue.IsValid()
      modifies this, queue, queue.slots
      ensures queue.slots == old(queue.slots) && queue.IsValid()
      ensures if isAsync && |old(queue.Items())| < queue.slots.Length
              then queue.Items() == old(queue.Items()) + [line] && file == old(file)
              else queue.Items() == old(queue.Items()) && file == old(file) + [Entry(line, false)]
    {
      var full := queue.Full();
      if isAsync && !full {
        var _ := queue.PushBack(line);
      } else {
        file := file + [Entry(line, false)];
      }
    }

    // async_write_log up to the moment it would wait: everything queued is
    // written, in order.
    method AsyncWriteLog()
      requires queue.IsValid()
      modifies this, queue, queue.slots
      ensures queue.slots == old(queue.slots) && queue.IsValid() && queue.Items() == []
      ensures file == old(file) + ViaQueue(old(queue.Items()))
    {
      hide BlockQueue.Contents, BlockQueue.Valid;
      var r := BlockQueue.StillWaiting;
      ghost var items := queue.Items();
      ghost var done := 0;
      r := queue.BlockingPop([]);
      while r.Item?
        invariant queue.slots == old(queue.slots) && queue.IsValid()
        invariant 0 <= done <= |items|
        invariant r.Item? ==> done < |items| && r.value == items[done] && queue.Items() == items[done + 1..]
        invariant !r.Item? ==> done == |items| && queue.Items() == []
        invariant file == old(file) + ViaQueue(items[..done])
        decreases |items| - done
      {
        ViaQueueSnoc(items, done);
        file := file + [Entry(r.value, true)];
        done := done + 1;
        r := queue.BlockingPop([]);
      }
      assert items[..done] == items;
    }
  }
}
