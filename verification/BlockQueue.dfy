// The blocking queue of the logger (src/server/log/block_queue.h): a circular
// array under a mutex, with consumers that wait on a condition variable.
module BlockQueue {

  // The fields of the queue as a value.  `front` is the slot removed last and
  // `back` the slot filled last; both are -1 in a cleared queue.
  datatype Ring<T> = Ring(slots: seq<T>, size: int, front: int, back: int)

  function Capacity<T>(r: Ring<T>): nat { |r.slots| }

  // x % n for 0 <= x < 2 * n.
  function Wrap(x: int, n: int): int { if x < n then x else x - n }

  lemma WrapIsMod(x: int, n: int)
    requires 0 <= x < 2 * n
    ensures x % n == Wrap(x, n)
  {
    if x >= n {
      assert x / n == 1;
    }
  }

  ghost predicate Valid<T>(r: Ring<T>) {
    && Capacity(r) > 0 && 0 <= r.size <= Capacity(r)
    && -1 <= r.front < Capacity(r)
    && r.back == Wrap(r.front + r.size, Capacity(r))
  }

  // Position of the i-th live item: (front + 1 + i) % capacity.
  ghost function SlotOf<T>(r: Ring<T>, i: int): (k: int)
    requires Valid(r) && 0 <= i < Capacity(r)
    ensures 0 <= k < Capacity(r)
  {
    Wrap(r.front + 1 + i, Capacity(r))
  }

  lemma SlotIsMod<T>(r: Ring<T>, i: int)
    requires Valid(r) && 0 <= i < Capacity(r)
    ensures SlotOf(r, i) == (r.front + 1 + i) % Capacity(r)
  {
    WrapIsMod(r.front + 1 + i, Capacity(r));
  }

  // The slots after `front`, read circularly.
  ghost function Contents<T>(r: Ring<T>): (q: seq<T>)
    requires Valid(r)
    ensures |q| == r.size
  {
    seq(r.size, i requires 0 <= i < r.size => r.slots[SlotOf(r, i)])
  }

  function Empty<T>(slots: seq<T>): Ring<T> { Ring(slots, 0, -1, -1) }

  ghost function Push<T>(r: Ring<T>, item: T): Ring<T>
    requires Valid(r)
  {
    if r.size >= Capacity(r) then r
    else
      var b := Wrap(r.back + 1, Capacity(r));
      Ring(r.slots[b := item], r.size + 1, r.front, b)
  }

  ghost function Pop<T>(r: Ring<T>): Ring<T>
    requires Valid(r)
  {
    if r.size <= 0 then r
    else Ring(r.slots, r.size - 1, Wrap(r.front + 1, Capacity(r)), r.back)
  }

  // The reference: a bounded FIFO sequence.

  function FifoPush<T>(q: seq<T>, cap: nat, item: T): seq<T> { if |q| >= cap then q else q + [item] }

  function FifoPop<T>(q: seq<T>): seq<T> { if q == [] then [] else q[1..] }

  lemma PushRefines<T>(r: Ring<T>, item: T)
    requires Valid(r)
    ensures Valid(Push(r, item)) && Capacity(Push(r, item)) == Capacity(r)
    ensures Contents(Push(r, item)) == FifoPush(Contents(r), Capacity(r), item)
  {
    var s, n := Push(r, item), Capacity(r);
    if r.size < n {
      assert s.back == SlotOf(r, r.size);
      forall i | 0 <= i < r.size ensures Contents(s)[i] == Contents(r)[i] {
        assert SlotOf(s, i) == SlotOf(r, i) != s.back;
      }
      assert Contents(s)[r.size] == s.slots[s.back] == item;
      assert Contents(s) == Contents(r) + [item];
    }
  }

  lemma SlotsMoveUp<T>(r: Ring<T>, i: nat)
    requires Valid(r) && i + 1 < r.size
    ensures Valid(Pop(r)) && SlotOf(Pop(r), i) == SlotOf(r, i + 1)
  {
  }

  lemma PopRefines<T>(r: Ring<T>)
    requires Valid(r)
    ensures Valid(Pop(r)) && Capacity(Pop(r)) == Capacity(r)
    ensures Contents(Pop(r)) == FifoPop(Contents(r))
    ensures r.size > 0 ==> r.slots[Wrap(r.front + 1, Capacity(r))] == Contents(r)[0]
  {
    var s := Pop(r);
    if r.size > 0 {
      assert s.front == SlotOf(r, 0);
      hide SlotOf;
      forall i | 0 <= i < s.size ensures Contents(s)[i] == Contents(r)[1..][i] {
        SlotsMoveUp(r, i);
      }
    }
  }

  // back() reads the newest item.  front() reads the slot removed last: while
  // the queue is not full that slot holds no live item, and in a full queue it
  // is the newest item, so it is the oldest one only when the capacity is one.
  lemma BackAndFront<T>(r: Ring<T>)
    requires Valid(r) && r.size > 0
    ensures r.slots[r.back] == Contents(r)[r.size - 1]
    ensures r.front >= 0 ==>
              && (r.size == Capacity(r) ==> r.front == r.back)
              && (r.size < Capacity(r) ==> forall i :: 0 <= i < r.size ==> r.front != SlotOf(r, i))
              && (r.front == SlotOf(r, 0) <==> Capacity(r) == 1)
  {
    assert r.back == SlotOf(r, r.size - 1);
  }

  // Any number of threads.  A consumer is outside the queue, asleep on the
  // condition variable, or awake and about to take the mutex again; `timed`
  // tells the two forms of pop apart.
  datatype Thread = Outside | Asleep(timed: bool) | Awake(timed: bool)

  // `accepted` holds the items of all successful pushes and `gone` those that a
  // pop returned or a clear discarded.
  datatype State<T> = State(ring: Ring<T>, threads: seq<Thread>, accepted: seq<T>, gone: seq<T>)

  datatype Step<T> =
    | DoPush(item: T)
    | DoClear
    | EnterPop(t: nat, timed: bool)
    | Resume(t: nat)
    | Spurious(t: nat)
    | GiveUp(t: nat)      // the wait reports an error or a timeout, even after a broadcast

  ghost predicate Enabled<T>(s: State<T>, step: Step<T>) {
    match step
    case DoPush(_) => true
    case DoClear => true
    case EnterPop(t, _) => t < |s.threads| && s.threads[t].Outside?
    case Resume(t) => t < |s.threads| && s.threads[t].Awake?
    case Spurious(t) => t < |s.threads| && s.threads[t].Asleep?
    case GiveUp(t) => t < |s.threads| && !s.threads[t].Outside?
  }

  function Broadcast(ts: seq<Thread>): seq<Thread> {
    seq(|ts|, i requires 0 <= i < |ts| => if ts[i].Asleep? then Awake(ts[i].timed) else ts[i])
  }

  ghost function Remove<T>(s: State<T>, t: nat): State<T>
    requires Valid(s.ring) && s.ring.size > 0 && t < |s.threads|
  {
    s.(ring := Pop(s.ring), threads := s.threads[t := Outside], gone := s.gone + [Contents(s.ring)[0]])
  }

  ghost function Next<T>(s: State<T>, step: Step<T>): State<T>
    requires Valid(s.ring) && Enabled(s, step)
  {
    match step
    case DoPush(x) =>
      s.(ring := Push(s.ring, x), threads := Broadcast(s.threads),
         accepted := if s.ring.size >= Capacity(s.ring) then s.accepted else s.accepted + [x])
    case DoClear => s.(ring := Empty(s.ring.slots), gone := s.gone + Contents(s.ring))
    case EnterPop(t, timed) =>
      if s.ring.size > 0 then Remove(s, t) else s.(threads := s.threads[t := Asleep(timed)])
    case Resume(t) =>
      if s.ring.size > 0 then Remove(s, t)
      else s.(threads := s.threads[t := if s.threads[t].timed then Outside else Asleep(false)])
    case Spurious(t) => s.(threads := s.threads[t := Awake(s.threads[t].timed)])
    case GiveUp(t) => s.(threads := s.threads[t := Outside])
  }

  // The same step on the reference FIFO, which knows no slots and no threads.
  ghost function FifoNext<T>(q: seq<T>, cap: nat, step: Step<T>): seq<T> {
    match step
    case DoPush(x) => FifoPush(q, cap, x)
    case DoClear => []
    case EnterPop(_, _) => FifoPop(q)
    case Resume(_) => FifoPop(q)
    case _ => q
  }

  ghost predicate Inv<T>(s: State<T>) {
    && Valid(s.ring)
    && s.accepted == s.gone + Contents(s.ring)
    && (forall t :: 0 <= t < |s.threads| && s.threads[t].Asleep? ==> s.ring.size == 0)
  }

  lemma StepRefines<T>(s: State<T>, step: Step<T>)
    requires Inv(s) && Enabled(s, step)
    ensures Inv(Next(s, step)) && Capacity(Next(s, step).ring) == Capacity(s.ring)
    ensures Contents(Next(s, step).ring) == FifoNext(Contents(s.ring), Capacity(s.ring), step)
  {
    var q := Contents(s.ring);
    PopRefines(s.ring);
    if step.DoPush? {
      PushRefines(s.ring, step.item);
      assert s.gone + (q + [step.item]) == s.accepted + [step.item];
    }
    if q != [] {
      assert s.gone + [q[0]] + q[1..] == s.gone + q;
    }
  }

  // A thread comes out of a pop with the oldest item, by giving up, or, if its
  // pop is a timed one, having found the queue empty after its wait.
  lemma PopReturns<T>(s: State<T>, step: Step<T>, t: nat)
    requires Inv(s) && Enabled(s, step) && t < |s.threads|
    requires !s.threads[t].Outside? || (step.EnterPop? && step.t == t)
    requires Next(s, step).threads[t].Outside?
    ensures var q := Contents(s.ring);
            || step == GiveUp(t)
            || (q != [] && Next(s, step).gone == s.gone + [q[0]] && Contents(Next(s, step).ring) == q[1..])
            || (q == [] && step == Resume(t) && s.threads[t] == Awake(true) && Next(s, step).ring == s.ring)
  {
    PopRefines(s.ring);
  }

  ghost predicate CanRun<T>(s: State<T>, steps: seq<Step<T>>)
    requires Inv(s)
    decreases |steps|
  {
    steps == [] ||
    (Enabled(s, steps[0]) && (StepRefines(s, steps[0]); CanRun(Next(s, steps[0]), steps[1..])))
  }

  ghost function Exec<T>(s: State<T>, steps: seq<Step<T>>): (r: State<T>)
    requires Inv(s) && CanRun(s, steps)
    decreases |steps|
  {
    if steps == [] then s
    else StepRefines(s, steps[0]); Exec(Next(s, steps[0]), steps[1..])
  }

  ghost function FifoExec<T>(q: seq<T>, cap: nat, steps: seq<Step<T>>): seq<T>
    decreases |steps|
  {
    if steps == [] then q else FifoExec(FifoNext(q, cap, steps[0]), cap, steps[1..])
  }

  function Init<T>(slots: seq<T>, consumers: nat): (s: State<T>)
    ensures slots != [] ==> Inv(s) && Contents(s.ring) == []
  {
    State(Empty(slots), seq(consumers, i => Outside), [], [])
  }

  // Refinement over every run from any state that satisfies the invariant: the
  // circular slots hold exactly what the FIFO reference holds.
  lemma {:induction false} RunRefines<T>(s: State<T>, steps: seq<Step<T>>)
    requires Inv(s) && CanRun(s, steps)
    ensures Inv(Exec(s, steps)) && Capacity(Exec(s, steps).ring) == Capacity(s.ring)
    ensures Contents(Exec(s, steps).ring) == FifoExec(Contents(s.ring), Capacity(s.ring), steps)
    decreases |steps|
  {
    if steps != [] {
      StepRefines(s, steps[0]);
      RunRefines(Next(s, steps[0]), steps[1..]);
    }
  }

  lemma ZeroMod(d: int, n: int)
    requires n > 0 && (d == 0 || d == n)
    ensures d % n == 0
  {
  }

  lemma ReadCircularly<T>(r: Ring<T>)
    requires Valid(r)
    ensures (r.front + r.size - r.back) % Capacity(r) == 0
    ensures forall i :: 0 <= i < r.size ==> Contents(r)[i] == r.slots[(r.front + 1 + i) % Capacity(r)]
  {
    ZeroMod(r.front + r.size - r.back, Capacity(r));
    forall i | 0 <= i < r.size
      ensures Contents(r)[i] == r.slots[(r.front + 1 + i) % Capacity(r)]
    {
      SlotIsMod(r, i);
    }
  }

  // The queue holds `q`: read circularly from the slot after `front`; what was
  // accepted is gone or still there; nobody sleeps while items are there.
  ghost predicate HoldsFifo<T>(s: State<T>, q: seq<T>) {
    && Valid(s.ring)
    && |q| == s.ring.size
    && (forall i :: 0 <= i < s.ring.size ==> q[i] == s.ring.slots[(s.ring.front + 1 + i) % Capacity(s.ring)])
    && Contents(s.ring) == q && s.accepted == s.gone + q
    && (s.ring.front + s.ring.size - s.ring.back) % Capacity(s.ring) == 0
    && (s.ring.size > 0 ==> forall t :: 0 <= t < |s.threads| ==> !s.threads[t].Asleep?)
  }

  lemma InvHoldsFifo<T>(s: State<T>)
    requires Inv(s)
    ensures HoldsFifo(s, Contents(s.ring))
  {
    ReadCircularly(s.ring);
    hide Contents;
  }

  // Main result, for every run of a new queue with any number of threads.
  lemma QueueRefinesFifo<T>(slots: seq<T>, consumers: nat, steps: seq<Step<T>>)
    requires slots != [] && CanRun(Init(slots, consumers), steps)
    ensures Capacity(Exec(Init(slots, consumers), steps).ring) == |slots|
    ensures HoldsFifo(Exec(Init(slots, consumers), steps), FifoExec([], |slots|, steps))
  {
    RunRefines(Init(slots, consumers), steps);
    InvHoldsFifo(Exec(Init(slots, consumers), steps));
    hide HoldsFifo, Inv, Contents;
  }

  // The queue object.

  // How a wait ends, with what other threads pushed before the mutex is taken
  // again.
  datatype Wake<T> = Failed(pushed: seq<T>) | Signalled(pushed: seq<T>)

  datatype PopResult<T> = Item(value: T) | WaitError | StillWaiting

  ghost function FifoPushAll<T>(q: seq<T>, cap: nat, items: seq<T>): seq<T>
    decreases |items|
  {
    if items == [] then q else FifoPushAll(FifoPush(q, cap, items[0]), cap, items[1..])
  }

  // What a blocking pop does when the waits end one after another as `wakes`
  // says, other threads having pushed the given items in the meantime.
  ghost function FifoBlockingPop<T>(q: seq<T>, cap: nat, wakes: seq<Wake<T>>): (PopResult<T>, seq<T>)
    decreases |wakes|
  {
    if q != [] then (Item(q[0]), q[1..])
    else if wakes == [] then (StillWaiting, q)
    else if wakes[0].Failed? then (WaitError, FifoPushAll(q, cap, wakes[0].pushed))
    else FifoBlockingPop(FifoPushAll(q, cap, wakes[0].pushed), cap, wakes[1..])
  }

  // Pushing a list fills the queue as far as there is room.
  lemma {:induction false} PushAllFills<T>(q: seq<T>, cap: nat, items: seq<T>)
    requires |q| <= cap
    ensures FifoPushAll(q, cap, items) ==
            q + if |items| <= cap - |q| then items else items[..cap - |q|]
    decreases |items|
  {
    if items != [] {
      PushAllFills(FifoPush(q, cap, items[0]), cap, items[1..]);
      if |q| < cap {
        var rest, room := items[1..], cap - |q|;
        assert FifoPushAll(q, cap, items) == FifoPushAll(q + [items[0]], cap, rest);
        hide FifoPushAll;
        if |items| <= room {
          assert q + [items[0]] + rest == q + items;
        } else {
          assert q + [items[0]] + rest[..room - 1] == q + items[..room];
        }
      } else {
        assert items[..0] == [] == items[1..][..0];
      }
    }
  }

  // A blocking pop on an empty queue is decided by the first wake-up that failed
  // or found items: an error in the first case, even if there are items, and the
  // first of the items in the second.
  ghost predicate Decides<T>(wakes: seq<Wake<T>>, k: nat) {
    && k < |wakes| && (wakes[k].Failed? || wakes[k].pushed != [])
    && forall j :: 0 <= j < k ==> wakes[j].Signalled? && wakes[j].pushed == []
  }

  lemma LaterDecides<T>(wakes: seq<Wake<T>>, k: nat)
    requires wakes != [] && wakes[0].Signalled? && wakes[0].pushed == [] && k > 0
    ensures Decides(wakes, k) <==> Decides(wakes[1..], k - 1)
  {
    if Decides(wakes[1..], k - 1) {
      assert forall j :: 1 <= j < k ==> wakes[j] == wakes[1..][j - 1];
    }
    if Decides(wakes, k) {
      assert forall j :: 0 <= j < k - 1 ==> wakes[1..][j] == wakes[j + 1];
    }
  }

  lemma {:induction false} BlockingPopExactly<T>(cap: nat, wakes: seq<Wake<T>>)
    requires cap > 0
    ensures var (r, q) := FifoBlockingPop([], cap, wakes);
            && (r.StillWaiting? <==> forall k: nat :: !Decides(wakes, k))
            && (r.StillWaiting? ==> q == [])
            && forall k: nat :: Decides(wakes, k) ==>
                 var items := wakes[k].pushed;
                 var kept := if |items| <= cap then items else items[..cap];
                 if wakes[k].Failed? then r == WaitError && q == kept
                 else r == Item(items[0]) && q == kept[1..]
    decreases |wakes|
  {
    if wakes != [] {
      var items := wakes[0].pushed;
      PushAllFills([], cap, items);
      var kept := if |items| <= cap then items else items[..cap];
      assert [] + kept == kept;
      if wakes[0].Failed? || items != [] {
        assert Decides(wakes, 0);
        assert forall k: nat :: Decides(wakes, k) ==> k == 0;
      } else {
        BlockingPopExactly(cap, wakes[1..]);
        assert !Decides(wakes, 0);
        forall k: nat ensures Decides(wakes[1..], k) ==> Decides(wakes, k + 1) {
          LaterDecides(wakes, k + 1);
        }
        forall k: nat | Decides(wakes, k) ensures k > 0 && Decides(wakes[1..], k - 1) {
          if k > 0 {
            LaterDecides(wakes, k);
          }
        }
      }
    }
  }

  class Queue<T(0)> {
    var slots: array<T>
    var size: int
    var front: int
    var back: int

    ghost function View(): Ring<T>
      reads this, slots
    {
      Ring(slots[..], size, front, back)
    }

    ghost predicate IsValid()
      reads this, slots
    {
      Valid(View())
    }

    ghost function Items(): seq<T>
      requires IsValid()
      reads this, slots
    {
      Contents(View())
    }

    constructor (maxSize: int)
      requires maxSize > 0
      ensures fresh(slots) && IsValid() && slots.Length == maxSize && Items() == []
    {
      slots := new T[maxSize];
      size, front, back := 0, -1, -1;
    }

    // A non-positive size ends the process; null stands for that.
    static method Create(maxSize: int) returns (q: Queue?<T>)
      ensures q == null <==> maxSize <= 0
      ensures q != null ==> fresh(q) && fresh(q.slots) && q.IsValid() && q.slots.Length == maxSize && q.Items() == []
    {
      if maxSize <= 0 {
        return null;
      }
      q := new Queue(maxSize);
    }

    method Clear()
      requires IsValid()
      modifies this
      ensures slots == old(slots) && IsValid() && Items() == []
    {
      size, front, back := 0, -1, -1;
    }

    method Full() returns (b: bool)
      requires IsValid()
      ensures b <==> |Items()| == slots.Length
    {
      b := size >= slots.Length;
    }

    method IsEmpty() returns (b: bool)
      requires IsValid()
      ensures b <==> Items() == []
    {
      b := 0 == size;
    }

    method Size() returns (n: int)
      requires IsValid()
      ensures n == |Items()|
    {
      n := size;
    }

    method Back() returns (ok: bool, value: T)
      requires IsValid()
      ensures ok <==> Items() != []
      ensures ok ==> value == Items()[|Items()| - 1]
    {
      value := slots[0];
      if 0 == size {
        return false, value;
      }
      BackAndFront(View());
      return true, slots[back];
    }

    method PushBack(item: T) returns (ok: bool)
      requires IsValid()
      modifies this, slots
      ensures slots == old(slots) && IsValid()
      ensures ok <==> |old(Items())| < slots.Length
      ensures Items() == FifoPush(old(Items()), slots.Length, item)
    {
      ghost var r := View();
      PushRefines(r, item);
      if size >= slots.Length {
        return false;
      }
      WrapIsMod(back + 1, slots.Length);
      back := (back + 1) % slots.Length;
      slots[back] := item;
      size := size + 1;
      assert View() == Push(r, item);
      return true;
    }

    // The removal both forms of pop end with.
    method TakeFront() returns (item: T)
      requires IsValid() && Items() != []
      modifies this
      ensures slots == old(slots) && IsValid()
      ensures item == old(Items())[0] && Items() == old(Items())[1..]
    {
      ghost var r := View();
      PopRefines(r);
      WrapIsMod(front + 1, slots.Length);
      front := (front + 1) % slots.Length;
      item := slots[front];
      size := size - 1;
      assert View() == Pop(r);
    }

    method PushAll(items: seq<T>)
      requires IsValid()
      modifies this, slots
      ensures slots == old(slots) && IsValid()
      ensures Items() == FifoPushAll(old(Items()), slots.Length, items)
    {
      var i := 0;
      while i < |items|
        invariant 0 <= i <= |items| && slots == old(slots) && IsValid()
        invariant FifoPushAll(Items(), slots.Length, items[i..]) == FifoPushAll(old(Items()), slots.Length, items)
      {
        assert items[i..][0] == items[i] && items[i..][1..] == items[i + 1..];
        var ok := PushBack(items[i]);
        i := i + 1;
      }
    }

    // pop(item): the wait loop, then the removal.
    method BlockingPop(wakes: seq<Wake<T>>) returns (r: PopResult<T>)
      requires IsValid()
      modifies this, slots
      ensures slots == old(slots) && IsValid()
      ensures (r, Items()) == FifoBlockingPop(old(Items()), slots.Length, wakes)
    {
      var i := 0;
      while size <= 0
        invariant 0 <= i <= |wakes| && slots == old(slots) && IsValid()
        invariant FifoBlockingPop(Items(), slots.Length, wakes[i..]) ==
                  FifoBlockingPop(old(Items()), slots.Length, wakes)
        decreases |wakes| - i
      {
        if i == |wakes| {
          return StillWaiting;
        }
        assert wakes[i..][1..] == wakes[i + 1..];
        PushAll(wakes[i].pushed);
        if wakes[i].Failed? {
          return WaitError;
        }
        i := i + 1;
      }
      var item := TakeFront();
      r := Item(item);
    }

    // pop(item, ms_timeout): at most one wait.  A timeout fails even if items were
    // pushed before the thread got the mutex back.
    method TimedPop(wake: Wake<T>) returns (r: PopResult<T>)
      requires IsValid()
      modifies this, slots
      ensures slots == old(slots) && IsValid()
      ensures var q := if old(Items()) == [] then FifoPushAll([], slots.Length, wake.pushed) else old(Items());
              if q == [] || (old(Items()) == [] && wake.Failed?) then r == WaitError && Items() == q
              else r == Item(q[0]) && Items() == q[1..]
    {
      if size <= 0 {
        PushAll(wake.pushed);
        if wake.Failed? {
          return WaitError;
        }
      }
      if size <= 0 {
        return WaitError;
      }
      var item := TakeFront();
      r := Item(item);
    }
  }
}
