// Log files by day and by size (src/server/log/log.cpp, init and write_log of a
// synchronous logger whose file name contains a directory).
module LogRotation {
  import opened Counting

  datatype Date = Date(year: int, mon: int, mday: int)

  // The file of a day, or its n-th continuation `.n`.
  datatype Tail = Plain | Suffix(n: int)

  datatype FileName = FileName(date: Date, tail: Tail)

  // A file from one fopen to the next, with the lines written meanwhile.
  datatype Period = Period(name: FileName, lines: seq<string>)

  datatype Log = Log(split: int, count: int, today: int, periods: seq<Period>)

  datatype Record = Record(date: Date, line: string)

  function Init(split: int, date: Date): Log {
    Log(split, 0, date.mday, [Period(FileName(date, Plain), [])])
  }

  function Last(log: Log): Period
    requires log.periods != []
  {
    log.periods[|log.periods| - 1]
  }

  function Append(ps: seq<Period>, line: string): seq<Period>
    requires ps != []
  {
    var n := |ps| - 1;
    ps[n := Period(ps[n].name, ps[n].lines + [line])]
  }

  // The first critical section counts the line and opens the file it needs; only
  // the day of the month decides whether a new day has begun.
  function Rotate(log: Log, date: Date): (next: Log)
    requires log.split >= 1
    ensures next.split == log.split && log.periods <= next.periods
  {
    var count := log.count + 1;
    if log.today != date.mday then
      Log(log.split, 0, date.mday, log.periods + [Period(FileName(date, Plain), [])])
    else if count % log.split == 0 then
      log.(count := count, periods := log.periods + [Period(FileName(date, Suffix(count / log.split)), [])])
    else
      log.(count := count)
  }

  // A later one writes the line.
  function Write(log: Log, r: Record): Log
    requires log.split >= 1 && log.periods != []
  {
    var next := Rotate(log, r.date);
    next.(periods := Append(next.periods, r.line))
  }

  function Exec(split: int, start: Date, records: seq<Record>): (log: Log)
    requires split >= 1
    ensures log.split == split && log.periods != []
  {
    if records == [] then Init(split, start)
    else Write(Exec(split, start, records[..|records| - 1]), records[|records| - 1])
  }

  lemma DivUnique(x: int, n: int, q: int, r: int)
    requires n >= 1 && 0 <= r < n && x == n * q + r
    ensures x / n == q && x % n == r
  {
    var d := q - x / n;
    assert n * d == x % n - r by { assert n * d == n * q - n * (x / n); }
    assert d >= 1 ==> n * d >= n;
    assert d <= -1 ==> n * d <= -n;
  }

  lemma DivStep(count: int, split: int)
    requires count >= 0 && split >= 1
    ensures (count + 1) % split == 0 ==> (count + 1) / split == count / split + 1 && count % split == split - 1
    ensures (count + 1) % split != 0 ==>
              (count + 1) / split == count / split && (count + 1) % split == count % split + 1
  {
    var q, r := count / split, count % split;
    assert count == split * q + r;
    if r + 1 < split {
      DivUnique(count + 1, split, q, r + 1);
    } else {
      assert count + 1 == split * (q + 1) by { assert split * (q + 1) == split * q + split; }
      DivUnique(count + 1, split, q + 1, 0);
    }
  }

  function Number(tail: Tail): int { if tail.Plain? then 0 else tail.n }

  // What every write keeps.
  ghost predicate Inv(log: Log) {
    && log.split >= 1 && log.count >= 0 && log.periods != []
    && Last(log).name.date.mday == log.today
    && Last(log).name.tail == (if log.count / log.split == 0 then Plain else Suffix(log.count / log.split))
    && |Last(log).lines| == log.count % log.split + Unit(|log.periods| != 1)
    && (|log.periods| == 1 ==> log.count < log.split)
    && |log.periods[0].lines| < log.split
    && forall i :: 0 <= i < |log.periods| ==> |log.periods[i].lines| <= log.split
  }

  lemma ZeroOver(split: int)
    requires split >= 1
    ensures 0 / split == 0 && 0 % split == 0
  {
    DivUnique(0, split, 0, 0);
  }

  lemma ZeroQuotient(count: int, split: int)
    requires count >= 0 && split >= 1
    ensures count / split == 0 <==> count < split
  {
    assert count == split * (count / split) + count % split;
    if count < split {
      DivUnique(count, split, 0, count);
    }
  }

  lemma WriteKeepsInv(log: Log, r: Record)
    requires Inv(log)
    ensures Inv(Write(log, r))
  {
    var next := Write(log, r);
    DivStep(log.count, log.split);
    ZeroOver(log.split);
    if next.count != 0 && next.count % log.split == 0 {
      assert log.count / log.split >= 0;
    } else if next.count != 0 && |log.periods| == 1 {
      DivUnique(log.count, log.split, 0, log.count);
    }
    assert next.periods[0] == log.periods[0] || |log.periods| == 1;
  }

  // In every run of writes the open file is the one for m_today with suffix
  // m_count / m_split_lines; a period takes at most m_split_lines lines, the one
  // opened by init one fewer.
  lemma {:induction false} RotationInvariant(split: int, start: Date, records: seq<Record>)
    requires split >= 1
    ensures Inv(Exec(split, start, records))
    ensures var log := Exec(split, start, records);
            && Last(log).name.date.mday == log.today
            && Last(log).name.tail == (if log.count < split then Plain else Suffix(log.count / split))
            && forall i :: 0 <= i < |log.periods| ==> |log.periods[i].lines| <= if i == 0 then split - 1 else split
  {
    if records == [] {
      ZeroOver(split);
    } else {
      var n := |records| - 1;
      RotationInvariant(split, start, records[..n]);
      WriteKeepsInv(Exec(split, start, records[..n]), records[n]);
      ZeroQuotient(Exec(split, start, records).count, split);
    }
  }

  // No line is lost, doubled or reordered by the rotation.

  function AllLines(ps: seq<Period>): seq<string> {
    if ps == [] then [] else AllLines(ps[..|ps| - 1]) + ps[|ps| - 1].lines
  }

  function Texts(records: seq<Record>): seq<string> {
    if records == [] then [] else Texts(records[..|records| - 1]) + [records[|records| - 1].line]
  }

  lemma RotateLines(log: Log, date: Date)
    requires log.split >= 1
    ensures AllLines(Rotate(log, date).periods) == AllLines(log.periods)
  {
    var ps, qs := log.periods, Rotate(log, date).periods;
    if qs != ps {
      assert qs[..|qs| - 1] == ps;
    }
  }

  lemma AppendLines(ps: seq<Period>, line: string)
    requires ps != []
    ensures AllLines(Append(ps, line)) == AllLines(ps) + [line]
  {
    var n := |ps| - 1;
    assert Append(ps, line)[..n] == ps[..n];
  }

  lemma {:induction false} LinesInOrder(split: int, start: Date, records: seq<Record>)
    requires split >= 1
    ensures AllLines(Exec(split, start, records).periods) == Texts(records)
  {
    if records == [] {
      assert Init(split, start).periods[..0] == [];
    } else {
      var n := |records| - 1;
      LinesInOrder(split, start, records[..n]);
      var before, r := Exec(split, start, records[..n]), records[n];
      RotateLines(before, r.date);
      AppendLines(Rotate(before, r.date).periods, r.line);
    }
  }

  // The logger object.
  class Logger {
    const split: int
    var count: int
    var today: int
    var periods: seq<Period>

    ghost function View(): Log
      reads this
    {
      Log(split, count, today, periods)
    }

    constructor (split: int, date: Date)
      requires split >= 1
      ensures View() == Init(split, date) && Inv(View())
    {
      this.split := split;
      count, today := 0, date.mday;
      periods := [Period(FileName(date, Plain), [])];
      new;
      ZeroOver(split);
    }

    method WriteLog(date: Date, line: string)
      requires Inv(View())
      modifies this
      ensures View() == Write(old(View()), Record(date, line)) && Inv(View())
    {
      WriteKeepsInv(View(), Record(date, line));
      count := count + 1;
      if today != date.mday || count % split == 0 {
        if today != date.mday {
          periods := periods + [Period(FileName(date, Plain), [])];
          today := date.mday;
          count := 0;
        } else {
          periods := periods + [Period(FileName(date, Suffix(count / split)), [])];
        }
      }
      ghost var rotated := periods;
      periods := Append(periods, line);
      assert [] + [line] == [line];
      assert |rotated| > |old(periods)| ==> periods == old(periods) + [Period(rotated[|old(periods)|].name, [line])];
    }
  }
}
