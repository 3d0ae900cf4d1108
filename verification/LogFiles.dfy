// Which files a logger opens and which lines they get (write_log in
// src/server/log/log.cpp), in closed form: write k is the k-th record, write 0
// stands for init.
module LogFiles {
  import opened LogRotation

  function DateAt(start: Date, records: seq<Record>, k: nat): Date
    requires k <= |records|
  {
    if k == 0 then start else records[k - 1].date
  }

  // The number of writes since the day of the month last changed.
  function Pos(start: Date, records: seq<Record>, k: nat): (p: nat)
    requires k <= |records|
    ensures p <= k
  {
    if k == 0 || DateAt(start, records, k).mday != DateAt(start, records, k - 1).mday then 0
    else Pos(start, records, k - 1) + 1
  }

  predicate OpensFile(split: int, start: Date, records: seq<Record>, k: nat)
    requires split >= 1 && k <= |records|
  {
    Pos(start, records, k) % split == 0
  }

  // The writes up to k that open a file.
  function Openings(split: int, start: Date, records: seq<Record>, k: nat): seq<nat>
    requires split >= 1 && k <= |records|
  {
    var before := if k == 0 then [] else Openings(split, start, records, k - 1);
    if OpensFile(split, start, records, k) then before + [k] else before
  }

  // The write that opened the file of write k.
  function Opener(split: int, start: Date, records: seq<Record>, k: nat): int
    requires split >= 1 && k <= |records|
  {
    k - Pos(start, records, k) % split
  }

  function NameAt(split: int, start: Date, records: seq<Record>, k: nat): FileName
    requires split >= 1 && k <= |records|
  {
    var number := Pos(start, records, k) / split;
    FileName(DateAt(start, records, k), if number == 0 then Plain else Suffix(number))
  }

  lemma OpenerStep(split: int, start: Date, records: seq<Record>, k: nat)
    requires split >= 1 && k <= |records|
    ensures 0 <= Opener(split, start, records, k) <= k
    ensures Opener(split, start, records, k) == k <==> OpensFile(split, start, records, k)
    ensures !OpensFile(split, start, records, k) ==>
              && k > 0 && DateAt(start, records, k).mday == DateAt(start, records, k - 1).mday
              && Opener(split, start, records, k) == Opener(split, start, records, k - 1)
  {
    var p := Pos(start, records, k);
    ZeroOver(split);
    if p > 0 {
      DivStep(p - 1, split);
    }
  }

  ghost predicate Lists(os: seq<nat>, split: int, start: Date, records: seq<Record>, k: nat)
    requires split >= 1 && k <= |records|
  {
    && (forall a :: 0 <= a < |os| ==> os[a] <= k && OpensFile(split, start, records, os[a]))
    && (forall a, b :: 0 <= a < b < |os| ==> os[a] < os[b])
    && (forall i: nat :: i <= k && OpensFile(split, start, records, i) ==> i in os)
  }

  lemma ListsStep(os: seq<nat>, split: int, start: Date, records: seq<Record>, k: nat)
    requires split >= 1 && 0 < k <= |records| && Lists(os, split, start, records, k - 1)
    ensures Lists(if OpensFile(split, start, records, k) then os + [k] else os, split, start, records, k)
  {
    hide OpensFile;
    var more := if OpensFile(split, start, records, k) then os + [k] else os;
    forall i: nat | i <= k && OpensFile(split, start, records, i) ensures i in more {
      if i == k {
        assert more[|os|] == k;
      } else {
        assert i in os;
      }
    }
  }

  // The openings are exactly the writes at a multiple of the line limit, in
  // order; the last one is the opener, on the same day of the month.
  lemma {:induction false} OpeningsMean(split: int, start: Date, records: seq<Record>, k: nat)
    requires split >= 1 && k <= |records|
    ensures var os := Openings(split, start, records, k);
            && os != [] && os[0] == 0 && os[|os| - 1] == Opener(split, start, records, k)
            && Lists(os, split, start, records, k)
    ensures var o := Opener(split, start, records, k);
            0 <= o <= k && DateAt(start, records, o).mday == DateAt(start, records, k).mday
  {
    OpenerStep(split, start, records, k);
    if k > 0 {
      OpeningsMean(split, start, records, k - 1);
      ListsStep(Openings(split, start, records, k - 1), split, start, records, k);
    }
    hide OpensFile, Opener, Pos, Lists, DateAt;
  }

  // The lines of the writes i+1 .. j.
  function TextsBetween(records: seq<Record>, i: nat, j: int): seq<string>
    requires j <= |records|
  {
    if i >= j then [] else TextsBetween(records, i, j - 1) + [records[j - 1].line]
  }

  lemma {:induction false} TextAt(records: seq<Record>, i: nat, j: nat, m: nat)
    requires i + m < j <= |records|
    ensures |TextsBetween(records, i, j)| == j - i
    ensures TextsBetween(records, i, j)[m] == records[i + m].line
  {
    if i + 1 < j {
      TextAt(records, i, j - 1, if i + m < j - 1 then m else 0);
    }
  }

  // Write 0 is init and has no line.
  function From(opener: nat): nat { if opener == 0 then 0 else opener - 1 }

  // The a-th of the opened files ends before the next one, the last at write k.
  function To(os: seq<nat>, a: nat, k: nat): int { if a + 1 < |os| then os[a + 1] - 1 else k }

  ghost predicate Filled(ps: seq<Period>, os: seq<nat>, split: int, start: Date, records: seq<Record>, k: nat)
    requires split >= 1 && k <= |records|
  {
    && |ps| == |os|
    && forall a :: 0 <= a < |ps| ==>
         && os[a] <= k && To(os, a, k) <= k
         && ps[a] == Period(NameAt(split, start, records, os[a]), TextsBetween(records, From(os[a]), To(os, a, k)))
  }

  lemma FilledOpen(ps: seq<Period>, os: seq<nat>, split: int, start: Date, records: seq<Record>, k: nat)
    requires split >= 1 && 0 < k <= |records| && Filled(ps, os, split, start, records, k - 1)
    ensures Filled(ps + [Period(NameAt(split, start, records, k), [records[k - 1].line])], os + [k],
                   split, start, records, k)
  {
    hide NameAt;
    assert TextsBetween(records, k - 1, k) == [] + [records[k - 1].line];
    assert forall a :: 0 <= a < |os| ==> To(os + [k], a, k) == To(os, a, k - 1);
  }

  lemma FilledSame(ps: seq<Period>, os: seq<nat>, split: int, start: Date, records: seq<Record>, k: nat)
    requires split >= 1 && 0 < k <= |records| && Filled(ps, os, split, start, records, k - 1) && ps != []
    ensures Filled(Append(ps, records[k - 1].line), os, split, start, records, k)
  {
    hide NameAt;
    var n := |os| - 1;
    assert forall a :: 0 <= a < n ==> To(os, a, k) == To(os, a, k - 1);
    assert To(os, n, k) == k && To(os, n, k - 1) == k - 1;
  }

  // The whole log after k writes.
  ghost predicate Matches(log: Log, split: int, start: Date, records: seq<Record>, k: nat)
    requires split >= 1 && k <= |records|
  {
    && log.split == split
    && log.count == Pos(start, records, k) && log.today == DateAt(start, records, k).mday
    && Filled(log.periods, Openings(split, start, records, k), split, start, records, k)
  }

  lemma NotPositive(n: int, d: int)
    requires n >= 1 && d <= 0
    ensures n * d <= 0
  {
  }

  lemma MultiplesIncrease(p: nat, q: nat, n: int)
    requires n >= 1 && p < q && p % n == 0 && q % n == 0
    ensures p / n < q / n
  {
    var d := q / n - p / n;
    assert n * d == q - p by { assert p == n * (p / n) && q == n * (q / n) && n * d == n * (q / n) - n * (p / n); }
    if d <= 0 {
      NotPositive(n, d);
    }
  }

  // One rotation: a file is opened exactly at the openings, under its name.
  lemma RotateMatches(log: Log, split: int, start: Date, records: seq<Record>, k: nat)
    requires split >= 1 && 0 < k <= |records|
    requires log.split == split
    requires log.count == Pos(start, records, k - 1) && log.today == DateAt(start, records, k - 1).mday
    ensures Rotate(log, records[k - 1].date) ==
            Log(split, Pos(start, records, k), DateAt(start, records, k).mday, log.periods +
                if OpensFile(split, start, records, k) then [Period(NameAt(split, start, records, k), [])] else [])
  {
    var p := Pos(start, records, k);
    ZeroOver(split);
    if p > 0 && p % split == 0 {
      MultiplesIncrease(0, p, split);
    }
  }

  lemma WriteMatches(log: Log, split: int, start: Date, records: seq<Record>, k: nat)
    requires split >= 1 && 0 < k <= |records| && Matches(log, split, start, records, k - 1) && log.periods != []
    ensures Matches(Write(log, records[k - 1]), split, start, records, k)
  {
    RotateMatches(log, split, start, records, k);
    var os := Openings(split, start, records, k - 1);
    var line := records[k - 1].line;
    if OpensFile(split, start, records, k) {
      FilledOpen(log.periods, os, split, start, records, k);
      assert [] + [line] == [line];
      assert Write(log, records[k - 1]).periods ==
             log.periods + [Period(NameAt(split, start, records, k), [line])];
    } else {
      FilledSame(log.periods, os, split, start, records, k);
      assert log.periods + [] == log.periods;
    }
    hide Pos, OpensFile, DateAt, NameAt, Filled, TextsBetween, Rotate;
  }

  lemma {:induction false} ClosedForm(split: int, start: Date, records: seq<Record>, k: nat)
    requires split >= 1 && k <= |records|
    ensures Matches(Exec(split, start, records[..k]), split, start, records, k)
  {
    ZeroOver(split);
    if k > 0 {
      ClosedForm(split, start, records, k - 1);
      assert records[..k][..k - 1] == records[..k - 1];
      WriteMatches(Exec(split, start, records[..k - 1]), split, start, records, k);
    }
  }

  lemma PeriodsFilled(split: int, start: Date, records: seq<Record>)
    requires split >= 1
    ensures Filled(Exec(split, start, records).periods, Openings(split, start, records, |records|),
                   split, start, records, |records|)
  {
    assert records[..|records|] == records;
    ClosedForm(split, start, records, |records|);
  }

  lemma SameQuotient(p: nat, q: nat, n: int)
    requires n >= 1 && p % n == 0 && q % n == 0
    ensures p / n == q / n <==> p == q
  {
    if p < q {
      MultiplesIncrease(p, q, n);
    } else if q < p {
      MultiplesIncrease(q, p, n);
    }
  }

  // Two openings share a file exactly when they have the same date and the same
  // number of writes behind them since the day changed.
  lemma NamesEqual(split: int, start: Date, records: seq<Record>, i: nat, j: nat)
    requires split >= 1 && i <= |records| && j <= |records|
    requires OpensFile(split, start, records, i) && OpensFile(split, start, records, j)
    ensures NameAt(split, start, records, i) == NameAt(split, start, records, j) <==>
            && DateAt(start, records, i) == DateAt(start, records, j)
            && Pos(start, records, i) == Pos(start, records, j)
  {
    SameQuotient(Pos(start, records, i), Pos(start, records, j), split);
    hide Pos, DateAt;
  }

  ghost predicate Reopens(split: int, start: Date, records: seq<Record>, i: nat, j: nat)
    requires split >= 1
  {
    && i < j <= |records|
    && DateAt(start, records, i) == DateAt(start, records, j)
    && Pos(start, records, i) == Pos(start, records, j)
    && OpensFile(split, start, records, i)
  }

  ghost predicate SomeFileTwice(ps: seq<Period>) {
    exists a, b :: 0 <= a < b < |ps| && ps[a].name == ps[b].name
  }

  lemma TwiceReopens(ps: seq<Period>, os: seq<nat>, split: int, start: Date, records: seq<Record>, a: nat, b: nat)
    requires split >= 1 && Filled(ps, os, split, start, records, |records|)
    requires Lists(os, split, start, records, |records|)
    requires a < b < |ps| && ps[a].name == ps[b].name
    ensures Reopens(split, start, records, os[a], os[b])
  {
    hide OpensFile, Pos, DateAt, NameAt, TextsBetween, To;
    NamesEqual(split, start, records, os[a], os[b]);
  }

  lemma IndexOf(os: seq<nat>, split: int, start: Date, records: seq<Record>, i: nat) returns (a: nat)
    requires split >= 1 && i <= |records| && OpensFile(split, start, records, i)
    requires Lists(os, split, start, records, |records|)
    ensures a < |os| && os[a] == i
  {
    hide OpensFile;
    a :| a < |os| && os[a] == i;
  }

  lemma FilledName(ps: seq<Period>, os: seq<nat>, split: int, start: Date, records: seq<Record>, a: nat)
    requires split >= 1 && Filled(ps, os, split, start, records, |records|) && a < |os|
    ensures a < |ps| && os[a] <= |records| && ps[a].name == NameAt(split, start, records, os[a])
  {
    hide NameAt;
  }

  lemma TwiceAt(ps: seq<Period>, a: nat, b: nat)
    requires a < |ps| && b < |ps| && a != b && ps[a].name == ps[b].name
    ensures SomeFileTwice(ps)
  {
    assert ps[b].name == ps[a].name;
  }

  lemma ReopensTwice(ps: seq<Period>, os: seq<nat>, split: int, start: Date, records: seq<Record>, i: nat, j: nat)
    requires split >= 1 && Filled(ps, os, split, start, records, |records|)
    requires Lists(os, split, start, records, |records|)
    requires Reopens(split, start, records, i, j)
    ensures SomeFileTwice(ps)
  {
    assert OpensFile(split, start, records, j);
    NamesEqual(split, start, records, i, j);
    hide OpensFile, Pos, DateAt, NameAt, Lists, Filled, SomeFileTwice;
    var a := IndexOf(os, split, start, records, i);
    var b := IndexOf(os, split, start, records, j);
    FilledName(ps, os, split, start, records, a);
    FilledName(ps, os, split, start, records, b);
    TwiceAt(ps, a, b);
  }

  // Exactly when some file is opened twice, for every clock and line limit.
  lemma ReopensExactly(split: int, start: Date, records: seq<Record>)
    requires split >= 1
    ensures SomeFileTwice(Exec(split, start, records).periods) <==>
            exists i, j :: Reopens(split, start, records, i, j)
  {
    var os := Openings(split, start, records, |records|);
    PeriodsFilled(split, start, records);
    OpeningsMean(split, start, records, |records|);
    hide Filled, Lists, Exec, Openings, Opener, Pos, DateAt, NameAt;
    var ps := Exec(split, start, records).periods;
    if SomeFileTwice(ps) {
      var a: nat, b: nat :| a < b < |ps| && ps[a].name == ps[b].name;
      TwiceReopens(ps, os, split, start, records, a, b);
    }
    if i, j :| Reopens(split, start, records, i, j) {
      ReopensTwice(ps, os, split, start, records, i, j);
    }
  }

  // A run of writes on one day counts up, so a file is opened twice only if the
  // clock leaves its day of the month and comes back to it.
  lemma {:induction false} SameDayCountsUp(start: Date, records: seq<Record>, i: nat, j: nat)
    requires i <= j <= |records|
    requires forall k :: i <= k <= j ==> DateAt(start, records, k).mday == DateAt(start, records, i).mday
    ensures Pos(start, records, j) == Pos(start, records, i) + (j - i)
  {
    if i < j {
      SameDayCountsUp(start, records, i, j - 1);
      assert DateAt(start, records, j - 1).mday == DateAt(start, records, j).mday;
    }
  }

  // A clock that never goes back.

  predicate Before(a: Date, b: Date) {
    a.year < b.year || (a.year == b.year && (a.mon < b.mon || (a.mon == b.mon && a.mday < b.mday)))
  }

  predicate NotAfter(a: Date, b: Date) { a == b || Before(a, b) }

  predicate Less(a: FileName, b: FileName) {
    Before(a.date, b.date) || (a.date == b.date && Number(a.tail) < Number(b.tail))
  }

  ghost predicate Forward(start: Date, records: seq<Record>) {
    && (forall i :: 0 <= i < |records| ==> NotAfter(start, records[i].date))
    && (forall i, j :: 0 <= i < j < |records| ==> NotAfter(records[i].date, records[j].date))
  }

  ghost predicate Increasing(ps: seq<Period>) {
    forall i, j :: 0 <= i < j < |ps| ==> Less(ps[i].name, ps[j].name)
  }

  lemma OpeningsIncrease(split: int, start: Date, records: seq<Record>, i: nat, j: nat)
    requires split >= 1 && i < j <= |records| && Forward(start, records)
    requires OpensFile(split, start, records, i) && OpensFile(split, start, records, j)
    ensures Less(NameAt(split, start, records, i), NameAt(split, start, records, j))
  {
    assert NotAfter(DateAt(start, records, i), DateAt(start, records, j));
    if DateAt(start, records, i) == DateAt(start, records, j) {
      forall k | i <= k <= j ensures DateAt(start, records, k) == DateAt(start, records, i) {
        assert k == i || NotAfter(DateAt(start, records, i), DateAt(start, records, k));
        assert k == j || NotAfter(DateAt(start, records, k), DateAt(start, records, j));
      }
      SameDayCountsUp(start, records, i, j);
      MultiplesIncrease(Pos(start, records, i), Pos(start, records, j), split);
    }
  }

  lemma NoFileReopened(split: int, start: Date, records: seq<Record>)
    requires split >= 1 && Forward(start, records)
    ensures var log := Exec(split, start, records);
            && Increasing(log.periods)
            && (forall i, j :: 0 <= i < j < |log.periods| ==> log.periods[i].name != log.periods[j].name)
            && (forall i :: 0 <= i < |log.periods| ==> |log.periods[i].lines| <= split)
  {
    var n := |records|;
    var ps, os := Exec(split, start, records).periods, Openings(split, start, records, n);
    PeriodsFilled(split, start, records);
    RotationInvariant(split, start, records);
    OpeningsMean(split, start, records, n);
    forall i, j | 0 <= i < j < |ps| ensures Less(ps[i].name, ps[j].name) && ps[i].name != ps[j].name {
      OpeningsIncrease(split, start, records, os[i], os[j]);
    }
  }

  // With a clock that goes back a file is opened again, whatever the limit.
  lemma BackwardClockReopens(split: int, a: Date, b: Date)
    requires split >= 1 && a.mday != b.mday
    ensures var log := Exec(split, a, [Record(b, "x"), Record(a, "y")]);
            |log.periods| == 3 && log.periods[0].name == log.periods[2].name
  {
    var x, y := Record(b, "x"), Record(a, "y");
    assert [x, y][..1] == [x] && [x][..0] == [];
    assert Exec(split, a, [x]) == Write(Init(split, a), x);
    assert Exec(split, a, [x, y]) == Write(Exec(split, a, [x]), y);
  }

  // Where a line lands.

  lemma {:induction false} OpeningsGrow(split: int, start: Date, records: seq<Record>, k: nat, n: nat)
    requires split >= 1 && k <= n <= |records|
    ensures var os, more := Openings(split, start, records, k), Openings(split, start, records, n);
            os <= more && forall a :: |os| <= a < |more| ==> more[a] > k
  {
    if k < n {
      OpeningsGrow(split, start, records, k, n - 1);
    }
  }

  // Line k is in period a, which write o opened; the period's file has the
  // line's day of the month and the date of write o.
  ghost predicate InFile(ps: seq<Period>, a: int, o: int, start: Date, records: seq<Record>, k: nat) {
    && 0 <= a < |ps| && 0 <= o <= k && 0 < k <= |records|
    && k - 1 - From(o) < |ps[a].lines| && ps[a].lines[k - 1 - From(o)] == records[k - 1].line
    && ps[a].name.date.mday == records[k - 1].date.mday
    && ps[a].name.date == DateAt(start, records, o)
  }

  lemma NamedDate(split: int, start: Date, records: seq<Record>, k: nat)
    requires split >= 1 && k <= |records|
    ensures NameAt(split, start, records, k).date == DateAt(start, records, k)
  {
  }

  lemma LandsAt(ps: seq<Period>, os: seq<nat>, split: int, start: Date, records: seq<Record>, k: nat, a: nat)
    requires split >= 1 && 0 < k <= |records| && Filled(ps, os, split, start, records, |records|)
    requires a < |os| && os[a] <= k <= To(os, a, |records|)
    requires DateAt(start, records, os[a]).mday == records[k - 1].date.mday
    ensures InFile(ps, a, os[a], start, records, k)
  {
    NamedDate(split, start, records, os[a]);
    hide NameAt;
    TextAt(records, From(os[a]), To(os, a, |records|), k - 1 - From(os[a]));
  }

  lemma OpenerIndex(split: int, start: Date, records: seq<Record>, k: nat)
    requires split >= 1 && k <= |records|
    ensures var os, a := Openings(split, start, records, |records|), |Openings(split, start, records, k)| - 1;
            0 <= a < |os| && os[a] == Opener(split, start, records, k) && os[a] <= k <= To(os, a, |records|)
  {
    OpeningsMean(split, start, records, k);
    OpeningsGrow(split, start, records, k, |records|);
    hide OpensFile, Openings, Pos, Opener, Lists, DateAt;
  }

  lemma OpenerDate(split: int, start: Date, records: seq<Record>, k: nat)
    requires split >= 1 && 0 < k <= |records|
    ensures var o := Opener(split, start, records, k);
            0 <= o <= k && DateAt(start, records, o).mday == records[k - 1].date.mday
  {
    OpeningsMean(split, start, records, k);
    hide OpensFile, Opener, Openings, Pos, Lists;
  }

  // So the line of write k carries the date of its file exactly when the write
  // that opened the file, Pos % split writes before, has the same date.
  lemma LandsIn(split: int, start: Date, records: seq<Record>, k: nat)
    requires split >= 1 && 0 < k <= |records|
    ensures InFile(Exec(split, start, records).periods, |Openings(split, start, records, k)| - 1,
                   Opener(split, start, records, k), start, records, k)
  {
    hide *;
    var os, a := Openings(split, start, records, |records|), |Openings(split, start, records, k)| - 1;
    PeriodsFilled(split, start, records);
    OpenerIndex(split, start, records, k);
    OpenerDate(split, start, records, k);
    LandsAt(Exec(split, start, records).periods, os, split, start, records, k, a);
  }

  // So a month between two writes is not seen as a new day: the line goes into
  // the file of the same day of the earlier month.
  lemma MonthUnseen(split: int, a: Date, b: Date, line: string)
    requires split >= 2 && a.mday == b.mday
    ensures Exec(split, a, [Record(b, line)]).periods == [Period(FileName(a, Plain), [line])]
  {
    DivUnique(1, split, 0, 1);
    assert [Record(b, line)][..0] == [];
    assert [] + [line] == [line];
  }
}
