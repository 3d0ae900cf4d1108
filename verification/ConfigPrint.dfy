// Printed configurations and how the scanners of the client and the hook read
// them back.
module ConfigPrint {
  import opened CStrings
  import opened Config

  datatype Line = Addr(value: string) | Port(value: string) | Path(value: string) | Other(value: string)

  function Key(l: Line): string {
    match l
    case Addr(_) => "addr:"
    case Port(_) => "port:"
    case Path(_) => "path:"
    case Other(_) => ""
  }

  ghost predicate NoKey(s: string) {
    forall i: nat :: !MatchAt(s, i, "addr:") && !MatchAt(s, i, "port:") && !MatchAt(s, i, "path:")
  }

  ghost predicate Plain(l: Line) {
    && NUL !in l.value && '\n' !in l.value && '\r' !in l.value && '\t' !in l.value
    && NoKey(l.value)
  }

  function Body(l: Line): string { Key(l) + l.value }

  // Each line with its own ending.
  ghost predicate Ending(e: string) { e != "" && forall i :: 0 <= i < |e| ==> e[i] in {'\n', '\r', '\t'} }

  ghost predicate Lines(ls: seq<Line>, ends: seq<string>) {
    && |ls| == |ends|
    && (forall i :: 0 <= i < |ls| ==> Plain(ls[i]))
    && (forall i :: 0 <= i < |ends| ==> Ending(ends[i]))
  }

  function Print(ls: seq<Line>, ends: seq<string>): string
    requires |ls| == |ends|
  {
    if ls == [] then ""
    else
      var n := |ls| - 1;
      Print(ls[..n], ends[..n]) + Body(ls[n]) + ends[n]
  }

  function Nuls(n: nat): string { seq(n, i => NUL) }

  // The same text after the cut.
  function Segments(ls: seq<Line>, ends: seq<string>): string
    requires |ls| == |ends|
  {
    if ls == [] then ""
    else
      var n := |ls| - 1;
      Segments(ls[..n], ends[..n]) + Body(ls[n]) + Nuls(|ends[n]|)
  }

  function Says(l: Line, st: Settings): Settings {
    match l
    case Addr(v) => st.(ip := v)
    case Port(v) => st.(port := Atoi(v))
    case Path(v) => st.(path := v)
    case Other(_) => st
  }

  // What the lines say, the last of several lines with one key winning.
  function Meaning(ls: seq<Line>, st: Settings): Settings {
    if ls == [] then st else Says(ls[|ls| - 1], Meaning(ls[..|ls| - 1], st))
  }

  ghost predicate NoKeyAt(c: string, i: nat) {
    !MatchAt(c, i, "addr:") && !MatchAt(c, i, "port:") && !MatchAt(c, i, "path:")
  }

  lemma InValue(l: Line, k: nat, key: string)
    requires k >= |Key(l)|
    ensures MatchAt(Body(l), k, key) <==> MatchAt(l.value, k - |Key(l)|, key)
  {
    var m := |Key(l)|;
    assert forall i :: m <= i < |Body(l)| ==> Body(l)[i] == l.value[i - m];
    if MatchAt(Body(l), k, key) {
      forall i | 0 <= i < |key| ensures l.value[k - m + i] == key[i] {
        assert Body(l)[k + i] == key[i];
      }
    }
  }

  // Inside a line, past its start, nothing matches.
  lemma BodyHasNoInnerKey(l: Line, k: nat)
    requires Plain(l) && (k > 0 || l.Other?)
    ensures NoKeyAt(Body(l), k)
  {
    var b, m := Body(l), |Key(l)|;
    if k >= m {
      InValue(l, k, "addr:");
      InValue(l, k, "port:");
      InValue(l, k, "path:");
    } else {
      assert b[k] == Key(l)[k];
      MatchStarts(b, k, "addr:");
      MatchStarts(b, k, "port:");
      MatchStarts(b, k, "path:");
      assert k + 1 < m ==> b[k + 1] == Key(l)[k + 1];
    }
  }

  // The part of the buffer one line occupies, seen by the scan.
  ghost predicate HasLine(c: string, o: nat, l: Line) {
    o + |Body(l)| < |c| && c[o + |Body(l)|] == NUL && c[o..o + |Body(l)|] == Body(l)
  }

  // A key matches in the buffer exactly where it matches in its line.
  lemma LineMatch(c: string, o: nat, l: Line, k: nat, key: string)
    requires HasLine(c, o, l) && k <= |Body(l)| && NUL !in key
    ensures MatchAt(c, o + k, key) <==> MatchAt(Body(l), k, key)
  {
    MatchWithin(c, o + |Body(l)|, o + k, key);
    assert forall i :: 0 <= i < |Body(l)| ==> Body(l)[i] == c[o..o + |Body(l)|][i] == c[o + i];
    if MatchAt(c, o + k, key) {
      forall i | 0 <= i < |key| ensures Body(l)[k + i] == key[i] {
        assert c[o + k + i] == key[i];
      }
    }
    if MatchAt(Body(l), k, key) {
      forall i | 0 <= i < |key| ensures c[o + k + i] == key[i] {
        assert Body(l)[k + i] == key[i];
      }
    }
  }

  lemma LineQuiet(c: string, o: nat, l: Line, k: nat)
    requires HasLine(c, o, l) && Plain(l) && k <= |Body(l)| && (k > 0 || l.Other?)
    ensures NoKeyAt(c, o + k)
  {
    LineMatch(c, o, l, k, "addr:");
    LineMatch(c, o, l, k, "port:");
    LineMatch(c, o, l, k, "path:");
    BodyHasNoInnerKey(l, k);
  }

  lemma {:induction false} QuietScan(c: string, from: nat, to: nat, st: Settings)
    requires from <= to && forall k :: from <= k < to ==> NoKeyAt(c, k)
    ensures ScanTo(c, to, st) == ScanTo(c, from, st)
  {
    if from < to {
      QuietScan(c, from, to - 1, st);
      assert NoKeyAt(c, to - 1);
    }
  }

  lemma ValueRead(value: string, rest: string)
    requires NUL !in value
    ensures CStr(value + ([NUL] + rest)) == value
  {
    assert forall i :: 0 <= i < |value| ==> value[i] in value;
    StrLenIs(value + ([NUL] + rest), |value|);
  }

  lemma LineValue(c: string, o: nat, l: Line)
    requires HasLine(c, o, l) && Plain(l) && !l.Other?
    ensures ValueAt(c, o + 5) == l.value
  {
    var rest := c[o + |Body(l)| + 1..];
    assert c[o + 5..o + |Body(l)|] == c[o..o + |Body(l)|][5..] == l.value;
    assert c[o + 5..] == l.value + ([NUL] + rest);
    ValueRead(l.value, rest);
  }

  lemma LineStart(c: string, o: nat, l: Line, st: Settings)
    requires HasLine(c, o, l) && Plain(l) && !l.Other?
    ensures StepAt(c, o, st) == Says(l, st)
  {
    LineMatch(c, o, l, 0, "addr:");
    LineMatch(c, o, l, 0, "port:");
    LineMatch(c, o, l, 0, "path:");
    assert MatchAt(Body(l), 0, Key(l));
    KeysExclusive(c, o);
    LineValue(c, o, l);
  }

  lemma FirstStep(c: string, o: nat, l: Line, st: Settings)
    requires HasLine(c, o, l) && Plain(l)
    ensures ScanTo(c, o + 1, st) == Says(l, ScanTo(c, o, st))
  {
    var before := ScanTo(c, o, st);
    assert ScanTo(c, o + 1, st) == StepAt(c, o, before);
    if l.Other? {
      LineQuiet(c, o, l, 0);
    } else {
      LineStart(c, o, l, before);
    }
  }

  lemma LineScan(c: string, o: nat, l: Line, st: Settings)
    requires HasLine(c, o, l) && Plain(l)
    ensures ScanTo(c, o + |Body(l)| + 1, st) == Says(l, ScanTo(c, o, st))
  {
    hide ScanTo, Plain, Body, Says;
    var m := |Body(l)|;
    forall k | o < k < o + m + 1 ensures NoKeyAt(c, k) {
      LineQuiet(c, o, l, k - o);
    }
    QuietScan(c, o + 1, o + m + 1, st);
    FirstStep(c, o, l, st);
  }

  lemma NoMatchAtNul(c: string, i: nat)
    requires i < |c| && c[i] == NUL
    ensures NoKeyAt(c, i)
  {
    MatchWithin(c, i, i, "addr:");
    MatchWithin(c, i, i, "port:");
    MatchWithin(c, i, i, "path:");
  }

  lemma OneMoreLine(before: string, l: Line, m: nat, rest: string, st: Settings)
    requires Plain(l) && m > 0
    ensures var c := before + (Body(l) + Nuls(m) + rest);
            ScanTo(c, |before| + |Body(l)| + m, st) == Says(l, ScanTo(c, |before|, st))
  {
    hide Plain, Body, Says, ScanTo, NoKeyAt;
    var c := before + (Body(l) + Nuls(m) + rest);
    var o := |before| + |Body(l)|;
    assert c[|before|..o] == Body(l) && c[o] == NUL;
    LineScan(c, |before|, l, st);
    forall k | o + 1 <= k < o + m ensures NoKeyAt(c, k) {
      assert c[k] == Nuls(m)[k - o] == NUL;
      NoMatchAtNul(c, k);
    }
    QuietScan(c, o + 1, o + m, st);
  }

  lemma {:induction false} SegmentsScan(ls: seq<Line>, ends: seq<string>, rest: string, st: Settings)
    requires Lines(ls, ends)
    ensures ScanTo(Segments(ls, ends) + rest, |Segments(ls, ends)|, st) == Meaning(ls, st)
  {
    hide Plain, Body, Says, StepAt;
    if ls != [] {
      var n := |ls| - 1;
      assert Lines(ls[..n], ends[..n]) && Ending(ends[n]);
      var before, l, m := Segments(ls[..n], ends[..n]), ls[n], |ends[n]|;
      var tail := Body(l) + Nuls(m) + rest;
      SegmentsScan(ls[..n], ends[..n], tail, st);
      OneMoreLine(before, l, m, rest, st);
      assert Segments(ls, ends) + rest == before + tail;
    }
  }

  predicate IsBreak(x: char) { x == '\n' || x == '\r' || x == '\t' }

  lemma BodyClean(l: Line)
    requires Plain(l)
    ensures forall i :: 0 <= i < |Body(l)| ==> !IsBreak(Body(l)[i]) && Body(l)[i] != NUL
  {
    forall i | 0 <= i < |Body(l)| ensures !IsBreak(Body(l)[i]) && Body(l)[i] != NUL {
      if i >= |Key(l)| { assert Body(l)[i] in l.value; }
    }
  }

  lemma CutConcat(a: string, b: string)
    ensures CutAt(a + b, CLIENT_BREAKS) == CutAt(a, CLIENT_BREAKS) + CutAt(b, CLIENT_BREAKS)
  {
  }

  lemma {:induction false} PrintCut(ls: seq<Line>, ends: seq<string>)
    requires Lines(ls, ends)
    ensures forall i :: 0 <= i < |Print(ls, ends)| ==> Print(ls, ends)[i] != NUL
    ensures CutAt(Print(ls, ends), CLIENT_BREAKS) == Segments(ls, ends)
  {
    if ls != [] {
      var n := |ls| - 1;
      assert Lines(ls[..n], ends[..n]) && Plain(ls[n]) && Ending(ends[n]);
      var before, b, e := Print(ls[..n], ends[..n]), Body(ls[n]), ends[n];
      PrintCut(ls[..n], ends[..n]);
      BodyClean(ls[n]);
      CutConcat(before + b, e);
      CutConcat(before, b);
      assert CutAt(b, CLIENT_BREAKS) == b && CutAt(e, CLIENT_BREAKS) == Nuls(|e|);
    }
  }

  // Scanning undoes printing: for lines in any order and number whose values
  // hold no key, tab or line break, each ended by any string of line feeds,
  // carriage returns and tabs, the client gets what the lines say.
  lemma ScanUndoesPrint(ls: seq<Line>, ends: seq<string>, pad: string, st: Settings)
    requires Lines(ls, ends)
    requires pad != [] && forall i :: 0 <= i < |pad| ==> pad[i] == NUL
    ensures ClientScan(Print(ls, ends) + pad, st) == Meaning(ls, st)
  {
    var text := Print(ls, ends);
    PrintCut(ls, ends);
    CutConcat(text, pad);
    assert CutAt(pad, CLIENT_BREAKS) == pad;
    StrLenIs(text + pad, |text|);
    SegmentsScan(ls, ends, pad, st);
    var c := Segments(ls, ends) + pad;
    if ls != [] {
      assert Ending(ends[|ls| - 1]);
      assert |Segments(ls, ends)| == |text| > 0;
      assert c[|text| - 1] == NUL;
      NoMatchAtNul(c, |text| - 1);
    }
  }

  // The hook gets the same path if every line ends in a line feed first.
  ghost predicate FeedFirst(text: string) {
    && NUL !in text
    && forall i :: 0 <= i < |text| && (text[i] == '\r' || text[i] == '\t') ==> i > 0 && IsBreak(text[i - 1])
  }

  lemma FeedFirstSnoc(before: string, b: string, e: string)
    requires FeedFirst(before) && Ending(e) && e[0] == '\n'
    requires forall i :: 0 <= i < |b| ==> !IsBreak(b[i]) && b[i] != NUL
    ensures FeedFirst(before + b + e)
  {
    var text, o := before + b + e, |before| + |b|;
    forall i | 0 <= i < |text|
      ensures text[i] != NUL
      ensures text[i] == '\r' || text[i] == '\t' ==> i > 0 && IsBreak(text[i - 1])
    {
      if i < |before| {
        assert text[i] == before[i] && before[i] in before;
      } else if i < o {
        assert text[i] == b[i - |before|];
      } else {
        assert text[i] == e[i - o];
        assert i > o ==> text[i - 1] == e[i - 1 - o];
      }
    }
  }

  lemma {:induction false} PrintFeedFirst(ls: seq<Line>, ends: seq<string>)
    requires Lines(ls, ends) && forall i :: 0 <= i < |ends| ==> ends[i][0] == '\n'
    ensures FeedFirst(Print(ls, ends))
  {
    if ls != [] {
      var n := |ls| - 1;
      assert Lines(ls[..n], ends[..n]) && Plain(ls[n]) && Ending(ends[n]);
      var before, b, e := Print(ls[..n], ends[..n]), Body(ls[n]), ends[n];
      PrintFeedFirst(ls[..n], ends[..n]);
      BodyClean(ls[n]);
      FeedFirstSnoc(before, b, e);
    }
  }

  lemma {:induction false} FeedFirstValue(text: string, i: nat)
    requires FeedFirst(text) && 0 < i <= |text| && !IsBreak(text[i - 1])
    ensures '\r' !in Until(text[i..], {'\n'}) && '\t' !in Until(text[i..], {'\n'})
    decreases |text| - i
  {
    if i < |text| && text[i] != '\n' {
      assert text[i..][0] == text[i] && text[i..][1..] == text[i + 1..];
      FeedFirstValue(text, i + 1);
    }
  }

  lemma FeedFirstPath(text: string)
    requires FeedFirst(text)
    ensures '\r' !in HookPath(text) && '\t' !in HookPath(text)
  {
    var k := LastMatch(text, |text|, "path:");
    LastMatchMeans(text, |text|, "path:");
    if k >= 0 {
      assert text[k + 4] == "path:"[4] == ':';
      FeedFirstValue(text, k + 5);
    }
  }

  lemma HookReadsSamePath(ls: seq<Line>, ends: seq<string>, pad: string, st: Settings)
    requires Lines(ls, ends) && forall i :: 0 <= i < |ends| ==> ends[i][0] == '\n'
    requires pad != [] && forall i :: 0 <= i < |pad| ==> pad[i] == NUL
    ensures HookScan(Print(ls, ends) + pad, st.path) == Meaning(ls, st).path
  {
    var text := Print(ls, ends);
    PrintFeedFirst(ls, ends);
    ScanUndoesPrint(ls, ends, pad, st);
    SamePathExactly(text, pad, pad, st);
    FeedFirstPath(text);
    hide Print, ClientScan, HookScan, Meaning, Lines;
  }
}
