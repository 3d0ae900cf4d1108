// The configuration scanner of the client (get_ip_addr in
// src/client/get_message.h) and its copy in the hook (get_path in
// src/hook/hook.c).
module Config {

  import opened CStrings

  // Buffers are zeroed before the read, so a C string ends within them.

  function Take(c: string, n: nat): string { if n <= |c| then c[..n] else c }

  function CStr(c: string): string { Take(c, StrLen(c)) }

  predicate MatchAt(c: string, i: nat, key: string) {
    i + |key| <= |c| && forall k :: 0 <= k < |key| ==> c[i + k] == key[k]
  }

  function ValueAt(c: string, i: nat): string
    requires i <= |c|
  {
    CStr(c[i..])
  }

  // Line breaks become string ends.
  function CutAt(c: string, breaks: set<char>): string {
    seq(|c|, i requires 0 <= i < |c| => if c[i] in breaks then NUL else c[i])
  }

  const CLIENT_BREAKS: set<char> := {'\n', '\r', '\t'}
  const HOOK_BREAKS: set<char> := {'\n'}

  datatype Settings = Settings(ip: string, port: int, path: string)

  // atoi: blanks, one sign, digits.
  const BLANKS: set<char> := {' ', '\t', '\n', '\r', '\U{0B}', '\U{0C}'}

  predicate IsDigit(x: char) { '0' <= x <= '9' }

  function Digits(s: string, acc: int): int {
    if s == [] || !IsDigit(s[0]) then acc
    else Digits(s[1..], 10 * acc + (s[0] as int - '0' as int))
  }

  function Atoi(s: string): int {
    if s == [] then 0
    else if s[0] in BLANKS then Atoi(s[1..])
    else if s[0] == '-' then -Digits(s[1..], 0)
    else if s[0] == '+' then Digits(s[1..], 0)
    else Digits(s, 0)
  }

  // One position of the client's scan: every position is tried, not only line
  // starts, and a later match overwrites an earlier one.
  function StepAt(c: string, i: nat, st: Settings): Settings {
    if MatchAt(c, i, "addr:") then st.(ip := ValueAt(c, i + 5))
    else if MatchAt(c, i, "port:") then st.(port := Atoi(ValueAt(c, i + 5)))
    else if MatchAt(c, i, "path:") then st.(path := ValueAt(c, i + 5))
    else st
  }

  function ScanTo(c: string, n: nat, st: Settings): Settings {
    if n == 0 then st else StepAt(c, n - 1, ScanTo(c, n - 1, st))
  }

  // The hook looks for the path only.
  function PathTo(c: string, n: nat, path: string): string {
    if n == 0 then path
    else if MatchAt(c, n - 1, "path:") then ValueAt(c, n + 4)
    else PathTo(c, n - 1, path)
  }

  // The scans stop before the last character.
  function ScanEnd(n: nat): nat { if n == 0 then 0 else n - 1 }

  // The result of get_ip_addr on a buffer, and of get_path.
  function ClientScan(buf: string, st: Settings): Settings {
    ScanTo(CutAt(buf, CLIENT_BREAKS), ScanEnd(StrLen(buf)), st)
  }

  function HookScan(buf: string, path: string): string {
    PathTo(CutAt(buf, HOOK_BREAKS), ScanEnd(StrLen(buf)), path)
  }

  // Two buffers that agree up to and including a NUL at position j.
  ghost predicate AgreeTo(c: string, d: string, j: nat) {
    j < |c| && j < |d| && c[..j] == d[..j] && c[j] == d[j] == NUL
  }

  lemma CutPrefix(buf: string, c: string, j: nat)
    requires |c| == |buf| && j < |buf| && buf[j] == NUL
    requires forall k :: 0 <= k < |c| ==> c[k] == if k < j && buf[k] in CLIENT_BREAKS then NUL else buf[k]
    ensures AgreeTo(c, CutAt(buf, CLIENT_BREAKS), j)
  {
  }

  // The first loop of get_ip_addr, in place.
  method CutLines(c: array<char>, j: nat)
    requires j == StrLen(c[..]) < c.Length
    modifies c
    ensures AgreeTo(c[..], CutAt(old(c[..]), CLIENT_BREAKS), j)
  {
    ghost var buf := c[..];
    StrLenMeans(buf);
    var i := 0;
    while i < j
      invariant 0 <= i <= j
      invariant forall k :: 0 <= k < c.Length ==>
                  c[k] == if k < i && buf[k] in CLIENT_BREAKS then NUL else buf[k]
    {
      if c[i] == '\n' || c[i] == '\r' || c[i] == '\t' {
        c[i] := NUL;
      }
      i := i + 1;
    }
    CutPrefix(buf, c[..], j);
  }

  // The second loop, on the cut buffer.
  method ScanLines(c: string, j: nat, ip0: string, port0: int, path0: string)
    returns (ip: string, port: int, path: string)
    requires j <= |c|
    ensures Settings(ip, port, path) == ScanTo(c, ScanEnd(j), Settings(ip0, port0, path0))
  {
    ip, port, path := ip0, port0, path0;
    var i := 0;
    while i < j - 1
      invariant 0 <= i <= ScanEnd(j)
      invariant Settings(ip, port, path) == ScanTo(c, i, Settings(ip0, port0, path0))
    {
      if MatchAt(c, i, "addr:") {
        ip := ValueAt(c, i + 5);
      } else if MatchAt(c, i, "port:") {
        port := Atoi(ValueAt(c, i + 5));
      } else if MatchAt(c, i, "path:") {
        path := ValueAt(c, i + 5);
      }
      i := i + 1;
    }
  }

  lemma MatchWithin(c: string, j: nat, i: nat, key: string)
    requires j < |c| && c[j] == NUL && i <= j && NUL !in key
    ensures MatchAt(c, i, key) ==> i + |key| <= j
  {
    var k := j - i;
    assert k < |key| ==> key[k] != NUL;
  }

  lemma SameMatch(c: string, d: string, j: nat, i: nat, key: string)
    requires AgreeTo(c, d, j) && i < j && NUL !in key
    ensures MatchAt(c, i, key) <==> MatchAt(d, i, key)
    ensures MatchAt(c, i, key) ==> i + |key| <= j
  {
    MatchWithin(c, j, i, key);
    MatchWithin(d, j, i, key);
    assert forall m :: 0 <= m < j ==> c[m] == c[..j][m] == d[..j][m] == d[m];
  }

  lemma SameValue(c: string, d: string, j: nat, i: nat)
    requires AgreeTo(c, d, j) && i <= j
    ensures ValueAt(c, i) == ValueAt(d, i)
  {
    assert c[i..][..j - i] == c[..j][i..] == d[..j][i..] == d[i..][..j - i];
    StrLenMeans(c[i..]);
    var n := StrLen(c[i..]);
    assert n <= j - i by { assert c[i..][j - i] == NUL; }
    assert forall k :: 0 <= k <= n ==> c[i..][k] == d[i..][k] by {
      forall k | 0 <= k <= n ensures c[i..][k] == d[i..][k] {
        if k < j - i { assert c[i..][..j - i][k] == d[i..][..j - i][k]; }
      }
    }
    StrLenIs(d[i..], n);
    assert c[i..][..n] == d[i..][..n];
  }

  lemma SameStep(c: string, d: string, j: nat, i: nat, st: Settings)
    requires AgreeTo(c, d, j) && i < j
    ensures StepAt(c, i, st) == StepAt(d, i, st)
  {
    SameMatch(c, d, j, i, "addr:");
    SameMatch(c, d, j, i, "port:");
    SameMatch(c, d, j, i, "path:");
    if i + 5 <= j {
      SameValue(c, d, j, i + 5);
    }
  }

  lemma {:induction false} SameUpTo(c: string, d: string, j: nat, n: nat, st: Settings)
    requires AgreeTo(c, d, j) && n <= j
    ensures ScanTo(c, n, st) == ScanTo(d, n, st)
  {
    hide StepAt, AgreeTo;
    if n > 0 {
      SameUpTo(c, d, j, n - 1, st);
      SameStep(c, d, j, n - 1, ScanTo(c, n - 1, st));
    }
  }

  // Positions from the first NUL on do not matter to the scan before it.

  lemma MatchStarts(c: string, i: nat, key: string)
    requires |key| >= 2
    ensures MatchAt(c, i, key) ==> c[i] == key[0] && c[i + 1] == key[1]
  {
    assert MatchAt(c, i, key) ==> c[i + 0] == key[0] && c[i + 1] == key[1];
  }

  lemma KeysExclusive(c: string, i: nat)
    ensures MatchAt(c, i, "path:") ==> !MatchAt(c, i, "addr:") && !MatchAt(c, i, "port:")
    ensures MatchAt(c, i, "port:") ==> !MatchAt(c, i, "addr:")
  {
    MatchStarts(c, i, "path:");
    MatchStarts(c, i, "addr:");
    MatchStarts(c, i, "port:");
  }

  lemma {:induction false} PathOfScan(c: string, n: nat, st: Settings)
    ensures ScanTo(c, n, st).path == PathTo(c, n, st.path)
  {
    if n > 0 {
      PathOfScan(c, n - 1, st);
      KeysExclusive(c, n - 1);
    }
  }

  // The result without the scan: for each key its last occurrence in the text,
  // and what follows it up to the first of the stops.

  function LastMatch(c: string, n: nat, key: string): int {
    if n == 0 then -1 else if MatchAt(c, n - 1, key) then n - 1 else LastMatch(c, n - 1, key)
  }

  lemma {:induction false} LastMatchMeans(c: string, n: nat, key: string)
    ensures var k := LastMatch(c, n, key);
            && -1 <= k < n && (k >= 0 ==> MatchAt(c, k, key))
            && forall i :: 0 <= k < i < n || k < 0 <= i < n ==> !MatchAt(c, i, key)
  {
    if n > 0 {
      LastMatchMeans(c, n - 1, key);
    }
  }

  function Until(s: string, stops: set<char>): string {
    if s == [] || s[0] in stops then [] else [s[0]] + Until(s[1..], stops)
  }

  lemma {:induction false} UntilMeans(s: string, stops: set<char>)
    ensures var v := Until(s, stops);
            && v <= s && (forall i :: 0 <= i < |v| ==> v[i] !in stops)
            && (|v| < |s| ==> s[|v|] in stops)
  {
    if s != [] && s[0] !in stops {
      UntilMeans(s[1..], stops);
    }
  }

  lemma {:induction false} UntilIs(s: string, stops: set<char>, n: nat)
    requires n <= |s| && (forall i :: 0 <= i < n ==> s[i] !in stops) && (n < |s| ==> s[n] in stops)
    ensures Until(s, stops) == s[..n]
  {
    if n > 0 {
      UntilIs(s[1..], stops, n - 1);
      assert s[..n] == [s[0]] + s[1..][..n - 1];
    }
  }

  function Found(text: string, key: string, otherwise: string, stops: set<char>): string
    requires |key| == 5
  {
    var k := LastMatch(text, |text|, key);
    LastMatchMeans(text, |text|, key);
    if k < 0 then otherwise else Until(text[k + 5..], stops)
  }

  // The scan on the cut buffer in terms of last occurrences.
  function LastValue(c: string, n: nat, key: string, otherwise: string): string {
    var k := LastMatch(c, n, key);
    if 0 <= k <= |c| - 5 then ValueAt(c, k + 5) else otherwise
  }

  lemma {:induction false} IpByKey(c: string, n: nat, st: Settings)
    ensures ScanTo(c, n, st).ip == LastValue(c, n, "addr:", st.ip)
  {
    hide ValueAt, Atoi;
    if n > 0 {
      IpByKey(c, n - 1, st);
      KeysExclusive(c, n - 1);
    }
  }

  lemma {:induction false} PortByKey(c: string, n: nat, st: Settings)
    ensures ScanTo(c, n, st).port ==
            if LastMatch(c, n, "port:") < 0 then st.port else Atoi(LastValue(c, n, "port:", ""))
  {
    hide ValueAt, Atoi;
    if n > 0 {
      PortByKey(c, n - 1, st);
      KeysExclusive(c, n - 1);
    }
  }

  lemma {:induction false} PathByKey(c: string, n: nat, path: string)
    ensures PathTo(c, n, path) == LastValue(c, n, "path:", path)
  {
    hide ValueAt;
    if n > 0 {
      PathByKey(c, n - 1, path);
    }
  }

  // The cut keeps keys and ends values.

  ghost predicate IsKey(key: string) { key == "addr:" || key == "port:" || key == "path:" }

  lemma MatchCut(text: string, pad: string, breaks: set<char>, i: nat, key: string)
    requires NUL !in text && pad != [] && pad[0] == NUL && IsKey(key) && i < |text|
    requires breaks <= {'\n', '\r', '\t'}
    ensures MatchAt(CutAt(text + pad, breaks), i, key) <==> MatchAt(text, i, key)
  {
    var c := CutAt(text + pad, breaks);
    MatchWithin(c, |text|, i, key);
    assert forall k :: 0 <= k < |key| ==> key[k] !in breaks && key[k] != NUL;
    if i + |key| <= |text| {
      forall k | 0 <= k < |key|
        ensures c[i + k] == key[k] <==> text[i + k] == key[k]
      {
        assert text[i + k] in text;
      }
    }
  }

  lemma {:induction false} LastMatchCut(text: string, pad: string, breaks: set<char>, n: nat, key: string)
    requires NUL !in text && pad != [] && pad[0] == NUL && IsKey(key) && n <= |text|
    requires breaks <= {'\n', '\r', '\t'}
    ensures LastMatch(CutAt(text + pad, breaks), n, key) == LastMatch(text, n, key)
  {
    if n > 0 {
      MatchCut(text, pad, breaks, n - 1, key);
      LastMatchCut(text, pad, breaks, n - 1, key);
    }
  }

  lemma NoMatchAtEnd(text: string, key: string)
    requires IsKey(key)
    ensures LastMatch(text, ScanEnd(|text|), key) == LastMatch(text, |text|, key)
  {
  }

  lemma ValueCut(text: string, pad: string, breaks: set<char>, i: nat)
    requires NUL !in text && pad != [] && pad[0] == NUL && i <= |text|
    ensures ValueAt(CutAt(text + pad, breaks), i) == Until(text[i..], breaks)
  {
    var c, s := CutAt(text + pad, breaks), text[i..];
    var v := Until(s, breaks);
    UntilMeans(s, breaks);
    assert forall k :: 0 <= k < |s| ==> s[k] == text[i + k] && text[i + k] in text;
    assert forall k :: 0 <= k < |s| ==> c[i..][k] == if s[k] in breaks then NUL else s[k];
    assert c[i..][|s|] == NUL;
    StrLenIs(c[i..], |v|);
    assert c[i..][..|v|] == v;
  }

  lemma FoundInCut(text: string, pad: string, breaks: set<char>, key: string, otherwise: string)
    requires NUL !in text && pad != [] && pad[0] == NUL && IsKey(key) && breaks <= {'\n', '\r', '\t'}
    ensures LastValue(CutAt(text + pad, breaks), ScanEnd(|text|), key, otherwise) ==
            Found(text, key, otherwise, breaks)
  {
    LastMatchMeans(text, |text|, key);
    LastMatchCut(text, pad, breaks, ScanEnd(|text|), key);
    NoMatchAtEnd(text, key);
    var k := LastMatch(text, |text|, key);
    if k >= 0 {
      ValueCut(text, pad, breaks, k + 5);
    }
  }

  lemma TextLength(text: string, pad: string)
    requires NUL !in text && pad != [] && pad[0] == NUL
    ensures StrLen(text + pad) == |text|
  {
    assert forall i :: 0 <= i < |text| ==> text[i] in text;
    StrLenIs(text + pad, |text|);
  }

  // For every file text in a buffer: what the client reads and what the hook
  // reads.  The client ends a value at the first line feed, carriage return or
  // tab, the hook at the first line feed only.
  lemma ClientExactly(text: string, pad: string, st: Settings)
    requires NUL !in text && pad != [] && pad[0] == NUL
    ensures var r := ClientScan(text + pad, st);
            && r.ip == Found(text, "addr:", st.ip, {'\n', '\r', '\t'})
            && r.path == Found(text, "path:", st.path, {'\n', '\r', '\t'})
            && r.port == if LastMatch(text, |text|, "port:") < 0 then st.port
                         else Atoi(Found(text, "port:", "", {'\n', '\r', '\t'}))
  {
    TextLength(text, pad);
    var c, n := CutAt(text + pad, CLIENT_BREAKS), ScanEnd(|text|);
    IpByKey(c, n, st);
    PortByKey(c, n, st);
    PathOfScan(c, n, st);
    PathByKey(c, n, st.path);
    FoundInCut(text, pad, CLIENT_BREAKS, "addr:", st.ip);
    FoundInCut(text, pad, CLIENT_BREAKS, "path:", st.path);
    FoundInCut(text, pad, CLIENT_BREAKS, "port:", "");
    LastMatchCut(text, pad, CLIENT_BREAKS, ScanEnd(|text|), "port:");
    NoMatchAtEnd(text, "port:");
    hide LastMatch, LastValue, Found, ScanTo, PathTo, CutAt, Atoi;
  }

  lemma HookExactly(text: string, pad: string, path: string)
    requires NUL !in text && pad != [] && pad[0] == NUL
    ensures HookScan(text + pad, path) == Found(text, "path:", path, {'\n'})
  {
    TextLength(text, pad);
    PathByKey(CutAt(text + pad, HOOK_BREAKS), ScanEnd(|text|), path);
    FoundInCut(text, pad, HOOK_BREAKS, "path:", path);
  }

  // get_ip_addr after the read.
  method GetIpAddr(c: array<char>, ip0: string, port0: int, path0: string)
    returns (ip: string, port: int, path: string)
    requires StrLen(c[..]) < c.Length
    modifies c
    ensures Settings(ip, port, path) == ClientScan(old(c[..]), Settings(ip0, port0, path0))
    ensures var text := old(c[..])[..StrLen(old(c[..]))];
            && ip == Found(text, "addr:", ip0, {'\n', '\r', '\t'})
            && path == Found(text, "path:", path0, {'\n', '\r', '\t'})
            && port == if LastMatch(text, |text|, "port:") < 0 then port0
                       else Atoi(Found(text, "port:", "", {'\n', '\r', '\t'}))
  {
    StrLenMeans(c[..]);
    ghost var text, pad := c[..][..StrLen(c[..])], c[..][StrLen(c[..])..];
    assert c[..] == text + pad;
    ClientExactly(text, pad, Settings(ip0, port0, path0));
    ghost var cut := CutAt(c[..], CLIENT_BREAKS);
    var j := StrLen(c[..]);
    CutLines(c, j);
    ip, port, path := ScanLines(c[..], j, ip0, port0, path0);
    SameUpTo(c[..], cut, j, ScanEnd(j), Settings(ip0, port0, path0));
  }

  lemma {:induction false} UntilSooner(s: string, few: set<char>, many: set<char>)
    requires few <= many
    ensures var short, long := Until(s, many), Until(s, few);
            short <= long && (short == long <==> forall i :: 0 <= i < |long| ==> long[i] !in many)
  {
    if s != [] && s[0] !in few {
      UntilSooner(s[1..], few, many);
      var short, long := Until(s[1..], many), Until(s[1..], few);
      assert Until(s, few) == [s[0]] + long;
      assert forall i :: 0 <= i < |long| ==> long[i] == Until(s, few)[i + 1];
      if s[0] in many {
        assert Until(s, few)[0] in many;
      } else {
        assert Until(s, many) == [s[0]] + short;
        assert short == ([s[0]] + short)[1..] && long == ([s[0]] + long)[1..];
      }
    }
  }

  lemma TwoStops(s: string)
    ensures var client, hook := Until(s, {'\n', '\r', '\t'}), Until(s, {'\n'});
            client <= hook && (client == hook <==> '\r' !in hook && '\t' !in hook)
  {
    UntilSooner(s, {'\n'}, {'\n', '\r', '\t'});
    UntilMeans(s, {'\n'});
  }

  lemma BothPaths(text: string, clientPad: string, hookPad: string, st: Settings)
    requires NUL !in text
    requires clientPad != [] && hookPad != [] && clientPad[0] == hookPad[0] == NUL
    ensures ClientScan(text + clientPad, st).path == Found(text, "path:", st.path, {'\n', '\r', '\t'})
    ensures HookScan(text + hookPad, st.path) == Found(text, "path:", st.path, {'\n'})
  {
    hide *;
    ClientExactly(text, clientPad, st);
    HookExactly(text, hookPad, st.path);
  }

  // The hook's reading of the path on its own.
  function HookPath(text: string): string {
    var k := LastMatch(text, |text|, "path:");
    if 0 <= k <= |text| - 5 then Until(text[k + 5..], {'\n'}) else ""
  }

  lemma FoundPaths(text: string, path: string)
    ensures var client, hook := Found(text, "path:", path, {'\n', '\r', '\t'}), Found(text, "path:", path, {'\n'});
            client <= hook && (client == hook <==> '\r' !in HookPath(text) && '\t' !in HookPath(text))
  {
    var k := LastMatch(text, |text|, "path:");
    LastMatchMeans(text, |text|, "path:");
    if k >= 0 {
      TwoStops(text[k + 5..]);
    }
  }

  // Exactly when client and hook get the same path: what stands between the last
  // "path:" and the next line feed has neither carriage return nor tab.  The
  // client's path is always a prefix of the hook's.
  lemma SamePathExactly(text: string, clientPad: string, hookPad: string, st: Settings)
    requires NUL !in text
    requires clientPad != [] && hookPad != [] && clientPad[0] == hookPad[0] == NUL
    ensures var client, hook := ClientScan(text + clientPad, st).path, HookScan(text + hookPad, st.path);
            client <= hook && (client == hook <==> '\r' !in HookPath(text) && '\t' !in HookPath(text))
  {
    hide *;
    BothPaths(text, clientPad, hookPad, st);
    FoundPaths(text, st.path);
  }

  lemma HookPathWithin(text: string)
    ensures forall x :: x in HookPath(text) ==> x in text
  {
    var k := LastMatch(text, |text|, "path:");
    if 0 <= k <= |text| - 5 {
      UntilMeans(text[k + 5..], {'\n'});
      assert forall x :: x in text[k + 5..] ==> x in text;
    }
  }

  // So they do for every text without tab and carriage return.
  lemma SamePath(text: string, clientPad: string, hookPad: string, st: Settings)
    requires NUL !in text && '\r' !in text && '\t' !in text
    requires clientPad != [] && hookPad != [] && clientPad[0] == hookPad[0] == NUL
    ensures ClientScan(text + clientPad, st).path == HookScan(text + hookPad, st.path)
  {
    SamePathExactly(text, clientPad, hookPad, st);
    HookPathWithin(text);
  }

  // With lines that end in "\r\n", as in the repository's own etc/init.conf, the
  // hook's path is the client's followed by a carriage return.
  ghost predicate CrLf(text: string) {
    && '\t' !in text
    && (forall i :: 0 <= i < |text| && text[i] == '\r' ==> i + 1 < |text| && text[i + 1] == '\n')
    && (forall i :: 0 <= i < |text| && text[i] == '\n' ==> i > 0 && text[i - 1] == '\r')
    && (text != [] ==> text[|text| - 1] == '\n')
  }

  lemma {:induction false} CrLfValue(text: string, i: nat)
    requires CrLf(text) && 0 < i <= |text| && text[i - 1] != '\r' && text[i - 1] != '\n'
    ensures Until(text[i..], {'\n'}) == Until(text[i..], {'\n', '\r', '\t'}) + "\r"
    decreases |text| - i
  {
    assert i < |text| && text[i] != '\n' && text[i] in text;
    var s := text[i..];
    assert s[0] == text[i] && s[1..] == text[i + 1..];
    if text[i] == '\r' {
      assert s[1..][0] == '\n';
      assert Until(s[1..], {'\n'}) == [];
    } else {
      CrLfValue(text, i + 1);
    }
  }

  lemma CrLfFound(text: string, path: string)
    requires CrLf(text)
    ensures var client, hook := Found(text, "path:", path, {'\n', '\r', '\t'}), Found(text, "path:", path, {'\n'});
            hook == if LastMatch(text, |text|, "path:") < 0 then client else client + "\r"
  {
    var k := LastMatch(text, |text|, "path:");
    LastMatchMeans(text, |text|, "path:");
    if k >= 0 {
      assert text[k + 4] == "path:"[4] == ':';
      CrLfValue(text, k + 5);
    }
  }

  lemma CrLfPaths(text: string, clientPad: string, hookPad: string, st: Settings)
    requires NUL !in text && CrLf(text)
    requires clientPad != [] && hookPad != [] && clientPad[0] == hookPad[0] == NUL
    ensures var client, hook := ClientScan(text + clientPad, st).path, HookScan(text + hookPad, st.path);
            hook == if LastMatch(text, |text|, "path:") < 0 then client else client + "\r"
  {
    BothPaths(text, clientPad, hookPad, st);
    CrLfFound(text, st.path);
    hide ClientScan, HookScan, Found, LastMatch, CrLf;
  }

  // A port printed in decimal is read back.

  function Decimal(n: nat): string {
    var d := ('0' as int + n % 10) as char;
    if n < 10 then [d] else Decimal(n / 10) + [d]
  }

  lemma {:induction false} DigitsSnoc(s: string, d: char, acc: int)
    requires IsDigit(d) && forall i :: 0 <= i < |s| ==> IsDigit(s[i])
    ensures Digits(s + [d], acc) == 10 * Digits(s, acc) + (d as int - '0' as int)
  {
    if s == [] {
      assert ([d])[1..] == [];
      assert s + [d] == [d];
    } else {
      assert (s + [d])[1..] == s[1..] + [d];
      DigitsSnoc(s[1..], d, 10 * acc + (s[0] as int - '0' as int));
    }
  }

  lemma {:induction false} AtoiDecimal(n: nat)
    ensures |Decimal(n)| > 0 && forall i :: 0 <= i < |Decimal(n)| ==> IsDigit(Decimal(n)[i])
    ensures Digits(Decimal(n), 0) == n && Atoi(Decimal(n)) == n
  {
    var d := ('0' as int + n % 10) as char;
    if n < 10 {
      assert [d][1..] == [];
    } else {
      AtoiDecimal(n / 10);
      DigitsSnoc(Decimal(n / 10), d, 0);
    }
  }

  // atoi in general: blanks, at most one sign, a number in decimal, and anything
  // that does not begin with a digit.
  lemma {:induction false} DigitsStop(s: string, rest: string, acc: int)
    requires (forall i :: 0 <= i < |s| ==> IsDigit(s[i])) && (rest != "" ==> !IsDigit(rest[0]))
    ensures Digits(s + rest, acc) == Digits(s, acc)
  {
    if s == "" {
      assert s + rest == rest;
    } else {
      assert (s + rest)[1..] == s[1..] + rest;
      DigitsStop(s[1..], rest, 10 * acc + (s[0] as int - '0' as int));
    }
  }

  lemma {:induction false} AtoiReads(blanks: string, sign: string, n: nat, rest: string)
    requires forall i :: 0 <= i < |blanks| ==> blanks[i] in {' ', '\t', '\n', '\r', '\U{0B}', '\U{0C}'}
    requires sign in ["", "+", "-"] && (rest != "" ==> !IsDigit(rest[0]))
    ensures Atoi(blanks + (sign + (Decimal(n) + rest))) == if sign == "-" then -(n as int) else n as int
  {
    var tail := Decimal(n) + rest;
    if blanks != "" {
      AtoiReads(blanks[1..], sign, n, rest);
      assert (blanks + (sign + tail))[1..] == blanks[1..] + (sign + tail);
    } else {
      AtoiDecimal(n);
      DigitsStop(Decimal(n), rest, 0);
      assert tail[0] == Decimal(n)[0] && IsDigit(tail[0]);
      assert blanks + (sign + tail) == sign + tail;
      assert sign != "" ==> (sign + tail)[1..] == tail;
      assert sign == "" ==> sign + tail == tail;
    }
  }
}
