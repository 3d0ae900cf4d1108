// The server's file store under the backup and recover requests of all clients
// (monitor::backup and monitor::recover in src/server/monitor/monitor.cpp).
module Server {
  import opened Bytes
  import opened Names
  import CStrings
  import Split
  import Store
  import Recovery

  type Files = map<string, Data>

  // Requests arrive decoded; the socket framing is not modelled.
  datatype Request = Request(mac: string, name: string, block: Split.Block)

  ghost predicate ValidRequest(r: Request) {
    ValidMac(r.mac) && ValidName(r.name) && Store.WellFormed(r.block)
  }

  function Stored(files: Files, path: string): Data {
    if path in files then files[path] else []
  }

  function ApplyBackup(files: Files, r: Request): Files
    requires Store.WellFormed(r.block)
  {
    var path := Path(r.mac, r.name);
    files[path := Store.WriteAt(Stored(files, path), r.block.left, Store.Payload(r.block))]
  }

  ghost predicate AllValid(rs: seq<Request>) { forall i :: 0 <= i < |rs| ==> ValidRequest(rs[i]) }

  ghost function ApplyAll(files: Files, rs: seq<Request>): Files
    requires AllValid(rs)
  {
    if rs == [] then files
    else ApplyBackup(ApplyAll(files, rs[..|rs| - 1]), rs[|rs| - 1])
  }

  // The blocks that arrived at the path of a file, and those of them that were
  // sent under its own name.
  function BlocksAt(rs: seq<Request>, mac: string, name: string): seq<Split.Block> {
    if rs == [] then []
    else
      var r := rs[|rs| - 1];
      BlocksAt(rs[..|rs| - 1], mac, name) + if r.mac == mac && SameEscape(r.name, name) then [r.block] else []
  }

  function BlocksOf(rs: seq<Request>, mac: string, name: string): seq<Split.Block> {
    if rs == [] then []
    else
      var r := rs[|rs| - 1];
      BlocksOf(rs[..|rs| - 1], mac, name) + if r.mac == mac && r.name == name then [r.block] else []
  }

  lemma OneMore(files: Files, p: Data, bs: seq<Split.Block>, r: Request, mac: string, name: string)
    requires ValidRequest(r) && ValidMac(mac)
    requires Store.AllWellFormed(bs) && Stored(files, Path(mac, name)) == Store.StoreAll(p, bs)
    ensures var cs := bs + if r.mac == mac && SameEscape(r.name, name) then [r.block] else [];
            && Store.AllWellFormed(cs)
            && Stored(ApplyBackup(files, r), Path(mac, name)) == Store.StoreAll(p, cs)
  {
    PathsExactly(mac, name, r.mac, r.name);
    SameEscapeSymmetric(r.name, name);
    if r.mac == mac && SameEscape(r.name, name) {
      assert (bs + [r.block])[..|bs|] == bs;
    } else {
      assert bs + [] == bs;
    }
  }

  // Exactly which blocks shape a stored file, in any interleaving of the requests
  // of all clients: those of the same client whose name differs at most in '/'
  // against '@'.
  lemma {:induction false} FileShaped(files: Files, rs: seq<Request>, mac: string, name: string)
    requires AllValid(rs) && ValidMac(mac)
    ensures Store.AllWellFormed(BlocksAt(rs, mac, name))
    ensures Stored(ApplyAll(files, rs), Path(mac, name)) ==
            Store.StoreAll(Stored(files, Path(mac, name)), BlocksAt(rs, mac, name))
  {
    if rs != [] {
      var n := |rs| - 1;
      FileShaped(files, rs[..n], mac, name);
      OneMore(ApplyAll(files, rs[..n]), Stored(files, Path(mac, name)), BlocksAt(rs[..n], mac, name), rs[n], mac, name);
    }
  }

  // Isolation: a file is touched by its own blocks only, if the same client has
  // backed up no other file at its path.
  ghost predicate AloneAtPath(rs: seq<Request>, mac: string, name: string) {
    forall i :: 0 <= i < |rs| && rs[i].mac == mac && SameEscape(rs[i].name, name) ==> rs[i].name == name
  }

  lemma {:induction false} OwnBlocks(rs: seq<Request>, mac: string, name: string)
    requires AloneAtPath(rs, mac, name)
    ensures BlocksAt(rs, mac, name) == BlocksOf(rs, mac, name)
  {
    if rs != [] {
      var n := |rs| - 1;
      OwnBlocks(rs[..n], mac, name);
      assert SameEscape(name, name);
    }
  }

  lemma FilesIsolated(files: Files, rs: seq<Request>, mac: string, name: string)
    requires AllValid(rs) && ValidMac(mac) && AloneAtPath(rs, mac, name)
    ensures Store.AllWellFormed(BlocksOf(rs, mac, name))
    ensures Stored(ApplyAll(files, rs), Path(mac, name)) ==
            Store.StoreAll(Stored(files, Path(mac, name)), BlocksOf(rs, mac, name))
  {
    FileShaped(files, rs, mac, name);
    OwnBlocks(rs, mac, name);
  }

  // That covers every store whose names hold no '@'.
  lemma NoAtSignAlone(rs: seq<Request>, mac: string, name: string)
    requires '@' !in name && forall i :: 0 <= i < |rs| ==> '@' !in rs[i].name
    ensures AloneAtPath(rs, mac, name)
  {
    forall i | 0 <= i < |rs| && SameEscape(rs[i].name, name)
      ensures rs[i].name == name
    {
      NoAtSignSame(rs[i].name, name);
    }
  }

  lemma OverEmpty(x: Data, y: Data)
    ensures Store.WriteAt(Store.WriteAt([], 0, x), 0, y) == Store.Overlay(y, x)
  {
    assert Store.WriteAt([], 0, x) == x;
    assert y != [] ==> x[..0] + y == y;
  }

  // Otherwise two files of one client can share a stored file: a backup of the
  // second over a complete one of the first replaces its bytes.
  lemma SharedPathOverwrites(files: Files, first: Request, second: Request)
    requires ValidRequest(first) && ValidRequest(second) && first.mac == second.mac
    requires SameEscape(first.name, second.name) && first.block.left == second.block.left == 0
    requires Stored(files, Path(first.mac, first.name)) == []
    ensures var x, y := Store.Payload(first.block), Store.Payload(second.block);
            Stored(ApplyAll(files, [first, second]), Path(first.mac, first.name)) == Store.Overlay(y, x)
  {
    var path := Path(first.mac, first.name);
    PathsExactly(first.mac, first.name, second.mac, second.name);
    assert [first, second][..1] == [first] && [first][..0] == [];
    var before := ApplyBackup(files, first);
    assert ApplyAll(files, [first]) == before by { assert ApplyAll(files, []) == files; }
    assert ApplyAll(files, [first, second]) == ApplyBackup(before, second);
    OverEmpty(Store.Payload(first.block), Store.Payload(second.block));
    hide Store.WriteAt, Store.Overlay, Path, ApplyAll;
    assert Stored(before, path) == Store.WriteAt([], 0, Store.Payload(first.block));
  }

  lemma HeldText(buf: string, text: string)
    requires Holds(buf, text)
    ensures CStrings.StrLen(buf) == |text| && buf[..CStrings.StrLen(buf)] == text
  {
    assert forall i :: 0 <= i < |text| ==> buf[i] == buf[..|text|][i];
    CStrings.StrLenIs(buf, |text|);
  }

  lemma BuiltLength(buf: string, mac: string, name: string)
    requires ValidMac(mac) && ValidName(name) && |buf| == 512
    ensures var b := CopyMac(buf, mac);
            && CStrings.StrLen(b) + 1 < |b| && CStrings.StrLen(Strcat(b, "/")) + |name| < |Strcat(b, "/")|
            && |Strcat(Strcat(b, "/"), Escape(name))| == 512
  {
    PathBuilt(buf, mac, name);
  }

  // One connection's monitor.  Its path buffer keeps whatever earlier requests
  // left in it.
  class Monitor {
    var files: Files
    var pathBuf: string

    ghost predicate Valid()
      reads this
    {
      |pathBuf| == 512
    }

    constructor (files: Files)
      ensures Valid() && this.files == files
    {
      this.files := files;
      pathBuf := seq(512, i => CStrings.NUL);
    }

    method BuildPath(mac: string, name: string) returns (path: string)
      requires Valid() && ValidMac(mac) && ValidName(name)
      modifies this`pathBuf
      ensures Valid() && path == Path(mac, name) && FlatPath(path, mac, name)
    {
      PathIsFlat(mac, name);
      PathBuilt(pathBuf, mac, name);
      ghost var before := pathBuf;
      pathBuf := CopyMac(pathBuf, mac);
      pathBuf := Strcat(pathBuf, "/");
      pathBuf := Strcat(pathBuf, Escape(name));
      HeldText(pathBuf, Path(mac, name));
      BuiltLength(before, mac, name);
      path := pathBuf[..CStrings.StrLen(pathBuf)];
    }

    method Backup(r: Request)
      requires Valid() && ValidRequest(r)
      modifies this
      ensures Valid() && files == ApplyBackup(old(files), r)
      ensures files.Keys == old(files).Keys + {Path(r.mac, r.name)}
      ensures forall other :: other in old(files) && other != Path(r.mac, r.name) ==> files[other] == old(files)[other]
    {
      hide FlatPath, Path, ValidMac, ValidName, Store.WriteAt;
      var path := BuildPath(r.mac, r.name);
      if path !in files {
        files := files[path := []];
      }
      var written := Store.Backup(files[path], r.block);
      Store.WriteUnique(files[path], r.block, written);
      files := files[path := written];
      assert files == ApplyBackup(old(files), r);
    }

    // On a missing file read() fails for ever and the send loop never ends; what
    // is returned then is what it has sent after `watched` rounds.
    method Recover(mac: string, name: string, watched: nat) returns (sent: seq<Recovery.Packet>, ends: bool)
      requires Valid() && ValidMac(mac) && ValidName(name)
      modifies this`pathBuf
      ensures Valid() && (ends <==> Path(mac, name) in files)
      ensures ends ==> sent == Recovery.Packets(SentName(name, 1), files[Path(mac, name)])
      ensures !ends ==> sent == Recovery.EmptyPackets(SentName(name, 1), watched)
    {
      var path := BuildPath(mac, name);
      SentNameSettles(name, 1);
      if path in files {
        sent := Recovery.Recover(Unescape(Escape(name)), files[path]);
        return sent, true;
      }
      return Recovery.EmptyPackets(Unescape(Escape(name)), watched), false;
    }
  }

  // The loop of process() over the messages of one connection: a backup for
  // sign 0, a recovery for sign 1, nothing for any other sign.
  datatype Message = Message(sign: int, request: Request)

  ghost predicate AllOk(ms: seq<Message>) { forall i :: 0 <= i < |ms| ==> ValidRequest(ms[i].request) }

  // The store after the messages, and what was streamed back meanwhile: each
  // recovery sends the file as the backups before it left it.
  ghost function After(files: Files, ms: seq<Message>): Files
    requires AllOk(ms)
  {
    if ms == [] then files
    else
      var n := |ms| - 1;
      var before := After(files, ms[..n]);
      if ms[n].sign == 0 then ApplyBackup(before, ms[n].request) else before
  }

  function Reply(files: Files, m: Message): seq<Recovery.Packet> {
    if m.sign == 1
    then Recovery.Packets(SentName(m.request.name, 1), Stored(files, Path(m.request.mac, m.request.name)))
    else []
  }

  ghost function Replies(files: Files, ms: seq<Message>): seq<Recovery.Packet>
    requires AllOk(ms)
  {
    if ms == [] then []
    else
      var n := |ms| - 1;
      Replies(files, ms[..n]) + Reply(After(files, ms[..n]), ms[n])
  }

  lemma ReplyOf(files: Files, m: Message)
    ensures m.sign != 1 ==> Reply(files, m) == []
    ensures m.sign == 1 && Path(m.request.mac, m.request.name) in files ==>
              Reply(files, m) ==
              Recovery.Packets(SentName(m.request.name, 1), files[Path(m.request.mac, m.request.name)])
  {
  }

  // Recoveries leave the store alone: it is what the backups make of it.
  function Backups(ms: seq<Message>): seq<Request> {
    if ms == [] then []
    else Backups(ms[..|ms| - 1]) + if ms[|ms| - 1].sign == 0 then [ms[|ms| - 1].request] else []
  }

  lemma {:induction false} RecoveriesOnlyRead(files: Files, ms: seq<Message>)
    requires AllOk(ms)
    ensures AllValid(Backups(ms)) && After(files, ms) == ApplyAll(files, Backups(ms))
  {
    if ms != [] {
      var n := |ms| - 1;
      RecoveriesOnlyRead(files, ms[..n]);
      var bs, r := Backups(ms[..n]), ms[n].request;
      assert ValidRequest(r);
      hide ValidRequest, ApplyBackup;
      assert (bs + [r])[..|bs|] == bs && bs + [] == bs;
    }
  }

  // A recovery of a file that is not there when its turn comes.
  ghost predicate Stuck(files: Files, ms: seq<Message>, i: nat)
    requires AllOk(ms)
  {
    i < |ms| && ms[i].sign == 1 && Path(ms[i].request.mac, ms[i].request.name) !in After(files, ms[..i])
  }

  lemma OneMessage(files: Files, ms: seq<Message>, i: nat)
    requires AllOk(ms) && i < |ms|
    ensures After(files, ms[..i + 1]) ==
            if ms[i].sign == 0 then ApplyBackup(After(files, ms[..i]), ms[i].request) else After(files, ms[..i])
    ensures Replies(files, ms[..i + 1]) == Replies(files, ms[..i]) + Reply(After(files, ms[..i]), ms[i])
  {
    assert ms[..i + 1][..i] == ms[..i] && ms[..i + 1][i] == ms[i];
  }

  // What handling one message does: to the store, and what it sends; `ends` is
  // false when the message is a recovery that never ends.
  ghost predicate Effect(m: Message, before: Files, after: Files, sent: seq<Recovery.Packet>, ends: bool,
                         watched: nat)
    requires ValidRequest(m.request)
  {
    var r := m.request;
    var path := Path(r.mac, r.name);
    && after == (if m.sign == 0 then ApplyBackup(before, r) else before)
    && (ends <==> m.sign != 1 || path in before)
    && sent == (if m.sign != 1 then []
                else if path in before then Recovery.Packets(SentName(r.name, 1), before[path])
                else Recovery.EmptyPackets(SentName(r.name, 1), watched))
  }

  method HandleMessage(monitor: Monitor, m: Message, watched: nat) returns (sent: seq<Recovery.Packet>, ends: bool)
    requires monitor.Valid() && ValidRequest(m.request)
    modifies monitor
    ensures monitor.Valid() && Effect(m, old(monitor.files), monitor.files, sent, ends, watched)
  {
    sent, ends := [], true;
    if m.sign == 0 {
      monitor.Backup(m.request);
    } else if m.sign == 1 {
      sent, ends := monitor.Recover(m.request.mac, m.request.name, watched);
    }
  }

  // The first n messages are handled: none of them is stuck, the store and what
  // was sent are as specified.
  ghost predicate Handled(start: Files, ms: seq<Message>, n: nat, files: Files, sent: seq<Recovery.Packet>) {
    && AllOk(ms) && n <= |ms|
    && files == After(start, ms[..n]) && sent == Replies(start, ms[..n])
    && forall i :: 0 <= i < n ==> !Stuck(start, ms, i)
  }

  // The first n are handled and the next one never ends.
  ghost predicate Stopped(start: Files, ms: seq<Message>, n: nat, files: Files, sent: seq<Recovery.Packet>,
                          watched: nat) {
    && n < |ms| && AllOk(ms) && Stuck(start, ms, n)
    && Handled(start, ms, n, files, Replies(start, ms[..n]))
    && sent == Replies(start, ms[..n]) + Recovery.EmptyPackets(SentName(ms[n].request.name, 1), watched)
  }

  lemma NextMessage(start: Files, ms: seq<Message>, n: nat, files: Files, sent: seq<Recovery.Packet>,
                    after: Files, packets: seq<Recovery.Packet>, ends: bool, watched: nat)
    requires Handled(start, ms, n, files, sent) && n < |ms| && ValidRequest(ms[n].request)
    requires Effect(ms[n], files, after, packets, ends, watched)
    ensures ends ==> Handled(start, ms, n + 1, after, sent + packets)
    ensures !ends ==> Stopped(start, ms, n, after, sent + packets, watched)
  {
    OneMessage(start, ms, n);
    ReplyOf(files, ms[n]);
    hide After, Replies, Reply, ApplyBackup, Path, ValidRequest, Recovery.Packets, Recovery.EmptyPackets, SentName;
  }

  lemma MessageOk(start: Files, ms: seq<Message>, n: nat, files: Files, sent: seq<Recovery.Packet>)
    requires Handled(start, ms, n, files, sent) && n < |ms|
    ensures ValidRequest(ms[n].request)
  {
  }

  // The messages are handled in order up to the first recovery that never ends.
  method Process(monitor: Monitor, incoming: seq<Message>, watched: nat)
      returns (sent: seq<Recovery.Packet>, n: nat)
    requires monitor.Valid() && AllOk(incoming)
    modifies monitor
    ensures monitor.Valid() && n <= |incoming|
    ensures if n == |incoming| then Handled(old(monitor.files), incoming, n, monitor.files, sent)
            else Stopped(old(monitor.files), incoming, n, monitor.files, sent, watched)
  {
    sent, n := [], 0;
    ghost var start := monitor.files;
    assert Handled(start, incoming, 0, monitor.files, []);
    hide *;
    while n < |incoming|
      invariant n <= |incoming| && monitor.Valid() && Handled(start, incoming, n, monitor.files, sent)
    {
      ghost var files := monitor.files;
      MessageOk(start, incoming, n, files, sent);
      var packets, ends := HandleMessage(monitor, incoming[n], watched);
      NextMessage(start, incoming, n, files, sent, monitor.files, packets, ends, watched);
      sent := sent + packets;
      if !ends {
        return;
      }
      n := n + 1;
    }
  }
}
