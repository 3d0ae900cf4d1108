// Recovery: the server streams the stored file in packets
// (monitor::recover in src/server/monitor/monitor.cpp) and the client folds the
// packets into a local file (Recv_file in src/client/inotify.cpp).
module Recovery {
  import opened Bytes

  const CHUNK: nat := 4095
  const WINDOW: nat := 4096

  // Data buffers are 4096 bytes, zeroed before each read.
  datatype Packet = Heart | File(name: string, contents: Data)

  function Filled(chunk: Data): Data
    requires |chunk| <= CHUNK
  {
    chunk + Zeros(WINDOW - |chunk|)
  }

  // The packets of one recovery: one per 4095 bytes, none for an empty file.
  function Packets(name: string, stored: Data): seq<Packet> {
    if stored == [] then []
    else
      var n := Min(CHUNK, |stored|);
      [File(name, Filled(stored[..n]))] + Packets(name, stored[n..])
  }

  // Packet k carries the bytes from 4095 * k on, padded with zeros to 4096; there
  // is one for every started 4095 bytes.
  lemma {:induction false} PacketAt(name: string, s: Data, k: nat)
    ensures k < |Packets(name, s)| <==> 4095 * k < |s|
    ensures k < |Packets(name, s)| ==>
              var p := Packets(name, s)[k];
              && p.File? && p.name == name && |p.contents| == 4096
              && forall i :: 0 <= i < 4096 ==>
                   p.contents[i] == if i < 4095 && 4095 * k + i < |s| then s[4095 * k + i] else 0
    decreases k
  {
    if s != [] && k > 0 {
      PacketAt(name, s[Min(CHUNK, |s|)..], k - 1);
    }
  }

  // On a missing file every read fails, and the loop sends empty packets.
  function EmptyPackets(name: string, n: nat): seq<Packet> { seq(n, i => File(name, Filled([]))) }

  method Recover(name: string, stored: Data) returns (sent: seq<Packet>)
    ensures sent == Packets(name, stored)
  {
    sent := [];
    var pos := 0;
    while true
      invariant 0 <= pos <= |stored|
      invariant sent + Packets(name, stored[pos..]) == Packets(name, stored)
      decreases |stored| - pos
    {
      var count := Min(CHUNK, |stored| - pos);
      if count == 0 {
        break;
      }
      var rest := stored[pos..];
      assert rest[count..] == stored[pos + count..] && rest[..count] == stored[pos..pos + count];
      sent := sent + [File(name, Filled(stored[pos..pos + count]))];
      pos := pos + count;
    }
  }

  // The client: a running total that is never reset, and the local files.
  datatype Client = Client(count: int, files: map<string, Data>)

  function Old(c: Client, name: string): Data {
    if name in c.files then c.files[name] else []
  }

  function Receive(c: Client, p: Packet): Client {
    match p
    case Heart => c
    case File(name, contents) =>
      var count := c.count + StrLen(contents);
      Client(count, c.files[name := if count <= WINDOW then CStr(contents) else Old(c, name) + CStr(contents)])
  }

  function ReceiveAll(c: Client, ps: seq<Packet>): Client
    decreases |ps|
  {
    if ps == [] then c else ReceiveAll(Receive(c, ps[0]), ps[1..])
  }

  // The receiving loop as the source writes it, up to the end of the stream.
  class Receiver {
    var count: int
    var files: map<string, Data>

    ghost function View(): Client
      reads this
    {
      Client(count, files)
    }

    method RecvFile(stream: seq<Packet>)
      modifies this
      ensures View() == ReceiveAll(old(View()), stream)
    {
      var i := 0;
      while i < |stream|
        invariant 0 <= i <= |stream|
        invariant ReceiveAll(View(), stream[i..]) == ReceiveAll(old(View()), stream)
      {
        var p := stream[i];
        assert stream[i..][0] == p && stream[i..][1..] == stream[i + 1..];
        if p.File? {
          count := count + StrLen(p.contents);
          if count <= WINDOW {
            files := files[p.name := CStr(p.contents)];
          } else {
            var before := if p.name in files then files[p.name] else [];
            files := files[p.name := before + CStr(p.contents)];
          }
        }
        i := i + 1;
      }
    }
  }

  // Heartbeats between the packets leave no trace in the files.

  function FilePackets(stream: seq<Packet>): seq<Packet> {
    if stream == [] then []
    else (if stream[0].File? then [stream[0]] else []) + FilePackets(stream[1..])
  }

  lemma {:induction false} HeartbeatsInvisible(c: Client, stream: seq<Packet>)
    ensures ReceiveAll(c, stream) == ReceiveAll(c, FilePackets(stream))
    decreases |stream|
  {
    if stream != [] {
      HeartbeatsInvisible(Receive(c, stream[0]), stream[1..]);
      if stream[0].File? {
        assert FilePackets(stream)[1..] == FilePackets(stream[1..]);
      } else {
        assert FilePackets(stream) == FilePackets(stream[1..]);
      }
    }
  }

  // What strlen sees of a packet is the part of its chunk before the first NUL.
  lemma FilledString(chunk: Data)
    requires |chunk| <= CHUNK
    ensures CStr(Filled(chunk)) == CStr(chunk) && StrLen(Filled(chunk)) == |CStr(chunk)|
  {
    var n := StrLen(chunk);
    assert Filled(chunk)[..n] == chunk[..n];
    StrLenIs(Filled(chunk), n);
  }

  // The pieces the receiver sees of the stored contents, one per packet.
  function Pieces(s: Data): seq<Data> {
    if s == [] then []
    else
      var n := Min(CHUNK, |s|);
      [CStr(s[..n])] + Pieces(s[n..])
  }

  function Flat(ps: seq<Data>): Data {
    if ps == [] then [] else ps[0] + Flat(ps[1..])
  }

  lemma {:induction false} PieceAt(s: Data, k: nat)
    ensures k < |Pieces(s)| <==> CHUNK * k < |s|
    ensures k < |Pieces(s)| ==> Pieces(s)[k] == CStr(s[CHUNK * k..Min(CHUNK * (k + 1), |s|)])
    decreases k
  {
    if s != [] && k > 0 {
      var n := Min(CHUNK, |s|);
      PieceAt(s[n..], k - 1);
      if CHUNK * k < |s| {
        assert s[n..][CHUNK * (k - 1)..Min(CHUNK * k, |s[n..]|)] == s[CHUNK * k..Min(CHUNK * (k + 1), |s|)];
      }
    }
  }

  // The receiver on a list of pieces: a piece replaces the file while the total
  // fits the window and is appended afterwards.

  function Keep(content: Data, count: int, piece: Data): Data {
    if count <= WINDOW then piece else content + piece
  }

  function Fold(count: int, content: Data, ps: seq<Data>): Data
    decreases |ps|
  {
    if ps == [] then content
    else Fold(count + |ps[0]|, Keep(content, count + |ps[0]|, ps[0]), ps[1..])
  }

  lemma FirstPacket(c: Client, name: string, s: Data)
    requires s != []
    ensures var n := Min(CHUNK, |s|);
            var piece := CStr(s[..n]);
            var d := Client(c.count + |piece|, c.files[name := Keep(Old(c, name), c.count + |piece|, piece)]);
            ReceiveAll(c, Packets(name, s)) == ReceiveAll(d, Packets(name, s[n..]))
  {
    var n := Min(CHUNK, |s|);
    FilledString(s[..n]);
    var ps := Packets(name, s);
    assert ps[0] == File(name, Filled(s[..n])) && ps[1..] == Packets(name, s[n..]);
  }

  lemma NoPackets(d: Client, name: string)
    ensures ReceiveAll(d, Packets(name, [])) == d
  {
  }

  lemma SetTwice(m: map<string, Data>, k: string, a: Data, b: Data)
    ensures m[k := a][k := b] == m[k := b]
  {
  }

  lemma {:induction false} PacketsFold(c: Client, name: string, s: Data)
    requires s != []
    ensures ReceiveAll(c, Packets(name, s)) ==
            Client(c.count + |Flat(Pieces(s))|, c.files[name := Fold(c.count, Old(c, name), Pieces(s))])
    decreases |s|
  {
    hide Packets, ReceiveAll, CStr;
    var n := Min(CHUNK, |s|);
    var piece, rest := CStr(s[..n]), s[n..];
    var content := Keep(Old(c, name), c.count + |piece|, piece);
    var d := Client(c.count + |piece|, c.files[name := content]);
    FirstPacket(c, name, s);
    assert Pieces(s)[0] == piece && Pieces(s)[1..] == Pieces(rest);
    if rest != [] {
      PacketsFold(d, name, rest);
      SetTwice(c.files, name, content, Fold(d.count, content, Pieces(rest)));
    } else {
      NoPackets(d, name);
    }
  }

  // The result without the fold.  The running total only grows, so the pieces
  // that replace the file come first; the file is the last of them, or the old
  // contents if there is none, followed by all later pieces.

  function Replacing(count: int, ps: seq<Data>): (r: nat)
    ensures r <= |ps|
    decreases |ps|
  {
    if ps == [] || count + |ps[0]| > WINDOW then 0 else 1 + Replacing(count + |ps[0]|, ps[1..])
  }

  function Recovered(count: int, old_: Data, ps: seq<Data>): Data {
    var r := Replacing(count, ps);
    if r == 0 then old_ + Flat(ps) else Flat(ps[r - 1..])
  }

  // Which pieces replace: those up to which the total stays within the window.
  lemma {:induction false} ReplacingMeans(count: int, ps: seq<Data>, k: nat)
    requires k < |ps|
    ensures k < Replacing(count, ps) <==> count + |Flat(ps[..k + 1])| <= WINDOW
    decreases k
  {
    assert ps[..k + 1][1..] == ps[1..][..k];
    if k > 0 {
      ReplacingMeans(count + |ps[0]|, ps[1..], k - 1);
    } else {
      assert Flat(ps[..1][1..]) == [];
    }
  }

  lemma {:induction false} FoldAppends(count: int, content: Data, ps: seq<Data>)
    requires ps != [] ==> count + |ps[0]| > WINDOW
    ensures Fold(count, content, ps) == content + Flat(ps)
    decreases |ps|
  {
    if ps == [] {
      assert content + Flat(ps) == content;
    } else {
      FoldAppends(count + |ps[0]|, content + ps[0], ps[1..]);
      assert content + ps[0] + Flat(ps[1..]) == content + Flat(ps);
    }
  }

  lemma {:induction false} FoldIsRecovered(count: int, old_: Data, ps: seq<Data>)
    ensures Fold(count, old_, ps) == Recovered(count, old_, ps)
    decreases |ps|
  {
    var r := Replacing(count, ps);
    if r == 0 {
      FoldAppends(count, old_, ps);
    } else {
      FoldIsRecovered(count + |ps[0]|, ps[0], ps[1..]);
      if r == 1 {
        assert ps[0..] == ps;
      } else {
        assert ps[1..][r - 2..] == ps[r - 1..];
      }
    }
  }

  // A recovery of any stored contents `s`, NULs included, under every
  // interleaving with heartbeats.
  lemma RecoveryFold(c: Client, name: string, s: Data, stream: seq<Packet>)
    requires FilePackets(stream) == Packets(name, s)
    ensures var after := ReceiveAll(c, stream);
            && after.count == c.count + |Flat(Pieces(s))|
            && Old(after, name) == Recovered(c.count, Old(c, name), Pieces(s))
            && after.files == if s == [] then c.files else c.files[name := Old(after, name)]
  {
    HeartbeatsInvisible(c, stream);
    if s == [] {
      assert Old(c, name) + Flat([]) == Old(c, name);
    } else {
      PacketsFold(c, name, s);
      FoldIsRecovered(c.count, Old(c, name), Pieces(s));
    }
  }

  lemma EmptyPacket(c: Client, name: string)
    ensures Receive(c, File(name, Filled([]))) ==
            c.(files := c.files[name := if c.count <= WINDOW then [] else Old(c, name)])
  {
    FilledString([]);
    assert CStr([]) == [];
    var empty := Filled([]);
    assert CStr(empty) == [] && StrLen(empty) == 0;
    hide Filled, CStr, StrLen;
    assert Old(c, name) + [] == Old(c, name);
  }

  // The recovery of a missing file empties the local one, from the first packet
  // on, unless the total is past the window; then it changes nothing.
  lemma {:induction false} EmptyPacketsFold(c: Client, name: string, n: nat)
    requires n > 0
    ensures ReceiveAll(c, EmptyPackets(name, n)) ==
            c.(files := c.files[name := if c.count <= WINDOW then [] else Old(c, name)])
    decreases n
  {
    var p, ps := File(name, Filled([])), EmptyPackets(name, n);
    var content := if c.count <= WINDOW then [] else Old(c, name);
    EmptyPacket(c, name);
    assert ps[0] == p && ps[1..] == EmptyPackets(name, n - 1);
    var d := c.(files := c.files[name := content]);
    assert Receive(c, p) == d && Old(d, name) == content;
    assert ReceiveAll(c, ps) == ReceiveAll(d, EmptyPackets(name, n - 1));
    hide *;
    if n > 1 {
      EmptyPacketsFold(d, name, n - 1);
      SetTwice(c.files, name, content, content);
    } else {
      assert EmptyPackets(name, n - 1) == Packets(name, []);
      NoPackets(d, name);
    }
  }

  lemma MissingFileErases(c: Client, name: string, stream: seq<Packet>, n: nat)
    requires FilePackets(stream) == EmptyPackets(name, n) && n > 0
    ensures ReceiveAll(c, stream) ==
            c.(files := c.files[name := if c.count <= WINDOW then [] else Old(c, name)])
  {
    HeartbeatsInvisible(c, stream);
    EmptyPacketsFold(c, name, n);
  }

  // NUL-free contents: the pieces put together are the contents, and three cases
  // are left.

  lemma ChunkNulFree(chunk: Data)
    ensures NulFree(chunk) <==> |CStr(chunk)| == |chunk|
    ensures NulFree(chunk) ==> CStr(chunk) == chunk
  {
    var m := StrLen(chunk);
    if m == |chunk| {
      assert chunk[..m] == chunk;
    }
  }

  lemma NulSomewhere(s: Data, n: nat)
    requires n <= |s| && !NulFree(s)
    ensures !NulFree(s[..n]) || !NulFree(s[n..])
  {
    var i :| 0 <= i < |s| && s[i] == 0;
    if i < n {
      assert s[..n][i] == 0;
    } else {
      assert s[n..][i - n] == 0;
    }
  }

  lemma {:induction false} FlatPieces(s: Data)
    ensures |Flat(Pieces(s))| <= |s|
    ensures Flat(Pieces(s)) == s <==> NulFree(s)
    ensures NulFree(s) <==> |Flat(Pieces(s))| == |s|
    decreases |s|
  {
    if s != [] {
      var n := Min(CHUNK, |s|);
      var chunk, rest := s[..n], s[n..];
      FlatPieces(rest);
      assert s == chunk + rest;
      assert Pieces(s)[0] == CStr(chunk) && Pieces(s)[1..] == Pieces(rest);
      ChunkNulFree(chunk);
      if NulFree(s) {
        assert forall i :: 0 <= i < |rest| ==> rest[i] == s[n + i];
      } else {
        NulSomewhere(s, n);
      }
    }
  }

  lemma ReplacingStep(count: int, ps: seq<Data>)
    requires ps != []
    ensures Replacing(count, ps) ==
            if count + |ps[0]| > WINDOW then 0 else 1 + Replacing(count + |ps[0]|, ps[1..])
  {
  }

  lemma FirstPiece(s: Data)
    requires s != [] && NulFree(s)
    ensures var n := Min(CHUNK, |s|);
            Pieces(s) == [s[..n]] + Pieces(s[n..]) && Pieces(s)[1..] == Pieces(s[n..]) && NulFree(s[n..])
  {
    ChunkNulFree(s[..Min(CHUNK, |s|)]);
  }

  // After a full first piece a second one replaces only if it is the last byte.
  lemma LastPieceOnly(count: int, rest: Data)
    requires count >= CHUNK && rest != [] && NulFree(rest)
    ensures var ps := Pieces(rest);
            && Flat(ps) == rest
            && Replacing(count, ps) == if count == CHUNK && |rest| == 1 then 1 else 0
  {
    FlatPieces(rest);
    FirstPiece(rest);
    if count == CHUNK && |rest| == 1 {
      assert Pieces(rest)[1..] == [];
    }
  }

  lemma NulFreeRecovery(total: int, old_: Data, s: Data)
    requires total >= 0 && s != [] && NulFree(s)
    ensures Recovered(total, old_, Pieces(s)) ==
            if total + Min(CHUNK, |s|) > WINDOW then old_ + s
            else if total == 0 && |s| == WINDOW then s[CHUNK..]
            else s
  {
    var n := Min(CHUNK, |s|);
    var ps, rest := Pieces(s), s[n..];
    FlatPieces(s);
    FirstPiece(s);
    ReplacingStep(total, ps);
    if rest != [] && total + n <= WINDOW {
      LastPieceOnly(total + n, rest);
    } else {
      assert rest == [] ==> Replacing(total + n, Pieces(rest)) == 0;
    }
    hide Pieces, Flat, Replacing, NulFree;
    assert ps[0..] == ps && |ps[0]| == n;
  }

  lemma {:induction false} FlatTail(ps: seq<Data>, k: nat)
    requires k <= |ps|
    ensures |Flat(ps[k..])| <= |Flat(ps)|
    ensures k > 0 ==> |Flat(ps[k..])| <= |Flat(ps)| - |ps[0]|
  {
    if k == 0 {
      assert ps[0..] == ps;
    } else {
      FlatTail(ps[1..], k - 1);
      assert ps[1..][k - 1..] == ps[k..];
    }
  }

  // Exactly when the local file ends up with the stored contents: if a packet
  // replaced it, they are NUL-free and not 4096 bytes from total 0; if none did,
  // the old contents supply what the packets do not.
  lemma RecoveredExactly(total: int, old_: Data, s: Data)
    requires total >= 0
    ensures var ps := Pieces(s);
            Recovered(total, old_, ps) == s <==>
            if Replacing(total, ps) == 0 then old_ + Flat(ps) == s
            else NulFree(s) && !(total == 0 && |s| == 4096)
    ensures NulFree(s) ==> (old_ + Flat(Pieces(s)) == s <==> old_ == [])
  {
    var ps := Pieces(s);
    var r := Replacing(total, ps);
    FlatPieces(s);
    assert |old_ + Flat(ps)| == |old_| + |Flat(ps)|;
    if r > 0 {
      if NulFree(s) {
        NulFreeRecovery(total, old_, s);
        ChunkNulFree(s[..Min(CHUNK, |s|)]);
      } else {
        FlatTail(ps, r - 1);
      }
    }
  }

  // Contents whose pieces lack a byte never come back once a packet replaces the
  // local file, nor over an empty one.
  lemma ShortNeverRecovered(total: int, old_: Data, ps: seq<Data>, c: Data)
    requires |Flat(ps)| < |c| && (Replacing(total, ps) > 0 || old_ == [])
    ensures |Recovered(total, old_, ps)| < |c|
  {
    if Replacing(total, ps) > 0 {
      FlatTail(ps, Replacing(total, ps) - 1);
    }
  }
}
