// The whole way of a file: copied to shared memory, split into blocks, stored
// by the server, streamed back and folded into a local file.
module RoundTrip {
  import opened Arrival
  import opened Bytes
  import opened Split
  import Names
  import Recovery
  import Server
  import ShmCopy
  import Store

  // `files` is the server's store before, `requests` any interleaving of the
  // requests of all clients, `stream` any interleaving of the returned packets
  // with heartbeats.
  ghost predicate Session(mac: string, name: string, files: Server.Files,
                          requests: seq<Server.Request>, stream: seq<Recovery.Packet>) {
    && Names.ValidMac(mac) && Names.ValidName(name) && Server.AllValid(requests)
    && Names.Path(mac, name) in Server.ApplyAll(files, requests)
    && Recovery.FilePackets(stream) ==
       Recovery.Packets(Names.SentName(name, 1), Server.Stored(Server.ApplyAll(files, requests), Names.Path(mac, name)))
  }

  // What arrived at the file's path are some blocks of the file, in any order.
  ghost predicate Scenario(c: Data, mac: string, name: string, files: Server.Files,
                           requests: seq<Server.Request>, stream: seq<Recovery.Packet>) {
    && Session(mac, name, files, requests, stream) && '@' !in name
    && c != [] && Arrived(Server.BlocksAt(requests, mac, name), c)
  }

  // For every name, previous copy, running total, local contents and requests:
  // the recovery works on the previous copy with all blocks written over it that
  // arrived at the same path, and changes one local file, which is the file
  // itself exactly when its name has no '@'.
  lemma LocalFile(mac: string, name: string, files: Server.Files,
                  requests: seq<Server.Request>, stream: seq<Recovery.Packet>, client: Recovery.Client)
    requires Session(mac, name, files, requests, stream)
    ensures Store.AllWellFormed(Server.BlocksAt(requests, mac, name))
    ensures var p, local := Server.Stored(files, Names.Path(mac, name)), Names.SentName(name, 1);
            var ps := Recovery.Pieces(Store.StoreAll(p, Server.BlocksAt(requests, mac, name)));
            var after := Recovery.ReceiveAll(client, stream);
            && (local == name <==> '@' !in name)
            && Recovery.Old(after, local) == Recovery.Recovered(client.count, Recovery.Old(client, local), ps)
            && after.count == client.count + |Recovery.Flat(ps)|
            && forall other :: other != local ==> Recovery.Old(after, other) == Recovery.Old(client, other)
  {
    Server.FileShaped(files, requests, mac, name);
    Names.SentNameExactly(name, 1);
    hide Store.StoreAll, Recovery.Pieces, Recovery.Recovered, Recovery.ReceiveAll, Names.Path;
    var s := Store.StoreAll(Server.Stored(files, Names.Path(mac, name)), Server.BlocksAt(requests, mac, name));
    Recovery.RecoveryFold(client, Names.SentName(name, 1), s, stream);
  }

  // Over no previous copy the pieces are known: packet t carries the bytes of
  // block t if that block arrived, nothing otherwise, and the packets end with
  // the last block that arrived.

  function ArrivedPart(arrival: seq<Block>, c: Data, t: nat): Data
    requires Mappable(c)
  {
    if t <= LastBlock(|c|) && FileBlocks(c)[t] in arrival then c[STRIDE * t..STRIDE * t + CarriedBy(t, |c|)] else []
  }

  function Extent(arrival: seq<Block>): nat {
    if arrival == [] then 0
    else
      var last := arrival[|arrival| - 1].left / STRIDE + 1;
      var before := Extent(arrival[..|arrival| - 1]);
      if last > before then last else before
  }

  function ArrivedParts(arrival: seq<Block>, c: Data): seq<Data>
    requires Mappable(c)
  {
    seq(Extent(arrival), t requires 0 <= t < Extent(arrival) => ArrivedPart(arrival, c, t))
  }

  lemma {:induction false} ExtentMeans(arrival: seq<Block>)
    ensures forall b :: b in arrival ==> b.left / STRIDE < Extent(arrival)
    ensures arrival != [] ==> exists b :: b in arrival && b.left / STRIDE + 1 == Extent(arrival)
  {
    if arrival != [] {
      var n := |arrival| - 1;
      ExtentMeans(arrival[..n]);
      assert arrival == arrival[..n] + [arrival[n]];
      var last := arrival[n];
      if last.left / STRIDE + 1 > Extent(arrival[..n]) {
        assert last in arrival;
      } else if n > 0 {
        var b :| b in arrival[..n] && b.left / STRIDE + 1 == Extent(arrival[..n]);
        assert b in arrival;
      }
    }
  }

  lemma FreshLength(arrival: seq<Block>, c: Data, s: Data, k: nat)
    requires Arrived(arrival, c) && Store.Describes(s, [], arrival)
    ensures STRIDE * k < |s| <==> k < Extent(arrival)
  {
    ExtentMeans(arrival);
    if s != [] {
      var b :| b in arrival && b.left < b.right == |s|;
      var t := ArrivedShape(arrival, c, b);
    }
    if arrival != [] {
      var b :| b in arrival && b.left / STRIDE + 1 == Extent(arrival);
      var t := ArrivedShape(arrival, c, b);
      assert b.right <= |s|;
    }
  }

  lemma PieceStored(arrival: seq<Block>, b: Block, c: Data, s: Data, i: nat)
    requires Store.Describes(s, [], arrival) && b in arrival && Carries(b, c) && Store.Hits(b, i)
    ensures Store.ByteAt(s, i) == c[i]
  {
    Store.PieceByte(b, c, i);
    assert Store.WellFormed(b);
  }

  lemma PartByte(arrival: seq<Block>, c: Data, t: nat, j: nat)
    requires Arrived(arrival, c) && j < |ArrivedPart(arrival, c, t)|
    ensures STRIDE * t + j < |c| && ArrivedPart(arrival, c, t)[j] == c[STRIDE * t + j]
    ensures t < |FileBlocks(c)| && FileBlocks(c)[t] in arrival
    ensures Carries(FileBlocks(c)[t], c) && Store.Hits(FileBlocks(c)[t], STRIDE * t + j)
  {
    BlockShape(c, t);
    hide Carries, NulFree, Arrived;
  }

  lemma HitByte(arrival: seq<Block>, c: Data, s: Data, t: nat, j: nat)
    requires Arrived(arrival, c) && Store.Describes(s, [], arrival) && j < |ArrivedPart(arrival, c, t)|
    ensures Store.ByteAt(s, STRIDE * t + j) == ArrivedPart(arrival, c, t)[j]
  {
    var i := STRIDE * t + j;
    PartByte(arrival, c, t, j);
    hide *;
    PieceStored(arrival, FileBlocks(c)[t], c, s, i);
  }

  lemma UnwrittenByte(arrival: seq<Block>, s: Data, i: nat)
    requires Store.Describes(s, [], arrival) && !Store.Hit(arrival, i)
    ensures Store.ByteAt(s, i) == 0
  {
  }

  lemma MissedByte(arrival: seq<Block>, c: Data, s: Data, t: nat, j: nat)
    requires Arrived(arrival, c) && Store.Describes(s, [], arrival)
    requires |ArrivedPart(arrival, c, t)| <= j < STRIDE
    ensures Store.ByteAt(s, STRIDE * t + j) == 0
  {
    var i := STRIDE * t + j;
    HitExactly(arrival, c, i);
    assert i / STRIDE == t && i % STRIDE == j;
    hide FileBlocks, Arrived, NulFree, Store.Hit;
    UnwrittenByte(arrival, s, i);
  }

  lemma FreshByte(arrival: seq<Block>, c: Data, s: Data, t: nat, j: nat)
    requires Arrived(arrival, c) && Store.Describes(s, [], arrival) && j < STRIDE
    ensures var part := ArrivedPart(arrival, c, t);
            Store.ByteAt(s, STRIDE * t + j) == if j < |part| then part[j] else 0
  {
    if j < |ArrivedPart(arrival, c, t)| {
      HitByte(arrival, c, s, t, j);
    } else {
      MissedByte(arrival, c, s, t, j);
    }
  }

  lemma PartFits(arrival: seq<Block>, c: Data, s: Data, t: nat)
    requires Arrived(arrival, c) && Store.Describes(s, [], arrival)
    ensures var part := ArrivedPart(arrival, c, t);
            NulFree(part) && |part| < STRIDE && (part != [] ==> STRIDE * t + |part| <= |s|)
  {
    if HasBlock(arrival, c, t) {
      BlockShape(c, t);
      assert FileBlocks(c)[t].right <= |s| || CarriedBy(t, |c|) == 0;
    }
  }

  lemma BeginningIs(chunk: Data, part: Data)
    requires |part| <= |chunk| && NulFree(part)
    requires forall j :: 0 <= j < |chunk| ==> chunk[j] == if j < |part| then part[j] else 0
    ensures CStr(chunk) == part
  {
    assert chunk[..|part|] == part;
    StrLenIs(chunk, |part|);
  }

  lemma FreshPiece(arrival: seq<Block>, c: Data, s: Data, t: nat)
    requires Arrived(arrival, c) && Store.Describes(s, [], arrival) && STRIDE * t < |s|
    ensures CStr(s[STRIDE * t..Min(STRIDE * (t + 1), |s|)]) == ArrivedPart(arrival, c, t)
  {
    var chunk, part := s[STRIDE * t..Min(STRIDE * (t + 1), |s|)], ArrivedPart(arrival, c, t);
    PartFits(arrival, c, s, t);
    hide ArrivedPart, Arrived, Store.Describes, NulFree, StrLen;
    forall j | 0 <= j < |chunk|
      ensures chunk[j] == if j < |part| then part[j] else 0
    {
      FreshByte(arrival, c, s, t, j);
      assert chunk[j] == Store.ByteAt(s, STRIDE * t + j);
    }
    BeginningIs(chunk, part);
  }

  lemma FreshPieceAt(arrival: seq<Block>, c: Data, s: Data, k: nat)
    requires Arrived(arrival, c) && Store.Describes(s, [], arrival)
    ensures var ps, parts := Recovery.Pieces(s), ArrivedParts(arrival, c);
            (k < |ps| <==> k < |parts|) && (k < |ps| ==> ps[k] == parts[k])
  {
    Recovery.PieceAt(s, k);
    FreshLength(arrival, c, s, k);
    if k < |Recovery.Pieces(s)| {
      FreshPiece(arrival, c, s, k);
    }
  }

  lemma FreshPieces(arrival: seq<Block>, c: Data)
    requires Arrived(arrival, c)
    ensures Store.AllWellFormed(arrival)
    ensures Recovery.Pieces(Store.StoreAll([], arrival)) == ArrivedParts(arrival, c)
  {
    ArrivalPieces(arrival, c);
    Store.StoreDescribed([], arrival);
    var s := Store.StoreAll([], arrival);
    var ps, parts := Recovery.Pieces(s), ArrivedParts(arrival, c);
    FreshPieceAt(arrival, c, s, |ps|);
    FreshPieceAt(arrival, c, s, |parts|);
    forall k | 0 <= k < |ps| ensures ps[k] == parts[k] {
      FreshPieceAt(arrival, c, s, k);
    }
  }

  lemma SmallParts(arrival: seq<Block>, c: Data)
    requires Arrived(arrival, c) && c != [] && |c| <= 1023
    ensures ArrivedParts(arrival, c) == if arrival == [] then [] else [c]
  {
    if arrival != [] {
      ExtentMeans(arrival);
      var b :| b in arrival && b.left / STRIDE + 1 == Extent(arrival);
      var t := ArrivedShape(arrival, c, b);
      assert ArrivedPart(arrival, c, 0) == c;
    }
  }

  // What is missing from a longer file when neither a block nor the previous
  // copy supplies byte 1023.
  lemma LostByteShort(arrival: seq<Block>, c: Data, p: Data)
    requires Arrived(arrival, c) && |p| <= |c| && |c| >= 1024 && Store.ByteAt(p, 1023) == 0
    ensures Store.AllWellFormed(arrival)
    ensures |Recovery.Flat(Recovery.Pieces(Store.StoreAll(p, arrival)))| < |c|
  {
    ArrivalPieces(arrival, c);
    Store.StoreDescribed(p, arrival);
    var s := Store.StoreAll(p, arrival);
    HitExactly(arrival, c, 1023);
    assert Store.ByteAt(s, 1023) == Store.ByteAt(p, 1023) == 0;
    Recovery.FlatPieces(s);
    assert |s| <= |c|;
    if |s| == |c| {
      assert s[1023] == 0;
    }
  }

  lemma FreshShort(arrival: seq<Block>, c: Data)
    requires Arrived(arrival, c) && |c| >= 1024
    ensures |Recovery.Flat(ArrivedParts(arrival, c))| < |c|
  {
    FreshPieces(arrival, c);
    LostByteShort(arrival, c, []);
  }

  lemma FreshExactly(arrival: seq<Block>, c: Data, total: int, old_: Data)
    requires Arrived(arrival, c) && c != []
    ensures var ps := ArrivedParts(arrival, c);
            && (Recovery.Recovered(total, old_, ps) == c <==>
                if Recovery.Replacing(total, ps) > 0 then |c| <= 1023 else old_ + Recovery.Flat(ps) == c)
            && (|c| <= 1023 && ps != [] ==> ps == [c])
            && (|c| >= 1024 ==> |Recovery.Flat(ps)| < |c|)
  {
    var ps := ArrivedParts(arrival, c);
    if |c| >= 1024 {
      FreshShort(arrival, c);
      if Recovery.Replacing(total, ps) > 0 {
        Recovery.ShortNeverRecovered(total, old_, ps, c);
      }
    } else {
      SmallParts(arrival, c);
      assert [c][0..] == [c] && Recovery.Flat([c]) == c + Recovery.Flat([c][1..]) == c;
    }
  }

  // Exactly when a file comes back over no previous copy, for every length,
  // running total, old local contents and selection of arrived blocks.  Once a
  // packet has replaced the local file: when the file has at most 1023 bytes.
  // Otherwise everything is appended, and the old contents have to supply what
  // the packets lack; an empty local file supplies nothing.
  lemma FreshRoundTripExactly(c: Data, mac: string, name: string, files: Server.Files,
                              requests: seq<Server.Request>, stream: seq<Recovery.Packet>, client: Recovery.Client)
    requires Scenario(c, mac, name, files, requests, stream)
    requires Server.Stored(files, Names.Path(mac, name)) == []
    ensures var ps := ArrivedParts(Server.BlocksAt(requests, mac, name), c);
            var old_ := Recovery.Old(client, name);
            var after := Recovery.Old(Recovery.ReceiveAll(client, stream), name);
            && after == Recovery.Recovered(client.count, old_, ps)
            && (after == c <==>
                if Recovery.Replacing(client.count, ps) > 0 then |c| <= 1023 else old_ + Recovery.Flat(ps) == c)
            && (|c| <= 1023 && ps != [] ==> ps == [c])
            && (|c| >= 1024 ==> |Recovery.Flat(ps)| < |c|)
  {
    LocalFile(mac, name, files, requests, stream, client);
    FreshPieces(Server.BlocksAt(requests, mac, name), c);
    FreshExactly(Server.BlocksAt(requests, mac, name), c, client.count, Recovery.Old(client, name));
  }

  // So a file of more than 1023 bytes over a copy that is not longer and lacks
  // byte 1023, as every copy of a server that started empty does, never comes
  // back once a packet replaces the local file, nor over an empty one.
  lemma LargeFileNeverReturns(c: Data, mac: string, name: string, files: Server.Files,
                              requests: seq<Server.Request>, stream: seq<Recovery.Packet>, client: Recovery.Client)
    requires Scenario(c, mac, name, files, requests, stream) && |c| >= 1024
    requires var p := Server.Stored(files, Names.Path(mac, name));
             |p| <= |c| && Store.ByteAt(p, 1023) == 0
    requires var s := Server.Stored(Server.ApplyAll(files, requests), Names.Path(mac, name));
             Recovery.Replacing(client.count, Recovery.Pieces(s)) > 0 || Recovery.Old(client, name) == []
    ensures |Recovery.Old(Recovery.ReceiveAll(client, stream), name)| < |c|
  {
    var p := Server.Stored(files, Names.Path(mac, name));
    var arrival := Server.BlocksAt(requests, mac, name);
    Server.FileShaped(files, requests, mac, name);
    LocalFile(mac, name, files, requests, stream, client);
    LostByteShort(arrival, c, p);
    Recovery.ShortNeverRecovered(client.count, Recovery.Old(client, name),
                                 Recovery.Pieces(Store.StoreAll(p, arrival)), c);
  }

  predicate StartsPacket(p: Data, k: nat) { Recovery.CHUNK * k < |p| }

  // Exactly when a file of at most 1023 bytes comes back over any previous copy.
  // Over a longer copy the file is followed by the copy's tail.  If at most one
  // packet replaces the local file, the tail must be invisible: a NUL right
  // behind the file and at the start of every further packet.  If more packets
  // do, the file itself is gone and what is left are packets of the old copy,
  // which spell the file only by coincidence.
  ghost predicate ComesBack(c: Data, p: Data, total: int, local: Data) {
    if |p| <= |c| then total + |c| <= Recovery.WINDOW || local == []
    else
      var r := Recovery.Replacing(total, Recovery.Pieces(Store.Overlay(c, p)));
      if r <= 1 then
        && p[|c|] == 0 && (forall k: nat :: k >= 1 && StartsPacket(p, k) ==> p[Recovery.CHUNK * k] == 0)
        && (r == 0 ==> local == [])
      else r - 1 <= |Recovery.Pieces(p)| && Recovery.Flat(Recovery.Pieces(p)[r - 1..]) == c
  }

  lemma OnlyPiece(c: Data)
    requires NulFree(c) && c != [] && |c| <= 1023
    ensures Recovery.Pieces(c) == [c] && Recovery.Flat([c]) == c
  {
    Recovery.FlatPieces(c);
    Recovery.FirstPiece(c);
    assert c[..|c|] == c && c[|c|..] == [];
  }

  lemma BeginsWith(chunk: Data, c: Data)
    requires NulFree(c) && c < chunk
    ensures c <= CStr(chunk) && (CStr(chunk) == c <==> chunk[|c|] == 0)
  {
    assert forall i :: 0 <= i < |c| ==> chunk[i] == c[i] != 0;
    if chunk[|c|] == 0 {
      StrLenIs(chunk, |c|);
    } else {
      assert StrLen(chunk) > |c|;
    }
    assert chunk[..StrLen(chunk)][..|c|] == c;
  }

  // The pieces of an overlay: the first one begins with the file, the others are
  // those of the previous copy.
  lemma OverlayPieces(c: Data, p: Data)
    requires NulFree(c) && c != [] && |c| <= 1023 && |p| > |c|
    ensures var ps, qs := Recovery.Pieces(Store.Overlay(c, p)), Recovery.Pieces(p);
            && |ps| == |qs| > 0 && ps[1..] == qs[1..]
            && c <= ps[0] && (ps[0] == c <==> p[|c|] == 0)
  {
    var s := Store.Overlay(c, p);
    var n := Min(Recovery.CHUNK, |s|);
    assert s[n..] == p[n..];
    assert Recovery.Pieces(s)[1..] == Recovery.Pieces(s[n..]) == Recovery.Pieces(p)[1..];
    assert s[..n][|c|] == p[|c|];
    BeginsWith(s[..n], c);
  }

  ghost predicate AllEmpty(ps: seq<Data>) { forall i :: 0 <= i < |ps| ==> ps[i] == [] }

  lemma {:induction false} FlatEmpty(ps: seq<Data>)
    ensures AllEmpty(ps) <==> Recovery.Flat(ps) == []
  {
    if ps != [] {
      FlatEmpty(ps[1..]);
      assert forall i :: 1 <= i < |ps| ==> ps[i] == ps[1..][i - 1];
      assert |Recovery.Flat(ps)| == |ps[0]| + |Recovery.Flat(ps[1..])|;
    }
  }

  lemma PieceEmpty(p: Data, k: nat)
    ensures k < |Recovery.Pieces(p)| <==> StartsPacket(p, k)
    ensures StartsPacket(p, k) ==> (Recovery.Pieces(p)[k] == [] <==> p[Recovery.CHUNK * k] == 0)
  {
    Recovery.PieceAt(p, k);
    if StartsPacket(p, k) {
      var chunk := p[Recovery.CHUNK * k..Min(Recovery.CHUNK * (k + 1), |p|)];
      assert chunk[0] == p[Recovery.CHUNK * k];
      assert |CStr(chunk)| == StrLen(chunk);
    }
  }

  // The later pieces of a copy are empty when its packets start with NULs.
  lemma TailInvisible(p: Data)
    requires p != []
    ensures Recovery.Flat(Recovery.Pieces(p)[1..]) == [] <==>
            forall k: nat :: k >= 1 && StartsPacket(p, k) ==> p[Recovery.CHUNK * k] == 0
  {
    var ps := Recovery.Pieces(p);
    FlatEmpty(ps[1..]);
    forall k: nat | k >= 1
      ensures k < |ps| <==> StartsPacket(p, k)
      ensures k < |ps| ==> (ps[k] == [] <==> p[Recovery.CHUNK * k] == 0)
    {
      PieceEmpty(p, k);
    }
    assert forall k :: 1 <= k < |ps| ==> ps[1..][k - 1] == ps[k];
    if AllEmpty(ps[1..]) {
      forall k: nat | k >= 1 && StartsPacket(p, k) ensures p[Recovery.CHUNK * k] == 0 {
        assert ps[1..][k - 1] == [];
      }
    } else {
      var i :| 0 <= i < |ps[1..]| && ps[1..][i] != [];
      assert StartsPacket(p, i + 1) && p[Recovery.CHUNK * (i + 1)] != 0;
    }
  }

  lemma WholeOnly(front: Data, c: Data, first: Data, tail: Data)
    requires c <= first
    ensures front + (first + tail) == c <==> front == [] && first == c && tail == []
  {
    assert |front + (first + tail)| == |front| + |first| + |tail|;
    if front == [] && first == c && tail == [] {
      assert front + (first + tail) == c;
    }
  }

  // The first packet at most replaces: it is followed by the others.
  lemma FirstReplaces(c: Data, ps: seq<Data>, total: int, local: Data)
    requires ps != [] && c <= ps[0] && Recovery.Replacing(total, ps) <= 1
    ensures Recovery.Recovered(total, local, ps) == c <==>
            && ps[0] == c && Recovery.Flat(ps[1..]) == []
            && (Recovery.Replacing(total, ps) == 0 ==> local == [])
  {
    var r, tail := Recovery.Replacing(total, ps), Recovery.Flat(ps[1..]);
    var front := if r == 0 then local else [];
    assert Recovery.Flat(ps) == ps[0] + tail;
    assert ps[0..] == ps && [] + Recovery.Flat(ps) == Recovery.Flat(ps);
    WholeOnly(front, c, ps[0], tail);
    hide Recovery.Flat, Recovery.Replacing;
  }

  lemma LaterReplaces(c: Data, ps: seq<Data>, qs: seq<Data>, total: int, local: Data)
    requires |ps| == |qs| > 0 && ps[1..] == qs[1..] && Recovery.Replacing(total, ps) >= 2
    ensures var r := Recovery.Replacing(total, ps);
            r - 1 <= |qs| && Recovery.Recovered(total, local, ps) == Recovery.Flat(qs[r - 1..])
  {
    var r := Recovery.Replacing(total, ps);
    assert ps[r - 1..] == ps[1..][r - 2..] == qs[1..][r - 2..] == qs[r - 1..];
  }

  lemma LongerCopy(c: Data, p: Data, total: int, local: Data)
    requires NulFree(c) && c != [] && |c| <= 1023 && |p| > |c|
    ensures Recovery.Recovered(total, local, Recovery.Pieces(Store.Overlay(c, p))) == c <==>
            ComesBack(c, p, total, local)
  {
    var ps, qs := Recovery.Pieces(Store.Overlay(c, p)), Recovery.Pieces(p);
    OverlayPieces(c, p);
    TailInvisible(p);
    if Recovery.Replacing(total, ps) <= 1 {
      FirstReplaces(c, ps, total, local);
    } else {
      LaterReplaces(c, ps, qs, total, local);
    }
    hide Store.Overlay, Recovery.Pieces, Recovery.Replacing, Recovery.Recovered, Recovery.Flat, NulFree, StartsPacket;
  }

  lemma RecoveredOverlay(c: Data, p: Data, total: int, local: Data)
    requires NulFree(c) && c != [] && |c| <= 1023
    ensures Recovery.Recovered(total, local, Recovery.Pieces(Store.Overlay(c, p))) == c <==>
            ComesBack(c, p, total, local)
  {
    if |p| <= |c| {
      OnlyPiece(c);
      assert [c][0..] == [c];
      assert local + c == c <==> local == [] by { assert |local + c| == |local| + |c|; }
    } else {
      LongerCopy(c, p, total, local);
    }
  }

  // A file of at most 1023 bytes whose block arrived comes back byte for byte
  // exactly under that condition, whatever the previous copy holds.
  lemma SmallFileRoundTrip(c: Data, mac: string, name: string, files: Server.Files,
                           requests: seq<Server.Request>, stream: seq<Recovery.Packet>, client: Recovery.Client)
    requires Scenario(c, mac, name, files, requests, stream)
    requires |c| <= 1023 && Server.BlocksAt(requests, mac, name) != []
    ensures var p := Server.Stored(files, Names.Path(mac, name));
            Recovery.Old(Recovery.ReceiveAll(client, stream), name) == c <==>
            ComesBack(c, p, client.count, Recovery.Old(client, name))
  {
    var arrival, p := Server.BlocksAt(requests, mac, name), Server.Stored(files, Names.Path(mac, name));
    LocalFile(mac, name, files, requests, stream, client);
    SmallFileStored(arrival, c, p);
    RecoveredOverlay(c, p, client.count, Recovery.Old(client, name));
  }

  // After the hook's copy the local file holds a decoy, so a recovery whose
  // packets no longer fit the session window never gives the file back.
  const DECOY: Data := [73, 116, 32, 105, 115, 32, 97, 32, 115, 101, 99, 114, 101, 116]

  lemma DecoyRoundTrip(c: Data, mac: string, name: string, files: Server.Files,
                       requests: seq<Server.Request>, stream: seq<Recovery.Packet>, client: Recovery.Client)
    requires Scenario(c, mac, name, files, requests, stream)
    requires |c| <= 1023 && Server.BlocksAt(requests, mac, name) != []
    requires Server.Stored(files, Names.Path(mac, name)) == [] && Recovery.Old(client, name) == DECOY
    ensures var after := Recovery.Old(Recovery.ReceiveAll(client, stream), name);
            if client.count + |c| <= Recovery.WINDOW then after == c else after == DECOY + c
  {
    LocalFile(mac, name, files, requests, stream, client);
    SmallFileStored(Server.BlocksAt(requests, mac, name), c, []);
    OnlyPiece(c);
    assert [c][0..] == [c];
  }
}
