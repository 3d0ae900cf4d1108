// Which bytes of a file reach the server: copied to shared memory, split into
// blocks, and stored as far as the blocks' connections are served.
module Arrival {
  import opened Bytes
  import opened Split
  import ShmCopy
  import Store
  import Names
  import Server

  predicate Mappable(c: Data) { |c| <= ShmCopy.SHM_SIZE }

  // The blocks of a file, and those of them that the client sends.
  function FileBlocks(c: Data): seq<Block>
    requires Mappable(c)
  {
    MappingFits(|c|);
    Blocks(ShmCopy.Image(c, ShmCopy.SHM_SIZE), |c|)
  }

  function SentBlocks(c: Data): seq<Block>
    requires Mappable(c)
  {
    Sent(FileBlocks(c))
  }

  lemma {:induction false} SentMembers(bs: seq<Block>, b: Block)
    ensures b in Sent(bs) <==> b in bs && StrLen(b.data) > 0
  {
    if bs != [] {
      var n := |bs| - 1;
      SentMembers(bs[..n], b);
      assert bs == bs[..n] + [bs[n]];
    }
  }

  // Some of the sent blocks of a NUL-free file, in any order.  A connection that
  // the client cannot open or the server closes unread leaves its block out.
  ghost predicate Arrived(arrival: seq<Block>, c: Data) {
    NulFree(c) && Mappable(c) && multiset(arrival) <= multiset(SentBlocks(c))
  }

  // The shape of block t.
  ghost predicate IsBlock(b: Block, c: Data, t: nat) {
    && t <= LastBlock(|c|) && Carries(b, c)
    && b.left == STRIDE * t && b.right == STRIDE * t + CarriedBy(t, |c|)
  }

  lemma BlockShape(c: Data, t: nat)
    requires NulFree(c) && Mappable(c) && t <= LastBlock(|c|)
    ensures IsBlock(FileBlocks(c)[t], c, t)
  {
    MappingFits(|c|);
    CopyThenSplit(c, ShmCopy.SHM_SIZE);
  }

  // An arrived block is the non-empty block its offset says.
  lemma ArrivedShape(arrival: seq<Block>, c: Data, b: Block) returns (t: nat)
    requires Arrived(arrival, c) && b in arrival
    ensures IsBlock(b, c, t) && t == b.left / STRIDE && b == FileBlocks(c)[t] && b.left < b.right
  {
    assert b in multiset(arrival);
    assert b in multiset(SentBlocks(c));
    SentMembers(FileBlocks(c), b);
    t :| 0 <= t < |FileBlocks(c)| && FileBlocks(c)[t] == b;
    BlockShape(c, t);
  }

  lemma ArrivalPieces(arrival: seq<Block>, c: Data)
    requires Arrived(arrival, c)
    ensures Store.PiecesOf(arrival, c) && Store.AllWellFormed(arrival) && Store.Agree(arrival)
  {
    forall b | b in arrival ensures Carries(b, c) {
      var t := ArrivedShape(arrival, c, b);
    }
    Store.PiecesAgree(arrival, c);
  }

  // Which offsets the arrived blocks cover.
  ghost predicate HasBlock(arrival: seq<Block>, c: Data, t: nat) {
    Mappable(c) && t <= LastBlock(|c|) && FileBlocks(c)[t] in arrival
  }

  lemma ShapeHits(b: Block, c: Data, t: nat, i: nat)
    requires IsBlock(b, c, t)
    ensures Store.Hits(b, i) <==> t == i / STRIDE && i < |c| && i % STRIDE < (t + 1023) % 1024
  {
    hide Carries;
    assert i == STRIDE * (i / STRIDE) + i % STRIDE;
  }

  lemma HitExactly(arrival: seq<Block>, c: Data, i: nat)
    requires Arrived(arrival, c)
    ensures Store.Hit(arrival, i) <==>
            i < |c| && i % STRIDE < (i / STRIDE + 1023) % 1024 && HasBlock(arrival, c, i / STRIDE)
  {
    if Store.Hit(arrival, i) {
      var b :| b in arrival && Store.Hits(b, i);
      var t := ArrivedShape(arrival, c, b);
      ShapeHits(b, c, t, i);
    }
    if HasBlock(arrival, c, i / STRIDE) {
      BlockShape(c, i / STRIDE);
      ShapeHits(FileBlocks(c)[i / STRIDE], c, i / STRIDE, i);
    }
    hide FileBlocks, IsBlock, Arrived, Store.Hits;
  }

  // Order independence for the blocks of one file.
  lemma ArrivalOrderIrrelevant(p: Data, arrival: seq<Block>, other: seq<Block>, c: Data)
    requires Arrived(arrival, c) && multiset(arrival) == multiset(other)
    ensures Store.AllWellFormed(arrival) && Store.AllWellFormed(other)
    ensures Store.StoreAll(p, arrival) == Store.StoreAll(p, other)
  {
    ArrivalPieces(arrival, c);
    Store.OrderIndependence(p, arrival, other);
  }

  // Exactly when the server ends up with the file: the previous copy is not
  // longer and has every byte that no arrived block covers.
  lemma StoredExactly(arrival: seq<Block>, c: Data, p: Data)
    requires Arrived(arrival, c)
    ensures Store.AllWellFormed(arrival)
    ensures Store.StoreAll(p, arrival) == c <==>
            && |p| <= |c|
            && forall i: nat :: i < |c| && !Store.Hit(arrival, i) ==> i < |p| && p[i] == c[i]
  {
    ArrivalPieces(arrival, c);
    Store.StoredExactly(c, p, arrival);
  }

  lemma SmallFileCovered(arrival: seq<Block>, c: Data)
    requires Arrived(arrival, c) && |c| <= 1023 && arrival != []
    ensures Store.CoveredBy(c, arrival)
  {
    var t := ArrivedShape(arrival, c, arrival[0]);
    forall i: nat | i < |c| ensures Store.Hit(arrival, i) {
      assert Store.Hits(arrival[0], i);
    }
  }

  // Over no previous copy: it has at most 1023 bytes and its block arrived.
  lemma StoredFreshExactly(arrival: seq<Block>, c: Data)
    requires Arrived(arrival, c) && c != []
    ensures Store.AllWellFormed(arrival)
    ensures Store.StoreAll([], arrival) == c <==> |c| <= 1023 && arrival != []
  {
    StoredExactly(arrival, c, []);
    if |c| >= 1024 {
      HitExactly(arrival, c, 1023);
    } else if arrival != [] {
      SmallFileCovered(arrival, c);
    }
  }

  // Up to 1023 bytes the stored file is the content followed by what a longer
  // previous copy had beyond it, or the previous copy if nothing arrived.
  lemma SmallFileStored(arrival: seq<Block>, c: Data, p: Data)
    requires Arrived(arrival, c) && |c| <= 1023
    ensures Store.AllWellFormed(arrival)
    ensures Store.StoreAll(p, arrival) == if arrival == [] then p else Store.Overlay(c, p)
  {
    ArrivalPieces(arrival, c);
    if arrival != [] {
      SmallFileCovered(arrival, c);
      Store.CompleteStore(c, p, arrival);
    }
  }

  // Offsets that no block of any file ever covers; 1023 is the first.
  predicate Lost(i: nat) { i % STRIDE >= (i / STRIDE + 1023) % 1024 }

  ghost predicate FromPipeline(b: Block) {
    exists c :: Arrived([b], c)
  }

  lemma PipelineMisses(b: Block, i: nat)
    requires FromPipeline(b) && Lost(i)
    ensures !Store.Hits(b, i)
  {
    var c :| Arrived([b], c);
    HitExactly([b], c, i);
  }

  // In the whole history of a server that starts empty, whoever backs up what
  // and in which order, a lost offset of a stored file never holds a byte.
  lemma {:induction false} LostForEver(rs: seq<Server.Request>, path: string, i: nat)
    requires Server.AllValid(rs) && (forall k :: 0 <= k < |rs| ==> FromPipeline(rs[k].block)) && Lost(i)
    ensures Store.ByteAt(Server.Stored(Server.ApplyAll(map[], rs), path), i) == 0
  {
    if rs != [] {
      var n := |rs| - 1;
      var r := rs[n];
      LostForEver(rs[..n], path, i);
      var before := Server.ApplyAll(map[], rs[..n]);
      PipelineMisses(r.block, i);
      Store.WriteBytes(Server.Stored(before, path), r.block);
    }
  }

  // So such a server never holds a NUL-free file of more than 1023 bytes.
  lemma LargeFileNeverStored(rs: seq<Server.Request>, path: string, c: Data)
    requires Server.AllValid(rs) && (forall k :: 0 <= k < |rs| ==> FromPipeline(rs[k].block))
    requires NulFree(c) && |c| >= 1024
    ensures Server.Stored(Server.ApplyAll(map[], rs), path) != c
  {
    LostForEver(rs, path, 1023);
    assert Store.ByteAt(c, 1023) == c[1023] != 0;
  }
}
