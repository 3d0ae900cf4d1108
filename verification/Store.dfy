// The server's side of a backup (monitor::backup in
// src/server/monitor/monitor.cpp): blocks written at their offsets into a file
// that is created when missing and never truncated.
module Store {
  import opened Bytes
  import opened Split

  // lseek and write: a gap reads as zeros, and writing nothing changes nothing.
  function WriteAt(f: Data, off: nat, bytes: Data): Data {
    if bytes == [] then f
    else
      var g := if |f| < off then f + Zeros(off - |f|) else f;
      g[..off] + bytes + (if off + |bytes| < |g| then g[off + |bytes|..] else [])
  }

  predicate WellFormed(b: Block) { b.left <= b.right && b.right - b.left <= |b.data| }

  function Payload(b: Block): Data
    requires WellFormed(b)
  {
    b.data[..b.right - b.left]
  }

  ghost predicate AllWellFormed(bs: seq<Block>) { forall b :: b in bs ==> WellFormed(b) }

  // The stored file after the blocks arrived in this order over a previous copy.
  ghost function StoreAll(p: Data, bs: seq<Block>): Data
    requires AllWellFormed(bs)
  {
    if bs == [] then p
    else
      var n := |bs| - 1;
      WriteAt(StoreAll(p, bs[..n]), bs[n].left, Payload(bs[n]))
  }

  method Backup(f: Data, b: Block) returns (g: Data)
    requires WellFormed(b)
    ensures |g| == if b.left == b.right then |f| else (if b.right > |f| then b.right else |f|)
    ensures forall i :: 0 <= i < |g| ==>
              g[i] == if b.left <= i < b.right then b.data[i - b.left] else if i < |f| then f[i] else 0
  {
    g := WriteAt(f, b.left, Payload(b));
  }

  // That contract leaves the method no choice.
  lemma WriteUnique(f: Data, b: Block, g: Data)
    requires WellFormed(b)
    requires |g| == if b.left == b.right then |f| else (if b.right > |f| then b.right else |f|)
    requires forall i :: 0 <= i < |g| ==>
               g[i] == if b.left <= i < b.right then b.data[i - b.left] else if i < |f| then f[i] else 0
    ensures g == WriteAt(f, b.left, Payload(b))
  {
  }

  // A description of the result that does not mention the order: its length,
  // and for each offset the byte some block puts there, else the old byte.

  function ByteAt(f: Data, i: nat): byte { if i < |f| then f[i] else 0 }

  ghost predicate Hits(b: Block, i: nat) { b.left <= i < b.right }

  ghost predicate Hit(bs: seq<Block>, i: nat) { exists b :: b in bs && Hits(b, i) }

  ghost predicate Agree(bs: seq<Block>) {
    forall a, b, i: nat :: a in bs && b in bs && Hits(a, i) && Hits(b, i) && WellFormed(a) && WellFormed(b) ==>
      a.data[i - a.left] == b.data[i - b.left]
  }

  ghost predicate Describes(f: Data, p: Data, bs: seq<Block>) {
    && |p| <= |f|
    && (forall b :: b in bs && b.left < b.right ==> b.right <= |f|)
    && (|f| == |p| || exists b :: b in bs && b.left < b.right == |f|)
    && (forall b, i: nat :: b in bs && WellFormed(b) && Hits(b, i) ==> ByteAt(f, i) == b.data[i - b.left])
    && (forall i: nat :: !Hit(bs, i) ==> ByteAt(f, i) == ByteAt(p, i))
  }

  lemma WriteBytes(f: Data, b: Block)
    requires WellFormed(b)
    ensures var g := WriteAt(f, b.left, Payload(b));
            && |g| == (if b.left == b.right || b.right <= |f| then |f| else b.right)
            && forall i: nat :: ByteAt(g, i) == if Hits(b, i) then b.data[i - b.left] else ByteAt(f, i)
  {
  }

  lemma AddBlock(f: Data, g: Data, p: Data, before: seq<Block>, last: Block)
    requires Describes(f, p, before) && WellFormed(last)
    requires AllWellFormed(before + [last]) && Agree(before + [last])
    requires |g| == if last.left == last.right || last.right <= |f| then |f| else last.right
    requires forall i: nat :: ByteAt(g, i) == if Hits(last, i) then last.data[i - last.left] else ByteAt(f, i)
    ensures Describes(g, p, before + [last])
  {
    var bs := before + [last];
    assert last in bs;
    if |g| != |p| && |g| == |f| {
      var b :| b in before && b.left < b.right == |f|;
      assert b in bs;
    }
    forall b, i: nat | b in bs && WellFormed(b) && Hits(b, i)
      ensures ByteAt(g, i) == b.data[i - b.left]
    {
      if Hits(last, i) {
        assert last.data[i - last.left] == b.data[i - b.left];
      } else {
        assert b in before;
      }
    }
    forall i: nat | !Hit(bs, i)
      ensures ByteAt(g, i) == ByteAt(p, i)
    {
      assert forall b :: b in before ==> b in bs;
      assert !Hit(before, i);
    }
  }

  lemma {:induction false} StoreDescribed(p: Data, bs: seq<Block>)
    requires AllWellFormed(bs) && Agree(bs)
    ensures Describes(StoreAll(p, bs), p, bs)
  {
    if bs != [] {
      var n := |bs| - 1;
      var before, last := bs[..n], bs[n];
      assert bs == before + [last];
      StoreDescribed(p, before);
      var f, g := StoreAll(p, before), StoreAll(p, bs);
      WriteBytes(f, last);
      AddBlock(f, g, p, before, last);
    }
  }

  lemma DescriptionUnique(f: Data, g: Data, p: Data, bs: seq<Block>)
    requires AllWellFormed(bs) && Describes(f, p, bs) && Describes(g, p, bs)
    ensures f == g
  {
    forall i: nat
      ensures ByteAt(f, i) == ByteAt(g, i)
    {
      if Hit(bs, i) {
        var b :| b in bs && Hits(b, i);
        assert WellFormed(b);
        assert ByteAt(f, i) == b.data[i - b.left] == ByteAt(g, i);
      }
    }
    assert |f| == |g|;
    forall i | 0 <= i < |f| ensures f[i] == g[i] {
      assert ByteAt(f, i) == ByteAt(g, i);
    }
  }

  lemma SameDescription(f: Data, p: Data, bs: seq<Block>, cs: seq<Block>)
    requires Describes(f, p, bs) && forall b :: b in bs <==> b in cs
    ensures Describes(f, p, cs)
  {
    if |f| != |p| {
      var b :| b in bs && b.left < b.right == |f|;
      assert b in cs;
    }
    forall i: nat | !Hit(cs, i)
      ensures ByteAt(f, i) == ByteAt(p, i)
    {
      assert !Hit(bs, i);
    }
  }

  // For blocks that agree where they overlap, as the blocks of one file do, the
  // stored file does not depend on the order of arrival.
  lemma OrderIndependence(p: Data, bs: seq<Block>, cs: seq<Block>)
    requires AllWellFormed(bs) && Agree(bs) && multiset(bs) == multiset(cs)
    ensures AllWellFormed(cs) && StoreAll(p, bs) == StoreAll(p, cs)
  {
    forall b ensures b in bs <==> b in cs {
      assert b in bs <==> b in multiset(bs);
      assert b in cs <==> b in multiset(cs);
    }
    StoreDescribed(p, bs);
    StoreDescribed(p, cs);
    SameDescription(StoreAll(p, cs), p, cs, bs);
    DescriptionUnique(StoreAll(p, bs), StoreAll(p, cs), p, bs);
  }

  // Blocks that each carry a piece of one content.
  ghost predicate PiecesOf(bs: seq<Block>, c: Data) { forall b :: b in bs ==> Carries(b, c) }

  lemma PieceByte(b: Block, c: Data, i: nat)
    requires Carries(b, c) && Hits(b, i)
    ensures b.data[i - b.left] == c[i]
  {
    assert b.data[..b.right - b.left][i - b.left] == c[b.left..b.right][i - b.left];
  }

  lemma PiecesAgree(bs: seq<Block>, c: Data)
    requires PiecesOf(bs, c)
    ensures AllWellFormed(bs) && Agree(bs)
  {
    forall a, b, i: nat | a in bs && b in bs && Hits(a, i) && Hits(b, i) && WellFormed(a) && WellFormed(b)
      ensures a.data[i - a.left] == b.data[i - b.left]
    {
      PieceByte(a, c, i);
      PieceByte(b, c, i);
    }
  }

  // A complete content over a previous copy, whatever the order of arrival: the
  // content followed by what the previous copy had beyond it.
  function Overlay(c: Data, p: Data): Data {
    if |p| <= |c| then c else c + p[|c|..]
  }

  ghost predicate CoveredBy(c: Data, bs: seq<Block>) {
    forall i: nat :: i < |c| ==> Hit(bs, i)
  }

  lemma OverlayDescribed(c: Data, p: Data, bs: seq<Block>)
    requires PiecesOf(bs, c) && CoveredBy(c, bs)
    ensures Describes(Overlay(c, p), p, bs)
  {
    var f := Overlay(c, p);
    if |c| > |p| {
      assert Hit(bs, |c| - 1);
      var b :| b in bs && Hits(b, |c| - 1);
      assert b.left < b.right == |f|;
    }
    forall b, i: nat | b in bs && WellFormed(b) && Hits(b, i)
      ensures ByteAt(f, i) == b.data[i - b.left]
    {
      PieceByte(b, c, i);
    }
  }

  lemma CompleteStore(c: Data, p: Data, bs: seq<Block>)
    requires PiecesOf(bs, c) && CoveredBy(c, bs)
    ensures AllWellFormed(bs) && StoreAll(p, bs) == Overlay(c, p)
  {
    PiecesAgree(bs, c);
    StoreDescribed(p, bs);
    OverlayDescribed(c, p, bs);
    DescriptionUnique(StoreAll(p, bs), Overlay(c, p), p, bs);
  }

  // Wherever no block arrived the previous copy already had the right byte.
  ghost predicate Kept(c: Data, p: Data, bs: seq<Block>) {
    forall i: nat :: i < |c| && !Hit(bs, i) ==> i < |p| && p[i] == c[i]
  }

  lemma KeptStore(c: Data, p: Data, bs: seq<Block>)
    requires PiecesOf(bs, c) && AllWellFormed(bs) && NulFree(c) && |p| <= |c| && Kept(c, p, bs)
    requires Describes(StoreAll(p, bs), p, bs)
    ensures StoreAll(p, bs) == c
  {
    var f := StoreAll(p, bs);
    forall i: nat | i < |c| ensures ByteAt(f, i) == c[i] {
      if Hit(bs, i) {
        var b :| b in bs && Hits(b, i);
        PieceByte(b, c, i);
        assert WellFormed(b);
      }
    }
    assert ByteAt(f, |f|) == 0;
    forall i | 0 <= i < |c| ensures f[i] == c[i] {
      assert ByteAt(f, i) == c[i];
    }
  }

  // Exactly when the store ends up with the content itself: the previous copy is
  // not longer and has the bytes that did not arrive.
  lemma StoredExactly(c: Data, p: Data, bs: seq<Block>)
    requires PiecesOf(bs, c) && NulFree(c)
    ensures AllWellFormed(bs)
    ensures StoreAll(p, bs) == c <==> |p| <= |c| && Kept(c, p, bs)
  {
    PiecesAgree(bs, c);
    StoreDescribed(p, bs);
    if StoreAll(p, bs) == c {
      assert |p| <= |c|;
      forall i: nat | i < |c| && !Hit(bs, i) ensures i < |p| && p[i] == c[i] {
        assert ByteAt(c, i) == ByteAt(p, i);
      }
    }
    if |p| <= |c| && Kept(c, p, bs) {
      KeptStore(c, p, bs);
    }
  }
}
