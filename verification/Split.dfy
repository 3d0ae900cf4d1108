// The client's block splitting (Get_shm and TransFile in src/client/main.hpp).
module Split {
  import opened Bytes
  import ShmCopy

  const STRIDE: nat := 4095
  const SECTION: nat := 4096

  datatype Block = Block(left: nat, right: nat, data: Data)

  // Number of the last block: one block more than whole 4096-byte sections.
  function LastBlock(length: nat): nat { length / SECTION }

  predicate Fits(length: nat, size: nat) { STRIDE * (LastBlock(length) + 1) <= size }

  // The 4096-byte buffer of block t: 4095 bytes of the image and a NUL.
  function Buffer(image: Data, t: nat): Data
    requires STRIDE * (t + 1) <= |image|
  {
    image[STRIDE * t..STRIDE * (t + 1)] + [0]
  }

  function BlockAt(image: Data, t: nat): Block
    requires STRIDE * (t + 1) <= |image|
  {
    Block(STRIDE * t, STRIDE * t + StrLen(Buffer(image, t)), Buffer(image, t))
  }

  function Blocks(image: Data, length: nat): seq<Block>
    requires Fits(length, |image|)
  {
    seq(LastBlock(length) + 1, t requires 0 <= t <= LastBlock(length) => BlockAt(image, t))
  }

  // TransFile sends a block only when its contents are not the empty string.
  function Sent(blocks: seq<Block>): seq<Block> {
    if blocks == [] then []
    else
      var b := blocks[|blocks| - 1];
      Sent(blocks[..|blocks| - 1]) + if StrLen(b.data) > 0 then [b] else []
  }

  // Each block is sent as often as it occurs if it is not empty, and never
  // otherwise; the order is kept.
  lemma SnocCount(bs: seq<Block>, x: Block, b: Block)
    ensures multiset(bs + [x])[b] == multiset(bs)[b] + if x == b then 1 else 0
  {
  }

  lemma SentStep(blocks: seq<Block>, b: Block)
    requires blocks != []
    ensures var n := |blocks| - 1;
            && multiset(blocks)[b] == multiset(blocks[..n])[b] + (if blocks[n] == b then 1 else 0)
            && multiset(Sent(blocks))[b] ==
               multiset(Sent(blocks[..n]))[b] + if blocks[n] == b && StrLen(b.data) > 0 then 1 else 0
  {
    var n := |blocks| - 1;
    SnocCount(blocks[..n], blocks[n], b);
    SnocCount(Sent(blocks[..n]), blocks[n], b);
    assert blocks == blocks[..n] + [blocks[n]];
  }

  lemma {:induction false} SentOnce(blocks: seq<Block>, b: Block)
    ensures multiset(Sent(blocks))[b] == if StrLen(b.data) > 0 then multiset(blocks)[b] else 0
  {
    if blocks != [] {
      SentOnce(blocks[..|blocks| - 1], b);
      SentStep(blocks, b);
      hide Sent, StrLen;
    }
  }

  ghost predicate Ascending(bs: seq<Block>) { forall i, j :: 0 <= i < j < |bs| ==> bs[i].left < bs[j].left }

  lemma {:induction false} SentAmong(blocks: seq<Block>, b: Block)
    requires b in Sent(blocks)
    ensures b in blocks
  {
    var n := |blocks| - 1;
    if b in Sent(blocks[..n]) {
      SentAmong(blocks[..n], b);
    }
  }

  lemma AscendingSnoc(bs: seq<Block>, x: Block)
    requires Ascending(bs) && forall b :: b in bs ==> b.left < x.left
    ensures Ascending(bs + [x])
  {
    assert forall i :: 0 <= i < |bs| ==> bs[i] in bs;
  }

  lemma {:induction false} SentAscending(blocks: seq<Block>)
    requires Ascending(blocks)
    ensures Ascending(Sent(blocks))
  {
    if blocks != [] {
      var n := |blocks| - 1;
      var before, x := Sent(blocks[..n]), blocks[n];
      SentAscending(blocks[..n]);
      forall b | b in before ensures b.left < x.left {
        SentAmong(blocks[..n], b);
      }
      AscendingSnoc(before, x);
      assert Sent(blocks) == if StrLen(x.data) > 0 then before + [x] else before;
      hide Sent, StrLen, Ascending;
    }
  }

  // The array of blocks as Get_shm fills it.
  method FillBlocks(image: Data, length: nat) returns (blocks: array<Block>)
    requires Fits(length, |image|)
    ensures fresh(blocks) && blocks[..] == Blocks(image, length)
  {
    var n := length / SECTION + 1;
    blocks := new Block[n](i => Block(0, 0, []));
    var temp := 0;
    while temp < n
      invariant 0 <= temp <= n
      invariant forall t :: 0 <= t < temp ==> blocks[t] == BlockAt(image, t)
    {
      var contents := image[STRIDE * temp..STRIDE * temp + STRIDE] + [0];
      blocks[temp] := Block(temp * STRIDE, temp * STRIDE + StrLen(contents), contents);
      temp := temp + 1;
    }
  }

  method GetShm(image: Data, length: nat) returns (sent: seq<Block>)
    requires Fits(length, |image|)
    ensures sent == Sent(Blocks(image, length)) && Ascending(sent)
  {
    SentAscending(Blocks(image, length));
    var blocks := FillBlocks(image, length);
    sent := [];
    var i := 0;
    while i < blocks.Length
      invariant 0 <= i <= blocks.Length
      invariant sent == Sent(blocks[..i])
    {
      assert blocks[..i + 1][..i] == blocks[..i];
      if StrLen(blocks[i].data) > 0 {
        sent := sent + [blocks[i]];
      }
      i := i + 1;
    }
    assert blocks[..i] == blocks[..];
  }

  // The mapping is large enough for every file it can hold.
  lemma MappingFits(length: nat)
    requires length <= ShmCopy.SHM_SIZE
    ensures Fits(length, 0x4000_0000) && ShmCopy.SHM_SIZE == 0x4000_0000
  {
  }

  // The split alone, on a NUL-free content followed by zeros.

  ghost predicate Padded(image: Data, c: Data) {
    |c| <= |image| && image[..|c|] == c && forall i :: |c| <= i < |image| ==> image[i] == 0
  }

  // Bytes that no block covers.
  function Uncovered(length: nat): nat {
    var excess := length / SECTION + length % SECTION;
    if excess <= STRIDE then 0 else excess - STRIDE
  }

  // A block holds the piece of `c` its range names, and only that piece.
  ghost predicate Carries(b: Block, c: Data) {
    && b.left <= b.right <= |c| && |b.data| == STRIDE + 1
    && StrLen(b.data) == b.right - b.left <= STRIDE
    && b.data[..b.right - b.left] == c[b.left..b.right]
  }

  lemma BlockCarries(image: Data, c: Data, t: nat)
    requires Padded(image, c) && NulFree(c) && Fits(|c|, |image|) && t <= LastBlock(|c|)
    ensures STRIDE * t <= |c|
    ensures var b := BlockAt(image, t);
            Carries(b, c) && b.right == STRIDE * t + Min(STRIDE, |c| - STRIDE * t)
  {
    var n := Min(STRIDE, |c| - STRIDE * t);
    var buffer := Buffer(image, t);
    assert forall i :: 0 <= i < |c| ==> c[i] == image[..|c|][i] == image[i];
    assert forall j :: 0 <= j < STRIDE ==> buffer[j] == image[STRIDE * t + j];
    StrLenIs(buffer, n);
  }

  lemma LastBlockArithmetic(length: nat)
    requires length >= 1
    ensures var q := LastBlock(length);
            STRIDE * q < length && length - STRIDE * q == q + length % SECTION
  {
  }

  // For every content of length L >= 1: all blocks but the last are full, none
  // is empty, the ranges are contiguous from 0 (hence disjoint), and what the
  // last one leaves over is max(0, L/4096 + L%4096 - 4095) bytes.
  lemma SplitCoverage(image: Data, c: Data)
    requires Padded(image, c) && NulFree(c) && |c| >= 1 && Fits(|c|, |image|)
    ensures var bs := Blocks(image, |c|);
            var q := LastBlock(|c|);
            && |bs| == q + 1 && bs[0].left == 0
            && (forall t :: 0 <= t < q ==> bs[t].right == bs[t].left + STRIDE == bs[t + 1].left)
            && bs[q].left < bs[q].right <= |c|
            && |c| - bs[q].right == Uncovered(|c|)
            && forall t :: 0 <= t < |bs| ==> Carries(bs[t], c)
  {
    var bs, q := Blocks(image, |c|), LastBlock(|c|);
    forall t | 0 <= t <= q
      ensures Carries(bs[t], c) && bs[t].left == STRIDE * t && bs[t].right == STRIDE * t + Min(STRIDE, |c| - STRIDE * t)
    {
      BlockCarries(image, c, t);
    }
    LastBlockArithmetic(|c|);
    assert bs[q].left == STRIDE * q && bs[q].right == STRIDE * q + Min(STRIDE, |c| - STRIDE * q);
  }

  ghost predicate Covers(bs: seq<Block>, i: nat) {
    exists t :: 0 <= t < |bs| && bs[t].left <= i < bs[t].right
  }

  lemma CompleteExactly(image: Data, c: Data)
    requires Padded(image, c) && NulFree(c) && |c| >= 1 && Fits(|c|, |image|)
    ensures (forall i :: 0 <= i < |c| ==> Covers(Blocks(image, |c|), i)) <==>
            |c| / SECTION + |c| % SECTION <= STRIDE
  {
    SplitCoverage(image, c);
    var bs, q := Blocks(image, |c|), LastBlock(|c|);
    if Uncovered(|c|) > 0 {
      assert !Covers(bs, |c| - 1) by {
        forall t | 0 <= t < |bs| ensures bs[t].right < |c| {
          assert t == q || bs[t].right == STRIDE * (t + 1);
        }
      }
    } else {
      forall i | 0 <= i < |c| ensures Covers(bs, i) {
        var t := Min(i / STRIDE, q);
        assert bs[t].left <= i < bs[t].right;
      }
    }
  }

  // The split of what the hook's copy leaves: block t ends at the first offset
  // congruent to 1023 modulo 1024, and 4095 is congruent to -1.

  function CarriedBy(t: nat, length: nat): int {
    Min((t + 1023) % 1024, length - STRIDE * t)
  }

  lemma Remainder(x: int, k: int, m: int)
    requires x == 1024 * k + m && 0 <= m < 1024
    ensures x % 1024 == m
  {
  }

  lemma Residue(t: nat, j: nat)
    requires j <= (t + 1023) % 1024
    ensures (STRIDE * t + j) % 1024 == 1023 <==> j == (t + 1023) % 1024
  {
    var q, r := (t + 1023) / 1024, (t + 1023) % 1024;
    assert t + 1023 == 1024 * q + r;
    Remainder(STRIDE * t + j, 4 * t - q, 1023 - (r - j));
  }

  lemma CopiedByte(c: Data, size: nat, t: nat, j: nat)
    requires |c| <= size && Fits(|c|, size) && t <= LastBlock(|c|) && j <= CarriedBy(t, |c|) && j < STRIDE
    ensures Buffer(ShmCopy.Image(c, size), t)[j] == if j < CarriedBy(t, |c|) then c[STRIDE * t + j] else 0
  {
    Residue(t, j);
    var image := ShmCopy.Image(c, size);
    assert Buffer(image, t)[j] == image[STRIDE * t + j];
  }

  lemma CopiedBlockCarries(c: Data, size: nat, t: nat)
    requires NulFree(c) && |c| <= size && Fits(|c|, size) && t <= LastBlock(|c|)
    ensures CarriedBy(t, |c|) >= 0
    ensures var b := BlockAt(ShmCopy.Image(c, size), t);
            Carries(b, c) && b.right == STRIDE * t + CarriedBy(t, |c|)
  {
    var n := CarriedBy(t, |c|);
    var buffer := Buffer(ShmCopy.Image(c, size), t);
    forall j | 0 <= j <= n && j < STRIDE
      ensures buffer[j] == if j < n then c[STRIDE * t + j] else 0
    {
      CopiedByte(c, size, t, j);
    }
    hide ShmCopy.Image, Buffer;
    StrLenIs(buffer, n);
  }

  lemma CopyThenSplit(c: Data, size: nat)
    requires NulFree(c) && |c| <= size && Fits(|c|, size)
    ensures var bs := Blocks(ShmCopy.Image(c, size), |c|);
            && |bs| == LastBlock(|c|) + 1
            && forall t :: 0 <= t < |bs| ==>
                 && Carries(bs[t], c)
                 && bs[t].left == STRIDE * t
                 && bs[t].right == bs[t].left + CarriedBy(t, |c|)
  {
    forall t | 0 <= t <= LastBlock(|c|)
      ensures CarriedBy(t, |c|) >= 0
      ensures var b := BlockAt(ShmCopy.Image(c, size), t);
              Carries(b, c) && b.right == STRIDE * t + CarriedBy(t, |c|)
    {
      CopiedBlockCarries(c, size, t);
    }
  }

  // Which bytes survive copy and split; all do exactly up to 1023 bytes.
  lemma SurvivorsExactly(c: Data, size: nat, i: nat)
    requires NulFree(c) && i < |c| <= size && Fits(|c|, size)
    ensures Covers(Blocks(ShmCopy.Image(c, size), |c|), i) <==>
            i / STRIDE <= LastBlock(|c|) && i % STRIDE < (i / STRIDE + 1023) % 1024
  {
    CopyThenSplit(c, size);
    var bs, t := Blocks(ShmCopy.Image(c, size), |c|), i / STRIDE;
    if t < |bs| {
      assert bs[t].left <= i < bs[t].right <==> i % STRIDE < (t + 1023) % 1024;
    }
    assert forall u :: 0 <= u < |bs| && bs[u].left <= i < bs[u].right ==> u == t;
  }

  lemma SurvivesWholeExactly(c: Data, size: nat)
    requires NulFree(c) && |c| <= size && Fits(|c|, size)
    ensures (forall i :: 0 <= i < |c| ==> Covers(Blocks(ShmCopy.Image(c, size), |c|), i)) <==> |c| <= 1023
  {
    var bs := Blocks(ShmCopy.Image(c, size), |c|);
    if |c| >= 1024 {
      SurvivorsExactly(c, size, 1023);
    } else {
      forall i | 0 <= i < |c| ensures Covers(bs, i) {
        SurvivorsExactly(c, size, i);
      }
    }
  }
}
