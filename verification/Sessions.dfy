// Several recoveries in one session of the client (Recv_file in
// src/client/inotify.cpp): the running total goes on from one to the next.
module Sessions {
  import opened Bytes
  import opened Recovery

  datatype Transfer = Transfer(name: string, stored: Data)

  function AllPackets(ts: seq<Transfer>): seq<Packet> {
    if ts == [] then []
    else AllPackets(ts[..|ts| - 1]) + Packets(ts[|ts| - 1].name, ts[|ts| - 1].stored)
  }

  // The running total after the transfers: the bytes before the first NUL of each
  // packet count.
  function TotalAfter(count: int, ts: seq<Transfer>): int {
    if ts == [] then count else TotalAfter(count, ts[..|ts| - 1]) + |Flat(Pieces(ts[|ts| - 1].stored))|
  }

  ghost predicate DistinctNames(ts: seq<Transfer>) {
    forall i, j :: 0 <= i < j < |ts| ==> ts[i].name != ts[j].name
  }

  lemma {:induction false} ReceiveMore(c: Client, a: seq<Packet>, b: seq<Packet>)
    ensures ReceiveAll(c, a + b) == ReceiveAll(ReceiveAll(c, a), b)
    decreases |a|
  {
    if a == [] {
      assert a + b == b;
    } else {
      ReceiveMore(Receive(c, a[0]), a[1..], b);
      assert (a + b)[0] == a[0] && (a + b)[1..] == a[1..] + b;
    }
  }

  lemma {:induction false} FilePacketsOfPackets(name: string, s: Data)
    ensures FilePackets(Packets(name, s)) == Packets(name, s)
    decreases |s|
  {
    if s != [] {
      var n := Min(CHUNK, |s|);
      FilePacketsOfPackets(name, s[n..]);
      var ps := Packets(name, s);
      assert ps[0].File? && ps[1..] == Packets(name, s[n..]);
    }
  }

  // One more transfer changes the total and its own file.
  lemma LastTransfer(c: Client, ts: seq<Transfer>)
    requires ts != []
    ensures var n := |ts| - 1;
            var before, after := ReceiveAll(c, AllPackets(ts[..n])), ReceiveAll(c, AllPackets(ts));
            var ps := Pieces(ts[n].stored);
            && after.count == before.count + |Flat(ps)|
            && Old(after, ts[n].name) == Recovered(before.count, Old(before, ts[n].name), ps)
            && forall other :: other != ts[n].name ==> Old(after, other) == Old(before, other)
  {
    var n := |ts| - 1;
    var packets := Packets(ts[n].name, ts[n].stored);
    ReceiveMore(c, AllPackets(ts[..n]), packets);
    FilePacketsOfPackets(ts[n].name, ts[n].stored);
    hide FilePackets, Packets, ReceiveAll, Recovered, Pieces, Flat;
    RecoveryFold(ReceiveAll(c, AllPackets(ts[..n])), ts[n].name, ts[n].stored, packets);
  }

  lemma {:induction false} TotalGoesOn(c: Client, ts: seq<Transfer>)
    ensures ReceiveAll(c, AllPackets(ts)).count == TotalAfter(c.count, ts)
  {
    if ts != [] {
      TotalGoesOn(c, ts[..|ts| - 1]);
      LastTransfer(c, ts);
      hide AllPackets, ReceiveAll, Recovered, Pieces, Flat;
    }
  }

  lemma {:induction false} OthersUntouched(c: Client, ts: seq<Transfer>, other: string)
    requires forall k :: 0 <= k < |ts| ==> ts[k].name != other
    ensures Old(ReceiveAll(c, AllPackets(ts)), other) == Old(c, other)
  {
    if ts != [] {
      OthersUntouched(c, ts[..|ts| - 1], other);
      LastTransfer(c, ts);
      hide AllPackets, ReceiveAll, Recovered, Pieces, Flat;
    }
  }

  lemma {:induction false} TransferAt(c: Client, ts: seq<Transfer>, k: nat)
    requires DistinctNames(ts) && k < |ts|
    ensures Old(ReceiveAll(c, AllPackets(ts)), ts[k].name) ==
            Recovered(TotalAfter(c.count, ts[..k]), Old(c, ts[k].name), Pieces(ts[k].stored))
  {
    var n := |ts| - 1;
    LastTransfer(c, ts);
    hide AllPackets, ReceiveAll, Recovered, Pieces, Flat, TotalAfter;
    if k == n {
      TotalGoesOn(c, ts[..n]);
      OthersUntouched(c, ts[..n], ts[n].name);
    } else {
      assert ts[..n][..k] == ts[..k] && ts[..n][k] == ts[k];
      TransferAt(c, ts[..n], k);
    }
  }

  // For any number of recoveries of different files in one session, with
  // heartbeats anywhere: each local file is what its own recovery makes of it,
  // starting from the total that the earlier ones left.
  lemma SessionFold(c: Client, ts: seq<Transfer>, stream: seq<Packet>, k: nat)
    requires FilePackets(stream) == AllPackets(ts) && DistinctNames(ts) && k < |ts|
    ensures Old(ReceiveAll(c, stream), ts[k].name) ==
            Recovered(TotalAfter(c.count, ts[..k]), Old(c, ts[k].name), Pieces(ts[k].stored))
  {
    HeartbeatsInvisible(c, stream);
    TransferAt(c, ts, k);
  }

  // Whole small files over local files with contents, such as decoys.
  ghost predicate SmallOverDecoys(c: Client, ts: seq<Transfer>) {
    && c.count >= 0 && DistinctNames(ts)
    && forall i :: 0 <= i < |ts| ==>
         0 < |ts[i].stored| <= 1023 && NulFree(ts[i].stored) && Old(c, ts[i].name) != []
  }

  function Lengths(ts: seq<Transfer>): nat {
    if ts == [] then 0 else Lengths(ts[..|ts| - 1]) + |ts[|ts| - 1].stored|
  }

  lemma {:induction false} TotalIsLengths(count: int, ts: seq<Transfer>)
    requires forall i :: 0 <= i < |ts| ==> NulFree(ts[i].stored)
    ensures TotalAfter(count, ts) == count + Lengths(ts)
  {
    if ts != [] {
      TotalIsLengths(count, ts[..|ts| - 1]);
      FlatPieces(ts[|ts| - 1].stored);
    }
  }

  // Exactly which of them come back: those up to which the lengths, added to the
  // total at the start, stay within the window.  So once one fails, all later
  // ones do.
  lemma SessionExactly(c: Client, ts: seq<Transfer>, stream: seq<Packet>, k: nat)
    requires FilePackets(stream) == AllPackets(ts) && SmallOverDecoys(c, ts) && k < |ts|
    ensures var after := Old(ReceiveAll(c, stream), ts[k].name);
            && (after == ts[k].stored <==> c.count + Lengths(ts[..k + 1]) <= 4096)
            && (after != ts[k].stored ==> after == Old(c, ts[k].name) + ts[k].stored)
  {
    var s, old_ := ts[k].stored, Old(c, ts[k].name);
    SessionFold(c, ts, stream, k);
    TotalIsLengths(c.count, ts[..k]);
    assert ts[..k + 1][..k] == ts[..k];
    NulFreeRecovery(TotalAfter(c.count, ts[..k]), old_, s);
    assert |old_ + s| > |s|;
  }

  lemma {:induction false} LengthsGrow(ts: seq<Transfer>, j: nat, k: nat)
    requires j <= k <= |ts|
    ensures Lengths(ts[..j]) <= Lengths(ts[..k])
  {
    if j < k {
      LengthsGrow(ts, j, k - 1);
      assert ts[..k][..k - 1] == ts[..k - 1];
    }
  }

  lemma OnceLostAlwaysLost(c: Client, ts: seq<Transfer>, stream: seq<Packet>, j: nat, k: nat)
    requires FilePackets(stream) == AllPackets(ts) && SmallOverDecoys(c, ts) && j <= k < |ts|
    requires Old(ReceiveAll(c, stream), ts[j].name) != ts[j].stored
    ensures Old(ReceiveAll(c, stream), ts[k].name) != ts[k].stored
  {
    SessionExactly(c, ts, stream, j);
    SessionExactly(c, ts, stream, k);
    LengthsGrow(ts, j + 1, k + 1);
  }
}
