// The client's heartbeat detector (heart_handler and Recv_file in
// src/client/inotify.cpp) up to its first declaration that the server is gone.
// A tick is one pass of the three-second loop; ticks and receipts are atomic.
module Heartbeat {

  datatype Event = Tick | Packet

  // The character `head_file.count`; a zeroed global before the first packet.
  datatype State = State(count: char, offline: bool)

  function Init(): State { State('\0', false) }

  // Every packet, heartbeat or data, carries the count '0'.
  function Next(s: State, e: Event): State {
    if s.offline then s
    else if e.Packet? then s.(count := '0')
    else if s.count == '3' then s.(offline := true)
    else if '0' <= s.count < '3' then s.(count := (s.count as int + 1) as char)
    else s
  }

  function Run(es: seq<Event>): State {
    if es == [] then Init() else Next(Run(es[..|es| - 1]), es[|es| - 1])
  }

  // Ticks since the last packet; -1 while there was none.
  function TicksSince(es: seq<Event>): int {
    if es == [] then -1
    else
      var n := |es| - 1;
      if es[n].Packet? then 0
      else
        var k := TicksSince(es[..n]);
        if k < 0 then -1 else k + 1
  }

  // A packet and then four ticks in a row, ending at position i.
  ghost predicate FourTicks(es: seq<Event>, i: nat) {
    4 <= i < |es| && es[i - 4].Packet? && es[i - 3].Tick? && es[i - 2].Tick? && es[i - 1].Tick? && es[i].Tick?
  }

  ghost predicate Silent(es: seq<Event>) { exists i: nat :: FourTicks(es, i) }

  lemma {:induction false} TicksMean(es: seq<Event>, k: nat)
    requires TicksSince(es) >= k
    ensures |es| > k && forall j :: |es| - k <= j < |es| ==> es[j].Tick?
    ensures TicksSince(es) == k ==> es[|es| - 1 - k].Packet?
  {
    if k > 0 {
      var n := |es| - 1;
      TicksMean(es[..n], k - 1);
      forall j | |es| - k <= j < |es| ensures es[j].Tick? {
        if j < n { assert es[..n][j].Tick?; }
      }
    }
  }

  lemma {:induction false} TicksCounted(es: seq<Event>, k: nat)
    requires |es| > k && es[|es| - 1 - k].Packet? && forall j :: |es| - k <= j < |es| ==> es[j].Tick?
    ensures TicksSince(es) == k
  {
    if k > 0 {
      var n := |es| - 1;
      assert es[n].Tick?;
      TicksCounted(es[..n], k - 1);
    }
  }

  // While nothing is declared the counter stands still before the first packet
  // and afterwards is '0' plus the ticks since the last one, at most three; the
  // server is declared offline exactly when some packet was followed by four
  // ticks in a row.
  lemma {:induction false} DetectorExactly(es: seq<Event>)
    ensures Run(es).offline <==> Silent(es)
    ensures !Run(es).offline ==>
              && TicksSince(es) <= 3
              && Run(es).count == if TicksSince(es) < 0 then '\0' else ('0' as int + TicksSince(es)) as char
  {
    if es != [] {
      var n := |es| - 1;
      var before := es[..n];
      DetectorExactly(before);
      if Silent(before) {
        var i: nat :| FourTicks(before, i);
        assert FourTicks(es, i);
      } else if TicksSince(before) == 3 && es[n].Tick? {
        TicksMean(before, 3);
        assert FourTicks(es, n);
      } else if i: nat :| FourTicks(es, i) {
        if i < n {
          assert FourTicks(before, i);
        } else {
          TicksCounted(before, 3);
        }
        assert false;
      }
    }
  }

  // It is declared at the fourth tick itself, not later.
  lemma DeclaredAtFourthTick(es: seq<Event>)
    requires !Run(es).offline
    ensures Run(es + [Tick]).offline <==> TicksSince(es) == 3
    ensures !Run(es + [Packet]).offline
  {
    assert (es + [Tick])[..|es|] == es && (es + [Packet])[..|es|] == es;
    DetectorExactly(es);
  }

  // The shared record of the two threads.
  class Detector {
    var count: char
    var offline: bool
    ghost var events: seq<Event>

    ghost predicate Valid()
      reads this
    {
      State(count, offline) == Run(events)
    }

    constructor ()
      ensures Valid() && events == []
    {
      count, offline, events := '\0', false, [];
    }

    method HeartTick()
      requires Valid() && !offline
      modifies this
      ensures Valid() && events == old(events) + [Tick]
      ensures offline <==> Silent(events)
    {
      assert (events + [Tick])[..|events|] == events;
      events := events + [Tick];
      if count == '3' {
        offline := true;
      } else if count < '3' && count >= '0' {
        count := (count as int + 1) as char;
      }
      DetectorExactly(events);
    }

    method ReceivePacket()
      requires Valid() && !offline
      modifies this
      ensures Valid() && events == old(events) + [Packet] && !offline && count == '0'
    {
      assert (events + [Packet])[..|events|] == events;
      events := events + [Packet];
      count := '0';
    }
  }
}
