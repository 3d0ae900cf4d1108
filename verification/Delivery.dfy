// From accepted connections to stored files: which connections' blocks reach the
// store (src/server/ser.cpp on top of monitor::process and monitor::backup).
module Delivery {
  import opened Counting
  import opened Bytes
  import opened Split
  import opened Arrival
  import opened Server
  import D = Dispatch
  import RP = RequestPool
  import Names
  import Store

  // `load[k]` is the backup request that visit k carries.

  ghost predicate ServedVisit(vs: seq<D.Visit>, k: nat) { k < |vs| && D.Served(vs[k]) }

  ghost function ServedLoads<T>(vs: seq<D.Visit>, load: seq<T>, n: nat): seq<T>
    requires n <= |vs| == |load|
  {
    if n == 0 then []
    else ServedLoads(vs, load, n - 1) + if D.Served(vs[n - 1]) then [load[n - 1]] else []
  }

  lemma {:induction false} LoadsMembers<T>(vs: seq<D.Visit>, load: seq<T>, n: nat, r: T)
    requires n <= |vs| == |load|
    ensures r in ServedLoads(vs, load, n) <==> exists k: nat :: ServedVisit(vs, k) && k < n && load[k] == r
  {
    if n > 0 {
      LoadsMembers(vs, load, n - 1, r);
      assert ServedVisit(vs, n - 1) <==> D.Served(vs[n - 1]);
    }
  }

  lemma OneMoreLoad<T>(vs: seq<D.Visit>, load: seq<T>, n: nat)
    requires 0 < n <= |vs| == |load|
    ensures multiset(ServedLoads(vs, load, n)) ==
            multiset(ServedLoads(vs, load, n - 1)) + if D.Served(vs[n - 1]) then multiset{load[n - 1]} else multiset{}
  {
  }

  lemma SnocCount<T>(rs: seq<T>, x: T, r: T)
    ensures multiset(rs + [x])[r] == multiset(rs)[r] + Unit(x == r)
  {
  }

  lemma ServedCount<T>(vs: seq<D.Visit>, load: seq<T>, n: nat, r: T)
    requires 0 < n <= |vs| == |load|
    ensures multiset(ServedLoads(vs, load, n))[r] <=
            multiset(ServedLoads(vs, load, n - 1))[r] + Unit(load[n - 1] == r)
  {
    SnocCount(ServedLoads(vs, load, n - 1), load[n - 1], r);
  }

  lemma PrefixCount<T>(load: seq<T>, n: nat, r: T)
    requires 0 < n <= |load|
    ensures multiset(load[..n])[r] == multiset(load[..n - 1])[r] + Unit(load[n - 1] == r)
  {
    SnocCount(load[..n - 1], load[n - 1], r);
    assert load[..n] == load[..n - 1] + [load[n - 1]];
  }

  lemma {:induction false} LoadCount<T>(vs: seq<D.Visit>, load: seq<T>, n: nat, r: T)
    requires n <= |vs| == |load|
    ensures multiset(ServedLoads(vs, load, n))[r] <= multiset(load[..n])[r]
  {
    if n > 0 {
      hide *;
      LoadCount(vs, load, n - 1, r);
      ServedCount(vs, load, n, r);
      PrefixCount(load, n, r);
    }
  }

  lemma LoadsWithin<T>(vs: seq<D.Visit>, load: seq<T>, n: nat)
    requires n <= |vs| == |load|
    ensures multiset(ServedLoads(vs, load, n)) <= multiset(load[..n])
  {
    hide ServedLoads;
    forall r | r in multiset(ServedLoads(vs, load, n))
      ensures multiset(ServedLoads(vs, load, n))[r] <= multiset(load[..n])[r]
    {
      LoadCount(vs, load, n, r);
    }
  }

  // The requests of the jobs in the pool, in the pool's order: each job belongs
  // to the served visit of its descriptor.

  ghost predicate Serves(vs: seq<D.Visit>, r: RP.Request, k: nat) {
    r.Job? && ServedVisit(vs, k) && vs[k].fd == r.id
  }

  ghost predicate HasVisit(vs: seq<D.Visit>, r: RP.Request) { exists k: nat :: Serves(vs, r, k) }

  ghost function VisitOf(vs: seq<D.Visit>, r: RP.Request): (k: nat)
    requires HasVisit(vs, r)
    ensures Serves(vs, r, k)
  {
    var k: nat :| Serves(vs, r, k);
    k
  }

  ghost predicate AllServed(vs: seq<D.Visit>, jobs: seq<RP.Request>) {
    forall i :: 0 <= i < |jobs| ==> HasVisit(vs, jobs[i])
  }

  ghost function VisitsOf(vs: seq<D.Visit>, jobs: seq<RP.Request>): seq<nat>
    requires AllServed(vs, jobs)
  {
    seq(|jobs|, i requires 0 <= i < |jobs| => VisitOf(vs, jobs[i]))
  }

  function Loads<T>(load: seq<T>, ks: seq<nat>): seq<T>
    requires forall i :: 0 <= i < |ks| ==> ks[i] < |load|
  {
    seq(|ks|, i requires 0 <= i < |ks| => load[ks[i]])
  }

  // A list of all served visits below n, each once, has the served loads.
  ghost predicate Enumerates(ks: seq<nat>, vs: seq<D.Visit>, n: nat) {
    && Distinct(ks)
    && (forall i :: 0 <= i < |ks| ==> ks[i] < n && ServedVisit(vs, ks[i]))
    && forall k: nat :: ServedVisit(vs, k) && k < n ==> k in ks
  }

  lemma Without(ks: seq<nat>, vs: seq<D.Visit>, n: nat, j: nat)
    requires 0 < n <= |vs| && Enumerates(ks, vs, n) && j < |ks| && ks[j] == n - 1
    ensures Enumerates(ks[..j] + ks[j + 1..], vs, n - 1)
  {
    var rest := ks[..j] + ks[j + 1..];
    forall k: nat | ServedVisit(vs, k) && k < n - 1 ensures k in rest {
      var i :| 0 <= i < |ks| && ks[i] == k;
      assert rest[if i < j then i else i - 1] == k;
    }
    assert forall i :: 0 <= i < |rest| ==> rest[i] == ks[if i < j then i else i + 1];
  }

  lemma RemoveAt<T>(s: seq<T>, j: nat)
    requires j < |s|
    ensures multiset(s) == multiset(s[..j] + s[j + 1..]) + multiset{s[j]}
  {
    assert s == s[..j] + [s[j]] + s[j + 1..];
  }

  lemma OneLoad<T>(load: seq<T>, ks: seq<nat>, j: nat)
    requires (forall i :: 0 <= i < |ks| ==> ks[i] < |load|) && j < |ks|
    ensures multiset(Loads(load, ks)) == multiset(Loads(load, ks[..j] + ks[j + 1..])) + multiset{load[ks[j]]}
  {
    assert Loads(load, ks[..j] + ks[j + 1..]) == Loads(load, ks)[..j] + Loads(load, ks)[j + 1..];
    RemoveAt(Loads(load, ks), j);
  }

  lemma EnumeratesNone(ks: seq<nat>, vs: seq<D.Visit>)
    requires Enumerates(ks, vs, 0)
    ensures ks == []
  {
    DistinctLength(ks);
    RangeSize(Elements(ks), 0);
  }

  lemma EnumeratesBelow(ks: seq<nat>, vs: seq<D.Visit>, n: nat)
    requires Enumerates(ks, vs, n)
    ensures forall i :: 0 <= i < |ks| ==> ks[i] < n
  {
  }

  lemma EnumeratesLess(ks: seq<nat>, vs: seq<D.Visit>, n: nat)
    requires 0 < n <= |vs| && Enumerates(ks, vs, n)
    ensures !D.Served(vs[n - 1]) ==> Enumerates(ks, vs, n - 1)
    ensures D.Served(vs[n - 1]) ==> n - 1 in ks
    ensures forall i :: 0 <= i < |ks| ==> ks[i] < |vs|
  {
    assert ServedVisit(vs, n - 1) <==> D.Served(vs[n - 1]);
  }

  // As multisets.
  ghost function LoadBag<T>(load: seq<T>, ks: seq<nat>): multiset<T>
    requires forall i :: 0 <= i < |ks| ==> ks[i] < |load|
  {
    multiset(Loads(load, ks))
  }

  ghost function ServedBag<T>(vs: seq<D.Visit>, load: seq<T>, n: nat): multiset<T>
    requires n <= |vs| == |load|
  {
    multiset(ServedLoads(vs, load, n))
  }

  lemma ServedCase<T>(ks: seq<nat>, vs: seq<D.Visit>, load: seq<T>, n: nat) returns (rest: seq<nat>)
    requires 0 < n <= |vs| == |load| && Enumerates(ks, vs, n) && D.Served(vs[n - 1])
    ensures (forall i :: 0 <= i < |ks| ==> ks[i] < |load|) && forall i :: 0 <= i < |rest| ==> rest[i] < |load|
    ensures Enumerates(rest, vs, n - 1)
    ensures LoadBag(load, ks) == LoadBag(load, rest) + multiset{load[n - 1]}
  {
    hide Enumerates, Loads;
    EnumeratesLess(ks, vs, n);
    var j :| 0 <= j < |ks| && ks[j] == n - 1;
    rest := ks[..j] + ks[j + 1..];
    Without(ks, vs, n, j);
    OneLoad(load, ks, j);
    EnumeratesBelow(rest, vs, n - 1);
  }

  lemma ServedBagStep<T>(vs: seq<D.Visit>, load: seq<T>, n: nat)
    requires 0 < n <= |vs| == |load|
    ensures ServedBag(vs, load, n) ==
            if D.Served(vs[n - 1]) then ServedBag(vs, load, n - 1) + multiset{load[n - 1]}
            else ServedBag(vs, load, n - 1)
  {
    OneMoreLoad(vs, load, n);
  }

  lemma EmptyBags<T>(ks: seq<nat>, vs: seq<D.Visit>, load: seq<T>)
    requires |vs| == |load| && Enumerates(ks, vs, 0)
    ensures LoadBag(load, ks) == ServedBag(vs, load, 0)
  {
    EnumeratesNone(ks, vs);
  }

  lemma {:induction false} EnumeratedBags<T>(ks: seq<nat>, vs: seq<D.Visit>, load: seq<T>, n: nat)
    requires n <= |vs| == |load| && Enumerates(ks, vs, n)
    ensures (forall i :: 0 <= i < |ks| ==> ks[i] < |load|) && LoadBag(load, ks) == ServedBag(vs, load, n)
    decreases n
  {
    hide *;
    EnumeratesBelow(ks, vs, n);
    if n == 0 {
      EmptyBags(ks, vs, load);
    } else {
      EnumeratesLess(ks, vs, n);
      ServedBagStep(vs, load, n);
      if D.Served(vs[n - 1]) {
        var rest := ServedCase(ks, vs, load, n);
        EnumeratedBags(rest, vs, load, n - 1);
      } else {
        EnumeratedBags(ks, vs, load, n - 1);
      }
    }
  }

  lemma EnumeratedLoads<T>(ks: seq<nat>, vs: seq<D.Visit>, load: seq<T>, n: nat)
    requires n <= |vs| == |load| && Enumerates(ks, vs, n)
    ensures multiset(Loads(load, ks)) == multiset(ServedLoads(vs, load, n))
  {
    EnumeratedBags(ks, vs, load, n);
    hide Loads, ServedLoads, Enumerates;
  }

  lemma JobsFollow(s: D.State, vs: seq<D.Visit>)
    requires D.HistoryInv(s) && D.VisitInv(s, vs)
    ensures AllServed(vs, s.pool.appended) && Enumerates(VisitsOf(vs, s.pool.appended), vs, |vs|)
  {
    var jobs := s.pool.appended;
    D.VisitsDecide(s, vs);
    hide D.VisitInv, D.HistoryInv;
    forall i | 0 <= i < |jobs| ensures HasVisit(vs, jobs[i]) {
      assert jobs[i] in jobs;
      assert jobs[i] == RP.Job(jobs[i].id);
      var k: nat :| k < |vs| && vs[k].fd == jobs[i].id && D.Served(vs[k]);
      assert Serves(vs, jobs[i], k);
    }
    var ks := VisitsOf(vs, jobs);
    forall i, j | 0 <= i < j < |ks| ensures ks[i] != ks[j] {
      assert Serves(vs, jobs[i], ks[i]) && Serves(vs, jobs[j], ks[j]);
      assert jobs[i] != jobs[j];
    }
    forall k: nat | ServedVisit(vs, k) && k < |vs| ensures k in ks {
      assert RP.Job(vs[k].fd) in jobs;
      var i :| 0 <= i < |jobs| && jobs[i] == RP.Job(vs[k].fd);
      assert Serves(vs, jobs[i], ks[i]);
      assert D.IsLast(vs, k) && D.IsLast(vs, ks[i]);
    }
  }

  // In every run the jobs handed to the pool are the served visits, each once.
  lemma JobsAreServed(threads: nat, maxRequests: nat, steps: seq<D.Step>)
    requires D.CanRun(D.Init(threads, maxRequests), steps) && maxRequests >= D.MAX_FD
    ensures var jobs := D.Exec(D.Init(threads, maxRequests), steps).pool.appended;
            var vs := D.Visits(D.Init(threads, maxRequests), steps);
            AllServed(vs, jobs) && Enumerates(VisitsOf(vs, jobs), vs, |vs|)
  {
    D.Reachable(threads, maxRequests, steps);
    D.VisitsHold(threads, maxRequests, steps);
    JobsFollow(D.Exec(D.Init(threads, maxRequests), steps), D.Visits(D.Init(threads, maxRequests), steps));
  }

  // Blocks at a path, as far as the order does not matter.

  predicate AtPath(r: Request, mac: string, name: string) { r.mac == mac && Names.SameEscape(r.name, name) }

  lemma {:induction false} BlocksMembers(rs: seq<Request>, mac: string, name: string, b: Block)
    ensures b in BlocksAt(rs, mac, name) <==> exists r :: r in rs && AtPath(r, mac, name) && r.block == b
  {
    if rs != [] {
      var n := |rs| - 1;
      BlocksMembers(rs[..n], mac, name, b);
      assert rs == rs[..n] + [rs[n]];
    }
  }

  function BlockIf(r: Request, mac: string, name: string): seq<Block> {
    if AtPath(r, mac, name) then [r.block] else []
  }

  lemma {:induction false} BlocksAppend(a: seq<Request>, b: seq<Request>, mac: string, name: string)
    ensures BlocksAt(a + b, mac, name) == BlocksAt(a, mac, name) + BlocksAt(b, mac, name)
  {
    if b == [] {
      assert a + b == a;
    } else {
      var n := |b| - 1;
      BlocksAppend(a, b[..n], mac, name);
      assert (a + b)[..|a + b| - 1] == a + b[..n];
    }
  }

  lemma BlocksRemove(rs: seq<Request>, j: nat, mac: string, name: string)
    requires j < |rs|
    ensures multiset(BlocksAt(rs, mac, name)) ==
            multiset(BlocksAt(rs[..j] + rs[j + 1..], mac, name)) + multiset(BlockIf(rs[j], mac, name))
  {
    var a, b := rs[..j], rs[j + 1..];
    assert rs == a + ([rs[j]] + b);
    assert BlocksAt([rs[j]], mac, name) == BlockIf(rs[j], mac, name) by { assert BlocksAt([], mac, name) == []; }
    hide *;
    BlocksAppend(a, b, mac, name);
    BlocksAppend(a, [rs[j]] + b, mac, name);
    BlocksAppend([rs[j]], b, mac, name);
  }

  lemma Cancel<T>(a: multiset<T>, b: multiset<T>, x: T)
    requires a + multiset{x} <= b + multiset{x}
    ensures a <= b
  {
    forall y | y in a ensures a[y] <= b[y] {
      assert (a + multiset{x})[y] <= (b + multiset{x})[y];
    }
  }

  lemma {:induction false} BlocksMonotone(rs: seq<Request>, more: seq<Request>, mac: string, name: string)
    requires multiset(rs) <= multiset(more)
    ensures multiset(BlocksAt(rs, mac, name)) <= multiset(BlocksAt(more, mac, name))
    decreases |rs|
  {
    if rs != [] {
      var n := |rs| - 1;
      assert rs == rs[..n] + [rs[n]];
      assert rs[n] in multiset(more);
      var j :| 0 <= j < |more| && more[j] == rs[n];
      RemoveAt(more, j);
      assert multiset(rs) == multiset(rs[..n]) + multiset{rs[n]};
      Cancel(multiset(rs[..n]), multiset(more[..j] + more[j + 1..]), rs[n]);
      BlocksMonotone(rs[..n], more[..j] + more[j + 1..], mac, name);
      BlocksRemove(more, j, mac, name);
      assert BlocksAt(rs, mac, name) == BlocksAt(rs[..n], mac, name) + BlockIf(rs[n], mac, name);
    }
  }

  // The connections of a run: those that carry a block to the path of file `c`
  // carry its sent blocks, each at most once; all others carry anything.
  ghost predicate Traffic(c: Data, mac: string, name: string, vs: seq<D.Visit>, load: seq<Request>) {
    && NulFree(c) && Mappable(c) && c != [] && Names.ValidMac(mac)
    && |load| == |vs| && AllValid(load)
    && multiset(BlocksAt(load, mac, name)) <= multiset(SentBlocks(c))
  }

  // The requests that the workers have carried out so far, in some order, and
  // those of all jobs.
  ghost predicate Performed(rs: seq<Request>, vs: seq<D.Visit>, load: seq<Request>, jobs: seq<RP.Request>) {
    && |load| == |vs| && AllServed(vs, jobs)
    && multiset(rs) <= multiset(Loads(load, VisitsOf(vs, jobs)))
  }

  ghost predicate AllPerformed(rs: seq<Request>, vs: seq<D.Visit>, load: seq<Request>, jobs: seq<RP.Request>) {
    Performed(rs, vs, load, jobs) && multiset(rs) == multiset(Loads(load, VisitsOf(vs, jobs)))
  }

  ghost predicate CarriesBlock(mac: string, name: string, r: Request, b: Block) { AtPath(r, mac, name) && r.block == b }

  // Block t of the file came on a served connection.
  ghost predicate BlockServed(c: Data, mac: string, name: string, vs: seq<D.Visit>, load: seq<Request>, t: nat)
    requires |load| == |vs|
  {
    && Mappable(c) && t <= LastBlock(|c|)
    && exists k: nat :: ServedVisit(vs, k) && CarriesBlock(mac, name, load[k], FileBlocks(c)[t])
  }

  lemma PerformedWithin(rs: seq<Request>, vs: seq<D.Visit>, load: seq<Request>, jobs: seq<RP.Request>)
    requires Performed(rs, vs, load, jobs) && Enumerates(VisitsOf(vs, jobs), vs, |vs|)
    ensures multiset(rs) <= multiset(ServedLoads(vs, load, |vs|)) && multiset(rs) <= multiset(load)
    ensures AllPerformed(rs, vs, load, jobs) ==> multiset(rs) == multiset(ServedLoads(vs, load, |vs|))
    ensures AllValid(load) ==> AllValid(rs)
  {
    EnumeratedLoads(VisitsOf(vs, jobs), vs, load, |vs|);
    LoadsWithin(vs, load, |vs|);
    assert load[..|vs|] == load;
    forall i | AllValid(load) && 0 <= i < |rs| ensures ValidRequest(rs[i]) {
      assert rs[i] in multiset(rs);
      assert rs[i] in multiset(load);
    }
  }

  lemma ArrivedFromServed(c: Data, mac: string, name: string, vs: seq<D.Visit>, load: seq<Request>,
                          jobs: seq<RP.Request>, rs: seq<Request>)
    requires Traffic(c, mac, name, vs, load) && Performed(rs, vs, load, jobs)
    requires Enumerates(VisitsOf(vs, jobs), vs, |vs|)
    ensures AllValid(rs) && Arrived(BlocksAt(rs, mac, name), c)
  {
    PerformedWithin(rs, vs, load, jobs);
    BlocksMonotone(rs, load, mac, name);
  }

  lemma BlocksFromServed(c: Data, mac: string, name: string, vs: seq<D.Visit>, load: seq<Request>,
                         jobs: seq<RP.Request>, rs: seq<Request>, t: nat)
    requires Traffic(c, mac, name, vs, load) && Performed(rs, vs, load, jobs)
    requires Enumerates(VisitsOf(vs, jobs), vs, |vs|)
    ensures HasBlock(BlocksAt(rs, mac, name), c, t) ==> BlockServed(c, mac, name, vs, load, t)
    ensures AllPerformed(rs, vs, load, jobs) && BlockServed(c, mac, name, vs, load, t) ==>
              HasBlock(BlocksAt(rs, mac, name), c, t)
  {
    PerformedWithin(rs, vs, load, jobs);
    var served := ServedLoads(vs, load, |vs|);
    if t <= LastBlock(|c|) {
      var b := FileBlocks(c)[t];
      BlocksMembers(rs, mac, name, b);
      if b in BlocksAt(rs, mac, name) {
        var r :| r in rs && AtPath(r, mac, name) && r.block == b;
        assert r in multiset(rs) && r in multiset(served);
        LoadsMembers(vs, load, |vs|, r);
        var k: nat :| ServedVisit(vs, k) && k < |vs| && load[k] == r;
        assert CarriesBlock(mac, name, load[k], b);
      }
      if AllPerformed(rs, vs, load, jobs) && BlockServed(c, mac, name, vs, load, t) {
        var k: nat :| ServedVisit(vs, k) && CarriesBlock(mac, name, load[k], b);
        LoadsMembers(vs, load, |vs|, load[k]);
        assert load[k] in multiset(served) && load[k] in multiset(rs);
      }
    }
  }

  // Main results, for every run of the event loop and the workers with a limit
  // of at least MAX_FD, any requests on the connections, and any order in which
  // the workers carry them out.

  // At every moment the arrived blocks are some of the file's sent blocks, from
  // connections reported readable and without a hang-up.
  lemma ServedArrive(threads: nat, maxRequests: nat, steps: seq<D.Step>, load: seq<Request>, rs: seq<Request>,
                     c: Data, mac: string, name: string)
    requires D.CanRun(D.Init(threads, maxRequests), steps) && maxRequests >= D.MAX_FD
    requires var vs := D.Visits(D.Init(threads, maxRequests), steps);
             && Traffic(c, mac, name, vs, load)
             && Performed(rs, vs, load, D.Exec(D.Init(threads, maxRequests), steps).pool.appended)
    ensures AllValid(rs) && Arrived(BlocksAt(rs, mac, name), c)
    ensures forall t: nat :: HasBlock(BlocksAt(rs, mac, name), c, t) ==>
              BlockServed(c, mac, name, D.Visits(D.Init(threads, maxRequests), steps), load, t)
  {
    var vs := D.Visits(D.Init(threads, maxRequests), steps);
    var jobs := D.Exec(D.Init(threads, maxRequests), steps).pool.appended;
    JobsAreServed(threads, maxRequests, steps);
    ArrivedFromServed(c, mac, name, vs, load, jobs, rs);
    forall t: nat | HasBlock(BlocksAt(rs, mac, name), c, t) ensures BlockServed(c, mac, name, vs, load, t) {
      BlocksFromServed(c, mac, name, vs, load, jobs, rs, t);
    }
  }

  // Offset i is among the bytes that its block carries, and the block came on a
  // served connection.
  ghost predicate ByteServed(c: Data, mac: string, name: string, vs: seq<D.Visit>, load: seq<Request>, i: nat)
    requires |load| == |vs|
  {
    i % STRIDE < (i / STRIDE + 1023) % 1024 && BlockServed(c, mac, name, vs, load, i / STRIDE)
  }

  // The stored file is `c` if the previous copy `p` is not longer and has every
  // byte that was not served.
  ghost predicate Supplied(c: Data, p: Data, mac: string, name: string, vs: seq<D.Visit>, load: seq<Request>)
    requires |load| == |vs|
  {
    && |p| <= |c|
    && forall i: nat :: i < |c| && !ByteServed(c, mac, name, vs, load, i) ==> i < |p| && p[i] == c[i]
  }

  lemma SuppliedExactly(c: Data, p: Data, mac: string, name: string, vs: seq<D.Visit>, load: seq<Request>,
                        arrival: seq<Block>)
    requires |load| == |vs| && Arrived(arrival, c)
    requires forall t: nat :: HasBlock(arrival, c, t) <==> BlockServed(c, mac, name, vs, load, t)
    ensures Store.AllWellFormed(arrival)
    ensures Store.StoreAll(p, arrival) == c <==> Supplied(c, p, mac, name, vs, load)
  {
    StoredExactly(arrival, c, p);
    forall i: nat | i < |c| ensures Store.Hit(arrival, i) <==> ByteServed(c, mac, name, vs, load, i) {
      HitExactly(arrival, c, i);
      assert HasBlock(arrival, c, i / STRIDE) <==> BlockServed(c, mac, name, vs, load, i / STRIDE);
    }
    hide Store.Hit, ByteServed, HasBlock, BlockServed, Store.StoreAll;
  }

  lemma ArrivalServed(threads: nat, maxRequests: nat, steps: seq<D.Step>, load: seq<Request>, rs: seq<Request>,
                      c: Data, mac: string, name: string)
    requires D.CanRun(D.Init(threads, maxRequests), steps) && maxRequests >= D.MAX_FD
    requires var vs := D.Visits(D.Init(threads, maxRequests), steps);
             && Traffic(c, mac, name, vs, load)
             && AllPerformed(rs, vs, load, D.Exec(D.Init(threads, maxRequests), steps).pool.appended)
    ensures AllValid(rs) && Arrived(BlocksAt(rs, mac, name), c)
    ensures forall t: nat :: HasBlock(BlocksAt(rs, mac, name), c, t) <==>
              BlockServed(c, mac, name, D.Visits(D.Init(threads, maxRequests), steps), load, t)
  {
    var vs := D.Visits(D.Init(threads, maxRequests), steps);
    var jobs := D.Exec(D.Init(threads, maxRequests), steps).pool.appended;
    JobsAreServed(threads, maxRequests, steps);
    ArrivedFromServed(c, mac, name, vs, load, jobs, rs);
    forall t: nat ensures HasBlock(BlocksAt(rs, mac, name), c, t) <==> BlockServed(c, mac, name, vs, load, t) {
      BlocksFromServed(c, mac, name, vs, load, jobs, rs, t);
    }
  }

  // Once all requests handed over are carried out: exactly when the server has
  // the file.
  lemma StoredIffServed(threads: nat, maxRequests: nat, steps: seq<D.Step>, load: seq<Request>, rs: seq<Request>,
                        files: Files, c: Data, mac: string, name: string)
    requires D.CanRun(D.Init(threads, maxRequests), steps) && maxRequests >= D.MAX_FD
    requires var vs := D.Visits(D.Init(threads, maxRequests), steps);
             && Traffic(c, mac, name, vs, load)
             && AllPerformed(rs, vs, load, D.Exec(D.Init(threads, maxRequests), steps).pool.appended)
    ensures AllValid(rs)
    ensures var p := Stored(files, Names.Path(mac, name));
            Stored(ApplyAll(files, rs), Names.Path(mac, name)) == c <==>
            Supplied(c, p, mac, name, D.Visits(D.Init(threads, maxRequests), steps), load)
  {
    var vs := D.Visits(D.Init(threads, maxRequests), steps);
    ArrivalServed(threads, maxRequests, steps, load, rs, c, mac, name);
    FileShaped(files, rs, mac, name);
    SuppliedExactly(c, Stored(files, Names.Path(mac, name)), mac, name, vs, load, BlocksAt(rs, mac, name));
  }

  lemma OnlyBlock(arrival: seq<Block>, c: Data)
    requires Arrived(arrival, c) && |c| <= 1023
    ensures arrival != [] <==> HasBlock(arrival, c, 0)
  {
    if arrival != [] {
      var t := ArrivedShape(arrival, c, arrival[0]);
    }
  }

  // A new file of at most 1023 bytes is stored exactly if the one connection that
  // carries it is reported readable and without a hang-up.
  lemma SmallFileServed(threads: nat, maxRequests: nat, steps: seq<D.Step>, load: seq<Request>, rs: seq<Request>,
                        files: Files, c: Data, mac: string, name: string)
    requires D.CanRun(D.Init(threads, maxRequests), steps) && maxRequests >= D.MAX_FD
    requires var vs := D.Visits(D.Init(threads, maxRequests), steps);
             && Traffic(c, mac, name, vs, load)
             && AllPerformed(rs, vs, load, D.Exec(D.Init(threads, maxRequests), steps).pool.appended)
    requires |c| <= 1023 && Stored(files, Names.Path(mac, name)) == []
    ensures AllValid(rs)
    ensures Stored(ApplyAll(files, rs), Names.Path(mac, name)) == c <==>
            BlockServed(c, mac, name, D.Visits(D.Init(threads, maxRequests), steps), load, 0)
  {
    var arrival := BlocksAt(rs, mac, name);
    ArrivalServed(threads, maxRequests, steps, load, rs, c, mac, name);
    FileShaped(files, rs, mac, name);
    StoredFreshExactly(arrival, c);
    OnlyBlock(arrival, c);
  }
}
