/** The pool of PostgREST processes and the ports they listen on: a recycling allocator with a wrapping
    counter, driven by steps that interleave because the lock is dropped during the readiness wait. */
module PortPool {
  import opened Exceptions
  import opened FiniteSets

  type Slug = string

  const FIRST: int := 3001
  const LAST: int := 65000
  const CAPACITY: nat := 62000

  /** A started process. The source compares processes by address; `id` stands for the address. */
  datatype Proc = Proc(id: nat, port: int, lastReq: int)

  /** What happens to a port: it is handed out, lost because the process did not start, or given back. */
  datatype PortEvent = Issued(port: int) | Lost(port: int) | Returned(port: int)

  /** The allocator: live entries, recycled ports, the counter; `serial` numbers the processes ever made,
      and `log` records the history of the ports. */
  datatype Pool = Pool(procs: map<Slug, Proc>, free: seq<int>, next: int, serial: nat, log: seq<PortEvent>)

  predicate InUse(procs: map<Slug, Proc>, port: int) {
    exists s :: s in procs && procs[s].port == port
  }

  predicate InRange(port: int) {
    FIRST <= port <= LAST
  }

  ghost function Ports(procs: map<Slug, Proc>): set<int> {
    set s | s in procs :: procs[s].port
  }

  // ----- counting ports -----

  lemma {:induction false} PortsSize(procs: map<Slug, Proc>)
    ensures |Ports(procs)| <= |procs|
    ensures (forall s, t :: s in procs && t in procs && procs[s].port == procs[t].port ==> s == t) ==> |Ports(procs)| == |procs|
    decreases |procs|
  {
    if procs != map[] {
      var s :| s in procs;
      var rest := procs - {s};
      PortsSize(rest);
      assert procs.Keys == rest.Keys + {s};
      assert |procs| == |rest| + 1;
      assert Ports(procs) == Ports(rest) + {procs[s].port};
    }
  }

  /** Pigeonhole: with fewer than 62000 live entries, some port is not in use. */
  lemma SomePortIsFree(procs: map<Slug, Proc>)
    requires |procs| < CAPACITY
    ensures exists q :: InRange(q) && !InUse(procs, q)
  {
    var all := Interval(FIRST, LAST + 1);
    PortsSize(procs);
    if all <= Ports(procs) {
      SubsetSize(all, Ports(procs));
      assert false;
    }
    var q :| q in all && q !in Ports(procs);
    assert InRange(q) && !InUse(procs, q);
  }

  ghost function FreePort(procs: map<Slug, Proc>): (q: int)
    requires |procs| < CAPACITY
    ensures InRange(q) && !InUse(procs, q)
  {
    SomePortIsFree(procs);
    var q :| InRange(q) && !InUse(procs, q);
    q
  }

  /** The counter path: the port found and where the counter is left. */
  function Scan(procs: map<Slug, Proc>, next: int): (r: (int, int))
    requires FIRST <= next <= LAST + 1 && |procs| < CAPACITY
    ensures InRange(r.0) && !InUse(procs, r.0) && r.1 == r.0 + 1
    decreases if next <= FreePort(procs) then 0 else 1, LAST + 1 - next
  {
    var port := if next > LAST then FIRST else next;
    if InUse(procs, port) then
      assert port != FreePort(procs);
      Scan(procs, port + 1)
    else (port, port + 1)
  }

  // ----- the operations -----

  /** Takes a port for a new process; with 62000 live entries and nothing recycled it never returns. */
  predicate CanAlloc(p: Pool) {
    p.free != [] || |p.procs| < CAPACITY
  }

  function Alloc(p: Pool): (r: (int, Pool))
    requires FIRST <= p.next <= LAST + 1 && CanAlloc(p)
  {
    if p.free != [] then
      var n := |p.free| - 1;
      (p.free[n], p.(free := p.free[..n], log := p.log + [Issued(p.free[n])]))
    else
      var (port, next) := Scan(p.procs, p.next);
      (port, p.(next := next, log := p.log + [Issued(port)]))
  }

  /** Claims the slot of `slug`. A process that does not start leaves no entry, and its port is lost. */
  function Claim(p: Pool, slug: Slug, starts: bool, now: int): Pool
    requires FIRST <= p.next <= LAST + 1 && CanAlloc(p)
  {
    var (port, q) := Alloc(p);
    if starts then q.(procs := q.procs[slug := Proc(p.serial, port, now)], serial := p.serial + 1)
    else q.(log := q.log + [Lost(port)])
  }

  /** Kills the process of `slug`, forgets it and recycles `port`. */
  function Drop(p: Pool, slug: Slug, port: int): Pool {
    p.(procs := p.procs - {slug}, free := p.free + [port], log := p.log + [Returned(port)])
  }

  function Stop(p: Pool, slug: Slug): Pool {
    if slug in p.procs then Drop(p, slug, p.procs[slug].port) else p
  }

  /** A readiness wait and the process it watches. */
  datatype Wait = Wait(slug: Slug, id: nat, port: int)

  /** The wait ran out: drop the entry, but only if it is still this wait's process. */
  function GiveUp(p: Pool, w: Wait): Pool {
    if w.slug in p.procs && p.procs[w.slug].id == w.id then Drop(p, w.slug, w.port) else p
  }

  predicate IsIdle(p: Pool, slug: Slug, now: int, idle: int, pinned: set<Slug>) {
    slug in p.procs && slug !in pinned && now - p.procs[slug].lastReq > idle
  }

  /** The reaper visits the entries in some order. */
  function Reap(p: Pool, order: seq<Slug>, now: int, idle: int, pinned: set<Slug>): Pool {
    if order == [] then p
    else
      var q := Reap(p, order[..|order| - 1], now, idle, pinned);
      var slug := order[|order| - 1];
      if IsIdle(q, slug, now, idle, pinned) then Stop(q, slug) else q
  }

  function Touch(p: Pool, slug: Slug, now: int): Pool {
    if slug in p.procs then p.(procs := p.procs[slug := p.procs[slug].(lastReq := now)]) else p
  }

  // ----- the history of a port -----

  function LastEvent(log: seq<PortEvent>, port: int): Option<PortEvent> {
    if log == [] then None
    else if log[|log| - 1].port == port then Some(log[|log| - 1])
    else LastEvent(log[..|log| - 1], port)
  }

  /** A port is only issued when nobody owns it, and only lost or returned by its owner: so it is
      returned at most once per ownership. */
  predicate Alternates(log: seq<PortEvent>) {
    log == [] || (
      var front, e := log[..|log| - 1], log[|log| - 1];
      Alternates(front) && (e.Issued? <==> LastEvent(front, e.port) != Some(Issued(e.port))))
  }

  lemma LogSnoc(log: seq<PortEvent>, e: PortEvent)
    ensures LastEvent(log + [e], e.port) == Some(e)
    ensures forall port :: port != e.port ==> LastEvent(log + [e], port) == LastEvent(log, port)
    ensures Alternates(log + [e]) <==> Alternates(log) && (e.Issued? <==> LastEvent(log, e.port) != Some(Issued(e.port)))
  {
    assert (log + [e])[..|log|] == log;
  }

  // ----- the invariant -----

  ghost predicate LiveOk(p: Pool) {
    && (forall s :: s in p.procs ==> InRange(p.procs[s].port) && p.procs[s].id < p.serial)
    && (forall s, t :: s in p.procs && t in p.procs && s != t ==> p.procs[s].port != p.procs[t].port && p.procs[s].id != p.procs[t].id)
  }

  ghost predicate FreeOk(p: Pool) {
    && (forall i :: 0 <= i < |p.free| ==> InRange(p.free[i]) && !InUse(p.procs, p.free[i]))
    && (forall i, j :: 0 <= i < j < |p.free| ==> p.free[i] != p.free[j])
  }

  ghost predicate LogOk(p: Pool) {
    && Alternates(p.log)
    && (forall port :: LastEvent(p.log, port) == Some(Issued(port)) <==> InUse(p.procs, port))
    && (forall port :: LastEvent(p.log, port) == Some(Returned(port)) <==> port in p.free)
  }

  /** Live ports are distinct and in range, the free list has no duplicates and no live port, and the
      history of every port alternates between being issued and being given up and says where it is. */
  ghost predicate Valid(p: Pool) {
    FIRST <= p.next <= LAST + 1 && LiveOk(p) && FreeOk(p) && LogOk(p)
  }

  lemma AllocFacts(p: Pool)
    requires FIRST <= p.next <= LAST + 1 && FreeOk(p) && CanAlloc(p)
    ensures var (port, q) := Alloc(p);
      && InRange(port) && !InUse(p.procs, port) && FreeOk(q) && FIRST <= q.next <= LAST + 1
      && (forall x :: x in q.free <==> x in p.free && x != port)
      && q == p.(free := q.free, next := q.next, log := p.log + [Issued(port)])
  {
    hide InUse, Scan;
    if p.free != [] {
      var n := |p.free| - 1;
      assert p.free == p.free[..n] + [p.free[n]];
    }
  }

  lemma InUseAfterInsert(procs: map<Slug, Proc>, slug: Slug, proc: Proc, port: int)
    requires slug !in procs
    ensures InUse(procs[slug := proc], port) <==> InUse(procs, port) || port == proc.port
  {
    var after := procs[slug := proc];
    if InUse(procs, port) {
      var s :| s in procs && procs[s].port == port;
      assert s in after && after[s].port == port;
    }
    if port == proc.port {
      assert slug in after && after[slug].port == port;
    }
  }

  lemma InUseAfterRemove(p: Pool, slug: Slug, port: int)
    requires LiveOk(p) && slug in p.procs
    ensures InUse(p.procs - {slug}, port) <==> InUse(p.procs, port) && port != p.procs[slug].port
  {
    var after := p.procs - {slug};
    if InUse(p.procs, port) && port != p.procs[slug].port {
      var s :| s in p.procs && p.procs[s].port == port;
      assert s in after && after[s].port == port;
    }
  }

  lemma ClaimKeepsValid(p: Pool, slug: Slug, starts: bool, now: int)
    requires Valid(p) && CanAlloc(p) && slug !in p.procs
    ensures Valid(Claim(p, slug, starts, now))
  {
    hide Alternates, LastEvent, Alloc, InUse;
    AllocFacts(p);
    var (port, q) := Alloc(p);
    var r := Claim(p, slug, starts, now);
    LogSnoc(p.log, Issued(port));
    if starts {
      forall x ensures InUse(r.procs, x) <==> InUse(p.procs, x) || x == port {
        InUseAfterInsert(p.procs, slug, r.procs[slug], x);
      }
      ClaimedLive(p, slug, r.procs[slug]);
    } else {
      LogSnoc(q.log, Lost(port));
    }
  }

  lemma ClaimedLive(p: Pool, slug: Slug, proc: Proc)
    requires LiveOk(p) && slug !in p.procs && proc.id == p.serial && InRange(proc.port) && !InUse(p.procs, proc.port)
    ensures LiveOk(p.(procs := p.procs[slug := proc], serial := p.serial + 1))
  {
  }

  lemma DropKeepsValid(p: Pool, slug: Slug)
    requires Valid(p) && slug in p.procs
    ensures Valid(Drop(p, slug, p.procs[slug].port))
  {
    hide Alternates, LastEvent, InUse;
    var port := p.procs[slug].port;
    var r := Drop(p, slug, port);
    LogSnoc(p.log, Returned(port));
    LiveInUse(p, slug);
    assert forall x :: x in r.free <==> x in p.free || x == port;
    forall x ensures InUse(r.procs, x) <==> InUse(p.procs, x) && x != port {
      InUseAfterRemove(p, slug, x);
    }
  }

  lemma LiveInUse(p: Pool, slug: Slug)
    requires slug in p.procs
    ensures InUse(p.procs, p.procs[slug].port)
  {
  }

  lemma StopKeepsValid(p: Pool, slug: Slug)
    requires Valid(p)
    ensures Valid(Stop(p, slug))
  {
    hide Valid, Drop;
    if slug in p.procs { DropKeepsValid(p, slug); }
  }

  lemma {:induction false} ReapKeepsValid(p: Pool, order: seq<Slug>, now: int, idle: int, pinned: set<Slug>)
    requires Valid(p)
    ensures Valid(Reap(p, order, now, idle, pinned))
    decreases |order|
  {
    hide Valid, Stop;
    if order != [] {
      var front := order[..|order| - 1];
      ReapKeepsValid(p, front, now, idle, pinned);
      StopKeepsValid(Reap(p, front, now, idle, pinned), order[|order| - 1]);
    }
  }

  /** A pass over all entries leaves exactly those that are pinned or not idle, in whatever order it visits
      them. */
  lemma ReapLeavesActive(p: Pool, order: seq<Slug>, now: int, idle: int, pinned: set<Slug>)
    requires forall slug :: slug in p.procs ==> slug in order
    ensures var q := Reap(p, order, now, idle, pinned);
      forall slug :: slug in q.procs <==> slug in p.procs && (slug in pinned || now - p.procs[slug].lastReq <= idle)
  {
    ReapSoFar(p, order, now, idle, pinned);
    hide Reap;
  }

  lemma {:induction false} ReapSoFar(p: Pool, order: seq<Slug>, now: int, idle: int, pinned: set<Slug>)
    ensures var q := Reap(p, order, now, idle, pinned);
      forall slug :: slug in q.procs <==> slug in p.procs && !(slug in order && IsIdle(p, slug, now, idle, pinned))
    ensures var q := Reap(p, order, now, idle, pinned);
      forall slug :: slug in q.procs ==> q.procs[slug] == p.procs[slug]
    decreases |order|
  {
    if order != [] {
      var n := |order| - 1;
      ReapSoFar(p, order[..n], now, idle, pinned);
      assert order == order[..n] + [order[n]];
      assert forall slug :: slug in order <==> slug in order[..n] || slug == order[n];
    }
  }

  lemma TouchKeepsValid(p: Pool, slug: Slug, now: int)
    requires Valid(p)
    ensures Valid(Touch(p, slug, now))
  {
    hide Alternates, LastEvent;
    var r := Touch(p, slug, now);
    forall x ensures InUse(r.procs, x) <==> InUse(p.procs, x) {
      if InUse(p.procs, x) {
        var s :| s in p.procs && p.procs[s].port == x;
        assert s in r.procs && r.procs[s].port == x;
      }
    }
  }

  /** A full pool can indeed not allocate: 62000 live entries hold every port, so nothing is recycled and
      every port the counter could offer is in use. */
  lemma FullPoolHoldsEveryPort(p: Pool)
    requires Valid(p) && |p.procs| >= CAPACITY
    ensures !CanAlloc(p) && (forall q :: InRange(q) ==> InUse(p.procs, q))
  {
    hide LogOk, FreeOk, InUse;
    LivePortsFill(p);
    if p.free != [] { FreeIsUnused(p); }
  }

  /** The port the search tries on its k-th turn. */
  function Tried(next: int, k: nat): (port: int)
    requires FIRST <= next <= LAST + 1
    ensures InRange(port)
    decreases k
  {
    if k == 0 then (if next > LAST then FIRST else next) else Tried(Tried(next, 0) + 1, k - 1)
  }

  /** The search finds an unused port on some turn if and only if fewer than 62000 entries are live;
      otherwise it goes on for ever. */
  lemma SearchEnds(p: Pool)
    requires Valid(p)
    ensures (exists k :: !InUse(p.procs, Tried(p.next, k))) <==> |p.procs| < CAPACITY
  {
    hide InUse, LiveOk, LogOk, FreeOk;
    if |p.procs| < CAPACITY {
      var k := TurnsTo(p.next, FreePort(p.procs));
    } else {
      FullPoolHoldsEveryPort(p);
    }
  }

  /** The counter path stops at the first turn that tries an unused port. */
  lemma {:induction false} ScanStopsFirst(procs: map<Slug, Proc>, next: int) returns (k: nat)
    requires FIRST <= next <= LAST + 1 && |procs| < CAPACITY
    ensures Tried(next, k) == Scan(procs, next).0 && forall j: nat :: j < k ==> InUse(procs, Tried(next, j))
    decreases if next <= FreePort(procs) then 0 else 1, LAST + 1 - next
  {
    hide InUse;
    k := 0;
    if InUse(procs, Tried(next, 0)) {
      k := ScanStopsFirst(procs, Tried(next, 0) + 1);
      k := k + 1;
      forall j: nat | j < k ensures InUse(procs, Tried(next, j)) {
        if j > 0 { assert Tried(next, j) == Tried(Tried(next, 0) + 1, j - 1); }
      }
    }
  }

  /** The search gets to every port. */
  lemma {:induction false} TurnsTo(next: int, port: int) returns (k: nat)
    requires FIRST <= next <= LAST + 1 && InRange(port)
    ensures Tried(next, k) == port
    decreases if next <= port then 0 else 1, LAST + 1 - next
  {
    if Tried(next, 0) == port {
      k := 0;
    } else {
      k := TurnsTo(Tried(next, 0) + 1, port);
      k := k + 1;
    }
  }

  lemma LivePortsFill(p: Pool)
    requires LiveOk(p) && |p.procs| >= CAPACITY
    ensures forall q :: InRange(q) ==> InUse(p.procs, q)
  {
    var all := Interval(FIRST, LAST + 1);
    PortsSize(p.procs);
    SubsetSize(Ports(p.procs), all);
    assert forall q :: q in Ports(p.procs) ==> InUse(p.procs, q);
  }

  lemma FreeIsUnused(p: Pool)
    requires FreeOk(p) && p.free != []
    ensures InRange(p.free[0]) && !InUse(p.procs, p.free[0])
  {
    hide InUse;
  }

  // ----- conservation -----

  /** How many ports were lost to processes that did not start. */
  function Losses(log: seq<PortEvent>): nat {
    if log == [] then 0 else Losses(log[..|log| - 1]) + if log[|log| - 1].Lost? then 1 else 0
  }

  lemma LossesSnoc(log: seq<PortEvent>, e: PortEvent)
    ensures Losses(log + [e]) == Losses(log) + if e.Lost? then 1 else 0
  {
    assert (log + [e])[..|log|] == log;
  }

  /** On its first lap the counter has issued exactly the ports that are now live, recycled or lost. */
  ghost predicate Conserved(p: Pool) {
    && p.next == FIRST + |p.procs| + |p.free| + Losses(p.log)
    && (forall s :: s in p.procs ==> p.procs[s].port < p.next)
    && (forall i :: 0 <= i < |p.free| ==> p.free[i] < p.next)
  }

  lemma AllocConserves(p: Pool)
    requires FIRST <= p.next <= LAST + 1 && CanAlloc(p) && Conserved(p) && (p.free != [] || p.next <= LAST)
    ensures var (port, q) := Alloc(p);
      && port < q.next && q.next >= p.next && q.next == FIRST + |p.procs| + 1 + |q.free| + Losses(p.log)
      && (forall i :: 0 <= i < |q.free| ==> q.free[i] < q.next)
  {
    hide Losses;
    if p.free == [] {
      assert !InUse(p.procs, p.next);
    }
  }

  lemma ClaimConserves(p: Pool, slug: Slug, starts: bool, now: int)
    requires Valid(p) && Conserved(p) && CanAlloc(p) && slug !in p.procs && (p.free != [] || p.next <= LAST)
    ensures Conserved(Claim(p, slug, starts, now))
  {
    hide Losses, InUse, Alloc, LiveOk, FreeOk, LogOk;
    AllocFactsOf(p);
    AllocConserves(p);
    var (port, q) := Alloc(p);
    LossesSnoc(p.log, Issued(port));
    LossesSnoc(q.log, Lost(port));
  }

  lemma AllocFactsOf(p: Pool)
    requires Valid(p) && CanAlloc(p)
    ensures var (port, q) := Alloc(p); q == p.(free := q.free, next := q.next, log := p.log + [Issued(port)])
  {
    hide LiveOk, FreeOk, LogOk;
    AllocFacts(p);
  }

  lemma StopConserves(p: Pool, slug: Slug)
    requires Conserved(p)
    ensures Conserved(Stop(p, slug))
  {
    hide Losses;
    if slug in p.procs {
      LossesSnoc(p.log, Returned(p.procs[slug].port));
      assert |p.procs - {slug}| == |p.procs| - 1 by {
        assert p.procs.Keys == (p.procs - {slug}).Keys + {slug};
      }
    }
  }

  lemma {:induction false} ReapConserves(p: Pool, order: seq<Slug>, now: int, idle: int, pinned: set<Slug>)
    requires Conserved(p)
    ensures Conserved(Reap(p, order, now, idle, pinned))
    decreases |order|
  {
    hide Conserved, Stop;
    if order != [] {
      var front := order[..|order| - 1];
      ReapConserves(p, front, now, idle, pinned);
      StopConserves(Reap(p, front, now, idle, pinned), order[|order| - 1]);
    }
  }

  lemma TouchConserves(p: Pool, slug: Slug, now: int)
    requires Conserved(p)
    ensures Conserved(Touch(p, slug, now))
  {
    hide Losses;
    if slug in p.procs {
      assert Touch(p, slug, now).procs.Keys == p.procs.Keys;
    }
  }

  // ----- whole runs -----

  datatype Event =
    | Ensure(slug: Slug, enabled: bool, starts: bool, now: int)
    | Request(slug: Slug, now: int)
    | Ready(wait: Wait)
    | TimedOut(wait: Wait)
    | StopOne(slug: Slug)
    | ReapPass(order: seq<Slug>, now: int, idle: int, pinned: set<Slug>)

  /** The pool and the readiness waits still under way, which hold no lock. */
  datatype System = System(pool: Pool, waits: set<Wait>)

  const EMPTY_POOL := Pool(map[], [], FIRST, 0, [])

  /** One critical section. A caller that would search for a port in a full pool never gets on. */
  function Step(s: System, e: Event): System
    requires FIRST <= s.pool.next <= LAST + 1
  {
    match e
    case Ensure(slug, enabled, starts, now) =>
      if slug in s.pool.procs || !enabled || !CanAlloc(s.pool) then s
      else
        var wait := Wait(slug, s.pool.serial, Alloc(s.pool).0);
        System(Claim(s.pool, slug, starts, now), if starts then s.waits + {wait} else s.waits)
    case Request(slug, now) => s.(pool := Touch(s.pool, slug, now))
    case Ready(w) => s.(waits := s.waits - {w})
    case TimedOut(w) => if w in s.waits then System(GiveUp(s.pool, w), s.waits - {w}) else s
    case StopOne(slug) => s.(pool := Stop(s.pool, slug))
    case ReapPass(order, now, idle, pinned) => s.(pool := Reap(s.pool, order, now, idle, pinned))
  }

  /** Every wait still knows the process it watches: no other entry carries that process. */
  ghost predicate WaitsOk(s: System) {
    forall w :: w in s.waits ==> w.id < s.pool.serial && Owns(s.pool, w)
  }

  ghost predicate Owns(p: Pool, w: Wait) {
    forall x :: x in p.procs && p.procs[x].id == w.id ==> x == w.slug && p.procs[x].port == w.port
  }

  /** `q` has no process that `p` does not have. */
  ghost predicate NoNewProcs(p: Pool, q: Pool) {
    && q.serial == p.serial
    && forall x :: x in q.procs ==> x in p.procs && q.procs[x].id == p.procs[x].id && q.procs[x].port == p.procs[x].port
  }

  lemma {:induction false} ReapAddsNone(p: Pool, order: seq<Slug>, now: int, idle: int, pinned: set<Slug>)
    ensures NoNewProcs(p, Reap(p, order, now, idle, pinned))
    decreases |order|
  {
    if order != [] { ReapAddsNone(p, order[..|order| - 1], now, idle, pinned); }
  }

  lemma WaitsSurvive(s: System, t: System)
    requires WaitsOk(s) && NoNewProcs(s.pool, t.pool) && t.waits <= s.waits
    ensures WaitsOk(t)
  {
    forall w | w in t.waits ensures Owns(t.pool, w) {
      assert Owns(s.pool, w);
    }
  }

  lemma ClaimKeepsWaits(s: System, slug: Slug, starts: bool, now: int)
    requires WaitsOk(s) && Valid(s.pool) && CanAlloc(s.pool) && slug !in s.pool.procs
    ensures WaitsOk(Step(s, Ensure(slug, true, starts, now)))
  {
    hide LogOk, FreeOk, InUse, Alloc;
    AllocFactsOf(s.pool);
    var t := Step(s, Ensure(slug, true, starts, now));
    forall w | w in t.waits ensures w.id < t.pool.serial && Owns(t.pool, w) {
      if w in s.waits { assert Owns(s.pool, w); }
    }
  }

  /** Every step keeps the invariant. */
  lemma StepKeepsValid(s: System, e: Event)
    requires Valid(s.pool) && WaitsOk(s)
    ensures Valid(Step(s, e).pool) && WaitsOk(Step(s, e))
  {
    hide LogOk, FreeOk, LiveOk, WaitsOk, Claim, Drop, Reap, Alloc, CanAlloc;
    match e
    case Ensure(slug, enabled, starts, now) =>
      if slug !in s.pool.procs && enabled && CanAlloc(s.pool) {
        ClaimKeepsValid(s.pool, slug, starts, now);
        ClaimKeepsWaits(s, slug, starts, now);
      }
    case Request(slug, now) =>
      TouchKeepsValid(s.pool, slug, now);
      WaitsSurvive(s, Step(s, e));
    case Ready(w) =>
      WaitsSurvive(s, Step(s, e));
    case TimedOut(w) =>
      if w in s.waits {
        GiveUpIsStop(s, w);
        StopKeepsValid(s.pool, w.slug);
        StopAddsNone(s.pool, w.slug);
        WaitsSurvive(s, Step(s, e));
      }
    case StopOne(slug) =>
      StopKeepsValid(s.pool, slug);
      StopAddsNone(s.pool, slug);
      WaitsSurvive(s, Step(s, e));
    case ReapPass(order, now, idle, pinned) =>
      ReapKeepsValid(s.pool, order, now, idle, pinned);
      ReapAddsNone(s.pool, order, now, idle, pinned);
      WaitsSurvive(s, Step(s, e));
  }

  lemma StopAddsNone(p: Pool, slug: Slug)
    ensures NoNewProcs(p, Stop(p, slug))
  {
  }

  /** The `cur == p` test: a wait that runs out stops its own process, or nothing. */
  lemma GiveUpIsStop(s: System, w: Wait)
    requires WaitsOk(s) && w in s.waits
    ensures GiveUp(s.pool, w) == s.pool || GiveUp(s.pool, w) == Stop(s.pool, w.slug)
  {
    assert Owns(s.pool, w);
  }

  ghost function Run(events: seq<Event>): (s: System)
    ensures Valid(s.pool) && WaitsOk(s)
  {
    hide Valid, WaitsOk, Step, Alternates, LastEvent;
    if events == [] then
      EmptyIsValid();
      System(EMPTY_POOL, {})
    else
      var front, e := events[..|events| - 1], events[|events| - 1];
      StepKeepsValid(Run(front), e);
      ValidNext(Run(front).pool);
      Step(Run(front), e)
  }

  lemma ValidNext(p: Pool)
    requires Valid(p)
    ensures FIRST <= p.next <= LAST + 1
  {
  }

  lemma EmptyIsValid()
    ensures Valid(EMPTY_POOL) && WaitsOk(System(EMPTY_POOL, {}))
  {
  }

  // ----- what holds of every run -----

  /** Where the last event about `port` stands. */
  lemma {:induction false} LastEventAt(log: seq<PortEvent>, port: int) returns (k: nat)
    requires LastEvent(log, port).Some?
    ensures k < |log| && log[k] == LastEvent(log, port).value
    ensures forall m :: k < m < |log| ==> log[m].port != port
  {
    var n := |log| - 1;
    if log[n].port == port {
      k := n;
    } else {
      k := LastEventAt(log[..n], port);
      forall m | k < m < n ensures log[m].port != port {
        assert log[..n][m].port != port;
      }
    }
  }

  lemma {:induction false} IssuedBetween(log: seq<PortEvent>, i: nat, j: nat, port: int) returns (k: nat)
    requires Alternates(log) && i < j < |log| && log[i] == log[j] == Returned(port)
    ensures i < k < j && log[k] == Issued(port)
    decreases |log|
  {
    hide LastEvent;
    var n := |log| - 1;
    var front := log[..n];
    if j < n {
      k := IssuedBetween(front, i, j, port);
    } else {
      k := LastEventAt(front, port);
      assert front[i].port == port;
    }
  }

  /** Whatever the interleaving of claims, readiness waits, stops and reaps: between two returns of a port
      to the free list it was handed out again. */
  lemma ReturnedOncePerOwnership(events: seq<Event>, i: nat, j: nat, port: int)
    requires var log := Run(events).pool.log; i < j < |log| && log[i] == log[j] == Returned(port)
    ensures exists k :: i < k < j && Run(events).pool.log[k] == Issued(port)
  {
    hide Run, LiveOk, FreeOk, LastEvent;
    var k := IssuedBetween(Run(events).pool.log, i, j, port);
  }

  /** Live ports are distinct and in range, and disjoint from a free list without duplicates. */
  lemma PortsStayApart(events: seq<Event>, s: Slug, t: Slug, i: nat, j: nat)
    requires var p := Run(events).pool; s in p.procs && t in p.procs && i < |p.free| && j < |p.free|
    ensures var p := Run(events).pool;
      && FIRST <= p.procs[s].port <= LAST && FIRST <= p.free[i] <= LAST
      && (p.procs[s].port == p.procs[t].port ==> s == t)
      && (p.free[i] == p.free[j] ==> i == j)
      && p.procs[s].port != p.free[i]
  {
    hide Run, LogOk;
    var p := Run(events).pool;
    assert InRange(p.procs[s].port) && InRange(p.free[i]);
    LiveInUse(p, s);
  }

  /** In every run, on any lap of the counter, a port is live or recycled exactly if it was issued and is
      not lost; it is never both. */
  lemma WhereEveryPortIs(events: seq<Event>, port: int)
    ensures var p := Run(events).pool; var last := LastEvent(p.log, port);
      && (InUse(p.procs, port) || port in p.free <==> last.Some? && last != Some(Lost(port)))
      && !(InUse(p.procs, port) && port in p.free)
  {
    hide Run, LiveOk, InUse;
    LastEventIsOf(Run(events).pool.log, port);
  }

  lemma {:induction false} LastEventIsOf(log: seq<PortEvent>, port: int)
    ensures LastEvent(log, port).Some? ==> LastEvent(log, port).value.port == port
  {
    if log != [] { LastEventIsOf(log[..|log| - 1], port); }
  }

  /** A lost port is handed out again only when nothing is recycled and the counter gets to it, for a port
      the counter has passed by wrapping around. */
  lemma LostPortNeedsTheCounter(events: seq<Event>, port: int)
    requires var p := Run(events).pool;
      LastEvent(p.log, port) == Some(Lost(port)) && CanAlloc(p) && FIRST <= p.next <= LAST + 1 && Alloc(p).0 == port
    ensures var p := Run(events).pool;
      && p.free == [] && Alloc(p).1.next == port + 1
      && (port < p.next ==> Alloc(p).1.next <= p.next)
  {
    hide Run, LiveOk, InUse, LastEvent, Alternates;
    var p := Run(events).pool;
    RecycledFirst(p);
  }

  lemma RecycledFirst(p: Pool)
    requires FIRST <= p.next <= LAST + 1 && CanAlloc(p)
    ensures p.free != [] ==> Alloc(p).0 in p.free
  {
  }

  /** One failed start: its port is then neither live nor recycled. */
  lemma FailedStartLosesPort(slug: Slug, now: int)
    ensures var p := Run([Ensure(slug, true, false, now)]).pool;
      && LastEvent(p.log, FIRST) == Some(Lost(FIRST)) && !InUse(p.procs, FIRST) && FIRST !in p.free && p.next == FIRST + 1
  {
    hide Valid, WaitsOk;
    var e := Ensure(slug, true, false, now);
    EmptyIsValid();
    assert [e][..0] == [];
    assert Run([e]) == Step(Run([]), e);
    assert !InUse(EMPTY_POOL.procs, FIRST);
    assert Scan(EMPTY_POOL.procs, FIRST) == (FIRST, FIRST + 1);
  }

  function Max(a: nat, b: nat): nat {
    if a < b then b else a
  }

  /** The most processes that were ever live at the same time. */
  ghost function Peak(events: seq<Event>): nat {
    if events == [] then 0 else Max(Peak(events[..|events| - 1]), |Run(events).pool.procs|)
  }

  ghost predicate WithinPeak(p: Pool, peak: nat) {
    Conserved(p) && p.next - FIRST <= peak + Losses(p.log) && |p.procs| <= peak
  }

  lemma {:induction false} ReapShrinks(p: Pool, order: seq<Slug>, now: int, idle: int, pinned: set<Slug>)
    ensures var q := Reap(p, order, now, idle, pinned);
      |q.procs| <= |p.procs| && q.next == p.next && Losses(q.log) == Losses(p.log)
    decreases |order|
  {
    hide Stop, Losses;
    if order != [] {
      var front := order[..|order| - 1];
      ReapShrinks(p, front, now, idle, pinned);
      StopShrinks(Reap(p, front, now, idle, pinned), order[|order| - 1]);
    }
  }

  lemma StopShrinks(p: Pool, slug: Slug)
    ensures var q := Stop(p, slug); |q.procs| <= |p.procs| && q.next == p.next && Losses(q.log) == Losses(p.log)
  {
    hide Losses;
    if slug in p.procs {
      LossesSnoc(p.log, Returned(p.procs[slug].port));
      SubsetSize((p.procs - {slug}).Keys, p.procs.Keys);
      assert |p.procs - {slug}| == |(p.procs - {slug}).Keys| && |p.procs| == |p.procs.Keys|;
    }
  }

  lemma TouchShrinks(p: Pool, slug: Slug, now: int)
    ensures var q := Touch(p, slug, now); |q.procs| == |p.procs| && q.next == p.next && q.log == p.log
  {
    var q := Touch(p, slug, now);
    assert q.procs.Keys == p.procs.Keys;
    assert |q.procs| == |q.procs.Keys| && |p.procs| == |p.procs.Keys|;
  }

  lemma ClaimGrows(p: Pool, slug: Slug, starts: bool, now: int)
    requires Valid(p) && CanAlloc(p) && slug !in p.procs
    ensures var q := Claim(p, slug, starts, now);
      && |q.procs| == |p.procs| + (if starts then 1 else 0)
      && Losses(q.log) == Losses(p.log) + (if starts then 0 else 1)
      && (if p.free != [] then q.next == p.next else q.free == [])
  {
    hide Losses, LiveOk, FreeOk, LogOk, InUse, Scan;
    AllocFactsOf(p);
    var (port, q) := Alloc(p);
    LossesSnoc(p.log, Issued(port));
    LossesSnoc(q.log, Lost(port));
  }

  lemma ClaimWithinPeak(p: Pool, slug: Slug, starts: bool, now: int, peak: nat, peak': nat)
    requires Valid(p) && CanAlloc(p) && slug !in p.procs && WithinPeak(p, peak)
    requires var q := Claim(p, slug, starts, now); peak' == Max(peak, |q.procs|) && peak' + Losses(q.log) <= CAPACITY
    ensures WithinPeak(Claim(p, slug, starts, now), peak')
  {
    hide Losses, Valid, Alloc;
    ValidNext(p);
    ClaimGrows(p, slug, starts, now);
    ClaimConserves(p, slug, starts, now);
  }

  lemma StepWithinPeak(s: System, e: Event, peak: nat, peak': nat)
    requires Valid(s.pool) && WaitsOk(s) && WithinPeak(s.pool, peak) && FIRST <= s.pool.next <= LAST + 1
    requires var t := Step(s, e); peak' == Max(peak, |t.pool.procs|) && peak' + Losses(t.pool.log) <= CAPACITY
    ensures WithinPeak(Step(s, e).pool, peak')
  {
    hide Losses, Valid, WaitsOk, Claim, Reap, Alloc, CanAlloc, Conserved, Stop, GiveUp, Touch;
    match e
    case Ensure(slug, enabled, starts, now) =>
      if slug !in s.pool.procs && enabled && CanAlloc(s.pool) {
        ClaimWithinPeak(s.pool, slug, starts, now, peak, peak');
      }
    case Request(slug, now) =>
      TouchConserves(s.pool, slug, now);
      TouchShrinks(s.pool, slug, now);
    case Ready(w) =>
    case TimedOut(w) =>
      if w in s.waits {
        GiveUpIsStop(s, w);
        StopConserves(s.pool, w.slug);
        StopShrinks(s.pool, w.slug);
      }
    case StopOne(slug) =>
      StopConserves(s.pool, slug);
      StopShrinks(s.pool, slug);
    case ReapPass(order, now, idle, pinned) =>
      ReapConserves(s.pool, order, now, idle, pinned);
      ReapShrinks(s.pool, order, now, idle, pinned);
  }

  lemma LossesGrow(s: System, e: Event)
    requires Valid(s.pool) && WaitsOk(s) && FIRST <= s.pool.next <= LAST + 1
    ensures Losses(Step(s, e).pool.log) >= Losses(s.pool.log)
  {
    hide Losses, Valid, WaitsOk, Claim, Reap, Alloc, CanAlloc, Stop, GiveUp;
    match e
    case Ensure(slug, enabled, starts, now) =>
      if slug !in s.pool.procs && enabled && CanAlloc(s.pool) {
        ClaimGrows(s.pool, slug, starts, now);
      }
    case Request(slug, now) =>
    case Ready(w) =>
    case TimedOut(w) =>
      if w in s.waits {
        GiveUpIsStop(s, w);
        StopShrinks(s.pool, w.slug);
      }
    case StopOne(slug) =>
      StopShrinks(s.pool, slug);
    case ReapPass(order, now, idle, pinned) =>
      ReapShrinks(s.pool, order, now, idle, pinned);
  }

  /** Ports are recycled, not consumed: however long the run, the counter never moves further than the
      largest number of processes live at once plus the ports lost to failed starts, and until those
      reach 62000 the ports issued are exactly the live, the recycled and the lost ones. */
  lemma {:induction false} PortsAreRecycled(events: seq<Event>)
    requires Peak(events) + Losses(Run(events).pool.log) <= CAPACITY
    ensures WithinPeak(Run(events).pool, Peak(events))
    decreases |events|
  {
    hide Valid, WaitsOk, Losses, Step, WithinPeak;
    if events == [] {
      EmptyWithinPeak();
    } else {
      var front, e := events[..|events| - 1], events[|events| - 1];
      var s := Run(front);
      ValidNext(s.pool);
      LossesGrow(s, e);
      PortsAreRecycled(front);
      StepWithinPeak(s, e, Peak(front), Peak(events));
    }
  }

  lemma EmptyWithinPeak()
    ensures WithinPeak(EMPTY_POOL, 0)
  {
  }

  // ----- recency and recycling -----

  /** What one step does to the time of the last request of `slug`: a request sets it, a new process starts
      with the time it was claimed, and nothing else touches it. */
  lemma StepStamps(s: System, e: Event, slug: Slug)
    requires Valid(s.pool) && FIRST <= s.pool.next <= LAST + 1 && WaitsOk(s) && slug in Step(s, e).pool.procs
    ensures var proc := Step(s, e).pool.procs[slug];
      if slug !in s.pool.procs then e == Ensure(slug, true, true, proc.lastReq)
      else
        && proc.id == s.pool.procs[slug].id && proc.port == s.pool.procs[slug].port
        && proc.lastReq == (if e.Request? && e.slug == slug then e.now else s.pool.procs[slug].lastReq)
  {
    hide Valid, LiveOk, FreeOk, LogOk, CanAlloc, Alloc, Reap;
    match e
    case Ensure(other, enabled, starts, now) =>
      if other !in s.pool.procs && enabled && CanAlloc(s.pool) { AllocFactsOf(s.pool); }
    case ReapPass(order, now, idle, pinned) =>
      ReapSoFar(s.pool, order, now, idle, pinned);
    case _ =>
  }

  /** The event that used the process of `slug` last: a request, or the claim that started it. */
  ghost predicate UsedAt(events: seq<Event>, slug: Slug, k: nat, at: int)
    requires k < |events|
  {
    events[k] == Request(slug, at) || (events[k] == Ensure(slug, true, true, at) && slug !in Run(events[..k]).pool.procs)
  }

  /** From the k-th event on the process lived, and had no request after that event. */
  ghost predicate UnusedSince(events: seq<Event>, slug: Slug, k: nat) {
    && (forall m {:trigger events[m]} :: k < m < |events| ==> !(events[m].Request? && events[m].slug == slug))
    && (forall m {:trigger events[..m]} :: k < m <= |events| ==> slug in Run(events[..m]).pool.procs)
  }

  /** In every run the time the reaper goes by is that of the last request to the process, or of its start
      if there was none since. */
  lemma {:induction false} LastReqIsLastUse(events: seq<Event>, slug: Slug)
    requires slug in Run(events).pool.procs
    ensures exists k :: 0 <= k < |events| && UsedAt(events, slug, k, Run(events).pool.procs[slug].lastReq) && UnusedSince(events, slug, k)
    decreases |events|
  {
    hide Step, Valid, WaitsOk;
    assert events != [];
    var n := |events| - 1;
    var s := Run(events[..n]);
    ValidNext(s.pool);
    StepStamps(s, events[n], slug);
    assert events[..n + 1] == events;
    if slug !in s.pool.procs || (events[n].Request? && events[n].slug == slug) {
      assert UsedAt(events, slug, n, Run(events).pool.procs[slug].lastReq);
      assert UnusedSince(events, slug, n);
    } else {
      LastReqIsLastUse(events[..n], slug);
      var k :| 0 <= k < n && UsedAt(events[..n], slug, k, s.pool.procs[slug].lastReq) && UnusedSince(events[..n], slug, k);
      assert events == events[..n] + [events[n]];
      OneMoreEvent(events[..n], events[n], slug, k, s.pool.procs[slug].lastReq);
    }
  }

  lemma OneMoreEvent(front: seq<Event>, e: Event, slug: Slug, k: nat, at: int)
    requires k < |front| && slug in Run(front + [e]).pool.procs
    requires UsedAt(front, slug, k, at) && UnusedSince(front, slug, k)
    requires !(e.Request? && e.slug == slug)
    ensures UsedAt(front + [e], slug, k, at) && UnusedSince(front + [e], slug, k)
  {
    hide Run;
    var events := front + [e];
    assert events[..k] == front[..k];
    NoRequestSince(front, e, slug, k);
    AliveSince(front, e, slug, k);
  }

  lemma NoRequestSince(front: seq<Event>, e: Event, slug: Slug, k: nat)
    requires !(e.Request? && e.slug == slug)
    requires forall m {:trigger front[m]} :: k < m < |front| ==> !(front[m].Request? && front[m].slug == slug)
    ensures var events := front + [e];
      forall m {:trigger events[m]} :: k < m < |events| ==> !(events[m].Request? && events[m].slug == slug)
  {
  }

  lemma AliveSince(front: seq<Event>, e: Event, slug: Slug, k: nat)
    requires slug in Run(front + [e]).pool.procs
    requires forall m {:trigger front[..m]} :: k < m <= |front| ==> slug in Run(front[..m]).pool.procs
    ensures var events := front + [e];
      forall m {:trigger events[..m]} :: k < m <= |events| ==> slug in Run(events[..m]).pool.procs
  {
    hide Run;
    var events := front + [e];
    forall m | k < m <= |events| ensures slug in Run(events[..m]).pool.procs {
      var p := events[..m];
      if m <= |front| {
        assert p == front[..m];
      } else {
        assert p == events;
      }
    }
  }

  /** The recycled ports are a stack: the port given back last is the next one handed out, and taking it
      leaves the others as they were. */
  lemma LastReturnedFirst(p: Pool, slug: Slug, port: int)
    requires FIRST <= p.next <= LAST + 1
    ensures var q := Drop(p, slug, port);
      && q.procs == p.procs - {slug} && q.next == p.next
      && CanAlloc(q) && Alloc(q).0 == port && Alloc(q).1.free == p.free && Alloc(q).1.next == p.next
  {
    assert (p.free + [port])[..|p.free|] == p.free;
  }

  // ----- the shared variables -----

  class PgrstPool {
    var procs: map<Slug, Proc>
    var free: seq<int>
    var next: int
    var serial: nat
    ghost var log: seq<PortEvent>

    ghost function State(): Pool
      reads this
    {
      Pool(procs, free, next, serial, log)
    }

    constructor ()
      ensures State() == EMPTY_POOL
    {
      procs, free, next, serial, log := map[], [], FIRST, 0, [];
    }

    /** The scan over the live entries. */
    method PortInUse(port: int) returns (inUse: bool)
      ensures inUse <==> InUse(procs, port)
    {
      var todo := procs.Keys;
      inUse := false;
      while todo != {}
        invariant todo <= procs.Keys && !inUse
        invariant forall s :: s in procs && procs[s].port == port ==> s in todo
        decreases |todo|
      {
        var s :| s in todo;
        if procs[s].port == port {
          return true;
        }
        todo := todo - {s};
      }
    }

    method AllocPort() returns (port: int)
      requires FIRST <= next <= LAST + 1 && CanAlloc(State())
      modifies this
      ensures (port, State()) == Alloc(old(State()))
    {
      hide InUse;
      if |free| > 0 {
        port := free[|free| - 1];
        free := free[..|free| - 1];
        log := log + [Issued(port)];
        return;
      }
      while true
        invariant FIRST <= next <= LAST + 1 && |procs| < CAPACITY
        invariant Scan(procs, next) == old(Scan(procs, next))
        invariant State() == old(State()).(next := next)
        decreases if next <= FreePort(procs) then 0 else 1, LAST + 1 - next
      {
        if next > LAST {
          next := FIRST;
        }
        port := next;
        next := next + 1;
        var inUse := PortInUse(port);
        if !inUse {
          log := log + [Issued(port)];
          return;
        }
      }
    }

    /** The first critical section of `ensurePostgREST`: the process that is there, an error, or a new
        process whose readiness is then awaited without the lock. `starts` is whether it starts. */
    method EnsurePostgrest(slug: Slug, enabled: bool, starts: bool, now: int) returns (r: Result<(int, bool)>)
      requires FIRST <= next <= LAST + 1 && (slug in procs || !enabled || CanAlloc(State()))
      modifies this
      ensures old(slug in procs) ==> State() == old(State()) && r == Ok((old(procs)[slug].port, false))
      ensures old(slug !in procs) && !enabled ==> State() == old(State()) && r == Thrown
      ensures old(slug !in procs) && enabled ==> State() == Claim(old(State()), slug, starts, now)
      ensures old(slug !in procs) && enabled ==> r == if starts then Ok((procs[slug].port, true)) else Thrown
      ensures old(slug !in procs) && enabled && starts ==> procs[slug].lastReq == now && procs - {slug} == old(procs)
    {
      hide CanAlloc, Scan;
      if slug in procs {
        return Ok((procs[slug].port, false));
      }
      if !enabled {
        return Thrown;
      }
      var port := AllocPort();
      if !starts {
        log := log + [Lost(port)];
        return Thrown;
      }
      procs := procs[slug := Proc(serial, port, now)];
      serial := serial + 1;
      return Ok((port, true));
    }

    method KillAndFree(slug: Slug, port: int)
      modifies this
      ensures State() == Drop(old(State()), slug, port)
    {
      procs := procs - {slug};
      free := free + [port];
      log := log + [Returned(port)];
    }

    /** The second critical section of `ensurePostgREST`, after a failed readiness wait. */
    method ReadinessFailed(w: Wait)
      modifies this
      ensures State() == GiveUp(old(State()), w)
    {
      if w.slug in procs && procs[w.slug].id == w.id {
        KillAndFree(w.slug, w.port);
      }
    }

    method StopPostgrest(slug: Slug)
      modifies this
      ensures State() == Stop(old(State()), slug)
    {
      if slug in procs {
        KillAndFree(slug, procs[slug].port);
      }
    }

    /** Visits every entry once, in any order. */
    method ReapPostgrest(now: int, idle: int, pinned: set<Slug>) returns (ghost order: seq<Slug>)
      modifies this
      ensures State() == Reap(old(State()), order, now, idle, pinned)
      ensures multiset(order) == multiset(old(procs).Keys)
      ensures forall slug :: slug in procs <==>
        slug in old(procs) && (slug in pinned || now - old(procs)[slug].lastReq <= idle)
    {
      ghost var before := State();
      order := [];
      var todo := procs.Keys;
      while todo != {}
        invariant todo <= procs.Keys
        invariant State() == Reap(old(State()), order, now, idle, pinned)
        invariant multiset(order) + multiset(todo) == multiset(old(procs).Keys)
        decreases |todo|
      {
        var s :| s in todo;
        assert multiset(todo) == multiset(todo - {s}) + multiset{s};
        todo := todo - {s};
        assert (order + [s])[..|order|] == order;
        order := order + [s];
        if s in pinned {
          continue;
        }
        if now - procs[s].lastReq > idle {
          KillAndFree(s, procs[s].port);
        }
      }
      forall slug | slug in before.procs ensures slug in order {
        assert slug in multiset(before.procs.Keys);
      }
      ReapLeavesActive(before, order, now, idle, pinned);
    }
  }
}
