/** One message queue: a table of messages hidden while somebody works on them, and its archive. */
module MessageQueue {
  import opened Exceptions

  /** A message is invisible until `vt`. */
  datatype Message = Message(readCt: nat, vt: int, enqueuedAt: int, body: string)

  datatype Archived = Archived(readCt: nat, enqueuedAt: int, body: string)

  /** The queue's table, its archive, and the sequence its ids come from. */
  datatype Queue = Queue(live: map<int, Message>, archive: map<int, Archived>, next: int)

  const EMPTY := Queue(map[], map[], 1)

  function Send(q: Queue, body: string, now: int): Queue {
    q.(live := q.live[q.next := Message(0, now, now, body)], next := q.next + 1)
  }

  predicate IsVisible(q: Queue, id: int, now: int) {
    id in q.live && q.live[id].vt <= now
  }

  /** The visible ids below `upto` in order, at most `qty` of them. */
  function Pick(q: Queue, now: int, qty: nat, upto: nat): (ids: seq<int>)
    ensures |ids| <= qty
  {
    if upto == 0 then []
    else
      var ids := Pick(q, now, qty, upto - 1);
      if IsVisible(q, upto - 1, now) && |ids| < qty then ids + [upto - 1] else ids
  }

  /** The rows of `ids` hidden until then and counted once more; the others as they were. */
  function Updated(live: map<int, Message>, ids: seq<int>, until: int): (rows: map<int, Message>)
    ensures rows.Keys == live.Keys
    ensures forall id :: id in live ==> rows[id] == if id in ids then live[id].(vt := until, readCt := live[id].readCt + 1) else live[id]
  {
    map id | id in live :: if id in ids then live[id].(vt := until, readCt := live[id].readCt + 1) else live[id]
  }

  function Hide(q: Queue, ids: seq<int>, until: int): Queue {
    q.(live := Updated(q.live, ids, until))
  }

  /** Reads, and hides what was read for `secs` seconds. A negative limit is an error. */
  function Read(q: Queue, secs: int, qty: int, now: int): (r: (Queue, Result<seq<int>>))
    requires q.next >= 1
  {
    if qty < 0 then (q, Thrown)
    else
      var ids := Pick(q, now, qty, q.next);
      (Hide(q, ids, now + secs), Ok(ids))
  }

  function Delete(q: Queue, id: int): Queue {
    q.(live := q.live - {id})
  }

  /** Moves a message; an id that is already in the archive would violate its primary key. */
  function Archive(q: Queue, id: int): (Queue, Result<bool>) {
    if id !in q.live then (q, Ok(false))
    else if id in q.archive then (q, Thrown)
    else
      var m := q.live[id];
      (q.(live := q.live - {id}, archive := q.archive[id := Archived(m.readCt, m.enqueuedAt, m.body)]), Ok(true))
  }

  /** Truncating the table does not restart its sequence. */
  function Purge(q: Queue): Queue {
    q.(live := map[])
  }

  // ----- what a read picks -----

  predicate Increasing(ids: seq<int>) {
    forall i, j :: 0 <= i < j < |ids| ==> ids[i] < ids[j]
  }

  lemma IncreasingSnoc(ids: seq<int>, id: int)
    requires Increasing(ids) && forall other :: other in ids ==> other < id
    ensures Increasing(ids + [id])
  {
    forall i, j | 0 <= i < j < |ids + [id]| ensures (ids + [id])[i] < (ids + [id])[j] {
      assert ids[i] in ids;
    }
  }

  /** Each read takes the `qty` smallest visible ids: in order, all visible, and a visible id is left out
      only when there are already `qty` smaller ones. */
  lemma {:induction false} PickIsSmallest(q: Queue, now: int, qty: nat, upto: nat)
    ensures var ids := Pick(q, now, qty, upto);
      && Increasing(ids)
      && (forall id :: id in ids ==> 0 <= id < upto && IsVisible(q, id, now))
      && (forall id :: 0 <= id < upto && IsVisible(q, id, now) && id !in ids ==>
            |ids| == qty && forall other :: other in ids ==> other < id)
  {
    if upto > 0 {
      PickIsSmallest(q, now, qty, upto - 1);
      hide IsVisible;
      var before := Pick(q, now, qty, upto - 1);
      IncreasingSnoc(before, upto - 1);
      assert forall id :: id in before + [upto - 1] <==> id in before || id == upto - 1;
    }
  }

  ghost function VisibleBelow(q: Queue, now: int, id: int): set<int> {
    set x | 0 <= x < id && IsVisible(q, x, now)
  }

  lemma VisibleNext(q: Queue, now: int, id: nat)
    ensures |VisibleBelow(q, now, id + 1)| == |VisibleBelow(q, now, id)| + if IsVisible(q, id, now) then 1 else 0
  {
    hide IsVisible;
    if IsVisible(q, id, now) {
      assert VisibleBelow(q, now, id + 1) == VisibleBelow(q, now, id) + {id as int};
    } else {
      assert VisibleBelow(q, now, id + 1) == VisibleBelow(q, now, id);
    }
  }

  lemma {:induction false} PickCount(q: Queue, now: int, qty: nat, upto: nat)
    ensures var n := |VisibleBelow(q, now, upto)|; |Pick(q, now, qty, upto)| == if n < qty then n else qty
  {
    hide VisibleBelow, IsVisible;
    if upto > 0 {
      PickCount(q, now, qty, upto - 1);
      VisibleNext(q, now, upto - 1);
    } else {
      NoneBelowZero(q, now);
    }
  }

  lemma NoneBelowZero(q: Queue, now: int)
    ensures VisibleBelow(q, now, 0) == {}
  {
  }

  /** A read takes a message exactly if it is visible and fewer than `qty` smaller ones are. */
  lemma {:induction false} PickedExactly(q: Queue, now: int, qty: nat, upto: nat, id: int)
    requires 0 <= id < upto
    ensures id in Pick(q, now, qty, upto) <==> IsVisible(q, id, now) && |VisibleBelow(q, now, id)| < qty
  {
    hide VisibleBelow, IsVisible;
    PickCount(q, now, qty, upto - 1);
    if id < upto - 1 {
      PickedExactly(q, now, qty, upto - 1, id);
    } else {
      PickIsSmallest(q, now, qty, upto - 1);
    }
  }

  // ----- runs -----

  /** One message handed to a reader, hidden for `secs` seconds. */
  datatype Delivery = Delivery(id: int, at: int, secs: int)

  datatype Event =
    | Sent(body: string)
    | WasRead(secs: int, qty: int)
    | Deleted(id: int)
    | WasArchived(id: int)
    | Purged
    | Ticked(seconds: nat)

  /** The queue, the clock, and a history: the ids removed for good, the bodies sent and when, the deliveries. */
  datatype System = System(q: Queue, now: int, removed: set<int>, bodies: map<int, string>, sentAt: map<int, int>, log: seq<Delivery>)

  function Deliveries(ids: seq<int>, at: int, secs: int): (ds: seq<Delivery>)
    ensures |ds| == |ids|
  {
    seq(|ids|, i requires 0 <= i < |ids| => Delivery(ids[i], at, secs))
  }

  function Step(s: System, e: Event): System
    requires s.q.next >= 1
  {
    match e
    case Sent(body) => s.(q := Send(s.q, body, s.now), bodies := s.bodies[s.q.next := body], sentAt := s.sentAt[s.q.next := s.now])
    case WasRead(secs, qty) =>
      var (q, r) := Read(s.q, secs, qty, s.now);
      if r.Ok? then s.(q := q, log := s.log + Deliveries(r.value, s.now, secs)) else s
    case Deleted(id) => s.(q := Delete(s.q, id), removed := if id in s.q.live then s.removed + {id} else s.removed)
    case WasArchived(id) => s.(q := Archive(s.q, id).0)
    case Purged => s.(q := Purge(s.q), removed := s.removed + s.q.live.Keys)
    case Ticked(n) => s.(now := s.now + n)
  }

  /** Every id ever issued is in exactly one of the table, the archive and the removed ids. */
  ghost predicate Partition(q: Queue, removed: set<int>) {
    && q.next >= 1
    && (forall id :: 1 <= id < q.next <==> id in q.live || id in q.archive || id in removed)
    && (forall id :: id in q.live ==> id !in q.archive && id !in removed)
    && (forall id :: id in q.archive ==> id !in removed)
  }

  /** Messages keep their bodies. */
  ghost predicate BodiesOk(q: Queue, bodies: map<int, string>) {
    && (forall id :: 1 <= id < q.next ==> id in bodies)
    && (forall id :: id in q.live && id in bodies ==> q.live[id].body == bodies[id])
    && (forall id :: id in q.archive && id in bodies ==> q.archive[id].body == bodies[id])
  }

  /** A delivered message that is still in the table is hidden until its timeout, unless that has passed. */
  ghost predicate HiddenUntil(q: Queue, now: int, d: Delivery) {
    d.at <= now && (d.id in q.live && now < d.at + d.secs ==> d.at + d.secs <= q.live[d.id].vt)
  }

  ghost predicate LogOk(s: System) {
    && (forall i :: 0 <= i < |s.log| ==> HiddenUntil(s.q, s.now, s.log[i]) && 1 <= s.log[i].id < s.q.next)
    && (forall i, j :: 0 <= i < j < |s.log| && s.log[i].id == s.log[j].id ==> Apart(s.log[i], s.log[j]))
  }

  /** The second delivery comes after the timeout of the first, if that was positive. */
  predicate Apart(first: Delivery, second: Delivery) {
    first.secs > 0 ==> first.at + first.secs <= second.at
  }

  /** How often `id` was delivered. */
  function Times(log: seq<Delivery>, id: int): nat {
    if log == [] then 0 else Times(log[..|log| - 1], id) + if log[|log| - 1].id == id then 1 else 0
  }

  /** The read counters count deliveries. */
  ghost predicate CountsOk(q: Queue, log: seq<Delivery>) {
    && (forall id :: id in q.live ==> q.live[id].readCt == Times(log, id))
    && (forall id :: id in q.archive ==> q.archive[id].readCt == Times(log, id))
  }

  /** The last time `id` was handed out. */
  function LastDelivery(log: seq<Delivery>, id: int): Option<Delivery> {
    if log == [] then None
    else if log[|log| - 1].id == id then Some(log[|log| - 1])
    else LastDelivery(log[..|log| - 1], id)
  }

  /** Since when `id` can be read: since its timeout lapsed, or since it was sent. */
  function ReadableFrom(sentAt: map<int, int>, log: seq<Delivery>, id: int): int
    requires id in sentAt
  {
    var d := LastDelivery(log, id);
    if d.Some? then d.value.at + d.value.secs else sentAt[id]
  }

  /** No message is hidden for longer than it was asked to be. */
  ghost predicate TimesOk(q: Queue, sentAt: map<int, int>, log: seq<Delivery>) {
    && (forall id :: 1 <= id < q.next ==> id in sentAt)
    && (forall id :: id in q.live ==>
          id in sentAt && q.live[id].vt == ReadableFrom(sentAt, log, id) && q.live[id].enqueuedAt == sentAt[id])
    && (forall id :: id in q.archive ==> id in sentAt && q.archive[id].enqueuedAt == sentAt[id])
  }

  ghost predicate SystemOk(s: System) {
    Partition(s.q, s.removed) && BodiesOk(s.q, s.bodies) && LogOk(s) && CountsOk(s.q, s.log) && TimesOk(s.q, s.sentAt, s.log)
  }

  lemma {:induction false} LastAbsent(log: seq<Delivery>, id: int)
    requires forall i :: 0 <= i < |log| ==> log[i].id != id
    ensures LastDelivery(log, id) == None
  {
    if log != [] { LastAbsent(log[..|log| - 1], id); }
  }

  lemma {:induction false} LastMore(log: seq<Delivery>, ids: seq<int>, at: int, secs: int, id: int)
    ensures LastDelivery(log + Deliveries(ids, at, secs), id) == if id in ids then Some(Delivery(id, at, secs)) else LastDelivery(log, id)
    decreases |ids|
  {
    if ids == [] {
      assert log + Deliveries(ids, at, secs) == log;
    } else {
      var n := |ids| - 1;
      LastMore(log, ids[..n], at, secs, id);
      LogSnoc(log, ids, at, secs, n);
      TimesSnoc(log + Deliveries(ids[..n], at, secs), Delivery(ids[n], at, secs), id);
      hide LastDelivery, Deliveries;
    }
  }

  lemma SendKeepsTimes(s: System, body: string)
    requires SystemOk(s)
    ensures var t := Step(s, Sent(body)); TimesOk(t.q, t.sentAt, t.log)
  {
    LastAbsent(s.log, s.q.next);
    hide LastDelivery, CountsOk, BodiesOk;
  }

  lemma HideKeepsTimes(q: Queue, sentAt: map<int, int>, log: seq<Delivery>, ids: seq<int>, at: int, secs: int)
    requires TimesOk(q, sentAt, log)
    ensures TimesOk(Hide(q, ids, at + secs), sentAt, log + Deliveries(ids, at, secs))
  {
    forall id ensures LastDelivery(log + Deliveries(ids, at, secs), id) ==
      if id in ids then Some(Delivery(id, at, secs)) else LastDelivery(log, id) {
      LastMore(log, ids, at, secs, id);
    }
    hide LastDelivery, Deliveries;
  }

  lemma {:induction false} TimesAbsent(log: seq<Delivery>, id: int)
    requires forall i :: 0 <= i < |log| ==> log[i].id != id
    ensures Times(log, id) == 0
  {
    if log != [] { TimesAbsent(log[..|log| - 1], id); }
  }

  lemma LogSnoc(log: seq<Delivery>, ids: seq<int>, at: int, secs: int, n: nat)
    requires |ids| == n + 1
    ensures log + Deliveries(ids, at, secs) == (log + Deliveries(ids[..n], at, secs)) + [Delivery(ids[n], at, secs)]
    ensures forall id :: id in ids <==> id in ids[..n] || id == ids[n]
  {
    assert ids == ids[..n] + [ids[n]];
  }

  lemma TimesSnoc(log: seq<Delivery>, d: Delivery, id: int)
    ensures Times(log + [d], id) == Times(log, id) + if d.id == id then 1 else 0
    ensures LastDelivery(log + [d], id) == if d.id == id then Some(d) else LastDelivery(log, id)
  {
    assert (log + [d])[..|log|] == log;
  }

  lemma {:induction false} TimesMore(log: seq<Delivery>, ids: seq<int>, at: int, secs: int, id: int)
    requires Increasing(ids)
    ensures Times(log + Deliveries(ids, at, secs), id) == Times(log, id) + if id in ids then 1 else 0
    decreases |ids|
  {
    if ids == [] {
      assert log + Deliveries(ids, at, secs) == log;
    } else {
      var n := |ids| - 1;
      TimesMore(log, ids[..n], at, secs, id);
      LogSnoc(log, ids, at, secs, n);
      TimesSnoc(log + Deliveries(ids[..n], at, secs), Delivery(ids[n], at, secs), id);
      hide Times, Deliveries;
    }
  }

  lemma SendKeepsTables(s: System, body: string)
    requires SystemOk(s)
    ensures var t := Step(s, Sent(body)); Partition(t.q, t.removed) && BodiesOk(t.q, t.bodies)
  {
    hide LogOk, CountsOk, TimesOk;
  }

  lemma SendKeepsLog(s: System, body: string)
    requires SystemOk(s)
    ensures var t := Step(s, Sent(body)); LogOk(t) && CountsOk(t.q, t.log)
  {
    TimesAbsent(s.log, s.q.next);
    hide Times, BodiesOk, TimesOk;
    var t := Step(s, Sent(body));
    forall i | 0 <= i < |t.log| ensures HiddenUntil(t.q, t.now, t.log[i]) && 1 <= t.log[i].id < t.q.next {
      assert HiddenUntil(s.q, s.now, s.log[i]) && 1 <= s.log[i].id < s.q.next;
    }
  }

  lemma SendKeepsOk(s: System, body: string)
    requires SystemOk(s)
    ensures SystemOk(Step(s, Sent(body)))
  {
    SendKeepsTables(s, body);
    SendKeepsLog(s, body);
    SendKeepsTimes(s, body);
    hide Step, Partition, BodiesOk, LogOk, CountsOk, TimesOk;
  }

  lemma HideKeepsTables(s: System, ids: seq<int>, until: int)
    requires Partition(s.q, s.removed) && BodiesOk(s.q, s.bodies)
    ensures Partition(Hide(s.q, ids, until), s.removed) && BodiesOk(Hide(s.q, ids, until), s.bodies)
  {
  }

  /** What a read picks was visible, so the timeouts of its earlier deliveries have passed. */
  lemma HideKeepsLog(s: System, ids: seq<int>, secs: int)
    requires LogOk(s) && Increasing(ids)
    requires forall id :: id in ids ==> 1 <= id < s.q.next && IsVisible(s.q, id, s.now)
    ensures LogOk(s.(q := Hide(s.q, ids, s.now + secs), log := s.log + Deliveries(ids, s.now, secs)))
  {
    var t := s.(q := Hide(s.q, ids, s.now + secs), log := s.log + Deliveries(ids, s.now, secs));
    forall i | 0 <= i < |t.log| ensures HiddenUntil(t.q, t.now, t.log[i]) && 1 <= t.log[i].id < t.q.next {
      if i < |s.log| {
        assert t.log[i] == s.log[i] && HiddenUntil(s.q, s.now, s.log[i]);
      } else {
        var id := ids[i - |s.log|];
        assert t.log[i].id == id && id in ids;
      }
    }
    forall i, j | 0 <= i < j < |t.log| && t.log[i].id == t.log[j].id ensures Apart(t.log[i], t.log[j]) {
      if j < |s.log| {
        assert Apart(s.log[i], s.log[j]);
      } else if i < |s.log| {
        assert HiddenUntil(s.q, s.now, s.log[i]) && IsVisible(s.q, ids[j - |s.log|], s.now);
      } else {
        assert false;
      }
    }
  }

  lemma HideKeepsCounts(q: Queue, log: seq<Delivery>, ids: seq<int>, at: int, secs: int)
    requires CountsOk(q, log) && Increasing(ids) && forall id :: id in q.archive ==> id !in ids
    ensures CountsOk(Hide(q, ids, at + secs), log + Deliveries(ids, at, secs))
  {
    forall id ensures Times(log + Deliveries(ids, at, secs), id) == Times(log, id) + if id in ids then 1 else 0 {
      TimesMore(log, ids, at, secs, id);
    }
    hide Times;
  }

  lemma PickedFacts(s: System, qty: nat)
    requires Partition(s.q, s.removed)
    ensures var ids := Pick(s.q, s.now, qty, s.q.next);
      && Increasing(ids)
      && (forall id :: id in ids ==> 1 <= id < s.q.next && IsVisible(s.q, id, s.now))
      && (forall id :: id in s.q.archive ==> id !in ids)
  {
    PickIsSmallest(s.q, s.now, qty, s.q.next);
    hide Pick, Increasing;
  }

  /** The system after a read of `ids`. */
  function AfterRead(s: System, ids: seq<int>, secs: int): System {
    s.(q := Hide(s.q, ids, s.now + secs), log := s.log + Deliveries(ids, s.now, secs))
  }

  lemma StepReads(s: System, secs: int, qty: int)
    requires s.q.next >= 1
    ensures Step(s, WasRead(secs, qty)) == if qty < 0 then s else AfterRead(s, Pick(s.q, s.now, qty, s.q.next), secs)
  {
    hide Pick, Hide, Deliveries;
  }

  lemma AfterReadIsOk(s: System, ids: seq<int>, secs: int)
    requires SystemOk(s) && Increasing(ids)
    requires forall id :: id in ids ==> 1 <= id < s.q.next && IsVisible(s.q, id, s.now)
    requires forall id :: id in s.q.archive ==> id !in ids
    ensures SystemOk(AfterRead(s, ids, secs))
  {
    hide Partition, BodiesOk, LogOk, CountsOk, TimesOk, Increasing, IsVisible, Hide, Deliveries;
    HideKeepsTables(s, ids, s.now + secs);
    HideKeepsLog(s, ids, secs);
    HideKeepsCounts(s.q, s.log, ids, s.now, secs);
    HideKeepsTimes(s.q, s.sentAt, s.log, ids, s.now, secs);
  }

  lemma ReadKeepsOk(s: System, secs: int, qty: int)
    requires SystemOk(s)
    ensures SystemOk(Step(s, WasRead(secs, qty)))
  {
    NextIsPositive(s);
    PartitionOk(s);
    hide *;
    StepReads(s, secs, qty);
    if qty >= 0 {
      PickedFacts(s, qty);
      AfterReadIsOk(s, Pick(s.q, s.now, qty, s.q.next), secs);
    }
  }

  lemma PartitionOk(s: System)
    requires SystemOk(s)
    ensures Partition(s.q, s.removed)
  {
    hide BodiesOk, LogOk, CountsOk, TimesOk;
  }

  lemma NextIsPositive(s: System)
    requires SystemOk(s)
    ensures s.q.next >= 1
  {
    hide BodiesOk, LogOk, CountsOk, TimesOk;
  }

  lemma RemoveKeepsLog(s: System, e: Event)
    requires SystemOk(s) && (e.Deleted? || e.WasArchived? || e.Purged? || e.Ticked?)
    ensures var t := Step(s, e); LogOk(t) && CountsOk(t.q, t.log) && TimesOk(t.q, t.sentAt, t.log)
  {
    hide Times, LastDelivery, BodiesOk;
    var t := Step(s, e);
    forall i | 0 <= i < |t.log| ensures HiddenUntil(t.q, t.now, t.log[i]) {
      assert HiddenUntil(s.q, s.now, s.log[i]);
    }
  }

  lemma RemoveKeepsTables(s: System, e: Event)
    requires SystemOk(s) && (e.Deleted? || e.WasArchived? || e.Purged? || e.Ticked?)
    ensures var t := Step(s, e); Partition(t.q, t.removed) && BodiesOk(t.q, t.bodies)
  {
    hide LogOk, CountsOk, TimesOk;
  }

  lemma RemoveKeepsOk(s: System, e: Event)
    requires SystemOk(s) && (e.Deleted? || e.WasArchived? || e.Purged? || e.Ticked?)
    ensures SystemOk(Step(s, e))
  {
    RemoveKeepsLog(s, e);
    RemoveKeepsTables(s, e);
    hide Step, Partition, BodiesOk, LogOk, CountsOk, TimesOk;
  }

  lemma StepKeepsOk(s: System, e: Event)
    requires SystemOk(s)
    ensures SystemOk(Step(s, e))
  {
    hide SystemOk, Step;
    match e
    case Sent(body) => SendKeepsOk(s, body);
    case WasRead(secs, qty) => ReadKeepsOk(s, secs, qty);
    case _ => RemoveKeepsOk(s, e);
  }

  ghost function Run(start: int, events: seq<Event>): (s: System)
    ensures SystemOk(s)
  {
    hide SystemOk, Step, Partition;
    if events == [] then
      StartIsOk(start);
      System(EMPTY, start, {}, map[], map[], [])
    else
      var s := Run(start, events[..|events| - 1]);
      StepKeepsOk(s, events[|events| - 1]);
      NextIsPositive(s);
      Step(s, events[|events| - 1])
  }

  lemma StartIsOk(start: int)
    ensures SystemOk(System(EMPTY, start, {}, map[], map[], []))
  {
  }

  // ----- what holds of every run -----

  /** Every issued id is in exactly one of the three places, and no message changes its body or the time it
      was sent. */
  lemma NothingIsLost(start: int, events: seq<Event>, id: int)
    requires 1 <= id < Run(start, events).q.next
    ensures var s := Run(start, events);
      && id in s.bodies
      && (id in s.q.live || id in s.q.archive || id in s.removed)
      && !(id in s.q.live && id in s.q.archive) && !(id in s.q.live && id in s.removed) && !(id in s.q.archive && id in s.removed)
      && id in s.sentAt
      && (id in s.q.live ==> s.q.live[id].body == s.bodies[id] && s.q.live[id].enqueuedAt == s.sentAt[id])
      && (id in s.q.archive ==> s.q.archive[id].body == s.bodies[id] && s.q.archive[id].enqueuedAt == s.sentAt[id])
  {
    hide Run, LogOk, CountsOk;
  }

  /** In every run a message is visible exactly from the later of two moments on: from when it was sent, or,
      once it has been handed out, from when the timeout of its last reader lapses. */
  lemma VisibleExactly(start: int, events: seq<Event>, id: int, t: int)
    ensures var s := Run(start, events);
      IsVisible(s.q, id, t) <==> id in s.q.live && match LastDelivery(s.log, id)
        case None => id in s.sentAt && s.sentAt[id] <= t
        case Some(d) => d.at + d.secs <= t
  {
    hide Run, Partition, BodiesOk, LogOk, CountsOk, LastDelivery;
  }

  /** Every reader's timeout is recorded, and the last one of a message is the one that counts. */
  lemma {:induction false} LastIsLast(log: seq<Delivery>, id: int)
    ensures match LastDelivery(log, id)
      case None => forall i :: 0 <= i < |log| ==> log[i].id != id
      case Some(d) => exists i :: 0 <= i < |log| && log[i] == d && d.id == id && forall j :: i < j < |log| ==> log[j].id != id
  {
    if log != [] {
      var n := |log| - 1;
      LastIsLast(log[..n], id);
      if log[n].id != id && LastDelivery(log, id).Some? {
        var d := LastDelivery(log, id).value;
        var i :| 0 <= i < n && log[..n][i] == d && d.id == id && forall j :: i < j < n ==> log[..n][j].id != id;
        assert log[i] == d && forall j :: i < j < |log| ==> log[j].id != id;
      }
    }
  }

  /** A message handed out with a positive timeout is not handed out again before it lapses. */
  lemma NotDeliveredTwice(start: int, events: seq<Event>, i: nat, j: nat)
    requires var log := Run(start, events).log; i < j < |log| && log[i].id == log[j].id && log[i].secs > 0
    ensures var log := Run(start, events).log; log[j].at >= log[i].at + log[i].secs
  {
    hide Run, Partition, BodiesOk, CountsOk, HiddenUntil;
    var log := Run(start, events).log;
    assert Apart(log[i], log[j]);
  }

  /** `read_ct` is the number of times the message was handed out, in the table and in the archive. */
  lemma CountersCount(start: int, events: seq<Event>, id: int)
    ensures var s := Run(start, events);
      && (id in s.q.live ==> s.q.live[id].readCt == Times(s.log, id))
      && (id in s.q.archive ==> s.q.archive[id].readCt == Times(s.log, id))
  {
    hide Run, Partition, BodiesOk, LogOk;
  }

  /** Archiving never runs into the archive's primary key: it succeeds exactly for ids in the table. */
  lemma ArchiveNeverConflicts(start: int, events: seq<Event>, id: int)
    ensures var q := Run(start, events).q; Archive(q, id).1 == Ok(id in q.live)
  {
    hide Run, BodiesOk, LogOk, CountsOk;
  }

  /** A message nobody acknowledged becomes readable again: once its timeout has passed, a read returns it
      if and only if fewer messages than it asks for are visible before it. */
  lemma BecomesReadable(start: int, events: seq<Event>, id: int, seconds: nat, secs: int, qty: nat)
    requires var s := Run(start, events); id in s.q.live && s.q.live[id].vt <= s.now + seconds
    ensures var s := Step(Run(start, events), Ticked(seconds));
      && s.q.next >= 1 && Read(s.q, secs, qty, s.now).1.Ok?
      && (id in Read(s.q, secs, qty, s.now).1.value <==> |VisibleBelow(s.q, s.now, id)| < qty)
  {
    hide Run, BodiesOk, LogOk, CountsOk, Pick, VisibleBelow;
    var s := Step(Run(start, events), Ticked(seconds));
    PickedExactly(s.q, s.now, qty, s.q.next, id);
  }

  /** The queue after `n` reads of one message each. */
  function ReadOnes(q: Queue, secs: int, now: int, n: nat): (r: Queue)
    requires q.next >= 1
    ensures r.next == q.next
    decreases n
  {
    if n == 0 then q else ReadOnes(Read(q, secs, 1, now).0, secs, now, n - 1)
  }

  /** Even reads of a single message get to it: the one after as many reads as there are smaller visible
      messages returns it, if those reads hide what they take. */
  lemma {:induction false} SingleReadsReach(q: Queue, secs: int, now: int, id: int)
    requires q.next >= 1 && 0 <= id < q.next && IsVisible(q, id, now) && secs > 0
    ensures Read(ReadOnes(q, secs, now, |VisibleBelow(q, now, id)|), secs, 1, now).1 == Ok([id])
    decreases |VisibleBelow(q, now, id)|
  {
    hide Pick, VisibleBelow, IsVisible;
    var n := |VisibleBelow(q, now, id)|;
    PickedExactly(q, now, 1, q.next, id);
    PickIsSmallest(q, now, 1, q.next);
    if n > 0 {
      OneIsHidden(q, secs, now, id);
      SingleReadsReach(Read(q, secs, 1, now).0, secs, now, id);
    } else {
      assert Pick(q, now, 1, q.next) == [id];
    }
  }

  /** While smaller messages are visible, a read of one message hides one of them. */
  lemma OneIsHidden(q: Queue, secs: int, now: int, id: int)
    requires q.next >= 1 && 0 <= id < q.next && IsVisible(q, id, now) && secs > 0 && |VisibleBelow(q, now, id)| > 0
    ensures var r := Read(q, secs, 1, now).0;
      IsVisible(r, id, now) && |VisibleBelow(r, now, id)| == |VisibleBelow(q, now, id)| - 1
  {
    hide Pick;
    var below := VisibleBelow(q, now, id);
    var ids := Pick(q, now, 1, q.next);
    PickIsSmallest(q, now, 1, q.next);
    PickedExactly(q, now, 1, q.next, id);
    var x :| x in below;
    assert IsVisible(q, x, now) && x < q.next;
    var y := ids[0];
    assert y in ids && y <= x;
    assert VisibleBelow(Hide(q, ids, now + secs), now, id) == below - {y};
  }

  // ----- the tables -----

  /** What a read returns of a message. */
  datatype Row = Row(id: int, readCt: nat, enqueuedAt: int, body: string)

  function RowOf(q: Queue, id: int): Row
    requires id in q.live
  {
    var m := q.live[id];
    Row(id, m.readCt, m.enqueuedAt, m.body)
  }

  class QueueTables {
    var live: map<int, Message>
    var archive: map<int, Archived>
    var next: int

    ghost function State(): Queue
      reads this
    {
      Queue(live, archive, next)
    }

    constructor ()
      ensures State() == EMPTY
    {
      live, archive, next := map[], map[], 1;
    }

    method SendMessage(body: string, now: int) returns (id: int)
      modifies this
      ensures State() == Send(old(State()), body, now) && id == old(next)
    {
      id := next;
      live := live[id := Message(0, now, now, body)];
      next := next + 1;
    }

    /** Walks the ids in order until it has enough visible ones. */
    method PickVisible(qty: nat, now: int) returns (ids: seq<int>)
      requires next >= 0
      ensures ids == Pick(State(), now, qty, next)
    {
      hide Pick;
      PickNone(State(), now, qty);
      ids := [];
      var id: int := 0;
      while id < next && |ids| < qty
        invariant 0 <= id <= next && |ids| <= qty && ids == Pick(State(), now, qty, id)
      {
        PickOne(State(), now, qty, id);
        if id in live && live[id].vt <= now {
          ids := ids + [id];
        }
        id := id + 1;
      }
      PickFull(State(), now, qty, id, next);
    }

    /** Reads up to `qty` messages and hides them for `secs` seconds. */
    method ReadMessages(secs: int, qty: int, now: int) returns (r: Result<seq<Row>>)
      requires next >= 1
      modifies this
      ensures State() == Read(old(State()), secs, qty, now).0
      ensures r.Ok? <==> qty >= 0
      ensures r.Ok? ==> var ids := Read(old(State()), secs, qty, now).1.value;
        && |r.value| == |ids|
        && forall i :: 0 <= i < |ids| ==> ids[i] in live && r.value[i] == RowOf(State(), ids[i])
      ensures r.Ok? ==> forall i, j :: 0 <= i < j < |r.value| ==> r.value[i].id < r.value[j].id
      ensures r.Ok? ==> forall i :: 0 <= i < |r.value| ==> var row := r.value[i];
        && row.id in old(live) && row.readCt == old(live)[row.id].readCt + 1
        && row.enqueuedAt == old(live)[row.id].enqueuedAt && row.body == old(live)[row.id].body
    {
      ghost var before := State();
      if qty < 0 {
        return Thrown;
      }
      var ids := PickVisible(qty, now);
      PickedAreLive(State(), now, qty, next);
      hide Pick, Updated;
      live := Updated(live, ids, now + secs);
      assert forall i :: 0 <= i < |ids| ==> ids[i] in live;
      var rows: seq<Row> := [];
      var i := 0;
      while i < |ids|
        invariant 0 <= i <= |ids| && |rows| == i
        invariant forall k :: 0 <= k < i ==> ids[k] in live && rows[k] == RowOf(State(), ids[k])
      {
        var m := live[ids[i]];
        rows := rows + [Row(ids[i], m.readCt, m.enqueuedAt, m.body)];
        i := i + 1;
      }
      RowsRead(before, ids, now + secs, qty, now, rows);
      return Ok(rows);
    }

    method DeleteMessage(id: int) returns (deleted: bool)
      modifies this
      ensures State() == Delete(old(State()), id) && deleted == (id in old(live))
    {
      deleted := id in live;
      live := live - {id};
    }

    /** A violated primary key throws and changes nothing. */
    method ArchiveMessage(id: int) returns (r: Result<bool>)
      modifies this
      ensures (State(), r) == Archive(old(State()), id)
    {
      if id !in live {
        return Ok(false);
      }
      if id in archive {
        return Thrown;
      }
      var m := live[id];
      live := live - {id};
      archive := archive[id := Archived(m.readCt, m.enqueuedAt, m.body)];
      return Ok(true);
    }

    method PurgeQueue()
      modifies this
      ensures State() == Purge(old(State()))
    {
      live := map[];
    }
  }

  lemma RowsRead(q: Queue, ids: seq<int>, until: int, qty: nat, now: int, rows: seq<Row>)
    requires q.next >= 0 && ids == Pick(q, now, qty, q.next) && |rows| == |ids|
    requires forall i :: 0 <= i < |ids| ==> ids[i] in q.live && rows[i] == RowOf(Hide(q, ids, until), ids[i])
    ensures forall i, j :: 0 <= i < j < |rows| ==> rows[i].id < rows[j].id
    ensures forall i :: 0 <= i < |rows| ==> var row := rows[i];
      && row.id in q.live && row.readCt == q.live[row.id].readCt + 1
      && row.enqueuedAt == q.live[row.id].enqueuedAt && row.body == q.live[row.id].body
  {
    hide Pick;
    PickIsSmallest(q, now, qty, q.next);
    forall i | 0 <= i < |rows| ensures rows[i].id == ids[i] && rows[i].readCt == q.live[ids[i]].readCt + 1 {
      assert ids[i] in ids;
    }
  }

  lemma PickedAreLive(q: Queue, now: int, qty: nat, upto: nat)
    ensures var ids := Pick(q, now, qty, upto); forall i :: 0 <= i < |ids| ==> ids[i] in q.live
  {
    PickIsSmallest(q, now, qty, upto);
    var ids := Pick(q, now, qty, upto);
    hide Pick;
    forall i | 0 <= i < |ids| ensures ids[i] in q.live {
      assert ids[i] in ids;
      assert IsVisible(q, ids[i], now);
    }
  }

  lemma PickNone(q: Queue, now: int, qty: nat)
    ensures Pick(q, now, qty, 0) == []
  {
  }

  lemma PickOne(q: Queue, now: int, qty: nat, id: nat)
    ensures var ids := Pick(q, now, qty, id);
      Pick(q, now, qty, id + 1) == if IsVisible(q, id, now) && |ids| < qty then ids + [id as int] else ids
  {
  }

  /** A full pick does not change any more. */
  lemma {:induction false} PickFull(q: Queue, now: int, qty: nat, from: nat, upto: nat)
    requires from <= upto && (from == upto || |Pick(q, now, qty, from)| == qty)
    ensures Pick(q, now, qty, upto) == Pick(q, now, qty, from)
  {
    if from < upto { PickFull(q, now, qty, from, upto - 1); }
  }
}
