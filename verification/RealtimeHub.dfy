/** A project's realtime hub: joins, leaves, reapers and the three phases of broadcasts, interleaved. */
module RealtimeHub {
  import opened Exceptions
  import opened Broadcast

  /** `emptySince` is None for the zero time. */
  datatype Hub = Hub(clients: map<Conn, Sub>, emptySince: Option<int>, closed: bool)

  function NewHub(now: int): Hub {
    Hub(map[], Some(now), false)
  }

  /** Registers a client unless the hub was torn down. */
  function Join(h: Hub, conn: Conn, sub: Sub): Hub {
    if h.closed then h else h.(clients := h.clients[conn := sub], emptySince := None)
  }

  function Leave(h: Hub, conn: Conn, now: int): Hub {
    var clients := h.clients - {conn};
    h.(clients := clients, emptySince := if clients == map[] then Some(now) else h.emptySince)
  }

  /** The critical section both reapers end in. */
  function CloseIfEmpty(h: Hub): Hub {
    if h.clients == map[] then h.(closed := true) else h
  }

  /** What the idle reaper asks before it tries to close. */
  predicate EmptyLong(h: Hub, idle: int, now: int) {
    h.clients == map[] && h.emptySince.Some? && now - h.emptySince.value > idle
  }

  /** Phase three: the connections written to, in order, and the hub afterwards. A write to a connection
      in `failing` fails, and unregisters it. */
  function WriteOut(h: Hub, targets: seq<Target>, failing: set<Conn>, now: int): (Hub, seq<Conn>) {
    if targets == [] then (h, [])
    else
      var (g, written) := WriteOut(h, targets[..|targets| - 1], failing, now);
      var c := targets[|targets| - 1].conn;
      if c !in g.clients then (g, written)
      else (if c in failing then Leave(g, c, now) else g, written + [c])
  }

  /** `emptySince` is zero exactly when there are clients, and a closed hub has none. */
  ghost predicate HubOk(h: Hub) {
    && (h.emptySince.None? <==> h.clients != map[])
    && (h.closed ==> h.clients == map[])
  }

  ghost predicate SubsOk(clients: map<Conn, Sub>, roleOf: string -> string) {
    forall c :: c in clients ==> clients[c].role == roleOf(clients[c].claims)
  }

  lemma LeaveKeepsOk(h: Hub, conn: Conn, now: int)
    requires HubOk(h)
    ensures HubOk(Leave(h, conn, now))
  {
  }

  /** What phase three writes: the targets that are still registered, each once, in order. */
  lemma {:induction false} WrittenAreRegistered(h: Hub, targets: seq<Target>, failing: set<Conn>, now: int)
    requires Distinct(targets)
    ensures var (g, written) := WriteOut(h, targets, failing, now);
      && written == Conns(Kept(targets, (t: Target) => t.conn in h.clients))
      && (forall c :: c in g.clients <==> c in h.clients && !(c in failing && exists i :: 0 <= i < |targets| && targets[i].conn == c))
      && (forall c :: c in g.clients ==> g.clients[c] == h.clients[c])
  {
    if targets != [] {
      var n := |targets| - 1;
      var keep := (t: Target) => t.conn in h.clients;
      WrittenAreRegistered(h, targets[..n], failing, now);
      ConnsSnoc(Kept(targets[..n], keep), targets[n]);
    }
  }

  function Conns(targets: seq<Target>): (cs: seq<Conn>)
    ensures |cs| == |targets|
  {
    seq(|targets|, i requires 0 <= i < |targets| => targets[i].conn)
  }

  lemma ConnsSnoc(targets: seq<Target>, t: Target)
    ensures Conns(targets + [t]) == Conns(targets) + [t.conn]
  {
  }

  lemma {:induction false} WriteOutKeepsOk(h: Hub, targets: seq<Target>, failing: set<Conn>, now: int)
    requires HubOk(h)
    ensures HubOk(WriteOut(h, targets, failing, now).0) && WriteOut(h, targets, failing, now).0.closed == h.closed
    ensures var g := WriteOut(h, targets, failing, now).0;
      forall c :: c in g.clients ==> c in h.clients && g.clients[c] == h.clients[c]
  {
    if targets != [] { WriteOutKeepsOk(h, targets[..|targets| - 1], failing, now); }
  }

  // ----- interleaved runs -----

  /** A broadcast between its phases. `order` is the order in which phase one visited the clients and
      `snapshot` who they were then. */
  datatype Inflight = Inflight(ev: Ev, rlsOn: bool, policy: (string, string) -> bool, order: seq<Conn>,
                               snapshot: map<Conn, Sub>, targets: seq<Target>, checked: bool) {
    /** Only changes are subject to row visibility, and only where it is switched on. */
    predicate Gate() {
      IsChange(ev) && rlsOn
    }
  }

  datatype Event =
    | Joined(conn: Conn, sub: Sub)
    | Left(conn: Conn, now: int)
    | Reaped
    | Matched(id: nat, ev: Ev, rlsOn: bool, policy: (string, string) -> bool, order: seq<Conn>)
    | Checked(id: nat)
    | Written(id: nat, failing: set<Conn>, now: int)

  datatype System = System(hub: Hub, inflight: map<nat, Inflight>)

  /** An order in which `range` may visit a map: every key once. */
  predicate Visits(order: seq<Conn>, clients: map<Conn, Sub>) {
    && (forall c :: c in order ==> c in clients)
    && (forall c :: c in clients ==> c in order)
    && (forall i, j :: 0 <= i < j < |order| ==> order[i] != order[j])
  }

  function AllTargets(order: seq<Conn>, clients: map<Conn, Sub>): (ts: seq<Target>)
    requires forall c :: c in order ==> c in clients
    ensures |ts| == |order|
  {
    seq(|order|, i requires 0 <= i < |order| => Target(order[i], clients[order[i]]))
  }

  /** Phase one. */
  function MatchAll(ev: Ev, order: seq<Conn>, clients: map<Conn, Sub>): seq<Target>
    requires forall c :: c in order ==> c in clients
  {
    Kept(AllTargets(order, clients), (t: Target) => Matches(t.sub, ev))
  }

  /** Phase two. */
  function CheckAll(b: Inflight): seq<Target> {
    if b.Gate() then Kept(b.targets, (t: Target) => Visible(b.policy, b.ev, t)) else b.targets
  }

  /** The role is always taken from the claims that are stored with it. */
  function WithRole(sub: Sub, roleOf: string -> string): Sub {
    sub.(role := roleOf(sub.claims))
  }

  function Step(s: System, e: Event, roleOf: string -> string): System {
    match e
    case Joined(conn, sub) => s.(hub := Join(s.hub, conn, WithRole(sub, roleOf)))
    case Left(conn, now) => s.(hub := Leave(s.hub, conn, now))
    case Reaped => s.(hub := CloseIfEmpty(s.hub))
    case Matched(id, ev, rlsOn, policy, order) =>
      if !Visits(order, s.hub.clients) then s
      else
        var b := Inflight(ev, rlsOn, policy, order, s.hub.clients, MatchAll(ev, order, s.hub.clients), false);
        s.(inflight := s.inflight[id := b])
    case Checked(id) =>
      if id in s.inflight && !s.inflight[id].checked then
        var b := s.inflight[id];
        s.(inflight := s.inflight[id := b.(targets := CheckAll(b), checked := true)])
      else s
    case Written(id, failing, now) =>
      if id in s.inflight && s.inflight[id].checked then
        System(WriteOut(s.hub, s.inflight[id].targets, failing, now).0, s.inflight - {id})
      else s
  }

  /** A broadcast that passed its check holds exactly the clients of its snapshot that match and may see
      the row. */
  ghost predicate InflightOk(b: Inflight, roleOf: string -> string) {
    && Visits(b.order, b.snapshot) && SubsOk(b.snapshot, roleOf)
    && b.targets == Kept(AllTargets(b.order, b.snapshot),
         (t: Target) => Matches(t.sub, b.ev) && (b.checked && b.Gate() ==> Visible(b.policy, b.ev, t)))
  }

  ghost predicate SystemOk(s: System, roleOf: string -> string) {
    HubOk(s.hub) && SubsOk(s.hub.clients, roleOf) && forall id :: id in s.inflight ==> InflightOk(s.inflight[id], roleOf)
  }

  lemma MatchedIsOk(b: Inflight, roleOf: string -> string)
    requires Visits(b.order, b.snapshot) && SubsOk(b.snapshot, roleOf)
    requires !b.checked && b.targets == MatchAll(b.ev, b.order, b.snapshot)
    ensures InflightOk(b, roleOf)
  {
    KeptSame(AllTargets(b.order, b.snapshot), (t: Target) => Matches(t.sub, b.ev),
      (t: Target) => Matches(t.sub, b.ev) && (b.checked && b.Gate() ==> Visible(b.policy, b.ev, t)));
  }

  lemma CheckedIsOk(b: Inflight, roleOf: string -> string)
    requires InflightOk(b, roleOf) && !b.checked
    ensures InflightOk(b.(targets := CheckAll(b), checked := true), roleOf)
  {
    var all := AllTargets(b.order, b.snapshot);
    var matching := (t: Target) => Matches(t.sub, b.ev) && (b.checked && b.Gate() ==> Visible(b.policy, b.ev, t));
    var both := (t: Target) => Matches(t.sub, b.ev) && (b.Gate() ==> Visible(b.policy, b.ev, t));
    hide Matches, Visible, AllTargets, Visits;
    var c := b.(targets := CheckAll(b), checked := true);
    if b.Gate() {
      KeptTwice(all, matching, (t: Target) => Visible(b.policy, b.ev, t), both);
    } else {
      KeptSame(all, matching, both);
    }
    KeptSame(all, both, (t: Target) => Matches(t.sub, c.ev) && (c.checked && c.Gate() ==> Visible(c.policy, c.ev, t)));
  }

  lemma JoinKeepsOk(h: Hub, conn: Conn, sub: Sub, roleOf: string -> string)
    requires HubOk(h) && SubsOk(h.clients, roleOf)
    ensures var g := Join(h, conn, WithRole(sub, roleOf)); HubOk(g) && SubsOk(g.clients, roleOf)
  {
    assert conn in h.clients[conn := WithRole(sub, roleOf)];
  }

  lemma StepKeepsOk(s: System, e: Event, roleOf: string -> string)
    requires SystemOk(s, roleOf)
    ensures SystemOk(Step(s, e, roleOf), roleOf) && (s.hub.closed ==> Step(s, e, roleOf).hub.closed)
  {
    hide InflightOk, WriteOut, MatchAll, CheckAll, Visits, Matches;
    match e
    case Joined(conn, sub) =>
      JoinKeepsOk(s.hub, conn, sub, roleOf);
    case Left(conn, now) =>
      LeaveKeepsOk(s.hub, conn, now);
    case Reaped =>
    case Matched(id, ev, rlsOn, policy, order) =>
      if Visits(order, s.hub.clients) {
        VisitsKnown(order, s.hub.clients);
        MatchedIsOk(Step(s, e, roleOf).inflight[id], roleOf);
      }
    case Checked(id) =>
      if id in s.inflight && !s.inflight[id].checked {
        CheckedIsOk(s.inflight[id], roleOf);
      }
    case Written(id, failing, now) =>
      if id in s.inflight && s.inflight[id].checked {
        WriteOutKeepsOk(s.hub, s.inflight[id].targets, failing, now);
      }
  }

  lemma VisitsKnown(order: seq<Conn>, clients: map<Conn, Sub>)
    requires Visits(order, clients)
    ensures forall c :: c in order ==> c in clients
  {
  }

  ghost function Run(now: int, events: seq<Event>, roleOf: string -> string): (s: System)
    ensures SystemOk(s, roleOf)
  {
    hide SystemOk, Step;
    if events == [] then
      NewIsOk(now, roleOf);
      System(NewHub(now), map[])
    else
      var s := Run(now, events[..|events| - 1], roleOf);
      StepKeepsOk(s, events[|events| - 1], roleOf);
      Step(s, events[|events| - 1], roleOf)
  }

  lemma NewIsOk(now: int, roleOf: string -> string)
    ensures SystemOk(System(NewHub(now), map[]), roleOf)
  {
  }

  /** In every interleaving `emptySince` is the zero time exactly while the hub has clients. */
  lemma EmptySinceIsAccurate(now: int, events: seq<Event>, roleOf: string -> string)
    ensures var h := Run(now, events, roleOf).hub; h.emptySince.None? <==> h.clients != map[]
  {
    hide Run;
  }

  /** What one step does to the hub. A join registers the client under the role its claims name, if the hub
      is not closed; a leave unregisters it; a reap closes a hub that has no clients, and nothing else does;
      matching and checking leave the hub alone; and writing unregisters exactly the targets that failed. */
  lemma StepOnHub(s: System, e: Event, roleOf: string -> string)
    requires SystemOk(s, roleOf)
    ensures var h, g := s.hub, Step(s, e, roleOf).hub;
      match e
      case Joined(conn, sub) =>
        && g.closed == h.closed
        && (forall c :: c in g.clients <==> c in h.clients || (c == conn && !h.closed))
        && (forall c :: c in g.clients ==>
              g.clients[c] == if c == conn then sub.(role := roleOf(sub.claims)) else h.clients[c])
      case Left(conn, now) =>
        && g.closed == h.closed
        && (forall c :: c in g.clients <==> c in h.clients && c != conn)
        && (forall c :: c in g.clients ==> g.clients[c] == h.clients[c])
        && (g.clients == map[] ==> g.emptySince == Some(now))
      case Reaped =>
        g.clients == h.clients && g.emptySince == h.emptySince && (g.closed <==> h.closed || h.clients == map[])
      case Matched(_, _, _, _, _) => g == h
      case Checked(_) => g == h
      case Written(id, failing, now) =>
        && g.closed == h.closed
        && (forall c :: c in g.clients ==> c in h.clients)
        && (forall c :: c in h.clients && c !in g.clients <==>
              c in h.clients && id in s.inflight && s.inflight[id].checked && c in failing && c in Conns(s.inflight[id].targets))
        && (forall c :: c in g.clients ==> g.clients[c] == h.clients[c])
        && (g != h ==> g.clients == map[] ==> g.emptySince == Some(now))
  {
    match e
    case Joined(conn, sub) =>
    case Left(conn, now) =>
    case Reaped =>
    case Matched(_, _, _, _, _) =>
    case Checked(_) =>
    case Written(id, failing, now) =>
      if id in s.inflight && s.inflight[id].checked {
        var b := s.inflight[id];
        TargetsOfInflight(b, roleOf);
        WrittenAreRegistered(s.hub, b.targets, failing, now);
        WriteOutKeepsOk(s.hub, b.targets, failing, now);
        WriteOutStamps(s.hub, b.targets, failing, now);
        ConnsMembers(b.targets);
      }
  }

  lemma TargetsOfInflight(b: Inflight, roleOf: string -> string)
    requires InflightOk(b, roleOf)
    ensures Distinct(b.targets)
  {
    TargetsDistinct(b.order, b.snapshot);
    KeptDistinct(AllTargets(b.order, b.snapshot),
      (t: Target) => Matches(t.sub, b.ev) && (b.checked && b.Gate() ==> Visible(b.policy, b.ev, t)));
  }

  lemma ConnsMembers(ts: seq<Target>)
    ensures forall c :: c in Conns(ts) <==> exists i :: 0 <= i < |ts| && ts[i].conn == c
  {
    forall c | exists i :: 0 <= i < |ts| && ts[i].conn == c ensures c in Conns(ts) {
      var i :| 0 <= i < |ts| && ts[i].conn == c;
      assert Conns(ts)[i] == c;
    }
  }

  lemma {:induction false} WriteOutStamps(h: Hub, targets: seq<Target>, failing: set<Conn>, now: int)
    ensures var g := WriteOut(h, targets, failing, now).0;
      g == h || g.clients != map[] || g.emptySince == Some(now)
    ensures var g := WriteOut(h, targets, failing, now).0; g.clients != map[] ==> g.emptySince == h.emptySince
  {
    if targets != [] { WriteOutStamps(h, targets[..|targets| - 1], failing, now); }
  }

  /** A broadcast starts from the clients of that moment, and phase two touches nothing but its targets. */
  lemma StepOnBroadcasts(s: System, e: Event, roleOf: string -> string)
    ensures var t := Step(s, e, roleOf);
      match e
      case Matched(id, ev, rlsOn, policy, order) =>
        if Visits(order, s.hub.clients) then
          && (forall k :: k in t.inflight <==> k in s.inflight || k == id)
          && (forall k :: k in s.inflight && k != id ==> t.inflight[k] == s.inflight[k])
          && var b := t.inflight[id];
             b.ev == ev && b.rlsOn == rlsOn && b.policy == policy && b.order == order && b.snapshot == s.hub.clients && !b.checked
        else t == s
      case Checked(id) =>
        && (forall k :: k in t.inflight <==> k in s.inflight)
        && (forall k :: k in s.inflight ==>
              var b, c := s.inflight[k], t.inflight[k];
              && c.ev == b.ev && c.rlsOn == b.rlsOn && c.policy == b.policy && c.order == b.order && c.snapshot == b.snapshot
              && (c.checked <==> b.checked || k == id))
      case Written(id, _, _) =>
        && (forall k :: k in t.inflight <==> k in s.inflight && !(k == id && s.inflight[k].checked))
        && (forall k :: k in t.inflight ==> t.inflight[k] == s.inflight[k])
      case _ => t.inflight == s.inflight
  {
    hide Visits, MatchAll, CheckAll, WriteOut;
  }

  /** The time an event carries. */
  function TimeOf(e: Event): Option<int> {
    match e
    case Left(_, now) => Some(now)
    case Written(_, _, now) => Some(now)
    case _ => None
  }

  /** The time of the `k`-th event, or of the creation of the hub. */
  function StampAt(start: int, events: seq<Event>, k: nat): Option<int>
    requires k <= |events|
  {
    if k == 0 then Some(start) else TimeOf(events[k - 1])
  }

  /** In every interleaving a hub whose `emptySince` is `t` has been empty ever since: since it was created
      at `t`, or since an event at `t` after which it never had a client. */
  lemma {:induction false} EmptyEverSince(start: int, events: seq<Event>, roleOf: string -> string, t: int)
    requires Run(start, events, roleOf).hub.emptySince == Some(t)
    ensures exists k :: 0 <= k <= |events| && StampAt(start, events, k) == Some(t) && EmptyFrom(start, events, roleOf, k)
    decreases |events|
  {
    var h := Run(start, events, roleOf).hub;
    if events == [] {
      assert EmptyFrom(start, events, roleOf, 0);
    } else {
      var n := |events| - 1;
      var s := Run(start, events[..n], roleOf);
      StepOnHub(s, events[n], roleOf);
      StepStamps(s, events[n], roleOf);
      if h.emptySince == s.hub.emptySince {
        EmptyEverSince(start, events[..n], roleOf, t);
        var k :| 0 <= k <= n && StampAt(start, events[..n], k) == Some(t) && EmptyFrom(start, events[..n], roleOf, k);
        EmptyOneMore(start, events, roleOf, k);
      } else {
        assert events[..n + 1] == events;
        assert EmptyFrom(start, events, roleOf, n + 1);
      }
    }
  }

  lemma EmptyOneMore(start: int, events: seq<Event>, roleOf: string -> string, k: nat)
    requires events != [] && EmptyFrom(start, events[..|events| - 1], roleOf, k)
    requires Run(start, events, roleOf).hub.clients == map[]
    ensures EmptyFrom(start, events, roleOf, k)
  {
    hide Run;
    forall j | k <= j <= |events| ensures Run(start, events[..j], roleOf).hub.clients == map[] {
      if j == |events| {
        assert events[..j] == events;
      } else {
        assert events[..|events| - 1][..j] == events[..j];
      }
    }
  }

  /** `emptySince` only ever becomes the time of the event, and only when the hub is empty after it. */
  lemma StepStamps(s: System, e: Event, roleOf: string -> string)
    requires SystemOk(s, roleOf)
    ensures var g := Step(s, e, roleOf).hub;
      g.emptySince == s.hub.emptySince || g.emptySince.None? || (g.emptySince == TimeOf(e) && g.clients == map[])
  {
    if e.Written? && e.id in s.inflight {
      WriteOutStamps(s.hub, s.inflight[e.id].targets, e.failing, e.now);
      WriteOutKeepsOk(s.hub, s.inflight[e.id].targets, e.failing, e.now);
    }
  }

  /** After each of the events from the `k`-th on, the hub is empty. */
  ghost predicate EmptyFrom(start: int, events: seq<Event>, roleOf: string -> string, k: nat) {
    forall j {:trigger events[..j]} :: k <= j <= |events| ==> Run(start, events[..j], roleOf).hub.clients == map[]
  }

  /** A hub that counts as idle has been without clients for longer than allowed. */
  lemma IdleMeansEmpty(start: int, events: seq<Event>, roleOf: string -> string, idle: int, now: int)
    requires EmptyLong(Run(start, events, roleOf).hub, idle, now)
    ensures exists k ::
      && 0 <= k <= |events| && StampAt(start, events, k).Some? && now - StampAt(start, events, k).value > idle
      && EmptyFrom(start, events, roleOf, k)
  {
    hide Run, EmptyFrom, StampAt;
    EmptyEverSince(start, events, roleOf, Run(start, events, roleOf).hub.emptySince.value);
  }

  /** A hub marked closed stays closed, has no clients and never gains one, whatever still happens. */
  lemma {:induction false} ClosedForever(now: int, before: seq<Event>, after: seq<Event>, roleOf: string -> string)
    requires Run(now, before, roleOf).hub.closed
    ensures var h := Run(now, before + after, roleOf).hub; h.closed && h.clients == map[]
    decreases |after|
  {
    hide Step;
    if after == [] {
      assert before + after == before;
    } else {
      var n := |after| - 1;
      ClosedForever(now, before, after[..n], roleOf);
      assert (before + after)[..|before + after| - 1] == before + after[..n];
      StepKeepsOk(Run(now, before + after[..n], roleOf), after[n], roleOf);
    }
  }

  /** In every interleaving, the last phase of a broadcast writes exactly to the clients that matched in
      phase one, may see the row, and are registered now, in the order phase one visited them. */
  lemma WrittenExactly(now: int, events: seq<Event>, roleOf: string -> string, id: nat, failing: set<Conn>, at: int)
    requires var s := Run(now, events, roleOf); id in s.inflight && s.inflight[id].checked
    ensures var s := Run(now, events, roleOf); var b := s.inflight[id];
      && Visits(b.order, b.snapshot)
      && WriteOut(s.hub, b.targets, failing, at).1
         == Conns(Kept(AllTargets(b.order, b.snapshot),
              (t: Target) => Matches(t.sub, b.ev) && (b.Gate() ==> Visible(b.policy, b.ev, t)) && t.conn in s.hub.clients))
  {
    hide Run, WriteOut, Matches, Visible, HubOk, Conns;
    var s := Run(now, events, roleOf);
    var b := s.inflight[id];
    var all := AllTargets(b.order, b.snapshot);
    var first := (t: Target) => Matches(t.sub, b.ev) && (b.checked && b.Gate() ==> Visible(b.policy, b.ev, t));
    var third := (t: Target) => t.conn in s.hub.clients;
    assert InflightOk(b, roleOf);
    TargetsDistinct(b.order, b.snapshot);
    hide Visits, AllTargets;
    KeptDistinct(all, first);
    WrittenAreRegistered(s.hub, b.targets, failing, at);
    KeptTwice(all, first, third,
      (t: Target) => Matches(t.sub, b.ev) && (b.Gate() ==> Visible(b.policy, b.ev, t)) && t.conn in s.hub.clients);
  }

  /** The same in the fields of subscription and event: in every interleaving a connection is written to if
      and only if it is registered now and was when phase one looked, and its subscription of then asks for
      the event and, under the gate, may see the row. */
  lemma WrittenByFields(now: int, events: seq<Event>, roleOf: string -> string, id: nat, failing: set<Conn>, at: int, c: Conn)
    requires var s := Run(now, events, roleOf); id in s.inflight && s.inflight[id].checked
    ensures var s := Run(now, events, roleOf); var b := s.inflight[id]; var ev := b.ev;
      c in WriteOut(s.hub, b.targets, failing, at).1 <==>
      c in s.hub.clients && c in b.snapshot && var sub := b.snapshot[c];
      (if ev.kind == "broadcast" || ev.kind == "presence" then sub.channel != "" && sub.channel == ev.channel
        else
          && !(sub.channel != "" && sub.table == "")
          && (sub.table != "" ==> sub.table == ev.table)
          && (sub.event != "" ==> sub.event == ev.kind)
          && (sub.column != "" ==> ev.record.Some? && sub.column in ev.record.value && ev.record.value[sub.column] == sub.value)
          && (b.rlsOn && sub.role != "service_role" && ev.kind != "DELETE" && ev.record.Some? ==>
               sub.role in ["anon", "authenticated"] && b.policy(sub.claims, sub.role)))
  {
    WrittenExactly(now, events, roleOf, id, failing, at);
    var s := Run(now, events, roleOf);
    var b := s.inflight[id];
    hide *;
    VisitsKnown(b.order, b.snapshot);
    KeptConns(b.order, b.snapshot,
      (t: Target) => Matches(t.sub, b.ev) && (b.Gate() ==> Visible(b.policy, b.ev, t)) && t.conn in s.hub.clients);
    if c in b.snapshot { InFields(Target(c, b.snapshot[c]), b.ev, b.rlsOn, b.policy); }
    GateMeans(b);
  }

  lemma GateMeans(b: Inflight)
    ensures b.Gate() <==> IsChange(b.ev) && b.rlsOn
  {
  }

  lemma InFields(t: Target, ev: Ev, rlsOn: bool, policy: (string, string) -> bool)
    ensures var sub := t.sub; Matches(t.sub, ev) && (IsChange(ev) && rlsOn ==> Visible(policy, ev, t)) <==>
      (if ev.kind == "broadcast" || ev.kind == "presence" then sub.channel != "" && sub.channel == ev.channel
        else
          && !(sub.channel != "" && sub.table == "")
          && (sub.table != "" ==> sub.table == ev.table)
          && (sub.event != "" ==> sub.event == ev.kind)
          && (sub.column != "" ==> ev.record.Some? && sub.column in ev.record.value && ev.record.value[sub.column] == sub.value)
          && (rlsOn && sub.role != "service_role" && ev.kind != "DELETE" && ev.record.Some? ==>
               sub.role in ["anon", "authenticated"] && policy(sub.claims, sub.role)))
  {
  }

  /** In every run the targets of a broadcast present the roles their claims name, which is what makes the
      memo of phase two sound. */
  lemma TargetsHaveTheirRoles(now: int, events: seq<Event>, roleOf: string -> string, id: nat)
    requires id in Run(now, events, roleOf).inflight
    ensures RolesFromClaims(Run(now, events, roleOf).inflight[id].targets, roleOf)
  {
    hide Run, Matches, Visible;
    var b := Run(now, events, roleOf).inflight[id];
    assert InflightOk(b, roleOf);
    KeptMembers(AllTargets(b.order, b.snapshot),
      (t: Target) => Matches(t.sub, b.ev) && (b.checked && b.Gate() ==> Visible(b.policy, b.ev, t)));
    AllHaveTheirRoles(b.order, b.snapshot, roleOf);
  }

  lemma AllHaveTheirRoles(order: seq<Conn>, clients: map<Conn, Sub>, roleOf: string -> string)
    requires SubsOk(clients, roleOf) && forall c :: c in order ==> c in clients
    ensures forall t :: t in AllTargets(order, clients) ==> t.sub.role == roleOf(t.sub.claims)
  {
  }

  lemma TargetsDistinct(order: seq<Conn>, clients: map<Conn, Sub>)
    requires Visits(order, clients)
    ensures Distinct(AllTargets(order, clients))
  {
  }

  // ----- the shared object -----

  class RtHub {
    var clients: map<Conn, Sub>
    var emptySince: Option<int>
    var closed: bool

    ghost function State(): Hub
      reads this
    {
      Hub(clients, emptySince, closed)
    }

    constructor (now: int)
      ensures State() == NewHub(now)
    {
      clients, emptySince, closed := map[], Some(now), false;
    }

    /** A closed hub refuses; the caller then fetches a fresh one. The role is read from the claims. */
    method JoinHub(conn: Conn, sub: Sub, roleOf: string -> string) returns (ok: bool)
      modifies this
      ensures ok == !old(closed) && State() == Join(old(State()), conn, WithRole(sub, roleOf))
      ensures old(SubsOk(clients, roleOf)) ==> SubsOk(clients, roleOf)
    {
      if closed {
        return false;
      }
      clients := clients[conn := sub.(role := roleOf(sub.claims))];
      emptySince := None;
      return true;
    }

    method LeaveHub(conn: Conn, now: int)
      modifies this
      ensures State() == Leave(old(State()), conn, now)
    {
      clients := clients - {conn};
      if |clients| == 0 {
        emptySince := Some(now);
      }
    }

    /** `stop` tells the caller to remove the hub of this project from the map. */
    method ReapIfUnused(hasWebhooks: bool) returns (stop: bool)
      modifies this
      ensures State() == if hasWebhooks then old(State()) else CloseIfEmpty(old(State()))
      ensures stop <==> !hasWebhooks && clients == map[]
    {
      stop := false;
      if hasWebhooks {
        return;
      }
      if |clients| == 0 {
        closed := true;
        return true;
      }
    }

    /** The idle reaper's inspection; closing is then up to `ReapIfUnused`, which looks again. */
    method InspectIdle(idle: int, now: int) returns (emptyLong: bool)
      ensures emptyLong <==> EmptyLong(State(), idle, now)
      ensures emptyLong <==> clients == map[] && emptySince.Some? && emptySince.value + idle < now
    {
      emptyLong := |clients| == 0 && emptySince.Some? && now - emptySince.value > idle;
    }

    /** Phase one: `range` over the clients. */
    method MatchTargets(ev: Ev) returns (targets: seq<Target>, ghost order: seq<Conn>)
      ensures Visits(order, clients) && targets == MatchAll(ev, order, clients)
      ensures forall t :: t in targets <==> t.conn in clients && t.sub == clients[t.conn] && var sub := t.sub;
        (if ev.kind == "broadcast" || ev.kind == "presence" then sub.channel != "" && sub.channel == ev.channel
          else
            && !(sub.channel != "" && sub.table == "")
            && (sub.table != "" ==> sub.table == ev.table)
            && (sub.event != "" ==> sub.event == ev.kind)
            && (sub.column != "" ==> ev.record.Some? && sub.column in ev.record.value && ev.record.value[sub.column] == sub.value))
    {
      hide Matches, Kept, AllTargets;
      ghost var keep := (t: Target) => Matches(t.sub, ev);
      NoTargets(clients, keep);
      targets, order := [], [];
      var todo := clients.Keys;
      while todo != {}
        invariant todo <= clients.Keys
        invariant forall c :: c in order <==> c in clients && c !in todo
        invariant forall i, j :: 0 <= i < j < |order| ==> order[i] != order[j]
        invariant targets == Kept(AllTargets(order, clients), keep)
        decreases |todo|
      {
        var c :| c in todo;
        todo := todo - {c};
        TargetsSnoc(order, c, clients, keep);
        order := order + [c];
        if Matches(clients[c], ev) {
          targets := targets + [Target(c, clients[c])];
        }
      }
      MatchedByFields(targets, order, clients, ev);
    }

    /** Phase three. Writes to the connections in `failing` fail. */
    method WriteTargets(targets: array<Target>, kept: nat, failing: set<Conn>, now: int) returns (written: seq<Conn>)
      requires kept <= targets.Length
      modifies this
      ensures (State(), written) == WriteOut(old(State()), targets[..kept], failing, now)
    {
      written := [];
      var i := 0;
      while i < kept
        invariant 0 <= i <= kept && (State(), written) == WriteOut(old(State()), targets[..i], failing, now)
      {
        var c := targets[i].conn;
        assert targets[..i + 1][..i] == targets[..i];
        i := i + 1;
        if c !in clients {
          continue;
        }
        written := written + [c];
        if c in failing {
          LeaveHub(c, now);
        }
      }
    }

    /** A broadcast nothing else interleaves with. */
    method BroadcastNow(ev: Ev, rlsOn: bool, policy: (string, string) -> bool, failing: set<Conn>, now: int, ghost roleOf: string -> string)
      returns (written: seq<Conn>, ghost order: seq<Conn>)
      requires SubsOk(clients, roleOf)
      modifies this
      ensures Visits(order, old(clients))
      ensures written == Conns(Kept(AllTargets(order, old(clients)),
        (t: Target) => Matches(t.sub, ev) && (IsChange(ev) && rlsOn ==> Visible(policy, ev, t))))
      ensures forall i, j :: 0 <= i < j < |written| ==> written[i] != written[j]
      ensures forall c :: c in written <==> c in old(clients) && var sub := old(clients)[c];
        (if ev.kind == "broadcast" || ev.kind == "presence" then sub.channel != "" && sub.channel == ev.channel
          else
            && !(sub.channel != "" && sub.table == "")
            && (sub.table != "" ==> sub.table == ev.table)
            && (sub.event != "" ==> sub.event == ev.kind)
            && (sub.column != "" ==> ev.record.Some? && sub.column in ev.record.value && ev.record.value[sub.column] == sub.value)
            && (rlsOn && sub.role != "service_role" && ev.kind != "DELETE" && ev.record.Some? ==>
                 sub.role in ["anon", "authenticated"] && policy(sub.claims, sub.role)))
      ensures closed == old(closed) && forall c :: c in clients <==> c in old(clients) && !(c in failing && c in written)
      ensures forall c :: c in clients ==> clients[c] == old(clients)[c]
    {
      hide Matches, Visible, IsChange, Visits, WriteOut, Conns;
      var matched;
      matched, order := MatchTargets(ev);
      VisitsKnown(order, clients);
      MatchedFacts(order, clients, ev, roleOf);
      var targets, kept := CheckTargets(matched, ev, IsChange(ev) && rlsOn, policy, roleOf);
      BroadcastFilter(order, clients, ev, IsChange(ev) && rlsOn, policy, targets[..kept]);
      written := WriteTargets(targets, kept, failing, now);
      WrittenAreRegistered(old(State()), targets[..kept], failing, now);
      FailedAreGone(old(State()), targets[..kept], failing, now);
      WhoIsWritten(written, order, old(clients), ev, rlsOn, policy);
    }
  }

  /** Phase three unregisters the connections whose write failed and no others. */
  lemma FailedAreGone(h: Hub, targets: seq<Target>, failing: set<Conn>, now: int)
    requires Distinct(targets) && targets == Kept(targets, (t: Target) => t.conn in h.clients)
    ensures var (g, written) := WriteOut(h, targets, failing, now);
      && g.closed == h.closed && (forall c :: c in g.clients ==> c in h.clients && g.clients[c] == h.clients[c])
      && forall c :: c in g.clients <==> c in h.clients && !(c in failing && c in written)
  {
    WrittenAreRegistered(h, targets, failing, now);
    WriteOutCloses(h, targets, failing, now);
    ConnsMembers(targets);
    hide WriteOut, Kept, Distinct, Conns;
  }

  lemma {:induction false} WriteOutCloses(h: Hub, targets: seq<Target>, failing: set<Conn>, now: int)
    ensures WriteOut(h, targets, failing, now).0.closed == h.closed
  {
    if targets != [] { WriteOutCloses(h, targets[..|targets| - 1], failing, now); }
  }

  /** Who is written to, in the fields of subscription and event: a message goes to the subscribers of its
      channel; a change to every subscriber that is not after messages only and whose table, event and column
      value each agree or are unasked, and, where row visibility is on, to those of them who may see the row.
      Nobody is written to twice. */
  lemma WhoIsWritten(written: seq<Conn>, order: seq<Conn>, clients: map<Conn, Sub>, ev: Ev, rlsOn: bool,
                     policy: (string, string) -> bool)
    requires Visits(order, clients) && forall c :: c in order ==> c in clients
    requires written == Conns(Kept(AllTargets(order, clients),
      (t: Target) => Matches(t.sub, ev) && (IsChange(ev) && rlsOn ==> Visible(policy, ev, t))))
    ensures forall i, j :: 0 <= i < j < |written| ==> written[i] != written[j]
    ensures forall c :: c in written <==> c in clients && var sub := clients[c];
      (if ev.kind == "broadcast" || ev.kind == "presence" then sub.channel != "" && sub.channel == ev.channel
        else
          && !(sub.channel != "" && sub.table == "")
          && (sub.table != "" ==> sub.table == ev.table)
          && (sub.event != "" ==> sub.event == ev.kind)
          && (sub.column != "" ==> ev.record.Some? && sub.column in ev.record.value && ev.record.value[sub.column] == sub.value)
          && (rlsOn && sub.role != "service_role" && ev.kind != "DELETE" && ev.record.Some? ==>
               sub.role in ["anon", "authenticated"] && policy(sub.claims, sub.role)))
  {
    var keep := (t: Target) => Matches(t.sub, ev) && (IsChange(ev) && rlsOn ==> Visible(policy, ev, t));
    KeptConns(order, clients, keep);
    hide Conns, Kept, AllTargets, Visits;
    forall c | c in clients {
      InFields(Target(c, clients[c]), ev, rlsOn, policy);
    }
  }

  lemma KeptConns(order: seq<Conn>, clients: map<Conn, Sub>, keep: Target -> bool)
    requires Visits(order, clients) && forall c :: c in order ==> c in clients
    ensures forall c :: c in Conns(Kept(AllTargets(order, clients), keep)) <==> c in clients && keep(Target(c, clients[c]))
    ensures var w := Conns(Kept(AllTargets(order, clients), keep)); forall i, j :: 0 <= i < j < |w| ==> w[i] != w[j]
  {
    var all := AllTargets(order, clients);
    KeptMembers(all, keep);
    TargetsDistinct(order, clients);
    KeptDistinct(all, keep);
    forall c | c in clients ensures Target(c, clients[c]) in all {
      var i :| 0 <= i < |order| && order[i] == c;
      assert all[i] == Target(c, clients[c]);
    }
    var kept := Kept(all, keep);
    forall c | c in Conns(kept) ensures c in clients && keep(Target(c, clients[c])) {
      var i :| 0 <= i < |kept| && Conns(kept)[i] == c;
      assert kept[i] in all;
    }
    forall c | c in clients && keep(Target(c, clients[c])) ensures c in Conns(kept) {
      var i :| 0 <= i < |kept| && kept[i] == Target(c, clients[c]);
      assert Conns(kept)[i] == c;
    }
  }

  /** Phase two, on a fresh array; without the gate every target stays. */
  method CheckTargets(matched: seq<Target>, ev: Ev, gate: bool, policy: (string, string) -> bool, ghost roleOf: string -> string)
    returns (targets: array<Target>, kept: nat)
    requires RolesFromClaims(matched, roleOf)
    ensures fresh(targets) && kept <= targets.Length
    ensures targets[..kept] == if gate then Kept(matched, (t: Target) => Visible(policy, ev, t)) else matched
  {
    targets := new Target[|matched|](i requires 0 <= i < |matched| => matched[i]);
    assert targets[..] == matched;
    kept := |matched|;
    if gate && |matched| > 0 {
      kept := KeepVisible(targets, ev, policy, roleOf);
    }
  }

  lemma MatchedByFields(targets: seq<Target>, order: seq<Conn>, clients: map<Conn, Sub>, ev: Ev)
    requires (forall c :: c in order <==> c in clients) && targets == Kept(AllTargets(order, clients), (t: Target) => Matches(t.sub, ev))
    ensures forall t :: t in targets <==> t.conn in clients && t.sub == clients[t.conn] && var sub := t.sub;
      (if ev.kind == "broadcast" || ev.kind == "presence" then sub.channel != "" && sub.channel == ev.channel
        else
          && !(sub.channel != "" && sub.table == "")
          && (sub.table != "" ==> sub.table == ev.table)
          && (sub.event != "" ==> sub.event == ev.kind)
          && (sub.column != "" ==> ev.record.Some? && sub.column in ev.record.value && ev.record.value[sub.column] == sub.value))
  {
    var all := AllTargets(order, clients);
    KeptMembers(all, (t: Target) => Matches(t.sub, ev));
    forall t: Target ensures t in all <==> t.conn in clients && t.sub == clients[t.conn] {
      if t.conn in clients && t.sub == clients[t.conn] {
        var i :| 0 <= i < |order| && order[i] == t.conn;
        assert all[i] == t;
      }
    }
    hide AllTargets, Kept;
  }

  lemma NoTargets(clients: map<Conn, Sub>, keep: Target -> bool)
    ensures Kept(AllTargets([], clients), keep) == []
  {
  }

  lemma TargetsSnoc(order: seq<Conn>, c: Conn, clients: map<Conn, Sub>, keep: Target -> bool)
    requires c in clients && forall d :: d in order ==> d in clients
    ensures var t := Target(c, clients[c]);
      Kept(AllTargets(order + [c], clients), keep) == Kept(AllTargets(order, clients), keep) + if keep(t) then [t] else []
  {
    KeptSnoc(AllTargets(order, clients), Target(c, clients[c]), keep);
    assert AllTargets(order + [c], clients) == AllTargets(order, clients) + [Target(c, clients[c])];
  }

  lemma MatchedFacts(order: seq<Conn>, clients: map<Conn, Sub>, ev: Ev, roleOf: string -> string)
    requires SubsOk(clients, roleOf) && Visits(order, clients)
    ensures RolesFromClaims(MatchAll(ev, order, clients), roleOf)
  {
    hide Matches;
    KeptMembers(AllTargets(order, clients), (t: Target) => Matches(t.sub, ev));
    AllHaveTheirRoles(order, clients, roleOf);
  }

  /** The targets left after phases one and two. */
  lemma BroadcastFilter(order: seq<Conn>, clients: map<Conn, Sub>, ev: Ev, gate: bool, policy: (string, string) -> bool, kept: seq<Target>)
    requires Visits(order, clients) && forall c :: c in order ==> c in clients
    requires kept ==
      if gate then Kept(MatchAll(ev, order, clients), (t: Target) => Visible(policy, ev, t)) else MatchAll(ev, order, clients)
    ensures kept == Kept(AllTargets(order, clients), (t: Target) => Matches(t.sub, ev) && (gate ==> Visible(policy, ev, t)))
    ensures Distinct(kept) && kept == Kept(kept, (t: Target) => t.conn in clients)
  {
    TargetsDistinct(order, clients);
    AllRegistered(order, clients);
    hide Matches, Visible, AllTargets, Visits;
    var all := AllTargets(order, clients);
    var matching := (t: Target) => Matches(t.sub, ev);
    var both := (t: Target) => Matches(t.sub, ev) && (gate ==> Visible(policy, ev, t));
    var here := (t: Target) => t.conn in clients;
    if gate {
      KeptTwice(all, matching, (t: Target) => Visible(policy, ev, t), both);
    } else {
      KeptSame(all, matching, both);
    }
    KeptDistinct(all, both);
    KeptTwice(all, both, here, (t: Target) => both(t) && here(t));
    KeptSame(all, both, (t: Target) => both(t) && here(t));
  }

  lemma AllRegistered(order: seq<Conn>, clients: map<Conn, Sub>)
    requires forall c :: c in order ==> c in clients
    ensures forall t :: t in AllTargets(order, clients) ==> t.conn in clients
  {
  }
}
