/** The sliding-window limiters: per-address lists of call times, compacted on every call and pruned in the
    background. */
module RateLimit {

  /** Times are in nanoseconds. */
  const MINUTE: int := 60 * 1000 * 1000 * 1000
  const LOGIN_WINDOW: int := 10 * MINUTE
  const AUTH_WINDOW: int := MINUTE
  const LOGIN_LIMIT: nat := 8

  type Table = map<string, seq<int>>

  function Get(m: Table, ip: string): seq<int> {
    if ip in m then m[ip] else []
  }

  /** The times after `cut`, in order. */
  function After(ts: seq<int>, cut: int): seq<int> {
    if ts == [] then []
    else After(ts[..|ts| - 1], cut) + if ts[|ts| - 1] > cut then [ts[|ts| - 1]] else []
  }

  function Count(ts: seq<int>, cut: int): nat {
    if ts == [] then 0
    else Count(ts[..|ts| - 1], cut) + if ts[|ts| - 1] > cut then 1 else 0
  }

  /** `rateLimited`: the compacted table, and whether the address is limited. */
  function LoginCheck(m: Table, ip: string, now: int): (Table, bool) {
    var keep := After(Get(m, ip), now - LOGIN_WINDOW);
    (if keep == [] then m - {ip} else m[ip := keep], |keep| >= LOGIN_LIMIT)
  }

  function Record(m: Table, ip: string, now: int): Table {
    m[ip := Get(m, ip) + [now]]
  }

  /** `authRateLimited`: the clock is read once for the cut and once more for the entry. */
  function AuthCheck(m: Table, ip: string, max: int, t1: int, t2: int): (Table, bool) {
    if max <= 0 then (m, false)
    else
      var keep := After(Get(m, ip), t1 - AUTH_WINDOW) + [t2];
      (m[ip := keep], |keep| > max)
  }

  /** The pruner drops the addresses without any time in the last ten minutes. */
  function Prune(m: Table, now: int): Table {
    map ip | ip in m && After(m[ip], now - LOGIN_WINDOW) != [] :: m[ip]
  }

  // ----- counting -----

  lemma {:induction false} AfterCounts(ts: seq<int>, cut: int, later: int)
    requires cut <= later
    ensures Count(After(ts, cut), later) == Count(ts, later) && |After(ts, cut)| == Count(ts, cut)
  {
    if ts != [] {
      var n := |ts| - 1;
      AfterCounts(ts[..n], cut, later);
      CountSnoc(After(ts[..n], cut), ts[n], later);
      assert After(ts[..n], cut) + [] == After(ts[..n], cut);
    }
  }

  /** What the counts count. */
  lemma {:induction false} CountIsSize(ts: seq<int>, cut: int)
    ensures Count(ts, cut) == |set i | 0 <= i < |ts| && ts[i] > cut|
  {
    if ts != [] {
      var n := |ts| - 1;
      CountIsSize(ts[..n], cut);
      var all, some := set i | 0 <= i < |ts| && ts[i] > cut, set i | 0 <= i < n && ts[..n][i] > cut;
      assert all == if ts[n] > cut then some + {n} else some;
    }
  }

  lemma {:induction false} AfterExact(ts: seq<int>, cut: int)
    ensures forall t :: t in After(ts, cut) <==> t in ts && t > cut
    ensures After(ts, cut) == [] <==> forall i :: 0 <= i < |ts| ==> ts[i] <= cut
  {
    if ts != [] {
      var n := |ts| - 1;
      AfterExact(ts[..n], cut);
      assert ts == ts[..n] + [ts[n]];
    }
  }

  lemma CountSnoc(ts: seq<int>, t: int, cut: int)
    ensures Count(ts + [t], cut) == Count(ts, cut) + if t > cut then 1 else 0
  {
    assert (ts + [t])[..|ts|] == ts;
  }

  lemma {:induction false} CountMonotone(ts: seq<int>, cut: int, later: int)
    requires cut <= later
    ensures Count(ts, later) <= Count(ts, cut)
  {
    if ts != [] { CountMonotone(ts[..|ts| - 1], cut, later); }
  }

  /** Cut off before `floor`, a list and the full history agree from there on. */
  ghost predicate Faithful(ts: seq<int>, history: seq<int>, floor: int) {
    forall cut :: cut >= floor ==> Count(ts, cut) == Count(history, cut)
  }

  ghost predicate AllFaithful(m: Table, history: Table, floor: int) {
    forall ip :: Faithful(Get(m, ip), Get(history, ip), floor)
  }

  lemma CompactFaithful(ts: seq<int>, history: seq<int>, floor: int, cut: int)
    requires Faithful(ts, history, floor) && floor <= cut
    ensures Faithful(After(ts, cut), history, cut) && |After(ts, cut)| == Count(history, cut)
  {
    hide Count, After;
    AfterCounts(ts, cut, cut);
    forall later | later >= cut ensures Count(After(ts, cut), later) == Count(history, later) {
      AfterCounts(ts, cut, later);
    }
  }

  lemma AppendFaithful(ts: seq<int>, history: seq<int>, floor: int, t: int)
    requires Faithful(ts, history, floor)
    ensures Faithful(ts + [t], history + [t], floor)
  {
    hide Count;
    forall cut | cut >= floor ensures Count(ts + [t], cut) == Count(history + [t], cut) {
      CountSnoc(ts, t, cut);
      CountSnoc(history, t, cut);
    }
  }

  lemma LaterFaithful(m: Table, history: Table, floor: int, later: int)
    requires AllFaithful(m, history, floor) && floor <= later
    ensures AllFaithful(m, history, later)
  {
    hide Count, Get;
    forall ip ensures Faithful(Get(m, ip), Get(history, ip), later) {
      assert Faithful(Get(m, ip), Get(history, ip), floor);
    }
  }

  lemma SetFaithful(m: Table, history: Table, floor: int, ip: string, ts: seq<int>, hs: seq<int>)
    requires AllFaithful(m, history, floor) && Faithful(ts, hs, floor)
    ensures AllFaithful(m[ip := ts], history[ip := hs], floor)
    ensures hs == Get(history, ip) ==> AllFaithful(m[ip := ts], history, floor)
  {
    hide Faithful;
    var m', history' := m[ip := ts], history[ip := hs];
    forall other ensures Faithful(Get(m', other), Get(history', other), floor) {
      assert Faithful(Get(m, other), Get(history, other), floor);
    }
    if hs == Get(history, ip) {
      forall other ensures Faithful(Get(m', other), Get(history, other), floor) {
        assert Faithful(Get(m, other), Get(history, other), floor);
      }
    }
  }

  lemma LoginCheckFaithful(m: Table, history: Table, floor: int, ip: string, now: int)
    requires AllFaithful(m, history, floor) && floor <= now - LOGIN_WINDOW
    ensures var (m', limited) := LoginCheck(m, ip, now);
      && AllFaithful(m', history, now - LOGIN_WINDOW)
      && (limited <==> Count(Get(history, ip), now - LOGIN_WINDOW) >= LOGIN_LIMIT)
  {
    hide Count, After, Faithful;
    var cut := now - LOGIN_WINDOW;
    assert Faithful(Get(m, ip), Get(history, ip), floor);
    CompactFaithful(Get(m, ip), Get(history, ip), floor, cut);
    LaterFaithful(m, history, floor, cut);
    var keep := After(Get(m, ip), cut);
    SetFaithful(m, history, cut, ip, keep, Get(history, ip));
    if keep == [] {
      forall other ensures Faithful(Get(m - {ip}, other), Get(history, other), cut) {
        assert Faithful(Get(m[ip := keep], other), Get(history, other), cut);
      }
    }
  }

  lemma AuthCheckFaithful(m: Table, history: Table, floor: int, ip: string, max: int, t1: int, t2: int)
    requires AllFaithful(m, history, floor) && floor <= t1 - AUTH_WINDOW && t1 <= t2 && max > 0
    ensures var (m', limited) := AuthCheck(m, ip, max, t1, t2);
      && AllFaithful(m', Record(history, ip, t2), t1 - AUTH_WINDOW)
      && (limited <==> Count(Get(history, ip), t1 - AUTH_WINDOW) + 1 > max)
  {
    hide Count, After, Faithful;
    var cut := t1 - AUTH_WINDOW;
    assert Faithful(Get(m, ip), Get(history, ip), floor);
    CompactFaithful(Get(m, ip), Get(history, ip), floor, cut);
    AppendFaithful(After(Get(m, ip), cut), Get(history, ip), cut, t2);
    LaterFaithful(m, history, floor, cut);
    SetFaithful(m, history, cut, ip, After(Get(m, ip), cut) + [t2], Get(history, ip) + [t2]);
  }

  lemma RecordFaithful(m: Table, history: Table, floor: int, ip: string, now: int)
    requires AllFaithful(m, history, floor)
    ensures AllFaithful(Record(m, ip, now), Record(history, ip, now), floor)
  {
    hide Count, Faithful;
    assert Faithful(Get(m, ip), Get(history, ip), floor);
    AppendFaithful(Get(m, ip), Get(history, ip), floor, now);
    SetFaithful(m, history, floor, ip, Get(m, ip) + [now], Get(history, ip) + [now]);
  }

  /** Pruning is invisible to both limiters: neither looks back further than the pruner does. */
  lemma PruneFaithful(m: Table, history: Table, floor: int, now: int)
    requires AllFaithful(m, history, floor) && floor >= now - LOGIN_WINDOW
    ensures AllFaithful(Prune(m, now), history, floor)
  {
    hide Count, After;
    var cut := now - LOGIN_WINDOW;
    forall ip ensures Faithful(Get(Prune(m, now), ip), Get(history, ip), floor) {
      assert Faithful(Get(m, ip), Get(history, ip), floor);
      if ip in m && ip !in Prune(m, now) {
        forall later | later >= floor ensures Count(Get(m, ip), later) == Count([], later) {
          NoneAfter(m[ip], cut, later);
        }
      }
    }
  }

  lemma NoneAfter(ts: seq<int>, cut: int, later: int)
    requires After(ts, cut) == [] && cut <= later
    ensures Count(ts, later) == 0 == Count([], later)
  {
    AfterCounts(ts, cut, cut);
    CountMonotone(ts, cut, later);
  }

  /** The pruner keeps an address if and only if it has a time in the last ten minutes, and its list as it
      was; so the tables cannot grow without bound. */
  lemma PruneExact(m: Table, now: int, ip: string)
    ensures ip in Prune(m, now) <==> ip in m && exists i :: 0 <= i < |m[ip]| && m[ip][i] > now - 600_000_000_000
    ensures ip in Prune(m, now) ==> Prune(m, now)[ip] == m[ip]
  {
    hide After;
    if ip in m { AfterExact(m[ip], now - LOGIN_WINDOW); }
  }

  /** A login check leaves of the list of its address the times of the last ten minutes, drops the address if
      there is none, and touches no other address; checking alone records nothing. */
  lemma LoginCheckExact(m: Table, ip: string, now: int, other: string)
    ensures var t := LoginCheck(m, ip, now).0;
      && (ip in t <==> ip in m && exists i :: 0 <= i < |m[ip]| && m[ip][i] > now - 600_000_000_000)
      && (ip in t ==> ip in m && forall x :: x in t[ip] <==> x in m[ip] && x > now - 600_000_000_000)
      && (other != ip ==> (other in t <==> other in m) && (other in t && other in m ==> t[other] == m[other]))
  {
    hide After;
    AfterExact(Get(m, ip), now - LOGIN_WINDOW);
  }

  /** A call of an auth endpoint leaves the times of the last minute and adds its own, admitted or not; with
      the limiter off it leaves the table alone. */
  lemma AuthCheckExact(m: Table, ip: string, max: int, t1: int, t2: int, other: string)
    ensures var t := AuthCheck(m, ip, max, t1, t2).0;
      && (max <= 0 ==> t == m)
      && (max > 0 ==> ip in t && t[ip] != [] && t[ip][|t[ip]| - 1] == t2)
      && (max > 0 ==> forall x :: x in t[ip][..|t[ip]| - 1] <==> ip in m && x in m[ip] && x > t1 - 60_000_000_000)
      && (other != ip ==> (other in t <==> other in m) && (other in t && other in m ==> t[other] == m[other]))
  {
    hide After;
    var keep := After(Get(m, ip), t1 - AUTH_WINDOW);
    AfterExact(Get(m, ip), t1 - AUTH_WINDOW);
    assert (keep + [t2])[..|keep|] == keep;
  }

  // ----- runs -----

  datatype Event =
    | Ticked(time: nat)
    | LoginChecked(ip: string)
    | LoginFailed(ip: string)
    | AuthCalled(ip: string, max: int, gap: nat)
    | Pruned

  /** The two tables, the clock, and what the tables forget: every login failure, every call of an auth
      endpoint while its limiter is on, and those that were admitted. */
  datatype System = System(logins: Table, auth: Table, now: int, allLogins: Table, allAuth: Table, admitted: Table)

  function Step(s: System, e: Event): System {
    match e
    case Ticked(time) => s.(now := s.now + time)
    case LoginChecked(ip) => s.(logins := LoginCheck(s.logins, ip, s.now).0)
    case LoginFailed(ip) => s.(logins := Record(s.logins, ip, s.now), allLogins := Record(s.allLogins, ip, s.now))
    case AuthCalled(ip, max, gap) =>
      if max <= 0 then s
      else
        var (auth, limited) := AuthCheck(s.auth, ip, max, s.now, s.now + gap);
        s.(auth := auth, now := s.now + gap, allAuth := Record(s.allAuth, ip, s.now + gap),
           admitted := if limited then s.admitted else Record(s.admitted, ip, s.now + gap))
    case Pruned => s.(logins := Prune(s.logins, s.now), auth := Prune(s.auth, s.now))
  }

  ghost predicate SystemOk(s: System) {
    AllFaithful(s.logins, s.allLogins, s.now - LOGIN_WINDOW) && AllFaithful(s.auth, s.allAuth, s.now - AUTH_WINDOW)
  }

  lemma StepKeepsOk(s: System, e: Event)
    requires SystemOk(s)
    ensures SystemOk(Step(s, e))
  {
    hide AllFaithful, LoginCheck, AuthCheck, Record, Prune;
    var t := Step(s, e);
    match e {
      case Ticked(time) =>
      case LoginChecked(ip) => LoginCheckFaithful(s.logins, s.allLogins, s.now - LOGIN_WINDOW, ip, s.now);
      case LoginFailed(ip) => RecordFaithful(s.logins, s.allLogins, s.now - LOGIN_WINDOW, ip, s.now);
      case AuthCalled(ip, max, gap) =>
        if max > 0 {
          AuthCheckFaithful(s.auth, s.allAuth, s.now - AUTH_WINDOW, ip, max, s.now, s.now + gap);
        }
      case Pruned =>
        PruneFaithful(s.logins, s.allLogins, s.now - LOGIN_WINDOW, s.now);
        PruneFaithful(s.auth, s.allAuth, s.now - AUTH_WINDOW, s.now);
    }
    LaterFaithful(t.logins, t.allLogins, s.now - LOGIN_WINDOW, t.now - LOGIN_WINDOW);
    LaterFaithful(t.auth, t.allAuth, s.now - AUTH_WINDOW, t.now - AUTH_WINDOW);
  }

  ghost function Run(start: int, events: seq<Event>): (s: System)
    ensures SystemOk(s)
  {
    hide Step, SystemOk;
    if events == [] then
      StartIsOk(start);
      System(map[], map[], start, map[], map[], map[])
    else
      StepKeepsOk(Run(start, events[..|events| - 1]), events[|events| - 1]);
      Step(Run(start, events[..|events| - 1]), events[|events| - 1])
  }

  lemma StartIsOk(start: int)
    ensures SystemOk(System(map[], map[], start, map[], map[], map[]))
  {
  }

  /** After any run, with all its compactions and prunings, both limiters answer as if they counted over
      the full history of calls: eight failures in ten minutes, or `max` calls in one. */
  lemma AnswersFromFullHistory(start: int, events: seq<Event>, ip: string, max: int, gap: nat)
    ensures var s := Run(start, events);
      && LoginCheck(s.logins, ip, s.now).1 == (Count(Get(s.allLogins, ip), s.now - 600_000_000_000) >= 8)
      && AuthCheck(s.auth, ip, max, s.now, s.now + gap).1
           == (max > 0 && Count(Get(s.allAuth, ip), s.now - 60_000_000_000) + 1 > max)
  {
    hide Run, AllFaithful, LoginCheck, Count;
    var s := Run(start, events);
    LoginCheckFaithful(s.logins, s.allLogins, s.now - LOGIN_WINDOW, ip, s.now);
    if max > 0 {
      AuthCheckFaithful(s.auth, s.allAuth, s.now - AUTH_WINDOW, ip, max, s.now, s.now + gap);
    }
  }

  /** How many of the times lie in the minute after `w`. */
  function InWindow(ts: seq<int>, w: int): nat {
    if ts == [] then 0
    else InWindow(ts[..|ts| - 1], w) + if w < ts[|ts| - 1] <= w + AUTH_WINDOW then 1 else 0
  }

  lemma {:induction false} InWindowIsSize(ts: seq<int>, w: int)
    ensures InWindow(ts, w) == |set i | 0 <= i < |ts| && w < ts[i] <= w + 60_000_000_000|
  {
    if ts != [] {
      var n := |ts| - 1;
      InWindowIsSize(ts[..n], w);
      var all := set i | 0 <= i < |ts| && w < ts[i] <= w + 60_000_000_000;
      var some := set i | 0 <= i < n && w < ts[..n][i] <= w + 60_000_000_000;
      assert all == if w < ts[n] <= w + 60_000_000_000 then some + {n} else some;
    }
  }

  lemma InWindowSnoc(ts: seq<int>, t: int, w: int)
    ensures InWindow(ts + [t], w) == InWindow(ts, w) + if w < t <= w + AUTH_WINDOW then 1 else 0
  {
    assert (ts + [t])[..|ts|] == ts;
  }

  predicate FixedMax(events: seq<Event>, ip: string, max: int) {
    forall i :: 0 <= i < |events| && events[i].AuthCalled? && events[i].ip == ip ==> events[i].max == max
  }

  /** In any one-minute window at most `max` calls of an address are admitted, in every run in which its
      limit stays the same. */
  lemma {:induction false} AtMostMax(start: int, events: seq<Event>, ip: string, max: int, w: int)
    requires max > 0 && FixedMax(events, ip, max)
    ensures var s := Run(start, events);
      InWindow(Get(s.admitted, ip), w) <= max && InWindow(Get(s.admitted, ip), w) <= Count(Get(s.allAuth, ip), w)
    decreases |events|
  {
    hide SystemOk, LoginCheck, AuthCheck, Prune, Count, InWindow;
    if events == [] {
      NoneInWindow(w);
    } else {
      var n := |events| - 1;
      AtMostMax(start, events[..n], ip, max, w);
      AdmitOne(start, events[..n], events[n], ip, max, w);
    }
  }

  lemma NoneInWindow(w: int)
    ensures InWindow([], w) == 0 == Count([], w)
  {
  }

  /** What a step adds to the history of one address: a failed login, a call, an admitted call. */
  lemma StepHistory(s: System, e: Event, ip: string)
    ensures var t := Step(s, e);
      var called := e.AuthCalled? && e.ip == ip && e.max > 0;
      var limited := called && AuthCheck(s.auth, ip, e.max, s.now, s.now + e.gap).1;
      && Get(t.allAuth, ip) == (if called then Get(s.allAuth, ip) + [s.now + e.gap] else Get(s.allAuth, ip))
      && Get(t.admitted, ip) == (if called && !limited then Get(s.admitted, ip) + [s.now + e.gap] else Get(s.admitted, ip))
      && Get(t.allLogins, ip) == (if e == LoginFailed(ip) then Get(s.allLogins, ip) + [s.now] else Get(s.allLogins, ip))
      && t.now == s.now + (if e.Ticked? then e.time else if e.AuthCalled? && e.max > 0 then e.gap else 0)
  {
    hide LoginCheck, AuthCheck, Prune;
  }

  lemma AdmitOne(start: int, before: seq<Event>, e: Event, ip: string, max: int, w: int)
    requires max > 0 && (e.AuthCalled? && e.ip == ip ==> e.max == max)
    requires var s := Run(start, before);
      InWindow(Get(s.admitted, ip), w) <= max && InWindow(Get(s.admitted, ip), w) <= Count(Get(s.allAuth, ip), w)
    ensures var t := Step(Run(start, before), e);
      InWindow(Get(t.admitted, ip), w) <= max && InWindow(Get(t.admitted, ip), w) <= Count(Get(t.allAuth, ip), w)
  {
    hide Run, SystemOk, AuthCheck, Count, InWindow, Step, Get;
    var s := Run(start, before);
    StepHistory(s, e, ip);
    if e.AuthCalled? && e.ip == ip {
      AnswersFromFullHistory(start, before, ip, max, e.gap);
      CountSnoc(Get(s.allAuth, ip), s.now + e.gap, w);
      InWindowSnoc(Get(s.admitted, ip), s.now + e.gap, w);
      if s.now - AUTH_WINDOW <= w { CountMonotone(Get(s.allAuth, ip), s.now - AUTH_WINDOW, w); }
    }
  }

  // ----- the shared tables -----

  class Limiter {
    var attempts: Table
    var authAttempts: Table

    constructor ()
      ensures attempts == map[] && authAttempts == map[]
    {
      attempts, authAttempts := map[], map[];
    }

    method RateLimited(ip: string, now: int) returns (limited: bool)
      modifies this`attempts
      ensures (attempts, limited) == LoginCheck(old(attempts), ip, now)
    {
      var keep := Keep(Get(attempts, ip), now - LOGIN_WINDOW);
      if |keep| == 0 {
        attempts := attempts - {ip};
      } else {
        attempts := attempts[ip := keep];
      }
      return |keep| >= LOGIN_LIMIT;
    }

    method RecordAttempt(ip: string, now: int)
      modifies this`attempts
      ensures attempts == Record(old(attempts), ip, now)
    {
      attempts := attempts[ip := Get(attempts, ip) + [now]];
    }

    method AuthRateLimited(ip: string, max: int, t1: int, t2: int) returns (limited: bool)
      modifies this`authAttempts
      ensures (authAttempts, limited) == AuthCheck(old(authAttempts), ip, max, t1, t2)
    {
      if max <= 0 {
        return false;
      }
      var keep := Keep(Get(authAttempts, ip), t1 - AUTH_WINDOW);
      keep := keep + [t2];
      authAttempts := authAttempts[ip := keep];
      return |keep| > max;
    }

    method PruneTables(now: int)
      modifies this
      ensures attempts == Prune(old(attempts), now) && authAttempts == Prune(old(authAttempts), now)
    {
      attempts := PruneTable(attempts, now);
      authAttempts := PruneTable(authAttempts, now);
    }
  }

  /** The compaction loop. */
  method Keep(ts: seq<int>, cut: int) returns (keep: seq<int>)
    ensures keep == After(ts, cut)
  {
    keep := [];
    var i := 0;
    while i < |ts|
      invariant 0 <= i <= |ts| && keep == After(ts[..i], cut)
    {
      assert ts[..i + 1][..i] == ts[..i];
      if ts[i] > cut {
        keep := keep + [ts[i]];
      }
      i := i + 1;
    }
    assert ts[..i] == ts;
  }

  /** Visits every address once and deletes the stale ones. */
  method PruneTable(m: Table, now: int) returns (r: Table)
    ensures r == Prune(m, now)
  {
    r := m;
    var todo := m.Keys;
    while todo != {}
      invariant todo <= m.Keys && r.Keys <= m.Keys
      invariant forall ip :: ip in r ==> r[ip] == m[ip]
      invariant forall ip :: ip in m ==> (ip in r <==> ip in todo || ip in Prune(m, now))
      decreases |todo|
    {
      var ip :| ip in todo;
      todo := todo - {ip};
      var recent := AnyAfter(m[ip], now - LOGIN_WINDOW);
      if !recent {
        r := r - {ip};
      }
    }
  }

  method AnyAfter(ts: seq<int>, cut: int) returns (any: bool)
    ensures any <==> After(ts, cut) != []
  {
    var i := 0;
    while i < |ts|
      invariant 0 <= i <= |ts| && After(ts[..i], cut) == []
    {
      assert ts[..i + 1][..i] == ts[..i];
      if ts[i] > cut {
        AfterPrefix(ts, i + 1, cut);
        return true;
      }
      i := i + 1;
    }
    assert ts[..i] == ts;
    return false;
  }

  lemma {:induction false} AfterPrefix(ts: seq<int>, n: nat, cut: int)
    requires n <= |ts|
    ensures After(ts[..n], cut) <= After(ts, cut)
    decreases |ts|
  {
    if n == |ts| {
      assert ts[..n] == ts;
    } else {
      AfterPrefix(ts[..|ts| - 1], n, cut);
      assert ts[..|ts| - 1][..n] == ts[..n];
    }
  }
}
