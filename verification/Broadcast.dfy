/** Realtime fan-out: which subscribers an event matches, the row-visibility check with its memo, and the
    in-place filter over the targets. */
module Broadcast {
  import opened Exceptions

  /** A WebSocket connection, known by its address. */
  type Conn = nat

  datatype Sub = Sub(table: string, event: string, column: string, value: string, role: string, claims: string, channel: string)

  /** A notification; record values are as `%v` formats them. */
  datatype Ev = Ev(kind: string, table: string, channel: string, record: Option<map<string, string>>)

  datatype Target = Target(conn: Conn, sub: Sub)

  predicate IsChange(ev: Ev) {
    ev.kind != "broadcast" && ev.kind != "presence"
  }

  predicate ColumnMatches(sub: Sub, ev: Ev) {
    sub.column == "" || (ev.record.Some? && sub.column in ev.record.value && ev.record.value[sub.column] == sub.value)
  }

  /** Phase one's test. */
  predicate Matches(sub: Sub, ev: Ev) {
    if !IsChange(ev) then sub.channel != "" && sub.channel == ev.channel
    else
      && (sub.channel == "" || sub.table != "")
      && (sub.table == "" || sub.table == ev.table)
      && (sub.event == "" || sub.event == ev.kind)
      && ColumnMatches(sub, ev)
  }

  /** What the project database answers for a row: only the two API roles are ever asked about. `policy`
      stands for the query under the subscriber's role and claims. */
  predicate RowVisible(policy: (string, string) -> bool, claims: string, role: string) {
    (role == "anon" || role == "authenticated") && policy(claims, role)
  }

  predicate SeesEverything(t: Target, ev: Ev) {
    t.sub.role == "service_role" || ev.kind == "DELETE" || ev.record.None?
  }

  /** The per-subscriber rule, without a memo. */
  predicate Visible(policy: (string, string) -> bool, ev: Ev, t: Target) {
    SeesEverything(t, ev) || RowVisible(policy, t.sub.claims, t.sub.role)
  }

  // ----- filtering -----

  function Kept(ts: seq<Target>, keep: Target -> bool): seq<Target> {
    if ts == [] then []
    else Kept(ts[..|ts| - 1], keep) + if keep(ts[|ts| - 1]) then [ts[|ts| - 1]] else []
  }

  lemma KeptSnoc(ts: seq<Target>, t: Target, keep: Target -> bool)
    ensures Kept(ts + [t], keep) == Kept(ts, keep) + if keep(t) then [t] else []
  {
    assert (ts + [t])[..|ts|] == ts;
  }

  lemma {:induction false} KeptMembers(ts: seq<Target>, keep: Target -> bool)
    ensures forall t :: t in Kept(ts, keep) <==> t in ts && keep(t)
  {
    if ts != [] {
      KeptMembers(ts[..|ts| - 1], keep);
      assert ts == ts[..|ts| - 1] + [ts[|ts| - 1]];
    }
  }

  /** Filtering twice is filtering once with both tests. */
  lemma {:induction false} KeptTwice(ts: seq<Target>, first: Target -> bool, second: Target -> bool, both: Target -> bool)
    requires forall t :: both(t) <==> first(t) && second(t)
    ensures Kept(Kept(ts, first), second) == Kept(ts, both)
  {
    if ts != [] {
      var n := |ts| - 1;
      KeptTwice(ts[..n], first, second, both);
      KeptSnoc(Kept(ts[..n], first), ts[n], second);
      assert Kept(ts[..n], first) + [] == Kept(ts[..n], first);
    }
  }

  /** Tests that agree on a list keep the same of it. */
  lemma {:induction false} KeptSame(ts: seq<Target>, p: Target -> bool, q: Target -> bool)
    requires forall t :: t in ts ==> p(t) == q(t)
    ensures Kept(ts, p) == Kept(ts, q)
  {
    if ts != [] { KeptSame(ts[..|ts| - 1], p, q); }
  }

  predicate Distinct(ts: seq<Target>) {
    forall i, j :: 0 <= i < j < |ts| ==> ts[i].conn != ts[j].conn
  }

  lemma DistinctSnoc(ts: seq<Target>, t: Target)
    requires Distinct(ts) && forall u :: u in ts ==> u.conn != t.conn
    ensures Distinct(ts + [t])
  {
  }

  lemma {:induction false} KeptDistinct(ts: seq<Target>, keep: Target -> bool)
    requires Distinct(ts)
    ensures Distinct(Kept(ts, keep))
  {
    if ts != [] {
      var n := |ts| - 1;
      KeptDistinct(ts[..n], keep);
      KeptMembers(ts[..n], keep);
      if keep(ts[n]) { DistinctSnoc(Kept(ts[..n], keep), ts[n]); }
    }
  }

  // ----- phase two -----

  /** The role a subscriber presents is the one written in its claims. */
  ghost predicate RolesFromClaims(ts: seq<Target>, roleOf: string -> string) {
    forall i :: 0 <= i < |ts| ==> ts[i].sub.role == roleOf(ts[i].sub.claims)
  }

  /** The memo holds true answers: what the database says of those claims in their role. */
  ghost predicate MemoOk(memo: map<string, bool>, policy: (string, string) -> bool, roleOf: string -> string) {
    forall c :: c in memo ==> memo[c] == RowVisible(policy, c, roleOf(c))
  }

  /** Filters the targets in their own array, asking the database once per distinct claims. Although the
      memo is keyed by the claims alone, what is kept is exactly what the rule without a memo keeps, in
      order, none lost and none twice. */
  method KeepVisible(targets: array<Target>, ev: Ev, policy: (string, string) -> bool, ghost roleOf: string -> string)
    returns (kept: nat)
    requires RolesFromClaims(targets[..], roleOf)
    modifies targets
    ensures kept <= targets.Length
    ensures targets[..kept] == Kept(old(targets[..]), t => Visible(policy, ev, t))
  {
    hide Visible, RowVisible, SeesEverything;
    ghost var ts := targets[..];
    ghost var keep := t => Visible(policy, ev, t);
    kept := 0;
    var memo: map<string, bool> := map[];
    var i := 0;
    while i < targets.Length
      invariant 0 <= kept <= i <= targets.Length == |ts|
      invariant targets[..kept] == Kept(ts[..i], keep)
      invariant forall k :: i <= k < targets.Length ==> targets[k] == ts[k]
      invariant MemoOk(memo, policy, roleOf)
    {
      var t := targets[i];
      KeptSnoc(ts[..i], t, keep);
      assert ts[..i + 1] == ts[..i] + [t];
      VisibleCases(policy, ev, t);
      i := i + 1;
      if SeesEverything(t, ev) {
        targets[kept] := t;
        kept := kept + 1;
        continue;
      }
      var vis: bool;
      if t.sub.claims in memo {
        vis := memo[t.sub.claims];
      } else {
        vis := RowVisible(policy, t.sub.claims, t.sub.role);
        memo := memo[t.sub.claims := vis];
      }
      if vis {
        targets[kept] := t;
        kept := kept + 1;
      }
    }
    assert ts[..i] == ts;
  }

  lemma VisibleCases(policy: (string, string) -> bool, ev: Ev, t: Target)
    ensures Visible(policy, ev, t) <==> SeesEverything(t, ev) || RowVisible(policy, t.sub.claims, t.sub.role)
  {
  }

  /** Without that link the memo would be wrong: two subscribers with equal claims and different roles
      can have different answers. */
  lemma MemoNeedsRoles()
    ensures exists policy: (string, string) -> bool, a: Sub, b: Sub ::
      a.claims == b.claims && RowVisible(policy, a.claims, a.role) != RowVisible(policy, b.claims, b.role)
  {
    var policy := (claims: string, role: string) => role == "anon";
    var a := Sub("", "", "", "", "anon", "{}", "");
    var b := a.(role := "authenticated");
    assert RowVisible(policy, a.claims, a.role) && !RowVisible(policy, b.claims, b.role);
  }
}
