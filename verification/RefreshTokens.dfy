/** Refresh tokens: rotation within a family, reuse detection, logouts and single-session mode. */
module RefreshTokens {
  import opened Exceptions

  datatype Token = Token(user: nat, family: nat, revoked: bool, expiresAt: int)

  /** The tokens by their hashes, the users, and the clock. Random values are fresh numbers. */
  datatype Auth = Auth(tokens: map<nat, Token>, users: set<nat>, nextToken: nat, nextUser: nat, nextFamily: nat, now: int)

  const MONTH: int := 30 * 24 * 3600

  /** `UPDATE auth.refresh_tokens SET revoked=true WHERE ...` */
  function Revoke(s: Auth, which: Token -> bool): Auth {
    s.(tokens := map h | h in s.tokens :: if which(s.tokens[h]) then s.tokens[h].(revoked := true) else s.tokens[h])
  }

  function RevokeUser(s: Auth, user: nat): Auth {
    Revoke(s, (t: Token) => t.user == user)
  }

  function RevokeFamily(s: Auth, family: nat): Auth {
    Revoke(s, (t: Token) => t.family == family)
  }

  function RevokeToken(s: Auth, hash: nat): Auth {
    if hash in s.tokens then s.(tokens := s.tokens[hash := s.tokens[hash].(revoked := true)]) else s
  }

  /** A new pair: in single-session mode every other token of the user is revoked first. `stored` is
      whether the insert succeeds. */
  function Issue(s: Auth, user: nat, family: Option<nat>, single: bool, stored: bool): (Auth, Result<nat>) {
    var t := if single then RevokeUser(s, user) else s;
    if !stored then (t, Thrown)
    else
      var f := if family.Some? then family.value else t.nextFamily;
      var token := Token(user, f, false, t.now + MONTH);
      (t.(tokens := t.tokens[t.nextToken := token], nextToken := t.nextToken + 1,
          nextFamily := if family.Some? then t.nextFamily else t.nextFamily + 1),
       Ok(t.nextToken))
  }

  /** Exchanges a token. A revoked one ends its whole family. */
  function Refresh(s: Auth, hash: nat, single: bool, stored: bool): (Auth, Result<nat>) {
    if hash !in s.tokens || s.tokens[hash].user !in s.users then (s, Thrown)
    else
      var t := s.tokens[hash];
      if t.revoked then (RevokeFamily(s, t.family), Thrown)
      else if t.expiresAt <= s.now then (s, Thrown)
      else Issue(RevokeToken(s, hash), t.user, Some(t.family), single, stored)
  }

  function Logout(s: Auth, hash: nat, everywhere: bool): Auth {
    if !everywhere then RevokeToken(s, hash)
    else if hash in s.tokens then RevokeUser(s, s.tokens[hash].user)
    else s
  }

  datatype Event =
    | SignUp
    | SignIn(user: nat, single: bool, stored: bool)
    | Refreshed(hash: nat, single: bool, stored: bool)
    | LoggedOut(hash: nat, everywhere: bool)
    | RevokedAll(user: nat)
    | UserDeleted(user: nat, tokensToo: bool)
    | Ticked(seconds: nat)

  function Step(s: Auth, e: Event): Auth {
    match e
    case SignUp => s.(users := s.users + {s.nextUser}, nextUser := s.nextUser + 1)
    case SignIn(user, single, stored) => if user in s.users then Issue(s, user, None, single, stored).0 else s
    case Refreshed(hash, single, stored) => Refresh(s, hash, single, stored).0
    case LoggedOut(hash, everywhere) => Logout(s, hash, everywhere)
    case RevokedAll(user) => RevokeUser(s, user)
    case UserDeleted(user, tokensToo) =>
      s.(users := s.users - {user},
         tokens := if tokensToo then map h | h in s.tokens && s.tokens[h].user != user :: s.tokens[h] else s.tokens)
    case Ticked(n) => s.(now := s.now + n)
  }

  // ----- the invariant -----

  ghost predicate Fresh(s: Auth) {
    && (forall u :: u in s.users ==> u < s.nextUser)
    && (forall h :: h in s.tokens ==> h < s.nextToken && s.tokens[h].user < s.nextUser && s.tokens[h].family < s.nextFamily)
  }

  /** A family belongs to one user and has at most one unrevoked token. */
  ghost predicate Families(s: Auth) {
    forall h, k :: h in s.tokens && k in s.tokens && s.tokens[h].family == s.tokens[k].family ==>
      s.tokens[h].user == s.tokens[k].user && (!s.tokens[h].revoked && !s.tokens[k].revoked ==> h == k)
  }

  ghost predicate AuthOk(s: Auth) {
    Fresh(s) && Families(s)
  }

  predicate OnlyRevoked(before: Token, after: Token) {
    after == before.(revoked := after.revoked) && (before.revoked ==> after.revoked)
  }

  /** `t` has no token that `s` does not have, and none that lost its revocation. */
  ghost predicate OnlyRevokes(s: Auth, t: Auth) {
    && t == s.(tokens := t.tokens)
    && forall h :: h in t.tokens ==> h in s.tokens && OnlyRevoked(s.tokens[h], t.tokens[h])
  }

  lemma RevokesOnly(s: Auth, which: Token -> bool, hash: nat)
    ensures OnlyRevokes(s, Revoke(s, which)) && OnlyRevokes(s, RevokeToken(s, hash))
  {
  }

  lemma RevokingKeepsOk(s: Auth, t: Auth)
    requires AuthOk(s) && OnlyRevokes(s, t)
    ensures AuthOk(t)
  {
    forall h, k | h in t.tokens && k in t.tokens && t.tokens[h].family == t.tokens[k].family
      ensures t.tokens[h].user == t.tokens[k].user && (!t.tokens[h].revoked && !t.tokens[k].revoked ==> h == k) {
      assert s.tokens[h].family == s.tokens[k].family;
    }
  }

  /** The tokens of `family` belong to `user`, and none is unrevoked. */
  ghost predicate Spent(s: Auth, family: nat, user: nat) {
    forall h :: h in s.tokens && s.tokens[h].family == family ==> s.tokens[h].revoked && s.tokens[h].user == user
  }

  lemma InsertKeepsOk(s: Auth, token: Token)
    requires AuthOk(s) && token.user < s.nextUser && Spent(s, token.family, token.user)
    ensures AuthOk(s.(tokens := s.tokens[s.nextToken := token], nextToken := s.nextToken + 1,
                      nextFamily := if token.family < s.nextFamily then s.nextFamily else token.family + 1))
  {
  }

  lemma FreshFamilyIsSpent(s: Auth, user: nat)
    requires Fresh(s)
    ensures Spent(s, s.nextFamily, user)
  {
  }

  lemma SpentSurvives(s: Auth, t: Auth, family: nat, user: nat)
    requires OnlyRevokes(s, t) && Spent(s, family, user)
    ensures Spent(t, family, user)
  {
  }

  lemma IssueKeepsOk(s: Auth, user: nat, family: Option<nat>, single: bool, stored: bool)
    requires AuthOk(s) && user < s.nextUser
    requires family.Some? ==> family.value < s.nextFamily && Spent(s, family.value, user)
    ensures AuthOk(Issue(s, user, family, single, stored).0)
  {
    hide Families, Spent, Fresh, Revoke;
    RevokesOnly(s, (t: Token) => t.user == user, 0);
    var t := if single then RevokeUser(s, user) else s;
    if single {
      RevokingKeepsOk(s, t);
      if family.Some? { SpentSurvives(s, t, family.value, user); }
    }
    FreshFamilyIsSpent(t, user);
    InsertKeepsOk(t, Token(user, if family.Some? then family.value else t.nextFamily, false, t.now + MONTH));
  }

  lemma RotatedIsSpent(s: Auth, hash: nat)
    requires AuthOk(s) && hash in s.tokens && !s.tokens[hash].revoked
    ensures Spent(RevokeToken(s, hash), s.tokens[hash].family, s.tokens[hash].user)
    ensures s.tokens[hash].user < s.nextUser && s.tokens[hash].family < s.nextFamily
  {
  }

  lemma RefreshKeepsOk(s: Auth, hash: nat, single: bool, stored: bool)
    requires AuthOk(s)
    ensures AuthOk(Refresh(s, hash, single, stored).0)
  {
    hide AuthOk, Issue, Revoke, Spent, RevokeToken;
    if hash in s.tokens && s.tokens[hash].user in s.users {
      var t := s.tokens[hash];
      RevokesOnly(s, (u: Token) => u.family == t.family, hash);
      if t.revoked {
        RevokingKeepsOk(s, RevokeFamily(s, t.family));
      } else if t.expiresAt > s.now {
        RotatedIsSpent(s, hash);
        RevokingKeepsOk(s, RevokeToken(s, hash));
        IssueKeepsOk(RevokeToken(s, hash), t.user, Some(t.family), single, stored);
      }
    }
  }

  lemma UserIsKnown(s: Auth, user: nat)
    requires AuthOk(s) && user in s.users
    ensures user < s.nextUser
  {
  }

  lemma StepKeepsOk(s: Auth, e: Event)
    requires AuthOk(s)
    ensures AuthOk(Step(s, e))
  {
    hide Issue, Refresh, Revoke, Fresh, Families, RevokeToken;
    match e
    case SignUp => SimpleKeepsOk(s, e);
    case SignIn(user, single, stored) =>
      if user in s.users {
        UserIsKnown(s, user);
        IssueKeepsOk(s, user, None, single, stored);
      }
    case Refreshed(hash, single, stored) => RefreshKeepsOk(s, hash, single, stored);
    case LoggedOut(hash, everywhere) =>
      LogoutRevokes(s, hash, everywhere);
      RevokingKeepsOk(s, Logout(s, hash, everywhere));
    case RevokedAll(user) =>
      RevokesOnly(s, (t: Token) => t.user == user, 0);
      RevokingKeepsOk(s, RevokeUser(s, user));
    case UserDeleted(user, tokensToo) => SimpleKeepsOk(s, e);
    case Ticked(n) => SimpleKeepsOk(s, e);
  }

  lemma LogoutRevokes(s: Auth, hash: nat, everywhere: bool)
    ensures OnlyRevokes(s, Logout(s, hash, everywhere))
  {
  }

  lemma SimpleKeepsOk(s: Auth, e: Event)
    requires AuthOk(s) && (e.SignUp? || e.UserDeleted? || e.Ticked?)
    ensures AuthOk(Step(s, e))
  {
    var t := Step(s, e);
    forall h, k | h in t.tokens && k in t.tokens && t.tokens[h].family == t.tokens[k].family
      ensures t.tokens[h].user == t.tokens[k].user && (!t.tokens[h].revoked && !t.tokens[k].revoked ==> h == k) {
      assert s.tokens[h].family == s.tokens[k].family;
    }
  }

  // ----- dead families -----

  ghost predicate AllRevoked(s: Auth, family: nat) {
    family < s.nextFamily && forall h :: h in s.tokens && s.tokens[h].family == family ==> s.tokens[h].revoked
  }

  ghost predicate OwnersGone(s: Auth, family: nat) {
    && family < s.nextFamily && Fresh(s)
    && forall h :: h in s.tokens && s.tokens[h].family == family ==> s.tokens[h].user !in s.users
  }

  /** Tokens keep their family, their owner and their expiry, and stay revoked. */
  ghost predicate Keeps(s: Auth, t: Auth) {
    && t.nextFamily >= s.nextFamily && t.nextToken >= s.nextToken
    && forall h :: h in t.tokens && h in s.tokens && h < s.nextToken ==>
        && t.tokens[h].family == s.tokens[h].family && t.tokens[h].user == s.tokens[h].user
        && t.tokens[h].expiresAt == s.tokens[h].expiresAt && (s.tokens[h].revoked ==> t.tokens[h].revoked)
  }

  predicate Exchangeable(s: Auth, token: Token) {
    !token.revoked && token.user in s.users
  }

  /** A new token belongs to a fresh family, or to that of an unrevoked token just exchanged. */
  ghost predicate MayAdd(s: Auth, e: Event, token: Token) {
    || token.family >= s.nextFamily
    || (e.Refreshed? && e.hash in s.tokens && Exchangeable(s, s.tokens[e.hash]) && s.tokens[e.hash].family == token.family)
  }

  lemma IssueAdds(s: Auth, user: nat, family: Option<nat>, single: bool, stored: bool)
    ensures var t := Issue(s, user, family, single, stored).0;
      && Keeps(s, t) && t.users == s.users
      && forall h :: h in t.tokens && h !in s.tokens ==>
           h == s.nextToken && t.tokens[h].family == if family.Some? then family.value else s.nextFamily
  {
  }

  lemma RefreshAdds(s: Auth, hash: nat, single: bool, stored: bool)
    requires Fresh(s)
    ensures var t := Refresh(s, hash, single, stored).0;
      && Keeps(s, t) && t.users == s.users
      && forall h :: h in t.tokens && h !in s.tokens ==> MayAdd(s, Refreshed(hash, single, stored), t.tokens[h])
  {
    hide Issue;
    if hash in s.tokens && s.tokens[hash].user in s.users && !s.tokens[hash].revoked && s.tokens[hash].expiresAt > s.now {
      IssueAdds(RevokeToken(s, hash), s.tokens[hash].user, Some(s.tokens[hash].family), single, stored);
    }
  }

  lemma StepAdds(s: Auth, e: Event)
    requires AuthOk(s)
    ensures var t := Step(s, e);
      && Keeps(s, t)
      && (forall h :: h in t.tokens && h !in s.tokens ==> MayAdd(s, e, t.tokens[h]))
      && (forall u :: u in t.users ==> u in s.users || u >= s.nextUser)
  {
    hide Families, Issue, Refresh;
    match e
    case SignIn(user, single, stored) =>
      if user in s.users { IssueAdds(s, user, None, single, stored); }
    case Refreshed(hash, single, stored) => RefreshAdds(s, hash, single, stored);
    case LoggedOut(hash, everywhere) =>
      LogoutRevokes(s, hash, everywhere);
    case _ =>
  }

  /** A family whose tokens are all revoked, or whose owner was deleted, stays so. */
  lemma DeadStaysDead(s: Auth, e: Event, family: nat)
    requires AuthOk(s)
    ensures AllRevoked(s, family) ==> AllRevoked(Step(s, e), family)
    ensures OwnersGone(s, family) ==> OwnersGone(Step(s, e), family)
  {
    hide Step;
    StepAdds(s, e);
    StepKeepsOk(s, e);
  }

  lemma DeadMintsNothing(s: Auth, family: nat, hash: nat, single: bool, stored: bool)
    requires AllRevoked(s, family) || OwnersGone(s, family)
    requires hash in s.tokens && s.tokens[hash].family == family
    ensures Refresh(s, hash, single, stored).1 == Thrown
  {
  }

  // ----- what holds of every run -----

  const EMPTY := Auth(map[], {}, 0, 0, 0, 0)

  ghost function Run(events: seq<Event>): (s: Auth)
    ensures AuthOk(s)
  {
    hide Step;
    if events == [] then EMPTY
    else
      var s := Run(events[..|events| - 1]);
      StepKeepsOk(s, events[|events| - 1]);
      Step(s, events[|events| - 1])
  }

  lemma RunSnoc(events: seq<Event>, e: Event)
    ensures Run(events + [e]) == Step(Run(events), e)
  {
    hide Step;
    assert (events + [e])[..|events|] == events;
  }

  /** At most one unrevoked token in every family. */
  lemma OneLiveTokenPerFamily(events: seq<Event>, h: nat, k: nat)
    requires var s := Run(events); h in s.tokens && k in s.tokens && !s.tokens[h].revoked && !s.tokens[k].revoked
    ensures var s := Run(events); s.tokens[h].family == s.tokens[k].family ==> h == k
  {
    hide Run;
  }

  /** A family without a live token never gets one again, whatever happens. */
  lemma {:induction false} DeadForever(before: seq<Event>, after: seq<Event>, family: nat)
    ensures AllRevoked(Run(before), family) ==> AllRevoked(Run(before + after), family)
    ensures OwnersGone(Run(before), family) ==> OwnersGone(Run(before + after), family)
    decreases |after|
  {
    hide Run, Step, AllRevoked, OwnersGone;
    if after == [] {
      assert before + after == before;
    } else {
      var n := |after| - 1;
      DeadForever(before, after[..n], family);
      assert before + after == before + after[..n] + [after[n]];
      RunSnoc(before + after[..n], after[n]);
      DeadStaysDead(Run(before + after[..n]), after[n], family);
    }
  }

  /** Presenting a revoked token kills its family. */
  lemma ReplayKills(s: Auth, hash: nat, single: bool, stored: bool)
    requires AuthOk(s) && hash in s.tokens && s.tokens[hash].revoked
    ensures var t := Refresh(s, hash, single, stored).0;
      AllRevoked(t, s.tokens[hash].family) || OwnersGone(t, s.tokens[hash].family)
  {
  }

  /** After a replay of a used token, no token of that lineage ever mints again: not those that existed,
      and none appears later that could. */
  lemma ReplayEndsLineage(before: seq<Event>, hash: nat, single: bool, stored: bool, after: seq<Event>,
                          hash': nat, single': bool, stored': bool)
    requires var s := Run(before); hash in s.tokens && s.tokens[hash].revoked
    requires var u := Run(before + [Refreshed(hash, single, stored)] + after);
      hash' in u.tokens && u.tokens[hash'].family == Run(before).tokens[hash].family
    ensures Refresh(Run(before + [Refreshed(hash, single, stored)] + after), hash', single', stored').1 == Thrown
  {
    hide Run, AllRevoked, OwnersGone, Refresh;
    var e := Refreshed(hash, single, stored);
    var family := Run(before).tokens[hash].family;
    ReplayKills(Run(before), hash, single, stored);
    RunSnoc(before, e);
    DeadForever(before + [e], after, family);
    DeadMintsNothing(Run(before + [e] + after), family, hash', single', stored');
  }

  /** A revoked token stays revoked as long as it exists. */
  lemma {:induction false} RevokedForever(before: seq<Event>, after: seq<Event>, hash: nat)
    requires var s := Run(before); hash in s.tokens && s.tokens[hash].revoked
    ensures var t := Run(before + after); hash < t.nextToken && (hash in t.tokens ==>
        t.tokens[hash].revoked && t.tokens[hash].family == Run(before).tokens[hash].family)
    decreases |after|
  {
    hide Run, Step, Families;
    if after == [] {
      assert before + after == before;
    } else {
      var n := |after| - 1;
      RevokedForever(before, after[..n], hash);
      assert before + after == before + after[..n] + [after[n]];
      RunSnoc(before + after[..n], after[n]);
      StepAdds(Run(before + after[..n]), after[n]);
      if hash !in Run(before + after[..n]).tokens { NoReturn(Run(before + after[..n]), after[n], hash); }
    }
  }

  /** A hash once issued is never issued again. */
  lemma NoReturn(s: Auth, e: Event, hash: nat)
    requires AuthOk(s) && hash < s.nextToken && hash !in s.tokens
    ensures hash !in Step(s, e).tokens
  {
  }

  /** A token that was exchanged is revoked from then on. */
  lemma UsedIsRevoked(s: Auth, hash: nat, single: bool)
    requires AuthOk(s) && Refresh(s, hash, single, true).1.Ok?
    ensures var t := Refresh(s, hash, single, true).0;
      && hash in t.tokens && t.tokens[hash].revoked
      && t.tokens[Refresh(s, hash, single, true).1.value] == Token(s.tokens[hash].user, s.tokens[hash].family, false, s.now + MONTH)
  {
  }

  /** If the new token cannot be stored, the session is over: its family has no live token left. */
  lemma FailedRotationEndsSession(s: Auth, hash: nat, single: bool)
    requires AuthOk(s) && hash in s.tokens && s.tokens[hash].user in s.users && !s.tokens[hash].revoked && s.tokens[hash].expiresAt > s.now
    ensures Refresh(s, hash, single, false).1 == Thrown && AllRevoked(Refresh(s, hash, single, false).0, s.tokens[hash].family)
  {
  }

  /** Signing out ends the session of the token presented, or every session of its owner; no other token
      changes, and an unknown token changes nothing. */
  lemma LogoutEndsSessions(s: Auth, hash: nat, everywhere: bool, h: nat)
    requires h in s.tokens
    ensures var t := Logout(s, hash, everywhere);
      var ended := hash in s.tokens && (h == hash || (everywhere && s.tokens[h].user == s.tokens[hash].user));
      && h in t.tokens
      && t.tokens[h] == (if ended then s.tokens[h].(revoked := true) else s.tokens[h])
  {
  }

  /** After signing out everywhere none of the owner's tokens can be exchanged. */
  lemma NothingMintsAfterLogout(s: Auth, hash: nat, h: nat, single: bool, stored: bool)
    requires hash in s.tokens && h in s.tokens && s.tokens[h].user == s.tokens[hash].user
    ensures Refresh(Logout(s, hash, true), h, single, stored).1 == Thrown
  {
    hide Logout, Issue;
    LogoutEndsSessions(s, hash, true, h);
  }

  // ----- exactly what each operation does -----

  /** In every run a token is exchanged if and only if it is known and its owner exists, it was not revoked,
      it has not expired, and the new token can be stored. */
  lemma ExchangedExactly(events: seq<Event>, hash: nat, single: bool, stored: bool)
    ensures var s := Run(events);
      Refresh(s, hash, single, stored).1.Ok? <==>
      && hash in s.tokens && s.tokens[hash].user in s.users
      && !s.tokens[hash].revoked && s.now < s.tokens[hash].expiresAt
      && stored
  {
    hide Run;
  }

  /** Issuing adds one token, for thirty days, under a hash not given before; it revokes the other tokens of
      the user in single-session mode and changes nothing else. */
  lemma IssuedExactly(s: Auth, user: nat, family: Option<nat>, single: bool, stored: bool)
    requires Fresh(s)
    ensures var (t, r) := Issue(s, user, family, single, stored);
      && (r.Ok? <==> stored) && t.users == s.users && t.now == s.now
      && t.tokens.Keys == s.tokens.Keys + (if stored then {s.nextToken} else {})
      && (forall h :: h in s.tokens ==>
            t.tokens[h] == if single && s.tokens[h].user == user then s.tokens[h].(revoked := true) else s.tokens[h])
      && (stored ==> r.value == s.nextToken && r.value !in s.tokens && var token := t.tokens[r.value];
            && token.user == user && !token.revoked && token.expiresAt == s.now + 2_592_000
            && (family.Some? ==> token.family == family.value)
            && (family.None? ==> forall h :: h in s.tokens ==> s.tokens[h].family != token.family))
  {
  }

  /** What an attempt to exchange a token does to every token there was: a replay revokes the family, an
      exchange the token itself and in single-session mode the other tokens of its owner, and a token that is
      unknown or has expired changes nothing. */
  lemma RefreshedExactly(s: Auth, hash: nat, single: bool, stored: bool, h: nat)
    requires Fresh(s) && h in s.tokens
    ensures var (t, r) := Refresh(s, hash, single, stored);
      var known := hash in s.tokens && s.tokens[hash].user in s.users;
      var replayed := known && s.tokens[hash].revoked;
      var exchanged := known && !s.tokens[hash].revoked && s.now < s.tokens[hash].expiresAt;
      && t.users == s.users && t.now == s.now
      && t.tokens.Keys == s.tokens.Keys + (if exchanged && stored then {s.nextToken} else {})
      && t.tokens[h] ==
           (if replayed && s.tokens[h].family == s.tokens[hash].family then s.tokens[h].(revoked := true)
            else if exchanged && (h == hash || (single && s.tokens[h].user == s.tokens[hash].user)) then s.tokens[h].(revoked := true)
            else s.tokens[h])
  {
    hide Issue, Fresh;
    if hash in s.tokens {
      var u := RevokeToken(s, hash);
      FreshAfterRevoke(s, hash);
      IssuedExactly(u, s.tokens[hash].user, Some(s.tokens[hash].family), single, stored);
    }
  }

  lemma FreshAfterRevoke(s: Auth, hash: nat)
    requires Fresh(s)
    ensures Fresh(RevokeToken(s, hash)) && RevokeToken(s, hash).tokens.Keys == s.tokens.Keys
  {
  }

  /** A token keeps owner, family and expiry as long as it exists. */
  lemma {:induction false} KeptForever(before: seq<Event>, after: seq<Event>, hash: nat)
    requires hash in Run(before).tokens
    ensures var s, t := Run(before), Run(before + after);
      && hash < t.nextToken && t.now >= s.now
      && (hash in t.tokens ==>
            t.tokens[hash].expiresAt == s.tokens[hash].expiresAt && t.tokens[hash].user == s.tokens[hash].user)
    decreases |after|
  {
    hide Run, Step, Families;
    if after == [] {
      assert before + after == before;
    } else {
      var n := |after| - 1;
      KeptForever(before, after[..n], hash);
      assert before + after == before + after[..n] + [after[n]];
      RunSnoc(before + after[..n], after[n]);
      StepAdds(Run(before + after[..n]), after[n]);
      ClockAdvances(Run(before + after[..n]), after[n]);
      if hash !in Run(before + after[..n]).tokens { NoReturn(Run(before + after[..n]), after[n], hash); }
    }
  }

  lemma ClockAdvances(s: Auth, e: Event)
    ensures Step(s, e).now == s.now + if e.Ticked? then e.seconds else 0
  {
  }

  /** A sign-in gives a token that lives for thirty days: whatever happens in between, it can be exchanged
      only within that time, for its user, and for exactly as long as it is not revoked. */
  lemma ThirtyDays(before: seq<Event>, user: nat, single: bool, after: seq<Event>, single': bool)
    requires user in Run(before).users
    ensures var s, t := Run(before), Run(before + [SignIn(user, single, true)] + after);
      s.nextToken in t.tokens ==>
        && t.tokens[s.nextToken].user == user
        && (Refresh(t, s.nextToken, single', true).1.Ok? <==>
              user in t.users && !t.tokens[s.nextToken].revoked && t.now < s.now + 2_592_000)
  {
    hide Run, Step, Issue, Refresh, Fresh, Families;
    var s, e := Run(before), SignIn(user, single, true);
    RunSnoc(before, e);
    SignInIssues(s, user, single);
    assert AuthOk(s);
    IssuedExactly(s, user, None, single, true);
    KeptForever(before + [e], after, s.nextToken);
    ExchangedExactly(before + [e] + after, s.nextToken, single', true);
  }

  lemma SignInIssues(s: Auth, user: nat, single: bool)
    requires user in s.users
    ensures Step(s, SignIn(user, single, true)) == Issue(s, user, None, single, true).0
  {
    hide Issue;
  }

  // ----- single-session mode -----

  predicate AlwaysSingle(events: seq<Event>) {
    forall i :: 0 <= i < |events| ==> (events[i].SignIn? || events[i].Refreshed? ==> events[i].single)
  }

  ghost predicate OneLivePerUser(s: Auth) {
    forall h, k :: h in s.tokens && k in s.tokens && s.tokens[h].user == s.tokens[k].user ==>
      !s.tokens[h].revoked && !s.tokens[k].revoked ==> h == k
  }

  lemma IssueIsSingle(s: Auth, user: nat, family: Option<nat>, stored: bool)
    requires OneLivePerUser(s) && Fresh(s)
    ensures OneLivePerUser(Issue(s, user, family, true, stored).0)
  {
  }

  lemma RevokingIsSingle(s: Auth, t: Auth)
    requires OneLivePerUser(s) && OnlyRevokes(s, t)
    ensures OneLivePerUser(t)
  {
  }

  lemma RefreshIsSingle(s: Auth, hash: nat, stored: bool)
    requires OneLivePerUser(s) && Fresh(s)
    ensures OneLivePerUser(Refresh(s, hash, true, stored).0)
  {
    hide OneLivePerUser, Issue, Revoke, RevokeToken;
    if hash in s.tokens {
      var t := s.tokens[hash];
      RevokesOnly(s, (u: Token) => u.family == t.family, hash);
      RevokingIsSingle(s, RevokeFamily(s, t.family));
      RevokingIsSingle(s, RevokeToken(s, hash));
      IssueIsSingle(RevokeToken(s, hash), t.user, Some(t.family), stored);
    }
  }

  lemma StepIsSingle(s: Auth, e: Event)
    requires AuthOk(s) && OneLivePerUser(s) && (e.SignIn? || e.Refreshed? ==> e.single)
    ensures OneLivePerUser(Step(s, e))
  {
    hide Issue, Refresh, Families, Revoke, Logout;
    match e
    case SignIn(user, single, stored) => IssueIsSingle(s, user, None, stored);
    case Refreshed(hash, single, stored) => RefreshIsSingle(s, hash, stored);
    case LoggedOut(hash, everywhere) =>
      LogoutRevokes(s, hash, everywhere);
      RevokingIsSingle(s, Logout(s, hash, everywhere));
    case RevokedAll(user) =>
      RevokesOnly(s, (t: Token) => t.user == user, 0);
      RevokingIsSingle(s, RevokeUser(s, user));
    case _ =>
  }

  /** With single-session mode always on, nobody ever has two live tokens. */
  lemma {:induction false} SingleSession(events: seq<Event>)
    requires AlwaysSingle(events)
    ensures OneLivePerUser(Run(events))
  {
    hide Step;
    if events != [] {
      var n := |events| - 1;
      SingleSession(events[..n]);
      hide OneLivePerUser;
      StepIsSingle(Run(events[..n]), events[n]);
    }
  }

  // ----- the handlers -----

  class TokenStore {
    var tokens: map<nat, Token>
    var users: set<nat>
    var nextToken: nat
    var nextUser: nat
    var nextFamily: nat

    ghost function State(now: int): Auth
      reads this
    {
      Auth(tokens, users, nextToken, nextUser, nextFamily, now)
    }

    constructor ()
      ensures State(0) == EMPTY
    {
      tokens, users, nextToken, nextUser, nextFamily := map[], {}, 0, 0, 0;
    }

    method RevokeUserTokens(user: nat, now: int)
      modifies this`tokens
      ensures State(now) == RevokeUser(old(State(now)), user)
    {
      tokens := map h | h in tokens :: if tokens[h].user == user then tokens[h].(revoked := true) else tokens[h];
    }

    method RevokeFamilyTokens(family: nat, now: int)
      modifies this`tokens
      ensures State(now) == RevokeFamily(old(State(now)), family)
    {
      tokens := map h | h in tokens :: if tokens[h].family == family then tokens[h].(revoked := true) else tokens[h];
    }

    method IssueTokens(user: nat, family: Option<nat>, single: bool, stored: bool, now: int) returns (r: Result<nat>)
      modifies this
      ensures (State(now), r) == Issue(old(State(now)), user, family, single, stored)
      ensures r.Ok? <==> stored
    {
      if single {
        RevokeUserTokens(user, now);
      }
      var hash := nextToken;
      if !stored {
        return Thrown;
      }
      nextToken := nextToken + 1;
      if family.None? {
        tokens := tokens[hash := Token(user, nextFamily, false, now + MONTH)];
        nextFamily := nextFamily + 1;
      } else {
        tokens := tokens[hash := Token(user, family.value, false, now + MONTH)];
      }
      return Ok(hash);
    }

    method HandleRefresh(hash: nat, single: bool, stored: bool, now: int) returns (r: Result<nat>)
      modifies this
      ensures (State(now), r) == Refresh(old(State(now)), hash, single, stored)
      ensures r.Ok? <==>
        && stored && hash in old(tokens) && old(tokens)[hash].user in old(users)
        && !old(tokens)[hash].revoked && now < old(tokens)[hash].expiresAt
    {
      hide Issue;
      if hash !in tokens || tokens[hash].user !in users {
        return Thrown;
      }
      var t := tokens[hash];
      if t.revoked {
        RevokeFamilyTokens(t.family, now);
        return Thrown;
      }
      if t.expiresAt <= now {
        return Thrown;
      }
      tokens := tokens[hash := t.(revoked := true)];
      r := IssueTokens(t.user, Some(t.family), single, stored, now);
    }

    method LogoutToken(hash: nat, everywhere: bool, now: int)
      modifies this
      ensures State(now) == Logout(old(State(now)), hash, everywhere)
    {
      if everywhere {
        if hash in tokens {
          RevokeUserTokens(tokens[hash].user, now);
        }
      } else if hash in tokens {
        tokens := tokens[hash := tokens[hash].(revoked := true)];
      }
    }
  }
}
