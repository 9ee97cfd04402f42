/**
 * What a refresh, a logout, a revocation and a login come to (src/lib/authSessions.ts), over the steps of
 * `RefreshTokens`: why a refresh is refused, what it finds when nothing interferes, and which records change.
 */
module RefreshAnswers {
  import opened Aead
  import opened RefreshTokens

  // ---------------------------------------------------------------- why a refresh is refused

  /** The presented token is unknown, is another user's or another device's, or has expired without being revoked. */
  predicate StartRefused(s: State, claims: Claims) {
    || claims.tokenId !in s.table
    || s.table[claims.tokenId].userId != claims.sub
    || (s.table[claims.tokenId].deviceId.Some? && claims.did.Some? && s.table[claims.tokenId].deviceId != claims.did)
    || (s.table[claims.tokenId].revokedAt.None? && s.table[claims.tokenId].expiresAt <= s.now)
  }

  /**
   * The walk has followed 16 replacements, or is at a record that has expired or was revoked without being replaced.
   */
  predicate WalkRefused(s: State, req: Id) {
    && req in s.refreshes && s.refreshes[req].pc.Walk?
    && var t, hop := s.refreshes[req].tokenId, s.refreshes[req].pc.hop;
       && Chain(s.table, t, hop).Some?
       && var r := s.table[Chain(s.table, t, hop).value];
          || hop == 16
          || r.expiresAt <= s.now
          || (r.revokedAt.Some? && (r.reason != Some(Rotated) || r.replacedBy.None?))
  }

  /** A first read refuses exactly for these reasons; it follows a revoked token, and goes on to rotate one in use. */
  lemma StartAnswers(s: State, a: Action)
    requires a.Start? && Enabled(s, a)
    ensures var pc := Apply(s, a).refreshes[a.req].pc;
            && (pc.Rejected? <==> StartRefused(s, a.claims))
            && (!StartRefused(s, a.claims) ==>
                  var r := s.table[a.claims.tokenId];
                  if r.revokedAt.Some? then pc == Walk(Some(r), 0)
                  else if r.expiresAt <= a.later then pc == Issued(r, false)
                  else pc.Commit?)
  {
  }

  /** The record that will replace the presented one: bound as it is, and otherwise as the request says. */
  lemma NextIsBound(s: State, a: Action)
    requires a.Start? && Enabled(s, a) && Apply(s, a).refreshes[a.req].pc.Commit?
    ensures var r, next := s.table[a.claims.tokenId], Apply(s, a).refreshes[a.req].pc.next;
            && next.token == a.token && next.userId == r.userId
            && next.sessionId == Some(if r.sessionId.Some? then r.sessionId.value else a.session)
            && next.deviceId
                == (if r.deviceId.Some? then r.deviceId else if a.claims.did.Some? then a.claims.did else a.device)
            && next.expiresAt == a.later + s.lifetime
            && next.revokedAt.None? && next.replacedBy.None? && next.reason.None?
  {
  }

  predicate Refused(s: State, q: Id) {
    q in s.refreshes && s.refreshes[q].pc.Rejected?
  }

  /** The step refuses that refresh, and there is a cause for it in the table. */
  predicate RefusedFor(s: State, a: Action, q: Id) {
    || (a.Start? && a.req == q && StartRefused(s, a.claims))
    || (a == Hop(q) && WalkRefused(s, q))
  }

  lemma RefusalIsCaused(s: State, a: Action, earlier: set<Id>, q: Id)
    requires FullInv(s, earlier) && Enabled(s, a) && !Refused(s, q) && Refused(Apply(s, a), q)
    ensures RefusedFor(s, a, q)
  {
    if a == Hop(q) {
      RefusalHasCause(s, earlier, q);
    } else if a.Start? && a.req == q {
      StartAnswers(s, a);
    } else {
      OthersDoNotRefuse(s, a, q);
    }
  }

  lemma OthersDoNotRefuse(s: State, a: Action, q: Id)
    requires Enabled(s, a) && a != Hop(q) && !(a.Start? && a.req == q) && !Refused(s, q)
    ensures !Refused(Apply(s, a), q)
  {
  }

  /** In every run, a refresh that has been refused was refused by a step that had a cause in the table. */
  lemma {:induction false} EveryRefusalHasCause(states: seq<State>, earlier: set<Id>, i: nat, q: Id)
    returns (k: nat, a: Action)
    requires Run(states) && FullInv(states[0], earlier) && i < |states|
    requires !Refused(states[0], q) && Refused(states[i], q)
    ensures k < i && Enabled(states[k], a) && Apply(states[k], a) == states[k + 1]
    ensures !Refused(states[k], q) && RefusedFor(states[k], a, q)
  {
    if Refused(states[i - 1], q) {
      k, a := EveryRefusalHasCause(states, earlier, i - 1, q);
    } else {
      k := i - 1;
      RunKeepsAll(states, earlier, k);
      a := ActionTo(states, earlier, i);
      RefusalIsCaused(states[k], a, earlier, q);
    }
  }

  // ---------------------------------------------------------------- what it finds, undisturbed

  function RoundsLeft(pc: Pc): nat {
    if !pc.Walk? then 0 else if pc.hop < 16 then 17 - pc.hop else 1
  }

  /** The walk of one refresh to its end, with no other step in between. */
  function WalkOn(s: State, req: Id): (end: State)
    requires req in s.refreshes
    ensures req in end.refreshes && !end.refreshes[req].pc.Walk?
    decreases RoundsLeft(s.refreshes[req].pc)
  {
    if s.refreshes[req].pc.Walk? then WalkOn(Apply(s, Hop(req)), req) else s
  }

  /** The answer for a token whose chain of replacements ends in `tail`, so many links away. */
  function TailAnswer(table: Table, tail: (Id, nat), now: int): Pc
    requires tail.0 in table
  {
    var r := table[tail.0];
    if tail.1 <= 15 && r.revokedAt.None? && now < r.expiresAt then Issued(r, false) else Rejected
  }

  lemma {:induction false} WalkFindsTail(s: State, req: Id)
    requires Filed(s.table, s.born, s.created) && Linked(s.table, s.born)
    requires req in s.refreshes && s.refreshes[req].pc.Walk? && s.refreshes[req].pc.hop <= 16
    requires s.refreshes[req].pc.current.Some?
    requires Lookup(s.table, s.refreshes[req].pc.current.value.token) == s.refreshes[req].pc.current
    ensures var pc := s.refreshes[req].pc;
            var tail := Tail(s.table, s.born, s.created, pc.current.value.token);
            WalkOn(s, req).refreshes[req].pc == TailAnswer(s.table, (tail.0, pc.hop + tail.1), s.now)
    decreases 17 - s.refreshes[req].pc.hop
  {
    var pc := s.refreshes[req].pc;
    if pc.hop < 16 && pc.current.value.Link().Some? {
      var next := Apply(s, Hop(req));
      NextRound(s, req);
      WalkFindsTail(next, req);
    } else {
      LastRound(s, req);
    }
  }

  /** A round in between follows one link. */
  lemma NextRound(s: State, req: Id)
    requires Filed(s.table, s.born, s.created) && Linked(s.table, s.born)
    requires req in s.refreshes && s.refreshes[req].pc.Walk? && s.refreshes[req].pc.hop < 16
    requires s.refreshes[req].pc.current.Some? && s.refreshes[req].pc.current.value.Link().Some?
    requires Lookup(s.table, s.refreshes[req].pc.current.value.token) == s.refreshes[req].pc.current
    ensures var pc := s.refreshes[req].pc;
            var token, link := pc.current.value.token, pc.current.value.Link().value;
            && link in s.table && s.table[link].token == link
            && Apply(s, Hop(req)) == SetPc(s, req, Walk(Some(s.table[link]), pc.hop + 1))
            && Tail(s.table, s.born, s.created, token).0 == Tail(s.table, s.born, s.created, link).0
            && Tail(s.table, s.born, s.created, token).1 == Tail(s.table, s.born, s.created, link).1 + 1
  {
    var r := s.refreshes[req].pc.current.value;
    assert s.table[r.token].replacedBy == r.Link();
  }

  /** At the end of the chain, or after 16 links, the round decides. */
  lemma LastRound(s: State, req: Id)
    requires Filed(s.table, s.born, s.created) && Linked(s.table, s.born)
    requires req in s.refreshes && s.refreshes[req].pc.Walk? && s.refreshes[req].pc.hop <= 16
    requires s.refreshes[req].pc.current.Some?
    requires Lookup(s.table, s.refreshes[req].pc.current.value.token) == s.refreshes[req].pc.current
    requires s.refreshes[req].pc.hop == 16 || s.refreshes[req].pc.current.value.Link().None?
    ensures var pc := s.refreshes[req].pc;
            var tail := Tail(s.table, s.born, s.created, pc.current.value.token);
            WalkOn(s, req).refreshes[req].pc == TailAnswer(s.table, (tail.0, pc.hop + tail.1), s.now)
  {
    var next := Apply(s, Hop(req));
    assert WalkOn(next, req) == next;
  }

  lemma SetTwice(s: State, req: Id, a: Pc, b: Pc)
    requires req in s.refreshes
    ensures SetPc(SetPc(s, req, a), req, b) == SetPc(s, req, b)
  {
    assert s.refreshes[req := s.refreshes[req].(pc := a)][req := s.refreshes[req].(pc := b)]
        == s.refreshes[req := s.refreshes[req].(pc := b)];
  }

  /** A walk changes nothing but where its own refresh is. */
  lemma {:induction false} WalkOnlyMoves(s: State, req: Id)
    requires req in s.refreshes
    ensures WalkOn(s, req) == SetPc(s, req, WalkOn(s, req).refreshes[req].pc)
    decreases RoundsLeft(s.refreshes[req].pc)
  {
    if s.refreshes[req].pc.Walk? {
      var next := Apply(s, Hop(req));
      WalkOnlyMoves(next, req);
      SetTwice(s, req, next.refreshes[req].pc, WalkOn(next, req).refreshes[req].pc);
    }
  }

  /**
   * A token that has been revoked, presented by its user and device: the walk hands out the end of its
   * chain exactly when that is live, not expired and at most 15 replacements away, and refuses otherwise.
   */
  lemma RotatedTokenIsFollowed(s: State, a: Action)
    requires Inv(s) && a.Start? && Enabled(s, a) && !StartRefused(s, a.claims)
    requires s.table[a.claims.tokenId].revokedAt.Some?
    ensures var tail := Tail(s.table, s.born, s.created, a.claims.tokenId);
            WalkOn(Apply(s, a), a.req).refreshes[a.req].pc == TailAnswer(s.table, tail, a.later)
    ensures WalkOn(Apply(s, a), a.req).table == s.table
  {
    StartAnswers(s, a);
    WalkFindsTail(Apply(s, a), a.req);
    WalkOnlyMoves(Apply(s, a), a.req);
  }

  /** A refresh that comes too late to rotate, because the token has been revoked meanwhile, ends in the same way. */
  lemma LoserFollows(s: State, req: Id)
    requires Inv(s) && Enabled(s, DoCommit(req)) && s.refreshes[req].tokenId in s.table
    requires s.table[s.refreshes[req].tokenId].revokedAt.Some?
    ensures var late := Apply(s, DoCommit(req));
            && Enabled(late, DoReread(req)) && late.table == s.table
            && var tail := Tail(s.table, s.born, s.created, s.refreshes[req].tokenId);
               var end := WalkOn(Apply(late, DoReread(req)), req);
               end.refreshes[req].pc == TailAnswer(s.table, tail, s.now) && end.table == s.table
  {
    var late := Apply(s, DoCommit(req));
    WalkFindsTail(Apply(late, DoReread(req)), req);
    WalkOnlyMoves(Apply(late, DoReread(req)), req);
  }

  // ---------------------------------------------------------------- which records change

  /** The record as a revocation leaves it, if it was in use; one revoked earlier keeps its time and reason. */
  function Revoked(r: Record, now: int, reason: Id): Record {
    if r.revokedAt.Some? then r
    else
      Record(r.token, r.userId, r.sessionId, r.deviceId, r.expiresAt, Some(now), r.replacedBy, Some(RevokedBy(reason)))
  }

  /** A login adds one record, bound to its user, device and session, that lives for the lifetime; no other changes. */
  lemma LoginBinds(s: State, a: Action)
    requires a.Create? && Enabled(s, a)
    ensures var after := Apply(s, a).table;
            && after.Keys == s.table.Keys + {a.token}
            && after[a.token]
               == Record(a.token, a.userId, Some(a.session), a.deviceId, s.now + s.lifetime, None, None, None)
            && forall t :: t in s.table ==> after[t] == s.table[t]
  {
  }

  /** A logout of a session revokes the live records of that session and user, and leaves all others as they are. */
  lemma LogoutRevokesItsSession(s: State, req: Id, reason: Id)
    requires Enabled(s, LogoutStep(req, reason)) && s.logouts[req].Found? && s.logouts[req].stored.sessionId.Some?
    ensures var stored, after := s.logouts[req].stored, Apply(s, LogoutStep(req, reason)).table;
            && after.Keys == s.table.Keys
            && forall t :: t in s.table ==>
                 var r := s.table[t];
                 var hit := r.sessionId == stored.sessionId && r.userId == stored.userId;
                 after[t] == if hit then Revoked(r, s.now, reason) else r
    ensures Apply(s, LogoutStep(req, reason)).logouts[req] == LoggedOut
  {
  }

  /** A logout that nothing interferes with: exactly the live records of the presented token's session are revoked. */
  lemma LogoutFromToken(s: State, req: Id, token: Id, reason: Id)
    requires Enabled(s, StartLogout(req, token)) && s.table[token].sessionId.Some?
    ensures var started := Apply(s, StartLogout(req, token));
            && started.table == s.table && Enabled(started, LogoutStep(req, reason))
            && var ended := Apply(started, LogoutStep(req, reason));
               && ended.logouts[req] == LoggedOut
               && ended.table.Keys == s.table.Keys
               && forall t :: t in s.table ==>
                    var r := s.table[t];
                    var hit := r.sessionId == s.table[token].sessionId && r.userId == s.table[token].userId;
                    ended.table[t] == if hit then Revoked(r, s.now, reason) else r
  {
    LogoutRevokesItsSession(Apply(s, StartLogout(req, token)), req, reason);
  }

  /** A device revocation revokes the user's live records that are bound to one of the devices, and no others. */
  lemma DeviceRevocationIsExact(s: State, userId: Id, devices: set<Id>, reason: Id)
    ensures var after := Apply(s, RevokeDevices(userId, devices, reason)).table;
            && after.Keys == s.table.Keys
            && forall t :: t in s.table ==>
                 var r := s.table[t];
                 var hit := r.userId == userId && r.deviceId.Some? && r.deviceId.value in devices;
                 after[t] == if hit then Revoked(r, s.now, reason) else r
  {
  }

  lemma UserRevocationIsExact(s: State, userId: Id, reason: Id)
    ensures var after := Apply(s, RevokeUser(userId, reason)).table;
            && after.Keys == s.table.Keys
            && forall t :: t in s.table ==>
                 after[t] == if s.table[t].userId == userId then Revoked(s.table[t], s.now, reason) else s.table[t]
  {
  }

  /** A logout to its end, with no other step in between. */
  function LogoutOn(s: State, req: Id, reason: Id): State
    requires req in s.logouts
    decreases match s.logouts[req]
              case Found(_) => 19
              case LogoutWalk(_, _, hop) => 1 + if hop < 16 then 17 - hop else 1
              case RevokeTokens(_) => 1
              case LoggedOut => 0
  {
    if s.logouts[req].LoggedOut? then s else LogoutOn(Apply(s, LogoutStep(req, reason)), req, reason)
  }

  /** The state in which a logout has revoked these tokens. */
  function LoggedOutOf(s: State, req: Id, tokens: set<Id>, reason: Id): State {
    s.(table := map t | t in s.table :: if t in tokens then Revoked(s.table[t], s.now, reason) else s.table[t],
       logouts := s.logouts[req := LoggedOut])
  }

  lemma RevokesTokens(s: State, req: Id, tokens: set<Id>, reason: Id)
    requires req in s.logouts && s.logouts[req] == RevokeTokens(tokens)
    ensures LogoutOn(s, req, reason) == LoggedOutOf(s, req, tokens, reason)
  {
    var next := Apply(s, LogoutStep(req, reason));
    assert LogoutOn(next, req, reason) == next;
    assert next.table == LoggedOutOf(s, req, tokens, reason).table;
  }

  function TailTokens(table: Table, tail: (Id, nat), now: int): set<Id>
    requires tail.0 in table
  {
    var r := table[tail.0];
    if tail.1 <= 15 && r.revokedAt.None? && now < r.expiresAt then {r.token} else {}
  }

  lemma SameLogouts(s: State, req: Id, l: LogoutPc, tokens: set<Id>, reason: Id)
    requires req in s.logouts
    ensures LoggedOutOf(s.(logouts := s.logouts[req := l]), req, tokens, reason) == LoggedOutOf(s, req, tokens, reason)
  {
    assert s.logouts[req := l][req := LoggedOut] == s.logouts[req := LoggedOut];
  }

  lemma LegacyEnd(s: State, req: Id, tokens: set<Id>, reason: Id)
    requires req in s.logouts
    ensures LogoutOn(s.(logouts := s.logouts[req := RevokeTokens(tokens)]), req, reason)
         == LoggedOutOf(s, req, tokens, reason)
  {
    RevokesTokens(s.(logouts := s.logouts[req := RevokeTokens(tokens)]), req, tokens, reason);
    SameLogouts(s, req, RevokeTokens(tokens), tokens, reason);
  }

  lemma LogoutOnStep(s: State, req: Id, reason: Id)
    requires req in s.logouts && !s.logouts[req].LoggedOut?
    ensures LogoutOn(s, req, reason) == LogoutOn(Apply(s, LogoutStep(req, reason)), req, reason)
  {
  }

  /** The tokens a logout of a record without a session comes to. */
  ghost function LegacyTokens(table: Table, born: map<Id, nat>, created: nat, l: LogoutPc, now: int): set<Id>
    requires Filed(table, born, created) && Linked(table, born)
    requires l.LogoutWalk? && l.current.Some? && l.current.value.token in table
  {
    var tail := Tail(table, born, created, l.current.value.token);
    {l.stored.token} + TailTokens(table, (tail.0, l.hop + tail.1), now)
  }

  lemma {:induction false} LegacyWalk(s: State, req: Id, reason: Id)
    requires Filed(s.table, s.born, s.created) && Linked(s.table, s.born)
    requires req in s.logouts && s.logouts[req].LogoutWalk? && s.logouts[req].hop <= 16
    requires s.logouts[req].current.Some?
    requires Lookup(s.table, s.logouts[req].current.value.token) == s.logouts[req].current
    ensures LogoutOn(s, req, reason)
         == LoggedOutOf(s, req, LegacyTokens(s.table, s.born, s.created, s.logouts[req], s.now), reason)
    decreases 17 - s.logouts[req].hop
  {
    var l := s.logouts[req];
    var r := l.current.value;
    LogoutOnStep(s, req, reason);
    if l.hop < 16 && r.Link().Some? {
      assert s.table[r.token].replacedBy == r.Link();
      var next := Apply(s, LogoutStep(req, reason));
      LegacyWalk(next, req, reason);
      SameLogouts(s, req, next.logouts[req], LegacyTokens(s.table, s.born, s.created, l, s.now), reason);
    } else {
      LegacyLast(s, req, reason);
      LegacyEnd(s, req, LegacyTokens(s.table, s.born, s.created, l, s.now), reason);
    }
  }

  lemma LegacyLast(s: State, req: Id, reason: Id)
    requires Filed(s.table, s.born, s.created) && Linked(s.table, s.born)
    requires req in s.logouts && s.logouts[req].LogoutWalk? && s.logouts[req].hop <= 16
    requires s.logouts[req].current.Some?
    requires Lookup(s.table, s.logouts[req].current.value.token) == s.logouts[req].current
    requires s.logouts[req].hop == 16 || s.logouts[req].current.value.Link().None?
    ensures var tokens := LegacyTokens(s.table, s.born, s.created, s.logouts[req], s.now);
            Apply(s, LogoutStep(req, reason)) == s.(logouts := s.logouts[req := RevokeTokens(tokens)])
  {
    var l := s.logouts[req];
    var r := l.current.value;
    assert {l.stored.token, r.token} == {l.stored.token} + {r.token};
    assert {l.stored.token} == {l.stored.token} + {};
  }

  /**
   * A logout of a record without a session revokes it and the one that has replaced it, if that can be used; no
   * others.
   */
  lemma LegacyLogoutRevokesBoth(s: State, req: Id, reason: Id)
    requires Inv(s) && req in s.logouts && s.logouts[req].Found? && s.logouts[req].stored.sessionId.None?
    requires Lookup(s.table, s.logouts[req].stored.token) == Some(s.logouts[req].stored)
    ensures var token := s.logouts[req].stored.token;
            var tail := Tail(s.table, s.born, s.created, token);
            LogoutOn(s, req, reason) == LoggedOutOf(s, req, {token} + TailTokens(s.table, tail, s.now), reason)
  {
    var stored := s.logouts[req].stored;
    LogoutOnStep(s, req, reason);
    LegacyWalk(Apply(s, LogoutStep(req, reason)), req, reason);
    SameLogouts(s, req, LogoutWalk(stored, Some(stored), 0),
                {stored.token} + TailTokens(s.table, Tail(s.table, s.born, s.created, stored.token), s.now), reason);
  }
}
