/**
 * Refresh-token rotation (src/lib/authSessions.ts) as a state machine over the token table. Every
 * database statement and every transaction is one step; requests in flight keep a program counter
 * and what they have read, and may be interleaved in any way with each other and with the clock.
 */
module RefreshTokens {
  import opened Aead

  // Identifiers: of tokens, sessions, users, devices and requests. Only their equality matters.
  type Id = nat

  datatype Reason = Rotated | RevokedBy(reason: Id)

  datatype Record = Record(token: Id, userId: Id, sessionId: Option<Id>, deviceId: Option<Id>, expiresAt: int,
                           revokedAt: Option<int>, replacedBy: Option<Id>, reason: Option<Reason>)
  {
    predicate Live() {
      revokedAt.None?
    }

    predicate Expired(now: int) {
      expiresAt <= now
    }

    /** What the walk follows: the replacement of a rotated record. */
    function Link(): Option<Id> {
      if revokedAt.Some? && reason == Some(Rotated) then replacedBy else None
    }
  }

  type Table = map<Id, Record>

  /** The claims of a refresh token that passed signature verification. */
  datatype Claims = Claims(sub: Id, tokenId: Id, did: Option<Id>, sid: Option<Id>)

  /** Where a refresh is. `Walk` holds the loop's `current` and `hop`. */
  datatype Pc =
    | Commit(next: Record)
    | Reread
    | Walk(current: Option<Record>, hop: nat)
    | Issued(record: Record, created: bool)
    | Rejected

  /** `attempted` is history: whether the refresh ever got as far as the rotation transaction. */
  datatype Refresh = Refresh(tokenId: Id, pc: Pc, attempted: bool)

  /** Where a logout is. */
  datatype LogoutPc =
    | Found(stored: Record)
    | LogoutWalk(stored: Record, current: Option<Record>, hop: nat)
    | RevokeTokens(tokens: set<Id>)
    | LoggedOut

  /** `born` numbers the records in the order of their creation; it is history, the code does not keep it. */
  datatype State = State(table: Table, now: int, refreshes: map<Id, Refresh>, logouts: map<Id, LogoutPc>,
                         lifetime: nat, born: map<Id, nat>, created: nat)

  datatype Action =
    | Create(userId: Id, deviceId: Option<Id>, token: Id, session: Id)
    | Start(req: Id, claims: Claims, device: Option<Id>, token: Id, session: Id, later: int)
    | DoCommit(req: Id)
    | DoReread(req: Id)
    | Hop(req: Id)
    | StartLogout(req: Id, tokenId: Id)
    | LogoutStep(req: Id, reason: Id)
    | RevokeDevices(userId: Id, devices: set<Id>, reason: Id)
    | RevokeUser(userId: Id, reason: Id)
    | Tick(later: int)

  const MAX_HOPS := 16

  // ---------------------------------------------------------------- single statements

  /** `updateMany({ where: …, revokedAt: null }, …)` for the rows in `victims`. */
  function RevokeWhere(table: Table, victims: set<Id>, now: int, reason: Id): Table {
    map t | t in table :: if t in victims && table[t].Live()
      then table[t].(revokedAt := Some(now), reason := Some(RevokedBy(reason)))
      else table[t]
  }

  function OfSession(table: Table, userId: Id, sessionId: Id): set<Id> {
    set t | t in table && table[t].userId == userId && table[t].sessionId == Some(sessionId)
  }

  function OfDevices(table: Table, userId: Id, devices: set<Id>): set<Id> {
    set t | t in table && table[t].userId == userId && table[t].deviceId.Some? && table[t].deviceId.value in devices
  }

  function OfUser(table: Table, userId: Id): set<Id> {
    set t | t in table && table[t].userId == userId
  }

  function Or<T>(a: Option<T>, b: Option<T>): Option<T> {
    if a.Some? then a else b
  }

  /** `buildNewRefreshTokenRecord` as a refresh of `stored` calls it. */
  function NextRecord(stored: Record, claims: Claims, device: Option<Id>, token: Id, session: Id,
                      expiresAt: int): Record {
    Record(token, stored.userId, Or(Or(stored.sessionId, claims.sid), Some(session)),
           Or(stored.deviceId, Or(claims.did, device)), expiresAt, None, None, None)
  }

  /** What a refresh does after its first read; `now` and `later` are the clock at the two expiry checks. */
  function AfterRead(stored: Option<Record>, claims: Claims, device: Option<Id>, token: Id, session: Id, now: int,
                     later: int, lifetime: nat): Pc {
    if stored.None? || stored.value.userId != claims.sub then Rejected
    else
      var r := stored.value;
      if r.deviceId.Some? && claims.did.Some? && r.deviceId != claims.did then Rejected
      else if !r.Live() then Walk(stored, 0)
      else if r.Expired(now) then Rejected
      else if r.Expired(later) then Issued(r, false)
      else Commit(NextRecord(r, claims, device, token, session, later + lifetime))
  }

  /** One round of the loop of `resolveActiveRefreshTokenRecord`: a verdict, or the token to read next. */
  datatype Verdict = Found(record: Record) | Nothing | Follow(token: Id)

  function Round(current: Option<Record>, hop: nat, now: int): Verdict {
    if hop >= MAX_HOPS || current.None? then Nothing
    else
      var r := current.value;
      if r.Live() then if r.Expired(now) then Nothing else Verdict.Found(r)
      else if r.Link().None? then Nothing
      else Follow(r.Link().value)
  }

  function Lookup(table: Table, token: Id): Option<Record> {
    if token in table then Some(table[token]) else None
  }

  // ---------------------------------------------------------------- steps

  /** UUIDs: not in the table and not held by a request in flight. */
  predicate FreshToken(s: State, token: Id) {
    && token !in s.table
    && forall r :: r in s.refreshes && s.refreshes[r].pc.Commit? ==> s.refreshes[r].pc.next.token != token
  }

  predicate FreshSession(s: State, session: Id) {
    && (forall t :: t in s.table ==> s.table[t].sessionId != Some(session))
    && (forall r :: r in s.refreshes && s.refreshes[r].pc.Commit? ==> s.refreshes[r].pc.next.sessionId != Some(session))
  }

  /** Tokens are signed by the server from a record, so a session claim is the record's own session. */
  predicate Signed(table: Table, claims: Claims) {
    claims.tokenId in table && claims.sid.Some? ==> table[claims.tokenId].sessionId == claims.sid
  }

  predicate Enabled(s: State, a: Action) {
    match a
    case Create(_, _, token, session) => FreshToken(s, token) && FreshSession(s, session)
    case Start(req, claims, _, token, session, later) =>
      && req !in s.refreshes && later >= s.now && Signed(s.table, claims)
      && FreshToken(s, token) && FreshSession(s, session)
    case DoCommit(req) => req in s.refreshes && s.refreshes[req].pc.Commit?
    case DoReread(req) => req in s.refreshes && s.refreshes[req].pc.Reread?
    case Hop(req) => req in s.refreshes && s.refreshes[req].pc.Walk?
    case StartLogout(req, tokenId) => req !in s.logouts && tokenId in s.table
    case LogoutStep(req, _) => req in s.logouts && !s.logouts[req].LoggedOut?
    case RevokeDevices(_, _, _) => true
    case RevokeUser(_, _) => true
    case Tick(later) => later >= s.now
  }

  function Insert(s: State, r: Record): State {
    s.(table := s.table[r.token := r], born := s.born[r.token := s.created], created := s.created + 1)
  }

  function SetPc(s: State, req: Id, pc: Pc): State
    requires req in s.refreshes
  {
    s.(refreshes := s.refreshes[req := s.refreshes[req].(pc := pc)])
  }

  /** The rotation transaction. */
  function CommitStep(s: State, req: Id): State
    requires req in s.refreshes && s.refreshes[req].pc.Commit?
  {
    var t, next := s.refreshes[req].tokenId, s.refreshes[req].pc.next;
    if t in s.table && s.table[t].Live() then
      var rotated := s.table[t].(revokedAt := Some(s.now), replacedBy := Some(next.token), reason := Some(Rotated));
      SetPc(Insert(s.(table := s.table[t := rotated]), next), req, Issued(next, true))
    else
      SetPc(s, req, Reread)
  }

  function HopStep(s: State, req: Id): State
    requires req in s.refreshes && s.refreshes[req].pc.Walk?
  {
    var pc := s.refreshes[req].pc;
    match Round(pc.current, pc.hop, s.now)
    case Found(r) => SetPc(s, req, Issued(r, false))
    case Nothing => SetPc(s, req, Rejected)
    case Follow(t) => SetPc(s, req, Walk(Lookup(s.table, t), pc.hop + 1))
  }

  function LogoutNext(s: State, req: Id, reason: Id): State
    requires req in s.logouts && !s.logouts[req].LoggedOut?
  {
    match s.logouts[req]
    case Found(stored) =>
      if stored.sessionId.Some? then
        s.(table := RevokeWhere(s.table, OfSession(s.table, stored.userId, stored.sessionId.value), s.now, reason),
           logouts := s.logouts[req := LoggedOut])
      else s.(logouts := s.logouts[req := LogoutWalk(stored, Some(stored), 0)])
    case LogoutWalk(stored, current, hop) =>
      (match Round(current, hop, s.now)
       case Found(r) => s.(logouts := s.logouts[req := RevokeTokens({stored.token, r.token})])
       case Nothing => s.(logouts := s.logouts[req := RevokeTokens({stored.token})])
       case Follow(t) => s.(logouts := s.logouts[req := LogoutWalk(stored, Lookup(s.table, t), hop + 1)]))
    case RevokeTokens(tokens) =>
      s.(table := RevokeWhere(s.table, tokens, s.now, reason), logouts := s.logouts[req := LoggedOut])
  }

  function Apply(s: State, a: Action): State
    requires Enabled(s, a)
  {
    match a
    case Create(userId, deviceId, token, session) =>
      Insert(s, Record(token, userId, Some(session), deviceId, s.now + s.lifetime, None, None, None))
    case Start(req, claims, device, token, session, later) =>
      var pc := AfterRead(Lookup(s.table, claims.tokenId), claims, device, token, session, s.now, later, s.lifetime);
      s.(now := later, refreshes := s.refreshes[req := Refresh(claims.tokenId, pc, pc.Commit?)])
    case DoCommit(req) => CommitStep(s, req)
    case DoReread(req) => SetPc(s, req, Walk(Lookup(s.table, s.refreshes[req].tokenId), 0))
    case Hop(req) => HopStep(s, req)
    case StartLogout(req, tokenId) => s.(logouts := s.logouts[req := LogoutPc.Found(s.table[tokenId])])
    case LogoutStep(req, reason) => LogoutNext(s, req, reason)
    case RevokeDevices(userId, devices, reason) =>
      s.(table := RevokeWhere(s.table, OfDevices(s.table, userId, devices), s.now, reason))
    case RevokeUser(userId, reason) => s.(table := RevokeWhere(s.table, OfUser(s.table, userId), s.now, reason))
    case Tick(later) => s.(now := later)
  }

  /** A run: every state is reached from the one before by an enabled action. */
  ghost predicate Run(states: seq<State>) {
    |states| > 0 && forall i :: 0 <= i < |states| - 1 ==> StepAt(states, i)
  }

  ghost predicate StepAt(states: seq<State>, i: int)
    requires 0 <= i < |states| - 1
  {
    Next(states[i], states[i + 1])
  }

  ghost predicate Next(s: State, s': State) {
    exists a :: Enabled(s, a) && Apply(s, a) == s'
  }

  // ---------------------------------------------------------------- what every step does to the table

  predicate SameIdentity(a: Record, b: Record) {
    && a.token == b.token && a.userId == b.userId && a.sessionId == b.sessionId
    && a.deviceId == b.deviceId && a.expiresAt == b.expiresAt
  }

  /** No record is deleted, none changes what it is bound to, and revoked ones do not change at all. */
  ghost predicate Evolves(before: Table, after: Table) {
    forall t :: t in before ==>
      t in after && SameIdentity(before[t], after[t]) && (!before[t].Live() ==> after[t] == before[t])
  }

  lemma StepEvolves(s: State, a: Action)
    requires Enabled(s, a) && Inv(s)
    ensures Evolves(s.table, Apply(s, a).table)
  {
    match a
    case DoCommit(req) => CommitEvolves(s, req);
    case LogoutStep(req, reason) => LogoutEvolves(s, req, reason);
    case RevokeDevices(userId, devices, reason) =>
      RevokeEvolves(s.table, OfDevices(s.table, userId, devices), s.now, reason);
    case RevokeUser(userId, reason) => RevokeEvolves(s.table, OfUser(s.table, userId), s.now, reason);
    case Hop(req) => assert HopStep(s, req).table == s.table;
    case _ =>
  }

  lemma CommitEvolves(s: State, req: Id)
    requires Inv(s) && Pending(s, req)
    ensures Evolves(s.table, CommitStep(s, req).table)
  {
    assert PendingFits(s, req);
  }

  lemma LogoutEvolves(s: State, req: Id, reason: Id)
    requires req in s.logouts && !s.logouts[req].LoggedOut?
    ensures Evolves(s.table, LogoutNext(s, req, reason).table)
  {
    match s.logouts[req]
    case Found(stored) =>
      if stored.sessionId.Some? {
        RevokeEvolves(s.table, OfSession(s.table, stored.userId, stored.sessionId.value), s.now, reason);
      }
    case LogoutWalk(_, _, _) =>
    case RevokeTokens(tokens) => RevokeEvolves(s.table, tokens, s.now, reason);
  }

  lemma RevokeEvolves(table: Table, victims: set<Id>, now: int, reason: Id)
    ensures Evolves(table, RevokeWhere(table, victims, now, reason))
  {
  }

  // ---------------------------------------------------------------- the invariant

  /** A replacement belongs to the same user, and to the same session and device where those were set. */
  predicate Inherits(r: Record, next: Record) {
    && next.userId == r.userId
    && (r.sessionId.Some? ==> next.sessionId == r.sessionId)
    && (r.deviceId.Some? ==> next.deviceId == r.deviceId)
  }

  predicate WellShaped(r: Record) {
    && (r.Live() ==> r.reason.None?)
    && (r.replacedBy.Some? <==> r.reason == Some(Rotated))
  }

  /** Records are filed under their token and numbered; rotated ones and only those have a replacement. */
  ghost predicate Filed(table: Table, born: map<Id, nat>, created: nat) {
    forall t :: t in table ==> table[t].token == t && WellShaped(table[t]) && t in born && born[t] < created
  }

  /** Every replacement exists, is younger, inherits, and replaces nothing else. */
  ghost predicate Linked(table: Table, born: map<Id, nat>) {
    && (forall t :: t in table && table[t].replacedBy.Some? ==>
          var n := table[t].replacedBy.value;
          n in table && t in born && n in born && born[t] < born[n] && Inherits(table[t], table[n]))
    && (forall t, u ::
          t in table && u in table && table[t].replacedBy.Some? && table[t].replacedBy == table[u].replacedBy ==>
            t == u)
  }

  /** A session belongs to one user and has at most one live record. */
  ghost predicate OneLivePerSession(table: Table) {
    forall t, u :: t in table && u in table && table[t].sessionId.Some? && table[t].sessionId == table[u].sessionId ==>
      table[t].userId == table[u].userId && (table[t].Live() && table[u].Live() ==> t == u)
  }

  predicate Pending(s: State, req: Id) {
    req in s.refreshes && s.refreshes[req].pc.Commit?
  }

  function NextOf(s: State, req: Id): Record
    requires Pending(s, req)
  {
    s.refreshes[req].pc.next
  }

  /** The session of a pending record was made up for it, because the presented one had none. */
  predicate OwnSession(s: State, req: Id)
    requires Pending(s, req)
  {
    s.refreshes[req].tokenId in s.table && s.table[s.refreshes[req].tokenId].sessionId.None?
  }

  /** What a refresh is about to insert. */
  ghost predicate PendingFits(s: State, req: Id)
    requires Pending(s, req)
  {
    var next := NextOf(s, req);
    && s.refreshes[req].tokenId in s.table
    && Inherits(s.table[s.refreshes[req].tokenId], next)
    && next.token !in s.table && next.Live() && WellShaped(next)
    && next.sessionId.Some?
    && (OwnSession(s, req) ==> forall t :: t in s.table ==> s.table[t].sessionId != next.sessionId)
  }

  ghost predicate PendingsFit(s: State) {
    && (forall r :: Pending(s, r) ==> PendingFits(s, r))
    && (forall r, q :: Pending(s, r) && Pending(s, q) && r != q ==>
          NextOf(s, r).token != NextOf(s, q).token
          && (OwnSession(s, r) ==> NextOf(s, r).sessionId != NextOf(s, q).sessionId))
  }

  ghost predicate Inv(s: State) {
    && Filed(s.table, s.born, s.created)
    && Linked(s.table, s.born)
    && OneLivePerSession(s.table)
    && PendingsFit(s)
  }

  lemma RevokeKeeps(table: Table, born: map<Id, nat>, created: nat, victims: set<Id>, now: int, reason: Id)
    requires Filed(table, born, created) && Linked(table, born) && OneLivePerSession(table)
    ensures var after := RevokeWhere(table, victims, now, reason);
            Filed(after, born, created) && Linked(after, born) && OneLivePerSession(after)
  {
  }

  lemma InsertKeeps(table: Table, born: map<Id, nat>, created: nat, r: Record)
    requires Filed(table, born, created) && Linked(table, born) && OneLivePerSession(table)
    requires r.token !in table && r.Live() && WellShaped(r)
    requires r.sessionId.Some?
    requires forall t :: t in table && table[t].sessionId == r.sessionId ==>
               table[t].userId == r.userId && !table[t].Live()
    ensures var table', born' := table[r.token := r], born[r.token := created];
            Filed(table', born', created + 1) && Linked(table', born') && OneLivePerSession(table')
  {
  }

  /** A live record, and a new one that can replace it. */
  ghost predicate Replaceable(table: Table, t: Id, next: Record) {
    && t in table && table[t].Live()
    && next.token !in table && next.Live() && WellShaped(next) && next.sessionId.Some?
    && Inherits(table[t], next)
    && (table[t].sessionId.None? ==> forall u :: u in table ==> table[u].sessionId != next.sessionId)
  }

  /** The presented record and its replacement; the transaction turns the one into the other. */
  function Replaced(table: Table, t: Id, next: Record, now: int): Table
    requires t in table
  {
    var rotated := table[t].(revokedAt := Some(now), replacedBy := Some(next.token), reason := Some(Rotated));
    table[t := rotated][next.token := next]
  }

  lemma RotateKeepsFiled(table: Table, born: map<Id, nat>, created: nat, t: Id, next: Record, now: int)
    requires Filed(table, born, created) && Replaceable(table, t, next)
    ensures Filed(Replaced(table, t, next, now), born[next.token := created], created + 1)
  {
  }

  lemma RotateKeepsLinked(table: Table, born: map<Id, nat>, created: nat, t: Id, next: Record, now: int)
    requires Filed(table, born, created) && Linked(table, born) && Replaceable(table, t, next)
    ensures Linked(Replaced(table, t, next, now), born[next.token := created])
  {
    var after, born' := Replaced(table, t, next, now), born[next.token := created];
    forall u | u in after && after[u].replacedBy.Some?
      ensures var n := after[u].replacedBy.value;
              n in after && u in born' && n in born' && born'[u] < born'[n] && Inherits(after[u], after[n])
    {
      RotatedLink(table, born, created, t, next, now, u);
    }
    forall u, v | u in after && v in after && after[u].replacedBy.Some? && after[u].replacedBy == after[v].replacedBy
      ensures u == v
    {
      assert u != t ==> u in table && after[u] == table[u];
      assert v != t ==> v in table && after[v] == table[v];
    }
  }

  lemma RotatedLink(table: Table, born: map<Id, nat>, created: nat, t: Id, next: Record, now: int, u: Id)
    requires Filed(table, born, created) && Linked(table, born) && Replaceable(table, t, next)
    requires u in Replaced(table, t, next, now) && Replaced(table, t, next, now)[u].replacedBy.Some?
    ensures var after, born' := Replaced(table, t, next, now), born[next.token := created];
            var n := after[u].replacedBy.value;
            n in after && u in born' && n in born' && born'[u] < born'[n] && Inherits(after[u], after[n])
  {
    if u != t {
      assert u in table && table[u].replacedBy.Some?;
    }
  }

  lemma RotateKeepsSessions(table: Table, t: Id, next: Record, now: int)
    requires OneLivePerSession(table) && Replaceable(table, t, next)
    ensures OneLivePerSession(Replaced(table, t, next, now))
  {
    var after := Replaced(table, t, next, now);
    forall u, v | u in after && v in after && after[u].sessionId.Some? && after[u].sessionId == after[v].sessionId
      ensures after[u].userId == after[v].userId && (after[u].Live() && after[v].Live() ==> u == v)
    {
      assert u != next.token ==> u in table && SameIdentity(after[u], table[u]);
      assert v != next.token ==> v in table && SameIdentity(after[v], table[v]);
    }
  }

  // ---------------------------------------------------------------- the invariant holds in every run

  /** Requests in flight are not affected by a new record that differs in token and session from what they hold. */
  lemma PendingsAfterInsert(s: State, after: State, r: Record)
    requires PendingsFit(s) && Evolves(s.table, after.table)
    requires after.table.Keys == s.table.Keys + {r.token} && after.table[r.token] == r
    requires forall q :: Pending(after, q) ==>
               && Pending(s, q) && after.refreshes[q] == s.refreshes[q] && NextOf(s, q).token != r.token
               && (OwnSession(s, q) ==> NextOf(s, q).sessionId != r.sessionId)
    ensures PendingsFit(after)
  {
    forall q | Pending(after, q)
      ensures PendingFits(after, q)
    {
      assert Pending(s, q) && PendingFits(s, q);
    }
  }

  lemma CommitKeepsPendings(s: State, req: Id)
    requires Inv(s) && Pending(s, req)
    ensures PendingsFit(CommitStep(s, req))
  {
    StepEvolves(s, DoCommit(req));
    assert PendingFits(s, req);
    var after := CommitStep(s, req);
    if s.table[s.refreshes[req].tokenId].Live() {
      forall q | Pending(after, q)
        ensures Pending(s, q) && after.refreshes[q] == s.refreshes[q] && NextOf(s, q).token != NextOf(s, req).token
        ensures OwnSession(s, q) ==> NextOf(s, q).sessionId != NextOf(s, req).sessionId
      {
        assert Pending(s, q) && q != req;
      }
      PendingsAfterInsert(s, after, NextOf(s, req));
    } else {
      OthersFit(s, after);
    }
  }

  lemma CommitKeeps(s: State, req: Id)
    requires Inv(s) && Pending(s, req)
    ensures Inv(CommitStep(s, req))
  {
    CommitKeepsPendings(s, req);
    assert PendingFits(s, req);
    var t := s.refreshes[req].tokenId;
    if s.table[t].Live() {
      var next := NextOf(s, req);
      assert Replaceable(s.table, t, next);
      RotateKeepsFiled(s.table, s.born, s.created, t, next, s.now);
      RotateKeepsLinked(s.table, s.born, s.created, t, next, s.now);
      RotateKeepsSessions(s.table, t, next, s.now);
    }
  }

  /** Requests in flight are not affected by steps that leave the identities in the table alone. */
  lemma OthersFit(s: State, after: State)
    requires PendingsFit(s) && Evolves(s.table, after.table)
    requires forall t :: t in after.table ==> t in s.table
    requires forall r :: Pending(after, r) ==> Pending(s, r) && after.refreshes[r] == s.refreshes[r]
    ensures PendingsFit(after)
  {
    forall r | Pending(after, r)
      ensures PendingFits(after, r)
    {
      assert Pending(s, r) && PendingFits(s, r);
    }
  }

  lemma CreateKeeps(s: State, a: Action)
    requires Inv(s) && a.Create? && Enabled(s, a)
    ensures Inv(Apply(s, a))
  {
    var r := Record(a.token, a.userId, Some(a.session), a.deviceId, s.now + s.lifetime, None, None, None);
    InsertKeeps(s.table, s.born, s.created, r);
    StepEvolves(s, a);
    var after := Apply(s, a);
    forall q | Pending(after, q)
      ensures Pending(s, q) && after.refreshes[q] == s.refreshes[q] && NextOf(s, q).token != r.token
      ensures OwnSession(s, q) ==> NextOf(s, q).sessionId != r.sessionId
    {
      assert Pending(s, q);
    }
    PendingsAfterInsert(s, after, r);
  }

  lemma StartKeeps(s: State, a: Action)
    requires Inv(s) && a.Start? && Enabled(s, a)
    ensures Inv(Apply(s, a))
  {
    var after := Apply(s, a);
    forall r | Pending(after, r)
      ensures PendingFits(after, r)
    {
      if r != a.req {
        assert Pending(s, r) && PendingFits(s, r);
      }
    }
    forall r, q | Pending(after, r) && Pending(after, q) && r != q
      ensures NextOf(after, r).token != NextOf(after, q).token
      ensures OwnSession(after, r) ==> NextOf(after, r).sessionId != NextOf(after, q).sessionId
    {
      assert r != a.req ==> Pending(s, r) && PendingFits(s, r);
      assert q != a.req ==> Pending(s, q) && PendingFits(s, q);
    }
  }

  /** Steps that do not touch the table and bring no refresh to its transaction. */
  lemma ReadingKeeps(s: State, a: Action)
    requires Inv(s) && Enabled(s, a) && (a.DoReread? || a.Hop? || a.StartLogout? || a.Tick?)
    ensures Inv(Apply(s, a))
  {
    var after := Apply(s, a);
    assert after.table == s.table && after.born == s.born && after.created == s.created by {
      if a.Hop? {
        assert HopStep(s, a.req).table == s.table;
      }
    }
    OthersFit(s, after);
  }

  lemma RevokingKeeps(s: State, after: State, victims: set<Id>, reason: Id)
    requires Inv(s) && after.table == RevokeWhere(s.table, victims, s.now, reason)
    requires after.refreshes == s.refreshes && after.born == s.born && after.created == s.created
    ensures Inv(after)
  {
    RevokeKeeps(s.table, s.born, s.created, victims, s.now, reason);
    RevokeEvolves(s.table, victims, s.now, reason);
    OthersFit(s, after);
  }

  lemma LogoutStepKeeps(s: State, req: Id, reason: Id)
    requires Inv(s) && req in s.logouts && !s.logouts[req].LoggedOut?
    ensures Inv(LogoutNext(s, req, reason))
  {
    LogoutKeeps(s, req, reason);
    LogoutEvolves(s, req, reason);
    OthersFit(s, LogoutNext(s, req, reason));
  }

  lemma StepKeepsInv(s: State, a: Action)
    requires Inv(s) && Enabled(s, a)
    ensures Inv(Apply(s, a))
  {
    match a
    case Create(_, _, _, _) => CreateKeeps(s, a);
    case Start(_, _, _, _, _, _) => StartKeeps(s, a);
    case DoCommit(req) => CommitKeeps(s, req);
    case LogoutStep(req, reason) => LogoutStepKeeps(s, req, reason);
    case RevokeDevices(userId, devices, reason) =>
      RevokingKeeps(s, Apply(s, a), OfDevices(s.table, userId, devices), reason);
    case RevokeUser(userId, reason) => RevokingKeeps(s, Apply(s, a), OfUser(s.table, userId), reason);
    case _ => ReadingKeeps(s, a);
  }

  lemma LogoutKeeps(s: State, req: Id, reason: Id)
    requires Inv(s) && req in s.logouts && !s.logouts[req].LoggedOut?
    ensures var after := LogoutNext(s, req, reason);
            && after.refreshes == s.refreshes && after.table.Keys == s.table.Keys
            && Filed(after.table, after.born, after.created) && Linked(after.table, after.born)
            && OneLivePerSession(after.table)
  {
    match s.logouts[req]
    case Found(stored) =>
      if stored.sessionId.Some? {
        RevokeKeeps(s.table, s.born, s.created, OfSession(s.table, stored.userId, stored.sessionId.value), s.now,
                    reason);
      }
    case LogoutWalk(_, _, _) =>
    case RevokeTokens(tokens) =>
      RevokeKeeps(s.table, s.born, s.created, tokens, s.now, reason);
  }

  // ---------------------------------------------------------------- chains of replacements

  /** The token n replacements after `t`. */
  function Chain(table: Table, t: Id, n: nat): (u: Option<Id>)
    ensures u.Some? ==> u.value in table
    decreases n
  {
    if t !in table then None
    else if n == 0 then Some(t)
    else if table[t].Link().None? then None
    else Chain(table, table[t].Link().value, n - 1)
  }

  lemma {:induction false} ChainSnoc(table: Table, t: Id, n: nat)
    ensures Chain(table, t, n).Some? ==>
              Chain(table, t, n + 1) == var r := table[Chain(table, t, n).value];
                                           if r.Link().None? || r.Link().value !in table then None else r.Link()
    decreases n
  {
    if n > 0 && t in table && table[t].Link().Some? {
      ChainSnoc(table, table[t].Link().value, n - 1);
    }
  }

  /** Links are permanent. */
  lemma {:induction false} ChainStable(before: Table, after: Table, t: Id, n: nat)
    requires Evolves(before, after)
    ensures Chain(before, t, n).Some? ==> Chain(after, t, n) == Chain(before, t, n)
    decreases n
  {
    if n > 0 && t in before && before[t].Link().Some? {
      ChainStable(before, after, before[t].Link().value, n - 1);
    }
  }

  /** Replacement never leads back: every link goes to a younger record, of the same user, session and device. */
  lemma {:induction false} ChainIsAcyclic(s: State, t: Id, n: nat)
    requires Inv(s) && n > 0 && Chain(s.table, t, n).Some?
    ensures Chain(s.table, t, n) != Some(t)
    ensures s.born[t] < s.born[Chain(s.table, t, n).value]
    ensures Inherits(s.table[t], s.table[Chain(s.table, t, n).value])
    decreases n
  {
    var next := s.table[t].Link().value;
    assert s.table[t].replacedBy == Some(next);
    if n > 1 {
      ChainIsAcyclic(s, next, n - 1);
    }
  }

  // ---------------------------------------------------------------- what refreshes in flight know

  /** What was read earlier still identifies the record; a revoked one is still exactly as it was read. */
  ghost predicate StillValid(table: Table, r: Record) {
    r.token in table && SameIdentity(r, table[r.token]) && (!r.Live() ==> table[r.token] == r)
  }

  ghost predicate RevokedIn(table: Table, t: Id) {
    t in table && !table[t].Live()
  }

  /**
   * The record handed out is a proper descendant of the presented one, or the presented one on the very
   * edge of expiry.
   */
  ghost predicate InChain(s: State, t: Id, r: Record) {
    || (exists n: nat :: n > 0 && Chain(s.table, t, n) == Some(r.token))
    || (r.token == t && r.Expired(s.now))
  }

  ghost predicate RefreshFits(s: State, f: Refresh) {
    && (f.attempted && !f.pc.Commit? ==> RevokedIn(s.table, f.tokenId))
    && match f.pc
       case Commit(_) => f.attempted
       case Reread => RevokedIn(s.table, f.tokenId)
       case Walk(current, hop) =>
         && RevokedIn(s.table, f.tokenId)
         && hop <= MAX_HOPS && current.Some? && (hop == 0 ==> !current.value.Live())
         && StillValid(s.table, current.value) && Chain(s.table, f.tokenId, hop) == Some(current.value.token)
       case Issued(r, created) =>
         if created then RevokedIn(s.table, f.tokenId) && s.table[f.tokenId].Link() == Some(r.token)
         else InChain(s, f.tokenId, r)
       case Rejected => true
  }

  ghost predicate AllFit(s: State) {
    forall q :: q in s.refreshes ==> RefreshFits(s, s.refreshes[q])
  }

  lemma FitsStable(s: State, after: State, f: Refresh)
    requires Evolves(s.table, after.table) && s.now <= after.now && RefreshFits(s, f)
    ensures RefreshFits(after, f)
  {
    match f.pc
    case Walk(_, hop) => ChainStable(s.table, after.table, f.tokenId, hop);
    case Issued(r, created) =>
      if !created && !(r.token == f.tokenId && r.Expired(s.now)) {
        var n: nat :| n > 0 && Chain(s.table, f.tokenId, n) == Some(r.token);
        ChainStable(s.table, after.table, f.tokenId, n);
      }
    case _ =>
  }

  lemma HopFits(s: State, req: Id)
    requires Inv(s) && req in s.refreshes && s.refreshes[req].pc.Walk? && RefreshFits(s, s.refreshes[req])
    ensures RefreshFits(HopStep(s, req), HopStep(s, req).refreshes[req])
  {
    var f := s.refreshes[req];
    match Round(f.pc.current, f.pc.hop, s.now)
    case Found(r) =>
      assert f.pc.hop > 0;
      assert InChain(s, f.tokenId, r);
    case Nothing =>
    case Follow(t) =>
      assert s.table[f.pc.current.value.token].replacedBy == Some(t);
      ChainSnoc(s.table, f.tokenId, f.pc.hop);
  }

  /**
   * A walk that ends without a record has followed 16 replacements, or has come to a record that has
   * expired, or to one that was revoked without being replaced.
   */
  lemma RefusalHasCause(s: State, earlier: set<Id>, req: Id)
    requires FullInv(s, earlier) && req in s.refreshes && s.refreshes[req].pc.Walk?
    requires HopStep(s, req).refreshes[req].pc.Rejected?
    ensures var t, hop := s.refreshes[req].tokenId, s.refreshes[req].pc.hop;
            && Chain(s.table, t, hop).Some?
            && var r := s.table[Chain(s.table, t, hop).value];
               hop == MAX_HOPS || r.Expired(s.now) || (!r.Live() && r.Link().None?)
  {
    assert RefreshFits(s, s.refreshes[req]);
  }

  lemma OthersStillFit(s: State, after: State, req: Id)
    requires AllFit(s) && Evolves(s.table, after.table) && s.now <= after.now
    requires forall q :: q in after.refreshes && q != req ==> q in s.refreshes && after.refreshes[q] == s.refreshes[q]
    requires req in after.refreshes ==> RefreshFits(after, after.refreshes[req])
    ensures AllFit(after)
  {
    forall q | q in after.refreshes
      ensures RefreshFits(after, after.refreshes[q])
    {
      if q != req {
        FitsStable(s, after, s.refreshes[q]);
      }
    }
  }

  lemma CommitFits(s: State, req: Id)
    requires Inv(s) && AllFit(s) && Pending(s, req)
    ensures RefreshFits(CommitStep(s, req), CommitStep(s, req).refreshes[req])
  {
    assert PendingFits(s, req) && RefreshFits(s, s.refreshes[req]);
  }

  lemma StartFits(s: State, a: Action)
    requires Inv(s) && a.Start? && Enabled(s, a)
    ensures RefreshFits(Apply(s, a), Apply(s, a).refreshes[a.req])
  {
    var after := Apply(s, a);
    var t := a.claims.tokenId;
    if after.refreshes[a.req].pc.Walk? {
      assert Chain(after.table, t, 0) == Some(t);
    }
  }

  predicate MovesRefresh(a: Action) {
    a.Start? || a.DoCommit? || a.DoReread? || a.Hop?
  }

  lemma OnlyItMoves(s: State, a: Action)
    requires Enabled(s, a) && MovesRefresh(a)
    ensures var after := Apply(s, a);
            && s.now <= after.now && a.req in after.refreshes
            && forall q :: q in after.refreshes && q != a.req ==>
                 q in s.refreshes && after.refreshes[q] == s.refreshes[q]
  {
  }

  lemma MovedFits(s: State, a: Action)
    requires Inv(s) && AllFit(s) && Enabled(s, a) && MovesRefresh(a)
    ensures a.req in Apply(s, a).refreshes && RefreshFits(Apply(s, a), Apply(s, a).refreshes[a.req])
  {
    match a
    case Start(_, _, _, _, _, _) => StartFits(s, a);
    case DoCommit(req) => CommitFits(s, req);
    case DoReread(req) => RereadFits(s, req);
    case Hop(req) => HopFits(s, req);
  }

  lemma StepKeepsFits(s: State, a: Action)
    requires Inv(s) && AllFit(s) && Enabled(s, a)
    ensures AllFit(Apply(s, a))
  {
    StepEvolves(s, a);
    if MovesRefresh(a) {
      OnlyItMoves(s, a);
      MovedFits(s, a);
      OthersStillFit(s, Apply(s, a), a.req);
    } else {
      LeavesRefreshes(s, a);
      OthersFitToo(s, Apply(s, a));
    }
  }

  lemma LeavesRefreshes(s: State, a: Action)
    requires Enabled(s, a) && !MovesRefresh(a)
    ensures Apply(s, a).refreshes == s.refreshes && s.now <= Apply(s, a).now
  {
  }

  lemma OthersFitToo(s: State, after: State)
    requires AllFit(s) && Evolves(s.table, after.table) && s.now <= after.now && after.refreshes == s.refreshes
    ensures AllFit(after)
  {
    forall q | q in after.refreshes
      ensures RefreshFits(after, after.refreshes[q])
    {
      FitsStable(s, after, s.refreshes[q]);
    }
  }

  lemma RereadFits(s: State, req: Id)
    requires Inv(s) && req in s.refreshes && s.refreshes[req].pc.Reread? && RefreshFits(s, s.refreshes[req])
    ensures var after := SetPc(s, req, Walk(Lookup(s.table, s.refreshes[req].tokenId), 0));
            RefreshFits(after, after.refreshes[req])
  {
    var t := s.refreshes[req].tokenId;
    assert Chain(s.table, t, 0) == Some(t);
  }

  // ---------------------------------------------------------------- who creates a successor

  /** A refresh that presents that token. */
  predicate Presented(s: State, req: Id, t: Id) {
    req in s.refreshes && s.refreshes[req].tokenId == t
  }

  predicate Creator(s: State, req: Id, t: Id) {
    Presented(s, req, t) && s.refreshes[req].pc.Issued? && s.refreshes[req].pc.created
  }

  /** At most one refresh creates the successor of a token; `earlier` are the tokens rotated before the run. */
  ghost predicate CreatorsKnown(s: State, earlier: set<Id>) {
    && (forall t, r, q :: Creator(s, r, t) && Creator(s, q, t) ==> r == q)
    && (forall t :: t in s.table && t !in earlier && s.table[t].reason == Some(Rotated) ==>
          exists r :: Creator(s, r, t))
  }

  lemma CreatorIsRotated(s: State, req: Id, t: Id)
    requires AllFit(s) && Creator(s, req, t)
    ensures RevokedIn(s.table, t)
  {
    assert RefreshFits(s, s.refreshes[req]);
  }

  lemma StepKeepsCreators(s: State, a: Action, earlier: set<Id>)
    requires Inv(s) && AllFit(s) && CreatorsKnown(s, earlier) && Enabled(s, a)
    ensures CreatorsKnown(Apply(s, a), earlier)
  {
    var after := Apply(s, a);
    forall t, r, q | Creator(after, r, t) && Creator(after, q, t)
      ensures r == q
    {
      OneCreator(s, a, t, r, q);
    }
    forall t | t in after.table && t !in earlier && after.table[t].reason == Some(Rotated)
      ensures exists r :: Creator(after, r, t)
    {
      var r := SomeCreator(s, a, earlier, t);
    }
  }

  lemma StillCreator(s: State, a: Action, r: Id, t: Id)
    requires Enabled(s, a) && Creator(s, r, t)
    ensures Creator(Apply(s, a), r, t)
  {
  }

  /** A creator was one before, or has just committed on a live record. */
  lemma NewCreator(s: State, a: Action, r: Id, t: Id)
    requires Enabled(s, a) && Creator(Apply(s, a), r, t)
    ensures Creator(s, r, t) || (a == DoCommit(r) && t in s.table && s.table[t].Live())
  {
  }

  lemma OneCreator(s: State, a: Action, t: Id, r: Id, q: Id)
    requires Inv(s) && AllFit(s) && Enabled(s, a)
    requires forall r, q :: Creator(s, r, t) && Creator(s, q, t) ==> r == q
    requires Creator(Apply(s, a), r, t) && Creator(Apply(s, a), q, t)
    ensures r == q
  {
    NewCreator(s, a, r, t);
    NewCreator(s, a, q, t);
    if Creator(s, r, t) {
      CreatorIsRotated(s, r, t);
    }
    if Creator(s, q, t) {
      CreatorIsRotated(s, q, t);
    }
  }

  lemma NewRotation(s: State, a: Action, t: Id)
    requires Inv(s) && Enabled(s, a)
    requires t in Apply(s, a).table && Apply(s, a).table[t].reason == Some(Rotated)
    ensures (t in s.table && s.table[t].reason == Some(Rotated)) || (a.DoCommit? && Creator(Apply(s, a), a.req, t))
  {
    match a
    case DoCommit(req) => assert PendingFits(s, req);
    case LogoutStep(req, reason) => LogoutRotatesNothing(s, req, reason, t);
    case Hop(req) => assert HopStep(s, req).table == s.table;
    case _ =>
  }

  lemma LogoutRotatesNothing(s: State, req: Id, reason: Id, t: Id)
    requires req in s.logouts && !s.logouts[req].LoggedOut?
    requires t in LogoutNext(s, req, reason).table && LogoutNext(s, req, reason).table[t].reason == Some(Rotated)
    ensures t in s.table && s.table[t].reason == Some(Rotated)
  {
  }

  lemma SomeCreator(s: State, a: Action, earlier: set<Id>, t: Id) returns (r: Id)
    requires Inv(s) && CreatorsKnown(s, earlier) && Enabled(s, a)
    requires t in Apply(s, a).table && t !in earlier && Apply(s, a).table[t].reason == Some(Rotated)
    ensures Creator(Apply(s, a), r, t)
  {
    NewRotation(s, a, t);
    if a.DoCommit? && Creator(Apply(s, a), a.req, t) {
      r := a.req;
    } else {
      r :| Creator(s, r, t);
      StillCreator(s, a, r, t);
    }
  }

  // ---------------------------------------------------------------- revocation is permanent

  /** Revoked records whose replacements, if any, are among them. */
  ghost predicate DeadSet(table: Table, dead: set<Id>) {
    forall t :: t in dead ==>
      RevokedIn(table, t) && (table[t].Link().Some? ==> table[t].Link().value in dead)
  }

  lemma DeadForever(before: Table, after: Table, dead: set<Id>)
    requires Evolves(before, after) && DeadSet(before, dead)
    ensures DeadSet(after, dead)
  {
  }

  lemma {:induction false} DescendantsAreDead(table: Table, dead: set<Id>, t: Id, n: nat)
    requires DeadSet(table, dead) && t in dead && Chain(table, t, n).Some?
    ensures Chain(table, t, n).value in dead
    decreases n
  {
    if n > 0 {
      DescendantsAreDead(table, dead, table[t].Link().value, n - 1);
    }
  }

  /** A refresh of a dead token that has not been answered, or has been refused. */
  ghost predicate Doomed(s: State, dead: set<Id>, req: Id) {
    req in s.refreshes && s.refreshes[req].tokenId in dead
    && match s.refreshes[req].pc
       case Walk(current, _) =>
         current.Some? ==> current.value.token in dead && Lookup(s.table, current.value.token) == current
       case Rejected => true
       case _ => false
  }

  lemma StartIsDoomed(s: State, a: Action, dead: set<Id>)
    requires Inv(s) && Enabled(s, a) && a.Start? && DeadSet(s.table, dead) && a.claims.tokenId in dead
    ensures Doomed(Apply(s, a), dead, a.req)
  {
  }

  lemma StaysDoomed(s: State, a: Action, dead: set<Id>, req: Id)
    requires Inv(s) && Enabled(s, a) && DeadSet(s.table, dead) && Doomed(s, dead, req)
    ensures Doomed(Apply(s, a), dead, req)
  {
    if a == Hop(req) {
      DoomedHop(s, dead, req);
    } else {
      StepEvolves(s, a);
      DoomedIsLeft(s, a, dead, req);
      DoomedUnmoved(s, Apply(s, a), dead, req);
    }
  }

  lemma DoomedIsLeft(s: State, a: Action, dead: set<Id>, req: Id)
    requires Enabled(s, a) && a != Hop(req) && Doomed(s, dead, req)
    ensures req in Apply(s, a).refreshes && Apply(s, a).refreshes[req] == s.refreshes[req]
  {
  }

  lemma DoomedUnmoved(s: State, after: State, dead: set<Id>, req: Id)
    requires DeadSet(s.table, dead) && Doomed(s, dead, req) && Evolves(s.table, after.table)
    requires req in after.refreshes && after.refreshes[req] == s.refreshes[req]
    ensures Doomed(after, dead, req)
  {
  }

  lemma DoomedHop(s: State, dead: set<Id>, req: Id)
    requires Inv(s) && DeadSet(s.table, dead) && Doomed(s, dead, req) && s.refreshes[req].pc.Walk?
    ensures Doomed(HopStep(s, req), dead, req)
  {
    var pc := s.refreshes[req].pc;
    if pc.current.Some? {
      var r := pc.current.value;
      assert RevokedIn(s.table, r.token);
    }
  }

  function SessionTokens(table: Table, session: Id): set<Id> {
    set t | t in table && table[t].sessionId == Some(session)
  }

  /** The session existed, and none of its records is live. */
  ghost predicate SessionDead(table: Table, session: Id) {
    && (exists t :: t in table && table[t].sessionId == Some(session))
    && (forall t :: t in table && table[t].sessionId == Some(session) ==> !table[t].Live())
  }

  lemma DeadSessionIsDeadSet(s: State, session: Id)
    requires Inv(s) && SessionDead(s.table, session)
    ensures DeadSet(s.table, SessionTokens(s.table, session))
  {
  }

  /** A logout reads the record, and later revokes the whole session of the user it belongs to. */
  ghost predicate LogoutsFit(s: State) {
    forall q :: q in s.logouts && s.logouts[q].Found? ==> StillValid(s.table, s.logouts[q].stored)
  }

  lemma LogoutEndsSession(s: State, req: Id, reason: Id)
    requires Inv(s) && LogoutsFit(s)
    requires req in s.logouts && s.logouts[req].Found? && s.logouts[req].stored.sessionId.Some?
    ensures SessionDead(LogoutNext(s, req, reason).table, s.logouts[req].stored.sessionId.value)
  {
    var stored := s.logouts[req].stored;
    var session := stored.sessionId.value;
    var after := LogoutNext(s, req, reason).table;
    assert stored.token in after && after[stored.token].sessionId == Some(session);
    forall t | t in after && after[t].sessionId == Some(session)
      ensures !after[t].Live()
    {
      assert t in OfSession(s.table, stored.userId, session);
    }
  }

  /** No step brings a dead session back to life. */
  lemma SessionStaysDead(s: State, a: Action, session: Id)
    requires Inv(s) && Enabled(s, a) && SessionDead(s.table, session)
    ensures SessionDead(Apply(s, a).table, session)
  {
    StepEvolves(s, a);
    var t :| t in s.table && s.table[t].sessionId == Some(session);
    var after := Apply(s, a).table;
    assert after[t].sessionId == Some(session);
    forall u | u in after && after[u].sessionId == Some(session)
      ensures !after[u].Live()
    {
      if u !in s.table {
        NewRecord(s, a, u);
      }
    }
  }

  /** A new record has a session that no other record has, or the session of a record that was live. */
  lemma NewRecord(s: State, a: Action, u: Id)
    requires Inv(s) && Enabled(s, a) && u in Apply(s, a).table && u !in s.table
    ensures var session := Apply(s, a).table[u].sessionId;
            (forall t :: t in s.table ==> s.table[t].sessionId != session)
            || (exists t :: t in s.table && s.table[t].sessionId == session && s.table[t].Live())
  {
    match a
    case DoCommit(req) => assert PendingFits(s, req);
    case LogoutStep(req, reason) => LogoutKeeps(s, req, reason);
    case _ =>
  }

  /** A device revocation reaches every later replacement too: it is bound to the same device. */
  lemma DeviceRevocationKills(s: State, userId: Id, devices: set<Id>, reason: Id)
    requires Inv(s)
    ensures DeadSet(Apply(s, RevokeDevices(userId, devices, reason)).table, OfDevices(s.table, userId, devices))
  {
    var dead := OfDevices(s.table, userId, devices);
    var after := Apply(s, RevokeDevices(userId, devices, reason)).table;
    forall t | t in dead
      ensures RevokedIn(after, t) && (after[t].Link().Some? ==> after[t].Link().value in dead)
    {
      assert !s.table[t].Live() ==> after[t] == s.table[t];
    }
  }

  lemma UserRevocationKills(s: State, userId: Id, reason: Id)
    requires Inv(s)
    ensures DeadSet(Apply(s, RevokeUser(userId, reason)).table, OfUser(s.table, userId))
  {
    var dead := OfUser(s.table, userId);
    var after := Apply(s, RevokeUser(userId, reason)).table;
    forall t | t in dead
      ensures RevokedIn(after, t) && (after[t].Link().Some? ==> after[t].Link().value in dead)
    {
      assert !s.table[t].Live() ==> after[t] == s.table[t];
    }
  }

  // ---------------------------------------------------------------- whole runs

  ghost predicate FullInv(s: State, earlier: set<Id>) {
    Inv(s) && AllFit(s) && CreatorsKnown(s, earlier) && LogoutsFit(s)
  }

  lemma StepKeepsLogouts(s: State, a: Action)
    requires Inv(s) && LogoutsFit(s) && Enabled(s, a)
    ensures LogoutsFit(Apply(s, a))
  {
    StepEvolves(s, a);
    var after := Apply(s, a);
    forall q | q in after.logouts && after.logouts[q].Found?
      ensures StillValid(after.table, after.logouts[q].stored)
    {
      LogoutOrigin(s, a, q);
    }
  }

  lemma LogoutOrigin(s: State, a: Action, q: Id)
    requires Inv(s) && Enabled(s, a)
    requires q in Apply(s, a).logouts && Apply(s, a).logouts[q].Found?
    ensures || (q in s.logouts && s.logouts[q] == Apply(s, a).logouts[q])
            || (a.StartLogout? && Apply(s, a).table == s.table && StillValid(s.table, Apply(s, a).logouts[q].stored))
  {
    if a.Hop? {
      assert HopStep(s, a.req).logouts == s.logouts;
    }
  }

  lemma StepKeepsAll(s: State, a: Action, earlier: set<Id>)
    requires FullInv(s, earlier) && Enabled(s, a)
    ensures FullInv(Apply(s, a), earlier)
  {
    StepKeepsInv(s, a);
    StepKeepsFits(s, a);
    StepKeepsCreators(s, a, earlier);
    StepKeepsLogouts(s, a);
  }

  /** The invariant holds in every state of every run. */
  lemma {:induction false} RunKeepsAll(states: seq<State>, earlier: set<Id>, i: nat)
    requires Run(states) && FullInv(states[0], earlier) && i < |states|
    ensures FullInv(states[i], earlier)
  {
    if i > 0 {
      RunKeepsAll(states, earlier, i - 1);
      var s, s' := states[i - 1], states[i];
      assert StepAt(states, i - 1);
      var a :| Enabled(s, a) && Apply(s, a) == s';
      StepKeepsAll(s, a, earlier);
    }
  }

  /** Once a session is dead it stays dead, whatever happens. */
  lemma {:induction false} LogoutIsPermanent(states: seq<State>, earlier: set<Id>, i: nat, j: nat, session: Id)
    requires Run(states) && FullInv(states[0], earlier) && i <= j < |states|
    requires SessionDead(states[i].table, session)
    ensures SessionDead(states[j].table, session)
  {
    if i < j {
      LogoutIsPermanent(states, earlier, i, j - 1, session);
      RunKeepsAll(states, earlier, j - 1);
      var s, s' := states[j - 1], states[j];
      assert StepAt(states, j - 1);
      var a :| Enabled(s, a) && Apply(s, a) == s';
      SessionStaysDead(s, a, session);
    }
  }

  /** The action that leads to state j of a run. */
  lemma ActionTo(states: seq<State>, earlier: set<Id>, j: nat) returns (a: Action)
    requires Run(states) && FullInv(states[0], earlier) && 0 < j < |states|
    ensures Inv(states[j - 1]) && Enabled(states[j - 1], a) && Apply(states[j - 1], a) == states[j]
  {
    RunKeepsAll(states, earlier, j - 1);
    var s, s' := states[j - 1], states[j];
    assert StepAt(states, j - 1);
    a :| Enabled(s, a) && Apply(s, a) == s';
  }

  /** One step of a run, as far as a dead set is concerned. */
  ghost predicate KeptDead(states: seq<State>, j: nat, dead: set<Id>)
    requires 0 < j < |states|
  {
    var s, s' := states[j - 1], states[j];
    DeadSet(s.table, dead) ==>
      && DeadSet(s'.table, dead)
      && forall q | q in s'.refreshes && s'.refreshes[q].tokenId in dead && DoomedSoFar(s, dead, q) ::
          Doomed(s', dead, q)
  }

  ghost predicate DoomedSoFar(s: State, dead: set<Id>, q: Id) {
    q in s.refreshes && s.refreshes[q].tokenId in dead ==> Doomed(s, dead, q)
  }

  lemma StepKeepsDead(states: seq<State>, earlier: set<Id>, j: nat, dead: set<Id>)
    requires Run(states) && FullInv(states[0], earlier) && 0 < j < |states|
    ensures KeptDead(states, j, dead)
  {
    var a := ActionTo(states, earlier, j);
    var s, s' := states[j - 1], states[j];
    if DeadSet(s.table, dead) {
      StepEvolves(s, a);
      DeadForever(s.table, s'.table, dead);
      forall q | q in s'.refreshes && s'.refreshes[q].tokenId in dead && DoomedSoFar(s, dead, q)
        ensures Doomed(s', dead, q)
      {
        if q in s.refreshes {
          SameToken(s, a, q);
        }
        DoomedAfter(s, a, dead, q);
      }
    }
  }

  /** Every refresh of a dead token that started after `before` is doomed. */
  ghost predicate DoomedSince(before: State, s: State, dead: set<Id>) {
    forall q :: q in s.refreshes && q !in before.refreshes && s.refreshes[q].tokenId in dead ==> Doomed(s, dead, q)
  }

  ghost predicate NoneIssued(before: State, s: State, dead: set<Id>) {
    forall q :: q in s.refreshes && q !in before.refreshes && s.refreshes[q].tokenId in dead ==>
      !s.refreshes[q].pc.Issued?
  }

  ghost predicate DescendantsRevoked(table: Table, dead: set<Id>) {
    forall t, n: nat :: t in dead && Chain(table, t, n).Some? ==> RevokedIn(table, Chain(table, t, n).value)
  }

  lemma DoomedSinceStep(states: seq<State>, i: nat, j: nat, dead: set<Id>)
    requires i < j < |states| && KeptDead(states, j, dead) && DeadSet(states[j - 1].table, dead)
    requires DoomedSince(states[i], states[j - 1], dead)
    ensures DoomedSince(states[i], states[j], dead)
  {
    forall q | q in states[j].refreshes && q !in states[i].refreshes && states[j].refreshes[q].tokenId in dead
      ensures Doomed(states[j], dead, q)
    {
      assert DoomedSoFar(states[j - 1], dead, q);
    }
  }

  lemma {:induction false} DeadFrom(states: seq<State>, i: nat, j: nat, dead: set<Id>)
    requires i <= j < |states| && DeadSet(states[i].table, dead)
    requires forall k: nat {:trigger KeptDead(states, k, dead)} :: 0 < k < |states| ==> KeptDead(states, k, dead)
    ensures DeadSet(states[j].table, dead) && DoomedSince(states[i], states[j], dead)
  {
    if i < j {
      DeadFrom(states, i, j - 1, dead);
      assert KeptDead(states, j, dead);
      DoomedSinceStep(states, i, j, dead);
    }
  }

  lemma SameToken(s: State, a: Action, q: Id)
    requires Enabled(s, a) && q in s.refreshes
    ensures q in Apply(s, a).refreshes && Apply(s, a).refreshes[q].tokenId == s.refreshes[q].tokenId
  {
  }

  /**
   * Dead records stay dead with all their descendants, and a refresh of one of them that starts
   * afterwards is never answered with a session.
   */
  lemma RevocationIsPermanent(states: seq<State>, earlier: set<Id>, i: nat, j: nat, dead: set<Id>)
    requires Run(states) && FullInv(states[0], earlier) && i <= j < |states|
    requires DeadSet(states[i].table, dead)
    ensures DeadSet(states[j].table, dead) && DescendantsRevoked(states[j].table, dead)
    ensures NoneIssued(states[i], states[j], dead)
  {
    forall k: nat | 0 < k < |states|
      ensures KeptDead(states, k, dead)
    {
      StepKeepsDead(states, earlier, k, dead);
    }
    DeadFrom(states, i, j, dead);
    AllDescendantsAreDead(states[j].table, dead);
  }

  lemma AllDescendantsAreDead(table: Table, dead: set<Id>)
    requires DeadSet(table, dead)
    ensures DescendantsRevoked(table, dead)
  {
    forall t, n: nat | t in dead && Chain(table, t, n).Some?
      ensures RevokedIn(table, Chain(table, t, n).value)
    {
      DescendantsAreDead(table, dead, t, n);
    }
  }

  /** After the logout of a session, no refresh of any of its tokens that starts later succeeds. */
  lemma LoggedOutForGood(states: seq<State>, earlier: set<Id>, i: nat, j: nat, session: Id, q: Id)
    requires Run(states) && FullInv(states[0], earlier) && i <= j < |states|
    requires SessionDead(states[i].table, session)
    requires q in states[j].refreshes && q !in states[i].refreshes
    requires states[j].refreshes[q].tokenId in SessionTokens(states[i].table, session)
    ensures SessionDead(states[j].table, session) && !states[j].refreshes[q].pc.Issued?
  {
    LogoutIsPermanent(states, earlier, i, j, session);
    RunKeepsAll(states, earlier, i);
    DeadSessionIsDeadSet(states[i], session);
    RevocationIsPermanent(states, earlier, i, j, SessionTokens(states[i].table, session));
  }

  /**
   * After a device revocation, no record then bound to one of the devices ever has a live descendant, and
   * none can be refreshed.
   */
  lemma DeviceRevokedForGood(states: seq<State>, earlier: set<Id>, i: nat, j: nat, userId: Id, devices: set<Id>,
                             reason: Id)
    requires Run(states) && FullInv(states[0], earlier) && i < j < |states|
    requires states[i + 1] == Apply(states[i], RevokeDevices(userId, devices, reason))
    ensures DescendantsRevoked(states[j].table, OfDevices(states[i].table, userId, devices))
    ensures NoneIssued(states[i + 1], states[j], OfDevices(states[i].table, userId, devices))
  {
    RunKeepsAll(states, earlier, i);
    DeviceRevocationKills(states[i], userId, devices, reason);
    RevocationIsPermanent(states, earlier, i + 1, j, OfDevices(states[i].table, userId, devices));
  }

  /** The same for everything a user has when the user is banned or deleted. */
  lemma UserRevokedForGood(states: seq<State>, earlier: set<Id>, i: nat, j: nat, userId: Id, reason: Id)
    requires Run(states) && FullInv(states[0], earlier) && i < j < |states|
    requires states[i + 1] == Apply(states[i], RevokeUser(userId, reason))
    ensures DescendantsRevoked(states[j].table, OfUser(states[i].table, userId))
    ensures NoneIssued(states[i + 1], states[j], OfUser(states[i].table, userId))
  {
    RunKeepsAll(states, earlier, i);
    UserRevocationKills(states[i], userId, reason);
    RevocationIsPermanent(states, earlier, i + 1, j, OfUser(states[i].table, userId));
  }

  lemma DoomedAfter(s: State, a: Action, dead: set<Id>, q: Id)
    requires Inv(s) && Enabled(s, a) && DeadSet(s.table, dead)
    requires q in Apply(s, a).refreshes && Apply(s, a).refreshes[q].tokenId in dead
    requires q in s.refreshes ==> Doomed(s, dead, q)
    ensures Doomed(Apply(s, a), dead, q)
  {
    if q in s.refreshes {
      StaysDoomed(s, a, dead, q);
    } else {
      OnlyStartAdds(s, a, q);
      StartIsDoomed(s, a, dead);
    }
  }

  lemma OnlyStartAdds(s: State, a: Action, q: Id)
    requires Enabled(s, a) && q in Apply(s, a).refreshes && q !in s.refreshes
    ensures a.Start? && a.req == q
  {
  }

  // ---------------------------------------------------------------- races

  /** The state before anything is in flight. */
  ghost predicate Quiet(s: State) {
    Inv(s) && s.refreshes == map[] && s.logouts == map[]
  }

  function RotatedTokens(table: Table): set<Id> {
    set t | t in table && table[t].reason == Some(Rotated)
  }

  /**
   * Any number of refreshes of a token that was live, interleaved in any way with each other and with
   * everything else: at most one creates a successor. One that got to the transaction and past it leaves
   * the token rotated, with exactly one creator, or finds it revoked by something else. What every other
   * one hands out is a proper descendant of the token, or the token itself when it expires meanwhile.
   */
  lemma RaceHasOneWinner(states: seq<State>, t: Id)
    requires Run(states) && Quiet(states[0])
    requires t in states[0].table ==> states[0].table[t].Live()
    ensures var s := states[|states| - 1];
            && (forall r, q :: Creator(s, r, t) && Creator(s, q, t) ==> r == q)
            && (forall r :: Presented(s, r, t) && s.refreshes[r].attempted && !s.refreshes[r].pc.Commit? ==>
                  RevokedIn(s.table, t)
                  && (s.table[t].reason == Some(Rotated) ==> exists q :: Creator(s, q, t)))
            && (forall r :: Creator(s, r, t) ==>
                  RevokedIn(s.table, t) && s.table[t].Link() == Some(s.refreshes[r].pc.record.token))
            && (forall r :: Presented(s, r, t) && s.refreshes[r].pc.Issued? && !s.refreshes[r].pc.created ==>
                  InChain(s, t, s.refreshes[r].pc.record))
  {
    var earlier := RotatedTokens(states[0].table);
    RunKeepsAll(states, earlier, |states| - 1);
    var s := states[|states| - 1];
    assert t !in earlier;
    forall r | Presented(s, r, t)
      ensures RefreshFits(s, s.refreshes[r])
    {
    }
  }

  /**
   * A refresh that nothing interferes with: the presented token is rotated, and what is issued is a live
   * record for the same user, session and device with a full lifetime.
   */
  lemma UndisturbedRefresh(s: State, a: Action)
    requires Inv(s) && a.Start? && Enabled(s, a) && a.claims.tokenId in s.table
    requires var r := s.table[a.claims.tokenId];
             r.Live() && !r.Expired(a.later) && a.claims.sub == r.userId
               && (a.claims.did.Some? ==> a.claims.did == r.deviceId)
    ensures var r := s.table[a.claims.tokenId];
            var started := Apply(s, a);
            && r.token in s.table && Enabled(started, DoCommit(a.req))
            && var after := Apply(started, DoCommit(a.req));
               var pc := after.refreshes[a.req].pc;
               && pc.Issued? && pc.created && pc.record.Live() && pc.record.token == a.token
               && pc.record.expiresAt == a.later + s.lifetime && Inherits(r, pc.record)
               && pc.record.token == a.token && after.table == Replaced(s.table, r.token, pc.record, a.later)
  {
    var started := Apply(s, a);
    assert started.table == s.table;
    assert !s.table[a.claims.tokenId].Expired(s.now);
  }

  // ---------------------------------------------------------------- the walk, undisturbed

  /** The last record of the chain, and how many links away it is. */
  ghost function Tail(table: Table, born: map<Id, nat>, created: nat, t: Id): (tail: (Id, nat))
    requires Filed(table, born, created) && Linked(table, born) && t in table
    ensures tail.0 in table && table[tail.0].Link().None?
    ensures Chain(table, t, tail.1) == Some(tail.0)
    decreases created - born[t]
  {
    if table[t].Link().None? then (t, 0)
    else
      assert table[t].replacedBy.Some?;
      var rest := Tail(table, born, created, table[t].Link().value);
      (rest.0, rest.1 + 1)
  }

  /**
   * `resolveActiveRefreshTokenRecord`: it finds the tail of the chain exactly when the tail is live, not expired and
   * at most 15 links away.
   */
  method ResolveActive(table: Table, record: Record, now: int, ghost born: map<Id, nat>, ghost created: nat)
    returns (active: Option<Record>)
    requires Filed(table, born, created) && Linked(table, born)
    requires record.token in table && table[record.token] == record
    ensures var tail := Tail(table, born, created, record.token);
            var last := table[tail.0];
            active == if tail.1 <= 15 && last.Live() && !last.Expired(now) then Some(last) else None
  {
    var current: Option<Record> := Some(record);
    var hop := 0;
    while hop < MAX_HOPS
      invariant 0 <= hop <= MAX_HOPS
      invariant current.Some? && current.value.token in table && table[current.value.token] == current.value
      invariant var tail, rest :=
                Tail(table, born, created, record.token), Tail(table, born, created, current.value.token);
                tail.0 == rest.0 && tail.1 == hop + rest.1
    {
      match Round(current, hop, now)
      case Found(r) => return Some(r);
      case Nothing => return None;
      case Follow(t) =>
        assert table[current.value.token].replacedBy == Some(t);
        current := Lookup(table, t);
      hop := hop + 1;
    }
    active := None;
  }
}
