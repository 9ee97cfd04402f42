/**
 * What can happen to a group call (src/realtime/socket.ts), component by component, over the steps of
 * `GroupCalls`: when it begins and ends, who is in it, and what the alone-timer does; and that time goes on.
 */
module GroupCallSteps {
  import opened Aead
  import opened Calls
  import opened GroupCalls

  function SocketsIn(s: State, user: Id): set<Id> {
    if s.active.Some? then SocketsOf(s.active.value, user) else {}
  }

  function InCall(s: State): nat {
    if s.active.Some? then |s.active.value| else 0
  }

  predicate Over(s: State) {
    !s.entry && s.active.None? && s.alone.None?
  }

  // ---------------------------------------------------------------- being alone

  /** Five minutes alone end the call. */
  lemma AutoEndEndsCall(s: State)
    requires Enabled(s, AutoEndFires)
    ensures s.now >= s.alone.value.aloneSince + 300_000
    ensures var after := Apply(s, AutoEndFires);
            && (InCall(s) == 1 ==> Over(after))
            && after.frames == s.frames && after.now == s.now && after.alone.None?
            && (InCall(s) != 1 ==> after.entry == s.entry && after.active == s.active)
  {
  }

  /** Two minutes alone are noted, once, and the call goes on. */
  lemma ReminderReminds(s: State)
    requires Enabled(s, ReminderFires)
    ensures s.now >= s.alone.value.aloneSince + 120_000
    ensures var after := Apply(s, ReminderFires);
            && after.entry == s.entry && after.active == s.active && after.frames == s.frames && after.now == s.now
            && after.alone == (if InCall(s) == 1 then Some(Alone(s.alone.value.aloneSince, true)) else None)
            && !Enabled(after, ReminderFires)
  {
  }

  /** Both timers are due when their time has come, and not before. */
  lemma DueTimersFire(s: State)
    ensures Enabled(s, AutoEndFires) <==> s.alone.Some? && s.now - s.alone.value.aloneSince >= 300_000
    ensures Enabled(s, ReminderFires) <==>
              s.alone.Some? && !s.alone.value.reminded && s.now - s.alone.value.aloneSince >= 120_000
  {
  }

  /** When the timer that was due has fired, time may go on as far as one likes. */
  lemma TimeIsFree(s: State, later: int)
    requires Inv(s) && later >= s.now
    requires Enabled(s, AutoEndFires)
    ensures Enabled(Apply(s, AutoEndFires), Tick(later))
  {
  }

  /** `LeadsTo` of one, two or three steps. */
  ghost predicate LeadsTo(states: seq<State>, s: State, s': State) {
    Run(states) && states[0] == s && states[|states| - 1] == s'
  }

  lemma OneMore(states: seq<State>, s: State, mid: State, e: Event)
    requires LeadsTo(states, s, mid) && Enabled(mid, e)
    ensures LeadsTo(states + [Apply(mid, e)], s, Apply(mid, e))
  {
    var more := states + [Apply(mid, e)];
    forall i | 0 <= i < |more| - 1
      ensures StepAt(more, i)
    {
      if i < |states| - 1 {
        assert StepAt(states, i);
      } else {
        assert more[i] == mid && Next(mid, Apply(mid, e));
      }
    }
  }

  /**
   * From every state that a run can reach, and for every later time, a run goes on to that time with the
   * clock and the timers alone; somebody who is alone by then for five minutes is not in a call any more.
   */
  lemma TimeGoesOn(s: State, later: int) returns (states: seq<State>, end: State)
    requires Inv(s) && later >= s.now
    ensures LeadsTo(states, s, end) && end.now == later && end.frames == s.frames
    ensures if s.alone.Some? && later > s.alone.value.aloneSince + 300_000 then Over(end)
            else end == s.(now := later)
  {
    states, end := [s], s;
    if s.alone.Some? && later > s.alone.value.aloneSince + AUTO_END_MS {
      var due := Tick(s.alone.value.aloneSince + AUTO_END_MS);
      OneMore(states, s, end, due);
      states, end := states + [Apply(end, due)], Apply(end, due);
      OneMore(states, s, end, AutoEndFires);
      states, end := states + [Apply(end, AutoEndFires)], Apply(end, AutoEndFires);
    }
    OneMore(states, s, end, Tick(later));
    states, end := states + [Apply(end, Tick(later))], Apply(end, Tick(later));
  }

  // ---------------------------------------------------------------- when there is a call

  /** Nobody would be left in the call without that socket. */
  predicate IsLast(s: State, user: Id, socket: Id) {
    s.active.Some? && |RemoveParticipant(s.active.value, user, socket)| == 0
  }

  /** A member declines it, or somebody ends it, or the last one is gone, or has been alone for five minutes. */
  predicate Ends(s: State, e: Event) {
    || e.Decline?
    || (e.AutoEndFires? && InCall(s) == 1)
    || (e.Leave? && IsLast(s, e.user, e.socket))
    || (e.Resume? && e.h in s.frames
        && match s.frames[e.h]
           case EndClear => true
           case DropSweep(user, socket) => IsLast(s, user, socket) && user in s.active.value
           case _ => false)
  }

  /** Something that ends the call leaves nothing of it. */
  lemma EndLeavesNothing(s: State, e: Event)
    requires Enabled(s, e) && Ends(s, e)
    ensures Over(Apply(s, e))
  {
  }

  /** The call is announced by an invite, or by the first to join without one. */
  predicate Announces(s: State, e: Event) {
    e.Resume? && e.h in s.frames && (s.frames[e.h].InviteLookup? || s.frames[e.h].JoinLookup?)
  }

  /** `callState` has the conversation from its announcement to its end, or to the loss of its only trace. */
  lemma EntryIff(s: State, e: Event)
    requires Enabled(s, e)
    ensures Apply(s, e).entry <==>
              Announces(s, e)
              || (s.entry && !Ends(s, e) && !(e.Leave? && s.active.None?) && !(e.GraceFires? && !e.stale))
  {
    match e
    case Resume(h) => EntryAfterResume(s, h);
    case Leave(user, socket) =>
      if s.active.Some? {
        SettledEntry(s, user, socket);
      }
    case _ =>
  }

  lemma SettledEntry(s: State, user: Id, socket: Id)
    requires s.active.Some?
    ensures RemoveAndSettle(s, user, socket).entry <==> s.entry && !IsLast(s, user, socket)
  {
  }

  lemma EntryAfterResume(s: State, h: Id)
    requires h in s.frames
    ensures Continue(s, h).entry <==> Announces(s, Resume(h)) || (s.entry && !Ends(s, Resume(h)))
  {
    match s.frames[h]
    case DropSweep(user, socket) => EntryAfterDrop(s, h, user, socket);
    case JoinPresence(user, socket) => JoinKeepsEntry(s, h, user, socket);
    case InviteLookup(user, socket) => Synced(Enter(s.(entry := true), user, socket));
    case JoinMessage(user, socket) => Synced(EnterNew(s, user, socket));
    case InviteMessage => Synced(s);
    case _ =>
  }

  lemma EntryAfterDrop(s: State, h: Id, user: Id, socket: Id)
    requires h in s.frames && s.frames[h] == DropSweep(user, socket)
    ensures Continue(s, h).entry <==> s.entry && !(IsLast(s, user, socket) && user in s.active.value)
  {
    if s.active.Some? {
      SettledEntry(s, user, socket);
    }
  }

  lemma JoinKeepsEntry(s: State, h: Id, user: Id, socket: Id)
    requires h in s.frames && s.frames[h] == JoinPresence(user, socket)
    ensures Continue(s, h).entry == s.entry
  {
    Synced(Enter(s, user, socket));
    Synced(EnterNew(s, user, socket));
  }

  // ---------------------------------------------------------------- who is in it

  /** The step brings a user into the call with a socket. */
  predicate Brings(s: State, e: Event, user: Id, socket: Id) {
    && e.Resume? && e.h in s.frames
    && match s.frames[e.h]
       case InviteLookup(u, k) => u == user && k == socket
       case JoinPresence(u, k) => u == user && k == socket && (s.active.Some? || s.entry)
       case JoinMessage(u, k) => u == user && k == socket
       case _ => false
  }

  predicate Takes(s: State, e: Event, user: Id, socket: Id) {
    || (e.Leave? && e.user == user && e.socket == socket)
    || (e.Resume? && e.h in s.frames && s.frames[e.h] == DropSweep(user, socket))
  }

  /** A first join that wrote the start message sets up the call anew, whoever is in it by then. */
  predicate SetsUpAnew(s: State, e: Event) {
    e.Resume? && e.h in s.frames && s.frames[e.h].JoinMessage?
  }

  /** A socket is in the call after a step exactly if the step brings it, or it was there and is not taken out. */
  lemma InCallIff(s: State, e: Event, user: Id, socket: Id)
    requires Enabled(s, e)
    ensures socket in SocketsIn(Apply(s, e), user) <==>
              Brings(s, e, user, socket)
              || (socket in SocketsIn(s, user) && !Takes(s, e, user, socket) && !Ends(s, e) && !SetsUpAnew(s, e))
  {
    match e
    case Resume(h) => InCallAfterResume(s, h, user, socket);
    case Leave(u, k) =>
      if s.active.Some? {
        SettledSockets(s, u, k, user);
      }
    case _ =>
  }

  lemma SettledSockets(s: State, u: Id, k: Id, user: Id)
    requires s.active.Some?
    ensures SocketsIn(RemoveAndSettle(s, u, k), user)
         == if IsLast(s, u, k) then {} else SocketsIn(s, user) - (if u == user then {k} else {})
  {
    OneSocketChanges(s.active.value, u, k, user);
    Synced(s.(active := Some(RemoveParticipant(s.active.value, u, k))));
  }

  lemma InCallAfterResume(s: State, h: Id, user: Id, socket: Id)
    requires h in s.frames
    ensures var e := Resume(h);
            socket in SocketsIn(Continue(s, h), user) <==>
              Brings(s, e, user, socket)
              || (socket in SocketsIn(s, user) && !Takes(s, e, user, socket) && !Ends(s, e) && !SetsUpAnew(s, e))
  {
    match s.frames[h]
    case InviteLookup(u, k) => InviterEnters(s, h, u, k, user);
    case JoinPresence(u, k) =>
      if s.active.Some? || s.entry {
        JoinerEnters(s, h, u, k, user);
      }
    case JoinMessage(u, k) => EntersNew(s, h, u, k, user);
    case DropSweep(u, k) => DropTakes(s, h, u, k, user);
    case _ =>
  }

  lemma InviterEnters(s: State, h: Id, u: Id, k: Id, user: Id)
    requires h in s.frames && s.frames[h] == InviteLookup(u, k)
    ensures SocketsIn(Continue(s, h), user) == SocketsIn(s, user) + (if u == user then {k} else {})
  {
    OneSocketChanges(if s.active.Some? then s.active.value else map[], u, k, user);
    Synced(Enter(s.(entry := true), u, k));
  }

  lemma JoinerEnters(s: State, h: Id, u: Id, k: Id, user: Id)
    requires h in s.frames && s.frames[h] == JoinPresence(u, k) && (s.active.Some? || s.entry)
    ensures SocketsIn(Continue(s, h), user) == SocketsIn(s, user) + (if u == user then {k} else {})
  {
    OneSocketChanges(if s.active.Some? then s.active.value else map[], u, k, user);
    Synced(Enter(s, u, k));
    Synced(EnterNew(s, u, k));
  }

  lemma EntersNew(s: State, h: Id, u: Id, k: Id, user: Id)
    requires h in s.frames && s.frames[h] == JoinMessage(u, k)
    ensures SocketsIn(Continue(s, h), user) == if u == user then {k} else {}
  {
    OneSocketChanges(map[], u, k, user);
  }

  lemma DropTakes(s: State, h: Id, u: Id, k: Id, user: Id)
    requires h in s.frames && s.frames[h] == DropSweep(u, k)
    ensures SocketsIn(Continue(s, h), user)
         == if s.active.Some? && u in s.active.value && IsLast(s, u, k) then {}
            else SocketsIn(s, user) - (if u == user then {k} else {})
  {
    if s.active.Some? {
      SettledSockets(s, u, k, user);
    }
  }

  /** The requests wait for what they asked for: the user's own socket. */
  lemma RequestsWait(s: State, e: Event)
    requires Enabled(s, e)
    ensures match e {
              case Invite(h, user, socket, throttled) =>
                Apply(s, e) == if throttled then s else s.(frames := s.frames[h := InviteLookup(user, socket)])
              case Join(h, user, socket) =>
                Apply(s, e) == s.(grace := false, frames := s.frames[h := JoinPresence(user, socket)])
              case Drop(h, user, socket, owns) =>
                Apply(s, e) == s.(grace := owns || s.grace, frames := s.frames[h := DropSweep(user, socket)])
              case End(h) => Apply(s, e) == s.(frames := s.frames[h := EndClear])
              case _ => true
            }
  {
  }

  /** The first to join a conversation without a call announces it and then is in it, alone and with the timer on. */
  lemma FirstJoinStartsCall(s: State, h: Id, user: Id, socket: Id)
    requires h in s.frames && s.frames[h] == JoinPresence(user, socket) && !s.entry && s.active.None? && s.alone.None?
    ensures var a := Apply(s, Resume(h));
            && Enabled(a, Resume(h))
            && var b := Apply(a, Resume(h));
               && Enabled(b, Resume(h))
               && var c := Apply(b, Resume(h));
                  && c.entry && c.active == Some(map[user := {socket}]) && c.alone == Some(Alone(s.now, false))
                  && h !in c.frames
  {
  }

  // ---------------------------------------------------------------- the timer

  /** The alone-timer that a step leaves running is the one that ran, or one that starts now. */
  lemma AloneAfter(s: State, e: Event)
    requires Inv(s) && Enabled(s, e)
    ensures var after := Apply(s, e);
            && (after.alone.Some? ==>
                  && InCall(after) == 1
                  && after.alone == (if e.ReminderFires? then Some(Alone(s.alone.value.aloneSince, true))
                                     else if s.alone.Some? then s.alone else Some(Alone(s.now, false))))
            && (after.alone.None? && InCall(after) == 1 ==>
                  s.alone.None? && (InCall(s) == 1 || (e.Resume? && s.frames[e.h].InviteLookup? && s.active.None?)))
  {
    StepKeepsInv(s, e);
    if e.Resume? {
      AloneAfterResume(s, e.h);
    }
  }

  lemma AloneAfterResume(s: State, h: Id)
    requires Inv(s) && h in s.frames
    ensures var after := Continue(s, h);
            && (after.alone.Some? ==> after.alone == if s.alone.Some? then s.alone else Some(Alone(s.now, false)))
            && (after.alone.None? && InCall(after) == 1 ==>
                  s.alone.None? && (InCall(s) == 1 || (s.frames[h].InviteLookup? && s.active.None?)))
  {
    match s.frames[h]
    case InviteLookup(u, k) => Synced(Enter(s.(entry := true), u, k));
    case InviteMessage => Synced(s);
    case JoinPresence(u, k) =>
      Synced(Enter(s, u, k));
      Synced(EnterNew(s, u, k));
    case JoinMessage(u, k) => Synced(EnterNew(s, u, k));
    case DropSweep(u, k) =>
      if s.active.Some? {
        Synced(s.(active := Some(RemoveParticipant(s.active.value, u, k))));
      }
    case _ =>
  }

  lemma Synced(s: State)
    ensures Sync(s).active == s.active && Sync(s).entry == s.entry
    ensures Sync(s).alone
         == if InCall(s) != 1 then None else if s.alone.Some? then s.alone else Some(Alone(s.now, false))
  {
  }
}
