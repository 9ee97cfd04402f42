/**
 * What can happen to a 1:1 call (src/realtime/socket.ts), component by component: for the entry, the people
 * in the call and the two timers, exactly which steps of `DirectCalls` change them, and to what.
 */
module DirectCallSteps {
  import opened Aead
  import opened Calls
  import opened DirectCalls

  /** The step with which that handler goes on from that await. */
  predicate GoesOn(s: State, e: Event, f: Frame) {
    e.Resume? && e.h in s.frames && s.frames[e.h] == f
  }

  function InCall(s: State): nat {
    if s.active.Some? then |s.active.value| else 0
  }

  /** The sockets with which a user is in the call. */
  function SocketsIn(s: State, user: Id): set<Id> {
    if s.active.Some? then SocketsOf(s.active.value, user) else {}
  }

  /** A call rings, and this user did not start it. */
  predicate RingsFor(s: State, user: Id) {
    s.entry.Some? && !s.entry.value.accepted && user != s.entry.value.call.inviterId
  }

  /** Somebody for whom the call rings joins it without accepting it first. */
  predicate CalleeJoins(s: State, e: Event) {
    e.Resume? && e.h in s.frames && s.frames[e.h].JoinPresence? && RingsFor(s, s.frames[e.h].user)
  }

  // ---------------------------------------------------------------- answering

  /**
   * The callee answers: the call is accepted at once, nothing will end it for want of an answer, and both are in it
   * next.
   */
  lemma CalleeAccepts(s: State, h: Id, user: Id, socket: Id, now: int, ok: bool)
    requires Enabled(s, Accept(h, user, socket)) && RingsFor(s, user)
    ensures var accepted := Apply(s, Accept(h, user, socket));
            var call := s.entry.value.call;
            && accepted.entry == Some(Entry(call, true, s.entry.value.serial))
            && accepted.ring.None? && accepted.grace.None? && accepted.active == s.active
            && Enabled(accepted, Resume(h, now, ok))
            && var on := Apply(accepted, Resume(h, now, ok));
               && on.entry == accepted.entry && h !in on.frames
               && socket in SocketsIn(on, user) && call.inviterSocketId in SocketsIn(on, call.inviterId)
  {
  }

  /** The inviter cannot answer his own call, and without a call there is nothing to answer. */
  lemma OthersDoNotAccept(s: State, h: Id, user: Id, socket: Id)
    requires Enabled(s, Accept(h, user, socket))
    requires s.entry.None? || s.entry.value.call.inviterId == user
    ensures Apply(s, Accept(h, user, socket)) == s
  {
  }

  /** Somebody answers the call that rings, or is found to have joined it. */
  predicate Answers(s: State, e: Event) {
    || (e.Accept? && RingsFor(s, e.user))
    || CalleeJoins(s, e)
    || (e.RingFires? && InCall(s) >= 2)
  }

  predicate IsAccepted(s: State) {
    s.entry.Some? && s.entry.value.accepted
  }

  /**
   * A call that rings becomes accepted exactly when somebody else accepts or joins it, or it rings out with both in
   * it.
   */
  lemma BecomesAcceptedIff(s: State, e: Event)
    requires Enabled(s, e) && PendingEntry(s)
    ensures IsAccepted(Apply(s, e)) <==> Answers(s, e)
  {
    match e
    case Resume(h, now, ok) => AcceptedAfterResume(s, h, now, ok);
    case Decline(_, _) => assert Apply(s, e).entry in {s.entry, None};
    case _ =>
  }

  lemma AcceptedAfterResume(s: State, h: Id, now: int, ok: bool)
    requires h in s.frames && PendingEntry(s)
    ensures IsAccepted(Continue(s, h, now, ok)) <==> CalleeJoins(s, Resume(h, now, ok))
  {
  }

  // ---------------------------------------------------------------- the entry

  /** The call is declined, left before anyone is in it, not answered, or given up after its inviter was gone. */
  predicate EndsUnanswered(s: State, e: Event) {
    && s.entry.Some?
    && var pending := !s.entry.value.accepted;
       || (e.Decline? && pending && s.active.None?)
       || (e.RingFires? && pending && InCall(s) <= 1)
       || (e.Leave? && s.active.None?)
       || (e.GraceFires? && pending && s.grace.Some? && s.grace.value.PendingInvite?
           && s.grace.value.deadSocket == s.entry.value.call.inviterSocketId)
  }

  /** A handler that ends the call has got past its await. */
  predicate EndIsThrough(s: State, e: Event) {
    && s.entry.Some? && e.Resume? && e.h in s.frames
    && var f := s.frames[e.h];
       (f.EndClear? && f.snapshot.Some?) || f.GraceClear? || f.LeaveLookup?
  }

  /** A call ends by these steps and no others. */
  lemma EndsIff(s: State, e: Event)
    requires Enabled(s, e) && s.entry.Some?
    ensures Apply(s, e).entry.None? <==> EndsUnanswered(s, e) || EndIsThrough(s, e)
  {
    if e.Resume? {
      EndsAfterResume(s, e.h, e.now, e.ok);
    }
  }

  lemma EndsAfterResume(s: State, h: Id, now: int, ok: bool)
    requires h in s.frames && s.entry.Some?
    ensures Continue(s, h, now, ok).entry.None? <==> EndIsThrough(s, Resume(h, now, ok))
  {
  }

  /** A new call is installed by an invite that finds none ringing, with what the invite says, and in no other way. */
  lemma InstallsIff(s: State, e: Event)
    requires Enabled(s, e)
    ensures var after := Apply(s, e);
            (after.installs != s.installs <==> e.Resume? && s.frames[e.h].InviteLookup? && !PendingEntry(s))
            && (e.Resume? && s.frames[e.h].InviteLookup? && !PendingEntry(s) ==>
                  var f := s.frames[e.h];
                  && after.entry == Some(Entry(Call(f.user, f.socket, f.video, e.now), false, |s.installs|))
                  && after.installs == s.installs + [after.entry.value.call]
                  && e.h in after.frames && after.frames[e.h] == InviteKey(f.user, |s.installs|))
  {
  }

  /** An invite asks for its call unless it is throttled. */
  lemma InviteAsks(s: State, e: Event)
    requires Enabled(s, e) && e.Invite?
    ensures var after := Apply(s, e);
            if e.throttled then after == s
              else after == s.(frames := s.frames[e.h := InviteLookup(e.user, e.socket, e.video)])
  {
  }

  /** The call was declined or not answered, or hung up before it was. */
  predicate SaysMissed(s: State, e: Event) {
    || e.Decline? || e.RingFires?
    || (e.Resume? && e.h in s.frames && s.frames[e.h].EndClear? && s.frames[e.h].snapshot.Some?
        && !s.frames[e.h].snapshot.value.accepted)
  }

  /** It was hung up, or deserted, after it was answered. */
  predicate SaysEnded(s: State, e: Event) {
    && e.Resume? && e.h in s.frames
    && ((s.frames[e.h].EndClear? && s.frames[e.h].snapshot.Some? && s.frames[e.h].snapshot.value.accepted)
        || (s.frames[e.h].GraceClear? && s.entry.Some? && s.entry.value.accepted))
  }

  predicate WaitsToSay(s: State, after: State, h: Id, serial: nat, kind: Kind) {
    h in after.frames && after.frames[h] == Write(Note(serial, kind)) && after.log == s.log
  }

  /** What is said of a call that ends: a "missed" message, or an "ended" one, or nothing. */
  lemma WhatIsSaid(s: State, e: Event)
    requires Enabled(s, e) && s.entry.Some? && Apply(s, e).entry.None?
    ensures var serial := s.entry.value.serial;
            if SaysMissed(s, e) then WaitsToSay(s, Apply(s, e), e.h, serial, Missed)
            else if SaysEnded(s, e) then WaitsToSay(s, Apply(s, e), e.h, serial, Ended)
            else Apply(s, e).log == s.log + [Note(serial, Unrecorded)]
  {
    if e.Resume? {
      WhatIsSaidLater(s, e.h, e.now, e.ok);
    }
  }

  lemma WhatIsSaidLater(s: State, h: Id, now: int, ok: bool)
    requires h in s.frames && s.entry.Some? && Continue(s, h, now, ok).entry.None?
    ensures var e, serial := Resume(h, now, ok), s.entry.value.serial;
            if SaysMissed(s, e) then WaitsToSay(s, Continue(s, h, now, ok), h, serial, Missed)
            else if SaysEnded(s, e) then WaitsToSay(s, Continue(s, h, now, ok), h, serial, Ended)
            else Continue(s, h, now, ok).log == s.log + [Note(serial, Unrecorded)]
  {
  }

  /** A message that waits to be written is written as it is, or noted as failed. */
  lemma WritesWhatWaits(s: State, h: Id, now: int, ok: bool)
    requires Enabled(s, Resume(h, now, ok)) && s.frames[h].Write?
    ensures var after := Apply(s, Resume(h, now, ok));
            && after.log == s.log + [Note(s.frames[h].note.serial, if ok then s.frames[h].note.kind else Unrecorded)]
            && h !in after.frames && after.entry == s.entry && after.active == s.active
  {
  }

  // ---------------------------------------------------------------- hanging up and leaving

  /** A hang-up that nothing interferes with leaves no call, nobody in it, no timer, and the message to be written. */
  lemma EndEndsCall(s: State, h: Id, user: Id, now: int, ok: bool)
    requires Enabled(s, End(h, user))
    ensures var ended := Apply(Apply(s, End(h, user)), Resume(h, now, ok));
            && ended.entry.None? && ended.active.None? && ended.ring.None? && ended.grace.None? && ended.log == s.log
            && (if s.entry.None? then h !in ended.frames
                else WaitsToSay(s, ended, h, s.entry.value.serial, if s.entry.value.accepted then Ended else Missed))
  {
  }

  /** Leaving takes exactly that socket out of the call; if one user at most is left, the handler goes on to end it. */
  lemma LeaveTakesOut(s: State, h: Id, user: Id, socket: Id)
    requires Enabled(s, Leave(h, user, socket)) && s.active.Some?
    ensures var left := Apply(s, Leave(h, user, socket));
            && left.entry == s.entry
            && (forall u :: SocketsIn(left, u) == SocketsIn(s, u) - (if u == user then {socket} else {}))
            && if InCall(left) <= 1 then h in left.frames && left.frames[h] == LeaveClear else left.frames == s.frames
  {
    forall u
      ensures SocketsIn(Apply(s, Leave(h, user, socket)), u) == SocketsIn(s, u) - (if u == user then {socket} else {})
    {
      OneSocketChanges(s.active.value, user, socket, u);
    }
  }

  /** And it does: after its two awaits there is no call any more. */
  lemma LeaveEndsCall(s: State, h: Id, now: int, ok: bool, later: int, okLater: bool)
    requires h in s.frames && s.frames[h] == LeaveClear
    ensures var cleared := Apply(s, Resume(h, now, ok));
            && Enabled(cleared, Resume(h, later, okLater))
            && var gone := Apply(cleared, Resume(h, later, okLater));
               gone.active.None? && gone.entry.None? && h !in gone.frames
  {
  }

  // ---------------------------------------------------------------- who is in the call

  /** Everybody is taken out: the call rang out, or a handler that ends it went on. */
  predicate ClearsCall(s: State, e: Event) {
    || (e.RingFires? && PendingEntry(s) && InCall(s) <= 1)
    || (e.Resume? && e.h in s.frames
        && (s.frames[e.h].EndClear? || s.frames[e.h].GraceClear? || s.frames[e.h].LeaveClear?))
  }

  /** The step brings a user into the call with a socket. */
  predicate Brings(s: State, e: Event, user: Id, socket: Id) {
    && e.Resume? && e.h in s.frames
    && match s.frames[e.h]
       case JoinPresence(u, k) => u == user && k == socket
       case AcceptKey(u, k, call) =>
         (u == user && k == socket) || (call.inviterId == user && call.inviterSocketId == socket)
       case _ => false
  }

  /** The step takes a user's socket out of the call. */
  predicate Takes(s: State, e: Event, user: Id, socket: Id) {
    || (e.Leave? && e.user == user && e.socket == socket)
    || GoesOn(s, e, DropSweep(user, socket))
  }

  /** A socket is in the call after a step exactly if the step brings it, or it was there and is not taken out. */
  lemma InCallIff(s: State, e: Event, user: Id, socket: Id)
    requires Enabled(s, e)
    ensures socket in SocketsIn(Apply(s, e), user) <==>
              Brings(s, e, user, socket)
              || (socket in SocketsIn(s, user) && !Takes(s, e, user, socket) && !ClearsCall(s, e))
  {
    if e.Resume? {
      InCallAfterResume(s, e.h, e.now, e.ok, user, socket);
    } else if e.Leave? {
      InCallAfterLeave(s, e.h, e.user, e.socket, user);
    } else {
      InCallOtherwise(s, e, user);
    }
  }

  lemma InCallAfterLeave(s: State, h: Id, u: Id, k: Id, user: Id)
    ensures SocketsIn(OnLeave(s, h, u, k), user) == SocketsIn(s, user) - (if u == user then {k} else {})
  {
    if s.active.Some? {
      OneSocketChanges(s.active.value, u, k, user);
    }
  }

  lemma InCallOtherwise(s: State, e: Event, user: Id)
    requires Enabled(s, e) && !e.Resume? && !e.Leave?
    ensures SocketsIn(Apply(s, e), user) == if ClearsCall(s, e) then {} else SocketsIn(s, user)
  {
  }

  lemma InCallAfterResume(s: State, h: Id, now: int, ok: bool, user: Id, socket: Id)
    requires h in s.frames
    ensures var e := Resume(h, now, ok);
            socket in SocketsIn(Continue(s, h, now, ok), user) <==>
              Brings(s, e, user, socket)
              || (socket in SocketsIn(s, user) && !Takes(s, e, user, socket) && !ClearsCall(s, e))
  {
    var p := if s.active.Some? then s.active.value else map[];
    match s.frames[h]
    case JoinPresence(u, k) => OneSocketChanges(p, u, k, user);
    case DropSweep(u, k) => DropTakes(s, h, now, ok, u, k, user);
    case AcceptKey(u, k, call) => AcceptBrings(p, call, u, k, user);
    case _ =>
  }

  lemma DropTakes(s: State, h: Id, now: int, ok: bool, u: Id, k: Id, user: Id)
    requires h in s.frames && s.frames[h] == DropSweep(u, k)
    ensures SocketsIn(Continue(s, h, now, ok), user) == SocketsIn(s, user) - (if u == user then {k} else {})
  {
    if s.active.Some? {
      OneSocketChanges(s.active.value, u, k, user);
    }
  }

  lemma AcceptBrings(p: Participants, call: Call, u: Id, k: Id, user: Id)
    ensures SocketsOf(AddParticipant(AddParticipant(p, call.inviterId, call.inviterSocketId), u, k), user)
         == SocketsOf(p, user)
            + (if call.inviterId == user then {call.inviterSocketId} else {}) + (if u == user then {k} else {})
  {
    OneSocketChanges(p, call.inviterId, call.inviterSocketId, user);
    OneSocketChanges(AddParticipant(p, call.inviterId, call.inviterSocketId), u, k, user);
  }

  // ---------------------------------------------------------------- the timers

  /** The ring timer is armed by an invite that has its key, for its inviter. */
  predicate ArmsRing(s: State, e: Event) {
    e.Resume? && e.h in s.frames && s.frames[e.h].InviteKey?
  }

  /** It is cleared when it fires, and by whatever answers or ends the call. */
  predicate ClearsRing(s: State, e: Event) {
    || e.RingFires?
    || (e.Accept? && s.entry.Some? && s.entry.value.call.inviterId != e.user)
    || (e.Decline? && !(s.entry.Some? && s.entry.value.accepted) && s.active.None?)
    || (e.GraceFires? && EndsUnanswered(s, e))
    || CalleeJoins(s, e)
    || (e.Resume? && e.h in s.frames && (s.frames[e.h].EndClear? || s.frames[e.h].GraceClear?))
  }

  lemma RingAfter(s: State, e: Event)
    requires Enabled(s, e)
    ensures Apply(s, e).ring
         == if ArmsRing(s, e) then Some(s.frames[e.h].user) else if ClearsRing(s, e) then None else s.ring
  {
  }

  /** A lost connection arms the grace timer: of the inviter while it rings, or of one of the last two in the call. */
  function GraceFor(s: State, e: Event): Option<Grace> {
    match e
    case Drop(_, user, socket) =>
      if PendingEntry(s) && socket == s.entry.value.call.inviterSocketId then Some(PendingInvite(socket, user))
      else None
    case Resume(h, _, _) =>
      if h in s.frames && s.frames[h].DropSweep? && s.active.Some? && s.frames[h].user in s.active.value
         && |RemoveParticipant(s.active.value, s.frames[h].user, s.frames[h].socket)| <= 1
      then Some(ActiveCall(s.frames[h].user)) else None
    case _ => None
  }

  /** It is cleared when it fires, when somebody joins, and by whatever answers or ends the call. */
  predicate ClearsGrace(s: State, e: Event) {
    || e.GraceFires? || e.Join?
    || (e.Accept? && s.entry.Some? && s.entry.value.call.inviterId != e.user)
    || (e.Decline? && !(s.entry.Some? && s.entry.value.accepted) && s.active.None?)
    || (e.RingFires? && PendingEntry(s) && InCall(s) <= 1)
    || (e.Resume? && e.h in s.frames && s.frames[e.h].EndClear?)
  }

  /** One that runs is not armed again. */
  lemma GraceAfter(s: State, e: Event)
    requires Enabled(s, e)
    ensures Apply(s, e).grace
         == if ClearsGrace(s, e) then None
            else if s.grace.None? && GraceFor(s, e).Some? then GraceFor(s, e) else s.grace
  {
  }

  /** When the grace of a live call runs out, the call ends unless two are in it again. */
  lemma GraceEndsCall(s: State, h: Id, now: int, ok: bool)
    requires Enabled(s, GraceFires(h)) && s.grace.value.ActiveCall? && s.active.Some?
    ensures var fired := Apply(s, GraceFires(h));
            && fired.entry == s.entry && fired.active == s.active
            && (h in fired.frames <==> InCall(s) <= 1)
            && (InCall(s) <= 1 ==>
                  var ended := Apply(fired, Resume(h, now, ok));
                  ended.entry.None? && ended.active.None? && ended.ring.None? && ended.grace.None?)
  {
  }
}
