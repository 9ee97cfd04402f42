/**
 * The participants and the alone-timer of one group conversation (src/realtime/socket.ts). As for
 * direct calls, the code between two awaits is one step and waiting handlers are frames.
 */
module GroupCalls {
  import opened Aead
  import opened Calls

  const REMINDER_MS := 120_000
  const AUTO_END_MS := 300_000

  /** An entry of `groupAloneTimers`: both timers count from `aloneSince`. */
  datatype Alone = Alone(aloneSince: int, reminded: bool)

  datatype Frame =
    | InviteLookup(user: Id, socket: Id)
    | InviteMessage // a first invite: the call is up, its system message is being written
    | JoinPresence(user: Id, socket: Id)
    | JoinLookup(user: Id, socket: Id)
    | JoinMessage(user: Id, socket: Id)
    | EndClear
    | DropSweep(user: Id, socket: Id)

  /**
   * `entry` is whether `callState` has the conversation, `active` its `activeGroupCalls`, and `grace` whether
   * the timer is running that drops an invite whose inviter has lost the connection.
   */
  datatype State = State(entry: bool, grace: bool, active: Option<Participants>, alone: Option<Alone>,
                         frames: map<Id, Frame>, now: int)

  datatype Event =
    | Invite(h: Id, user: Id, socket: Id, throttled: bool)
    | Decline
    | End(h: Id)
    | Join(h: Id, user: Id, socket: Id)
    | Leave(user: Id, socket: Id)
    | Drop(h: Id, user: Id, socket: Id, owns: bool) // `owns`: the unanswered invite came from this socket
    | GraceFires(stale: bool) // `stale`: that invite has been answered or replaced meanwhile
    | ReminderFires
    | AutoEndFires
    | Tick(later: int)
    | Resume(h: Id)

  /** Timers fire when they are due: time does not pass the end of an alone period. */
  predicate Enabled(s: State, e: Event) {
    match e
    case Invite(h, _, _, throttled) => h !in s.frames && (throttled ==> s.entry)
    case Join(h, _, _) => h !in s.frames
    case Drop(h, _, _, owns) => h !in s.frames && (owns ==> s.entry)
    case GraceFires(_) => s.grace
    case End(h) => h !in s.frames
    case Decline => true
    case Leave(_, _) => true
    case ReminderFires => s.alone.Some? && !s.alone.value.reminded && s.now >= s.alone.value.aloneSince + REMINDER_MS
    case AutoEndFires => s.alone.Some? && s.now >= s.alone.value.aloneSince + AUTO_END_MS
    case Tick(later) => later >= s.now && (s.alone.Some? ==> later <= s.alone.value.aloneSince + AUTO_END_MS)
    case Resume(h) => h in s.frames
  }

  function Users(s: State): nat {
    if s.active.None? then 0 else |s.active.value|
  }

  /** `syncGroupAloneTimer`. */
  function Sync(s: State): State {
    if Users(s) != 1 then s.(alone := None)
    else if s.alone.Some? then s
    else s.(alone := Some(Alone(s.now, false)))
  }

  /** `finishGroupCall`, up to its first await. */
  function FinishCall(s: State): State {
    s.(entry := false, active := None, alone := None)
  }

  function Enter(s: State, user: Id, socket: Id): State {
    s.(active := Some(AddParticipant(if s.active.Some? then s.active.value else map[], user, socket)))
  }

  /** A new call object replaces whatever is there. */
  function EnterNew(s: State, user: Id, socket: Id): State {
    s.(active := Some(AddParticipant(map[], user, socket)))
  }

  function RemoveAndSettle(s: State, user: Id, socket: Id): State
    requires s.active.Some?
  {
    var left := s.(active := Some(RemoveParticipant(s.active.value, user, socket)));
    if Users(left) == 0 then FinishCall(left) else Sync(left)
  }

  function OnLeave(s: State, user: Id, socket: Id): State {
    if s.active.Some? then RemoveAndSettle(s, user, socket)
    else if s.entry then s.(alone := None, entry := false)
    else s
  }

  function Done(s: State, h: Id): State {
    s.(frames := s.frames - {h})
  }

  function Wait(s: State, h: Id, f: Frame): State {
    s.(frames := s.frames[h := f])
  }

  function Continue(s: State, h: Id): State
    requires h in s.frames
  {
    match s.frames[h]
    case InviteLookup(user, socket) =>
      var entered := Enter(s.(entry := true), user, socket);
      if s.active.None? then Wait(entered, h, InviteMessage) else Done(Sync(entered), h)
    case InviteMessage => Done(Sync(s), h)
    case JoinPresence(user, socket) =>
      if s.active.Some? then Done(Sync(Enter(s, user, socket)), h)
      else if s.entry then Done(Sync(EnterNew(s, user, socket)), h)
      else Wait(s, h, JoinLookup(user, socket))
    case JoinLookup(user, socket) => Wait(s.(entry := true), h, JoinMessage(user, socket))
    case JoinMessage(user, socket) => Done(Sync(EnterNew(s, user, socket)), h)
    case EndClear => Done(FinishCall(s), h)
    case DropSweep(user, socket) =>
      if s.active.Some? && user in s.active.value then Done(RemoveAndSettle(s, user, socket), h) else Done(s, h)
  }

  function Apply(s: State, e: Event): State
    requires Enabled(s, e)
  {
    match e
    case Invite(h, user, socket, throttled) => if throttled then s else Wait(s, h, InviteLookup(user, socket))
    case Decline => FinishCall(s)
    case End(h) => Wait(s, h, EndClear)
    case Join(h, user, socket) => Wait(s.(grace := false), h, JoinPresence(user, socket))
    case Leave(user, socket) => OnLeave(s, user, socket)
    case Drop(h, user, socket, owns) => Wait(s.(grace := s.grace || owns), h, DropSweep(user, socket))
    case GraceFires(stale) => s.(grace := false, entry := s.entry && stale)
    case ReminderFires =>
      if Users(s) != 1 then s.(alone := None) else s.(alone := Some(s.alone.value.(reminded := true)))
    case AutoEndFires => if Users(s) != 1 then s.(alone := None) else FinishCall(s)
    case Tick(later) => s.(now := later)
    case Resume(h) => Continue(s, h)
  }

  // ---------------------------------------------------------------- the invariant

  predicate FirstInvite(s: State, h: Id) {
    h in s.frames && s.frames[h].InviteMessage?
  }

  ghost predicate FirstInviteInFlight(s: State) {
    exists h :: FirstInvite(s, h)
  }

  ghost predicate Inv(s: State) {
    && (s.active.Some? ==> NoEmptySets(s.active.value) && Users(s) >= 1)
    && (s.alone.Some? ==> Users(s) == 1 && s.alone.value.aloneSince <= s.now <= s.alone.value.aloneSince + AUTO_END_MS)
    && (Users(s) == 1 && s.alone.None? ==> FirstInviteInFlight(s))
  }

  ghost predicate InTime(s: State) {
    s.alone.Some? ==> s.alone.value.aloneSince <= s.now <= s.alone.value.aloneSince + AUTO_END_MS
  }

  /** The state right after `syncGroupAloneTimer`: the timer is armed exactly when one user is left. */
  ghost predicate Settled(s: State) {
    && (s.active.Some? ==> NoEmptySets(s.active.value) && Users(s) >= 1)
    && (s.alone.Some? <==> Users(s) == 1)
    && InTime(s)
  }

  lemma SyncSettles(s: State)
    requires InTime(s) && (s.active.Some? ==> NoEmptySets(s.active.value) && Users(s) >= 1)
    ensures Settled(Sync(s))
  {
  }

  lemma EnterSockets(p: Participants, user: Id, socket: Id)
    requires NoEmptySets(p)
    ensures NoEmptySets(AddParticipant(p, user, socket)) && |AddParticipant(p, user, socket)| >= 1
  {
    assert user in AddParticipant(p, user, socket);
  }

  lemma EnterSettles(s: State, user: Id, socket: Id)
    requires InTime(s) && (s.active.Some? ==> NoEmptySets(s.active.value))
    ensures Settled(Sync(Enter(s, user, socket))) && Settled(Sync(EnterNew(s, user, socket)))
    ensures Enter(s, user, socket).active.Some? && NoEmptySets(Enter(s, user, socket).active.value)
    ensures Users(Enter(s, user, socket)) >= 1
  {
    EnterSockets(if s.active.Some? then s.active.value else map[], user, socket);
    EnterSockets(map[], user, socket);
    SyncSettles(Enter(s, user, socket));
    SyncSettles(EnterNew(s, user, socket));
  }

  lemma SettleWith(s: State, p: Participants)
    requires InTime(s) && NoEmptySets(p)
    ensures var left := s.(active := Some(p)); Settled(if Users(left) == 0 then FinishCall(left) else Sync(left))
  {
    var left := s.(active := Some(p));
    if Users(left) > 0 {
      SyncSettles(left);
    }
  }

  lemma RemoveSettles(s: State, user: Id, socket: Id)
    requires s.active.Some? && NoEmptySets(s.active.value) && InTime(s)
    ensures Settled(RemoveAndSettle(s, user, socket))
    ensures RemoveAndSettle(s, user, socket).frames == s.frames
  {
    ParticipantsKeepSockets(s.active.value, user, socket);
    SettleWith(s, RemoveParticipant(s.active.value, user, socket));
  }

  lemma SettledIsInv(s: State, s': State)
    requires Settled(s) && s'.(frames := s.frames) == s
    ensures Inv(s')
  {
  }

  lemma InviteKeepsInv(s: State, h: Id)
    requires Inv(s) && h in s.frames && s.frames[h].InviteLookup?
    ensures Inv(Continue(s, h))
  {
    var f := s.frames[h];
    var started := s.(entry := true);
    EnterSettles(started, f.user, f.socket);
    if s.active.None? {
      assert FirstInvite(Continue(s, h), h);
    } else {
      SettledIsInv(Sync(Enter(started, f.user, f.socket)), Continue(s, h));
    }
  }

  lemma JoinKeepsInv(s: State, h: Id)
    requires Inv(s) && h in s.frames && (s.frames[h].JoinPresence? || s.frames[h].JoinMessage?)
    ensures Inv(Continue(s, h))
  {
    var f := s.frames[h];
    EnterSettles(s, f.user, f.socket);
    if f.JoinMessage? || (s.active.None? && s.entry) {
      SettledIsInv(Sync(EnterNew(s, f.user, f.socket)), Continue(s, h));
    } else if s.active.Some? {
      SettledIsInv(Sync(Enter(s, f.user, f.socket)), Continue(s, h));
    }
  }

  lemma ContinueKeepsInv(s: State, h: Id)
    requires Inv(s) && h in s.frames
    ensures Inv(Continue(s, h))
  {
    match s.frames[h]
    case InviteLookup(_, _) => InviteKeepsInv(s, h);
    case InviteMessage => SyncSettles(s);
    case JoinPresence(_, _) => JoinKeepsInv(s, h);
    case JoinLookup(_, _) => KeepsFlight(s, Continue(s, h), h);
    case JoinMessage(_, _) => JoinKeepsInv(s, h);
    case EndClear =>
    case DropSweep(user, socket) =>
      if s.active.Some? && user in s.active.value {
        RemoveSettles(s, user, socket);
      } else {
        KeepsFlight(s, Continue(s, h), h);
      }
  }

  lemma KeepsFlight(s: State, s': State, h: Id)
    requires forall k :: k != h && k in s.frames ==> k in s'.frames && s'.frames[k] == s.frames[k]
    requires !FirstInvite(s, h)
    ensures FirstInviteInFlight(s) ==> FirstInviteInFlight(s')
  {
    if k :| FirstInvite(s, k) {
      assert FirstInvite(s', k);
    }
  }

  lemma StepKeepsInv(s: State, e: Event)
    requires Inv(s) && Enabled(s, e)
    ensures Inv(Apply(s, e))
  {
    var s' := Apply(s, e);
    match e
    case Resume(h) => ContinueKeepsInv(s, h);
    case Leave(user, socket) =>
      if s.active.Some? {
        RemoveSettles(s, user, socket);
      }
    case Invite(h, _, _, _) => KeepsFlight(s, s', h);
    case End(h) => KeepsFlight(s, s', h);
    case Join(h, _, _) => KeepsFlight(s, s', h);
    case Drop(h, _, _, _) => KeepsFlight(s, s', h);
    case _ =>
      if k :| FirstInvite(s, k) {
        assert FirstInvite(s', k);
      }
  }

  ghost predicate Next(s: State, s': State) {
    exists e :: Enabled(s, e) && Apply(s, e) == s'
  }

  ghost predicate Run(states: seq<State>) {
    |states| > 0 && forall i :: 0 <= i < |states| - 1 ==> StepAt(states, i)
  }

  ghost predicate StepAt(states: seq<State>, i: int)
    requires 0 <= i < |states| - 1
  {
    Next(states[i], states[i + 1])
  }

  ghost predicate Start(s: State) {
    !s.entry && !s.grace && s.active.None? && s.alone.None? && s.frames == map[]
  }

  /**
   * In every state of every run: an armed alone-timer means an active call with exactly one user; one
   * user without an armed timer means that a first invite is still in flight; nobody takes part without a socket.
   */
  lemma {:induction false} AloneTimerIsRight(states: seq<State>, i: nat)
    requires Run(states) && Start(states[0]) && i < |states|
    ensures Inv(states[i])
  {
    if i > 0 {
      AloneTimerIsRight(states, i - 1);
      assert StepAt(states, i - 1);
      NextKeepsInv(states[i - 1], states[i]);
    }
  }

  lemma NextKeepsInv(s: State, s': State)
    requires Inv(s) && Next(s, s')
    ensures Inv(s')
  {
    var e :| Enabled(s, e) && Apply(s, e) == s';
    StepKeepsInv(s, e);
  }

  /** One user is in the call, and it is not just being set up. */
  ghost predicate Lone(s: State) {
    Users(s) == 1 && !FirstInviteInFlight(s)
  }

  /** A first invite comes into flight only when there is no call. */
  lemma NoNewFirstInvite(s: State, e: Event)
    requires Enabled(s, e) && s.active.Some?
    ensures FirstInviteInFlight(Apply(s, e)) ==> FirstInviteInFlight(s)
  {
    var s' := Apply(s, e);
    if h :| FirstInvite(s', h) {
      StillFirstInvite(s, e, h);
    }
  }

  lemma StillFirstInvite(s: State, e: Event, h: Id)
    requires Enabled(s, e) && s.active.Some? && FirstInvite(Apply(s, e), h)
    ensures FirstInvite(s, h)
  {
    match e
    case Resume(q) => ContinueFirstInvite(s, q, h);
    case Leave(user, socket) => SettleFrames(s, user, socket);
    case _ =>
  }

  lemma SettleFrames(s: State, user: Id, socket: Id)
    requires s.active.Some?
    ensures RemoveAndSettle(s, user, socket).frames == s.frames
  {
  }

  lemma FirstInviteBefore(s: State, x: State, q: Id, h: Id)
    requires x.frames == s.frames && FirstInvite(Done(x, q), h)
    ensures FirstInvite(s, h)
  {
  }

  lemma FirstInviteSynced(s: State, x: State, q: Id, h: Id)
    requires x.frames == s.frames && FirstInvite(Done(Sync(x), q), h)
    ensures FirstInvite(s, h)
  {
  }

  /** A handler of a call that is up waits for nothing new that writes a started message. */
  lemma ContinueFirstInvite(s: State, q: Id, h: Id)
    requires q in s.frames && s.active.Some? && FirstInvite(Continue(s, q), h)
    ensures FirstInvite(s, h)
  {
    match s.frames[q]
    case InviteLookup(user, socket) => FirstInviteSynced(s, Enter(s.(entry := true), user, socket), q, h);
    case InviteMessage => FirstInviteSynced(s, s, q, h);
    case JoinPresence(user, socket) => FirstInviteSynced(s, Enter(s, user, socket), q, h);
    case JoinLookup(_, _) =>
    case JoinMessage(user, socket) => FirstInviteSynced(s, EnterNew(s, user, socket), q, h);
    case EndClear => FirstInviteBefore(s, FinishCall(s), q, h);
    case DropSweep(user, socket) =>
      SettleFrames(s, user, socket);
      FirstInviteBefore(s, if user in s.active.value then RemoveAndSettle(s, user, socket) else s, q, h);
  }

  /** While somebody is alone, the timer that is running keeps running. */
  lemma TimerKeepsRunning(s: State, s': State)
    requires Inv(s) && Next(s, s') && Lone(s) && Users(s') == 1
    ensures Lone(s') && s.alone.Some? && s'.alone.Some? && s'.alone.value.aloneSince == s.alone.value.aloneSince
  {
    NextKeepsInv(s, s');
    var e :| Enabled(s, e) && Apply(s, e) == s';
    NoNewFirstInvite(s, e);
    SameAlone(s, e);
  }

  /** No step disarms a timer and arms another. */
  lemma SameAlone(s: State, e: Event)
    requires Enabled(s, e) && s.alone.Some? && Apply(s, e).alone.Some?
    ensures Apply(s, e).alone.value.aloneSince == s.alone.value.aloneSince
  {
    if e.Resume? {
      ContinueSameAlone(s, e.h);
    }
  }

  lemma SyncSameAlone(s: State, s': State)
    requires s'.alone == s.alone && s.alone.Some? && Sync(s').alone.Some?
    ensures Sync(s').alone == s.alone
  {
  }

  lemma SettleSameAlone(s: State, user: Id, socket: Id)
    requires s.active.Some? && s.alone.Some? && RemoveAndSettle(s, user, socket).alone.Some?
    ensures RemoveAndSettle(s, user, socket).alone == s.alone
  {
    SyncSameAlone(s, s.(active := Some(RemoveParticipant(s.active.value, user, socket))));
  }

  lemma ContinueSameAlone(s: State, h: Id)
    requires h in s.frames && s.alone.Some? && Continue(s, h).alone.Some?
    ensures Continue(s, h).alone == s.alone
  {
    match s.frames[h]
    case InviteLookup(user, socket) =>
      if s.active.Some? {
        SyncSameAlone(s, Enter(s.(entry := true), user, socket));
      }
    case DropSweep(user, socket) =>
      if s.active.Some? && user in s.active.value {
        SettleSameAlone(s, user, socket);
      }
    case _ =>
  }

  lemma LoneIsArmed(states: seq<State>, i: nat)
    requires Run(states) && Start(states[0]) && i < |states| && Lone(states[i])
    ensures states[i].alone.Some?
  {
    AloneTimerIsRight(states, i);
  }

  lemma TimerAfterStep(states: seq<State>, j: nat)
    requires Run(states) && Start(states[0]) && 0 < j < |states|
    requires Lone(states[j - 1]) && Users(states[j]) == 1
    ensures Lone(states[j]) && states[j - 1].alone.Some? && states[j].alone.Some?
    ensures states[j].alone.value.aloneSince == states[j - 1].alone.value.aloneSince
  {
    AloneTimerIsRight(states, j - 1);
    assert StepAt(states, j - 1);
    TimerKeepsRunning(states[j - 1], states[j]);
  }

  ghost predicate OneUserThroughout(states: seq<State>, i: nat, j: nat)
    requires i <= j < |states|
  {
    forall k :: i <= k <= j ==> Users(states[k]) == 1
  }

  lemma {:induction false} SameTimer(states: seq<State>, i: nat, j: nat)
    requires Run(states) && Start(states[0]) && i <= j < |states|
    requires Lone(states[i]) && OneUserThroughout(states, i, j)
    ensures Lone(states[j]) && states[i].alone.Some? && states[j].alone.Some?
    ensures states[j].alone.value.aloneSince == states[i].alone.value.aloneSince
  {
    if i == j {
      LoneIsArmed(states, i);
    } else {
      SameTimer(states, i, j - 1);
      TimerAfterStep(states, j);
    }
  }

  /** From the moment the call is set up, nobody stays alone in it for more than five minutes. */
  lemma LoneCallEndsInTime(states: seq<State>, i: nat, j: nat)
    requires Run(states) && Start(states[0]) && i <= j < |states|
    requires Lone(states[i]) && OneUserThroughout(states, i, j)
    ensures states[j].now - states[i].now <= AUTO_END_MS
  {
    SameTimer(states, i, j);
    AloneTimerIsRight(states, i);
    AloneTimerIsRight(states, j);
  }

  lemma NobodyHasSockets(p: Participants)
    ensures |p| == 0 ==> forall u :: SocketsOf(p, u) == {}
  {
  }

  // ---------------------------------------------------------------- the helpers as they update the maps

  /** The entries of the module's maps for this conversation, and the helpers and handler tails that change them. */
  class Conversation {
    var entry: bool
    var grace: bool
    var active: Option<Participants>
    var alone: Option<Alone>
    var now: int

    function View(frames: map<Id, Frame>): State
      reads this
    {
      State(entry, grace, active, alone, frames, now)
    }

    /** The sockets with which a user takes part. */
    function Sockets(user: Id): set<Id>
      reads this
    {
      if active.Some? then SocketsOf(active.value, user) else {}
    }

    ghost predicate Valid()
      reads this
    {
      active.Some? ==> NoEmptySets(active.value)
    }

    constructor (now: int)
      ensures Valid() && View(map[]) == State(false, false, None, None, map[], now)
    {
      entry, grace, active, alone := false, false, None, None;
      this.now := now;
    }

    method AddParticipant(user: Id, socket: Id)
      requires Valid() && active.Some?
      modifies this`active
      ensures Valid() && View(map[]) == Enter(old(View(map[])), user, socket)
      ensures forall u :: Sockets(u) == old(Sockets(u)) + (if u == user then {socket} else {})
    {
      var participants := active.value;
      ghost var before := participants;
      var existing := if user in participants then participants[user] else {};
      existing := existing + {socket};
      active := Some(participants[user := existing]);
      ParticipantsKeepSockets(before, user, socket);
      forall u
        ensures Sockets(u) == SocketsOf(before, u) + (if u == user then {socket} else {})
      {
        OneSocketChanges(before, user, socket, u);
      }
    }

    /** The socket is gone, every other one is still there, and a user without sockets does not take part. */
    method RemoveParticipant(user: Id, socket: Id)
      requires Valid() && active.Some?
      modifies this`active
      ensures Valid() && active.Some?
      ensures forall u :: Sockets(u) == old(Sockets(u)) - (if u == user then {socket} else {})
      ensures forall u :: u in active.value <==> Sockets(u) != {}
      ensures active.value == Calls.RemoveParticipant(old(active.value), user, socket)
    {
      var participants := active.value;
      ghost var before := participants;
      if user in participants {
        var existing := participants[user] - {socket};
        if existing == {} {
          active := Some(participants - {user});
        } else {
          active := Some(participants[user := existing]);
        }
      }
      ParticipantsKeepSockets(before, user, socket);
      forall u
        ensures Sockets(u) == SocketsOf(before, u) - (if u == user then {socket} else {})
      {
        OneSocketChanges(before, user, socket, u);
      }
    }

    /** The timer is armed exactly if one user is left; one that was armed runs on, a new one counts from now. */
    method SyncGroupAloneTimer()
      modifies this`alone
      ensures alone.Some? <==> active.Some? && |active.value| == 1
      ensures alone.Some? ==> alone == if old(alone).Some? then old(alone) else Some(Alone(now, false))
      ensures View(map[]) == Sync(old(View(map[])))
    {
      if active.None? || |active.value| != 1 {
        alone := None;
        return;
      }
      if alone.Some? {
        return;
      }
      alone := Some(Alone(now, false));
    }

    method FinishGroupCall()
      modifies this`entry, this`active, this`alone
      ensures !entry && active.None? && alone.None?
      ensures View(map[]) == FinishCall(old(View(map[])))
    {
      if active.None? && !entry {
        alone := None;
        return;
      }
      alone := None;
      active := None;
      entry := false;
    }

    /** The part of leaving that the two disconnect paths share: out with the socket, then settle the call. */
    method Settle(user: Id, socket: Id)
      requires Valid() && active.Some?
      modifies this`entry, this`active, this`alone
      ensures Valid() && View(map[]) == RemoveAndSettle(old(View(map[])), user, socket)
      ensures forall u :: Sockets(u) == old(Sockets(u)) - (if u == user then {socket} else {})
    {
      RemoveParticipant(user, socket);
      NobodyHasSockets(active.value);
      if |active.value| == 0 {
        FinishGroupCall();
      } else {
        SyncGroupAloneTimer();
      }
    }

    /**
     * `call:room:leave`, once the socket has left the presence rooms: the `Leave` step. The socket is gone;
     * without any socket left the call is over, and otherwise the timer is armed exactly if one user is left.
     */
    method RoomLeave(user: Id, socket: Id)
      requires Valid()
      modifies this`entry, this`active, this`alone
      ensures Valid() && View(map[]) == Apply(old(View(map[])), Leave(user, socket))
      ensures forall u :: Sockets(u) == old(Sockets(u)) - (if u == user then {socket} else {})
      ensures active.None? ==> !entry
      ensures active.Some? ==> |active.value| > 0 && (alone.Some? <==> |active.value| == 1)
    {
      if active.None? {
        if entry {
          alone := None;
          entry := false;
        }
        return;
      }
      Settle(user, socket);
    }

    /** `call:room:join` of a call that is already there, once the socket has joined the presence rooms. */
    method RoomJoin(user: Id, socket: Id)
      requires Valid() && active.Some?
      modifies this`active, this`alone
      ensures Valid() && View(map[]) == Continue(old(View(map[0 := JoinPresence(user, socket)])), 0)
      ensures forall u :: Sockets(u) == old(Sockets(u)) + (if u == user then {socket} else {})
      ensures alone.Some? <==> |active.value| == 1
    {
      ghost var frames: map<Id, Frame> := map[0 := JoinPresence(user, socket)];
      assert frames - {0} == map[];
      AddParticipant(user, socket);
      SyncGroupAloneTimer();
    }
  }
}
