/**
 * The signalling of one 1:1 conversation (src/realtime/socket.ts) as a state machine. The code of a
 * handler between two awaits is one step; handlers that wait are frames in the state, and every
 * interleaving of them with each other and with the timers is a run.
 */
module DirectCalls {
  import opened Aead
  import opened Calls

  /** What `call:invite` writes into `callState`, apart from the flag. */
  datatype Call = Call(inviterId: Id, inviterSocketId: Id, video: bool, startedAt: int)

  /** `serial` is history: how many calls were installed before this one. */
  datatype Entry = Entry(call: Call, accepted: bool, serial: nat)

  /** What became of a call: a "missed" or an "ended" system message, or no message at all. */
  datatype Kind = Missed | Ended | Unrecorded

  /** `serial` is history: which installed entry the message consumed. */
  datatype Note = Note(serial: nat, kind: Kind)

  /** The one grace timer of the conversation. */
  datatype Grace = PendingInvite(deadSocket: Id, inviterId: Id) | ActiveCall(endedBy: Id)

  /** A handler waiting at an await, with what it still holds. */
  datatype Frame =
    | InviteLookup(user: Id, socket: Id, video: bool)
    | InviteKey(user: Id, serial: nat)
    | AcceptKey(user: Id, socket: Id, call: Call)
    | EndClear(snapshot: Option<Entry>)
    | JoinPresence(user: Id, socket: Id)
    | LeaveClear
    | LeaveLookup
    | DropSweep(user: Id, socket: Id)
    | GraceClear
    | Write(note: Note)

  /**
   * `entry` is the conversation's `callState`, `active` its `activeDirectCalls`, `ring` and `grace` its
   * timers, `log` what became of earlier calls, the messages written among them. History: `installs` are
   * the calls installed so far, `disarmed` those a `call:end` that had found no call left without a timer.
   */
  datatype State = State(entry: Option<Entry>, active: Option<Participants>, ring: Option<Id>, grace: Option<Grace>,
                         frames: map<Id, Frame>, log: seq<Note>, installs: seq<Call>, disarmed: set<nat>)

  datatype Event =
    | Invite(h: Id, user: Id, socket: Id, video: bool, throttled: bool)
    | Accept(h: Id, user: Id, socket: Id)
    | Decline(h: Id, user: Id)
    | End(h: Id, user: Id)
    | Join(h: Id, user: Id, socket: Id)
    | Leave(h: Id, user: Id, socket: Id)
    | Drop(h: Id, user: Id, socket: Id)
    | RingFires(h: Id)
    | GraceFires(h: Id)
    | Resume(h: Id, now: int, ok: bool) // `ok`: the database call did not throw

  predicate Enabled(s: State, e: Event) {
    match e
    case Invite(h, _, _, _, throttled) => h !in s.frames && (throttled ==> s.entry.Some?)
    case RingFires(h) => h !in s.frames && s.ring.Some?
    case GraceFires(h) => h !in s.frames && s.grace.Some?
    case Resume(h, _, _) => h in s.frames
    case _ => e.h !in s.frames
  }

  function Wait(s: State, h: Id, f: Frame): State {
    s.(frames := s.frames[h := f])
  }

  function Finish(s: State, h: Id): State {
    s.(frames := s.frames - {h})
  }

  /** The entry is taken out of `callState` to be recorded. */
  function Claim(s: State, h: Id, kind: Kind): State
    requires s.entry.Some?
  {
    Wait(s.(entry := None), h, Write(Note(s.entry.value.serial, kind)))
  }

  /** The entry is dropped, or overwritten, without a message. */
  function Forget(s: State): State {
    if s.entry.None? then s else s.(entry := None, log := s.log + [Note(s.entry.value.serial, Unrecorded)])
  }

  function Size(active: Option<Participants>): nat {
    if active.None? then 0 else |active.value|
  }

  function Enter(active: Option<Participants>, user: Id, socket: Id): Option<Participants> {
    Some(AddParticipant(if active.Some? then active.value else map[], user, socket))
  }

  predicate PendingEntry(s: State) {
    s.entry.Some? && !s.entry.value.accepted
  }

  function CurrentSerial(s: State): set<nat> {
    if s.entry.Some? then {s.entry.value.serial} else {}
  }

  /** The invite of the current call that has not armed its timer yet. */
  predicate Arming(s: State, h: Id) {
    h in s.frames && s.frames[h].InviteKey? && s.entry.Some? && s.frames[h].serial == s.entry.value.serial
  }

  predicate BeingArmed(s: State) {
    exists h :: h in s.frames && Arming(s, h)
  }

  // ---------------------------------------------------------------- handlers, up to the first await

  function OnAccept(s: State, h: Id, user: Id, socket: Id): State {
    if s.entry.None? || s.entry.value.call.inviterId == user then s
    else Wait(s.(entry := Some(s.entry.value.(accepted := true)), ring := None, grace := None), h,
              AcceptKey(user, socket, s.entry.value.call))
  }

  function OnDecline(s: State, h: Id): State {
    if (s.entry.Some? && s.entry.value.accepted) || s.active.Some? then s
    else
      var cleared := s.(ring := None, grace := None);
      if s.entry.Some? then Claim(cleared, h, Missed) else cleared
  }

  function OnLeave(s: State, h: Id, user: Id, socket: Id): State {
    if s.active.None? then Forget(s)
    else
      var left := s.(active := Some(RemoveParticipant(s.active.value, user, socket)));
      if Size(left.active) <= 1 then Wait(left, h, LeaveClear) else left
  }

  function OnDrop(s: State, h: Id, user: Id, socket: Id): State {
    var waiting := if PendingEntry(s) && s.entry.value.call.inviterSocketId == socket && s.grace.None?
                   then s.(grace := Some(PendingInvite(socket, user))) else s;
    Wait(waiting, h, DropSweep(user, socket))
  }

  function OnRing(s: State, h: Id): State {
    var fired := s.(ring := None);
    if !PendingEntry(s) then fired
    else if Size(s.active) >= 2 then fired.(entry := Some(s.entry.value.(accepted := true)))
    else Claim(fired.(active := None, grace := None), h, Missed)
  }

  function OnGrace(s: State, h: Id): State
    requires s.grace.Some?
  {
    var fired := s.(grace := None);
    match s.grace.value
    case PendingInvite(deadSocket, _) =>
      var gone := PendingEntry(s) && s.entry.value.call.inviterSocketId == deadSocket;
      if gone then Forget(fired).(ring := None) else fired
    case ActiveCall(_) =>
      if s.active.None? || Size(s.active) >= 2 then fired else Wait(fired, h, GraceClear)
  }

  // ---------------------------------------------------------------- handlers, after an await

  /** `callState.set` of a new call; an entry that is still there has been accepted, and is overwritten. */
  function Install(s: State, h: Id, call: Call): State {
    Wait(Forget(s).(entry := Some(Entry(call, false, |s.installs|)), installs := s.installs + [call]), h,
         InviteKey(call.inviterId, |s.installs|))
  }

  function AfterEndClear(s: State, h: Id, snapshot: Option<Entry>): State {
    var cleared := Finish(s.(active := None, ring := None, grace := None), h);
    if snapshot.None? then
      if PendingEntry(s) && !BeingArmed(s) then cleared.(disarmed := s.disarmed + {s.entry.value.serial}) else cleared
    else if s.entry.None? then cleared
    else Claim(cleared, h, if snapshot.value.accepted then Ended else Missed)
  }

  function AfterGraceClear(s: State, h: Id): State {
    var cleared := Finish(s.(active := None, ring := None), h);
    if s.entry.Some? && s.entry.value.accepted then Claim(cleared, h, Ended) else Forget(cleared)
  }

  function AfterJoin(s: State, h: Id, user: Id, socket: Id): State {
    var answered := if PendingEntry(s) && s.entry.value.call.inviterId != user
                    then s.(entry := Some(s.entry.value.(accepted := true)), ring := None) else s;
    Finish(answered.(active := Enter(s.active, user, socket)), h)
  }

  function AfterDrop(s: State, h: Id, user: Id, socket: Id): State {
    if s.active.None? || user !in s.active.value then Finish(s, h)
    else
      var left := s.(active := Some(RemoveParticipant(s.active.value, user, socket)));
      Finish(if Size(left.active) <= 1 && s.grace.None? then left.(grace := Some(ActiveCall(user))) else left, h)
  }

  function Continue(s: State, h: Id, now: int, ok: bool): State
    requires h in s.frames
  {
    match s.frames[h]
    case InviteLookup(user, socket, video) =>
      if PendingEntry(s) then Finish(s, h) else Install(s, h, Call(user, socket, video, now))
    case InviteKey(user, _) => Finish(s.(ring := Some(user), disarmed := s.disarmed - CurrentSerial(s)), h)
    case AcceptKey(user, socket, call) =>
      Finish(s.(active := Enter(Enter(s.active, call.inviterId, call.inviterSocketId), user, socket)), h)
    case EndClear(snapshot) => AfterEndClear(s, h, snapshot)
    case JoinPresence(user, socket) => AfterJoin(s, h, user, socket)
    case LeaveClear => Wait(s.(active := None), h, LeaveLookup)
    case LeaveLookup => Finish(Forget(s), h)
    case DropSweep(user, socket) => AfterDrop(s, h, user, socket)
    case GraceClear => AfterGraceClear(s, h)
    case Write(note) => Finish(s.(log := s.log + [if ok then note else note.(kind := Unrecorded)]), h)
  }

  function Apply(s: State, e: Event): State
    requires Enabled(s, e)
  {
    match e
    case Invite(h, user, socket, video, throttled) =>
      if throttled then s else Wait(s, h, InviteLookup(user, socket, video))
    case Accept(h, user, socket) => OnAccept(s, h, user, socket)
    case Decline(h, _) => OnDecline(s, h)
    case End(h, _) => Wait(s, h, EndClear(s.entry))
    case Join(h, user, socket) => Wait(s.(grace := None), h, JoinPresence(user, socket))
    case Leave(h, user, socket) => OnLeave(s, h, user, socket)
    case Drop(h, user, socket) => OnDrop(s, h, user, socket)
    case RingFires(h) => OnRing(s, h)
    case GraceFires(h) => OnGrace(s, h)
    case Resume(h, now, ok) => Continue(s, h, now, ok)
  }

  ghost predicate Next(s: State, s': State) {
    exists e :: Enabled(s, e) && Apply(s, e) == s'
  }

  ghost predicate Run(states: seq<State>) {
    |states| > 0 && forall i :: 0 <= i < |states| - 1 ==> StepAt(states, i)
  }

  ghost predicate StepAt(states: seq<State>, i: int)
    requires 0 <= i < |states| - 1
  {
    Next(states[i], states[i + 1])
  }

  ghost predicate Start(s: State) {
    s == State(None, None, None, None, map[], [], [], {})
  }

  // ---------------------------------------------------------------- every record consumes its own entry

  predicate Writing(s: State, h: Id) {
    h in s.frames && s.frames[h].Write?
  }

  function NoteOf(s: State, h: Id): Note
    requires Writing(s, h)
  {
    s.frames[h].note
  }

  /** The current entry is the call installed last, unchanged but for the flag. */
  ghost predicate EntryTracked(s: State) {
    s.entry.Some? ==>
      s.entry.value.serial == |s.installs| - 1 && s.entry.value.call == s.installs[s.entry.value.serial]
  }

  predicate Spent(s: State, serial: nat) {
    serial < |s.installs| && (s.entry.Some? ==> serial != s.entry.value.serial)
  }

  /** No two records, written or being written, are about the same installed call, and none is about the current one. */
  ghost predicate RecordsDistinct(s: State) {
    && (forall i :: 0 <= i < |s.log| ==> Spent(s, s.log[i].serial))
    && (forall h :: Writing(s, h) ==> Spent(s, NoteOf(s, h).serial))
    && (forall i, j :: 0 <= i < j < |s.log| ==> s.log[i].serial != s.log[j].serial)
    && (forall h, k :: Writing(s, h) && Writing(s, k) && h != k ==> NoteOf(s, h).serial != NoteOf(s, k).serial)
    && (forall i, h :: 0 <= i < |s.log| && Writing(s, h) ==> s.log[i].serial != NoteOf(s, h).serial)
  }

  predicate Logged(s: State, serial: nat) {
    exists i :: 0 <= i < |s.log| && s.log[i].serial == serial
  }

  ghost predicate BeingWritten(s: State, serial: nat) {
    exists h :: Writing(s, h) && NoteOf(s, h).serial == serial
  }

  /** The fate of an installed call is known, or it is the current one. */
  ghost predicate Accounted(s: State, serial: nat) {
    (s.entry.Some? && s.entry.value.serial == serial) || Logged(s, serial) || BeingWritten(s, serial)
  }

  ghost predicate AllAccounted(s: State) {
    forall serial: nat :: serial < |s.installs| ==> Accounted(s, serial)
  }

  /** What the records of a conversation satisfy between any two steps. */
  ghost predicate Books(s: State) {
    EntryTracked(s) && RecordsDistinct(s) && AllAccounted(s)
  }

  ghost predicate Inv(s: State) {
    Books(s) && (s.active.Some? ==> NoEmptySets(s.active.value))
  }

  ghost predicate SameWriters(s: State, s': State) {
    && (forall h :: Writing(s', h) ==> Writing(s, h) && s'.frames[h] == s.frames[h])
    && (forall h :: Writing(s, h) ==> Writing(s', h))
  }

  /** The entry stays, perhaps with its flag set. */
  ghost predicate Keeps(s: State, s': State) {
    && s'.log == s.log && s'.installs == s.installs && SameWriters(s, s')
    && (s'.entry.Some? <==> s.entry.Some?)
    && (s'.entry.Some? ==> s'.entry.value.(accepted := false) == s.entry.value.(accepted := false))
  }

  lemma KeepsBooks(s: State, s': State)
    requires Books(s) && Keeps(s, s')
    ensures Books(s')
  {
    forall serial: nat | serial < |s'.installs|
      ensures Accounted(s', serial)
    {
      assert Accounted(s, serial);
      if BeingWritten(s, serial) {
        var h :| Writing(s, h) && NoteOf(s, h).serial == serial;
        assert Writing(s', h);
      }
    }
  }

  /** The entry goes without a message. */
  ghost predicate Forgets(s: State, s': State) {
    s'.entry.None? && s'.log == Forget(s).log && s'.installs == s.installs && SameWriters(s, s')
  }

  lemma AppendLogged(s: State, s': State, note: Note)
    requires s'.log == s.log + [note]
    ensures forall serial: nat :: Logged(s', serial) <==> Logged(s, serial) || serial == note.serial
  {
    assert s'.log[|s.log|] == note;
    forall serial: nat | Logged(s, serial)
      ensures Logged(s', serial)
    {
      var i :| 0 <= i < |s.log| && s.log[i].serial == serial;
      assert s'.log[i] == s.log[i];
    }
  }

  lemma ForgetsBooks(s: State, s': State)
    requires Books(s) && Forgets(s, s')
    ensures Books(s')
  {
    if s.entry.Some? {
      AppendLogged(s, s', Note(s.entry.value.serial, Unrecorded));
    }
    forall serial: nat | serial < |s'.installs|
      ensures Accounted(s', serial)
    {
      assert Accounted(s, serial);
      if BeingWritten(s, serial) {
        var h :| Writing(s, h) && NoteOf(s, h).serial == serial;
        assert Writing(s', h);
      }
    }
  }

  /** Taking the entry out and waiting to record it. */
  ghost predicate Claims(s: State, s': State, h: Id) {
    && s.entry.Some? && s'.entry.None? && s'.log == s.log && s'.installs == s.installs
    && !Writing(s, h) && Writing(s', h) && NoteOf(s', h).serial == s.entry.value.serial
    && (forall k :: Writing(s', k) && k != h ==> Writing(s, k) && s'.frames[k] == s.frames[k])
    && (forall k :: Writing(s, k) ==> Writing(s', k))
  }

  lemma ClaimsBooks(s: State, s': State, h: Id)
    requires Books(s) && Claims(s, s', h)
    ensures Books(s')
  {
    forall serial: nat | serial < |s'.installs|
      ensures Accounted(s', serial)
    {
      assert Accounted(s, serial);
      if BeingWritten(s, serial) {
        var k :| Writing(s, k) && NoteOf(s, k).serial == serial;
        assert Writing(s', k);
      }
    }
  }

  lemma InstallsBooks(s: State, h: Id, call: Call)
    requires Books(s) && h in s.frames && !Writing(s, h)
    ensures Books(Install(s, h, call))
  {
    var f := Forget(s);
    ForgetsBooks(s, f);
    var s' := Install(s, h, call);
    assert SameWriters(f, s');
    forall serial: nat | serial < |s'.installs|
      ensures Accounted(s', serial)
    {
      if serial < |s.installs| {
        assert Accounted(f, serial);
        if BeingWritten(f, serial) {
          var k :| Writing(f, k) && NoteOf(f, k).serial == serial;
          assert Writing(s', k);
        }
      }
    }
  }

  lemma WritesBooks(s: State, h: Id, ok: bool)
    requires Books(s) && Writing(s, h)
    ensures Books(Continue(s, h, 0, ok))
  {
    var s' := Continue(s, h, 0, ok);
    var note := if ok then NoteOf(s, h) else NoteOf(s, h).(kind := Unrecorded);
    assert forall k :: Writing(s', k) ==> Writing(s, k) && k != h && s'.frames[k] == s.frames[k];
    AppendLogged(s, s', note);
    forall serial: nat | serial < |s'.installs|
      ensures Accounted(s', serial)
    {
      assert Accounted(s, serial);
      if BeingWritten(s, serial) {
        var k :| Writing(s, k) && NoteOf(s, k).serial == serial;
        assert k != h ==> Writing(s', k);
      }
    }
  }

  /** A step that installs a call, and the call. */
  ghost predicate Installs(s: State, e: Event, s': State) {
    && e.Resume? && e.h in s.frames && s.frames[e.h].InviteLookup? && !PendingEntry(s)
    && s' == Install(s, e.h, Call(s.frames[e.h].user, s.frames[e.h].socket, s.frames[e.h].video, e.now))
  }

  ghost predicate Writes(s: State, e: Event, s': State) {
    e.Resume? && Writing(s, e.h) && s' == Continue(s, e.h, 0, e.ok)
  }

  lemma DeclineKinds(s: State, h: Id)
    requires h !in s.frames
    ensures var s' := OnDecline(s, h); Keeps(s, s') || Claims(s, s', h)
  {
  }

  lemma LeaveKinds(s: State, h: Id, user: Id, socket: Id)
    requires h !in s.frames
    ensures var s' := OnLeave(s, h, user, socket); Keeps(s, s') || Forgets(s, s')
  {
  }

  lemma RingKinds(s: State, h: Id)
    requires h !in s.frames
    ensures var s' := OnRing(s, h); Keeps(s, s') || Claims(s, s', h)
  {
  }

  lemma GraceFiresKinds(s: State, h: Id)
    requires h !in s.frames && s.grace.Some?
    ensures var s' := OnGrace(s, h); Keeps(s, s') || Forgets(s, s')
  {
  }

  lemma AcceptKinds(s: State, h: Id, user: Id, socket: Id)
    requires h !in s.frames
    ensures Keeps(s, OnAccept(s, h, user, socket)) && Keeps(s, OnDrop(s, h, user, socket))
  {
  }

  /** Every step keeps the entry, forgets it, claims it, installs one, or writes a message. */
  lemma StepKinds(s: State, e: Event)
    requires Enabled(s, e)
    ensures var s' := Apply(s, e);
            Keeps(s, s') || Forgets(s, s') || Claims(s, s', e.h) || Installs(s, e, s') || Writes(s, e, s')
  {
    match e
    case Resume(_, _, _) => ResumeKinds(s, e);
    case Decline(h, _) => DeclineKinds(s, h);
    case Leave(h, user, socket) => LeaveKinds(s, h, user, socket);
    case RingFires(h) => RingKinds(s, h);
    case GraceFires(h) => GraceFiresKinds(s, h);
    case Accept(h, user, socket) => AcceptKinds(s, h, user, socket);
    case Drop(h, user, socket) => AcceptKinds(s, h, user, socket);
    case _ =>
  }

  lemma ResumeKinds(s: State, e: Event)
    requires e.Resume? && e.h in s.frames
    ensures var s' := Continue(s, e.h, e.now, e.ok);
            Keeps(s, s') || Forgets(s, s') || Claims(s, s', e.h) || Installs(s, e, s') || Writes(s, e, s')
  {
    match s.frames[e.h]
    case EndClear(snapshot) => EndKinds(s, e.h, snapshot);
    case GraceClear => GraceKinds(s, e.h);
    case _ =>
  }

  lemma EndKinds(s: State, h: Id, snapshot: Option<Entry>)
    requires h in s.frames && s.frames[h].EndClear?
    ensures var s' := AfterEndClear(s, h, snapshot); Keeps(s, s') || Claims(s, s', h)
  {
  }

  lemma GraceKinds(s: State, h: Id)
    requires h in s.frames && s.frames[h].GraceClear?
    ensures var s' := AfterGraceClear(s, h); Forgets(s, s') || Claims(s, s', h)
  {
  }

  lemma ActiveKeepsSockets(s: State, e: Event)
    requires Enabled(s, e) && (s.active.Some? ==> NoEmptySets(s.active.value))
    ensures Apply(s, e).active.Some? ==> NoEmptySets(Apply(s, e).active.value)
  {
    match e
    case Leave(h, user, socket) => OnLeaveSockets(s, h, user, socket);
    case Resume(h, now, ok) => ContinueSockets(s, h, now, ok);
    case _ =>
  }

  lemma OnLeaveSockets(s: State, h: Id, user: Id, socket: Id)
    requires s.active.Some? ==> NoEmptySets(s.active.value)
    ensures OnLeave(s, h, user, socket).active.Some? ==> NoEmptySets(OnLeave(s, h, user, socket).active.value)
  {
    if s.active.Some? {
      ParticipantsKeepSockets(s.active.value, user, socket);
    }
  }

  lemma ContinueSockets(s: State, h: Id, now: int, ok: bool)
    requires h in s.frames && (s.active.Some? ==> NoEmptySets(s.active.value))
    ensures Continue(s, h, now, ok).active.Some? ==> NoEmptySets(Continue(s, h, now, ok).active.value)
  {
    var before := if s.active.Some? then s.active.value else map[];
    match s.frames[h]
    case JoinPresence(user, socket) => ParticipantsKeepSockets(before, user, socket);
    case AcceptKey(user, socket, call) =>
      ParticipantsKeepSockets(before, call.inviterId, call.inviterSocketId);
      ParticipantsKeepSockets(AddParticipant(before, call.inviterId, call.inviterSocketId), user, socket);
    case DropSweep(user, socket) => ParticipantsKeepSockets(before, user, socket);
    case _ =>
  }

  lemma StepKeepsInv(s: State, e: Event)
    requires Inv(s) && Enabled(s, e)
    ensures Inv(Apply(s, e))
  {
    ActiveKeepsSockets(s, e);
    StepKeepsBooks(s, e);
  }

  lemma StepKeepsBooks(s: State, e: Event)
    requires Books(s) && Enabled(s, e)
    ensures Books(Apply(s, e))
  {
    StepKinds(s, e);
    var s' := Apply(s, e);
    if Keeps(s, s') {
      KeepsBooks(s, s');
    } else if Forgets(s, s') {
      ForgetsBooks(s, s');
    } else if Claims(s, s', e.h) {
      ClaimsBooks(s, s', e.h);
    } else if Installs(s, e, s') {
      InstallsBooks(s, e.h, Call(s.frames[e.h].user, s.frames[e.h].socket, s.frames[e.h].video, e.now));
    } else {
      WritesBooks(s, e.h, e.ok);
    }
  }

  lemma {:induction false} RunKeepsInv(states: seq<State>, i: nat)
    requires Run(states) && Start(states[0]) && i < |states|
    ensures Inv(states[i])
  {
    if i > 0 {
      RunKeepsInv(states, i - 1);
      var s, s' := states[i - 1], states[i];
      assert StepAt(states, i - 1);
      var e :| Enabled(s, e) && Apply(s, e) == s';
      StepKeepsInv(s, e);
    }
  }

  // ---------------------------------------------------------------- counting

  predicate Distinct(xs: seq<nat>) {
    forall i, j :: 0 <= i < j < |xs| ==> xs[i] != xs[j]
  }

  predicate AllBelow(xs: seq<nat>, n: nat) {
    forall i :: 0 <= i < |xs| ==> xs[i] < n
  }

  /** Distinct numbers below n are at most n. */
  lemma {:induction false} Pigeonhole(xs: seq<nat>, n: nat)
    requires Distinct(xs) && AllBelow(xs, n)
    ensures |xs| <= n
  {
    if xs != [] {
      assert xs[0] < n;
      if i :| 0 <= i < |xs| && xs[i] == n - 1 {
        Pigeonhole(xs[..i] + xs[i + 1..], n - 1);
      } else {
        Pigeonhole(xs, n - 1);
      }
    }
  }

  lemma JoinDistinct(a: seq<nat>, b: seq<nat>, n: nat)
    requires Distinct(a) && Distinct(b) && AllBelow(a, n) && AllBelow(b, n)
    requires forall i, j :: 0 <= i < |a| && 0 <= j < |b| ==> a[i] != b[j]
    ensures Distinct(a + b) && AllBelow(a + b, n)
  {
  }

  ghost predicate Held(s: State, handlers: set<Id>, serial: nat) {
    exists h :: h in handlers && Writing(s, h) && NoteOf(s, h).serial == serial
  }

  ghost function AnyOf(handlers: set<Id>): (h: Id)
    requires handlers != {}
    ensures h in handlers
  {
    var h :| h in handlers; h
  }

  /** The serials of the handlers waiting to write, one after the other. */
  ghost function Waiting(s: State, handlers: set<Id>): (xs: seq<nat>)
    requires forall h :: h in handlers ==> Writing(s, h)
    ensures |xs| == |handlers|
    decreases |handlers|
  {
    if handlers == {} then [] else Waiting(s, handlers - {AnyOf(handlers)}) + [NoteOf(s, AnyOf(handlers)).serial]
  }

  lemma {:induction false} WaitingAre(s: State, handlers: set<Id>)
    requires RecordsDistinct(s) && forall h :: h in handlers ==> Writing(s, h)
    ensures forall i :: 0 <= i < |Waiting(s, handlers)| ==> Held(s, handlers, Waiting(s, handlers)[i])
    ensures forall h :: h in handlers ==> NoteOf(s, h).serial in Waiting(s, handlers)
    ensures Distinct(Waiting(s, handlers))
    decreases |handlers|
  {
    if handlers != {} {
      var h := AnyOf(handlers);
      WaitingAre(s, handlers - {h});
      var others := Waiting(s, handlers - {h});
      forall i | 0 <= i < |others|
        ensures others[i] != NoteOf(s, h).serial && Held(s, handlers, others[i])
      {
        assert Held(s, handlers - {h}, others[i]);
      }
      assert Waiting(s, handlers) == others + [NoteOf(s, h).serial];
    }
  }

  ghost function Serials(log: seq<Note>): (xs: seq<nat>)
    ensures |xs| == |log| && forall i :: 0 <= i < |xs| ==> xs[i] == log[i].serial
  {
    if log == [] then [] else [log[0].serial] + Serials(log[1..])
  }

  ghost function Writers(s: State): set<Id> {
    set h | h in s.frames && s.frames[h].Write?
  }

  /** The messages among the fates. */
  function Records(log: seq<Note>): (r: seq<Note>)
    ensures |r| <= |log|
  {
    if log == [] then []
    else (if log[0].kind != Unrecorded then [log[0]] else []) + Records(log[1..])
  }

  /**
   * In every run the installed calls are conserved: each of them is the current entry, or about to be
   * written, or settled, and only one of these. So the "missed" and "ended" messages written, with those
   * about to be, never exceed the calls that `call:invite` installed.
   */
  lemma RecordsNeverExceedCalls(states: seq<State>, i: nat)
    requires Run(states) && Start(states[0]) && i < |states|
    ensures var s := states[i];
            && |s.log| + |Writers(s)| + (if s.entry.Some? then 1 else 0) == |s.installs|
            && |Records(s.log)| + |Writers(s)| + (if s.entry.Some? then 1 else 0) <= |s.installs|
  {
    RunKeepsInv(states, i);
    CountRecords(states[i]);
  }

  /** One serial for every installed call whose fate is known or under way. */
  ghost function Fates(s: State): seq<nat> {
    Serials(s.log) + Waiting(s, Writers(s)) + if s.entry.Some? then [s.entry.value.serial] else []
  }

  lemma FatesDistinct(s: State)
    requires EntryTracked(s) && RecordsDistinct(s)
    ensures Distinct(Fates(s)) && AllBelow(Fates(s), |s.installs|)
    ensures |Fates(s)| == |s.log| + |Writers(s)| + if s.entry.Some? then 1 else 0
  {
    var waiting, written := Waiting(s, Writers(s)), Serials(s.log);
    WaitingAre(s, Writers(s));
    var entry: seq<nat> := if s.entry.Some? then [s.entry.value.serial] else [];
    WaitingApart(s, waiting);
    WrittenDistinct(s);
    JoinThree(s, written, waiting, entry);
    assert Fates(s) == written + waiting + entry;
  }

  lemma WrittenDistinct(s: State)
    requires RecordsDistinct(s)
    ensures Distinct(Serials(s.log)) && forall i :: 0 <= i < |s.log| ==> Spent(s, Serials(s.log)[i])
  {
  }

  lemma JoinThree(s: State, written: seq<nat>, waiting: seq<nat>, entry: seq<nat>)
    requires EntryTracked(s) && Distinct(written) && Distinct(waiting)
    requires entry == if s.entry.Some? then [s.entry.value.serial] else []
    requires forall i :: 0 <= i < |written| ==> Spent(s, written[i])
    requires forall i :: 0 <= i < |waiting| ==> Spent(s, waiting[i])
    requires forall i, j :: 0 <= i < |written| && 0 <= j < |waiting| ==> written[i] != waiting[j]
    ensures Distinct(written + waiting + entry) && AllBelow(written + waiting + entry, |s.installs|)
  {
    JoinDistinct(written, waiting, |s.installs|);
    AllSpent(s, written, waiting);
    JoinDistinct(written + waiting, entry, |s.installs|);
  }

  lemma InSerials(s: State, serial: nat)
    requires Logged(s, serial)
    ensures serial in Serials(s.log)
  {
    var i :| 0 <= i < |s.log| && s.log[i].serial == serial;
    assert Serials(s.log)[i] == serial;
  }

  lemma FatesCover(s: State, serial: nat)
    requires RecordsDistinct(s) && Accounted(s, serial)
    ensures serial in Fates(s)
  {
    var waiting, written := Waiting(s, Writers(s)), Serials(s.log);
    if Logged(s, serial) {
      InSerials(s, serial);
    } else if BeingWritten(s, serial) {
      var h :| Writing(s, h) && NoteOf(s, h).serial == serial;
      assert h in Writers(s);
      WaitingAre(s, Writers(s));
    }
  }

  lemma CountRecords(s: State)
    requires Books(s)
    ensures |s.log| + |Writers(s)| + (if s.entry.Some? then 1 else 0) == |s.installs|
  {
    FatesDistinct(s);
    Pigeonhole(Fates(s), |s.installs|);
    forall k: nat | k < |s.installs|
      ensures k in Fates(s)
    {
      assert Accounted(s, k);
      FatesCover(s, k);
    }
    Covering(Fates(s), |s.installs|);
  }

  /** A list that has every number below n has at least n elements. */
  lemma {:induction false} Covering(xs: seq<nat>, n: nat)
    requires forall k: nat :: k < n ==> k in xs
    ensures |xs| >= n
  {
    if n > 0 {
      assert n - 1 in xs;
      var i :| 0 <= i < |xs| && xs[i] == n - 1;
      var rest := xs[..i] + xs[i + 1..];
      forall k: nat | k < n - 1
        ensures k in rest
      {
        assert k in xs;
        var j :| 0 <= j < |xs| && xs[j] == k;
        assert j < i ==> rest[j] == k;
        assert j > i ==> rest[j - 1] == k;
      }
      Covering(rest, n - 1);
    }
  }

  lemma WaitingApart(s: State, waiting: seq<nat>)
    requires RecordsDistinct(s)
    requires forall k :: 0 <= k < |waiting| ==> Held(s, Writers(s), waiting[k])
    ensures forall k :: 0 <= k < |waiting| ==> Spent(s, waiting[k])
    ensures forall k, i :: 0 <= k < |waiting| && 0 <= i < |s.log| ==> s.log[i].serial != waiting[k]
  {
    forall k | 0 <= k < |waiting|
      ensures Spent(s, waiting[k]) && forall i :: 0 <= i < |s.log| ==> s.log[i].serial != waiting[k]
    {
      assert Held(s, Writers(s), waiting[k]);
      var h :| h in Writers(s) && Writing(s, h) && NoteOf(s, h).serial == waiting[k];
    }
  }

  lemma AllSpent(s: State, a: seq<nat>, b: seq<nat>)
    requires forall i :: 0 <= i < |a| ==> Spent(s, a[i])
    requires forall i :: 0 <= i < |b| ==> Spent(s, b[i])
    ensures s.entry.Some? ==> forall i :: 0 <= i < |a + b| ==> (a + b)[i] != s.entry.value.serial
  {
  }

  // ---------------------------------------------------------------- what is recorded

  function RecordOf(e: Entry): Note {
    Note(e.serial, if e.accepted then Ended else Missed)
  }

  /** The message is being written by `h`, or it has been written, or its write has failed. */
  predicate Settling(s: State, h: Id, note: Note) {
    (Writing(s, h) && NoteOf(s, h) == note) || note in s.log || note.(kind := Unrecorded) in s.log
  }

  /** The call is over, and whatever is said of it is said once. */
  ghost predicate OverOnce(s: State, serial: nat) {
    && !(s.entry.Some? && s.entry.value.serial == serial)
    && (forall i, j :: 0 <= i < j < |s.log| ==> !(s.log[i].serial == serial && s.log[j].serial == serial))
    && (forall h, k :: Writing(s, h) && Writing(s, k) && NoteOf(s, h).serial == NoteOf(s, k).serial == serial ==>
          h == k)
    && (forall i, h :: 0 <= i < |s.log| && Writing(s, h) ==>
          !(s.log[i].serial == serial && NoteOf(s, h).serial == serial))
  }

  lemma LogGrows(s: State, e: Event)
    requires Enabled(s, e)
    ensures s.log <= Apply(s, e).log
  {
    StepKinds(s, e);
  }

  lemma SettlingStays(s: State, e: Event, h: Id, note: Note)
    requires Enabled(s, e) && Settling(s, h, note)
    ensures Settling(Apply(s, e), h, note)
  {
    var s' := Apply(s, e);
    LogGrows(s, e);
    if note in s.log || note.(kind := Unrecorded) in s.log {
      assert forall x :: x in s.log ==> x in s'.log;
    } else if e.Resume? && e.h == h {
      assert s'.log[|s.log|] in s'.log;
    } else {
      StepKinds(s, e);
    }
  }

  lemma NextSettles(s: State, s': State, h: Id, note: Note)
    requires Next(s, s') && Settling(s, h, note)
    ensures Settling(s', h, note)
  {
    var e :| Enabled(s, e) && Apply(s, e) == s';
    SettlingStays(s, e, h, note);
  }

  lemma {:induction false} SettlingForGood(states: seq<State>, i: nat, j: nat, h: Id, note: Note)
    requires Run(states) && i <= j < |states| && Settling(states[i], h, note)
    ensures Settling(states[j], h, note)
  {
    if i < j {
      SettlingForGood(states, i, j - 1, h, note);
      assert StepAt(states, j - 1);
      NextSettles(states[j - 1], states[j], h, note);
    }
  }

  /** A call that is over is over for good, with one record at most. */
  lemma OverForGood(states: seq<State>, i: nat, j: nat, serial: nat)
    requires Run(states) && Start(states[0]) && i <= j < |states|
    requires serial < |states[i].installs| && !(states[i].entry.Some? && states[i].entry.value.serial == serial)
    ensures OverOnce(states[j], serial)
  {
    RunKeepsInv(states, j);
    NotBack(states, i, j, serial);
  }

  lemma {:induction false} NotBack(states: seq<State>, i: nat, j: nat, serial: nat)
    requires Run(states) && i <= j < |states|
    requires serial < |states[i].installs| && !(states[i].entry.Some? && states[i].entry.value.serial == serial)
    ensures serial < |states[j].installs| && !(states[j].entry.Some? && states[j].entry.value.serial == serial)
  {
    if i < j {
      NotBack(states, i, j - 1, serial);
      assert StepAt(states, j - 1);
      NextNotBack(states[j - 1], states[j], serial);
    }
  }

  lemma NextNotBack(s: State, s': State, serial: nat)
    requires Next(s, s') && serial < |s.installs| && !(s.entry.Some? && s.entry.value.serial == serial)
    ensures serial < |s'.installs| && !(s'.entry.Some? && s'.entry.value.serial == serial)
  {
    var e :| Enabled(s, e) && Apply(s, e) == s';
    StepKinds(s, e);
  }

  /** What a handler claims in one step of a run is settled once, whatever is interleaved with it afterwards. */
  lemma ClaimSettlesOnce(states: seq<State>, i: nat, j: nat, h: Id, note: Note)
    requires Run(states) && Start(states[0]) && i + 1 <= j < |states|
    requires Claims(states[i], states[i + 1], h) && NoteOf(states[i + 1], h) == note
    ensures Settling(states[j], h, note) && OverOnce(states[j], note.serial)
  {
    RunKeepsInv(states, i);
    SettlingForGood(states, i + 1, j, h, note);
    OverForGood(states, i + 1, j, note.serial);
  }

  /** A declined call is over at once; its "missed" message is written once, or fails to be, under every schedule. */
  lemma DeclineIsRecorded(states: seq<State>, i: nat, j: nat, h: Id, user: Id)
    requires Run(states) && Start(states[0]) && i < j < |states|
    requires PendingEntry(states[i]) && states[i].active.None?
    requires h !in states[i].frames && states[i + 1] == Apply(states[i], Decline(h, user))
    ensures Settling(states[j], h, Note(states[i].entry.value.serial, Missed))
    ensures OverOnce(states[j], states[i].entry.value.serial)
  {
    ClaimSettlesOnce(states, i, j, h, Note(states[i].entry.value.serial, Missed));
  }

  /** A call that rings out becomes accepted if both sides are in it; else it is over and its message written once. */
  lemma RingOutIsRecorded(states: seq<State>, i: nat, j: nat, h: Id)
    requires Run(states) && Start(states[0]) && i < j < |states|
    requires PendingEntry(states[i]) && states[i].ring.Some?
    requires h !in states[i].frames && states[i + 1] == Apply(states[i], RingFires(h))
    ensures Size(states[i].active) >= 2 ==> states[i + 1].entry == Some(states[i].entry.value.(accepted := true))
    ensures Size(states[i].active) < 2 ==>
              && Settling(states[j], h, Note(states[i].entry.value.serial, Missed))
              && OverOnce(states[j], states[i].entry.value.serial)
  {
    if Size(states[i].active) < 2 {
      ClaimSettlesOnce(states, i, j, h, Note(states[i].entry.value.serial, Missed));
    }
  }

  /** What a hang-up writes: about the call it takes, in the words of the call it had found. */
  function HangUpNote(taken: Entry, found: Entry): Note {
    RecordOf(found).(serial := taken.serial)
  }

  /**
   * The first hang-up to get past its await takes the call, whoever else is hanging up; the others find
   * nothing to take.
   */
  lemma FirstEndClaims(s: State, h: Id, now: int, ok: bool)
    requires h in s.frames && s.frames[h].EndClear? && s.frames[h].snapshot.Some?
    ensures var s' := Continue(s, h, now, ok);
            && s'.entry.None? && s'.active.None? && s'.ring.None?
            && (s.entry.Some? ==>
                  Claims(s, s', h) && NoteOf(s', h) == HangUpNote(s.entry.value, s.frames[h].snapshot.value))
            && (s.entry.None? ==> s'.log == s.log && h !in s'.frames && SameWriters(s, s'))
  {
  }

  /**
   * Any number of hang-ups, in any order and interleaved with anything: once one of those that had found a
   * call has got past its await, the call is over, with one message by the one that took it and none by others.
   */
  lemma RacingEndsRecordOnce(states: seq<State>, i: nat, j: nat, h: Id, now: int, ok: bool)
    requires Run(states) && Start(states[0]) && i < j < |states| && states[i].entry.Some?
    requires h in states[i].frames && states[i].frames[h].EndClear? && states[i].frames[h].snapshot.Some?
    requires states[i + 1] == Apply(states[i], Resume(h, now, ok))
    ensures Settling(states[j], h, HangUpNote(states[i].entry.value, states[i].frames[h].snapshot.value))
    ensures OverOnce(states[j], states[i].entry.value.serial)
  {
    FirstEndClaims(states[i], h, now, ok);
    ClaimSettlesOnce(states, i, j, h, HangUpNote(states[i].entry.value, states[i].frames[h].snapshot.value));
  }

  // ---------------------------------------------------------------- glare

  /**
   * While a call is pending, no step of any handler or timer changes its inviter, its socket, its video
   * flag or its start: the entry becomes accepted, or goes away, or stays what it is. An accepted entry
   * never becomes pending again.
   */
  lemma PendingIsStable(s: State, e: Event)
    requires Enabled(s, e) && s.entry.Some?
    ensures var s' := Apply(s, e);
            && (PendingEntry(s) && s'.entry.Some? ==> s'.entry.value.(accepted := false) == s.entry.value)
            && (!PendingEntry(s) && EntryTracked(s) ==>
                  s'.entry.None? || s'.entry.value.serial != s.entry.value.serial || s'.entry == s.entry)
  {
    if e.Resume? {
      ResumePending(s, e.h, e.now, e.ok);
    }
  }

  lemma ResumePending(s: State, h: Id, now: int, ok: bool)
    requires h in s.frames && s.entry.Some?
    ensures var s' := Continue(s, h, now, ok);
            && (PendingEntry(s) && s'.entry.Some? ==> s'.entry.value.(accepted := false) == s.entry.value)
            && (!PendingEntry(s) && EntryTracked(s) ==>
                  s'.entry.None? || s'.entry.value.serial != s.entry.value.serial || s'.entry == s.entry)
  {
  }

  /** In a run: a pending call is unchanged, until it has been accepted or removed. */
  lemma {:induction false} GlareIsSafe(states: seq<State>, i: nat, j: nat)
    requires Run(states) && i <= j < |states| && PendingEntry(states[i])
    requires forall m :: i <= m <= j ==> PendingEntry(states[m])
    ensures states[j].entry == states[i].entry
  {
    if i < j {
      GlareIsSafe(states, i, j - 1);
      assert StepAt(states, j - 1);
      PendingStep(states[j - 1], states[j]);
    }
  }

  lemma PendingStep(s: State, s': State)
    requires Next(s, s') && PendingEntry(s) && PendingEntry(s')
    ensures s'.entry == s.entry
  {
    var e :| Enabled(s, e) && Apply(s, e) == s';
    PendingIsStable(s, e);
  }

  /** Two entries seen in a run with the same serial are the same call, however far apart. */
  lemma {:induction false} SameSerialSameCall(states: seq<State>, i: nat, j: nat)
    requires Run(states) && Start(states[0]) && i <= j < |states|
    requires states[i].entry.Some? && states[j].entry.Some?
    requires states[i].entry.value.serial == states[j].entry.value.serial
    ensures states[i].entry.value.call == states[j].entry.value.call
  {
    RunKeepsInv(states, i);
    RunKeepsInv(states, j);
    InstallsGrow(states, i, j);
  }

  lemma {:induction false} InstallsGrow(states: seq<State>, i: nat, j: nat)
    requires Run(states) && i <= j < |states|
    ensures states[i].installs <= states[j].installs
  {
    if i < j {
      InstallsGrow(states, i, j - 1);
      assert StepAt(states, j - 1);
      StepGrows(states[j - 1], states[j]);
      PrefixOfPrefix(states[i].installs, states[j - 1].installs, states[j].installs);
    }
  }

  lemma PrefixOfPrefix(a: seq<Call>, b: seq<Call>, c: seq<Call>)
    requires a <= b <= c
    ensures a <= c
  {
  }

  lemma StepGrows(s: State, s': State)
    requires Next(s, s')
    ensures s.installs <= s'.installs
  {
    var e :| Enabled(s, e) && Apply(s, e) == s';
    StepKinds(s, e);
  }

  // ---------------------------------------------------------------- no call rings forever, except

  /** An unanswered call has an armed ring timer, or an invite that is about to arm it. */
  predicate Backed(s: State) {
    s.ring.Some? || BeingArmed(s)
  }

  /** The one step that takes the backstop from a pending call: a `call:end` that had found no call goes on. */
  predicate Disarms(s: State, e: Event) {
    e.Resume? && e.h in s.frames && s.frames[e.h] == EndClear(None) && !BeingArmed(s)
  }

  lemma ArmingStays(s: State, s': State, h: Id)
    requires Arming(s, h) && h in s'.frames && s'.frames[h] == s.frames[h]
    requires s'.entry.Some? && s'.entry.value.serial == s.entry.value.serial
    ensures BeingArmed(s')
  {
    assert Arming(s', h);
  }

  /** A pending call loses its backstop in that step, and in no other. */
  lemma OnlyEndDisarms(s: State, e: Event)
    requires Enabled(s, e) && PendingEntry(s) && Backed(s) && PendingEntry(Apply(s, e))
    ensures !Backed(Apply(s, e)) <==> Disarms(s, e)
  {
    var s' := Apply(s, e);
    PendingIsStable(s, e);
    if e.Resume? {
      ResumeDisarms(s, e.h, e.now, e.ok);
    } else if BeingArmed(s) {
      var h :| h in s.frames && Arming(s, h);
      ArmingStays(s, s', h);
    }
  }

  lemma ResumeDisarms(s: State, h: Id, now: int, ok: bool)
    requires h in s.frames && PendingEntry(s) && Backed(s) && PendingEntry(Continue(s, h, now, ok))
    ensures !Backed(Continue(s, h, now, ok)) <==> s.frames[h] == EndClear(None) && !BeingArmed(s)
  {
    var s' := Continue(s, h, now, ok);
    if BeingArmed(s) && !Arming(s, h) {
      var k :| k in s.frames && Arming(s, k);
      ArmingStays(s, s', k);
    } else if s.frames[h] == EndClear(None) {
      assert forall k :: Arming(s', k) ==> Arming(s, k);
    }
  }

  /** A pending call is backed exactly if it is not among the disarmed ones. */
  predicate RingInv(s: State) {
    && (PendingEntry(s) ==> (Backed(s) <==> s.entry.value.serial !in s.disarmed))
    && (forall k :: k in s.disarmed ==> k < |s.installs|)
  }

  /** How the history set follows: a pending call gets in by that step and out when an invite arms a timer. */
  lemma DisarmedFollows(s: State, e: Event)
    requires Enabled(s, e)
    ensures var s' := Apply(s, e);
            && (Disarms(s, e) && PendingEntry(s) ==> s'.disarmed == s.disarmed + CurrentSerial(s))
            && (e.Resume? && s.frames[e.h].InviteKey? ==> s'.disarmed == s.disarmed - CurrentSerial(s))
            && (!(Disarms(s, e) && PendingEntry(s)) && !(e.Resume? && s.frames[e.h].InviteKey?) ==>
                  s'.disarmed == s.disarmed)
  {
  }

  lemma StepKeepsRing(s: State, e: Event)
    requires Enabled(s, e) && RingInv(s) && EntryTracked(s)
    ensures RingInv(Apply(s, e))
  {
    var s' := Apply(s, e);
    DisarmedFollows(s, e);
    StepGrows(s, s');
    if PendingEntry(s') {
      if PendingEntry(s) {
        PendingIsStable(s, e);
        if Backed(s) {
          OnlyEndDisarms(s, e);
        } else {
          StaysUnbacked(s, e);
        }
      } else {
        NewPending(s, e);
      }
    }
  }

  /** A pending call without backstop gets it back when some invite arms a timer, and in no other way. */
  lemma StaysUnbacked(s: State, e: Event)
    requires Enabled(s, e) && PendingEntry(s) && !Backed(s) && PendingEntry(Apply(s, e))
    ensures Backed(Apply(s, e)) <==> e.Resume? && s.frames[e.h].InviteKey?
  {
    var s' := Apply(s, e);
    PendingIsStable(s, e);
    assert forall k :: Arming(s', k) ==> Arming(s, k);
  }

  /** A call becomes pending only by being installed, and then its invite is about to arm its timer. */
  lemma NewPending(s: State, e: Event)
    requires Enabled(s, e) && !PendingEntry(s) && PendingEntry(Apply(s, e)) && EntryTracked(s)
    ensures BeingArmed(Apply(s, e)) && Apply(s, e).entry.value.serial == |s.installs|
    ensures Apply(s, e).disarmed == s.disarmed
  {
    StepKinds(s, e);
    assert Installs(s, e, Apply(s, e));
    assert Arming(Apply(s, e), e.h);
  }

  /**
   * In every run an unanswered call has a ring timer, or an invite about to arm one, exactly if it is
   * not among those that a `call:end` left without: it gets in when such a handler, which had found no
   * call, goes on while nothing is about to arm the timer, and out when an invite arms one.
   */
  lemma {:induction false} RunKeepsRing(states: seq<State>, i: nat)
    requires Run(states) && Start(states[0]) && i < |states|
    ensures RingInv(states[i])
  {
    if i > 0 {
      RunKeepsRing(states, i - 1);
      RunKeepsInv(states, i - 1);
      assert StepAt(states, i - 1);
      NextKeepsRing(states[i - 1], states[i]);
    }
  }

  lemma NextKeepsRing(s: State, s': State)
    requires Next(s, s') && RingInv(s) && EntryTracked(s)
    ensures RingInv(s')
  {
    var e :| Enabled(s, e) && Apply(s, e) == s';
    StepKeepsRing(s, e);
  }

  /**
   * The exception is real: a `call:end` reads that there is no call, an invite installs one and arms its
   * timer, and the end then clears the timer. The call is pending, nothing is in flight and no timer is armed.
   */
  lemma EndCanDisarmRing(caller: Id, callee: Id, socket: Id) returns (states: seq<State>)
    ensures Run(states) && Start(states[0])
    ensures var s := states[|states| - 1];
            PendingEntry(s) && !Backed(s) && s.frames == map[] && s.grace.None?
  {
    var s0 := State(None, None, None, None, map[], [], [], {});
    var s1 := Apply(s0, End(1, callee));
    var s2 := Apply(s1, Invite(2, caller, socket, false, false));
    var s3 := Apply(s2, Resume(2, 0, true));
    var s4 := Apply(s3, Resume(2, 0, true));
    var s5 := Apply(s4, Resume(1, 0, true));
    assert Next(s0, s1) && Next(s1, s2) && Next(s2, s3) && Next(s3, s4) && Next(s4, s5);
    assert s5.frames == map[];
    states := [s0, s1, s2, s3, s4, s5];
  }
}
