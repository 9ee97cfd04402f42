/** The throttled presence writes of one user (src/realtime/socket.ts). */
module Presence {
  import opened Aead
  import opened Bytes

  const MIN_INTERVAL_MS := 120_000

  datatype Status = Online | Offline | Background

  /**
   * `observed`, `lastWriteAt` and `flushDue` are the three per-user maps, `stored` is the status column, and
   * `reconciling` counts the reconciliations between their update and their writes to the maps. History:
   * `overtaken` is whether one of those undid the note of a newer write, and `since` when a difference between
   * `stored` and `observed` began that a flush has to end.
   */
  datatype State = State(observed: Option<Status>, lastWriteAt: int, flushDue: Option<int>, stored: Status, now: int,
                         reconciling: nat, overtaken: bool, since: int)

  datatype Event =
    | Observe(status: Status)
    | FlushFires
    | ReconcileUpdate
    | ReconcileMaps
    | Tick(later: int)

  predicate Differs(s: State) {
    s.observed.Some? && s.stored != s.observed.value
  }

  /** A reconciliation has just stored OFFLINE and is about to note it in the maps. */
  predicate InWindow(s: State) {
    s.reconciling > 0 && s.stored == Offline
  }

  /** A difference that is not just a reconciliation between its two halves. */
  predicate Diverged(s: State) {
    Differs(s) && !InWindow(s)
  }

  /** Timers fire when they are due. */
  predicate Enabled(s: State, e: Event) {
    match e
    case FlushFires => s.flushDue.Some? && s.flushDue.value <= s.now
    case ReconcileMaps => s.reconciling > 0
    case Tick(later) => later >= s.now && (s.flushDue.Some? ==> later <= Max(s.now, s.flushDue.value))
    case _ => true
  }

  /** `writePresenceToDb`: a direct write supersedes the pending flush. */
  function WriteStatus(s: State, status: Status): State {
    s.(flushDue := None, stored := status, lastWriteAt := s.now)
  }

  predicate ShouldWrite(s: State, status: Status) {
    status == Offline || s.observed.None? || s.observed == Some(Offline) || s.now - s.lastWriteAt > MIN_INTERVAL_MS
  }

  function FlushDelay(s: State): int {
    Max(1_000, MIN_INTERVAL_MS - (s.now - s.lastWriteAt))
  }

  function Observed(s: State, status: Status): State {
    if s.observed == Some(status) then s
    else
      var noted := s.(observed := Some(status));
      if ShouldWrite(s, status) then WriteStatus(noted, status)
      else if s.flushDue.Some? then noted
      else noted.(flushDue := Some(s.now + FlushDelay(s)))
  }

  /** The step itself; `Apply` adds the history. */
  function Act(s: State, e: Event): State
    requires Enabled(s, e)
  {
    match e
    case Observe(status) => Observed(s, status)
    case FlushFires => if s.observed.None? then s.(flushDue := None) else WriteStatus(s, s.observed.value)
    case ReconcileUpdate => s.(stored := Offline, reconciling := s.reconciling + 1)
    case ReconcileMaps => s.(observed := Some(Offline), lastWriteAt := s.now, reconciling := s.reconciling - 1)
    case Tick(later) => s.(now := later)
  }

  /** The maps are set to OFFLINE after something newer has been stored, with no flush to repair it. */
  predicate Overtakes(s: State, e: Event) {
    e.ReconcileMaps? && s.stored != Offline && s.flushDue.None?
  }

  function Apply(s: State, e: Event): State
    requires Enabled(s, e)
  {
    var s' := Act(s, e);
    s'.(overtaken := Diverged(s') && (s.overtaken || Overtakes(s, e)),
        since := if Diverged(s') && !Diverged(s) then s'.now else s.since)
  }

  /** A divergence has a flush, due in time, exactly if it was not made by a reconciliation that was overtaken. */
  predicate Inv(s: State) {
    && s.lastWriteAt <= s.now
    && (s.flushDue.Some? ==> s.now <= s.flushDue.value <= s.now + MIN_INTERVAL_MS)
    && (s.overtaken ==> Diverged(s) && s.observed == Some(Offline))
    && (Diverged(s) ==>
          s.since <= s.now
          && (s.flushDue.Some? <==> !s.overtaken)
          && (s.flushDue.Some? ==> s.flushDue.value <= s.since + MIN_INTERVAL_MS))
  }

  lemma ObserveKeepsInv(s: State, status: Status)
    requires Inv(s)
    ensures Inv(Apply(s, Observe(status)))
  {
  }

  lemma StepKeepsInv(s: State, e: Event)
    requires Inv(s) && Enabled(s, e)
    ensures Inv(Apply(s, e))
  {
    match e
    case Observe(status) => ObserveKeepsInv(s, status);
    case _ =>
  }

  /**
   * Exactly when a divergence without a flush ends: a newer status, or another reconciliation. Time does not end it.
   */
  lemma OvertakenStays(s: State, e: Event)
    requires Inv(s) && Enabled(s, e) && s.overtaken
    ensures Apply(s, e).overtaken <==> !(e.ReconcileUpdate? || (e.Observe? && e.status != Offline))
    ensures Apply(s, e).overtaken || Apply(s, e).reconciling > 0 || !Differs(Apply(s, e))
  {
  }

  /** Exactly when one begins. */
  lemma OvertakenBegins(s: State, e: Event)
    requires Inv(s) && Enabled(s, e) && !s.overtaken
    ensures Apply(s, e).overtaken <==> Overtakes(s, e)
  {
  }

  /**
   * It does begin: a user whose last status is two minutes old is reconciled, comes back between the update
   * and the maps, and is stored as ONLINE while the maps say OFFLINE; going offline later is then not noticed.
   */
  lemma ReconcileCanLoseStatus() returns (states: seq<State>)
    ensures Run(states) && Start(states[0])
    ensures var s := states[|states| - 1];
            s.overtaken && s.stored == Online && s.flushDue.None? && Apply(s, Observe(Offline)) == s
  {
    var s0 := State(None, 0, None, Offline, 0, 0, false, 0);
    var s1 := State(Some(Background), 0, None, Background, 0, 0, false, 0);
    var s2 := State(Some(Background), 0, None, Background, 120_001, 0, false, 0);
    var s3 := State(Some(Background), 0, None, Offline, 120_001, 1, false, 0);
    var s4 := State(Some(Online), 120_001, None, Online, 120_001, 1, false, 0);
    var s5 := State(Some(Offline), 120_001, None, Online, 120_001, 0, true, 120_001);
    IsStep(s0, Observe(Background), s1);
    IsStep(s1, Tick(120_001), s2);
    IsStep(s2, ReconcileUpdate, s3);
    IsStep(s3, Observe(Online), s4);
    IsStep(s4, ReconcileMaps, s5);
    states := [s0, s1, s2, s3, s4, s5];
    assert forall i :: 0 <= i < 5 ==> StepAt(states, i);
  }

  lemma IsStep(s: State, e: Event, s': State)
    requires Enabled(s, e) && Apply(s, e) == s'
    ensures Next(s, s')
  {
  }

  ghost predicate Next(s: State, s': State) {
    exists e :: Enabled(s, e) && Apply(s, e) == s'
  }

  ghost predicate Run(states: seq<State>) {
    |states| > 0 && forall i :: 0 <= i < |states| - 1 ==> StepAt(states, i)
  }

  ghost predicate StepAt(states: seq<State>, i: int)
    requires 0 <= i < |states| - 1
  {
    Next(states[i], states[i + 1])
  }

  ghost predicate Start(s: State) {
    s.observed.None? && s.flushDue.None? && s.lastWriteAt <= s.now && s.reconciling == 0 && !s.overtaken
  }

  lemma NextKeepsInv(s: State, s': State)
    requires Inv(s) && Next(s, s')
    ensures Inv(s') && s.now <= s'.now
  {
    var e :| Enabled(s, e) && Apply(s, e) == s';
    StepKeepsInv(s, e);
  }

  lemma {:induction false} RunKeepsInv(states: seq<State>, i: nat)
    requires Run(states) && Start(states[0]) && i < |states|
    ensures Inv(states[i]) && states[0].now <= states[i].now
  {
    if i > 0 {
      RunKeepsInv(states, i - 1);
      assert StepAt(states, i - 1);
      NextKeepsInv(states[i - 1], states[i]);
    }
  }

  lemma SinceStays(s: State, s': State)
    requires Next(s, s') && Diverged(s) && Diverged(s')
    ensures s'.since == s.since
  {
    var e :| Enabled(s, e) && Apply(s, e) == s';
  }

  ghost predicate DivergedThroughout(states: seq<State>, i: nat, j: nat)
    requires i <= j < |states|
  {
    forall k :: i <= k <= j ==> Diverged(states[k])
  }

  lemma {:induction false} SameDivergence(states: seq<State>, i: nat, j: nat)
    requires Run(states) && i <= j < |states| && DivergedThroughout(states, i, j)
    ensures states[j].since == states[i].since
  {
    if i < j {
      SameDivergence(states, i, j - 1);
      assert StepAt(states, j - 1) && Diverged(states[j - 1]) && Diverged(states[j]);
      SinceStays(states[j - 1], states[j]);
    }
  }

  /**
   * In no run does the stored status stay wrong for more than two minutes, except while a reconciliation is
   * between its halves or after one was overtaken; the write that ends it stores the latest status.
   */
  lemma WriteLandsInTime(states: seq<State>, i: nat, j: nat)
    requires Run(states) && Start(states[0]) && i <= j < |states| && DivergedThroughout(states, i, j)
    ensures states[j].overtaken <==> states[j].flushDue.None?
    ensures !states[j].overtaken ==>
              && states[j].now <= states[j].flushDue.value <= states[i].now + MIN_INTERVAL_MS
              && (Enabled(states[j], FlushFires) ==>
                    && Apply(states[j], FlushFires).stored == states[j].observed.value
                    && !Differs(Apply(states[j], FlushFires)))
  {
    assert Diverged(states[i]) && Diverged(states[j]);
    RunKeepsInv(states, i);
    RunKeepsInv(states, j);
    SameDivergence(states, i, j);
  }

  // ---------------------------------------------------------------- the functions as they update the maps

  class User {
    var observed: Option<Status>
    var lastWriteAt: int
    var flushDue: Option<int>
    var stored: Status

    function View(now: int): State
      reads this
    {
      State(observed, lastWriteAt, flushDue, stored, now, 0, false, 0)
    }

    /** A flush that is pending is due within the interval. */
    predicate Valid(now: int)
      reads this
    {
      lastWriteAt <= now && (flushDue.Some? ==> flushDue.value <= now + MIN_INTERVAL_MS)
    }

    constructor (stored: Status)
      ensures View(0) == State(None, 0, None, stored, 0, 0, false, 0)
    {
      observed, lastWriteAt, flushDue := None, 0, None;
      this.stored := stored;
    }

    method WritePresenceToDb(status: Status, now: int)
      modifies this`flushDue, this`stored, this`lastWriteAt
      ensures stored == status && flushDue.None? && lastWriteAt == now
    {
      flushDue := None;
      stored := status;
      lastWriteAt := now;
    }

    method SchedulePresenceDbFlush(delayMs: int, now: int)
      modifies this`flushDue
      ensures flushDue == if old(flushDue).Some? then old(flushDue) else Some(now + delayMs)
    {
      if flushDue.Some? {
        return;
      }
      flushDue := Some(now + delayMs);
    }

    /**
     * Afterwards the status is noted; it is stored, or a flush that will store it is pending within the
     * interval. Going offline, coming back and a first status are stored at once, and nothing is stored
     * twice. It is the `Observe` step.
     */
    method PersistPresenceToDb(status: Status, now: int)
      requires Valid(now)
      modifies this
      ensures Valid(now) && observed == Some(status)
      ensures old(observed) == Some(status) ==> View(now) == old(View(now))
      ensures old(observed) != Some(status) ==> stored == status || (flushDue.Some? && stored == old(stored))
      ensures old(observed) != Some(status) && (status == Offline || old(observed) in {None, Some(Offline)}) ==>
                stored == status && flushDue.None?
      ensures View(now) == Act(old(View(now)), Observe(status))
    {
      var previous := observed;
      if previous == Some(status) {
        return;
      }
      observed := Some(status);
      if status != Offline && previous.Some? && previous != Some(Offline) && now - lastWriteAt <= MIN_INTERVAL_MS {
        SchedulePresenceDbFlush(Max(1_000, MIN_INTERVAL_MS - (now - lastWriteAt)), now);
        return;
      }
      WritePresenceToDb(status, now);
    }

    /** The timer's function stores the latest status: the `FlushFires` step. */
    method OnFlush(now: int)
      requires flushDue.Some? && flushDue.value <= now
      modifies this
      ensures flushDue.None? && observed == old(observed)
      ensures observed.Some? ==> stored == observed.value
      ensures View(now) == Act(old(View(now)), FlushFires)
    {
      flushDue := None;
      if observed.None? {
        return;
      }
      WritePresenceToDb(observed.value, now);
    }
  }
}
