/** When presence is written, and that time goes on (src/realtime/socket.ts), over the steps of `Presence`. */
module PresenceSteps {
  import opened Aead
  import opened Bytes
  import opened Presence

  /**
   * A status that is not the one noted is stored at once if it is offline, or the first, or follows offline, or comes
   * late.
   */
  predicate WritesAtOnce(s: State, status: Status) {
    && s.observed != Some(status)
    && (status == Offline || s.observed in {None, Some(Offline)} || s.now - s.lastWriteAt > 120_000)
  }

  /** The column is written by these steps only, with the status observed or, by a reconciliation, with OFFLINE. */
  lemma WrittenIff(s: State, e: Event)
    requires Enabled(s, e)
    ensures Apply(s, e).stored
         == match e {
              case Observe(status) => if WritesAtOnce(s, status) then status else s.stored
              case FlushFires => if s.observed.Some? then s.observed.value else s.stored
              case ReconcileUpdate => Offline
              case _ => s.stored
            }
  {
  }

  /** What is noted is the latest status, or OFFLINE after a reconciliation. */
  lemma NotedIs(s: State, e: Event)
    requires Enabled(s, e)
    ensures Apply(s, e).observed == match e {
              case Observe(status) => Some(status)
              case ReconcileMaps => Some(Offline)
              case _ => s.observed
            }
    ensures Apply(s, e).lastWriteAt
         == if (e.Observe? && WritesAtOnce(s, e.status)) || (e.FlushFires? && s.observed.Some?)
           || e.ReconcileMaps? then s.now
            else s.lastWriteAt
  {
  }

  /**
   * A flush is pending for a status that is not stored at once: 120 s after the last write, but at least 1 s from
   * now.
   */
  lemma FlushAfter(s: State, e: Event)
    requires Enabled(s, e)
    ensures Apply(s, e).flushDue
         == match e {
              case Observe(status) =>
                if WritesAtOnce(s, status) then None
                else if s.observed == Some(status) || s.flushDue.Some? then s.flushDue
                else Some(Max(s.now + 1_000, s.lastWriteAt + 120_000))
              case FlushFires => None
              case _ => s.flushDue
            }
  {
  }

  /** A flush fires when it is due. */
  lemma DueFlushFires(s: State)
    ensures Enabled(s, FlushFires) <==> s.flushDue.Some? && s.now >= s.flushDue.value
    ensures Enabled(s, FlushFires) ==>
              forall later: int :: later >= s.now ==> Enabled(Apply(s, FlushFires), Tick(later))
  {
  }

  ghost predicate LeadsTo(states: seq<State>, s: State, s': State) {
    Run(states) && states[0] == s && states[|states| - 1] == s'
  }

  lemma OneMore(states: seq<State>, s: State, mid: State, e: Event)
    requires LeadsTo(states, s, mid) && Enabled(mid, e)
    ensures LeadsTo(states + [Apply(mid, e)], s, Apply(mid, e))
  {
    var more := states + [Apply(mid, e)];
    forall i | 0 <= i < |more| - 1
      ensures StepAt(more, i)
    {
      if i < |states| - 1 {
        assert StepAt(states, i);
      } else {
        IsStep(mid, e, Apply(mid, e));
      }
    }
  }

  /**
   * From every state that a run can reach, and for every later time, a run goes on to that time with the
   * clock and the flush alone; a status that waited for its flush is stored by then, if it was due.
   */
  lemma TimeGoesOn(s: State, later: int) returns (states: seq<State>, end: State)
    requires Inv(s) && later >= s.now
    ensures LeadsTo(states, s, end) && end.now == later && end.observed == s.observed
    ensures s.flushDue.Some? && later > s.flushDue.value && s.observed.Some? ==>
              end.stored == s.observed.value && end.flushDue.None?
  {
    states, end := [s], s;
    if s.flushDue.Some? && later > s.flushDue.value {
      var due := Tick(s.flushDue.value);
      OneMore(states, s, end, due);
      states, end := states + [Apply(end, due)], Apply(end, due);
      OneMore(states, s, end, FlushFires);
      states, end := states + [Apply(end, FlushFires)], Apply(end, FlushFires);
    }
    OneMore(states, s, end, Tick(later));
    states, end := states + [Apply(end, Tick(later))], Apply(end, Tick(later));
  }
}
