/**
 * How long things stay in the secret inbox (src/lib/secretInbox.ts), in seconds: the list and the seen marker
 * seven days, the cached payload the message's own time to live. And what that means in a run.
 */
module SecretLifetimes {
  import opened Aead
  import opened Bytes
  import opened SecretInbox
  import opened SecretDelivery

  function At(v: View, t: int): View {
    v.(now := t)
  }

  /** A message's time to live, as the request gives it and within a minute and seven days; an hour if neither says. */
  lemma TtlIsClamped(raw: Option<int>, fallback: int)
    ensures var wanted := if raw.Some? then raw.value else fallback;
            var ttl := ResolveTtl(raw, fallback);
            60 <= ttl <= 604_800 && (60 <= wanted <= 604_800 ==> ttl == wanted)
            && (wanted < 60 ==> ttl == 60) && (wanted > 604_800 ==> ttl == 604_800)
    ensures ResolveTtl(None, MESSAGE_TTL) == 3_600
  {
  }

  /**
   * A message that had not been seen is in the inbox, after those that were there, for seven days from now; it
   * counts as seen for as long, and its payload is in the cache for its own time to live if it was not before.
   */
  lemma EnqueuedFor(v: View, device: Id, msgId: Id, payload: Id, ttl: int, t: int)
    requires !SeenNow(v, device, msgId) && t >= v.now
    ensures var (v', inserted) := Enqueue(v, device, msgId, payload, ttl);
            && inserted
            && Inbox(At(v', t), device) == (if t < v.now + 604_800 then Inbox(v, device) + [msgId] else [])
            && (SeenNow(At(v', t), device, msgId) <==> t < v.now + 604_800)
            && Cached(At(v', t), msgId)
               == (if Cached(v, msgId).Some? then Cached(At(v, t), msgId)
                   else if t < v.now + ttl then Some(payload) else None)
  {
  }

  /** Nothing else is touched, now or later. */
  lemma OthersKeepTheirTime(v: View, device: Id, msgId: Id, payload: Id, ttl: int, t: int, d: Id, m: Id)
    ensures var v' := Enqueue(v, device, msgId, payload, ttl).0;
            && (d != device || SeenNow(v, device, msgId) ==> Inbox(At(v', t), d) == Inbox(At(v, t), d))
            && (d != device || m != msgId || SeenNow(v, device, msgId) ==>
                  (SeenNow(At(v', t), d, m) <==> SeenNow(At(v, t), d, m)))
            && (m != msgId || SeenNow(v, device, msgId) ==> Cached(At(v', t), m) == Cached(At(v, t), m))
            && v'.now == v.now
  {
  }

  /** The request's own time to live decides how long the payload is cached, an hour if it gives none. */
  lemma CachedByRequest(s: State, h: Id, mail: seq<Envelope>, t: int)
    requires h in s.frames && s.frames[h] == Enqueueing(mail) && mail != [] && t >= s.v.now
    requires !SeenNow(s.v, mail[0].toDevice, mail[0].msgId) && Cached(s.v, mail[0].msgId).None?
    ensures var after := Continue(s, h);
            var ttl := if mail[0].ttl.Some? then Max(60, Min(604_800, mail[0].ttl.value)) else 3_600;
            && Cached(At(after.v, t), mail[0].msgId) == (if t < s.v.now + ttl then Some(mail[0].payload) else None)
            && h in after.frames && after.frames[h] == Enqueueing(mail[1..])
  {
    TtlIsClamped(mail[0].ttl, MESSAGE_TTL);
  }

  /** A marker set by an ack lasts seven days from the ack, one that is there keeps its time. */
  lemma MarkedFor(s: State, h: Id, device: Id, marks: seq<Id>, t: int, d: Id, m: Id)
    requires h in s.frames && s.frames[h] == Marking(device, marks) && marks != [] && t >= s.v.now
    ensures var after := Continue(s, h);
            && (SeenNow(At(after.v, t), d, m) <==>
                  if d == device && m == marks[0] && !SeenNow(s.v, d, m) then t < s.v.now + 604_800
                  else SeenNow(At(s.v, t), d, m))
            && h in after.frames && after.frames[h] == Marking(device, marks[1..])
  {
  }

  /** A payload that was missing and found in the table is in the cache again for an hour. */
  lemma {:induction false} RepopulatedFor(v: View, ids: seq<Id>, rows: map<Id, Id>, t: int, m: Id)
    requires t >= v.now
    ensures Cached(At(Repopulate(v, ids, rows), t), m)
         == if m in ids && m in rows && Cached(v, m).None? then if t < v.now + 3_600 then Some(rows[m]) else None
            else Cached(At(v, t), m)
  {
    if ids != [] {
      RepopulateKeeps(v, ids[1..], rows);
      RepopulatedFor(v, ids[1..], rows, t, m);
      RepopulatedFor(v, ids[1..], rows, v.now, m);
    }
  }

  /** A pull asks for the first ids of the list: as many as it wants, but at least one and at most 200. */
  lemma PulledAtMost(ids: seq<Id>, limit: int)
    ensures Head(ids, limit) <= ids
    ensures |Head(ids, limit)| == Min(|ids|, if limit < 1 then 1 else if limit > 200 then 200 else limit)
  {
  }

  // ---------------------------------------------------------------- in a run

  /** The device's list holds the message, and lasts at least until then. */
  predicate Holds(s: State, device: Id, m: Id, until: int) {
    device in s.v.lists && m in s.v.lists[device].value && s.v.lists[device].expires >= until
  }

  /** The step takes the message out of the device's inbox: it is acked, or dropped as dead. */
  predicate TakesOutOf(s: State, e: Event, device: Id, m: Id) {
    && e.Resume? && e.h in s.frames
    && match s.frames[e.h]
       case Dropping(d, dead) => d == device && dead != [] && dead[0] == m
       case Acking(d, ids, _) => d == device && ids != [] && ids[0] == m
       case _ => false
  }

  lemma StepHolds(s: State, e: Event, device: Id, m: Id, at: int)
    requires Enabled(s, e) && Holds(s, device, m, at + 604_800) && at <= s.v.now < at + 604_800
    requires !TakesOutOf(s, e, device, m)
    ensures Holds(Apply(s, e), device, m, at + 604_800) && s.v.now <= Apply(s, e).v.now
  {
    match e
    case Send(_, mail) => StoreSendKeeps(s, mail);
    case Resume(h) => ResumeHolds(s, h, device, m, at);
    case _ =>
  }

  lemma ResumeHolds(s: State, h: Id, device: Id, m: Id, at: int)
    requires h in s.frames && Holds(s, device, m, at + 604_800) && at <= s.v.now < at + 604_800
    requires !TakesOutOf(s, Resume(h), device, m)
    ensures Holds(Continue(s, h), device, m, at + 604_800) && s.v.now == Continue(s, h).v.now
  {
    match s.frames[h]
    case Looked(d, ids, cached) =>
      if |cached| == |ids| {
        RepopulateKeeps(s.v, Missing(ids, cached), RowsOf(s, d));
      }
    case Dropping(d, dead) =>
      if dead != [] && d in s.v.lists {
        WithoutKeeps(s.v.lists[d].value, [dead[0]]);
      }
    case Acking(d, ids, _) =>
      if ids != [] && d in s.v.lists {
        WithoutKeeps(s.v.lists[d].value, [ids[0]]);
      }
    case _ =>
  }

  /** The step inserts the message into the device's inbox. */
  predicate Inserts(s: State, e: Event, device: Id, m: Id) {
    && e.Resume? && e.h in s.frames && s.frames[e.h].Enqueueing? && s.frames[e.h].mail != []
    && s.frames[e.h].mail[0].toDevice == device && s.frames[e.h].mail[0].msgId == m
    && !SeenNow(s.v, device, m)
  }

  /** Insertions, and nothing else, are logged, with their time; and they are in the inbox, for seven days. */
  lemma InsertsIff(s: State, e: Event, device: Id, m: Id)
    requires Enabled(s, e)
    ensures Apply(s, e).log == s.log + [Insertion(device, m, s.v.now)] <==> Inserts(s, e, device, m)
    ensures Inserts(s, e, device, m) ==>
              && Holds(Apply(s, e), device, m, s.v.now + 604_800) && Apply(s, e).v.now == s.v.now
              && Inbox(Apply(s, e).v, device) == Inbox(s.v, device) + [m]
  {
    var noted := s.log + [Insertion(device, m, s.v.now)];
    assert noted[|s.log|] == Insertion(device, m, s.v.now);
    match e
    case Send(_, mail) => StoreSendKeeps(s, mail);
    case Resume(h) =>
      if s.frames[h].Enqueueing? && s.frames[h].mail != [] {
        var first := s.frames[h].mail[0];
        assert (s.log + [Insertion(first.toDevice, first.msgId, s.v.now)])[|s.log|].msgId == first.msgId;
      }
    case _ =>
  }

  ghost predicate StepInserts(states: seq<State>, i: int, device: Id, m: Id)
    requires 0 <= i < |states| - 1
  {
    exists e :: Enabled(states[i], e) && Apply(states[i], e) == states[i + 1] && Inserts(states[i], e, device, m)
  }

  /** The step is one that does not take the message out. */
  ghost predicate StepLeaves(states: seq<State>, i: int, device: Id, m: Id)
    requires 0 <= i < |states| - 1
  {
    exists e :: Enabled(states[i], e) && Apply(states[i], e) == states[i + 1] && !TakesOutOf(states[i], e, device, m)
  }

  lemma {:induction false} HeldAlong(states: seq<State>, i: nat, j: nat, device: Id, m: Id)
    requires i < j < |states| && StepInserts(states, i, device, m)
    requires forall k :: i < k < j ==> StepLeaves(states, k, device, m)
    requires states[j].v.now < states[i].v.now + 604_800
    ensures Holds(states[j], device, m, states[i].v.now + 604_800) && states[i].v.now <= states[j].v.now
  {
    if j == i + 1 {
      var e :| Enabled(states[i], e) && Apply(states[i], e) == states[i + 1] && Inserts(states[i], e, device, m);
      InsertsIff(states[i], e, device, m);
    } else {
      assert StepLeaves(states, j - 1, device, m);
      var e :| Enabled(states[j - 1], e) && Apply(states[j - 1], e) == states[j]
        && !TakesOutOf(states[j - 1], e, device, m);
      StepGrows(states[j - 1], e);
      HeldAlong(states, i, j - 1, device, m);
      StepHolds(states[j - 1], e, device, m, states[i].v.now);
    }
  }

  /**
   * In every run, a message that was inserted and has been neither acked nor dropped since is in the inbox,
   * whatever else has happened, as long as the clock is less than seven days past its insertion.
   */
  lemma InsertedStays(states: seq<State>, i: nat, j: nat, device: Id, m: Id)
    requires i < j < |states| && StepInserts(states, i, device, m)
    requires forall k :: i < k < j ==> StepLeaves(states, k, device, m)
    requires states[j].v.now < states[i].v.now + 604_800
    ensures m in Inbox(states[j].v, device)
  {
    HeldAlong(states, i, j, device, m);
  }
}
